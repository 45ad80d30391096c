/** The usual optional value, for results the host can leave undefined
    (an unparseable date, a parse that throws). */
module Wrappers {

  datatype Option<+T> = None | Some(value: T)
}
