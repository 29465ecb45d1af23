/** Option type used for values that may be absent: a missing output file name,
    a `stat` call that threw, a file read that threw. */
module Wrappers {

  datatype Option<+T> = None | Some(value: T)
}
