/** The nullable references of the C# program (an absent include list,
    an exception that was not thrown) become an Option. */
module Wrappers {

  datatype Option<+T> = None | Some(value: T)
}
