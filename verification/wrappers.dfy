/** The nullable values of the application (`File | null`, `Blob | null`) as an Option. */
module Wrappers {

  datatype Option<+T> = None | Some(value: T)
}
