/** The Option type that stands for Kotlin's nullable references (`Rect?`, `cvRect?`, `TrackerCSRT?`). */
module Wrappers {

  datatype Option<+T> = None | Some(value: T)
}
