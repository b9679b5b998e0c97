/** The null-means-not-applicable convention of the calculator, as a sum type. */
module Wrappers {

  /** `None` stands for JavaScript's `null`: a ratio that is not applicable. */
  datatype Option<+T> = None | Some(value: T)
}
