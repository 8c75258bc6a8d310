/** Missing cells. A pandas NaN (or an absent optional value) is `None`. */
module Wrappers {

  datatype Option<+T> = None | Some(value: T)
}
