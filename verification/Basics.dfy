/** Small definitions that several modules share. */
module Basics {

  datatype Option<+T> = None | Some(value: T)

  /** A condition as a number, for counting. */
  function One(b: bool): nat {
    if b then 1 else 0
  }
}
