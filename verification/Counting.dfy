module Counting {

  /** What a condition contributes to a count. */
  function One(b: bool): nat {
    if b then 1 else 0
  }
}
