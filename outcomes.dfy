/** Failure-carrying wrappers used across the model. */
module Outcomes {

  datatype Option<+T> = None | Some(value: T)

  /** The result of a run or step that may end in an unrecovered exception. */
  datatype Result<+T, +E> = Ok(value: T) | Failure(error: E)

  /** The present values of a sequence of options, in order. */
  function Somes<T>(xs: seq<Option<T>>): (r: seq<T>)
    ensures |r| <= |xs|
    decreases |xs|
  {
    if xs == [] then []
    else
      var pre := Somes(xs[..|xs| - 1]);
      match xs[|xs| - 1]
      case None => pre
      case Some(x) => pre + [x]
  }

  /** A value is kept iff it is present somewhere. */
  lemma {:induction false} SomesMembers<T>(xs: seq<Option<T>>, x: T)
    ensures x in Somes(xs) <==> Some(x) in xs
    decreases |xs|
  {
    if xs != [] {
      var init := xs[..|xs| - 1];
      SomesMembers(init, x);
      assert xs == init + [xs[|xs| - 1]];
    }
  }
}
