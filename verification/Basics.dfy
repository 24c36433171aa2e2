// Small shared vocabulary: optional values and one dimension of a strided range.
module Basics {

  datatype Option<+T> = None | Some(value: T)

  /** One (begin, end, step) entry of a range. Both bounds are inclusive. */
  datatype Dim = Dim(rb: int, re: int, rs: int)

  /** The single index i, written as a range. */
  function Point(i: int): Dim {
    Dim(i, i, 1)
  }

  /** An index tuple, written as a range. */
  function Points(index: seq<int>): (r: seq<Dim>)
    ensures |r| == |index|
  {
    seq(|index|, i requires 0 <= i < |index| => Point(index[i]))
  }
}
