/** Loop interchange: the column-outer and row-outer kernels for aa[i][j] = aa[i-1][j] + bb[i][j]. */
module Interchange {
  import opened Grid

  /** Column j summed down to row i: the start value in row 0 plus the additions of rows 1..i. */
  function ColumnSum(aa: seq<real>, bb: seq<real>, n: int, i: int, j: int): real
    requires |aa| == |bb| == n * n && 0 <= i < n && 0 <= j < n
    decreases i
  {
    if i == 0 then aa[At(0, j, n)] else ColumnSum(aa, bb, n, i - 1, j) + bb[At(i, j, n)]
  }

  /** A column sum takes in the start of its column and the additions of its column below that, down to its
      row, each once, and nothing else. */
  lemma {:induction false} ColumnSumTakesIn(aa: seq<real>, bb: seq<real>, n: int, i: int, j: int, p: int, q: int, delta: real)
    requires |aa| == |bb| == n * n && 0 <= i < n && 0 <= j < n && 0 <= p < n && 0 <= q < n
    ensures ColumnSum(aa[At(p, q, n) := aa[At(p, q, n)] + delta], bb, n, i, j)
         == ColumnSum(aa, bb, n, i, j) + if q == j && p == 0 then delta else 0.0
    ensures ColumnSum(aa, bb[At(p, q, n) := bb[At(p, q, n)] + delta], n, i, j)
         == ColumnSum(aa, bb, n, i, j) + if q == j && 1 <= p <= i then delta else 0.0
    ensures (forall k :: 0 <= k < n * n ==> aa[k] == bb[k] == 0.0) ==> ColumnSum(aa, bb, n, i, j) == 0.0
    decreases i
  {
    if At(p, q, n) == At(i, j, n) {
      AtInjective(p, q, i, j, n);
    }
    if i > 0 {
      ColumnSumTakesIn(aa, bb, n, i - 1, j, p, q, delta);
    }
  }

  ghost function Sums(aa: seq<real>, bb: seq<real>, n: int): (int, int) -> real
    requires |aa| == |bb| == n * n
  {
    (i, j) => if 0 <= i < n && 0 <= j < n then ColumnSum(aa, bb, n, i, j) else 0.0
  }

  /** The value just above is available and unharmed: the assignment computes the column sum. */
  lemma RowBelow(b: seq<real>, aa: seq<real>, bb: seq<real>, n: int, done: iset<Cell>, i: int, j: int)
    requires |aa| == |bb| == n * n && Filled(b, aa, Sums(aa, bb, n), n, done)
    requires 1 <= i < n && 0 <= j < n && (i - 1, j) in done
    ensures b[At(i - 1, j, n)] + bb[At(i, j, n)] == Sums(aa, bb, n)(i, j)
  {
  }

  lemma FirstRowFilled(aa: seq<real>, bb: seq<real>, n: int, done: iset<Cell>)
    requires n >= 0 && |aa| == |bb| == n * n && done <= Rect(0, 1, 0, n)
    ensures Filled(aa, aa, Sums(aa, bb, n), n, done)
  {
  }

  /** Adding cells of the first row, which hold their own sums already. */
  lemma FirstRowJoins(b: seq<real>, aa: seq<real>, bb: seq<real>, n: int, done: iset<Cell>, j: int)
    requires n >= 0 && |aa| == |bb| == n * n && Filled(b, aa, Sums(aa, bb, n), n, done)
    ensures Filled(b, aa, Sums(aa, bb, n), n, done + iset{(0, j)})
  {
  }

  /** s231: columns outside, rows inside. */
  method S231(aa: array<real>, bb: array<real>, n: int)
    requires n >= 0 && aa.Length == bb.Length == n * n && aa != bb
    modifies aa
    ensures Filled(aa[..], old(aa[..]), Sums(old(aa[..]), bb[..], n), n, Rect(0, n, 0, n))
  {
    ghost var before, added, f := aa[..], bb[..], Sums(aa[..], bb[..], n);
    NothingFilled(before, f, n);
    for i := 0 to n
      invariant bb[..] == added
      invariant Filled(aa[..], before, f, n, Rect(0, n, 0, i))
    {
      ghost var done := Rect(0, n, 0, i);
      FirstRowJoins(aa[..], before, added, n, done, i);
      for j := 1 to n
        invariant bb[..] == added
        invariant Filled(aa[..], before, f, n, done + Rect(0, j, i, i + 1))
      {
        ghost var now := done + Rect(0, j, i, i + 1);
        RowBelow(aa[..], before, added, n, now, j, i);
        FillCell(aa[..], before, f, n, now, j, i);
        aa[At(j, i, n)] := aa[At(j - 1, i, n)] + bb[At(j, i, n)];
        assert now + iset{(j, i)} == done + Rect(0, j + 1, i, i + 1);
      }
      assert done + Rect(0, n, i, i + 1) == Rect(0, n, 0, i + 1);
    }
  }

  /** s1119: rows outside, columns inside. */
  method S1119(aa: array<real>, bb: array<real>, n: int)
    requires n >= 0 && aa.Length == bb.Length == n * n && aa != bb
    modifies aa
    ensures Filled(aa[..], old(aa[..]), Sums(old(aa[..]), bb[..], n), n, Rect(0, n, 0, n))
  {
    ghost var before, added, f := aa[..], bb[..], Sums(aa[..], bb[..], n);
    FirstRowFilled(before, added, n, Rect(0, 1, 0, n));
    assert Rect(0, 0, 0, n) == iset{};
    var i := 1;
    while i < n
      invariant 1 <= i <= n || n == 0
      invariant bb[..] == added
      invariant Filled(aa[..], before, f, n, Rect(0, i, 0, n))
    {
      ghost var done := Rect(0, i, 0, n);
      for j := 0 to n
        invariant bb[..] == added
        invariant Filled(aa[..], before, f, n, done + Rect(i, i + 1, 0, j))
      {
        ghost var now := done + Rect(i, i + 1, 0, j);
        RowBelow(aa[..], before, added, n, now, i, j);
        FillCell(aa[..], before, f, n, now, i, j);
        aa[At(i, j, n)] := aa[At(i - 1, j, n)] + bb[At(i, j, n)];
        assert now + iset{(i, j)} == done + Rect(i, i + 1, 0, j + 1);
      }
      assert done + Rect(i, i + 1, 0, n) == Rect(0, i + 1, 0, n);
      i := i + 1;
    }
  }

  /** Both orders of the loops leave the same array. */
  method RunBoth(aa: array<real>, cc: array<real>, bb: array<real>, n: int)
    requires n >= 0 && aa.Length == bb.Length == cc.Length == n * n && aa != bb && cc != bb && aa != cc
    requires aa[..] == cc[..]
    modifies aa, cc
    ensures aa[..] == cc[..]
  {
    ghost var before := aa[..];
    S231(aa, bb, n);
    S1119(cc, bb, n);
    FilledIsUnique(aa[..], cc[..], before, Sums(before, bb[..], n), n, Rect(0, n, 0, n));
  }
}
