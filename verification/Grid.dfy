/**
 Square matrices stored row by row in flat arrays, and what it means that a kernel has filled
 some cells with given values and left the others alone.
 */
module Grid {
  import opened Arithmetic

  /** The flat index of cell (i, j). */
  function At(i: int, j: int, n: int): (k: int)
    requires 0 <= i < n && 0 <= j < n
    ensures 0 <= k < n * n
  {
    assert (n - 1 - i) * n >= 0;
    assert (n - 1 - i) * n == n * n - n - i * n;
    assert i * n >= 0;
    i * n + j
  }

  lemma AtInjective(i: int, j: int, i': int, j': int, n: int)
    requires 0 <= i < n && 0 <= j < n && 0 <= i' < n && 0 <= j' < n
    requires At(i, j, n) == At(i', j', n)
    ensures i == i' && j == j'
  {
    UniqueRemainder(At(i, j, n), n, i, j);
    UniqueRemainder(At(i, j, n), n, i', j');
  }

  lemma AtSurjective(k: int, n: nat) returns (i: int, j: int)
    requires 0 <= k < n * n
    ensures 0 <= i < n && 0 <= j < n && At(i, j, n) == k
  {
    assert n != 0;
    i, j := k / n, k % n;
    assert i * n + j == k;
    assert (n - i) * n == n * n - i * n;
    PositiveFactor(n - i, n);
  }

  type Cell = (int, int)

  /** The cells of rows i0 up to i1 and columns j0 up to j1. */
  ghost function Rect(i0: int, i1: int, j0: int, j1: int): iset<Cell> {
    iset c: Cell | i0 <= c.0 < i1 && j0 <= c.1 < j1
  }

  /** The cells in `done` hold the value of f, the others what they held in `before`. */
  ghost predicate Filled(b: seq<real>, before: seq<real>, f: (int, int) -> real, n: int, done: iset<Cell>) {
    && n >= 0 && |b| == |before| == n * n
    && forall i, j :: 0 <= i < n && 0 <= j < n ==>
         b[At(i, j, n)] == if (i, j) in done then f(i, j) else before[At(i, j, n)]
  }

  lemma NothingFilled(b: seq<real>, f: (int, int) -> real, n: int)
    requires n >= 0 && |b| == n * n
    ensures Filled(b, b, f, n, iset{})
  {
  }

  lemma FillCell(b: seq<real>, before: seq<real>, f: (int, int) -> real, n: int, done: iset<Cell>, i: int, j: int)
    requires Filled(b, before, f, n, done) && 0 <= i < n && 0 <= j < n
    ensures Filled(b[At(i, j, n) := f(i, j)], before, f, n, done + iset{(i, j)})
  {
    var b' := b[At(i, j, n) := f(i, j)];
    forall i', j' | 0 <= i' < n && 0 <= j' < n
      ensures b'[At(i', j', n)] == if (i', j') in done + iset{(i, j)} then f(i', j') else before[At(i', j', n)]
    {
      if At(i, j, n) == At(i', j', n) {
        AtInjective(i, j, i', j', n);
      }
    }
  }

  /** The filled cells determine the array. */
  lemma FilledIsUnique(b: seq<real>, c: seq<real>, before: seq<real>, f: (int, int) -> real, n: int, done: iset<Cell>)
    requires Filled(b, before, f, n, done) && Filled(c, before, f, n, done)
    ensures b == c
  {
    forall k | 0 <= k < n * n ensures b[k] == c[k] {
      var i, j := AtSurjective(k, n);
    }
  }

  /** There always is such an array. */
  lemma FilledExists(before: seq<real>, f: (int, int) -> real, n: int, done: iset<Cell>) returns (b: seq<real>)
    requires n >= 0 && |before| == n * n
    ensures Filled(b, before, f, n, done)
  {
    if n == 0 {
      b := before;
    } else {
      b := seq(n * n, k requires 0 <= k < n * n => if (k / n, k % n) in done then f(k / n, k % n) else before[k]);
      forall i, j | 0 <= i < n && 0 <= j < n
        ensures b[At(i, j, n)] == if (i, j) in done then f(i, j) else before[At(i, j, n)]
      {
        UniqueRemainder(At(i, j, n), n, i, j);
      }
    }
  }

  // ---- putting rectangles together ----

  lemma NextCell(done: iset<Cell>, i: int, j0: int, j: int)
    requires j0 <= j
    ensures done + Rect(i, i + 1, j0, j) + iset{(i, j)} == done + Rect(i, i + 1, j0, j + 1)
  {
    assert forall c: Cell :: c in iset{(i, j)} <==> c.0 == i && c.1 == j;
  }

  lemma NoRows(done: iset<Cell>, i: int, j0: int, j1: int)
    ensures done + Rect(i, i, j0, j1) == done
  {
  }

  lemma NoColumns(done: iset<Cell>, i0: int, i1: int, j: int)
    ensures done + Rect(i0, i1, j, j) == done
  {
  }

  lemma JoinColumns(done: iset<Cell>, i0: int, i1: int, j0: int, j: int, j': int, j1: int)
    requires j0 <= j' <= j <= j1
    ensures done + Rect(i0, i1, j0, j) + Rect(i0, i1, j', j1) == done + Rect(i0, i1, j0, j1)
  {
  }

  lemma JoinRows(done: iset<Cell>, i0: int, i: int, i': int, i1: int, j0: int, j1: int)
    requires i0 <= i' <= i <= i1
    ensures done + Rect(i0, i, j0, j1) + Rect(i', i1, j0, j1) == done + Rect(i0, i1, j0, j1)
  {
  }
}
