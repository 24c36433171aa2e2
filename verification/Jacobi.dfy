/** The five-point Jacobi kernel with one and with two levels of tiling. */
module Jacobi {
  import opened Arithmetic
  import opened Grid

  function Stencil(a: seq<real>, n: int, i: int, j: int): real
    requires |a| == n * n && 1 <= i < n - 1 && 1 <= j < n - 1
  {
    0.2 * (a[At(i, j, n)] + a[At(i - 1, j, n)] + a[At(i + 1, j, n)] + a[At(i, j - 1, n)] + a[At(i, j + 1, n)])
  }

  /** The cell itself and its four neighbours. */
  predicate IsNear(i: int, j: int, p: int, q: int) {
    (p == i && -1 <= q - j <= 1) || (q == j && -1 <= p - i <= 1)
  }

  /** A cell weighs one fifth in the stencils at itself and at its neighbours, and nothing anywhere else. */
  lemma StencilWeights(a: seq<real>, n: int, i: int, j: int, p: int, q: int, delta: real)
    requires |a| == n * n && 1 <= i < n - 1 && 1 <= j < n - 1 && 0 <= p < n && 0 <= q < n
    ensures var changed := a[At(p, q, n) := a[At(p, q, n)] + delta];
            Stencil(changed, n, i, j) == Stencil(a, n, i, j) + if IsNear(i, j, p, q) then 0.2 * delta else 0.0
    ensures (forall k :: 0 <= k < n * n ==> a[k] == 0.0) ==> Stencil(a, n, i, j) == 0.0
  {
    forall u, v | 0 <= u < n && 0 <= v < n ensures At(p, q, n) == At(u, v, n) ==> p == u && q == v {
      if At(p, q, n) == At(u, v, n) {
        AtInjective(p, q, u, v, n);
      }
    }
  }

  ghost function Stencils(a: seq<real>, n: int): (int, int) -> real
    requires |a| == n * n
  {
    (i, j) => if 1 <= i < n - 1 && 1 <= j < n - 1 then Stencil(a, n, i, j) else 0.0
  }

  /** The value of a counter that starts at `from` and steps by t while below the limit. */
  function EndOf(from: int, limit: int, t: int): (r: int)
    requires t > 0
    ensures from <= r && limit <= r && (from < limit ==> r < limit + t)
    decreases limit - from
  {
    if from < limit then EndOf(from + t, limit, t) else from
  }

  lemma {:induction false} EndOfShifts(from: int, limit: int, t: int, shift: int)
    requires t > 0
    ensures EndOf(from + shift, limit + shift, t) == EndOf(from, limit, t) + shift
    decreases limit - from
  {
    if from < limit {
      EndOfShifts(from + t, limit, t, shift);
    }
  }

  /** The counter ends exactly at a limit that is a whole number of steps away. */
  lemma {:induction false} EndOfMultiple(limit: int, t: int, from: int)
    requires t > 0 && from <= limit
    ensures EndOf(from, limit, t) == limit <==> (limit - from) % t == 0
    decreases limit - from
  {
    if from < limit {
      if from + t <= limit {
        EndOfMultiple(limit, t, from + t);
        assert (limit - from) % t == (limit - (from + t)) % t by { ModMinus(limit - from, t); }
      } else {
        assert EndOf(from, limit, t) == from + t;
        assert (limit - from) % t == limit - from;
      }
    }
  }

  lemma ModMinus(x: int, t: int)
    requires t > 0
    ensures x % t == (x - t) % t
  {
    var q, r := (x - t) / t, (x - t) % t;
    assert x == (q + 1) * t + r;
    UniqueRemainder(x, t, q + 1, r);
  }

  /** The covered square in closed form: a whole number of tiles, as few as reach the loop limit, and
      short of the last row. */
  lemma {:induction false} TiledSide(n: int, t: int, from: int)
    requires t > 0 && 1 <= from
    ensures var side := EndOf(from, n - 1 - t, t);
            && (side - from) % t == 0 && n - 1 - t <= side
            && (if from < n - 1 - t then side < n - 1 else side == from)
    decreases n - from
  {
    if from < n - 1 - t {
      TiledSide(n, t, from + t);
      var side := EndOf(from, n - 1 - t, t);
      assert (side - from) % t == (side - (from + t)) % t by { ModMinus(side - from, t); }
    } else {
      assert 0 % t == 0;
    }
  }

  method StencilOf(a: array<real>, n: int, i: int, j: int) returns (v: real)
    requires a.Length == n * n && 1 <= i < n - 1 && 1 <= j < n - 1
    ensures v == Stencils(a[..], n)(i, j)
  {
    v := 0.2 * (a[At(i, j, n)] + a[At(i - 1, j, n)] + a[At(i + 1, j, n)] + a[At(i, j - 1, n)] + a[At(i, j + 1, n)]);
  }

  /** The innermost two loops: one tile. */
  method FillTile(b: array<real>, a: array<real>, n: int, i0: int, i1: int, j0: int, j1: int,
                  ghost before: seq<real>, ghost done: iset<Cell>)
    requires n >= 0 && a.Length == b.Length == n * n && a != b
    requires 1 <= i0 <= i1 <= n - 1 && 1 <= j0 <= j1 <= n - 1
    requires Filled(b[..], before, Stencils(a[..], n), n, done)
    modifies b
    ensures Filled(b[..], before, Stencils(a[..], n), n, done + Rect(i0, i1, j0, j1))
  {
    hide Filled, Rect, Stencils;
    ghost var f, source := Stencils(a[..], n), a[..];
    NoRows(done, i0, j0, j1);
    for i := i0 to i1
      invariant a[..] == source
      invariant Filled(b[..], before, f, n, done + Rect(i0, i, j0, j1))
    {
      ghost var rows := done + Rect(i0, i, j0, j1);
      NoColumns(rows, i, i + 1, j0);
      for j := j0 to j1
        invariant a[..] == source
        invariant Filled(b[..], before, f, n, rows + Rect(i, i + 1, j0, j))
      {
        ghost var now := rows + Rect(i, i + 1, j0, j);
        FillCell(b[..], before, f, n, now, i, j);
        var v := StencilOf(a, n, i, j);
        b[At(i, j, n)] := v;
        NextCell(rows, i, j0, j);
      }
      JoinRows(done, i0, i, i, i + 1, j0, j1);
    }
  }

  /** One level of tiles. The square from 1 to the counter's end value is covered, nothing else. */
  method TiledJacobi(b: array<real>, a: array<real>, n: int, t: int)
    requires n >= 0 && t > 0 && a.Length == b.Length == n * n && a != b
    modifies b
    ensures var side := EndOf(1, n - 1 - t, t);
            Filled(b[..], old(b[..]), Stencils(a[..], n), n, Rect(1, side, 1, side))
  {
    hide Filled, Rect, Stencils;
    ghost var before, f, source := b[..], Stencils(a[..], n), a[..];
    var limit := n - 1 - t;
    ghost var side := EndOf(1, limit, t);
    NothingFilled(before, f, n);
    NoRows(iset{}, 1, 1, side);
    var ii := 1;
    while ii < limit
      invariant 1 <= ii && EndOf(ii, limit, t) == side && a[..] == source
      invariant Filled(b[..], before, f, n, iset{} + Rect(1, ii, 1, side))
    {
      ghost var rows := iset{} + Rect(1, ii, 1, side);
      NoColumns(rows, ii, ii + t, 1);
      var jj := 1;
      while jj < limit
        invariant 1 <= jj && EndOf(jj, limit, t) == side && a[..] == source
        invariant Filled(b[..], before, f, n, rows + Rect(ii, ii + t, 1, jj))
      {
        FillTile(b, a, n, ii, ii + t, jj, jj + t, before, rows + Rect(ii, ii + t, 1, jj));
        JoinColumns(rows, ii, ii + t, 1, jj, jj, jj + t);
        jj := jj + t;
      }
      JoinRows(iset{}, 1, ii, ii, ii + t, 1, side);
      ii := ii + t;
    }
    assert iset{} + Rect(1, side, 1, side) == Rect(1, side, 1, side);
  }

  /** One band of inner tiles: they reach the first whole number of tiles at or after the limit. */
  method FillBand(b: array<real>, a: array<real>, n: int, i0: int, i1: int, jj: int, limit: int, t2: int,
                  ghost before: seq<real>, ghost done: iset<Cell>)
    requires n >= 0 && a.Length == b.Length == n * n && a != b && t2 > 0
    requires 1 <= i0 <= i1 <= n - 1 && 1 <= jj && EndOf(jj, limit, t2) <= n - 1
    requires Filled(b[..], before, Stencils(a[..], n), n, done)
    modifies b
    ensures Filled(b[..], before, Stencils(a[..], n), n, done + Rect(i0, i1, jj, EndOf(jj, limit, t2)))
  {
    hide Filled, Rect, Stencils;
    ghost var f, source, end := Stencils(a[..], n), a[..], EndOf(jj, limit, t2);
    NoColumns(done, i0, i1, jj);
    var jjj := jj;
    while jjj < limit
      invariant jj <= jjj && EndOf(jjj, limit, t2) == end && a[..] == source
      invariant Filled(b[..], before, f, n, done + Rect(i0, i1, jj, jjj))
    {
      FillTile(b, a, n, i0, i1, jjj, jjj + t2, before, done + Rect(i0, i1, jj, jjj));
      JoinColumns(done, i0, i1, jj, jjj, jjj, jjj + t2);
      jjj := jjj + t2;
    }
  }

  /** The inner tiles of one outer tile. */
  method FillBlock(b: array<real>, a: array<real>, n: int, ii: int, jj: int, t1: int, t2: int,
                   ghost before: seq<real>, ghost done: iset<Cell>)
    requires n >= 0 && a.Length == b.Length == n * n && a != b && t1 > 0 && t2 > 0
    requires 1 <= ii && 1 <= jj && EndOf(ii, ii + t1, t2) <= n - 1 && EndOf(jj, jj + t1, t2) <= n - 1
    requires Filled(b[..], before, Stencils(a[..], n), n, done)
    modifies b
    ensures Filled(b[..], before, Stencils(a[..], n), n,
                   done + Rect(ii, EndOf(ii, ii + t1, t2), jj, EndOf(jj, jj + t1, t2)))
  {
    hide Filled, Rect, Stencils;
    ghost var f, source, right, limit := Stencils(a[..], n), a[..], EndOf(jj, jj + t1, t2), ii + t1;
    ghost var bottom := EndOf(ii, limit, t2);
    NoRows(done, ii, jj, right);
    var iii := ii;
    while iii < ii + t1
      invariant ii <= iii && EndOf(iii, limit, t2) == bottom && a[..] == source
      invariant Filled(b[..], before, f, n, done + Rect(ii, iii, jj, right))
    {
      FillBand(b, a, n, iii, iii + t2, jj, jj + t1, t2, before, done + Rect(ii, iii, jj, right));
      JoinRows(done, ii, iii, iii, iii + t2, jj, right);
      iii := iii + t2;
    }
  }

  /** The outer tile rounded up to whole inner tiles. */
  function Reach(t1: int, t2: int): (r: int)
    requires t1 > 0 && t2 > 0
    ensures t1 <= r < t1 + t2
  {
    EndOf(0, t1, t2)
  }

  /** Side of the square that two levels of tiles cover. */
  function Side2(n: int, t1: int, t2: int): int
    requires t1 > 0 && t2 > 0
  {
    var side := EndOf(1, n - 1 - t1, t1);
    if side == 1 then 1 else side - t1 + Reach(t1, t2)
  }

  /** Where the covered part ends when the outer counter is at ii. */
  function Covered(ii: int, t1: int, t2: int): int
    requires t1 > 0 && t2 > 0
  {
    if ii == 1 then 1 else ii - t1 + Reach(t1, t2)
  }

  /** What holds whenever an outer counter is below its limit: the block fits, and overlaps or
      continues what is covered. */
  lemma NextBlock(n: int, t1: int, t2: int, ii: int)
    requires t1 > 0 && t2 > 0 && 1 <= ii < n - 1 - t1 && (ii == 1 || 1 + t1 <= ii)
    requires EndOf(ii, n - 1 - t1, t1) == EndOf(1, n - 1 - t1, t1)
    ensures EndOf(ii + t1, n - 1 - t1, t1) == EndOf(1, n - 1 - t1, t1)
    ensures EndOf(ii, ii + t1, t2) == ii + Reach(t1, t2) <= Side2(n, t1, t2)
    ensures ii <= Covered(ii, t1, t2) <= ii + Reach(t1, t2) == Covered(ii + t1, t1, t2)
  {
    EndOfShifts(0, t1, t2, ii);
  }

  /** The counter is at its end: all is covered. */
  lemma LastBlock(n: int, t1: int, t2: int, ii: int)
    requires t1 > 0 && t2 > 0 && ii >= n - 1 - t1 && EndOf(ii, n - 1 - t1, t1) == EndOf(1, n - 1 - t1, t1)
    ensures Covered(ii, t1, t2) == Side2(n, t1, t2)
  {
  }

  lemma NothingCovered(t1: int, t2: int)
    requires t1 > 0 && t2 > 0
    ensures Covered(1, t1, t2) == 1
  {
  }

  /** The outer tiles beside each other, from row ii down. */
  method FillBlocks(b: array<real>, a: array<real>, n: int, ii: int, t1: int, t2: int,
                    ghost before: seq<real>, ghost rows: iset<Cell>)
    requires n >= 0 && a.Length == b.Length == n * n && a != b && t1 > 0 && t2 > 0
    requires 1 <= ii && EndOf(ii, ii + t1, t2) == ii + Reach(t1, t2) <= Side2(n, t1, t2) <= n - 1
    requires Filled(b[..], before, Stencils(a[..], n), n, rows)
    modifies b
    ensures Filled(b[..], before, Stencils(a[..], n), n, rows + Rect(ii, ii + Reach(t1, t2), 1, Side2(n, t1, t2)))
  {
    hide Filled, Rect, Stencils, EndOf, Side2, Covered, Reach;
    ghost var f, source, r := Stencils(a[..], n), a[..], Reach(t1, t2);
    var limit := n - 1 - t1;
    NoColumns(rows, ii, ii + r, 1);
    NothingCovered(t1, t2);
    var jj := 1;
    while jj < limit
      invariant 1 <= jj && (jj == 1 || 1 + t1 <= jj) && EndOf(jj, limit, t1) == EndOf(1, limit, t1) && a[..] == source
      invariant Filled(b[..], before, f, n, rows + Rect(ii, ii + r, 1, Covered(jj, t1, t2)))
    {
      NextBlock(n, t1, t2, jj);
      ghost var covered, next := Covered(jj, t1, t2), Covered(jj + t1, t1, t2);
      ghost var now := rows + Rect(ii, ii + r, 1, covered);
      JoinColumns(rows, ii, ii + r, 1, covered, jj, next);
      FillBlock(b, a, n, ii, jj, t1, t2, before, now);
      assert Filled(b[..], before, f, n, rows + Rect(ii, ii + r, 1, next));
      jj := jj + t1;
    }
    LastBlock(n, t1, t2, jj);
  }

  /** Two levels of tiles. In-bounds whenever the covered square ends before the last row. */
  method DoubleTiledJacobi(b: array<real>, a: array<real>, n: int, t1: int, t2: int)
    requires n >= 0 && t1 > 0 && t2 > 0 && a.Length == b.Length == n * n && a != b
    requires Side2(n, t1, t2) <= n - 1 || n - 1 - t1 <= 1
    modifies b
    ensures var side := Side2(n, t1, t2);
            Filled(b[..], old(b[..]), Stencils(a[..], n), n, Rect(1, side, 1, side))
  {
    hide Filled, Rect, Stencils, EndOf, Side2, Covered, Reach;
    ghost var before, f, source := b[..], Stencils(a[..], n), a[..];
    var limit := n - 1 - t1;
    ghost var side, r := Side2(n, t1, t2), Reach(t1, t2);
    NothingFilled(before, f, n);
    NoRows(iset{}, 1, 1, side);
    NothingCovered(t1, t2);
    var ii := 1;
    while ii < limit
      invariant 1 <= ii && (ii == 1 || 1 + t1 <= ii) && EndOf(ii, limit, t1) == EndOf(1, limit, t1) && a[..] == source
      invariant Filled(b[..], before, f, n, iset{} + Rect(1, Covered(ii, t1, t2), 1, side))
    {
      NextBlock(n, t1, t2, ii);
      ghost var covered, next := Covered(ii, t1, t2), Covered(ii + t1, t1, t2);
      JoinRows(iset{}, 1, covered, ii, next, 1, side);
      FillBlocks(b, a, n, ii, t1, t2, before, iset{} + Rect(1, covered, 1, side));
      assert Filled(b[..], before, f, n, iset{} + Rect(1, next, 1, side));
      ii := ii + t1;
    }
    LastBlock(n, t1, t2, ii);
    assert iset{} + Rect(1, side, 1, side) == Rect(1, side, 1, side);
  }

  /** The two versions cover the same square exactly when the inner tile divides the outer one
      (or when there is nothing to cover). */
  lemma SameSquareIff(n: int, t1: int, t2: int)
    requires t1 > 0 && t2 > 0
    ensures Side2(n, t1, t2) == EndOf(1, n - 1 - t1, t1) <==> t1 % t2 == 0 || n - 1 - t1 <= 1
  {
    EndOfMultiple(t1, t2, 0);
  }

  /** b and c can be what the two kernels leave, started from the same arrays. */
  ghost predicate Outcomes(a: seq<real>, before: seq<real>, b: seq<real>, c: seq<real>, n: int, t1: int, t2: int)
    requires t1 > 0 && t2 > 0 && n >= 0 && |a| == n * n
  {
    var one, two := EndOf(1, n - 1 - t1, t1), Side2(n, t1, t2);
    && Filled(b, before, Stencils(a, n), n, Rect(1, one, 1, one))
    && Filled(c, before, Stencils(a, n), n, Rect(1, two, 1, two))
  }

  /** Squares of different sides, the larger one inside the array: on an input of ones and an output
      of zeros the kernels end differently. */
  lemma DifferentSquaresShow(n: int, t1: int, t2: int, a: seq<real>, before: seq<real>, b: seq<real>, c: seq<real>)
    requires t1 > 0 && t2 > 0 && n - 1 - t1 > 1 && Side2(n, t1, t2) <= n - 1
    requires Side2(n, t1, t2) != EndOf(1, n - 1 - t1, t1)
    requires |a| == |before| == n * n && (forall k :: 0 <= k < n * n ==> a[k] == 1.0 && before[k] == 0.0)
    requires Outcomes(a, before, b, c, n, t1, t2)
    ensures b != c
  {
    var one := EndOf(1, n - 1 - t1, t1);
    assert one < Side2(n, t1, t2);
    assert Stencil(a, n, one, 1) == 0.2 * (1.0 + 1.0 + 1.0 + 1.0 + 1.0);
    assert b[At(one, 1, n)] == 0.0 && c[At(one, 1, n)] == Stencils(a, n)(one, 1);
  }

  /** The two kernels leave equal arrays on all inputs exactly when the inner tile divides the outer
      one, or when there is nothing to cover. */
  lemma TilingsAgreeIff(n: int, t1: int, t2: int)
    requires n >= 0 && t1 > 0 && t2 > 0 && (Side2(n, t1, t2) <= n - 1 || n - 1 - t1 <= 1)
    ensures (forall a, before, b, c :: |a| == n * n && Outcomes(a, before, b, c, n, t1, t2) ==> b == c)
       <==> t1 % t2 == 0 || n - 1 - t1 <= 1
  {
    SameSquareIff(n, t1, t2);
    var one, two := EndOf(1, n - 1 - t1, t1), Side2(n, t1, t2);
    if one == two {
      forall a, before, b, c | |a| == n * n && Outcomes(a, before, b, c, n, t1, t2) ensures b == c {
        FilledIsUnique(b, c, before, Stencils(a, n), n, Rect(1, one, 1, one));
      }
    } else {
      var a, before := seq(n * n, _ => 1.0), seq(n * n, _ => 0.0);
      var b := FilledExists(before, Stencils(a, n), n, Rect(1, one, 1, one));
      var c := FilledExists(before, Stencils(a, n), n, Rect(1, two, 1, two));
      assert Outcomes(a, before, b, c, n, t1, t2);
      DifferentSquaresShow(n, t1, t2, a, before, b, c);
    }
  }

  /** An 8 by 8 array with tiles of 3 and 2: the squares end at 4 and at 5, and the arrays differ. */
  method RunUnevenTiles(b: array<real>, c: array<real>, a: array<real>)
    requires a.Length == b.Length == c.Length == 64 && a != b && a != c && b != c
    requires forall k :: 0 <= k < 64 ==> a[k] == 1.0 && b[k] == c[k] == 0.0
    modifies b, c
    ensures EndOf(1, 8 - 1 - 3, 3) == 4 && Side2(8, 3, 2) == 5
    ensures b[..] != c[..]
  {
    ghost var before := b[..];
    assert c[..] == before;
    UnevenSquares();
    TiledJacobi(b, a, 8, 3);
    DoubleTiledJacobi(c, a, 8, 3, 2);
    DifferentSquaresShow(8, 3, 2, a[..], before, b[..], c[..]);
  }

  lemma UnevenSquares()
    ensures EndOf(1, 8 - 1 - 3, 3) == 4 && Side2(8, 3, 2) == 5
  {
    assert EndOf(4, 4, 3) == 4;
    assert EndOf(4, 3, 2) == 4 && EndOf(2, 3, 2) == 4 && EndOf(0, 3, 2) == 4;
  }

  /** Both versions leave the same array when the inner tile divides the outer one. */
  method RunBoth(b: array<real>, c: array<real>, a: array<real>, n: int, t1: int, t2: int)
    requires n >= 0 && t1 > 0 && t2 > 0 && t1 % t2 == 0
    requires a.Length == b.Length == c.Length == n * n && a != b && a != c && b != c && b[..] == c[..]
    modifies b, c
    ensures b[..] == c[..]
  {
    ghost var before, side := b[..], EndOf(1, n - 1 - t1, t1);
    SameSquareIff(n, t1, t2);
    TiledJacobi(b, a, n, t1);
    DoubleTiledJacobi(c, a, n, t1, t2);
    FilledIsUnique(b[..], c[..], before, Stencils(a[..], n), n, Rect(1, side, 1, side));
  }
}
