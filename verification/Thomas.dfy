/**
 The tridiagonal solver: forward elimination and back substitution, over the reals. Whether it
 meets a zero pivot is expressed without division, by the leading principal minors.
 */
module Thomas {

  /** A tridiagonal system: sub-diagonal, diagonal, super-diagonal, right-hand side. */
  datatype System = System(a: seq<real>, b: seq<real>, c: seq<real>, d: seq<real>) {
    predicate Valid() {
      |a| == |b| == |c| == |d| && |b| > 0
    }

    function Size(): nat {
      |b|
    }

    /** Row i applied to x; the first row has no left neighbour and the last one no right one. */
    function Row(x: seq<real>, i: nat): real
      requires Valid() && |x| == Size() && i < Size()
    {
      (if i == 0 then 0.0 else a[i] * x[i - 1]) + b[i] * x[i] + (if i == Size() - 1 then 0.0 else c[i] * x[i + 1])
    }

    ghost predicate Solves(x: seq<real>)
      requires Valid()
    {
      |x| == Size() && forall i :: 0 <= i < Size() ==> Row(x, i) == d[i]
    }

    /** The determinant of the leading k-by-k block. */
    function Minor(k: nat): real
      requires Valid() && k <= Size()
    {
      if k == 0 then 1.0
      else if k == 1 then b[0]
      else b[k - 1] * Minor(k - 1) - a[k - 1] * c[k - 2] * Minor(k - 2)
    }

    /** No leading principal minor vanishes. */
    ghost predicate Regular()
      requires Valid()
    {
      forall k :: 0 <= k <= Size() ==> Minor(k) != 0.0
    }
  }

  /** Pivots m and eliminated coefficients c, d of the first k rows. */
  ghost predicate Eliminated(s: System, m: seq<real>, c: seq<real>, d: seq<real>, k: nat) {
    && s.Valid() && k <= s.Size() && |m| >= k && |c| == |d| == s.Size()
    && (forall i :: 0 <= i < k ==> EliminatedRow(s, m, c, d, i))
  }

  ghost predicate EliminatedRow(s: System, m: seq<real>, c: seq<real>, d: seq<real>, i: nat)
    requires s.Valid() && i < s.Size() && i < |m| && |c| == |d| == s.Size()
  {
    && m[i] != 0.0
    && m[i] == s.b[i] - (if i == 0 then 0.0 else s.a[i] * c[i - 1])
    && c[i] * m[i] == s.c[i]
    && d[i] * m[i] == s.d[i] - (if i == 0 then 0.0 else s.a[i] * d[i - 1])
  }

  // ---- pivots and minors ----

  lemma NextMinor(b: real, a: real, c: real, c': real, m: real, m': real, below: real, minor: real)
    requires m * below == minor && c' * m == c && m' == b - a * c'
    ensures m' * minor == b * minor - a * c * below
  {
    assert c' * minor == c' * (m * below);
    assert c' * (m * below) == c * below;
    assert (a * c') * minor == a * (c' * minor);
    assert a * (c * below) == a * c * below;
    assert (b - a * c') * minor == b * minor - (a * c') * minor;
  }

  /** Each pivot is the ratio of two consecutive minors. */
  lemma {:induction false} PivotTimesMinor(s: System, m: seq<real>, c: seq<real>, d: seq<real>, k: nat)
    requires k > 0 && Eliminated(s, m, c, d, k)
    ensures m[k - 1] * s.Minor(k - 1) == s.Minor(k)
  {
    assert EliminatedRow(s, m, c, d, k - 1);
    if k > 1 {
      PivotTimesMinor(s, m, c, d, k - 1);
      assert EliminatedRow(s, m, c, d, k - 2);
      NextMinor(s.b[k - 1], s.a[k - 1], s.c[k - 2], c[k - 2], m[k - 2], m[k - 1], s.Minor(k - 2), s.Minor(k - 1));
    }
  }

  lemma ZeroTimes(x: real, y: real)
    requires x == 0.0
    ensures x * y == 0.0
  {
  }

  lemma NonZeroTimes(x: real, y: real)
    requires x != 0.0 && y != 0.0
    ensures x * y != 0.0
  {
  }

  /** The next pivot vanishes exactly when the next minor does. */
  lemma NextPivot(s: System, m: seq<real>, c: seq<real>, d: seq<real>, k: nat, pivot: real)
    requires Eliminated(s, m, c, d, k) && k < s.Size() && s.Minor(k) != 0.0
    requires pivot == s.b[k] - (if k == 0 then 0.0 else s.a[k] * c[k - 1])
    ensures pivot == 0.0 <==> s.Minor(k + 1) == 0.0
  {
    if k > 0 {
      PivotTimesMinor(s, m, c, d, k);
      assert EliminatedRow(s, m, c, d, k - 1);
      NextMinor(s.b[k], s.a[k], s.c[k - 1], c[k - 1], m[k - 1], pivot, s.Minor(k - 1), s.Minor(k));
      assert pivot * s.Minor(k) == s.Minor(k + 1);
    }
    if pivot == 0.0 {
      ZeroTimes(pivot, s.Minor(k));
    } else {
      NonZeroTimes(pivot, s.Minor(k));
    }
  }

  /** A system can be eliminated to the end only if it is regular. */
  lemma {:induction false} EliminatedIsRegular(s: System, m: seq<real>, c: seq<real>, d: seq<real>, k: nat)
    requires Eliminated(s, m, c, d, k)
    ensures forall j :: 0 <= j <= k ==> s.Minor(j) != 0.0
  {
    if k > 0 {
      EliminatedIsRegular(s, m, c, d, k - 1);
      PivotTimesMinor(s, m, c, d, k);
      assert EliminatedRow(s, m, c, d, k - 1);
      NonZeroTimes(m[k - 1], s.Minor(k - 1));
    }
  }

  // ---- back substitution ----

  ghost predicate BackSubstituted(x: seq<real>, c: seq<real>, d: seq<real>, from: nat) {
    && |x| == |c| == |d| && from < |x|
    && x[|x| - 1] == d[|x| - 1]
    && forall i :: from <= i < |x| - 1 ==> x[i] == BackValue(c[i], d[i], x[i + 1])
  }

  function BackValue(c: real, d: real, next: real): real {
    d - c * next
  }

  function Next(x: seq<real>, i: nat): real
    requires i < |x|
  {
    if i == |x| - 1 then 0.0 else x[i + 1]
  }

  function Previous(x: seq<real>, i: nat): real
    requires i < |x|
  {
    if i == 0 then 0.0 else x[i - 1]
  }

  lemma RowIs(s: System, x: seq<real>, i: nat)
    requires s.Valid() && |x| == s.Size() && i < s.Size()
    ensures s.Row(x, i) == s.a[i] * Previous(x, i) + s.b[i] * x[i] + s.c[i] * Next(x, i)
  {
  }

  /** The eliminated row with its neighbours gives the original row. */
  lemma RowAlgebra(a: real, b: real, c: real, d: real, m: real, c': real, d': real, pc: real, pd: real,
                   prev: real, x: real, next: real)
    requires m == b - a * pc && c' * m == c && d' * m == d - a * pd
    requires x == d' - c' * next && prev == pd - pc * x
    ensures a * prev + b * x + c * next == d
  {
    assert a * prev == a * pd - (a * pc) * x;
    assert m * x == b * x - (a * pc) * x;
    assert m * x == m * d' - m * (c' * next);
    assert m * (c' * next) == (c' * m) * next;
  }

  /** Conversely, a row of the original system with the eliminated row above gives the eliminated row. */
  lemma SolveAlgebra(a: real, b: real, c: real, d: real, m: real, c': real, d': real, pc: real, pd: real,
                     prev: real, y: real, next: real)
    requires m != 0.0 && m == b - a * pc && c' * m == c && d' * m == d - a * pd
    requires a * prev + b * y + c * next == d && prev == pd - pc * y
    ensures y == d' - c' * next
  {
    assert a * prev == a * pd - (a * pc) * y;
    assert m * y == b * y - (a * pc) * y;
    assert (c' * m) * next == (c' * next) * m;
    Cancel(y, d' - c' * next, m);
  }

  lemma Cancel(x: real, y: real, m: real)
    requires m != 0.0 && m * x == y * m
    ensures x == y
  {
    assert (x - y) * m == 0.0;
    if x != y {
      NonZeroTimes(x - y, m);
    }
  }

  lemma RowHolds(s: System, m: seq<real>, c: seq<real>, d: seq<real>, x: seq<real>, i: nat)
    requires Eliminated(s, m, c, d, s.Size()) && BackSubstituted(x, c, d, 0) && i < s.Size()
    ensures s.Row(x, i) == s.d[i]
  {
    RowIs(s, x, i);
    assert EliminatedRow(s, m, c, d, i);
    var pc, pd := Previous(c, i), Previous(d, i);
    var a := if i == 0 then 0.0 else s.a[i];
    RowAlgebra(a, s.b[i], s.c[i], s.d[i], m[i], c[i], d[i], pc, pd,
               if i == 0 then pd - pc * x[0] else x[i - 1], x[i], Next(x, i));
  }

  /** Every solution satisfies the eliminated equations. */
  lemma {:induction false} SolutionIsEliminated(s: System, m: seq<real>, c: seq<real>, d: seq<real>, y: seq<real>, i: nat)
    requires Eliminated(s, m, c, d, s.Size()) && s.Solves(y) && i < s.Size()
    ensures y[i] == d[i] - c[i] * Next(y, i)
  {
    RowIs(s, y, i);
    assert s.Row(y, i) == s.d[i];
    assert EliminatedRow(s, m, c, d, i);
    var pc, pd := Previous(c, i), Previous(d, i);
    var a := if i == 0 then 0.0 else s.a[i];
    if i > 0 {
      SolutionIsEliminated(s, m, c, d, y, i - 1);
    }
    SolveAlgebra(a, s.b[i], s.c[i], s.d[i], m[i], c[i], d[i], pc, pd,
                 if i == 0 then pd - pc * y[0] else y[i - 1], y[i], Next(y, i));
  }

  lemma {:induction false} SolutionsAgree(s: System, m: seq<real>, c: seq<real>, d: seq<real>,
                                          x: seq<real>, y: seq<real>, i: nat)
    requires Eliminated(s, m, c, d, s.Size()) && BackSubstituted(x, c, d, 0) && s.Solves(y) && i < s.Size()
    ensures x[i] == y[i]
    decreases s.Size() - i
  {
    SolutionIsEliminated(s, m, c, d, y, i);
    if i < s.Size() - 1 {
      SolutionsAgree(s, m, c, d, x, y, i + 1);
      SameStep(c[i], d[i], x[i], x[i + 1], y[i], Next(y, i));
    }
  }

  lemma SameStep(c: real, d: real, x: real, next: real, y: real, next': real)
    requires x == d - c * next && y == d - c * next' && next == next'
    ensures x == y
  {
  }

  /** Back substitution yields the one and only solution. */
  lemma BackSubstitutionSolves(s: System, m: seq<real>, c: seq<real>, d: seq<real>, x: seq<real>)
    requires Eliminated(s, m, c, d, s.Size()) && BackSubstituted(x, c, d, 0)
    ensures s.Solves(x)
    ensures forall y :: s.Solves(y) ==> y == x
  {
    forall i | 0 <= i < s.Size() ensures s.Row(x, i) == s.d[i] {
      RowHolds(s, m, c, d, x, i);
    }
    forall y | s.Solves(y) ensures y == x {
      forall i | 0 <= i < s.Size() ensures x[i] == y[i] {
        SolutionsAgree(s, m, c, d, x, y, i);
      }
    }
  }

  // ---- diagonal dominance ----

  function Abs(x: real): real {
    if x < 0.0 then -x else x
  }

  /** In every row the diagonal outweighs the off-diagonal entries that the row really has. */
  ghost predicate StrictlyDominant(s: System)
    requires s.Valid()
  {
    forall i :: 0 <= i < s.Size() ==> DominantRow(s, i)
  }

  ghost predicate DominantRow(s: System, i: nat)
    requires s.Valid() && i < s.Size()
  {
    Abs(s.b[i]) > (if i == 0 then 0.0 else Abs(s.a[i])) + (if i == s.Size() - 1 then 0.0 else Abs(s.c[i]))
  }

  lemma AbsTimes(x: real, y: real)
    ensures Abs(x * y) == Abs(x) * Abs(y)
  {
  }

  lemma TimesMonotone(x: real, y: real, z: real)
    requires x < y && z > 0.0
    ensures x * z < y * z
  {
    assert (y - x) * z > 0.0;
  }

  lemma TimesAtMost(x: real, y: real, z: real)
    requires x >= 0.0 && y <= z
    ensures x * y <= x * z
  {
    assert x * (z - y) >= 0.0;
  }

  /** |b*p - a*q| > r*|p| whenever |b| > |a| + r, |q| <= |p| and p is not zero. */
  lemma DominantStep(b: real, a: real, r: real, p: real, q: real)
    requires Abs(b) > Abs(a) + r && Abs(q) <= Abs(p) && p != 0.0
    ensures Abs(b * p - a * q) > r * Abs(p)
  {
    hide Abs;
    AbsPositive(a);
    AbsPositive(p);
    AbsTimes(b, p);
    AbsTimes(a, q);
    ProductsDiffer(b * p, a * q, Abs(b), Abs(a), Abs(p), Abs(q), r);
  }

  lemma ProductsDiffer(x: real, y: real, b: real, a: real, p: real, q: real, r: real)
    requires b > a + r && q <= p && p > 0.0 && a >= 0.0
    requires Abs(x) == b * p && Abs(y) == a * q
    ensures Abs(x - y) > r * p
  {
    TimesAtMost(a, q, p);
    Outweighs(b, a, r, p);
    DifferenceExceeds(x, y, b * p, a * p, r * p);
  }

  lemma Outweighs(b: real, a: real, r: real, p: real)
    requires b > a + r && p > 0.0
    ensures b * p > a * p + r * p
  {
    TimesMonotone(a + r, b, p);
    Distribute(a, r, p);
  }

  lemma DifferenceExceeds(x: real, y: real, large: real, small: real, rest: real)
    requires Abs(x) == large && Abs(y) <= small && large > small + rest
    ensures Abs(x - y) > rest
  {
  }

  lemma AbsPositive(x: real)
    ensures Abs(x) >= 0.0 && (x != 0.0 ==> Abs(x) > 0.0)
  {
  }

  lemma Distribute(x: real, y: real, z: real)
    ensures (x + y) * z == x * z + y * z
  {
  }

  lemma AboveIsNonZero(r: real, p: real, x: real)
    requires r >= 0.0 && Abs(x) > r * Abs(p)
    ensures x != 0.0
  {
    assert r * Abs(p) >= 0.0;
  }

  /** The super-diagonal entry of row i that the system really has. */
  function NextEntry(s: System, i: nat): real
    requires s.Valid() && i < s.Size()
  {
    if i == s.Size() - 1 then 0.0 else s.c[i]
  }

  lemma RowOutweighs(s: System, i: nat)
    requires s.Valid() && StrictlyDominant(s) && i < s.Size()
    ensures Abs(s.b[i]) > (if i == 0 then 0.0 else Abs(s.a[i])) + Abs(NextEntry(s, i))
  {
    assert DominantRow(s, i);
  }

  /** Each minor p outweighs the previous one, `below`, times the super-diagonal entry between them. */
  lemma {:induction false} MinorsGrow(s: System, k: nat, entry: real, below: real, p: real)
    requires s.Valid() && StrictlyDominant(s) && 0 < k <= s.Size()
    requires entry == NextEntry(s, k - 1) && below == s.Minor(k - 1) && p == s.Minor(k)
    ensures p != 0.0 && Abs(entry * below) <= Abs(p)
  {
    RowOutweighs(s, k - 1);
    if k > 1 {
      var c, below' := NextEntry(s, k - 2), s.Minor(k - 2);
      MinorsGrow(s, k - 1, c, below', below);
      MinorOutweighs(s.b[k - 1], s.a[k - 1], c, entry, below, below', p);
    } else {
      FirstMinorOutweighs(entry, below, p);
    }
  }

  lemma FirstMinorOutweighs(entry: real, below: real, p: real)
    requires below == 1.0 && Abs(p) > Abs(entry)
    ensures p != 0.0 && Abs(entry * below) <= Abs(p)
  {
  }

  lemma MinorOutweighs(b: real, a: real, c: real, next: real, p: real, below: real, minor: real)
    requires Abs(b) > Abs(a) + Abs(next) && p != 0.0 && Abs(c * below) <= Abs(p)
    requires minor == b * p - a * c * below
    ensures minor != 0.0 && Abs(next * p) <= Abs(minor)
  {
    Regroup(a, c, below);
    DifferenceOutweighs(b, a, next, p, c * below, minor);
  }

  lemma Regroup(a: real, c: real, below: real)
    ensures a * c * below == a * (c * below)
  {
  }

  lemma DifferenceOutweighs(b: real, a: real, next: real, p: real, q: real, minor: real)
    requires Abs(b) > Abs(a) + Abs(next) && p != 0.0 && Abs(q) <= Abs(p)
    requires minor == b * p - a * q
    ensures minor != 0.0 && Abs(next * p) <= Abs(minor)
  {
    DominantStep(b, a, Abs(next), p, q);
    AbsTimes(next, p);
    AboveIsNonZero(Abs(next), p, minor);
  }

  /** Strict diagonal dominance rules out zero pivots, for any length. */
  lemma DominantIsRegular(s: System)
    requires s.Valid() && StrictlyDominant(s)
    ensures s.Regular()
  {
    forall k | 0 <= k <= s.Size() ensures s.Minor(k) != 0.0 {
      if k > 0 {
        MinorsGrow(s, k, NextEntry(s, k - 1), s.Minor(k - 1), s.Minor(k));
      }
    }
  }

  // ---- the kernel ----

  lemma QuotientTimes(x: real, y: real)
    requires y != 0.0
    ensures x / y * y == x
  {
  }

  lemma EliminateNext(s: System, m: seq<real>, c: seq<real>, d: seq<real>, c': seq<real>, d': seq<real>, k: nat, pivot: real)
    requires Eliminated(s, m, c, d, k) && k < s.Size() && |m| == k && s.Regular()
    requires pivot == s.b[k] - (if k == 0 then 0.0 else s.a[k] * c[k - 1])
    requires |c'| == |d'| == s.Size() && c'[..k] == c[..k] && d'[..k] == d[..k]
    requires pivot != 0.0 ==> c'[k] == s.c[k] / pivot
                              && d'[k] == (s.d[k] - (if k == 0 then 0.0 else s.a[k] * d[k - 1])) / pivot
    ensures pivot != 0.0 && Eliminated(s, m + [pivot], c', d', k + 1)
  {
    NextPivot(s, m, c, d, k, pivot);
    QuotientTimes(s.c[k], pivot);
    QuotientTimes(s.d[k] - (if k == 0 then 0.0 else s.a[k] * d[k - 1]), pivot);
    forall i | 0 <= i < k + 1 ensures EliminatedRow(s, m + [pivot], c', d', i) {
      assert forall j :: 0 <= j < k ==> c'[j] == c'[..k][j] == c[j] && d'[j] == d'[..k][j] == d[j];
      if i < k {
        assert EliminatedRow(s, m, c, d, i);
      }
    }
  }

  /** Forward elimination: overwrites c and d; no division by zero occurs for a regular system. */
  method ForwardEliminate(a: array<real>, b: array<real>, c: array<real>, d: array<real>, n: int)
    returns (ghost pivots: seq<real>)
    requires n >= 1
    requires a.Length == b.Length == c.Length == d.Length == n
    requires c != a && c != b && c != d && d != a && d != b
    requires System(a[..], b[..], c[..], d[..]).Regular()
    modifies c, d
    ensures Eliminated(System(a[..], b[..], old(c[..]), old(d[..])), pivots, c[..], d[..], n)
  {
    ghost var s := System(a[..], b[..], c[..], d[..]);
    FirstPivot(s, b[0]);
    c[0] := c[0] / b[0];
    d[0] := d[0] / b[0];
    pivots := [b[0]];
    EliminateFirst(s, c[..], d[..], b[0]);
    for i := 1 to n
      invariant a[..] == s.a && b[..] == s.b && |pivots| == i
      invariant Eliminated(s, pivots, c[..], d[..], i)
      invariant forall j :: i <= j < n ==> c[j] == s.c[j] && d[j] == s.d[j]
    {
      ghost var c0, d0 := c[..], d[..];
      var m := b[i] - a[i] * c[i - 1];
      NextPivot(s, pivots, c0, d0, i, m);
      assert s.Minor(i + 1) != 0.0;
      c[i] := c[i] / m;
      d[i] := (d[i] - a[i] * d[i - 1]) / m;
      EliminateNext(s, pivots, c0, d0, c[..], d[..], i, m);
      pivots := pivots + [m];
    }
  }

  lemma FirstPivot(s: System, pivot: real)
    requires s.Valid() && s.Regular() && pivot == s.b[0]
    ensures pivot != 0.0
  {
    assert s.Minor(1) != 0.0;
  }

  lemma EliminateFirst(s: System, c: seq<real>, d: seq<real>, pivot: real)
    requires s.Valid() && s.Regular() && pivot == s.b[0] && pivot != 0.0
    requires |c| == |d| == s.Size() && c[0] == s.c[0] / pivot && d[0] == s.d[0] / pivot
    ensures Eliminated(s, [pivot], c, d, 1)
  {
    QuotientTimes(s.c[0], pivot);
    QuotientTimes(s.d[0], pivot);
  }

  method BackSubstitute(c: array<real>, d: array<real>, x: array<real>, n: int)
    requires n >= 1 && c.Length == d.Length == x.Length == n && x != c && x != d
    modifies x
    ensures BackSubstituted(x[..], c[..], d[..], 0)
  {
    x[n - 1] := d[n - 1];
    for i := n - 1 downto 0
      invariant BackSubstituted(x[..], c[..], d[..], i)
    {
      ghost var x0 := x[..];
      var v := d[i] - c[i] * x[i + 1];
      x[i] := v;
      BackStep(x0, x[..], c[..], d[..], i, v);
    }
  }

  lemma BackStep(x0: seq<real>, x: seq<real>, c: seq<real>, d: seq<real>, i: nat, v: real)
    requires BackSubstituted(x0, c, d, i + 1)
    requires v == BackValue(c[i], d[i], x0[i + 1]) && x == x0[i := v]
    ensures BackSubstituted(x, c, d, i)
  {
    hide BackValue;
    forall j | i < j < |x| - 1 ensures x[j] == BackValue(c[j], d[j], x[j + 1]) {
      assert x[j] == x0[j] && x[j + 1] == x0[j + 1];
    }
  }

  /** The solver: leaves in x the one solution of the original system. */
  method Solve(a: array<real>, b: array<real>, c: array<real>, d: array<real>, x: array<real>, n: int)
    requires n >= 1
    requires a.Length == b.Length == c.Length == d.Length == x.Length == n
    requires c != a && c != b && c != d && c != x && d != a && d != b && d != x && x != a && x != b
    requires System(a[..], b[..], c[..], d[..]).Regular()
    modifies c, d, x
    ensures System(a[..], b[..], old(c[..]), old(d[..])).Solves(x[..])
    ensures forall y :: System(a[..], b[..], old(c[..]), old(d[..])).Solves(y) ==> y == x[..]
    ensures exists m :: Eliminated(System(a[..], b[..], old(c[..]), old(d[..])), m, c[..], d[..], n)
  {
    ghost var s := System(a[..], b[..], c[..], d[..]);
    ghost var pivots := ForwardEliminate(a, b, c, d, n);
    BackSubstitute(c, d, x, n);
    BackSubstitutionSolves(s, pivots, c[..], d[..], x[..]);
  }
}
