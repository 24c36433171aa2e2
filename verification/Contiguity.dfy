/**
 When a subset of a packed array occupies one gap-free stretch of memory: the layout test, and
 the mixed-radix argument that makes it exact.
 */
module Contiguity {
  import opened Basics
  import opened Ranges

  // ---- packed layouts ----

  function Scale(factor: int, s: seq<int>): (r: seq<int>)
    ensures |r| == |s|
  {
    seq(|s|, k requires 0 <= k < |s| => factor * s[k])
  }

  /** Strides of a layout whose first dimension varies fastest. */
  function FortranStrides(shape: seq<int>): (r: seq<int>)
    ensures shape != [] ==> |r| == |shape|
  {
    if |shape| <= 1 then [1] else [1] + Scale(shape[0], FortranStrides(shape[1..]))
  }

  function Reversed(s: seq<int>): (r: seq<int>)
    ensures |r| == |s|
  {
    seq(|s|, k requires 0 <= k < |s| => s[|s| - 1 - k])
  }

  /** Strides of a layout whose last dimension varies fastest. */
  function CStrides(shape: seq<int>): seq<int> {
    Reversed(FortranStrides(Reversed(shape)))
  }

  /** The strides as the descriptor accumulates them, one product at a time. */
  method AccumulateStrides(shape: seq<int>) returns (strides: seq<int>)
    ensures strides == FortranStrides(shape)
  {
    strides := [1];
    var accum := 1;
    for i := 0 to |shape| - (if shape == [] then 0 else 1)
      invariant strides == FortranStrides(shape[..i + (if shape == [] then 0 else 1)])
      invariant accum == Product(shape[..i])
    {
      accum := accum * shape[i];
      StridesSnoc(shape[..i + 1], shape[i + 1]);
      ProductSnoc(shape[..i], shape[i]);
      assert shape[..i + 1] == shape[..i] + [shape[i]];
      assert shape[..i + 2] == shape[..i + 1] + [shape[i + 1]];
      strides := strides + [accum];
    }
    assert shape[..|shape|] == shape;
  }

  function Product(s: seq<int>): int {
    if s == [] then 1 else s[0] * Product(s[1..])
  }

  lemma {:induction false} ProductSnoc(s: seq<int>, x: int)
    ensures Product(s + [x]) == Product(s) * x
  {
    if s == [] {
      assert (s + [x])[1..] == [];
    } else {
      assert (s + [x])[1..] == s[1..] + [x];
      ProductSnoc(s[1..], x);
      assert s[0] * (Product(s[1..]) * x) == s[0] * Product(s[1..]) * x;
    }
  }

  lemma {:induction false} StridesSnoc(shape: seq<int>, x: int)
    requires shape != []
    ensures FortranStrides(shape + [x]) == FortranStrides(shape) + [Product(shape)]
  {
    assert (shape + [x])[1..] == shape[1..] + [x];
    if |shape| == 1 {
      assert Product(shape[1..]) == 1;
      assert Scale(shape[0], [1]) == [shape[0]];
    } else {
      StridesSnoc(shape[1..], x);
      var tail := FortranStrides(shape[1..]);
      assert Scale(shape[0], tail + [Product(shape[1..])]) == Scale(shape[0], tail) + [Product(shape)];
    }
  }

  // ---- addresses ----

  function Dot(a: seq<int>, b: seq<int>): int
    requires |a| == |b|
  {
    if a == [] then 0 else a[0] * b[0] + Dot(a[1..], b[1..])
  }

  ghost predicate Inside(dims: seq<Dim>, index: seq<int>) {
    |index| == |dims| && forall k :: 0 <= k < |dims| ==> dims[k].rb <= index[k] <= dims[k].re
  }

  /** x is the flat address of some element of the (unit-step) subset. */
  ghost predicate IsAddress(dims: seq<Dim>, strides: seq<int>, x: int) {
    |strides| == |dims| && exists index :: Inside(dims, index) && Dot(index, strides) == x
  }

  /** The flat addresses form one interval. */
  ghost predicate GapFree(dims: seq<Dim>, strides: seq<int>) {
    forall x, y, z :: IsAddress(dims, strides, x) && IsAddress(dims, strides, z) && x <= y <= z
                      ==> IsAddress(dims, strides, y)
  }

  predicate UnitSteps(dims: seq<Dim>) {
    forall k :: 0 <= k < |dims| ==> dims[k].rs == 1
  }

  /** Non-empty and within the array. */
  predicate InBounds(dims: seq<Dim>, shape: seq<int>) {
    |dims| == |shape| && forall k :: 0 <= k < |dims| ==> 0 <= dims[k].rb <= dims[k].re < shape[k]
  }

  function Lengths(dims: seq<Dim>): (r: seq<int>)
    ensures |r| == |dims|
  {
    seq(|dims|, k requires 0 <= k < |dims| => dims[k].re + 1 - dims[k].rb)
  }

  function Plus(a: seq<int>, b: seq<int>): (r: seq<int>)
    requires |a| == |b|
    ensures |r| == |a|
  {
    seq(|a|, k requires 0 <= k < |a| => a[k] + b[k])
  }

  // ---- offsets relative to the first element ----

  ghost predicate Digits(lens: seq<int>, d: seq<int>) {
    |d| == |lens| && forall k :: 0 <= k < |lens| ==> 0 <= d[k] < lens[k]
  }

  ghost predicate IsOffset(lens: seq<int>, strides: seq<int>, x: int) {
    |strides| == |lens| && exists d :: Digits(lens, d) && Dot(d, strides) == x
  }

  lemma {:induction false} DotPlus(a: seq<int>, b: seq<int>, c: seq<int>)
    requires |a| == |b| == |c|
    ensures Dot(Plus(a, b), c) == Dot(a, c) + Dot(b, c)
  {
    if a != [] {
      assert Plus(a, b)[1..] == Plus(a[1..], b[1..]);
      DotPlus(a[1..], b[1..], c[1..]);
      assert (a[0] + b[0]) * c[0] == a[0] * c[0] + b[0] * c[0];
    }
  }

  lemma AddressIsOffset(dims: seq<Dim>, strides: seq<int>, x: int)
    requires |strides| == |dims|
    ensures IsAddress(dims, strides, x) <==> IsOffset(Lengths(dims), strides, x - Dot(Begins(dims), strides))
  {
    var base := Begins(dims);
    if IsAddress(dims, strides, x) {
      var index :| Inside(dims, index) && Dot(index, strides) == x;
      var d := seq(|dims|, k requires 0 <= k < |dims| => index[k] - dims[k].rb);
      assert Plus(base, d) == index;
      DotPlus(base, d, strides);
      assert Digits(Lengths(dims), d);
    }
    if IsOffset(Lengths(dims), strides, x - Dot(base, strides)) {
      var d :| Digits(Lengths(dims), d) && Dot(d, strides) == x - Dot(base, strides);
      DotPlus(base, d, strides);
      assert Inside(dims, Plus(base, d));
    }
  }

  /** Offsets form one interval. */
  ghost predicate OffsetsGapFree(lens: seq<int>, strides: seq<int>) {
    forall x, y, z :: IsOffset(lens, strides, x) && IsOffset(lens, strides, z) && x <= y <= z
                      ==> IsOffset(lens, strides, y)
  }

  lemma GapFreeIsRelative(dims: seq<Dim>, strides: seq<int>)
    requires |strides| == |dims|
    ensures GapFree(dims, strides) <==> OffsetsGapFree(Lengths(dims), strides)
  {
    var lens, base := Lengths(dims), Dot(Begins(dims), strides);
    if OffsetsGapFree(lens, strides) {
      forall x, y, z | IsAddress(dims, strides, x) && IsAddress(dims, strides, z) && x <= y <= z
        ensures IsAddress(dims, strides, y)
      {
        AddressIsOffset(dims, strides, x);
        AddressIsOffset(dims, strides, y);
        AddressIsOffset(dims, strides, z);
        assert IsOffset(lens, strides, y - base);
      }
    }
    if GapFree(dims, strides) {
      forall x, y, z | IsOffset(lens, strides, x) && IsOffset(lens, strides, z) && x <= y <= z
        ensures IsOffset(lens, strides, y)
      {
        AddressIsOffset(dims, strides, x + base);
        AddressIsOffset(dims, strides, y + base);
        AddressIsOffset(dims, strides, z + base);
        assert IsAddress(dims, strides, y + base);
      }
    }
  }

  // ---- mixed radix ----

  /** The offset in a Fortran layout, digit by digit. */
  function Radix(d: seq<int>, shape: seq<int>): int
    requires |d| == |shape|
  {
    if d == [] then 0 else d[0] + shape[0] * Radix(d[1..], shape[1..])
  }

  lemma {:induction false} DotScale(factor: int, a: seq<int>, b: seq<int>)
    requires |a| == |b|
    ensures Dot(a, Scale(factor, b)) == factor * Dot(a, b)
  {
    if a != [] {
      assert Scale(factor, b)[1..] == Scale(factor, b[1..]);
      DotScale(factor, a[1..], b[1..]);
      assert a[0] * (factor * b[0]) == factor * (a[0] * b[0]);
      assert factor * (a[0] * b[0]) + factor * Dot(a[1..], b[1..]) == factor * (a[0] * b[0] + Dot(a[1..], b[1..]));
    }
  }

  lemma {:induction false} FortranDotIsRadix(d: seq<int>, shape: seq<int>)
    requires |d| == |shape| > 0
    ensures Dot(d, FortranStrides(shape)) == Radix(d, shape)
  {
    var strides := FortranStrides(shape);
    if |shape| == 1 {
      assert Dot(d[1..], strides[1..]) == 0;
      assert Radix(d[1..], shape[1..]) == 0;
      assert Dot(d, strides) == d[0] * 1;
    } else {
      FortranDotIsRadix(d[1..], shape[1..]);
      assert strides[1..] == Scale(shape[0], FortranStrides(shape[1..]));
      DotScale(shape[0], d[1..], FortranStrides(shape[1..]));
    }
  }

  ghost predicate Hits(lens: seq<int>, shape: seq<int>, x: int)
    requires |lens| == |shape|
  {
    exists d :: Digits(lens, d) && Radix(d, shape) == x
  }

  predicate Fits(lens: seq<int>, shape: seq<int>) {
    |lens| == |shape| && forall k :: 0 <= k < |lens| ==> 1 <= lens[k] <= shape[k]
  }

  predicate AllOne(lens: seq<int>) {
    forall k :: 0 <= k < |lens| ==> lens[k] == 1
  }

  /** Once a dimension is partial, all later ones must have length one. */
  predicate FullThenOnes(lens: seq<int>, shape: seq<int>)
    requires |lens| == |shape|
  {
    if lens == [] then true
    else if lens[0] != shape[0] then AllOne(lens[1..])
    else FullThenOnes(lens[1..], shape[1..])
  }

  lemma HitsCons(lens: seq<int>, shape: seq<int>, first: int, rest: int)
    requires |lens| == |shape| > 0 && 0 <= first < lens[0] && Hits(lens[1..], shape[1..], rest)
    ensures Hits(lens, shape, first + shape[0] * rest)
  {
    var d :| Digits(lens[1..], d) && Radix(d, shape[1..]) == rest;
    var e := [first] + d;
    assert e[1..] == d && Digits(lens, e);
  }

  lemma HitsUncons(lens: seq<int>, shape: seq<int>, x: int) returns (first: int, rest: int)
    requires |lens| == |shape| > 0 && Hits(lens, shape, x)
    ensures 0 <= first < lens[0] && Hits(lens[1..], shape[1..], rest) && x == first + shape[0] * rest
  {
    var d :| Digits(lens, d) && Radix(d, shape) == x;
    first, rest := d[0], Radix(d[1..], shape[1..]);
    assert Digits(lens[1..], d[1..]);
  }

  lemma {:induction false} HitsAreNonNegative(lens: seq<int>, shape: seq<int>, x: int)
    requires Fits(lens, shape) && Hits(lens, shape, x)
    ensures x >= 0 && (AllOne(lens) ==> x == 0)
  {
    if lens != [] {
      var first, rest := HitsUncons(lens, shape, x);
      HitsAreNonNegative(lens[1..], shape[1..], rest);
      assert shape[0] * rest >= 0;
    } else {
      var d :| Digits(lens, d) && Radix(d, shape) == x;
    }
  }

  lemma {:induction false} ZeroIsHit(lens: seq<int>, shape: seq<int>)
    requires Fits(lens, shape)
    ensures Hits(lens, shape, 0)
  {
    if lens == [] {
      assert Digits(lens, []) && Radix([], shape) == 0;
    } else {
      ZeroIsHit(lens[1..], shape[1..]);
      HitsCons(lens, shape, 0, 0);
    }
  }

  lemma {:induction false} SomePositiveHit(lens: seq<int>, shape: seq<int>) returns (x: int)
    requires Fits(lens, shape) && !AllOne(lens)
    ensures x > 0 && Hits(lens, shape, x)
  {
    if lens[0] != 1 {
      ZeroIsHit(lens[1..], shape[1..]);
      HitsCons(lens, shape, 1, 0);
      x := 1;
    } else {
      var rest := SomePositiveHit(lens[1..], shape[1..]);
      HitsCons(lens, shape, 0, rest);
      x := shape[0] * rest;
      Positive(shape[0], rest);
    }
  }

  lemma Positive(x: int, y: int)
    requires x > 0 && y > 0
    ensures x * y > 0 && x * y >= x && x * y >= y
  {
  }

  lemma {:induction false} ProductOfOnes(lens: seq<int>)
    requires AllOne(lens)
    ensures Product(lens) == 1
  {
    if lens != [] {
      ProductOfOnes(lens[1..]);
    }
  }

  /** Division with remainder: y < m * p exactly when its quotient is below p. */
  lemma QuotientBelow(first: int, m: int, rest: int, p: int)
    requires 0 <= first < m
    ensures first + m * rest < m * p <==> rest < p
    ensures first + m * rest >= 0 <==> rest >= 0
  {
    if rest < p {
      assert m * (p - rest) >= m * 1 by { Positive(m, p - rest); }
      assert m * (p - rest) == m * p - m * rest;
    } else if rest > p {
      Positive(m, rest - p);
      assert m * (rest - p) == m * rest - m * p;
    }
    if rest > 0 {
      Positive(m, rest);
    } else if rest < 0 {
      Positive(m, -rest);
      assert m * -rest == -(m * rest);
    }
  }

  /** A last partial dimension: the later ones have length one. */
  lemma PartialFills(lens: seq<int>, shape: seq<int>, x: int)
    requires Fits(lens, shape) && lens != [] && AllOne(lens[1..])
    ensures Hits(lens, shape, x) <==> 0 <= x < lens[0]
  {
    hide Hits;
    if Hits(lens, shape, x) {
      var first, rest := HitsUncons(lens, shape, x);
      HitsAreNonNegative(lens[1..], shape[1..], rest);
    }
    if 0 <= x < lens[0] {
      ZeroIsHit(lens[1..], shape[1..]);
      HitsCons(lens, shape, x, 0);
    }
  }

  /** A full dimension in front of p gap-free offsets. */
  lemma FullFills(lens: seq<int>, shape: seq<int>, m: int, p: int, x: int)
    requires |lens| == |shape| > 0 && lens[0] == shape[0] == m > 0
    requires forall rest :: Hits(lens[1..], shape[1..], rest) <==> 0 <= rest < p
    ensures Hits(lens, shape, x) <==> 0 <= x < m * p
  {
    hide Hits;
    if Hits(lens, shape, x) {
      var first, rest := HitsUncons(lens, shape, x);
      QuotientBelow(first, m, rest, p);
    }
    if 0 <= x < m * p {
      var first, rest := x % m, x / m;
      assert x == first + m * rest;
      QuotientBelow(first, m, rest, p);
      HitsCons(lens, shape, first, rest);
    }
  }

  /** The test holds: the offsets are exactly 0, ..., number of elements - 1. */
  lemma {:induction false} FullThenOnesFills(lens: seq<int>, shape: seq<int>, x: int)
    requires Fits(lens, shape) && FullThenOnes(lens, shape)
    ensures Hits(lens, shape, x) <==> 0 <= x < Product(lens)
  {
    hide Hits;
    if lens == [] {
      ZeroIsHit(lens, shape);
      if Hits(lens, shape, x) {
        HitsAreNonNegative(lens, shape, x);
      }
    } else if lens[0] != shape[0] {
      ProductOfOnes(lens[1..]);
      PartialFills(lens, shape, x);
    } else {
      forall rest ensures Hits(lens[1..], shape[1..], rest) <==> 0 <= rest < Product(lens[1..]) {
        FullThenOnesFills(lens[1..], shape[1..], rest);
      }
      FullFills(lens, shape, lens[0], Product(lens[1..]), x);
    }
  }

  lemma SameQuotient(first: int, m: int, q: int, rest: int)
    requires 0 <= first < m && m * q == first + m * rest
    ensures q == rest
  {
    QuotientBelow(first, m, rest, q);
    QuotientBelow(first, m, rest, q + 1);
    assert m * (q + 1) == m * q + m;
  }

  /** The test fails: there is an offset that is missing below one that is present. */
  lemma {:induction false} OtherwiseAGap(lens: seq<int>, shape: seq<int>) returns (gap: int, above: int)
    requires Fits(lens, shape) && !FullThenOnes(lens, shape)
    ensures 0 <= gap <= above && !Hits(lens, shape, gap) && Hits(lens, shape, above)
  {
    hide Hits;
    var m := shape[0];
    if lens[0] != m {
      gap := lens[0];
      var rest := SomePositiveHit(lens[1..], shape[1..]);
      HitsCons(lens, shape, 0, rest);
      above := m * rest;
      Positive(m, rest);
      if Hits(lens, shape, gap) {
        var first, q := HitsUncons(lens, shape, gap);
        HitsAreNonNegative(lens[1..], shape[1..], q);
        if q > 0 {
          Positive(m, q);
        }
        assert false;
      }
    } else {
      var gap', above' := OtherwiseAGap(lens[1..], shape[1..]);
      gap, above := m * gap', m * above';
      HitsCons(lens, shape, 0, above');
      assert m * (above' - gap') >= 0;
      if Hits(lens, shape, gap) {
        var first, q := HitsUncons(lens, shape, gap);
        SameQuotient(first, m, gap', q);
        assert false;
      }
    }
  }

  lemma OffsetIsHit(lens: seq<int>, shape: seq<int>, x: int)
    requires |lens| == |shape| > 0
    ensures IsOffset(lens, FortranStrides(shape), x) <==> Hits(lens, shape, x)
  {
    forall d | |d| == |shape| ensures Dot(d, FortranStrides(shape)) == Radix(d, shape) {
      FortranDotIsRadix(d, shape);
    }
  }

  /** In a Fortran layout the test is exact. */
  lemma FortranExact(lens: seq<int>, shape: seq<int>)
    requires Fits(lens, shape) && lens != []
    ensures FullThenOnes(lens, shape) <==> OffsetsGapFree(lens, FortranStrides(shape))
  {
    var strides := FortranStrides(shape);
    if FullThenOnes(lens, shape) {
      forall x ensures IsOffset(lens, strides, x) <==> 0 <= x < Product(lens) {
        OffsetIsHit(lens, shape, x);
        FullThenOnesFills(lens, shape, x);
      }
    } else {
      var gap, above := OtherwiseAGap(lens, shape);
      ZeroIsHit(lens, shape);
      OffsetIsHit(lens, shape, 0);
      OffsetIsHit(lens, shape, gap);
      OffsetIsHit(lens, shape, above);
    }
  }

  // ---- reversal: the C layout ----

  lemma {:induction false} DotSnoc(a: seq<int>, b: seq<int>, x: int, y: int)
    requires |a| == |b|
    ensures Dot(a + [x], b + [y]) == Dot(a, b) + x * y
  {
    if a == [] {
      assert (a + [x])[1..] == [] && (b + [y])[1..] == [];
    } else {
      assert (a + [x])[1..] == a[1..] + [x] && (b + [y])[1..] == b[1..] + [y];
      DotSnoc(a[1..], b[1..], x, y);
    }
  }

  lemma {:induction false} DotReversed(a: seq<int>, b: seq<int>)
    requires |a| == |b|
    ensures Dot(Reversed(a), Reversed(b)) == Dot(a, b)
  {
    if a != [] {
      assert Reversed(a) == Reversed(a[1..]) + [a[0]] && Reversed(b) == Reversed(b[1..]) + [b[0]];
      DotReversed(a[1..], b[1..]);
      DotSnoc(Reversed(a[1..]), Reversed(b[1..]), a[0], b[0]);
    }
  }

  lemma ReversedOffset(lens: seq<int>, strides: seq<int>, x: int)
    requires |lens| == |strides| && IsOffset(lens, strides, x)
    ensures IsOffset(Reversed(lens), Reversed(strides), x)
  {
    var d :| Digits(lens, d) && Dot(d, strides) == x;
    DotReversed(d, strides);
    assert Digits(Reversed(lens), Reversed(d));
  }

  lemma ReversedTwice(s: seq<int>)
    ensures Reversed(Reversed(s)) == s
  {
  }

  lemma ReversedGapFree(lens: seq<int>, strides: seq<int>)
    requires |lens| == |strides|
    ensures OffsetsGapFree(Reversed(lens), Reversed(strides)) <==> OffsetsGapFree(lens, strides)
  {
    ReversedTwice(lens);
    ReversedTwice(strides);
    forall x ensures IsOffset(Reversed(lens), Reversed(strides), x) <==> IsOffset(lens, strides, x) {
      if IsOffset(lens, strides, x) {
        ReversedOffset(lens, strides, x);
      }
      if IsOffset(Reversed(lens), Reversed(strides), x) {
        ReversedOffset(Reversed(lens), Reversed(strides), x);
      }
    }
  }

  lemma CExact(lens: seq<int>, shape: seq<int>)
    requires Fits(lens, shape) && lens != []
    ensures FullThenOnes(Reversed(lens), Reversed(shape)) <==> OffsetsGapFree(lens, CStrides(shape))
  {
    FortranExact(Reversed(lens), Reversed(shape));
    ReversedTwice(lens);
    ReversedGapFree(Reversed(lens), FortranStrides(Reversed(shape)));
  }

  // ---- a single dimension of stride one ----

  lemma {:induction false} SliceOffsets(lens: seq<int>, strides: seq<int>, j: nat, x: int)
    requires |lens| == |strides| && j < |lens| && strides[j] == 1 && lens[j] >= 1
    requires forall k :: 0 <= k < |lens| && k != j ==> lens[k] == 1
    ensures IsOffset(lens, strides, x) <==> 0 <= x < lens[j]
  {
    if IsOffset(lens, strides, x) {
      var d :| Digits(lens, d) && Dot(d, strides) == x;
      SliceDot(d, strides, j);
    }
    if 0 <= x < lens[j] {
      var d := seq(|lens|, k requires 0 <= k < |lens| => if k == j then x else 0);
      SliceDot(d, strides, j);
      assert Digits(lens, d);
    }
  }

  lemma {:induction false} ZeroDot(d: seq<int>, strides: seq<int>)
    requires |d| == |strides| && forall k :: 0 <= k < |d| ==> d[k] == 0
    ensures Dot(d, strides) == 0
  {
    if d != [] {
      ZeroDot(d[1..], strides[1..]);
    }
  }

  lemma {:induction false} SliceDot(d: seq<int>, strides: seq<int>, j: nat)
    requires |d| == |strides| && j < |d| && strides[j] == 1
    requires forall k :: 0 <= k < |d| && k != j ==> d[k] == 0
    ensures Dot(d, strides) == d[j]
  {
    if j == 0 {
      ZeroDot(d[1..], strides[1..]);
    } else {
      SliceDot(d[1..], strides[1..], j - 1);
    }
  }

  lemma SliceIsGapFree(lens: seq<int>, strides: seq<int>, j: nat)
    requires |lens| == |strides| && j < |lens| && strides[j] == 1 && lens[j] >= 1
    requires forall k :: 0 <= k < |lens| && k != j ==> lens[k] == 1
    ensures OffsetsGapFree(lens, strides)
  {
    forall x ensures IsOffset(lens, strides, x) <==> 0 <= x < lens[j] {
      SliceOffsets(lens, strides, j, x);
    }
  }

  // ---- the test ----

  predicate FullUpTo(lens: seq<int>, shape: seq<int>, p: nat)
    requires |lens| == |shape|
  {
    && p <= |lens| && (forall k :: 0 <= k < p ==> lens[k] == shape[k])
    && (forall k :: p < k < |lens| ==> lens[k] == 1)
  }

  /** Full dimensions, then one of any length, then dimensions of length one. */
  lemma {:induction false} FullThenOnesIff(lens: seq<int>, shape: seq<int>)
    requires |lens| == |shape|
    ensures FullThenOnes(lens, shape) <==> exists p: nat :: FullUpTo(lens, shape, p)
  {
    if lens == [] {
      assert FullUpTo(lens, shape, 0);
    } else {
      FullThenOnesIff(lens[1..], shape[1..]);
      if p: nat :| FullUpTo(lens, shape, p) {
        assert p > 0 ==> FullUpTo(lens[1..], shape[1..], p - 1);
        assert p == 0 && lens[0] == shape[0] ==> FullUpTo(lens[1..], shape[1..], 0);
      }
      if p: nat :| lens[0] == shape[0] && FullUpTo(lens[1..], shape[1..], p) {
        FullUpToCons(lens, shape, p);
      } else if lens[0] != shape[0] && AllOne(lens[1..]) {
        assert forall k :: 1 <= k < |lens| ==> lens[k] == lens[1..][k - 1];
        assert FullUpTo(lens, shape, 0);
      }
    }
  }

  lemma FullUpToCons(lens: seq<int>, shape: seq<int>, p: nat)
    requires |lens| == |shape| > 0 && lens[0] == shape[0] && FullUpTo(lens[1..], shape[1..], p)
    ensures FullUpTo(lens, shape, p + 1)
  {
    assert forall k :: 1 <= k < |lens| ==> lens[k] == lens[1..][k - 1] && shape[k] == shape[1..][k - 1];
  }

  /** The loop over dimensions, fastest first. */
  method CheckFullThenOnes(lens: seq<int>, shape: seq<int>) returns (b: bool)
    requires |lens| == |shape|
    ensures b == FullThenOnes(lens, shape)
  {
    for i := 0 to |lens|
      invariant FullThenOnes(lens, shape) == FullThenOnes(lens[i..], shape[i..])
    {
      assert lens[i..][1..] == lens[i + 1..] && shape[i..][1..] == shape[i + 1..];
      if lens[i] != shape[i] {
        return AllOne(lens[i + 1..]);
      }
    }
    return true;
  }

  /** Dimension j alone is not of length one, and it has stride one. */
  predicate OnlyLong(lens: seq<int>, strides: seq<int>, j: int)
    requires |lens| == |strides|
  {
    0 <= j < |lens| && lens[j] != 1 && strides[j] == 1 && forall k :: 0 <= k < |lens| && k != j ==> lens[k] == 1
  }

  /** Whether one dimension alone is longer than one, and it has stride one. An empty dimension
      met on the way decides the question. */
  method IsStrideOneSlice(lens: seq<int>, strides: seq<int>) returns (slice: bool, empty: bool)
    requires |lens| == |strides|
    ensures empty ==> exists k :: 0 <= k < |lens| && lens[k] == 0
    ensures slice ==> exists j :: OnlyLong(lens, strides, j)
    ensures !slice && !empty ==> forall j :: !OnlyLong(lens, strides, j)
  {
    slice, empty := false, false;
    ghost var at := 0;
    for k := 0 to |lens|
      invariant !empty
      invariant !slice ==> forall i :: 0 <= i < k ==> lens[i] == 1
      invariant slice ==> 0 <= at < k && lens[at] != 1 && strides[at] == 1
                          && forall i :: 0 <= i < k && i != at ==> lens[i] == 1
    {
      if lens[k] == 1 {
      } else if lens[k] == 0 {
        return false, true;
      } else if slice {
        return false, false;
      } else if strides[k] != 1 {
        return false, false;
      } else {
        slice, at := true, k;
      }
    }
    assert slice ==> OnlyLong(lens, strides, at);
  }

  predicate Packed(strides: seq<int>, shape: seq<int>) {
    strides == FortranStrides(shape) || strides == CStrides(shape)
  }

  predicate HasEmpty(lens: seq<int>) {
    exists k :: 0 <= k < |lens| && lens[k] == 0
  }

  /** The first layout that the strides have decides; the lengths fill it from its fastest dimension on. */
  predicate FollowsLayout(lens: seq<int>, shape: seq<int>, strides: seq<int>)
    requires |lens| == |shape|
  {
    if strides == FortranStrides(shape) then FullThenOnes(lens, shape)
    else strides == CStrides(shape) && FullThenOnes(Reversed(lens), Reversed(shape))
  }

  /** The layout test. For subsets that stay inside the array True is always right; with unit steps and a
      packed array it is exact, and for other layouts it recognizes the subsets with a single long dimension
      of stride one. Outside the array it is still decided by steps, lengths and layout. */
  method IsContiguousSubset(dims: seq<Dim>, shape: seq<int>, strides: seq<int>) returns (b: bool)
    requires |dims| == |shape| == |strides|
    ensures b && InBounds(dims, shape) ==> UnitSteps(dims) && GapFree(dims, strides)
    ensures InBounds(dims, shape) && UnitSteps(dims) && Packed(strides, shape) ==> (b <==> GapFree(dims, strides))
    ensures InBounds(dims, shape) && UnitSteps(dims) && !Packed(strides, shape)
            ==> (b <==> exists j :: OnlyLong(Lengths(dims), strides, j))
    ensures b ==> UnitSteps(dims)
    ensures UnitSteps(dims) && |dims| == 1 ==> (b <==> strides[0] == 1)
    ensures |dims| != 1 && (b || (UnitSteps(dims) && !HasEmpty(Lengths(dims)))) ==>
              (b <==> (exists j :: OnlyLong(Lengths(dims), strides, j)) || FollowsLayout(Lengths(dims), shape, strides))
  {
    if !UnitSteps(dims) {
      return false;
    }
    GapFreeIsRelative(dims, strides);
    var lens := Lengths(dims);
    if |dims| == 1 {
      b := strides[0] == 1;
      if b && InBounds(dims, shape) {
        SliceIsGapFree(lens, strides, 0);
      }
      assert Reversed(FortranStrides(Reversed(shape))) == [1];
      return;
    }
    var slice, empty := IsStrideOneSlice(lens, strides);
    if empty {
      return false;
    }
    if slice {
      if InBounds(dims, shape) {
        ghost var j :| OnlyLong(lens, strides, j);
        SliceIsGapFree(lens, strides, j);
      }
      return true;
    }
    if InBounds(dims, shape) && dims != [] {
      FortranExact(lens, shape);
      CExact(lens, shape);
    }
    var fortran := AccumulateStrides(shape);
    var c := AccumulateStrides(Reversed(shape));
    if fortran == strides {
      b := CheckFullThenOnes(lens, shape);
    } else if Reversed(c) == strides {
      b := CheckFullThenOnes(Reversed(lens), Reversed(shape));
    } else {
      b := false;
    }
  }
}
