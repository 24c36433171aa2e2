/**
 Strided N-dimensional ranges over concrete integers: sizes, coordinates, composition, squeezing.
 A region is the pair of lists (ranges, tile sizes) that a range object holds.
 */
module Ranges {
  import opened Basics

  datatype Region = Region(ranges: seq<Dim>, tiles: seq<int>) {
    predicate Valid() {
      |ranges| == |tiles|
    }

    predicate UnitTiles() {
      Valid() && forall k :: 0 <= k < |tiles| ==> tiles[k] == 1
    }

    predicate NonZeroSteps() {
      forall k :: 0 <= k < |ranges| ==> ranges[k].rs != 0
    }
  }

  predicate IsPoint(d: Dim) {
    d.re - d.rb == 0
  }

  /** Number of dimensions that are not a single point. */
  function NonPoints(dims: seq<Dim>): nat {
    if dims == [] then 0 else (if IsPoint(dims[0]) then 0 else 1) + NonPoints(dims[1..])
  }

  function NonUnits(tiles: seq<int>): nat {
    if tiles == [] then 0 else (if tiles[0] != 1 then 1 else 0) + NonUnits(tiles[1..])
  }

  function DataDims(r: Region): nat {
    NonPoints(r.ranges) + NonUnits(r.tiles)
  }

  lemma {:induction false} NoNonUnits(tiles: seq<int>)
    requires forall k :: 0 <= k < |tiles| ==> tiles[k] == 1
    ensures NonUnits(tiles) == 0
  {
    if tiles != [] {
      NoNonUnits(tiles[1..]);
    }
  }

  /** Ceiling of a rational quotient. */
  function CeilDiv(a: int, b: int): int
    requires b != 0
  {
    if b > 0 then -((-a) / b) else -(a / -b)
  }

  /** Number of elements of one dimension (the end is inclusive, towards the sign of the step). */
  function SizeOf(d: Dim, tile: int): int
    requires d.rs != 0
  {
    tile * CeilDiv(d.re + (if d.rs < 0 then -1 else 1) - d.rb, d.rs)
  }

  // ---- coordinates ----

  function Coordinates(dims: seq<Dim>, i: seq<int>): (r: seq<int>)
    requires |i| == |dims|
    ensures |r| == |dims|
  {
    seq(|dims|, k requires 0 <= k < |dims| => dims[k].rb + i[k] * dims[k].rs)
  }

  function Zeros(n: nat): (r: seq<int>)
    ensures |r| == n
  {
    if n == 0 then [] else [0] + Zeros(n - 1)
  }

  /** The index tuple at which a range begins. */
  function Begins(dims: seq<Dim>): (r: seq<int>)
    ensures |r| == |dims|
  {
    seq(|dims|, k requires 0 <= k < |dims| => dims[k].rb)
  }

  /** Absolute coordinates at an index tuple; tile indices may be left out and are then zero. */
  function CoordAt(r: Region, i: seq<int>): Option<seq<int>> {
    var tiles := NonUnits(r.tiles);
    if |i| != |r.ranges| && |i| != |r.ranges| + tiles then None
    else
      var given := |i| - |r.ranges|;
      Some(Coordinates(r.ranges, i[..|r.ranges|]) + i[|r.ranges|..] + Zeros(tiles - given))
  }

  lemma UnitCoordAt(r: Region, i: seq<int>)
    requires r.UnitTiles() && |i| == |r.ranges|
    ensures CoordAt(r, i) == Some(Coordinates(r.ranges, i))
  {
    NoNonUnits(r.tiles);
    assert i[..|i|] == i;
    var c := Coordinates(r.ranges, i);
    assert c + i[|r.ranges|..] + Zeros(0) == c;
  }

  // ---- composition ----

  datatype Composition = Composed(region: Region) | DimensionMismatch

  function ComposeDim(d: Dim, o: Dim): Dim {
    Dim(d.rb + d.rs * o.rb, d.rb + d.rs * o.re, d.rs * o.rs)
  }

  /** Case 1: the entries of `other` go to the non-point dimensions, in order. */
  function ComposeData(dims: seq<Dim>, other: seq<Dim>): (r: seq<Dim>)
    requires NonPoints(dims) <= |other|
    ensures |r| == |dims|
  {
    if dims == [] then []
    else if IsPoint(dims[0]) then [dims[0]] + ComposeData(dims[1..], other)
    else [ComposeDim(dims[0], other[0])] + ComposeData(dims[1..], other[1..])
  }

  /** Case 2: dimension by dimension. */
  function ComposeAll(dims: seq<Dim>, other: seq<Dim>): (r: seq<Dim>)
    requires |dims| == |other|
    ensures |r| == |dims|
  {
    seq(|dims|, k requires 0 <= k < |dims| => if IsPoint(dims[k]) then dims[k] else ComposeDim(dims[k], other[k]))
  }

  function Ones(n: nat): (r: seq<int>)
    ensures |r| == n && forall k :: 0 <= k < n ==> r[k] == 1
  {
    if n == 0 then [] else [1] + Ones(n - 1)
  }

  function Compose(a: Region, b: Region): Composition {
    if DataDims(a) == |b.ranges| then
      Composed(Region(ComposeData(a.ranges, b.ranges), a.tiles))
    else if |a.ranges| == |b.ranges| then
      Composed(Region(ComposeAll(a.ranges, b.ranges), a.tiles))
    else if DataDims(b) == 0 && (forall k :: 0 <= k < |b.ranges| ==> b.ranges[k] == Point(0)) then
      Composed(Region(a.ranges, Ones(|a.ranges|)))
    else DimensionMismatch
  }

  /** The entries of an index tuple at the non-point dimensions. */
  function Select(dims: seq<Dim>, i: seq<int>): (r: seq<int>)
    requires |i| == |dims|
    ensures |r| == NonPoints(dims)
  {
    if dims == [] then []
    else (if IsPoint(dims[0]) then [] else [i[0]]) + Select(dims[1..], i[1..])
  }

  /** An index tuple with the entries at the non-point dimensions replaced by `inner`. */
  function Spread(dims: seq<Dim>, inner: seq<int>, i: seq<int>): (r: seq<int>)
    requires |i| == |dims| && |inner| == NonPoints(dims)
    ensures |r| == |dims|
  {
    if dims == [] then []
    else if IsPoint(dims[0]) then [i[0]] + Spread(dims[1..], inner, i[1..])
    else [inner[0]] + Spread(dims[1..], inner[1..], i[1..])
  }

  lemma CoordinatesCons(dims: seq<Dim>, i: seq<int>)
    requires |i| == |dims| && dims != []
    ensures Coordinates(dims, i) == [dims[0].rb + i[0] * dims[0].rs] + Coordinates(dims[1..], i[1..])
  {
  }

  lemma ComposeDimCoordinate(d: Dim, o: Dim, k: int)
    ensures var c := ComposeDim(d, o); c.rb + k * c.rs == d.rb + (o.rb + k * o.rs) * d.rs
  {
    assert k * (d.rs * o.rs) == (k * o.rs) * d.rs;
    assert (o.rb + k * o.rs) * d.rs == o.rb * d.rs + (k * o.rs) * d.rs;
  }

  lemma {:induction false} ComposeDataCoordinates(dims: seq<Dim>, other: seq<Dim>, i: seq<int>)
    requires NonPoints(dims) == |other| && |i| == |dims|
    ensures Coordinates(ComposeData(dims, other), i)
         == Coordinates(dims, Spread(dims, Coordinates(other, Select(dims, i)), i))
  {
    if dims != [] {
      var composed := ComposeData(dims, other);
      CoordinatesCons(composed, i);
      CoordinatesCons(dims, Spread(dims, Coordinates(other, Select(dims, i)), i));
      if IsPoint(dims[0]) {
        assert Select(dims, i) == Select(dims[1..], i[1..]);
        ComposeDataCoordinates(dims[1..], other, i[1..]);
      } else {
        CoordinatesCons(other, Select(dims, i));
        ComposeDataCoordinates(dims[1..], other[1..], i[1..]);
        ComposeDimCoordinate(dims[0], other[0], i[0]);
      }
    }
  }

  /** Composition is function composition of coordinates: the inner range maps the entries at the
      data dimensions, the outer range maps the result. Points of the outer range are untouched. */
  lemma ComposeIsComposition(a: Region, b: Region, i: seq<int>)
    requires a.UnitTiles() && b.UnitTiles() && DataDims(a) == |b.ranges| && |i| == |a.ranges|
    ensures Compose(a, b).Composed? && NonPoints(a.ranges) == |b.ranges|
    ensures CoordAt(b, Select(a.ranges, i)).Some?
    ensures |CoordAt(b, Select(a.ranges, i)).value| == NonPoints(a.ranges)
    ensures CoordAt(Compose(a, b).region, i)
         == CoordAt(a, Spread(a.ranges, CoordAt(b, Select(a.ranges, i)).value, i))
  {
    NoNonUnits(a.tiles);
    var inner := Select(a.ranges, i);
    UnitCoordAt(b, inner);
    ComposeDataCoordinates(a.ranges, b.ranges, i);
    UnitCoordAt(Compose(a, b).region, i);
    UnitCoordAt(a, Spread(a.ranges, Coordinates(b.ranges, inner), i));
  }

  /** When only the ranks agree, composition ignores `b` at the points of `a`: it is function
      composition exactly for the index tuples that `b` leaves alone there (up to a zero step). */
  lemma ComposeSameRank(a: Region, b: Region, i: seq<int>)
    requires a.UnitTiles() && b.UnitTiles() && a.NonZeroSteps()
    requires DataDims(a) != |b.ranges| && |a.ranges| == |b.ranges| == |i|
    ensures Compose(a, b).Composed? && CoordAt(b, i).Some? && |CoordAt(b, i).value| == |a.ranges|
    ensures CoordAt(Compose(a, b).region, i) == CoordAt(a, CoordAt(b, i).value)
       <==> forall k :: 0 <= k < |i| && IsPoint(a.ranges[k]) ==> CoordAt(b, i).value[k] == i[k]
  {
    var j := Coordinates(b.ranges, i);
    UnitCoordAt(b, i);
    UnitCoordAt(a, j);
    UnitCoordAt(Compose(a, b).region, i);
    var left, right := Coordinates(ComposeAll(a.ranges, b.ranges), i), Coordinates(a.ranges, j);
    forall k | 0 <= k < |i|
      ensures left[k] == right[k] <==> (IsPoint(a.ranges[k]) ==> j[k] == i[k])
    {
      ComposeDimCoordinate(a.ranges[k], b.ranges[k], i[k]);
      CancelStep(a.ranges[k].rs, i[k], j[k]);
    }
    assert left == right <==> forall k :: 0 <= k < |i| ==> left[k] == right[k];
  }

  lemma CancelStep(s: int, i: int, j: int)
    requires s != 0
    ensures i * s == j * s <==> i == j
  {
    assert (i - j) * s == i * s - j * s;
    if i != j {
      NonZeroProduct(i - j, s);
    }
  }

  lemma NonZeroProduct(x: int, y: int)
    requires x != 0 && y != 0
    ensures x * y != 0
  {
  }

  // ---- associativity ----

  lemma {:induction false} ComposeDataKeepsRank(dims: seq<Dim>, other: seq<Dim>)
    requires NonPoints(dims) == |other|
    requires forall k :: 0 <= k < |dims| ==> dims[k].rs != 0
    ensures NonPoints(ComposeData(dims, other)) == NonPoints(other)
  {
    if dims != [] {
      var composed := ComposeData(dims, other);
      if IsPoint(dims[0]) {
        ComposeDataKeepsRank(dims[1..], other);
      } else {
        ComposeDataKeepsRank(dims[1..], other[1..]);
        assert composed[0] == ComposeDim(dims[0], other[0]) && composed[1..] == ComposeData(dims[1..], other[1..]);
        assert composed[0].re - composed[0].rb == dims[0].rs * (other[0].re - other[0].rb);
        if !IsPoint(other[0]) {
          NonZeroProduct(dims[0].rs, other[0].re - other[0].rb);
        }
      }
    }
  }

  lemma ComposeDimAssociative(d: Dim, o: Dim, p: Dim)
    ensures ComposeDim(ComposeDim(d, o), p) == ComposeDim(d, ComposeDim(o, p))
  {
    assert (d.rs * o.rs) * p.rb == d.rs * (o.rs * p.rb);
    assert (d.rs * o.rs) * p.re == d.rs * (o.rs * p.re);
    assert (d.rs * o.rs) * p.rs == d.rs * (o.rs * p.rs);
  }

  lemma {:induction false} ComposeDataAssociative(dims: seq<Dim>, other: seq<Dim>, third: seq<Dim>)
    requires NonPoints(dims) == |other| && NonPoints(other) == |third|
    requires forall k :: 0 <= k < |dims| ==> dims[k].rs != 0
    ensures NonPoints(ComposeData(dims, other)) == |third|
    ensures ComposeData(ComposeData(dims, other), third) == ComposeData(dims, ComposeData(other, third))
  {
    ComposeDataKeepsRank(dims, other);
    if dims != [] {
      var composed := ComposeData(dims, other);
      if IsPoint(dims[0]) {
        ComposeDataAssociative(dims[1..], other, third);
        assert composed[1..] == ComposeData(dims[1..], other);
      } else {
        assert composed[1..] == ComposeData(dims[1..], other[1..]);
        var c := ComposeDim(dims[0], other[0]);
        assert c.re - c.rb == dims[0].rs * (other[0].re - other[0].rb);
        var inner := ComposeData(other, third);
        if IsPoint(other[0]) {
          ComposeDataAssociative(dims[1..], other[1..], third);
          assert inner[1..] == ComposeData(other[1..], third);
        } else {
          NonZeroProduct(dims[0].rs, other[0].re - other[0].rb);
          ComposeDataAssociative(dims[1..], other[1..], third[1..]);
          ComposeDimAssociative(dims[0], other[0], third[0]);
          assert inner[1..] == ComposeData(other[1..], third[1..]);
        }
      }
    }
  }

  /** Composition is associative when the data dimensions match, also where a dimension
      collapses to a point part-way. */
  lemma ComposeAssociative(a: Region, b: Region, c: Region)
    requires a.UnitTiles() && b.UnitTiles() && c.UnitTiles() && a.NonZeroSteps()
    requires DataDims(a) == |b.ranges| && DataDims(b) == |c.ranges|
    ensures Compose(a, b).Composed? && Compose(b, c).Composed?
    ensures Compose(Compose(a, b).region, c) == Compose(a, Compose(b, c).region)
    ensures Compose(a, Compose(b, c).region).Composed?
  {
    NoNonUnits(a.tiles);
    NoNonUnits(b.tiles);
    ComposeDataAssociative(a.ranges, b.ranges, c.ranges);
  }

  // ---- squeezing ----

  /** What squeezing leaves of the dimensions from number k on: size-1 dimensions go, ignored ones
      stay as they are, the others stay and, when asked, start again from zero. */
  function SqueezeFrom(r: Region, k: nat, ignored: set<nat>, offset: bool): Region
    requires r.Valid() && k <= |r.ranges| && r.NonZeroSteps()
    decreases |r.ranges| - k
  {
    if k == |r.ranges| then Region([], [])
    else
      var rest := SqueezeFrom(r, k + 1, ignored, offset);
      var d := r.ranges[k];
      if k in ignored then Region([d] + rest.ranges, [r.tiles[k]] + rest.tiles)
      else if SizeOf(d, r.tiles[k]) != 1 then
        var d' := if offset then Dim(d.rb - d.rb, d.re - d.rb, d.rs) else d;
        Region([d'] + rest.ranges, [r.tiles[k]] + rest.tiles)
      else rest
  }

  function Squeezed(r: Region, ignored: set<nat>, offset: bool): Region
    requires r.Valid() && r.NonZeroSteps()
  {
    var s := SqueezeFrom(r, 0, ignored, offset);
    if s.ranges == [] then Region([Point(0)], [1]) else s
  }

  lemma SizeOfPoint(d: Dim)
    requires d.rs != 0 && IsPoint(d)
    ensures SizeOf(d, 1) == 1
  {
    if d.rs > 0 {
      assert (-1) / d.rs == -1;
    } else {
      assert (-1) / (-d.rs) == -1;
    }
  }

  /** A dimension that squeezing can restore: unit step, or a single point. */
  predicate Restorable(d: Dim) {
    d.rs == 1 || (IsPoint(d) && d.rs != 0)
  }

  lemma {:induction false} SqueezeFromRestores(r: Region, k: nat)
    requires r.UnitTiles() && k <= |r.ranges| && r.NonZeroSteps()
    requires forall j :: 0 <= j < |r.ranges| ==> Restorable(r.ranges[j])
    ensures var s := SqueezeFrom(r, k, {}, true);
            && s.UnitTiles() && |s.ranges| == NonPoints(r.ranges[k..])
            && ComposeData(r.ranges[k..], s.ranges) == r.ranges[k..]
    decreases |r.ranges| - k
  {
    if k < |r.ranges| {
      SqueezeFromRestores(r, k + 1);
      var d, tail := r.ranges[k], r.ranges[k..];
      assert tail[1..] == r.ranges[k + 1..];
      if IsPoint(d) {
        SizeOfPoint(d);
      } else {
        var s := SqueezeFrom(r, k, {}, true);
        assert s.ranges[0] == Dim(0, d.re - d.rb, 1);
        assert s.ranges[1..] == SqueezeFrom(r, k + 1, {}, true).ranges;
        assert ComposeDim(d, s.ranges[0]) == d;
      }
    }
  }

  /** Squeezing with offset and composing back restores the range: for every rank, also when every
      dimension has size one, and for empty dimensions. */
  lemma SqueezeRoundTrip(r: Region)
    requires r.UnitTiles()
    requires forall j :: 0 <= j < |r.ranges| ==> Restorable(r.ranges[j])
    ensures r.NonZeroSteps() && Compose(r, Squeezed(r, {}, true)) == Composed(r)
  {
    SqueezeFromRestores(r, 0);
    assert r.ranges[0..] == r.ranges;
    NoNonUnits(r.tiles);
    if SqueezeFrom(r, 0, {}, true).ranges == [] {
      ComposeWithLonelyZero(r);
    }
  }

  lemma ZeroHasNoData()
    ensures DataDims(Region([Point(0)], [1])) == 0
  {
    assert NonPoints([]) == 0 && NonUnits([]) == 0;
  }

  lemma {:induction false} NoNonPoints(dims: seq<Dim>)
    requires NonPoints(dims) == 0
    ensures forall k :: 0 <= k < |dims| ==> IsPoint(dims[k])
  {
    if dims != [] {
      NoNonPoints(dims[1..]);
      assert forall k :: 1 <= k < |dims| ==> dims[k] == dims[1..][k - 1];
    }
  }

  lemma {:induction false} AllOnes(tiles: seq<int>)
    requires forall k :: 0 <= k < |tiles| ==> tiles[k] == 1
    ensures Ones(|tiles|) == tiles
  {
  }

  // ---- exactly when squeezing can be undone ----

  /** Every dimension has one element, so squeezing leaves only the index zero. */
  predicate SizesOne(r: Region)
    requires r.NonZeroSteps()
  {
    forall j :: 0 <= j < |r.ranges| ==> SizeOf(r.ranges[j], 1) == 1
  }

  lemma SquareIsItself(x: int)
    requires x != 0 && x * x == x
    ensures x == 1
  {
    assert x * (x - 1) == x * x - x;
    if x != 1 {
      NonZeroProduct(x, x - 1);
    }
  }

  lemma {:induction false} SqueezeFromKeeps(r: Region, k: nat)
    requires r.UnitTiles() && k <= |r.ranges| && r.NonZeroSteps()
    ensures var s := SqueezeFrom(r, k, {}, true);
            && s.UnitTiles() && NonPoints(s.ranges) == |s.ranges| <= NonPoints(r.ranges[k..]) <= |r.ranges| - k
            && (s.ranges == [] <==> forall j :: k <= j < |r.ranges| ==> SizeOf(r.ranges[j], 1) == 1)
            && (|s.ranges| == NonPoints(r.ranges[k..]) && ComposeData(r.ranges[k..], s.ranges) == r.ranges[k..] ==>
                forall j :: k <= j < |r.ranges| ==> Restorable(r.ranges[j]))
    decreases |r.ranges| - k
  {
    if k < |r.ranges| {
      SqueezeFromKeeps(r, k + 1);
      var d, tail, s, rest := r.ranges[k], r.ranges[k..], SqueezeFrom(r, k, {}, true), SqueezeFrom(r, k + 1, {}, true);
      assert tail[1..] == r.ranges[k + 1..];
      if IsPoint(d) {
        SizeOfPoint(d);
        if |s.ranges| == NonPoints(tail) && ComposeData(tail, s.ranges) == tail {
          assert ComposeData(tail, s.ranges)[1..] == ComposeData(tail[1..], rest.ranges);
        }
      } else if SizeOf(d, 1) != 1 {
        assert s.ranges[0] == Dim(0, d.re - d.rb, d.rs) && s.ranges[1..] == rest.ranges;
        if |s.ranges| == NonPoints(tail) && ComposeData(tail, s.ranges) == tail {
          assert ComposeData(tail, s.ranges)[0] == ComposeDim(d, s.ranges[0]);
          SquareIsItself(d.rs);
          assert ComposeData(tail, s.ranges)[1..] == ComposeData(tail[1..], rest.ranges);
        }
      }
    }
  }

  lemma {:induction false} ZeroCollapses(dims: seq<Dim>, zero: seq<Dim>)
    requires NonPoints(dims) <= |zero| && forall k :: 0 <= k < |zero| ==> zero[k] == Point(0)
    ensures NonPoints(ComposeData(dims, zero)) == 0
  {
    if dims != [] {
      var rest := if IsPoint(dims[0]) then zero else zero[1..];
      ZeroCollapses(dims[1..], rest);
      var composed := ComposeData(dims, zero);
      assert composed[1..] == ComposeData(dims[1..], rest);
      assert IsPoint(composed[0]);
    }
  }

  /** Nothing is kept: composing with the index zero fails to restore a single non-point dimension only. */
  lemma ComposeWithLonelyZero(r: Region)
    requires r.UnitTiles()
    ensures Compose(r, Region([Point(0)], [1])) == Composed(r) <==> NonPoints(r.ranges) != 1
  {
    var zero := Region([Point(0)], [1]);
    ZeroHasNoData();
    NoNonUnits(r.tiles);
    AllOnes(r.tiles);
    if NonPoints(r.ranges) == 0 {
      if |r.ranges| == 1 {
        NoNonPoints(r.ranges);
        assert ComposeAll(r.ranges, zero.ranges) == r.ranges;
      }
    } else if NonPoints(r.ranges) == 1 {
      ZeroCollapses(r.ranges, zero.ranges);
    } else {
      AtMostRank(r.ranges);
    }
  }

  lemma {:induction false} AtMostRank(dims: seq<Dim>)
    ensures NonPoints(dims) <= |dims|
  {
    if dims != [] {
      AtMostRank(dims[1..]);
    }
  }

  /** Something is kept, and composing back restores the range: then no step was lost. */
  lemma KeptAndRestored(r: Region, s: Region)
    requires r.UnitTiles() && s.UnitTiles() && 0 < NonPoints(s.ranges) == |s.ranges| <= NonPoints(r.ranges)
    requires Compose(r, s) == Composed(r)
    ensures |s.ranges| == NonPoints(r.ranges) && ComposeData(r.ranges, s.ranges) == r.ranges
  {
    NoNonUnits(r.tiles);
    NoNonUnits(s.tiles);
    AtMostRank(r.ranges);
  }

  /** Composing back restores the range exactly when every dimension is restorable, or when nothing
      but the index zero is left of at least two non-point dimensions (then composing with it is a no-op). */
  lemma SqueezeRoundTripIff(r: Region)
    requires r.UnitTiles() && r.NonZeroSteps()
    ensures Compose(r, Squeezed(r, {}, true)) == Composed(r) <==>
            (forall j :: 0 <= j < |r.ranges| ==> Restorable(r.ranges[j])) || (SizesOne(r) && NonPoints(r.ranges) >= 2)
  {
    hide Compose, ComposeData, SizeOf, Restorable, SqueezeFrom;
    var s := SqueezeFrom(r, 0, {}, true);
    SqueezeFromKeeps(r, 0);
    assert r.ranges[0..] == r.ranges;
    if forall j :: 0 <= j < |r.ranges| ==> Restorable(r.ranges[j]) {
      SqueezeRoundTrip(r);
    } else if s.ranges == [] {
      ComposeWithLonelyZero(r);
      if NonPoints(r.ranges) == 0 {
        PointsAreRestorable(r);
      }
    } else if Compose(r, s) == Composed(r) {
      KeptAndRestored(r, s);
    }
  }

  lemma PointsAreRestorable(r: Region)
    requires NonPoints(r.ranges) == 0 && r.NonZeroSteps()
    ensures forall j :: 0 <= j < |r.ranges| ==> Restorable(r.ranges[j])
  {
    NoNonPoints(r.ranges);
  }

  /** Other steps are lost: composing back squares a step. */
  lemma {:induction false} SqueezeLosesSteps(rb: int, re: int, rs: int)
    requires rs > 1 && re - rb >= rs
    ensures var r := Region([Dim(rb, re, rs)], [1]);
            Compose(r, Squeezed(r, {}, true)) != Composed(r)
  {
    var r := Region([Dim(rb, re, rs)], [1]);
    assert r.NonZeroSteps();
    var s := SqueezeFrom(r, 0, {}, true);
    assert SqueezeFrom(r, 1, {}, true) == Region([], []);
    SizeAboveOne(r.ranges[0]);
    assert s.ranges == [Dim(0, re - rb, rs)];
    assert NonUnits(r.tiles[1..]) == 0 && NonPoints(r.ranges[1..]) == 0;
    assert rs * rs != rs by {
      NonZeroProduct(rs, rs - 1);
      assert rs * (rs - 1) == rs * rs - rs;
    }
    assert Compose(r, s).Composed? && Compose(r, s).region.ranges[0].rs == rs * rs;
  }

  lemma SizeAboveOne(d: Dim)
    requires d.rs > 1 && d.re - d.rb >= d.rs
    ensures SizeOf(d, 1) > 1
  {
    var n := d.re + 1 - d.rb;
    var q := (-n) / d.rs;
    assert q * d.rs <= -n;
    assert (q + 1) * d.rs == q * d.rs + d.rs;
    NegativeFactor(q + 1, d.rs);
  }

  lemma NegativeFactor(x: int, y: int)
    requires y > 0 && x * y < 0
    ensures x < 0
  {
  }
}
