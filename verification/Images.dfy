/** Composition on sets of elements: a composed range is the image of the inner range. */
module RangeImages {
  import opened Arithmetic
  import opened Basics
  import opened Ranges
  import opened Covers

  // ---- one dimension ----

  lemma QuotientScales(k: int, w: int, s: int)
    requires k > 0 && s > 0
    ensures k * s > 0 && (k * w) / (k * s) == w / s
  {
    var q, r := w / s, w % s;
    assert k * s > 0;
    assert w == q * s + r;
    assert k * w == q * (k * s) + k * r by {
      Distribute(k, q, s, r);
    }
    assert 0 <= k * r < k * s by {
      assert k * (s - r) > 0;
      assert k * (s - r) == k * s - k * r;
    }
    UniqueRemainder(k * w, k * s, q, k * r);
  }

  lemma Distribute(k: int, q: int, s: int, r: int)
    ensures k * (q * s + r) == q * (k * s) + k * r
  {
  }

  lemma CeilOfNext(w: int, s: int)
    requires s > 0
    ensures -((-(w + 1)) / s) == w / s + 1
  {
    var q, r := w / s, w % s;
    assert -(w + 1) == -(q + 1) * s + (s - 1 - r);
    UniqueRemainder(-(w + 1), s, -(q + 1), s - 1 - r);
  }

  /** The size of a dimension counts its indices. */
  lemma SizeIsLastIndex(d: Dim)
    requires d.rs != 0
    ensures SizeOf(d, 1) == LastIndex(d) + 1
  {
    if d.rs > 0 {
      CeilOfNext(d.re - d.rb, d.rs);
    } else {
      CeilOfNext(d.rb - d.re, -d.rs);
    }
  }

  /** Every index carries a whole tile. */
  lemma TiledSize(d: Dim, tile: int)
    requires d.rs != 0
    ensures SizeOf(d, tile) == tile * (LastIndex(d) + 1)
  {
    SizeIsLastIndex(d);
  }

  /** The floor of a quotient, for a divisor of either sign. */
  function SignedDiv(w: int, s: int): int
    requires s != 0
  {
    if s > 0 then w / s else (-w) / -s
  }

  lemma Negated(x: int, y: int)
    ensures (-x) * y == -(x * y) && x * (-y) == -(x * y) && (-x) * (-y) == x * y
  {
  }

  lemma SignedDivScales(k: int, w: int, s: int)
    requires k != 0 && s != 0
    ensures k * s != 0 && SignedDiv(k * w, k * s) == SignedDiv(w, s)
  {
    Negated(k, w);
    Negated(k, s);
    if k > 0 {
      QuotientScales(k, if s > 0 then w else -w, if s > 0 then s else -s);
    } else {
      QuotientScales(-k, if s > 0 then w else -w, if s > 0 then s else -s);
    }
  }

  /** Composing keeps the number of indices, whatever the signs of the steps. */
  lemma LastIndexKept(d: Dim, o: Dim)
    requires d.rs != 0 && o.rs != 0
    ensures ComposeDim(d, o).rs != 0 && LastIndex(ComposeDim(d, o)) == LastIndex(o)
  {
    var c := ComposeDim(d, o);
    SignedDivScales(d.rs, o.re - o.rb, o.rs);
    Difference(d.rs, o.re, o.rb);
    LastIndexIs(c, d.rs * (o.re - o.rb));
    LastIndexIs(o, o.re - o.rb);
  }

  lemma LastIndexIs(d: Dim, w: int)
    requires d.rs != 0 && w == d.re - d.rb
    ensures LastIndex(d) == SignedDiv(w, d.rs)
  {
  }

  lemma Difference(k: int, x: int, y: int)
    ensures k * x - k * y == k * (x - y)
  {
  }

  /** The elements of a composed dimension are the places that the outer one gives to the elements of
      the inner one. */
  lemma ComposedDimElement(d: Dim, o: Dim, y: int)
    requires d.rs != 0 && o.rs != 0 && InDim(o, y)
    ensures ComposeDim(d, o).rs != 0 && InDim(ComposeDim(d, o), d.rb + y * d.rs)
  {
    var i: nat :| y == o.rb + i * o.rs && (if o.rs > 0 then y <= o.re else y >= o.re);
    LastIndexKept(d, o);
    ComposeDimCoordinate(d, o, i);
    ElementAt(o, i, y);
    ElementAt(ComposeDim(d, o), i, d.rb + y * d.rs);
  }

  lemma ComposedDimOrigin(d: Dim, o: Dim, x: int) returns (y: int)
    requires d.rs != 0 && o.rs != 0 && InDim(ComposeDim(d, o), x)
    ensures InDim(o, y) && x == d.rb + y * d.rs
  {
    var c := ComposeDim(d, o);
    var i: nat :| x == c.rb + i * c.rs && (if c.rs > 0 then x <= c.re else x >= c.re);
    LastIndexKept(d, o);
    ComposeDimCoordinate(d, o, i);
    y := o.rb + i * o.rs;
    ElementAt(c, i, x);
    ElementAt(o, i, y);
  }

  lemma PointElement(d: Dim, x: int)
    requires IsPoint(d) && d.rs != 0
    ensures InDim(d, x) <==> x == d.rb
  {
    if InDim(d, x) {
      InDimInSpan(d, x);
    }
    if x == d.rb {
      ElementAt(d, 0, x);
      assert LastIndex(d) >= 0;
    }
  }

  // ---- all dimensions ----

  /** The coordinates of a range at an index tuple for its non-point dimensions; points stay put. */
  function Image(dims: seq<Dim>, y: seq<int>): (x: seq<int>)
    requires |y| == NonPoints(dims)
    ensures |x| == |dims|
  {
    Coordinates(dims, Spread(dims, y, Zeros(|dims|)))
  }

  lemma ImageCons(dims: seq<Dim>, y: seq<int>)
    requires dims != [] && |y| == NonPoints(dims)
    ensures IsPoint(dims[0]) ==> Image(dims, y) == [dims[0].rb] + Image(dims[1..], y)
    ensures !IsPoint(dims[0]) ==> Image(dims, y) == [dims[0].rb + y[0] * dims[0].rs] + Image(dims[1..], y[1..])
  {
    hide Coordinates, Spread;
    CoordinatesCons(dims, Spread(dims, y, Zeros(|dims|)));
    SpreadCons(dims, y);
    assert 0 * dims[0].rs == 0;
  }

  lemma SpreadCons(dims: seq<Dim>, y: seq<int>)
    requires dims != [] && |y| == NonPoints(dims)
    ensures var i, zeros := Spread(dims, y, Zeros(|dims|)), Zeros(|dims| - 1);
            if IsPoint(dims[0]) then i[0] == 0 && i[1..] == Spread(dims[1..], y, zeros)
            else i[0] == y[0] && i[1..] == Spread(dims[1..], y[1..], zeros)
  {
    assert Zeros(|dims|)[1..] == Zeros(|dims| - 1);
  }

  lemma ElementCons(dims: seq<Dim>, x: seq<int>)
    requires dims != []
    ensures Element(dims, x) <==> |x| == |dims| && InDim(dims[0], x[0]) && Element(dims[1..], x[1..])
  {
    if |x| == |dims| && InDim(dims[0], x[0]) && Element(dims[1..], x[1..]) {
      forall k | 0 <= k < |dims| ensures InDim(dims[k], x[k]) {
        if k > 0 {
          assert InDim(dims[1..][k - 1], x[1..][k - 1]);
        }
      }
    }
    if Element(dims, x) {
      forall k | 0 <= k < |dims| - 1 ensures InDim(dims[1..][k], x[1..][k]) {
        assert InDim(dims[k + 1], x[k + 1]);
      }
    }
  }

  lemma {:induction false} ImageIsElement(dims: seq<Dim>, other: seq<Dim>, y: seq<int>)
    requires NonPoints(dims) == |other| && NonZeroSteps(dims) && NonZeroSteps(other) && Element(other, y)
    ensures Element(ComposeData(dims, other), Image(dims, y))
  {
    if dims != [] {
      hide Element, Image, InDim;
      var d := dims[0];
      LengthOf(other, y);
      ImageCons(dims, y);
      ElementCons(ComposeData(dims, other), Image(dims, y));
      if IsPoint(d) {
        ImageIsElement(dims[1..], other, y);
        PointElement(d, d.rb);
        assert ComposeData(dims, other)[1..] == ComposeData(dims[1..], other);
      } else {
        ElementCons(other, y);
        ImageIsElement(dims[1..], other[1..], y[1..]);
        ComposedDimElement(d, other[0], y[0]);
        assert ComposeData(dims, other)[1..] == ComposeData(dims[1..], other[1..]);
      }
    }
  }

  lemma LengthOf(dims: seq<Dim>, x: seq<int>)
    requires Element(dims, x)
    ensures |x| == |dims|
  {
  }

  lemma {:induction false} OriginOfElement(dims: seq<Dim>, other: seq<Dim>, x: seq<int>) returns (y: seq<int>)
    requires NonPoints(dims) == |other| && NonZeroSteps(dims) && NonZeroSteps(other)
    requires Element(ComposeData(dims, other), x)
    ensures Element(other, y) && |y| == |other| && x == Image(dims, y)
  {
    if dims == [] {
      y := [];
    } else {
      hide Element, Image, InDim;
      var d := dims[0];
      ElementCons(ComposeData(dims, other), x);
      assert x == [x[0]] + x[1..];
      if IsPoint(d) {
        assert ComposeData(dims, other)[1..] == ComposeData(dims[1..], other);
        y := OriginOfElement(dims[1..], other, x[1..]);
        PointElement(d, x[0]);
      } else {
        assert ComposeData(dims, other)[1..] == ComposeData(dims[1..], other[1..]);
        var rest := OriginOfElement(dims[1..], other[1..], x[1..]);
        var first := ComposedDimOrigin(d, other[0], x[0]);
        y := [first] + rest;
        assert y[1..] == rest;
        ElementCons(other, y);
      }
      ImageCons(dims, y);
    }
  }

  lemma {:induction false} RestIsIgnored(dims: seq<Dim>, other: seq<Dim>)
    requires NonPoints(dims) <= |other|
    ensures ComposeData(dims, other) == ComposeData(dims, other[..NonPoints(dims)])
  {
    if dims != [] {
      var n := NonPoints(dims);
      if IsPoint(dims[0]) {
        RestIsIgnored(dims[1..], other);
      } else {
        RestIsIgnored(dims[1..], other[1..]);
        assert other[..n][1..] == other[1..][..n - 1];
      }
    }
  }

  /** The composed range denotes the image of the inner range under the coordinates of the outer one. Tiled
      dimensions of the outer range count as data dimensions too; what the inner range gives for them, after
      the non-point dimensions, is ignored. */
  lemma ComposeDenotesImage(a: Region, b: Region, x: seq<int>)
    requires NonZeroSteps(a.ranges) && NonZeroSteps(b.ranges)
    requires DataDims(a) == |b.ranges|
    ensures Compose(a, b).Composed? && NonPoints(a.ranges) <= |b.ranges|
    ensures a.UnitTiles() ==> NonPoints(a.ranges) == |b.ranges|
    ensures Element(Compose(a, b).region.ranges, x) <==>
            exists y :: Element(b.ranges[..NonPoints(a.ranges)], y) && |y| == NonPoints(a.ranges) && x == Image(a.ranges, y)
  {
    var inner := b.ranges[..NonPoints(a.ranges)];
    if a.UnitTiles() {
      NoNonUnits(a.tiles);
    }
    RestIsIgnored(a.ranges, b.ranges);
    if Element(Compose(a, b).region.ranges, x) {
      var y := OriginOfElement(a.ranges, inner, x);
    }
    if y :| Element(inner, y) && |y| == NonPoints(a.ranges) && x == Image(a.ranges, y) {
      ImageIsElement(a.ranges, inner, y);
    }
  }

  function Sizes(dims: seq<Dim>): (r: seq<int>)
    requires NonZeroSteps(dims)
    ensures |r| == |dims|
  {
    seq(|dims|, k requires 0 <= k < |dims| => SizeOf(dims[k], 1))
  }

  /** At the non-point dimensions of the outer range, a composed range has the sizes of the inner one. */
  lemma {:induction false} ComposeKeepsSizes(dims: seq<Dim>, other: seq<Dim>)
    requires NonPoints(dims) == |other| && NonZeroSteps(dims) && NonZeroSteps(other)
    ensures NonZeroSteps(ComposeData(dims, other))
    ensures Select(dims, Sizes(ComposeData(dims, other))) == Sizes(other)
  {
    if dims != [] {
      var d, composed := dims[0], ComposeData(dims, other);
      if IsPoint(d) {
        ComposeKeepsSizes(dims[1..], other);
        assert composed[1..] == ComposeData(dims[1..], other);
        assert Sizes(composed)[1..] == Sizes(composed[1..]);
      } else {
        ComposeKeepsSizes(dims[1..], other[1..]);
        LastIndexKept(d, other[0]);
        SizeIsLastIndex(other[0]);
        SizeIsLastIndex(composed[0]);
        assert composed[1..] == ComposeData(dims[1..], other[1..]);
        assert Sizes(composed)[1..] == Sizes(composed[1..]);
        assert Sizes(other) == [SizeOf(other[0], 1)] + Sizes(other[1..]);
      }
    }
  }

  // ---- equal ranks ----

  /** The place x of the outer dimension is the one it gives to some element of the inner one. */
  ghost predicate IsPlaceOf(d: Dim, o: Dim, x: int) {
    exists y :: InDim(o, y) && x == d.rb + y * d.rs
  }

  lemma ComposedDimDenotes(d: Dim, o: Dim, x: int)
    requires d.rs != 0 && o.rs != 0
    ensures InDim(ComposeDim(d, o), x) <==> IsPlaceOf(d, o, x)
    ensures ComposeDim(d, o).rs != 0 && SizeOf(ComposeDim(d, o), 1) == SizeOf(o, 1)
  {
    if InDim(ComposeDim(d, o), x) {
      var y := ComposedDimOrigin(d, o, x);
    }
    if y :| InDim(o, y) && x == d.rb + y * d.rs {
      ComposedDimElement(d, o, y);
    }
    LastIndexKept(d, o);
    SizeIsLastIndex(o);
    SizeIsLastIndex(ComposeDim(d, o));
  }

  /** When only the ranks agree, the composed range stays at the point dimensions of the outer range, and is
      elsewhere, dimension by dimension, where the outer range puts the elements of the inner one. There it
      also has the inner range's sizes. */
  lemma ComposeSameRankDenotes(a: Region, b: Region, x: seq<int>)
    requires a.Valid() && NonZeroSteps(a.ranges) && NonZeroSteps(b.ranges)
    requires DataDims(a) != |b.ranges| && |a.ranges| == |b.ranges|
    ensures Compose(a, b).Composed? && |Compose(a, b).region.ranges| == |a.ranges|
    ensures Element(Compose(a, b).region.ranges, x) <==>
            |x| == |a.ranges| && forall k :: 0 <= k < |x| ==>
              if IsPoint(a.ranges[k]) then x[k] == a.ranges[k].rb else IsPlaceOf(a.ranges[k], b.ranges[k], x[k])
    ensures NonZeroSteps(Compose(a, b).region.ranges)
    ensures forall k :: 0 <= k < |a.ranges| ==>
              SizeOf(Compose(a, b).region.ranges[k], 1) == if IsPoint(a.ranges[k]) then 1 else SizeOf(b.ranges[k], 1)
  {
    hide InDim, SizeOf, ComposeDim, IsPlaceOf;
    var c := Compose(a, b).region.ranges;
    forall k, z | 0 <= k < |c|
      ensures c[k].rs != 0
      ensures SizeOf(c[k], 1) == if IsPoint(a.ranges[k]) then 1 else SizeOf(b.ranges[k], 1)
      ensures InDim(c[k], z) <==> if IsPoint(a.ranges[k]) then z == a.ranges[k].rb else IsPlaceOf(a.ranges[k], b.ranges[k], z)
    {
      if IsPoint(a.ranges[k]) {
        PointElement(a.ranges[k], z);
        SizeOfPoint(a.ranges[k]);
      } else {
        ComposedDimDenotes(a.ranges[k], b.ranges[k], z);
      }
    }
    if Element(c, x) {
      forall k | 0 <= k < |x|
        ensures if IsPoint(a.ranges[k]) then x[k] == a.ranges[k].rb else IsPlaceOf(a.ranges[k], b.ranges[k], x[k])
      {
        assert InDim(c[k], x[k]);
      }
    }
  }

  /** [5, 0:9] composed with [0, 2:4] is [5, 2:4], not [5, 2:9]. */
  lemma InnerEndDecides()
    ensures var a, b := Region([Point(5), Dim(0, 9, 1)], [1, 1]), Region([Point(0), Dim(2, 4, 1)], [1, 1]);
            Compose(a, b) == Composed(Region([Point(5), Dim(2, 4, 1)], [1, 1]))
  {
    var a := Region([Point(5), Dim(0, 9, 1)], [1, 1]);
    assert a.ranges[1..] == [Dim(0, 9, 1)] && a.ranges[1..][1..] == [] && a.tiles[1..] == [1] && a.tiles[1..][1..] == [];
    assert NonPoints(a.ranges[1..]) == 1 && NonUnits(a.tiles[1..]) == 0;
  }

  /** The index zero: every dimension is the single element 0. */
  predicate IsZero(r: Region)
    requires r.Valid()
  {
    forall k :: 0 <= k < |r.ranges| ==> r.ranges[k] == Point(0) && r.tiles[k] == 1
  }

  lemma ZeroHasNoDataDims(r: Region)
    requires r.Valid()
    ensures IsZero(r) <==> DataDims(r) == 0 && forall k :: 0 <= k < |r.ranges| ==> r.ranges[k] == Point(0)
  {
    hide NonPoints, NonUnits;
    if IsZero(r) {
      NoNonUnits(r.tiles);
      AllPoints(r.ranges);
    }
    if DataDims(r) == 0 {
      UnitsOnly(r.tiles);
    }
  }

  /** A range that is composed keeps the tiles of the outer range, except that composing it with an index
      zero of another rank makes all its tiles one. Composition fails exactly when the inner rank is neither
      the number of data dimensions nor the rank, and the inner range is not the index zero. */
  lemma ComposedTiles(a: Region, b: Region)
    requires a.Valid() && b.Valid()
    ensures var sized := DataDims(a) == |b.ranges| || |a.ranges| == |b.ranges|;
            && (Compose(a, b).DimensionMismatch? <==> !sized && !IsZero(b))
            && (sized ==> Compose(a, b).region.tiles == a.tiles && Compose(a, b).region.Valid())
            && (!sized && IsZero(b) ==> Compose(a, b).region.ranges == a.ranges && Compose(a, b).region.UnitTiles())
  {
    hide DataDims, IsZero;
    ZeroHasNoDataDims(b);
    DataDimsOf(a);
  }

  lemma DataDimsOf(r: Region)
    ensures DataDims(r) >= NonPoints(r.ranges)
  {
  }

  lemma {:induction false} AllPoints(dims: seq<Dim>)
    requires forall k :: 0 <= k < |dims| ==> IsPoint(dims[k])
    ensures NonPoints(dims) == 0
  {
    if dims != [] {
      AllPoints(dims[1..]);
    }
  }

  lemma {:induction false} UnitsOnly(tiles: seq<int>)
    requires NonUnits(tiles) == 0
    ensures forall k :: 0 <= k < |tiles| ==> tiles[k] == 1
  {
    if tiles != [] {
      UnitsOnly(tiles[1..]);
      assert forall k :: 1 <= k < |tiles| ==> tiles[k] == tiles[1..][k - 1];
    }
  }

  // ---- tiles ----

  lemma {:induction false} ZerosAreZero(n: nat)
    ensures forall k :: 0 <= k < n ==> Zeros(n)[k] == 0
  {
    if n > 0 {
      ZerosAreZero(n - 1);
    }
  }

  /** Coordinates at an index tuple: begin plus index times step in every dimension, then one entry for every
      tiled dimension, which is zero when the tuple does not give it. A tuple may give all tile indices or none. */
  lemma CoordinatesWithTiles(r: Region, i: seq<int>)
    ensures CoordAt(r, i).Some? <==> |i| == |r.ranges| || |i| == |r.ranges| + NonUnits(r.tiles)
    ensures CoordAt(r, i).Some? ==> var c := CoordAt(r, i).value;
              && |c| == |r.ranges| + NonUnits(r.tiles)
              && (forall k :: 0 <= k < |r.ranges| ==> c[k] == r.ranges[k].rb + i[k] * r.ranges[k].rs)
              && (forall k :: |r.ranges| <= k < |c| ==> c[k] == if k < |i| then i[k] else 0)
  {
    ZerosAreZero(NonUnits(r.tiles));
  }

  function NonPointAt(dims: seq<Dim>, k: nat): set<nat> {
    set i | k <= i < |dims| && !IsPoint(dims[i])
  }

  lemma {:induction false} NonPointsCount(dims: seq<Dim>, k: nat)
    requires k <= |dims|
    ensures |NonPointAt(dims, k)| == NonPoints(dims[k..])
    decreases |dims| - k
  {
    if k < |dims| {
      NonPointsCount(dims, k + 1);
      assert dims[k..][1..] == dims[k + 1..];
      assert k !in NonPointAt(dims, k + 1);
      assert NonPointAt(dims, k) == if IsPoint(dims[k]) then NonPointAt(dims, k + 1) else NonPointAt(dims, k + 1) + {k};
    }
  }

  function NonUnitAt(tiles: seq<int>, k: nat): set<nat> {
    set i | k <= i < |tiles| && tiles[i] != 1
  }

  lemma {:induction false} NonUnitsCount(tiles: seq<int>, k: nat)
    requires k <= |tiles|
    ensures |NonUnitAt(tiles, k)| == NonUnits(tiles[k..])
    decreases |tiles| - k
  {
    if k < |tiles| {
      NonUnitsCount(tiles, k + 1);
      assert tiles[k..][1..] == tiles[k + 1..];
      assert NonUnitAt(tiles, k) == NonUnitAt(tiles, k + 1) + if tiles[k] != 1 then {k} else {};
    }
  }

  /** The data dimensions are the dimensions that are not a single point and, once more, those that are tiled. */
  lemma DataDimsCount(r: Region)
    ensures DataDims(r) == |NonPointAt(r.ranges, 0)| + |NonUnitAt(r.tiles, 0)|
  {
    NonPointsCount(r.ranges, 0);
    NonUnitsCount(r.tiles, 0);
    assert r.ranges[0..] == r.ranges && r.tiles[0..] == r.tiles;
  }
}
