/** When one strided range covers another: the bounding-box tests and the precise test. */
module Covers {
  import opened Arithmetic
  import opened Basics
  import opened Ranges

  /** Ranges of different rank make the test return an exception object instead of a truth value. */
  datatype Answer = Yes | No | RankMismatch

  /** On integers both bounding-box tests compare begins and ends, dimension by dimension. */
  predicate BoundingBoxCovers(a: seq<Dim>, b: seq<Dim>)
    requires |a| == |b|
  {
    forall k :: 0 <= k < |a| ==> a[k].rb <= b[k].rb && a[k].re >= b[k].re
  }

  /** The remainder with the sign of the divisor. */
  function FloorMod(x: int, m: int): int
    requires m != 0
  {
    if m > 0 then x % m else -((-x) % -m)
  }

  predicate StepsMatch(d: Dim, o: Dim)
    requires d.rs != 0 && o.rs != 0
  {
    FloorMod(o.rs, d.rs) == 0 && (d.rb == o.rb || FloorMod(d.rb, d.rs) == FloorMod(o.rb, o.rs))
  }

  method CoversPrecise(a: seq<Dim>, b: seq<Dim>) returns (r: Answer)
    requires NonZeroSteps(a) && NonZeroSteps(b)
    ensures r.RankMismatch? <==> |a| != |b|
    ensures r == Yes ==> PositiveSteps(a) && PositiveSteps(b) ==> Contains(a, b)
    ensures |a| == |b| ==> (r == Yes <==> Detects(a, b))
  {
    if |a| != |b| {
      return RankMismatch;
    }
    if !BoundingBoxCovers(a, b) {
      return No;
    }
    for k := 0 to |a|
      invariant forall j :: 0 <= j < k ==> StepsMatch(a[j], b[j])
    {
      if !StepsMatch(a[k], b[k]) {
        return No;
      }
    }
    if PositiveSteps(a) && PositiveSteps(b) {
      DetectedIsContained(a, b);
    }
    return Yes;
  }

  /** The test when the other subset is an index tuple: exact for positive steps. */
  method CoversIndex(a: seq<Dim>, x: seq<int>) returns (r: Answer)
    requires NonZeroSteps(a)
    ensures r.RankMismatch? <==> |a| != |x|
    ensures |a| == |x| ==> (r == Yes <==> DetectsIndex(a, x))
    ensures |a| == |x| && PositiveSteps(a) ==> (r == Yes <==> Element(a, x))
  {
    if |a| != |x| {
      return RankMismatch;
    }
    if PositiveSteps(a) {
      IndexDetectedIff(a, x);
    }
    if !BoundingBoxCovers(a, Points(x)) {
      return No;
    }
    for k := 0 to |a|
      invariant forall j :: 0 <= j < k ==> FloorMod(a[j].rb, a[j].rs) == FloorMod(x[j], a[j].rs)
    {
      if FloorMod(a[k].rb, a[k].rs) != FloorMod(x[k], a[k].rs) {
        return No;
      }
    }
    return Yes;
  }

  /** The test when this subset is an index tuple: only the bounding box counts. A Yes is right for
      positive steps. */
  method IndexCovers(x: seq<int>, b: seq<Dim>) returns (r: Answer)
    ensures r.RankMismatch? <==> |x| != |b|
    ensures |x| == |b| ==> (r == Yes <==> forall k :: 0 <= k < |x| ==> b[k].re <= x[k] <= b[k].rb)
    ensures r == Yes && PositiveSteps(b) ==> Contains(Points(x), b)
  {
    if |x| != |b| {
      return RankMismatch;
    }
    if !BoundingBoxCovers(Points(x), b) {
      assert exists k :: 0 <= k < |x| && !(Points(x)[k].rb <= b[k].rb && Points(x)[k].re >= b[k].re);
      return No;
    }
    forall k | 0 <= k < |x| ensures b[k].re <= x[k] <= b[k].rb {
      assert Points(x)[k] == Point(x[k]);
    }
    if PositiveSteps(b) {
      PointContains(x, b);
    }
    return Yes;
  }

  predicate DetectsIndex(a: seq<Dim>, x: seq<int>)
    requires |a| == |x| && NonZeroSteps(a)
  {
    BoundingBoxCovers(a, Points(x)) && forall k :: 0 <= k < |a| ==> FloorMod(a[k].rb, a[k].rs) == FloorMod(x[k], a[k].rs)
  }

  lemma IndexDetectedIff(a: seq<Dim>, x: seq<int>)
    requires |a| == |x| && PositiveSteps(a)
    ensures DetectsIndex(a, x) <==> Element(a, x)
  {
    forall k | 0 <= k < |a|
      ensures InDim(a[k], x[k]) <==>
              a[k].rb <= x[k] <= a[k].re && FloorMod(a[k].rb, a[k].rs) == FloorMod(x[k], a[k].rs)
    {
      InDimByResidue(a[k], x[k]);
      SameResidue(x[k], a[k].rb, a[k].rs);
    }
    forall k | 0 <= k < |a| ensures Points(x)[k] == Point(x[k]) {
    }
    if DetectsIndex(a, x) {
      forall k | 0 <= k < |a| ensures InDim(a[k], x[k]) {
        assert Points(x)[k] == Point(x[k]);
      }
    }
  }

  lemma PointContains(x: seq<int>, b: seq<Dim>)
    requires |x| == |b| && PositiveSteps(b) && forall k :: 0 <= k < |x| ==> b[k].re <= x[k] <= b[k].rb
    ensures Contains(Points(x), b)
  {
    forall y | Element(b, y) ensures Element(Points(x), y) {
      forall k | 0 <= k < |x| ensures InDim(Points(x)[k], y[k]) {
        assert InDim(b[k], y[k]);
        InDimByResidue(b[k], y[k]);
        InDimByResidue(Point(x[k]), x[k]);
      }
    }
  }

  /** What the test looks at. */
  predicate Detects(a: seq<Dim>, b: seq<Dim>)
    requires |a| == |b|
    requires NonZeroSteps(a) && NonZeroSteps(b)
  {
    BoundingBoxCovers(a, b) && forall k :: 0 <= k < |a| ==> StepsMatch(a[k], b[k])
  }

  // ---- the sets that ranges denote ----

  predicate PositiveSteps(a: seq<Dim>) {
    forall k :: 0 <= k < |a| ==> a[k].rs > 0
  }

  ghost predicate InDim(d: Dim, x: int) {
    exists i: nat :: x == d.rb + i * d.rs && (if d.rs > 0 then x <= d.re else x >= d.re)
  }

  ghost predicate Element(a: seq<Dim>, x: seq<int>) {
    |x| == |a| && forall k :: 0 <= k < |a| ==> InDim(a[k], x[k])
  }

  /** Every index tuple of b belongs to a. */
  ghost predicate Contains(a: seq<Dim>, b: seq<Dim>) {
    |a| == |b| && forall x :: Element(b, x) ==> Element(a, x)
  }

  /** Membership is an interval and a residue. */
  lemma InDimByResidue(d: Dim, x: int)
    requires d.rs > 0
    ensures InDim(d, x) <==> d.rb <= x <= d.re && (x - d.rb) % d.rs == 0
  {
    if InDim(d, x) {
      var i: nat :| x == d.rb + i * d.rs && x <= d.re;
      MultipleHasNoRemainder(i, d.rs);
      assert i * d.rs >= 0;
    }
    if d.rb <= x <= d.re && (x - d.rb) % d.rs == 0 {
      var i := (x - d.rb) / d.rs;
      assert x - d.rb == i * d.rs;
      assert i >= 0;
      assert x == d.rb + i * d.rs;
    }
  }

  lemma MultipleHasNoRemainder(i: int, m: int)
    requires m > 0
    ensures (i * m) % m == 0
  {
    UniqueRemainder(i * m, m, i, 0);
  }

  /** Divisibility carries over sums and to multiples of a step. */
  lemma DividesSum(x: int, y: int, m: int)
    requires m > 0 && x % m == 0
    ensures (x + y) % m == y % m
  {
    var q := x / m;
    assert x == q * m && y == (y / m) * m + y % m;
    assert (q + y / m) * m == q * m + (y / m) * m;
    UniqueRemainder(x + y, m, q + y / m, y % m);
  }

  lemma DividesMultiple(x: int, k: int, m: int)
    requires m > 0 && x % m == 0
    ensures (k * x) % m == 0
  {
    var q := x / m;
    assert k * x == (k * q) * m;
    MultipleHasNoRemainder(k * q, m);
  }

  lemma SameResidue(x: int, y: int, m: int)
    requires m > 0
    ensures x % m == y % m <==> (x - y) % m == 0
  {
    if (x - y) % m == 0 {
      DividesSum(x - y, y, m);
    }
    if x % m == y % m {
      var q := x / m - y / m;
      assert q * m == (x / m) * m - (y / m) * m;
      assert x - y == q * m + 0;
      UniqueRemainder(x - y, m, q, 0);
    }
  }

  lemma RemainderOfRemainder(x: int, n: int, m: int)
    requires m > 0 && n > 0 && n % m == 0
    ensures (x % n) % m == x % m
  {
    var q, r := x / n, x % n;
    assert x == q * n + r;
    DividesMultiple(n, q, m);
    DividesSum(q * n, r, m);
  }

  /** The remainder of o.rb by its own step, taken modulo the smaller step. */
  lemma RemainderOfBegin(d: Dim, o: Dim)
    requires d.rs > 0 && o.rs > 0 && o.rs % d.rs == 0
    ensures (o.rb % o.rs) % d.rs == o.rb % d.rs
  {
    RemainderOfRemainder(o.rb, o.rs, d.rs);
  }

  lemma MatchedStepsContain(d: Dim, o: Dim, x: int)
    requires d.rs > 0 && o.rs > 0 && StepsMatch(d, o) && d.rb <= o.rb && d.re >= o.re && InDim(o, x)
    ensures InDim(d, x)
  {
    InDimByResidue(o, x);
    InDimByResidue(d, x);
    RemainderOfBegin(d, o);
    var n := (x - o.rb) / o.rs;
    assert x - o.rb == n * o.rs;
    DividesMultiple(o.rs, n, d.rs);
    SmallRemainder(d.rb % d.rs, d.rs);
    SameResidue(o.rb, d.rb, d.rs);
    DividesSum(x - o.rb, o.rb - d.rb, d.rs);
  }

  lemma SmallRemainder(r: int, m: int)
    requires 0 <= r < m
    ensures r % m == r
  {
  }

  /** A positive answer is right for positive steps. */
  lemma DetectedIsContained(a: seq<Dim>, b: seq<Dim>)
    requires |a| == |b| && PositiveSteps(a) && PositiveSteps(b) && Detects(a, b)
    ensures Contains(a, b)
  {
    forall x | Element(b, x) ensures Element(a, x) {
      forall k | 0 <= k < |a| ensures InDim(a[k], x[k]) {
        MatchedStepsContain(a[k], b[k], x[k]);
      }
    }
  }

  // ---- exactly when a covered range is detected ----

  predicate NonEmpty(b: seq<Dim>) {
    forall k :: 0 <= k < |b| ==> b[k].rb <= b[k].re
  }

  /** The ends nest as written, the steps divide, and the inner begin has a small enough remainder
      by its own step (or the begins coincide). */
  predicate Recognizable(d: Dim, o: Dim)
    requires d.rs > 0 && o.rs > 0
  {
    o.re <= d.re && o.rs % d.rs == 0 && (d.rb == o.rb || o.rb % o.rs < d.rs)
  }

  lemma BeginIsElement(b: seq<Dim>)
    requires PositiveSteps(b) && NonEmpty(b)
    ensures Element(b, Begins(b))
  {
    forall k | 0 <= k < |b| ensures InDim(b[k], b[k].rb) {
      InDimByResidue(b[k], b[k].rb);
    }
  }

  /** For non-empty ranges with positive steps the answer is Yes exactly when b is contained in a
      and every dimension is recognizable; containment alone is not enough. */
  lemma DetectsIff(a: seq<Dim>, b: seq<Dim>)
    requires |a| == |b| && PositiveSteps(a) && PositiveSteps(b) && NonEmpty(b)
    ensures Detects(a, b) <==> Contains(a, b) && forall k :: 0 <= k < |a| ==> Recognizable(a[k], b[k])
  {
    if Detects(a, b) {
      DetectedIsContained(a, b);
      forall k | 0 <= k < |a| ensures Recognizable(a[k], b[k]) {
        assert StepsMatch(a[k], b[k]);
      }
    }
    if Contains(a, b) && forall k :: 0 <= k < |a| ==> Recognizable(a[k], b[k]) {
      BeginIsElement(b);
      assert Element(a, Begins(b));
      forall k | 0 <= k < |a| ensures a[k].rb <= b[k].rb && a[k].re >= b[k].re && StepsMatch(a[k], b[k]) {
        assert InDim(a[k], Begins(b)[k]);
        assert Recognizable(a[k], b[k]);
        InDimByResidue(a[k], b[k].rb);
        SameResidue(b[k].rb, a[k].rb, a[k].rs);
        RemainderOfBegin(a[k], b[k]);
        if a[k].rb != b[k].rb {
          SmallRemainder(b[k].rb % b[k].rs, a[k].rs);
        }
      }
    }
  }

  // ---- steps of either sign: exactly when a Yes is right ----

  /** The dimension has an element: its end is not behind its begin, seen along the step. */
  predicate HasElement(d: Dim) {
    if d.rs > 0 then d.rb <= d.re else d.re <= d.rb
  }

  function LastIndex(d: Dim): (n: int)
    requires d.rs != 0
    ensures HasElement(d) ==> n >= 0
  {
    if d.rs > 0 then (d.re - d.rb) / d.rs else (d.rb - d.re) / -d.rs
  }

  /** The element that the last step reaches; the end itself may be skipped. */
  function Last(d: Dim): int
    requires d.rs != 0
  {
    d.rb + LastIndex(d) * d.rs
  }

  /** Between begin and end, whichever is larger. */
  predicate InSpan(d: Dim, x: int) {
    if d.rs > 0 then d.rb <= x <= d.re else d.re <= x <= d.rb
  }

  lemma Quotient(i: int, y: int, m: int)
    requires m > 0
    ensures i * m <= y <==> i <= y / m
    ensures (y / m) * m <= y
  {
    assert y == (y / m) * m + y % m;
    var d := i - y / m;
    assert i * m == (y / m) * m + d * m;
    if d >= 1 {
      Factor(d, m);
    } else {
      assert d * m <= 0;
    }
  }

  lemma SameSign(j: int, m: int)
    requires m != 0 && (if m > 0 then j * m >= 0 else j * m <= 0)
    ensures j >= 0
  {
    assert j * m == (-j) * -m;
    if j < 0 {
      Factor(-j, if m > 0 then m else -m);
    }
  }

  /** Membership is a number of steps up to the last index, and stays in the span. */
  lemma ElementAt(d: Dim, i: int, x: int)
    requires d.rs != 0 && x == d.rb + i * d.rs
    ensures InDim(d, x) <==> 0 <= i <= LastIndex(d)
    ensures InDim(d, x) <==> InSpan(d, x)
  {
    if d.rs > 0 {
      Quotient(i, d.re - d.rb, d.rs);
    } else {
      Quotient(i, d.rb - d.re, -d.rs);
      assert i * -d.rs == -(i * d.rs);
    }
    if InDim(d, x) {
      var j: nat :| x == d.rb + j * d.rs && (if d.rs > 0 then x <= d.re else x >= d.re);
      assert (j - i) * d.rs == 0;
      ZeroFactor(j - i, d.rs);
      assert if d.rs > 0 then j * d.rs >= 0 else j * d.rs <= 0;
    }
    if InSpan(d, x) {
      SameSign(i, d.rs);
    }
  }

  lemma ZeroFactor(x: int, y: int)
    requires y != 0 && x * y == 0
    ensures x == 0
  {
  }

  lemma LastIsElement(d: Dim)
    requires d.rs != 0 && HasElement(d)
    ensures InDim(d, d.rb) && InDim(d, Last(d))
  {
    ElementAt(d, 0, d.rb);
    ElementAt(d, LastIndex(d), Last(d));
  }

  /** The elements lie between the first and the last one. */
  lemma BetweenEnds(o: Dim, x: int, d: Dim)
    requires o.rs != 0 && InDim(o, x) && InSpan(d, o.rb) && InSpan(d, Last(o))
    ensures InSpan(d, x)
  {
    var i: nat :| x == o.rb + i * o.rs && (if o.rs > 0 then x <= o.re else x >= o.re);
    ElementAt(o, i, x);
    var rest := LastIndex(o) - i;
    assert Last(o) == x + rest * o.rs;
    assert if o.rs > 0 then rest * o.rs >= 0 && i * o.rs >= 0 else rest * o.rs <= 0 && i * o.rs <= 0;
  }

  lemma Regroup(i: int, q: int, m: int, s: int)
    requires s == q * m
    ensures i * s == (i * q) * m
  {
    assert i * (q * m) == (i * q) * m;
  }

  lemma SumOfMultiples(p: int, q: int, m: int)
    ensures (p + q) * m == p * m + q * m && (p - q) * m == p * m - q * m
  {
  }

  lemma BeginOnGrid(d: Dim, o: Dim, q: int) returns (p: int)
    requires d.rs != 0 && o.rs != 0 && StepsMatch(d, o) && o.rs == q * d.rs
    ensures o.rb == d.rb + p * d.rs
  {
    if d.rb == o.rb {
      p := 0;
    } else {
      var k := FloorQuotient(d.rb, d.rs);
      var l := FloorQuotient(o.rb, o.rs);
      Regroup(l, q, d.rs, o.rs);
      SumOfMultiples(l * q, k, d.rs);
      p := l * q - k;
    }
  }

  /** Matching steps put the elements of o on the grid of d. */
  lemma OnGrid(d: Dim, o: Dim, x: int) returns (j: int)
    requires d.rs != 0 && o.rs != 0 && StepsMatch(d, o) && InDim(o, x)
    ensures x == d.rb + j * d.rs
  {
    var i: nat :| x == o.rb + i * o.rs && (if o.rs > 0 then x <= o.re else x >= o.re);
    var q := FloorQuotient(o.rs, d.rs);
    var p := BeginOnGrid(d, o, q);
    Regroup(i, q, d.rs, o.rs);
    SumOfMultiples(p, i * q, d.rs);
    j := p + i * q;
  }

  lemma FloorQuotient(x: int, m: int) returns (k: int)
    requires m != 0
    ensures x == k * m + FloorMod(x, m)
  {
    k := if m > 0 then x / m else (-x) / -m;
    if m < 0 {
      assert -x == k * -m + (-x) % -m;
      assert k * -m == -(k * m);
    }
  }

  predicate NonZeroSteps(a: seq<Dim>) {
    forall k :: 0 <= k < |a| ==> a[k].rs != 0
  }

  lemma EndsAreElements(b: seq<Dim>, k: nat)
    requires NonZeroSteps(b) && k < |b| && forall i :: 0 <= i < |b| ==> HasElement(b[i])
    ensures Element(b, Begins(b)) && Element(b, Begins(b)[k := Last(b[k])])
  {
    forall i | 0 <= i < |b| ensures InDim(b[i], b[i].rb) && InDim(b[i], Last(b[i])) {
      LastIsElement(b[i]);
    }
  }

  lemma EmptyDimension(b: seq<Dim>, k: nat, x: seq<int>)
    requires NonZeroSteps(b) && k < |b| && !HasElement(b[k])
    ensures !Element(b, x)
  {
    if |x| == |b| && InDim(b[k], x[k]) {
      InDimInSpan(b[k], x[k]);
    }
  }

  /** For steps of either sign, a Yes is right exactly when b is empty, or the first and the last
      element of every dimension of b lie in the span of that dimension of a. */
  lemma {:induction false} YesIsRightIff(a: seq<Dim>, b: seq<Dim>)
    requires |a| == |b| && NonZeroSteps(a) && NonZeroSteps(b) && Detects(a, b)
    ensures Contains(a, b) <==>
            || (exists k :: 0 <= k < |b| && !HasElement(b[k]))
            || (forall k :: 0 <= k < |a| ==> InSpan(a[k], b[k].rb) && InSpan(a[k], Last(b[k])))
  {
    if k :| 0 <= k < |b| && !HasElement(b[k]) {
      forall x ensures !Element(b, x) {
        EmptyDimension(b, k, x);
      }
    } else if Contains(a, b) {
      forall k | 0 <= k < |a| ensures InSpan(a[k], b[k].rb) && InSpan(a[k], Last(b[k])) {
        EndsAreElements(b, k);
        var x := Begins(b)[k := Last(b[k])];
        assert Element(a, Begins(b)) && Element(a, x);
        assert InDim(a[k], Begins(b)[k]) && InDim(a[k], x[k]);
        InDimInSpan(a[k], b[k].rb);
        InDimInSpan(a[k], Last(b[k]));
      }
    }
    if forall k :: 0 <= k < |a| ==> InSpan(a[k], b[k].rb) && InSpan(a[k], Last(b[k])) {
      forall x | Element(b, x) ensures Element(a, x) {
        forall k | 0 <= k < |a| ensures InDim(a[k], x[k]) {
          assert InSpan(a[k], b[k].rb);
          BetweenEnds(b[k], x[k], a[k]);
          var j := OnGrid(a[k], b[k], x[k]);
          ElementAt(a[k], j, x[k]);
        }
      }
    }
  }

  lemma InDimInSpan(d: Dim, x: int)
    requires d.rs != 0 && InDim(d, x)
    ensures InSpan(d, x)
  {
    var i: nat :| x == d.rb + i * d.rs && (if d.rs > 0 then x <= d.re else x >= d.re);
    ElementAt(d, i, x);
  }

  /** A covered range that is answered No: 0:10:2 contains 2:9:4. */
  lemma MissedCover()
    ensures var a, b := [Dim(0, 9, 2)], [Dim(2, 8, 4)]; Contains(a, b) && !Detects(a, b)
  {
    var a, b := [Dim(0, 9, 2)], [Dim(2, 8, 4)];
    forall x | Element(b, x) ensures Element(a, x) {
      InDimByResidue(b[0], x[0]);
      InDimByResidue(a[0], x[0]);
      assert InDim(b[0], x[0]);
    }
    assert !StepsMatch(a[0], b[0]);
  }

  /** With negative steps a Yes can be wrong: 5, 4, ..., 1 does not contain 6, 5, ..., 0. */
  lemma WrongYesForNegativeSteps()
    ensures var a, b := [Dim(5, 1, -1)], [Dim(6, 0, -1)]; Detects(a, b) && !Contains(a, b)
  {
    var a, b := [Dim(5, 1, -1)], [Dim(6, 0, -1)];
    assert 6 == 6 + 0 * -1;
    assert InDim(b[0], 6);
    assert Element(b, [6]);
    assert forall i: nat :: 6 != 5 + i * -1;
    assert !InDim(a[0], 6);
    assert !Element(a, [6]);
  }
}
