/**
 The mutable range object: offsetting, squeezing, inserting and popping dimensions in place.
 First the list algebra of inserting at sorted axes and popping positions.
 */
module RangeObjects {
  import opened Basics
  import opened Ranges
  import opened Covers

  // ---- list insertion ----

  /** Python's list insertion: negative positions count from the end, and positions beyond either
      end mean that end. */
  function Insert<T>(s: seq<T>, axis: int, x: T): (r: seq<T>)
    ensures |r| == |s| + 1
  {
    if axis >= |s| then s + [x]
    else if axis >= 0 then s[..axis] + [x] + s[axis..]
    else if axis + |s| >= 0 then s[..axis + |s|] + [x] + s[axis + |s|..]
    else [x] + s
  }

  /** The new entry stands at the clamped position, and taking it out leaves the list as it was. */
  lemma InsertedAt<T>(s: seq<T>, axis: int, x: T)
    ensures var from := if axis < 0 then axis + |s| else axis;
            var at := if from < 0 then 0 else if from > |s| then |s| else from;
            Insert(s, axis, x)[at] == x && Insert(s, axis, x)[..at] == s[..at] && Insert(s, axis, x)[at + 1..] == s[at..]
  {
  }

  function InsertAll<T>(s: seq<T>, axes: seq<int>, x: T): (r: seq<T>)
    ensures |r| == |s| + |axes|
    decreases |axes|
  {
    if axes == [] then s else Insert(InsertAll(s, axes[..|axes| - 1], x), axes[|axes| - 1], x)
  }

  lemma NothingInserted<T>(s: seq<T>, axes: seq<int>, x: T)
    ensures InsertAll(s, axes[..0], x) == s
  {
  }

  lemma InsertAllStep<T>(s: seq<T>, axes: seq<int>, k: nat, x: T)
    requires k < |axes|
    ensures InsertAll(s, axes[..k + 1], x) == Insert(InsertAll(s, axes[..k], x), axes[k], x)
  {
    assert axes[..k + 1][..k] == axes[..k];
  }

  /** The positions that insertion reports for sorted axes. */
  function Positions(axes: seq<int>): (r: seq<int>)
    ensures |r| == |axes|
  {
    if axes == [] then []
    else
      var before := Positions(axes[..|axes| - 1]);
      var axis := axes[|axes| - 1];
      before + [if |before| > 0 && before[|before| - 1] >= axis then before[|before| - 1] + 1 else axis]
  }

  function SortedInsert(s: seq<int>, x: int): seq<int> {
    if s == [] then [x] else if x <= s[0] then [x] + s else [s[0]] + SortedInsert(s[1..], x)
  }

  lemma {:induction false} SortedInsertKeeps(s: seq<int>, x: int)
    ensures multiset(SortedInsert(s, x)) == multiset(s) + multiset{x}
  {
    if s != [] {
      assert s == [s[0]] + s[1..];
      if x > s[0] {
        SortedInsertKeeps(s[1..], x);
      }
    }
  }

  lemma {:induction false} SortedInsertSorts(s: seq<int>, x: int, least: int)
    requires Ascending(s) && least <= x && AtLeast(s, least)
    ensures Ascending(SortedInsert(s, x)) && AtLeast(SortedInsert(s, x), least)
  {
    hide Ascending, AtLeast;
    if s == [] {
      assert [x] + s == [x];
      AscendingCons(x, s, least);
    } else {
      Uncons(s, least);
      if x <= s[0] {
        AscendingCons(s[0], s[1..], x);
        assert s == [s[0]] + s[1..];
        AscendingCons(x, s, least);
      } else {
        SortedInsertSorts(s[1..], x, s[0]);
        AscendingCons(s[0], SortedInsert(s[1..], x), least);
      }
    }
  }

  predicate AtLeast(s: seq<int>, least: int) {
    forall i :: 0 <= i < |s| ==> least <= s[i]
  }

  lemma Uncons(s: seq<int>, least: int)
    requires Ascending(s) && s != [] && AtLeast(s, least)
    ensures Ascending(s[1..]) && AtLeast(s[1..], s[0]) && least <= s[0]
  {
  }

  lemma AscendingCons(x: int, s: seq<int>, least: int)
    requires (s == [] || (Ascending(s) && AtLeast(s, x))) && least <= x
    ensures Ascending([x] + s) && AtLeast([x] + s, least)
  {
    var r := [x] + s;
    forall j | 0 < j < |r| ensures x <= r[j] == s[j - 1] {
    }
    forall i, j | 0 <= i < j < |r| ensures r[i] <= r[j] {
    }
  }

  predicate Ascending(s: seq<int>) {
    forall i, j :: 0 <= i < j < |s| ==> s[i] <= s[j]
  }

  /** The axes in non-decreasing order. */
  function Sorted(s: seq<int>): (r: seq<int>)
    ensures Ascending(r) && multiset(r) == multiset(s)
  {
    if s == [] then []
    else
      assert s == [s[0]] + s[1..];
      var rest := Sorted(s[1..]);
      SortedInsertKeeps(rest, s[0]);
      SortedInsertSorts(rest, s[0], if rest == [] || s[0] <= rest[0] then s[0] else rest[0]);
      SortedInsert(rest, s[0])
  }

  function AsSet(s: seq<int>): set<int> {
    set x | x in s
  }

  /** Which of n entries are named. */
  function Mask(named: set<int>, n: nat): (r: seq<bool>)
    ensures |r| == n
  {
    seq(n, i requires 0 <= i < n => i in named)
  }

  /** The entries whose mask is off. */
  function Unmasked<T>(s: seq<T>, mask: seq<bool>): (r: seq<T>)
    requires |s| == |mask|
    ensures |r| + Count(mask) == |s|
  {
    if s == [] then [] else (if mask[0] then [] else [s[0]]) + Unmasked(s[1..], mask[1..])
  }

  function Count(mask: seq<bool>): nat {
    if mask == [] then 0 else (if mask[0] then 1 else 0) + Count(mask[1..])
  }

  lemma {:induction false} UnmaskedSnoc<T>(s: seq<T>, mask: seq<bool>, x: T, off: bool)
    requires |s| == |mask|
    ensures Unmasked(s + [x], mask + [off]) == Unmasked(s, mask) + (if off then [] else [x])
  {
    if s != [] {
      assert (s + [x])[1..] == s[1..] + [x] && (mask + [off])[1..] == mask[1..] + [off];
      UnmaskedSnoc(s[1..], mask[1..], x, off);
    }
  }

  /** A masked entry makes no difference, wherever it is inserted. */
  lemma {:induction false} UnmaskedInsert<T>(s: seq<T>, mask: seq<bool>, axis: int, x: T)
    requires |s| == |mask| && 0 <= axis <= |s|
    ensures Unmasked(Insert(s, axis, x), Insert(mask, axis, true)) == Unmasked(s, mask)
  {
    if axis == 0 {
      assert Insert(s, 0, x) == [x] + s && Insert(mask, 0, true) == [true] + mask;
    } else {
      hide Insert, Unmasked;
      InsertCons(s, axis, x);
      InsertCons(mask, axis, true);
      UnmaskedInsert(s[1..], mask[1..], axis - 1, x);
      UnmaskedCons(s[0], Insert(s[1..], axis - 1, x), mask[0], Insert(mask[1..], axis - 1, true));
      UnmaskedCons(s[0], s[1..], mask[0], mask[1..]);
      assert s == [s[0]] + s[1..] && mask == [mask[0]] + mask[1..];
    }
  }

  lemma InsertCons<T>(s: seq<T>, axis: int, x: T)
    requires 0 < axis <= |s|
    ensures Insert(s, axis, x) == [s[0]] + Insert(s[1..], axis - 1, x)
  {
  }

  lemma UnmaskedCons<T>(x: T, s: seq<T>, off: bool, mask: seq<bool>)
    requires |s| == |mask|
    ensures Unmasked([x] + s, [off] + mask) == (if off then [] else [x]) + Unmasked(s, mask)
  {
    assert ([x] + s)[1..] == s && ([off] + mask)[1..] == mask;
  }

  /** Inserting at either end of a stretch of set entries gives the same mask. */
  lemma StretchIsUniform(mask: seq<bool>, axis: int, top: int)
    requires 0 <= axis <= top <= |mask| && forall q :: axis <= q < top ==> mask[q]
    ensures Insert(mask, axis, true) == Insert(mask, top, true)
  {
    var a, b := Insert(mask, axis, true), Insert(mask, top, true);
    forall q | 0 <= q < |a| ensures a[q] == b[q] {
      if axis < q <= top {
        assert mask[q - 1];
      }
    }
  }

  lemma MaskSnoc(positions: seq<int>, p: int, n: nat)
    requires 0 <= p <= n && forall q :: q in positions ==> q < p
    ensures Mask(AsSet(positions + [p]), n + 1) == Insert(Mask(AsSet(positions), n), p, true)
  {
    var a, b := Mask(AsSet(positions + [p]), n + 1), Insert(Mask(AsSet(positions), n), p, true);
    forall q | 0 <= q < n + 1 ensures a[q] == b[q] {
      assert q in AsSet(positions + [p]) <==> q in positions || q == p;
    }
  }

  /** No axis is negative, and each is at most the number of entries present when its turn comes. */
  predicate AxesFit(axes: seq<int>, rank: nat) {
    forall k :: 0 <= k < |axes| ==> 0 <= axes[k] <= rank + k
  }

  /** Positions are strictly increasing, in range, and fill the stretch from the last axis up. */
  lemma {:induction false} PositionsInvariant(axes: seq<int>, rank: nat)
    requires Ascending(axes)
    ensures var p := Positions(axes);
            && (forall i, j :: 0 <= i < j < |p| ==> p[i] < p[j])
            && (forall i :: 0 <= i < |p| ==> axes[i] <= p[i])
            && (AxesFit(axes, rank) ==> forall i :: 0 <= i < |p| ==> p[i] <= rank + i)
            && (axes != [] ==> forall q :: axes[|axes| - 1] <= q <= p[|p| - 1] ==> q in p)
  {
    if axes != [] {
      var init, axis := axes[..|axes| - 1], axes[|axes| - 1];
      PositionsInvariant(init, rank);
      var before, p := Positions(init), Positions(axes);
      forall q | axis <= q <= p[|p| - 1] ensures q in p {
        if q != p[|p| - 1] {
          assert q in before;
        }
      }
    }
  }

  /** The reported positions are exactly where the inserted entries are. */
  lemma {:induction false} PositionsMark(axes: seq<int>, rank: nat)
    requires Ascending(axes) && AxesFit(axes, rank)
    ensures Mask(AsSet(Positions(axes)), rank + |axes|) == InsertAll(Mask({}, rank), axes, true)
    decreases |axes|
  {
    hide Mask, AsSet, Insert, InsertAll, Positions, Ascending;
    if axes == [] {
      NothingMarked(rank);
    } else {
      var init, axis := axes[..|axes| - 1], axes[|axes| - 1];
      var before, n := Positions(init), rank + |init|;
      AscendingInit(axes);
      PositionsMark(init, rank);
      PositionsInvariant(axes, rank);
      var last := Positions(axes)[|axes| - 1];
      PositionsInit(axes);
      InsertAllStep(Mask({}, rank), axes, |init|, true);
      assert axes[..|axes|] == axes;
      MarkStep(before, last, axis, n, Mask(AsSet(before), n));
    }
  }

  lemma NothingMarked(rank: nat)
    ensures Mask(AsSet(Positions([])), rank) == InsertAll(Mask({}, rank), [], true)
  {
    assert AsSet(Positions([])) == {};
  }

  lemma PositionsInit(axes: seq<int>)
    requires axes != []
    ensures Positions(axes) == Positions(axes[..|axes| - 1]) + [Positions(axes)[|axes| - 1]]
  {
  }

  lemma AscendingInit(axes: seq<int>)
    requires Ascending(axes) && axes != []
    ensures Ascending(axes[..|axes| - 1])
  {
  }

  /** Marking one more position, above all others, that tops a stretch of marked ones. */
  lemma MarkStep(before: seq<int>, last: int, axis: int, n: nat, mask: seq<bool>)
    requires mask == Mask(AsSet(before), n) && 0 <= axis <= last <= n
    requires forall i, j :: 0 <= i < j < |before + [last]| ==> (before + [last])[i] < (before + [last])[j]
    requires forall q :: axis <= q <= last ==> q in before + [last]
    ensures Mask(AsSet(before + [last]), n + 1) == Insert(mask, axis, true)
  {
    forall q | q in before ensures q < last {
      var i :| 0 <= i < |before| && before[i] == q;
      assert (before + [last])[i] == q && (before + [last])[|before|] == last;
    }
    MaskSnoc(before, last, n);
    forall q | axis <= q < last ensures mask[q] {
      assert q in before + [last];
    }
    StretchIsUniform(mask, axis, last);
  }

  /** Inserted entries end up at the reported positions, and popping these restores the list. */
  lemma {:induction false} PopUndoesInsertAll<T>(s: seq<T>, axes: seq<int>, x: T)
    requires AxesFit(axes, |s|)
    ensures Unmasked(InsertAll(s, axes, x), InsertAll(Mask({}, |s|), axes, true)) == s
    ensures forall q :: 0 <= q < |s| + |axes| && InsertAll(Mask({}, |s|), axes, true)[q] ==> InsertAll(s, axes, x)[q] == x
    decreases |axes|
  {
    if axes == [] {
      NothingMasked(s);
    } else {
      var init, axis := axes[..|axes| - 1], axes[|axes| - 1];
      hide Insert, Unmasked, Mask;
      PopUndoesInsertAll(s, init, x);
      InsertMarks(InsertAll(s, init, x), InsertAll(Mask({}, |s|), init, true), axis, x);
      UnmaskedInsert(InsertAll(s, init, x), InsertAll(Mask({}, |s|), init, true), axis, x);
    }
  }

  lemma InsertMarks<T>(s: seq<T>, mask: seq<bool>, axis: int, x: T)
    requires |s| == |mask| && forall q :: 0 <= q < |s| && mask[q] ==> s[q] == x
    ensures forall q :: 0 <= q <= |s| && Insert(mask, axis, true)[q] ==> Insert(s, axis, x)[q] == x
  {
  }

  lemma {:induction false} NothingMasked<T>(s: seq<T>)
    ensures Unmasked(s, Mask({}, |s|)) == s
  {
    if s != [] {
      assert Mask({}, |s|)[1..] == Mask({}, |s[1..]|);
      NothingMasked(s[1..]);
    }
  }

  // ---- when an axis does not fit ----

  lemma {:induction false} CountUpdate(mask: seq<bool>, p: nat)
    requires p < |mask|
    ensures Count(mask[p := true]) <= Count(mask) + 1
  {
    if p > 0 {
      assert mask[p := true][1..] == mask[1..][p - 1 := true];
      CountUpdate(mask[1..], p - 1);
    } else {
      assert mask[0 := true][1..] == mask[1..];
    }
  }

  lemma {:induction false} CountNone(n: nat)
    ensures Count(Mask({}, n)) == 0
  {
    if n > 0 {
      assert Mask({}, n)[1..] == Mask({}, n - 1);
      CountNone(n - 1);
    }
  }

  /** A mask has no more set entries than there are names for them. */
  lemma {:induction false} CountMask(positions: seq<int>, n: nat)
    ensures Count(Mask(AsSet(positions), n)) <= |positions|
    decreases |positions|
  {
    if positions == [] {
      assert AsSet(positions) == {};
      CountNone(n);
    } else {
      var init, p := positions[..|positions| - 1], positions[|positions| - 1];
      CountMask(init, n);
      var mask := Mask(AsSet(init), n);
      assert positions == init + [p];
      assert Mask(AsSet(positions), n) == if 0 <= p < n then mask[p := true] else mask;
      if 0 <= p < n {
        CountUpdate(mask, p);
      }
    }
  }

  lemma {:induction false} PositionsSpread(axes: seq<int>, rank: nat, i: nat, j: nat)
    requires Ascending(axes) && i <= j < |axes|
    ensures Positions(axes)[j] >= Positions(axes)[i] + (j - i)
    decreases j
  {
    PositionsInvariant(axes, rank);
    if i < j {
      PositionsSpread(axes, rank, i, j - 1);
    }
  }

  /** If some axis lies past the end, or is negative, popping leaves too many entries. */
  lemma PopLeavesTooMany<T>(s: seq<T>, axes: seq<int>, x: T)
    requires Ascending(axes) && !AxesFit(axes, |s|)
    ensures |Unmasked(InsertAll(s, axes, x), Mask(AsSet(Positions(axes)), |s| + |axes|))| > |s|
  {
    hide Mask, AsSet, Insert, InsertAll, Unmasked, Positions, Ascending;
    PositionsInvariant(axes, |s|);
    var k :| 0 <= k < |axes| && !(0 <= axes[k] <= |s| + k);
    if axes[k] < 0 {
      NegativeFirst(axes, k);
      FirstIsNotCounted(Positions(axes), |s| + |axes|);
    } else {
      PositionsSpread(axes, |s|, k, |axes| - 1);
      LastIsNotCounted(Positions(axes), |s| + |axes|);
    }
  }

  lemma FirstIsNotCounted(p: seq<int>, n: nat)
    requires p != [] && p[0] < 0
    ensures Count(Mask(AsSet(p), n)) < |p|
  {
    assert Mask(AsSet(p), n) == Mask(AsSet(p[1..]), n) by {
      assert p == [p[0]] + p[1..];
    }
    CountMask(p[1..], n);
  }

  lemma LastIsNotCounted(p: seq<int>, n: nat)
    requires p != [] && p[|p| - 1] >= n
    ensures Count(Mask(AsSet(p), n)) < |p|
  {
    assert Mask(AsSet(p), n) == Mask(AsSet(p[..|p| - 1]), n) by {
      assert p == p[..|p| - 1] + [p[|p| - 1]];
    }
    CountMask(p[..|p| - 1], n);
  }

  /** Sorted axes start with a negative one, which is reported as it is. */
  lemma {:induction false} NegativeFirst(axes: seq<int>, k: nat)
    requires Ascending(axes) && k < |axes| && axes[k] < 0
    ensures Positions(axes)[0] < 0
  {
    FirstPosition(axes);
    assert axes[0] <= axes[k];
  }

  lemma {:induction false} FirstPosition(axes: seq<int>)
    requires axes != []
    ensures Positions(axes)[0] == axes[0]
  {
    if |axes| > 1 {
      FirstPosition(axes[..|axes| - 1]);
    }
  }

  // ---- popping and unsqueezing regions ----

  function Unsqueezed(r: Region, axes: seq<int>): Region {
    Region(InsertAll(r.ranges, Sorted(axes), Point(0)), InsertAll(r.tiles, Sorted(axes), 1))
  }

  /** Popping every dimension leaves the single index zero. */
  function Popped(r: Region, dimensions: set<int>): Region {
    var ranges := Unmasked(r.ranges, Mask(dimensions, |r.ranges|));
    if ranges == [] then Region([Point(0)], [1])
    else Region(ranges, Unmasked(r.tiles, Mask(dimensions, |r.tiles|)))
  }

  /** The first i entries without the listed ones. */
  function PoppedUpTo<T>(s: seq<T>, dimensions: set<int>, i: nat): seq<T>
    requires i <= |s|
  {
    Unmasked(s[..i], Mask(dimensions, |s|)[..i])
  }

  lemma NothingPopped<T>(s: seq<T>, dimensions: set<int>)
    ensures PoppedUpTo(s, dimensions, 0) == []
  {
  }

  lemma PopStep<T>(s: seq<T>, dimensions: set<int>, i: nat)
    requires i < |s|
    ensures PoppedUpTo(s, dimensions, i + 1) == PoppedUpTo(s, dimensions, i) + (if i in dimensions then [] else [s[i]])
  {
    var mask := Mask(dimensions, |s|);
    UnmaskedSnoc(s[..i], mask[..i], s[i], mask[i]);
    assert s[..i + 1] == s[..i] + [s[i]] && mask[..i + 1] == mask[..i] + [mask[i]];
  }

  lemma AllPopped<T>(s: seq<T>, dimensions: set<int>)
    ensures PoppedUpTo(s, dimensions, |s|) == Unmasked(s, Mask(dimensions, |s|))
  {
    assert s[..|s|] == s && Mask(dimensions, |s|)[..|s|] == Mask(dimensions, |s|);
  }

  /** An entry that is not masked comes after the unmasked ones before it. */
  lemma {:induction false} UnmaskedAt<T>(s: seq<T>, mask: seq<bool>, i: nat)
    requires |s| == |mask| && i < |s| && !mask[i]
    ensures var at := i - Count(mask[..i]);
            0 <= at < |Unmasked(s, mask)| && Unmasked(s, mask)[at] == s[i]
  {
    if i > 0 {
      UnmaskedAt(s[1..], mask[1..], i - 1);
      assert mask[..i][1..] == mask[1..][..i - 1];
    }
  }

  lemma {:induction false} CountAll(mask: seq<bool>)
    ensures Count(mask) <= |mask|
    ensures Count(mask) == |mask| <==> forall i :: 0 <= i < |mask| ==> mask[i]
  {
    if mask != [] {
      CountAll(mask[1..]);
      assert forall i :: 1 <= i < |mask| ==> mask[i] == mask[1..][i - 1];
    }
  }

  /** Popping keeps the dimensions that are not listed, with their tiles: as many as there are, each after
      those before it. When all are listed it leaves the one element zero. */
  lemma PopKeepsOthers(r: Region, dimensions: set<int>)
    requires r.Valid()
    ensures var mask, p := Mask(dimensions, |r.ranges|), Popped(r, dimensions);
            if forall i :: 0 <= i < |r.ranges| ==> i in dimensions then p == Region([Point(0)], [1])
            else
              && p.Valid() && |p.ranges| + Count(mask) == |r.ranges|
              && forall i :: 0 <= i < |r.ranges| && i !in dimensions ==>
                   var at := i - Count(mask[..i]);
                   0 <= at < |p.ranges| && p.ranges[at] == r.ranges[i] && p.tiles[at] == r.tiles[i]
  {
    hide Unmasked, Count;
    var mask := Mask(dimensions, |r.ranges|);
    CountAll(mask);
    forall i | 0 <= i < |r.ranges| && i !in dimensions
      ensures var at := i - Count(mask[..i]);
              0 <= at < |Unmasked(r.ranges, mask)| && Unmasked(r.ranges, mask)[at] == r.ranges[i] && Unmasked(r.tiles, mask)[at] == r.tiles[i]
    {
      UnmaskedAt(r.ranges, mask, i);
      UnmaskedAt(r.tiles, mask, i);
    }
  }

  lemma PopUndoes<T>(s: seq<T>, axes: seq<int>, x: T)
    requires Ascending(axes) && AxesFit(axes, |s|)
    ensures Unmasked(InsertAll(s, axes, x), Mask(AsSet(Positions(axes)), |InsertAll(s, axes, x)|)) == s
  {
    PositionsMark(axes, |s|);
    PopUndoesInsertAll(s, axes, x);
  }

  lemma InsertedAtPositions<T>(s: seq<T>, axes: seq<int>, x: T, i: nat)
    requires Ascending(axes) && AxesFit(axes, |s|) && i < |axes|
    ensures 0 <= Positions(axes)[i] < |s| + |axes| && InsertAll(s, axes, x)[Positions(axes)[i]] == x
  {
    PositionsInvariant(axes, |s|);
    PositionsMark(axes, |s|);
    PopUndoesInsertAll(s, axes, x);
    var p := Positions(axes);
    assert p[i] in AsSet(p);
    assert Mask(AsSet(p), |s| + |axes|)[p[i]];
  }

  /** Popping the reported positions undoes unsqueezing exactly when the range has a dimension at
      all, no axis is negative and the k-th smallest axis is at most rank + k. */
  lemma PopUndoesUnsqueezeIff(r: Region, axes: seq<int>)
    requires r.Valid()
    ensures Popped(Unsqueezed(r, axes), AsSet(Positions(Sorted(axes)))) == r
       <==> r.ranges != [] && AxesFit(Sorted(axes), |r.ranges|)
  {
    var sorted := Sorted(axes);
    PopBack(r, sorted);
  }

  lemma PopBack(r: Region, sorted: seq<int>)
    requires r.Valid() && Ascending(sorted)
    ensures Popped(Region(InsertAll(r.ranges, sorted, Point(0)), InsertAll(r.tiles, sorted, 1)), AsSet(Positions(sorted))) == r
       <==> r.ranges != [] && AxesFit(sorted, |r.ranges|)
  {
    if AxesFit(sorted, |r.ranges|) {
      PopUndoes(r.ranges, sorted, Point(0));
      PopUndoes(r.tiles, sorted, 1);
    } else {
      PopLeavesTooMany(r.ranges, sorted, Point(0));
    }
  }

  /** An axis past the end, a negative axis, and a range without dimensions: none is restored. */
  lemma NotRestored()
    ensures var r := Region([Dim(0, 4, 1)], [1]);
            && Popped(Unsqueezed(r, [5]), AsSet(Positions(Sorted([5])))) != r
            && Popped(Unsqueezed(r, [-1]), AsSet(Positions(Sorted([-1])))) != r
    ensures var r := Region([], []); Popped(Unsqueezed(r, [0]), AsSet(Positions(Sorted([0])))) != r
  {
    var r := Region([Dim(0, 4, 1)], [1]);
    SortedOne(5);
    SortedOne(-1);
    assert [5][0] == 5 && [-1][0] == -1;
    PopUndoesUnsqueezeIff(r, [5]);
    PopUndoesUnsqueezeIff(r, [-1]);
    PopUndoesUnsqueezeIff(Region([], []), [0]);
  }

  lemma SortedOne(axis: int)
    ensures Sorted([axis]) == [axis]
  {
    assert [axis][1..] == [];
  }

  /** The reported positions are strictly increasing, one per axis, and hold the inserted dimensions. */
  lemma UnsqueezeReportsPositions(r: Region, axes: seq<int>)
    requires r.Valid() && AxesFit(Sorted(axes), |r.ranges|)
    ensures |Positions(Sorted(axes))| == |axes|
    ensures forall i, j :: 0 <= i < j < |axes| ==> Positions(Sorted(axes))[i] < Positions(Sorted(axes))[j]
    ensures forall i :: 0 <= i < |axes| ==>
              var q := Positions(Sorted(axes))[i];
              && 0 <= q < |r.ranges| + |axes|
              && Unsqueezed(r, axes).ranges[q] == Point(0) && Unsqueezed(r, axes).tiles[q] == 1
  {
    var sorted := Sorted(axes);
    assert |multiset(sorted)| == |multiset(axes)|;
    PositionsInvariant(sorted, |r.ranges|);
    forall i | 0 <= i < |sorted|
      ensures var q := Positions(sorted)[i];
              && 0 <= q < |r.ranges| + |sorted|
              && InsertAll(r.ranges, sorted, Point(0))[q] == Point(0) && InsertAll(r.tiles, sorted, 1)[q] == 1
    {
      InsertedAtPositions(r.ranges, sorted, Point(0), i);
      InsertedAtPositions(r.tiles, sorted, 1, i);
    }
  }

  // ---- the object ----

  /** What a range can be offset by: nothing, another range, a list of indices, or one number for all
      dimensions. */
  datatype Operand = Nothing | OfRange(ranges: seq<Dim>) | OfIndices(indices: seq<int>) | OfNumber(i: int)

  /** The begins of the operand, for a range of the given rank. */
  function Origin(other: Operand, rank: nat): (r: seq<int>) {
    match other
    case Nothing => seq(rank, _ => 0)
    case OfRange(ranges) => Begins(ranges)
    case OfIndices(indices) => indices
    case OfNumber(i) => seq(rank, _ => i)
  }

  /** All dimensions, unless some are listed. */
  function Listed(indices: Option<set<nat>>, rank: nat): set<nat> {
    if indices.Some? then indices.value else Below(rank)
  }

  function Below(n: nat): (r: set<nat>)
    ensures forall i: nat :: i in r <==> i < n
  {
    if n == 0 then {} else Below(n - 1) + {n - 1}
  }

  /** The listed dimensions moved by the entries of `origin`. */
  function Shifted(dims: seq<Dim>, origin: seq<int>, negative: bool, indices: set<nat>, offsetEnd: bool): (r: seq<Dim>)
    requires forall i :: i in indices ==> i < |dims| && i < |origin|
    ensures |r| == |dims|
  {
    seq(|dims|, i requires 0 <= i < |dims| =>
      if i in indices then ShiftedDim(dims[i], if negative then -origin[i] else origin[i], offsetEnd) else dims[i])
  }

  /** Offsetting forth and back restores every dimension. */
  lemma ShiftUndone(dims: seq<Dim>, origin: seq<int>, negative: bool, indices: set<nat>, offsetEnd: bool)
    requires forall i :: i in indices ==> i < |dims| && i < |origin|
    ensures Shifted(Shifted(dims, origin, negative, indices, offsetEnd), origin, !negative, indices, offsetEnd) == dims
  {
  }

  function ShiftedDim(d: Dim, delta: int, offsetEnd: bool): Dim {
    Dim(d.rb + delta, if offsetEnd then d.re + delta else d.re, d.rs)
  }

  /** What the operand moves dimension k by. */
  predicate MovesBy(other: Operand, k: nat, amount: int) {
    match other
    case Nothing => amount == 0
    case OfRange(ranges) => k < |ranges| && amount == ranges[k].rb
    case OfIndices(indices) => k < |indices| && amount == indices[k]
    case OfNumber(i) => amount == i
  }

  /** An element of a listed dimension moves by the begin of the operand there, backwards when asked, and
      nothing else becomes an element. All other dimensions stay. Without the end only the begin moves. */
  lemma OffsetMovesElements(dims: seq<Dim>, other: Operand, negative: bool, indices: Option<set<nat>>, offsetEnd: bool,
                            k: nat, amount: int, x: int)
    requires forall i :: i in Listed(indices, |dims|) ==> i < |dims| && i < |Origin(other, |dims|)|
    requires k < |dims| && MovesBy(other, k, amount)
    ensures var moved := Shifted(dims, Origin(other, |dims|), negative, Listed(indices, |dims|), offsetEnd)[k];
            var delta := if negative then -amount else amount;
            if indices.Some? && k !in indices.value then moved == dims[k]
            else if offsetEnd then moved.rs == dims[k].rs && (InDim(moved, x + delta) <==> InDim(dims[k], x))
            else moved.rs == dims[k].rs && moved.re == dims[k].re && moved.rb == dims[k].rb + delta
  {
    var delta := if negative then -amount else amount;
    ShiftMovesElement(dims[k], delta, x);
    OriginAt(other, |dims|, k, amount);
    hide InDim, Origin;
  }

  lemma OriginAt(other: Operand, rank: nat, k: nat, amount: int)
    requires k < rank && MovesBy(other, k, amount)
    ensures k < |Origin(other, rank)| && Origin(other, rank)[k] == amount
  {
  }

  lemma ShiftMovesElement(d: Dim, delta: int, x: int)
    ensures InDim(ShiftedDim(d, delta, true), x + delta) <==> InDim(d, x)
  {
    var moved := ShiftedDim(d, delta, true);
    if i: nat :| x == d.rb + i * d.rs && (if d.rs > 0 then x <= d.re else x >= d.re) {
      assert x + delta == moved.rb + i * moved.rs;
    }
    if i: nat :| x + delta == moved.rb + i * moved.rs && (if moved.rs > 0 then x + delta <= moved.re else x + delta >= moved.re) {
      assert x == d.rb + i * d.rs;
    }
  }

  lemma NoneShifted(dims: seq<Dim>, origin: seq<int>, negative: bool, offsetEnd: bool)
    ensures Shifted(dims, origin, negative, {}, offsetEnd) == dims
  {
  }

  lemma ShiftOneMore(dims: seq<Dim>, origin: seq<int>, negative: bool, done: set<nat>, offsetEnd: bool, i: nat)
    requires forall j :: j in done ==> j < |dims| && j < |origin|
    requires i < |dims| && i < |origin| && i !in done
    ensures Shifted(dims, origin, negative, done, offsetEnd)[i] == dims[i]
    ensures var delta := if negative then -origin[i] else origin[i];
            Shifted(dims, origin, negative, done + {i}, offsetEnd) ==
            Shifted(dims, origin, negative, done, offsetEnd)[i := ShiftedDim(dims[i], delta, offsetEnd)]
  {
  }

  class Range {
    var ranges: seq<Dim>
    var tileSizes: seq<int>

    ghost function Value(): Region
      reads this
    {
      Region(ranges, tileSizes)
    }

    constructor (ranges: seq<Dim>, tileSizes: seq<int>)
      ensures this.ranges == ranges && this.tileSizes == tileSizes
    {
      this.ranges, this.tileSizes := ranges, tileSizes;
    }

    /** Shifts the listed dimensions by the begins of `other` (taken before any of them moves). */
    method Offset(other: Operand, negative: bool, indices: Option<set<nat>>, offsetEnd: bool)
      requires !other.Nothing? ==>
                 forall i :: i in Listed(indices, |ranges|) ==> i < |ranges| && i < |Origin(other, |ranges|)|
      modifies this`ranges
      ensures ranges == if other.Nothing? then old(ranges)
                        else Shifted(old(ranges), Origin(other, |old(ranges)|), negative,
                                     Listed(indices, |old(ranges)|), offsetEnd)
    {
      if other.Nothing? {
        return;
      }
      MoveListed(Origin(other, |ranges|), negative, Listed(indices, |ranges|), offsetEnd);
    }

    /** The loop over the listed dimensions. */
    method MoveListed(off: seq<int>, negative: bool, listed: set<nat>, offsetEnd: bool)
      requires forall i :: i in listed ==> i < |ranges| && i < |off|
      modifies this`ranges
      ensures ranges == Shifted(old(ranges), off, negative, listed, offsetEnd)
    {
      hide Shifted;
      ghost var was := ranges;
      var todo := listed;
      NoneShifted(was, off, negative, offsetEnd);
      assert listed - todo == {};
      while todo != {}
        invariant todo <= listed && |ranges| == |was|
        invariant ranges == Shifted(was, off, negative, listed - todo, offsetEnd)
        decreases todo
      {
        var i :| i in todo;
        ShiftOneMore(was, off, negative, listed - todo, offsetEnd, i);
        assert listed - (todo - {i}) == listed - todo + {i};
        todo := todo - {i};
        var d := ranges[i];
        var delta := if negative then -off[i] else off[i];
        ranges := ranges[i := Dim(d.rb + delta, if offsetEnd then d.re + delta else d.re, d.rs)];
      }
      assert listed - todo == listed;
    }

    /** The dimensions that squeezing keeps, and which of them are to be shifted to zero. */
    method SqueezeScan(ignored: set<nat>, ghost offset: bool)
      returns (squeezed: seq<Dim>, tiles: seq<int>, offsetIndices: set<nat>, kept: seq<nat>)
      requires Value().Valid() && Value().NonZeroSteps()
      ensures ScannedUpTo(Value(), |ranges|, ignored, offset, squeezed, tiles, offsetIndices, kept)
    {
      squeezed, tiles, offsetIndices, kept := [], [], {}, [];
      for i := 0 to |ranges|
        invariant ScannedUpTo(Value(), i, ignored, offset, squeezed, tiles, offsetIndices, kept)
      {
        ScanStep(Value(), i, ignored, offset, squeezed, tiles, offsetIndices, kept);
        if i in ignored {
          squeezed, tiles, kept := squeezed + [ranges[i]], tiles + [tileSizes[i]], kept + [i];
        } else if SizeOf(ranges[i], tileSizes[i]) != 1 {
          offsetIndices := offsetIndices + {|squeezed|};
          squeezed, tiles, kept := squeezed + [ranges[i]], tiles + [tileSizes[i]], kept + [i];
        }
      }
    }

    /** Removes size-1 dimensions; reports the dimensions that remain. */
    method Squeeze(ignored: set<nat>, offset: bool) returns (kept: seq<nat>)
      requires Value().Valid() && Value().NonZeroSteps()
      modifies this
      ensures Value() == Squeezed(old(Value()), ignored, offset)
      ensures kept == KeptFrom(old(Value()), 0, ignored)
    {
      hide Shifted, Squeezed, KeptFrom, ScannedUpTo;
      var squeezed, tiles, offsetIndices;
      squeezed, tiles, offsetIndices, kept := SqueezeScan(ignored, offset);
      ScanDone(Value(), ignored, offset, squeezed, tiles, offsetIndices, kept);
      if squeezed == [] {
        squeezed, tiles := [Point(0)], [1];
      }
      ranges, tileSizes := squeezed, tiles;
      if offset {
        Offset(OfRange(ranges), true, Some(offsetIndices), true);
      }
    }

    /** Inserts unit dimensions at the axes; reports where they ended up. */
    method Unsqueeze(axes: seq<int>) returns (result: seq<int>)
      modifies this
      ensures Value() == Unsqueezed(old(Value()), axes)
      ensures result == Positions(Sorted(axes))
    {
      hide Insert, InsertAll, Sorted;
      var sorted := Sorted(axes);
      result := [];
      NothingInserted(ranges, sorted, Point(0));
      NothingInserted(tileSizes, sorted, 1);
      for k := 0 to |sorted|
        invariant ranges == InsertAll(old(ranges), sorted[..k], Point(0))
        invariant tileSizes == InsertAll(old(tileSizes), sorted[..k], 1)
        invariant result == Positions(sorted[..k])
      {
        assert sorted[..k + 1][..k] == sorted[..k];
        InsertAllStep(old(ranges), sorted, k, Point(0));
        InsertAllStep(old(tileSizes), sorted, k, 1);
        var axis := sorted[k];
        ranges := Insert(ranges, axis, Point(0));
        tileSizes := Insert(tileSizes, axis, 1);
        if |result| > 0 && result[|result| - 1] >= axis {
          result := result + [result[|result| - 1] + 1];
        } else {
          result := result + [axis];
        }
      }
      assert sorted[..|sorted|] == sorted;
    }

    /** Removes the listed dimensions. */
    method Pop(dimensions: set<int>)
      requires Value().Valid()
      modifies this
      ensures Value() == Popped(old(Value()), dimensions)
    {
      hide Unmasked, Mask, PoppedUpTo;
      var newRanges: seq<Dim>, newTiles: seq<int> := [], [];
      NothingPopped(ranges, dimensions);
      NothingPopped(tileSizes, dimensions);
      for i := 0 to |ranges|
        invariant ranges == old(ranges) && tileSizes == old(tileSizes)
        invariant newRanges == PoppedUpTo(ranges, dimensions, i)
        invariant newTiles == PoppedUpTo(tileSizes, dimensions, i)
      {
        PopStep(ranges, dimensions, i);
        PopStep(tileSizes, dimensions, i);
        if i !in dimensions {
          newRanges, newTiles := newRanges + [ranges[i]], newTiles + [tileSizes[i]];
        }
      }
      AllPopped(ranges, dimensions);
      AllPopped(tileSizes, dimensions);
      if newRanges == [] {
        newRanges, newTiles := [Point(0)], [1];
      }
      ranges, tileSizes := newRanges, newTiles;
    }
  }

  /** Numbers, from k on, of the dimensions that squeezing keeps. */
  function KeptFrom(r: Region, k: nat, ignored: set<nat>): (kept: seq<nat>)
    requires r.Valid() && k <= |r.ranges| && r.NonZeroSteps()
    ensures forall i :: 0 <= i < |kept| ==> k <= kept[i] < |r.ranges|
    ensures forall i, j :: 0 <= i < j < |kept| ==> kept[i] < kept[j]
    decreases |r.ranges| - k
  {
    if k == |r.ranges| then []
    else if k in ignored || SizeOf(r.ranges[k], r.tiles[k]) != 1 then [k] + KeptFrom(r, k + 1, ignored)
    else KeptFrom(r, k + 1, ignored)
  }

  lemma {:induction false} KeptExactly(r: Region, k: nat, ignored: set<nat>, j: nat)
    requires r.Valid() && k <= j < |r.ranges| && r.NonZeroSteps()
    ensures j in KeptFrom(r, k, ignored) <==> j in ignored || SizeOf(r.ranges[j], r.tiles[j]) != 1
    decreases |r.ranges| - k
  {
    if j != k {
      KeptExactly(r, k + 1, ignored, j);
    }
  }

  /** A dimension after squeezing: it keeps its step, and starts from zero unless it is ignored or no
      offset is asked for. */
  predicate SqueezesTo(d: Dim, ignored: bool, offset: bool, d': Dim) {
    d'.rs == d.rs && d'.re - d'.rb == d.re - d.rb && d'.rb == if ignored || !offset then d.rb else 0
  }

  lemma {:induction false} SqueezedFromAt(r: Region, k: nat, ignored: set<nat>, offset: bool)
    requires r.Valid() && k <= |r.ranges| && r.NonZeroSteps()
    ensures var s, kept := SqueezeFrom(r, k, ignored, offset), KeptFrom(r, k, ignored);
            && |s.ranges| == |s.tiles| == |kept|
            && forall i :: 0 <= i < |kept| ==>
                 SqueezesTo(r.ranges[kept[i]], kept[i] in ignored, offset, s.ranges[i]) && s.tiles[i] == r.tiles[kept[i]]
    decreases |r.ranges| - k
  {
    if k < |r.ranges| {
      SqueezedFromAt(r, k + 1, ignored, offset);
    }
  }

  /** Squeezing keeps, in order, the ignored dimensions as they are and those that do not have size one,
      shifted to zero when asked, all with their tiles; it leaves the one element zero when there are none. */
  lemma SqueezeKeeps(r: Region, ignored: set<nat>, offset: bool)
    requires r.Valid() && r.NonZeroSteps()
    ensures var s, kept := Squeezed(r, ignored, offset), KeptFrom(r, 0, ignored);
            && (forall j: nat :: j in kept <==> j < |r.ranges| && (j in ignored || SizeOf(r.ranges[j], r.tiles[j]) != 1))
            && (kept == [] ==> s == Region([Point(0)], [1]))
            && (kept != [] ==> |s.ranges| == |s.tiles| == |kept| && forall i :: 0 <= i < |kept| ==>
                  SqueezesTo(r.ranges[kept[i]], kept[i] in ignored, offset, s.ranges[i]) && s.tiles[i] == r.tiles[kept[i]])
  {
    hide SqueezeFrom, KeptFrom, SizeOf, SqueezesTo;
    SqueezedFromAt(r, 0, ignored, offset);
    forall j: nat | j < |r.ranges|
      ensures j in KeptFrom(r, 0, ignored) <==> j in ignored || SizeOf(r.ranges[j], r.tiles[j]) != 1
    {
      KeptExactly(r, 0, ignored, j);
    }
  }

  /** The chosen dimensions start again from zero. */
  function Zeroed(dims: seq<Dim>, shifted: set<nat>, offset: bool): (r: seq<Dim>)
    ensures |r| == |dims|
  {
    seq(|dims|, i requires 0 <= i < |dims| =>
      if offset && i in shifted then ShiftedDim(dims[i], -dims[i].rb, true) else dims[i])
  }

  /** A squeezed prefix, its chosen dimensions shifted to zero, followed by the rest. */
  function Joined(dims: seq<Dim>, tiles: seq<int>, shifted: set<nat>, offset: bool, rest: Region): Region {
    Region(Zeroed(dims, shifted, offset) + rest.ranges, tiles + rest.tiles)
  }

  lemma JoinedSnoc(dims: seq<Dim>, tiles: seq<int>, shifted: set<nat>, offset: bool, rest: Region,
                   d: Dim, tile: int, shift: bool)
    requires forall j :: j in shifted ==> j < |dims|
    ensures Joined(dims + [d], tiles + [tile], shifted + (if shift then {|dims|} else {}), offset, rest)
         == Joined(dims, tiles, shifted, offset,
                   Region([if offset && shift then ShiftedDim(d, -d.rb, true) else d] + rest.ranges, [tile] + rest.tiles))
  {
    var shifted' := shifted + if shift then {|dims|} else {};
    var d' := if offset && shift then ShiftedDim(d, -d.rb, true) else d;
    assert Zeroed(dims + [d], shifted', offset) == Zeroed(dims, shifted, offset) + [d'];
    assert Zeroed(dims, shifted, offset) + [d'] + rest.ranges == Zeroed(dims, shifted, offset) + ([d'] + rest.ranges);
    assert tiles + [tile] + rest.tiles == tiles + ([tile] + rest.tiles);
  }

  /** What the squeezing scan holds after the first i dimensions. */
  ghost predicate ScannedUpTo(r: Region, i: nat, ignored: set<nat>, offset: bool,
                              squeezed: seq<Dim>, tiles: seq<int>, shifted: set<nat>, kept: seq<nat>)
  {
    && r.Valid() && r.NonZeroSteps() && i <= |r.ranges| && |squeezed| == |tiles|
    && (forall j :: j in shifted ==> j < |squeezed|)
    && Joined(squeezed, tiles, shifted, offset, SqueezeFrom(r, i, ignored, offset)) == SqueezeFrom(r, 0, ignored, offset)
    && kept + KeptFrom(r, i, ignored) == KeptFrom(r, 0, ignored)
  }

  lemma ScanStep(r: Region, i: nat, ignored: set<nat>, offset: bool,
                 squeezed: seq<Dim>, tiles: seq<int>, shifted: set<nat>, kept: seq<nat>)
    requires i < |r.ranges| && ScannedUpTo(r, i, ignored, offset, squeezed, tiles, shifted, kept)
    ensures if i in ignored then
              ScannedUpTo(r, i + 1, ignored, offset, squeezed + [r.ranges[i]], tiles + [r.tiles[i]], shifted, kept + [i])
            else if SizeOf(r.ranges[i], r.tiles[i]) != 1 then
              ScannedUpTo(r, i + 1, ignored, offset, squeezed + [r.ranges[i]], tiles + [r.tiles[i]],
                          shifted + {|squeezed|}, kept + [i])
            else ScannedUpTo(r, i + 1, ignored, offset, squeezed, tiles, shifted, kept)
  {
    var rest, restKept := SqueezeFrom(r, i + 1, ignored, offset), KeptFrom(r, i + 1, ignored);
    assert kept + [i] + restKept == kept + ([i] + restKept);
    if i in ignored {
      JoinedSnoc(squeezed, tiles, shifted, offset, rest, r.ranges[i], r.tiles[i], false);
      assert shifted + {} == shifted;
    } else if SizeOf(r.ranges[i], r.tiles[i]) != 1 {
      JoinedSnoc(squeezed, tiles, shifted, offset, rest, r.ranges[i], r.tiles[i], true);
    }
  }

  lemma ScanDone(r: Region, ignored: set<nat>, offset: bool,
                 squeezed: seq<Dim>, tiles: seq<int>, shifted: set<nat>, kept: seq<nat>)
    requires ScannedUpTo(r, |r.ranges|, ignored, offset, squeezed, tiles, shifted, kept)
    ensures kept == KeptFrom(r, 0, ignored)
    ensures Squeezed(r, ignored, offset) ==
            if squeezed == [] then Region([Point(0)], [1])
            else Region(if offset then Shifted(squeezed, Begins(squeezed), true, shifted, true) else squeezed, tiles)
    ensures squeezed == [] ==> shifted == {}
    ensures Shifted([Point(0)], Begins([Point(0)]), true, {}, true) == [Point(0)]
  {
    var s := SqueezeFrom(r, 0, ignored, offset);
    assert s.ranges == Zeroed(squeezed, shifted, offset) && s.tiles == tiles;
    if offset {
      assert s.ranges == Shifted(squeezed, Begins(squeezed), true, shifted, true);
    } else {
      assert s.ranges == squeezed;
    }
    if squeezed == [] {
      assert forall j :: j !in shifted;
    }
  }
}
