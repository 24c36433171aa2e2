/**
 Tasklets that overwrite without looking: what a slot holds depends on its last writer alone. The
 order of two writers then matters only where one of them can be the last one.
 */
module PlainWrites {
  import opened Basics
  import opened StateGraph
  import opened Scheduling
  import opened Hazards
  import opened Necessity

  /** No write depends on the value it overwrites. */
  ghost predicate IsPlain(prog: Behaviour) {
    forall t, view, s, x, y :: prog(t, view, s, x) == prog(t, view, s, y)
  }

  // ---- sources ----

  /** The last tasklet of an order that writes the slot. */
  function LastWriter(acc: Accesses, s: Slot, order: seq<Node>): Option<Node> {
    if order == [] then None
    else if acc.Writes(order[|order| - 1], s) then Some(order[|order| - 1])
    else LastWriter(acc, s, order[..|order| - 1])
  }

  lemma {:induction false} LastWriterIsIn(acc: Accesses, s: Slot, order: seq<Node>)
    ensures var w := LastWriter(acc, s, order);
            if w.Some? then w.value in order && acc.Writes(w.value, s) else forall t :: t in order ==> !acc.Writes(t, s)
  {
    if order != [] {
      var init, last := order[..|order| - 1], order[|order| - 1];
      assert order == init + [last];
      LastWriterIsIn(acc, s, init);
    }
  }

  lemma LastComesBeforeNone(order: seq<Node>, w: Node)
    requires NoDuplicates(order) && order != []
    ensures !Before(order, order[|order| - 1], w)
  {
    forall i | 0 <= i < |order| - 1 ensures order[i] != order[|order| - 1] {
    }
  }

  /** A writer that all other writers come before is the last one. */
  lemma {:induction false} LastWriterIs(acc: Accesses, s: Slot, order: seq<Node>, w: Node)
    requires NoDuplicates(order) && w in order && acc.Writes(w, s)
    requires forall t :: t in order && acc.Writes(t, s) && t != w ==> Before(order, t, w)
    ensures LastWriter(acc, s, order) == Some(w)
    decreases |order|
  {
    var n := |order| - 1;
    var init, last := order[..n], order[n];
    assert order == init + [last];
    if acc.Writes(last, s) {
      LastComesBeforeNone(order, w);
      assert last in order;
    } else {
      forall t | t in init && acc.Writes(t, s) && t != w ensures Before(init, t, w) {
        assert t in order;
        var i, j :| 0 <= i < j < |order| && order[i] == t && order[j] == w;
        assert init[i] == t && init[j] == w;
      }
      LastWriterIs(acc, s, init, w);
    }
  }

  // ---- what a run leaves ----

  lemma RunSnoc(acc: Accesses, prog: Behaviour, init: seq<Node>, t: Node, m: Machine)
    ensures Run(acc, prog, init + [t], m) == Exec(acc, prog, t, Run(acc, prog, init, m))
  {
    RunAppend(acc, prog, init, [t], m);
    RunOne(acc, prog, t, Run(acc, prog, init, m));
  }

  /** The value that a source has written: that of a tasklet which has seen `view`, or the old one. */
  function Written(prog: Behaviour, w: Option<Node>, seen: map<Node, map<Slot, Value>>, s: Slot, old_: Value): Value
    requires w.Some? ==> w.value in seen
  {
    if w.None? then old_ else prog(w.value, seen[w.value], s, 0)
  }

  /** Nodes run so far have been recorded, the others have seen what they had. */
  lemma {:induction false} SeenKeys(acc: Accesses, prog: Behaviour, order: seq<Node>, m: Machine)
    ensures Run(acc, prog, order, m).seen.Keys == m.seen.Keys + set t | t in order
    ensures forall t :: t in m.seen && t !in order ==> Run(acc, prog, order, m).seen[t] == m.seen[t]
    ensures Run(acc, prog, order, m).store.Keys == m.store.Keys
    decreases |order|
  {
    if order != [] {
      var init, t := order[..|order| - 1], order[|order| - 1];
      assert order == init + [t];
      RunSnoc(acc, prog, init, t, m);
      SeenKeys(acc, prog, init, m);
    }
  }

  /** Every slot holds what its last writer wrote. */
  lemma {:induction false} StoreShows(acc: Accesses, prog: Behaviour, order: seq<Node>, m: Machine, s: Slot)
    requires IsPlain(prog) && NoDuplicates(order) && s in m.store
    ensures var r, w := Run(acc, prog, order, m), LastWriter(acc, s, order);
            && (w.Some? ==> w.value in r.seen) && s in r.store
            && r.store[s] == Written(prog, w, r.seen, s, m.store[s])
    decreases |order|
  {
    if order != [] {
      var init, t := order[..|order| - 1], order[|order| - 1];
      assert order == init + [t];
      RunSnoc(acc, prog, init, t, m);
      StoreShows(acc, prog, init, m, s);
      LastWriterIsIn(acc, s, init);
      var before := Run(acc, prog, init, m);
      assert t !in init;
      if acc.Writes(t, s) {
        assert prog(t, View(acc, t, before.store), s, before.store[s]) == prog(t, View(acc, t, before.store), s, 0);
      }
    }
  }

  /** The k-th node has seen the store that its predecessors left. */
  lemma SeenShows(acc: Accesses, prog: Behaviour, order: seq<Node>, m: Machine, k: nat)
    requires NoDuplicates(order) && k < |order|
    ensures var r := Run(acc, prog, order, m);
            order[k] in r.seen && r.seen[order[k]] == View(acc, order[k], Run(acc, prog, order[..k], m).store)
  {
    var t := order[k];
    var now := Run(acc, prog, order[..k], m);
    assert order == order[..k] + ([t] + order[k + 1..]);
    RunAppend(acc, prog, order[..k], [t] + order[k + 1..], m);
    RunAppend(acc, prog, [t], order[k + 1..], now);
    RunOne(acc, prog, t, now);
    SeenKeys(acc, prog, order[k + 1..], Exec(acc, prog, t, now));
    assert t !in order[k + 1..];
  }

  /** What runs of a prefix have recorded stays. */
  lemma SeenStays(acc: Accesses, prog: Behaviour, order: seq<Node>, m: Machine, k: nat, t: Node)
    requires NoDuplicates(order) && k <= |order| && t in order[..k]
    ensures t in Run(acc, prog, order[..k], m).seen && t in Run(acc, prog, order, m).seen
    ensures Run(acc, prog, order, m).seen[t] == Run(acc, prog, order[..k], m).seen[t]
  {
    assert order == order[..k] + order[k..];
    RunAppend(acc, prog, order[..k], order[k..], m);
    SeenKeys(acc, prog, order[..k], m);
    SeenKeys(acc, prog, order[k..], Run(acc, prog, order[..k], m));
    assert t !in order[k..];
  }

  // ---- equal sources, equal results ----

  /** Both orders give every reader the same source for every slot, and every slot the same last writer. */
  ghost predicate SameSources(acc: Accesses, a: seq<Node>, b: seq<Node>) {
    && (forall i, j, s :: 0 <= i < |a| && 0 <= j < |b| && a[i] == b[j] && acc.Reads(a[i], s)
                          ==> LastWriter(acc, s, a[..i]) == LastWriter(acc, s, b[..j]))
    && (forall s :: LastWriter(acc, s, a) == LastWriter(acc, s, b))
  }

  /** What a prefix leaves in a slot, by what its tasklets have seen in the end. */
  lemma PrefixShows(acc: Accesses, prog: Behaviour, order: seq<Node>, m: Machine, i: nat, s: Slot)
    requires IsPlain(prog) && NoDuplicates(order) && i <= |order| && s in m.store
    ensures var w, r := LastWriter(acc, s, order[..i]), Run(acc, prog, order, m);
            && (w.Some? ==> w.value in order[..i] && w.value in r.seen)
            && s in Run(acc, prog, order[..i], m).store
            && Run(acc, prog, order[..i], m).store[s] == Written(prog, w, r.seen, s, m.store[s])
  {
    StoreShows(acc, prog, order[..i], m, s);
    LastWriterIsIn(acc, s, order[..i]);
    var w := LastWriter(acc, s, order[..i]);
    if w.Some? {
      SeenStays(acc, prog, order, m, i, w.value);
    }
  }

  lemma {:induction false} SameSeen(acc: Accesses, prog: Behaviour, a: seq<Node>, b: seq<Node>, m: Machine, i: nat, j: nat)
    requires IsPlain(prog) && NoDuplicates(a) && NoDuplicates(b) && SameSources(acc, a, b)
    requires (forall t :: t in a <==> t in b) && i < |a| && j < |b| && a[i] == b[j]
    ensures a[i] in Run(acc, prog, a, m).seen && a[i] in Run(acc, prog, b, m).seen
    ensures Run(acc, prog, a, m).seen[a[i]] == Run(acc, prog, b, m).seen[a[i]]
    decreases i
  {
    hide Run, LastWriter;
    SeenShows(acc, prog, a, m, i);
    SeenShows(acc, prog, b, m, j);
    SeenKeys(acc, prog, a[..i], m);
    SeenKeys(acc, prog, b[..j], m);
    var storeA, storeB := Run(acc, prog, a[..i], m).store, Run(acc, prog, b[..j], m).store;
    forall s | s in m.store && acc.Reads(a[i], s) ensures storeA[s] == storeB[s] {
      PrefixShows(acc, prog, a, m, i, s);
      PrefixShows(acc, prog, b, m, j, s);
      var w := LastWriter(acc, s, a[..i]);
      assert w == LastWriter(acc, s, b[..j]);
      if w.Some? {
        var k :| 0 <= k < i && a[k] == w.value;
        var l :| 0 <= l < j && b[l] == w.value;
        SameSeen(acc, prog, a, b, m, k, l);
      }
    }
    assert View(acc, a[i], storeA) == View(acc, a[i], storeB);
  }

  /** Equal sources give every tasklet the same view and leave the same memory. */
  lemma SameSourcesAgree(acc: Accesses, prog: Behaviour, a: seq<Node>, b: seq<Node>, m: Machine)
    requires IsPlain(prog) && NoDuplicates(a) && NoDuplicates(b) && SameSources(acc, a, b)
    requires forall t :: t in a <==> t in b
    ensures Run(acc, prog, a, m) == Run(acc, prog, b, m)
  {
    hide Run, LastWriter;
    var ra, rb := Run(acc, prog, a, m), Run(acc, prog, b, m);
    SeenKeys(acc, prog, a, m);
    SeenKeys(acc, prog, b, m);
    forall t | t in ra.seen ensures ra.seen[t] == rb.seen[t] {
      if t in a {
        var i :| 0 <= i < |a| && a[i] == t;
        assert t in b;
        var j :| 0 <= j < |b| && b[j] == t;
        SameSeen(acc, prog, a, b, m, i, j);
      }
    }
    assert ra.seen == rb.seen;
    forall s | s in m.store ensures ra.store[s] == rb.store[s] {
      StoreShows(acc, prog, a, m, s);
      StoreShows(acc, prog, b, m, s);
    }
    assert ra.store == rb.store;
  }

  // ---- the condition ----

  function Writers(acc: Accesses, within: set<Node>, s: Slot): set<Node> {
    set w | w in within && acc.Writes(w, s)
  }

  ghost function WritersBefore(before: Precedence, acc: Accesses, within: set<Node>, s: Slot, r: Node): set<Node> {
    set w | w in within && acc.Writes(w, s) && w != r && (w, r) in before
  }

  /** All others precede w. */
  ghost predicate IsLast(before: Precedence, ws: set<Node>, w: Node) {
    w in ws && forall u :: u in ws && u != w ==> (u, w) in before
  }

  ghost predicate HasLast(before: Precedence, ws: set<Node>) {
    ws == {} || exists w :: IsLast(before, ws, w)
  }

  ghost predicate ReadersOrdered(before: Precedence, within: set<Node>, acc: Accesses) {
    forall r, w, s :: r in within && w in within && r != w && acc.Reads(r, s) && acc.Writes(w, s)
                      ==> (r, w) in before || (w, r) in before
  }

  /** Every read and write of a slot are ordered, the writers before each reader have a last one, and
      so have all writers of a slot. */
  ghost predicate SourcesOrdered(before: Precedence, within: set<Node>, acc: Accesses) {
    && ReadersOrdered(before, within, acc)
    && (forall r, s :: r in within && acc.Reads(r, s) ==> HasLast(before, WritersBefore(before, acc, within, s, r)))
    && (forall s :: HasLast(before, Writers(acc, within, s)))
  }

  // ---- it is enough ----

  lemma PathIsBefore(g: Graph, within: set<Node>, topo: Order, order: seq<Node>, u: Node, v: Node)
    requires g.Forward(topo) && Respects(g, within, order) && (u, v) in Paths(g, within)
    ensures Before(order, u, v)
  {
    var p :| IsPath(g, within, u, v, p);
    forall n | n in within ensures !g.HasEdge(n, n) {
    }
    PathFollowsSchedule(g, within, order, u, v, p);
  }

  lemma PrefixBefore(order: seq<Node>, i: nat, u: Node, v: Node)
    requires NoDuplicates(order) && i < |order| && Before(order, u, v) && v in order[..i]
    ensures u in order[..i] && Before(order[..i], u, v)
  {
    var k, l :| 0 <= k < l < |order| && order[k] == u && order[l] == v;
    var j :| 0 <= j < i && order[j] == v;
    assert order[..i][k] == u && order[..i][l] == v;
  }

  /** In any order that respects the edges, the writers in front of a reader are those that precede it. */
  lemma WritersInFront(g: Graph, within: set<Node>, acc: Accesses, topo: Order, order: seq<Node>, i: nat, s: Slot, w: Node)
    requires g.Forward(topo) && Respects(g, within, order) && i < |order| && acc.Reads(order[i], s)
    requires ReadersOrdered(Paths(g, within), within, acc)
    ensures w in order[..i] && acc.Writes(w, s) <==> w in WritersBefore(Paths(g, within), acc, within, s, order[i])
  {
    var r := order[i];
    assert r in order;
    if w in order[..i] && acc.Writes(w, s) {
      var k :| 0 <= k < i && order[k] == w;
      assert w in order && w != r;
      assert Before(order, w, r);
      BeforeAsymmetric(order, w, r);
      if (r, w) in Paths(g, within) {
        PathIsBefore(g, within, topo, order, r, w);
      }
    }
    if w in WritersBefore(Paths(g, within), acc, within, s, r) {
      PathIsBefore(g, within, topo, order, w, r);
      var x, y :| 0 <= x < y < |order| && order[x] == w && order[y] == r;
      assert y == i && order[..i][x] == w;
    }
  }

  /** The source of a reader does not depend on the order. */
  lemma SourceOfReader(g: Graph, within: set<Node>, acc: Accesses, topo: Order, order: seq<Node>, i: nat, s: Slot,
                       last: Option<Node>)
    requires g.Forward(topo) && Respects(g, within, order) && i < |order| && acc.Reads(order[i], s)
    requires ReadersOrdered(Paths(g, within), within, acc)
    requires var ws := WritersBefore(Paths(g, within), acc, within, s, order[i]);
             if last.None? then ws == {} else IsLast(Paths(g, within), ws, last.value)
    ensures LastWriter(acc, s, order[..i]) == last
  {
    var ws := WritersBefore(Paths(g, within), acc, within, s, order[i]);
    forall w ensures w in order[..i] && acc.Writes(w, s) <==> w in ws {
      WritersInFront(g, within, acc, topo, order, i, s, w);
    }
    if last.None? {
      LastWriterIsIn(acc, s, order[..i]);
    } else {
      forall t | t in order[..i] && acc.Writes(t, s) && t != last.value ensures Before(order[..i], t, last.value) {
        assert t in ws;
        PathIsBefore(g, within, topo, order, t, last.value);
        PrefixBefore(order, i, t, last.value);
      }
      LastWriterIs(acc, s, order[..i], last.value);
    }
  }

  /** Nor does the last writer of a slot. */
  lemma SourceAtEnd(g: Graph, within: set<Node>, acc: Accesses, topo: Order, order: seq<Node>, s: Slot, last: Option<Node>)
    requires g.Forward(topo) && Respects(g, within, order)
    requires var ws := Writers(acc, within, s); if last.None? then ws == {} else IsLast(Paths(g, within), ws, last.value)
    ensures LastWriter(acc, s, order) == last
  {
    var ws := Writers(acc, within, s);
    if last.None? {
      LastWriterIsIn(acc, s, order);
      assert forall t :: t in order && acc.Writes(t, s) ==> t in ws;
    } else {
      forall t | t in order && acc.Writes(t, s) && t != last.value ensures Before(order, t, last.value) {
        assert t in ws;
        PathIsBefore(g, within, topo, order, t, last.value);
      }
      LastWriterIs(acc, s, order, last.value);
    }
  }

  ghost function TheLast(before: Precedence, ws: set<Node>): (w: Option<Node>)
    requires HasLast(before, ws)
    ensures if w.None? then ws == {} else IsLast(before, ws, w.value)
  {
    if ws == {} then None else (var w :| IsLast(before, ws, w); Some(w))
  }

  lemma OrderedSourcesAgree(g: Graph, within: set<Node>, acc: Accesses, topo: Order, a: seq<Node>, b: seq<Node>)
    requires g.Forward(topo) && Respects(g, within, a) && Respects(g, within, b)
    requires SourcesOrdered(Paths(g, within), within, acc)
    ensures SameSources(acc, a, b)
  {
    var before := Paths(g, within);
    forall i, j, s | 0 <= i < |a| && 0 <= j < |b| && a[i] == b[j] && acc.Reads(a[i], s)
      ensures LastWriter(acc, s, a[..i]) == LastWriter(acc, s, b[..j])
    {
      assert a[i] in a;
      var last := TheLast(before, WritersBefore(before, acc, within, s, a[i]));
      SourceOfReader(g, within, acc, topo, a, i, s, last);
      SourceOfReader(g, within, acc, topo, b, j, s, last);
    }
    forall s ensures LastWriter(acc, s, a) == LastWriter(acc, s, b) {
      var last := TheLast(before, Writers(acc, within, s));
      SourceAtEnd(g, within, acc, topo, a, s, last);
      SourceAtEnd(g, within, acc, topo, b, s, last);
    }
  }
}
