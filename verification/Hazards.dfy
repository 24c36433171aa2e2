/**
 Reconstruction of read-after-write, write-after-read and write-after-write ordering edges, and
 the proof that they are all a scheduler needs.
 */
module Hazards {
  import opened Basics
  import opened StateGraph
  import opened Scheduling
  import opened States

  /** p leads from u to v along edges of g, through nodes of `within` only. */
  ghost predicate IsPath(g: Graph, within: set<Node>, u: Node, v: Node, p: seq<Node>) {
    && |p| >= 2 && p[0] == u && p[|p| - 1] == v
    && (forall i :: 0 <= i < |p| ==> p[i] in within)
    && (forall i :: 0 <= i < |p| - 1 ==> g.HasEdge(p[i], p[i + 1]))
  }

  ghost predicate Connected(g: Graph, within: set<Node>, u: Node, v: Node) {
    exists p :: IsPath(g, within, u, v, p)
  }

  lemma EdgeConnects(g: Graph, within: set<Node>, u: Node, v: Node)
    requires g.HasEdge(u, v) && u in within && v in within
    ensures Connected(g, within, u, v)
  {
    assert IsPath(g, within, u, v, [u, v]);
  }

  lemma EdgeExtends(g: Graph, within: set<Node>, u: Node, v: Node, w: Node)
    requires Connected(g, within, u, v) && g.HasEdge(v, w) && w in within
    ensures Connected(g, within, u, w)
  {
    var p :| IsPath(g, within, u, v, p);
    var q := p + [w];
    forall i | 0 <= i < |q| - 1 ensures g.HasEdge(q[i], q[i + 1]) {
      if i < |p| - 1 {
        assert q[i] == p[i] && q[i + 1] == p[i + 1];
      }
    }
    assert IsPath(g, within, u, w, q);
  }

  lemma ConnectedGrows(g: Graph, within: set<Node>, g': Graph, within': set<Node>, u: Node, v: Node)
    requires Connected(g, within, u, v) && g.edges <= g'.edges && within <= within'
    ensures Connected(g', within', u, v)
  {
    var p :| IsPath(g, within, u, v, p);
    assert IsPath(g', within', u, v, p);
  }

  lemma PathInFront(g: Graph, within: set<Node>, u: Node, v: Node, w: Node)
    requires g.HasEdge(u, v) && Connected(g, within, v, w) && u in within
    ensures Connected(g, within, u, w)
  {
    var p :| IsPath(g, within, v, w, p);
    var q := [u] + p;
    forall i | 0 <= i < |q| - 1 ensures g.HasEdge(q[i], q[i + 1]) {
      if i > 0 {
        assert q[i] == p[i - 1] && q[i + 1] == p[i];
      }
    }
    assert IsPath(g, within, u, w, q);
  }

  lemma ConnectedTrans(g: Graph, within: set<Node>, u: Node, v: Node, w: Node)
    requires Connected(g, within, u, v) && Connected(g, within, v, w)
    ensures Connected(g, within, u, w)
  {
    var p :| IsPath(g, within, u, v, p);
    var q :| IsPath(g, within, v, w, q);
    var r := p + q[1..];
    forall i | 0 <= i < |r| - 1 ensures g.HasEdge(r[i], r[i + 1]) {
      if i < |p| - 1 {
        assert r[i] == p[i] && r[i + 1] == p[i + 1];
      } else {
        assert r[i] == q[i - (|p| - 1)] && r[i + 1] == q[i - (|p| - 1) + 1];
      }
    }
    assert IsPath(g, within, u, w, r);
  }

  lemma ConnectedForward(g: Graph, within: set<Node>, topo: Order, u: Node, v: Node)
    requires g.Forward(topo) && within <= topo.Keys && Connected(g, within, u, v)
    ensures u in within && v in within && topo[u] < topo[v]
  {
    var p :| IsPath(g, within, u, v, p);
    PathForward(g, within, topo, u, v, p);
  }

  lemma {:induction false} PathForward(g: Graph, within: set<Node>, topo: Order, u: Node, v: Node, p: seq<Node>)
    requires g.Forward(topo) && within <= topo.Keys && IsPath(g, within, u, v, p)
    ensures u in within && v in within && topo[u] < topo[v]
    decreases |p|
  {
    assert p[0] in within && p[|p| - 1] in within && g.HasEdge(p[0], p[1]);
    if |p| > 2 {
      var q := p[1..];
      forall k | 0 <= k < |q| - 1 ensures g.HasEdge(q[k], q[k + 1]) {
        assert q[k] == p[k + 1] && q[k + 1] == p[k + 2];
      }
      PathForward(g, within, topo, p[1], v, q);
    }
  }

  // ---- one slot ----

  ghost predicate SortedBy(topo: Order, s: seq<Node>) {
    && (forall i :: 0 <= i < |s| ==> s[i] in topo)
    && (forall i, j :: 0 <= i < j < |s| ==> topo[s[i]] < topo[s[j]])
  }

  ghost predicate Injective(topo: Order) {
    forall u, v :: u in topo && v in topo && topo[u] == topo[v] ==> u == v
  }

  /** g' adds to g only ordering edges between members of `tasks` that go forward and whose ends
      conflict on slot s. */
  ghost predicate OnlyAdds(g: Graph, g': Graph, acc: Accesses, tasks: set<Node>, topo: Order) {
    && g'.nodes == g.nodes && g.edges <= g'.edges
    && (forall e :: e in g'.edges && e !in g.edges ==>
          && e == OrderingEdge(e.src, e.dst) && e.src in tasks && e.dst in tasks
          && e.src in topo && e.dst in topo && topo[e.src] < topo[e.dst] && acc.Conflict(e.src, e.dst))
  }

  /** Every two of the first k tasklets that conflict on s are connected, the earlier to the later. */
  ghost predicate Ordered(g: Graph, acc: Accesses, s: Slot, within: set<Node>, sorted: seq<Node>, k: nat)
    requires k <= |sorted|
  {
    forall i, j :: 0 <= i < j < k && acc.ConflictOn(s, sorted[i], sorted[j])
                   ==> Connected(g, within, sorted[i], sorted[j])
  }

  /** What the scan remembers after k tasklets: the last writer, at position w (or -1), and the
      readers from there on. */
  ghost predicate Remembers(acc: Accesses, s: Slot, sorted: seq<Node>, k: nat, w: int,
                            lastWriter: Option<Node>, readers: set<Node>)
    requires k <= |sorted|
  {
    && -1 <= w < k
    && (w == -1 <==> lastWriter.None?)
    && (w >= 0 ==> lastWriter == Some(sorted[w]) && acc.Writes(sorted[w], s))
    && (forall i :: w < i < k ==> !acc.Writes(sorted[i], s))
    && (forall r :: r in readers <==> exists i :: 0 <= i < k && w <= i && sorted[i] == r && acc.Reads(r, s))
  }

  /** The step of the argument: the edges drawn to tasklet k connect it to every earlier conflict. */
  lemma StepOrders(g: Graph, g': Graph, acc: Accesses, s: Slot, within: set<Node>, sorted: seq<Node>, k: nat,
                   w: int, lastWriter: Option<Node>, readers: set<Node>)
    requires k < |sorted| && g.edges <= g'.edges
    requires forall i :: 0 <= i < |sorted| ==> sorted[i] in within && acc.Touches(sorted[i], s)
    requires Remembers(acc, s, sorted, k, w, lastWriter, readers) && Ordered(g, acc, s, within, sorted, k)
    requires w >= 0 ==> g'.HasEdge(sorted[w], sorted[k])
    requires acc.Writes(sorted[k], s) ==> forall r :: r in readers ==> g'.HasEdge(r, sorted[k])
    ensures Ordered(g', acc, s, within, sorted, k + 1)
  {
    forall i, j | 0 <= i < j < k + 1 && acc.ConflictOn(s, sorted[i], sorted[j])
      ensures Connected(g', within, sorted[i], sorted[j])
    {
      if j < k {
        ConnectedGrows(g, within, g', within, sorted[i], sorted[j]);
      } else if i < w {
        assert acc.ConflictOn(s, sorted[i], sorted[w]);
        ConnectedGrows(g, within, g', within, sorted[i], sorted[w]);
        EdgeExtends(g', within, sorted[i], sorted[w], sorted[k]);
      } else {
        if i > w {
          assert sorted[i] in readers;
        }
        EdgeConnects(g', within, sorted[i], sorted[k]);
      }
    }
  }

  method ConnectReaders(st: State, readers: set<Node>, t: Node, ghost topo: Order)
    requires st.g.WellFormed() && st.g.Forward(topo) && t in st.g.nodes
    requires forall r :: r in readers ==> r in st.g.nodes && topo[r] < topo[t]
    modifies st
    ensures st.g.WellFormed() && st.g.Forward(topo)
    ensures st.g.nodes == old(st.g).nodes && old(st.g).edges <= st.g.edges
    ensures forall e :: e in st.g.edges && e !in old(st.g).edges ==> e.src in readers && e == OrderingEdge(e.src, t)
    ensures forall r :: r in readers ==> st.g.HasEdge(r, t)
  {
    var todo := readers;
    while todo != {}
      invariant todo <= readers
      invariant st.g.WellFormed() && st.g.Forward(topo)
      invariant st.g.nodes == old(st.g).nodes && old(st.g).edges <= st.g.edges
      invariant forall e :: e in st.g.edges && e !in old(st.g).edges ==> e.src in readers && e == OrderingEdge(e.src, t)
      invariant forall r :: r in readers && r !in todo ==> st.g.HasEdge(r, t)
      decreases todo
    {
      var r :| r in todo;
      todo := todo - {r};
      st.AddOrdering(r, t, topo);
    }
  }

  /** One turn of the hazard loop. */
  method OrderTasklet(st: State, acc: Accesses, s: Slot, t: Node, currentReaders: set<Node>,
                      lastWriter: Option<Node>, ghost topo: Order)
    returns (readers: set<Node>, writer: Option<Node>)
    requires st.g.WellFormed() && st.g.Forward(topo) && t in st.g.nodes && acc.Touches(t, s)
    requires forall r :: r in currentReaders ==> r in st.g.nodes && topo[r] < topo[t] && acc.Reads(r, s)
    requires lastWriter.Some? ==>
               lastWriter.value in st.g.nodes && topo[lastWriter.value] < topo[t] && acc.Writes(lastWriter.value, s)
    modifies st
    ensures st.g.WellFormed() && st.g.Forward(topo)
    ensures st.g.nodes == old(st.g).nodes && old(st.g).edges <= st.g.edges
    ensures forall e :: e in st.g.edges && e !in old(st.g).edges ==>
              && e == OrderingEdge(e.src, t) && acc.ConflictOn(s, e.src, t)
              && (e.src in currentReaders || lastWriter == Some(e.src))
    ensures acc.Writes(t, s) ==> forall r :: r in currentReaders ==> st.g.HasEdge(r, t)
    ensures lastWriter.Some? ==> st.g.HasEdge(lastWriter.value, t)
    ensures writer == if acc.Writes(t, s) then Some(t) else lastWriter
    ensures readers == (if acc.Writes(t, s) then {} else currentReaders) + (if acc.Reads(t, s) then {t} else {})
  {
    readers, writer := currentReaders, lastWriter;
    if acc.Writes(t, s) {
      ConnectReaders(st, readers, t, topo);
      if writer.Some? && writer.value != t {
        st.AddOrdering(writer.value, t, topo);
      }
      readers, writer := {}, Some(t);
    }
    if acc.Reads(t, s) {
      if writer.Some? && writer.value != t {
        st.AddOrdering(writer.value, t, topo);
      }
      readers := readers + {t};
    }
  }

  /** The hazard loop for one slot, over its active tasklets in original order. */
  method OrderSlot(st: State, acc: Accesses, s: Slot, sorted: seq<Node>, ghost topo: Order)
    requires st.g.WellFormed() && st.g.Forward(topo)
    requires SortedBy(topo, sorted)
    requires forall i :: 0 <= i < |sorted| ==> sorted[i] in st.g.nodes && acc.Touches(sorted[i], s)
    modifies st
    ensures st.g.WellFormed() && st.g.Forward(topo)
    ensures OnlyAdds(old(st.g), st.g, acc, (set t | t in sorted), topo)
    ensures Ordered(st.g, acc, s, (set t | t in sorted), sorted, |sorted|)
  {
    ghost var within := set t | t in sorted;
    var currentReaders: set<Node> := {};
    var lastWriter: Option<Node> := None;
    ghost var w := -1;
    for k := 0 to |sorted|
      invariant st.g.WellFormed() && st.g.Forward(topo)
      invariant OnlyAdds(old(st.g), st.g, acc, within, topo)
      invariant Remembers(acc, s, sorted, k, w, lastWriter, currentReaders)
      invariant Ordered(st.g, acc, s, within, sorted, k)
    {
      var t := sorted[k];
      ghost var before := st.g;
      var readers, writer := OrderTasklet(st, acc, s, t, currentReaders, lastWriter, topo);
      StepOrders(before, st.g, acc, s, within, sorted, k, w, lastWriter, currentReaders);
      StepRemembers(acc, s, sorted, k, w, lastWriter, currentReaders, readers, writer);
      OnlyAddsStep(old(st.g), before, st.g, acc, within, topo, s, t);
      currentReaders, lastWriter, w := readers, writer, if acc.Writes(t, s) then k else w;
    }
  }

  lemma StepRemembers(acc: Accesses, s: Slot, sorted: seq<Node>, k: nat, w: int,
                      lastWriter: Option<Node>, currentReaders: set<Node>, readers: set<Node>, writer: Option<Node>)
    requires k < |sorted| && Remembers(acc, s, sorted, k, w, lastWriter, currentReaders)
    requires writer == if acc.Writes(sorted[k], s) then Some(sorted[k]) else lastWriter
    requires readers == (if acc.Writes(sorted[k], s) then {} else currentReaders)
                      + (if acc.Reads(sorted[k], s) then {sorted[k]} else {})
    ensures Remembers(acc, s, sorted, k + 1, if acc.Writes(sorted[k], s) then k else w, writer, readers)
  {
    var w' := if acc.Writes(sorted[k], s) then k else w;
    forall r ensures r in readers <==> exists i :: 0 <= i < k + 1 && w' <= i && sorted[i] == r && acc.Reads(r, s) {
      if r in readers {
        if r == sorted[k] && acc.Reads(r, s) {
          assert sorted[k] == r;
        } else {
          var i :| 0 <= i < k && w <= i && sorted[i] == r && acc.Reads(r, s);
        }
      }
    }
  }

  lemma OnlyAddsStep(g: Graph, g': Graph, g'': Graph, acc: Accesses, within: set<Node>, topo: Order, s: Slot, t: Node)
    requires OnlyAdds(g, g', acc, within, topo)
    requires g''.nodes == g'.nodes && g'.edges <= g''.edges && g''.Forward(topo) && t in within
    requires forall e :: e in g''.edges && e !in g'.edges ==>
               e == OrderingEdge(e.src, t) && acc.ConflictOn(s, e.src, t) && e.src in within
    ensures OnlyAdds(g, g'', acc, within, topo)
  {
  }

  // ---- all slots ----

  /** The tasklets that are still in the state and touch the slot. */
  function ActiveOn(acc: Accesses, s: Slot, nodes: set<Node>): (active: set<Node>)
    ensures forall t :: t in active <==> t in nodes && acc.Touches(t, s)
  {
    var readers := if s in acc.readers then acc.readers[s] else {};
    var writers := if s in acc.writers then acc.writers[s] else {};
    set t | t in nodes && (t in readers || t in writers)
  }

  method SortByOrder(ts: set<Node>, topo: Order) returns (sorted: seq<Node>)
    requires ts <= topo.Keys && Injective(topo)
    ensures SortedBy(topo, sorted) && ts == set t | t in sorted
  {
    sorted := [];
    var todo := ts;
    while todo != {}
      invariant todo <= ts && SortedBy(topo, sorted)
      invariant forall t :: t in sorted <==> t in ts && t !in todo
      invariant forall t, u :: t in sorted && u in todo ==> topo[t] < topo[u]
      decreases todo
    {
      EarliestExists(todo, topo);
      var t :| t in todo && forall u :: u in todo ==> topo[t] <= topo[u];
      sorted := sorted + [t];
      todo := todo - {t};
    }
  }

  lemma {:induction false} EarliestExists(ts: set<Node>, topo: Order)
    requires ts != {} && ts <= topo.Keys
    ensures exists t :: t in ts && forall u :: u in ts ==> topo[t] <= topo[u]
  {
    var x :| x in ts;
    if ts != {x} {
      EarliestExists(ts - {x}, topo);
      var y :| y in ts - {x} && forall u :: u in ts - {x} ==> topo[y] <= topo[u];
      var least := if topo[x] <= topo[y] then x else y;
      assert least in ts && forall u :: u in ts ==> topo[least] <= topo[u];
    }
  }

  /** Any two active tasklets that conflict on s are joined by a path, earlier to later, that
      stays among tracked tasklets. */
  ghost predicate SlotOrdered(g: Graph, acc: Accesses, s: Slot, topo: Order) {
    forall u, v :: && u in g.nodes && v in g.nodes && u in topo && v in topo && topo[u] < topo[v]
                   && acc.ConflictOn(s, u, v)
                   ==> Connected(g, acc.Tasks(g.nodes.Keys), u, v)
  }

  lemma OrderedCovers(g: Graph, acc: Accesses, s: Slot, sorted: seq<Node>, topo: Order)
    requires SortedBy(topo, sorted) && (set t | t in sorted) == ActiveOn(acc, s, g.nodes.Keys)
    requires Ordered(g, acc, s, (set t | t in sorted), sorted, |sorted|)
    ensures SlotOrdered(g, acc, s, topo)
  {
    var within := set t | t in sorted;
    forall u, v | && u in g.nodes && v in g.nodes && u in topo && v in topo && topo[u] < topo[v]
                  && acc.ConflictOn(s, u, v)
      ensures Connected(g, acc.Tasks(g.nodes.Keys), u, v)
    {
      assert u in within && v in within;
      var i :| 0 <= i < |sorted| && sorted[i] == u;
      var j :| 0 <= j < |sorted| && sorted[j] == v;
      assert i < j;
      ActiveIsTracked(acc, s, g.nodes.Keys);
      ConnectedGrows(g, within, g, acc.Tasks(g.nodes.Keys), u, v);
    }
  }

  lemma ActiveIsTracked(acc: Accesses, s: Slot, nodes: set<Node>)
    ensures ActiveOn(acc, s, nodes) <= acc.Tasks(nodes)
  {
  }

  lemma AtLeastTwo(ts: set<Node>, u: Node, v: Node)
    requires u in ts && v in ts && u != v
    ensures |ts| >= 2
  {
    assert |ts - {u} - {v}| == |ts| - 2;
  }

  lemma FewerThanTwo(g: Graph, acc: Accesses, s: Slot, topo: Order)
    requires |ActiveOn(acc, s, g.nodes.Keys)| < 2
    ensures SlotOrdered(g, acc, s, topo)
  {
    var active := ActiveOn(acc, s, g.nodes.Keys);
    forall u, v | u in active && v in active ensures u == v {
      if u != v {
        AtLeastTwo(active, u, v);
      }
    }
  }

  /** Dependency reconstruction: afterwards every conflict on every slot is ordered. */
  method Reconstruct(st: State, acc: Accesses, topo: Order)
    requires st.g.WellFormed() && st.g.Forward(topo) && Injective(topo)
    modifies st
    ensures st.g.WellFormed() && st.g.Forward(topo)
    ensures OnlyAdds(old(st.g), st.g, acc, acc.Tasks(st.g.nodes.Keys), topo)
    ensures forall s :: SlotOrdered(st.g, acc, s, topo)
  {
    var slots := acc.readers.Keys + acc.writers.Keys;
    var todo := slots;
    while todo != {}
      invariant todo <= slots
      invariant st.g.WellFormed() && st.g.Forward(topo)
      invariant OnlyAdds(old(st.g), st.g, acc, acc.Tasks(st.g.nodes.Keys), topo)
      invariant forall s :: s in slots && s !in todo ==> SlotOrdered(st.g, acc, s, topo)
      decreases todo
    {
      var s :| s in todo;
      todo := todo - {s};
      ghost var before := st.g;
      var active := ActiveOn(acc, s, st.g.nodes.Keys);
      if |active| < 2 {
        FewerThanTwo(st.g, acc, s, topo);
      } else {
        var sorted := SortByOrder(active, topo);
        OrderSlot(st, acc, s, sorted, topo);
        OrderedCovers(st.g, acc, s, sorted, topo);
        ActiveIsTracked(acc, s, before.nodes.Keys);
        forall s' | s' in slots && s' !in todo && s' != s ensures SlotOrdered(st.g, acc, s', topo) {
          SlotStaysOrdered(before, st.g, acc, s', topo);
        }
      }
    }
    forall s | s !in slots ensures SlotOrdered(st.g, acc, s, topo) {
      assert forall u, v :: !acc.ConflictOn(s, u, v);
    }
  }

  lemma SlotStaysOrdered(g: Graph, g': Graph, acc: Accesses, s: Slot, topo: Order)
    requires SlotOrdered(g, acc, s, topo) && g'.nodes == g.nodes && g.edges <= g'.edges
    ensures SlotOrdered(g', acc, s, topo)
  {
    var tasks := acc.Tasks(g.nodes.Keys);
    forall u, v | && u in g.nodes && v in g.nodes && u in topo && v in topo && topo[u] < topo[v]
                  && acc.ConflictOn(s, u, v)
      ensures Connected(g', tasks, u, v)
    {
      ConnectedGrows(g, tasks, g', tasks, u, v);
    }
  }

  // ---- what the ordering edges are for ----

  /** An order of the given nodes that respects every edge between them. */
  ghost predicate Respects(g: Graph, within: set<Node>, order: seq<Node>) {
    && NoDuplicates(order)
    && (forall t :: t in order <==> t in within)
    && (forall i, j :: 0 <= i < j < |order| ==> !g.HasEdge(order[j], order[i]))
  }

  /** An execution order of all tracked tasklets that respects every edge between them. */
  ghost predicate IsSchedule(g: Graph, acc: Accesses, order: seq<Node>) {
    Respects(g, acc.Tasks(g.nodes.Keys), order)
  }

  lemma {:induction false} PathFollowsSchedule(g: Graph, within: set<Node>, order: seq<Node>, u: Node, v: Node, p: seq<Node>)
    requires Respects(g, within, order) && (forall n :: n in within ==> !g.HasEdge(n, n))
    requires IsPath(g, within, u, v, p)
    ensures Before(order, u, v)
    decreases |p|
  {
    var w := p[1];
    assert u in order && w in order && g.HasEdge(u, w);
    var i :| 0 <= i < |order| && order[i] == u;
    var j :| 0 <= j < |order| && order[j] == w;
    assert i < j;
    if |p| > 2 {
      var q := p[1..];
      forall k | 0 <= k < |q| - 1 ensures g.HasEdge(q[k], q[k + 1]) {
        assert q[k] == p[k + 1] && q[k + 1] == p[k + 2];
      }
      PathFollowsSchedule(g, within, order, w, v, q);
      var k, l :| 0 <= k < l < |order| && order[k] == w && order[l] == v;
      assert k == j;
    }
  }

  /** Which node comes before which, on the way of some paths. */
  type Precedence = iset<(Node, Node)>

  ghost function Paths(g: Graph, within: set<Node>): Precedence {
    iset p: (Node, Node) | Connected(g, within, p.0, p.1)
  }

  /** Of every two of the given nodes that conflict, the earlier one precedes the later one. */
  ghost predicate ConflictsOrdered(before: Precedence, within: set<Node>, acc: Accesses, topo: Order)
    requires within <= topo.Keys
  {
    forall u, v :: u in within && v in within && topo[u] < topo[v] && acc.Conflict(u, v) ==> (u, v) in before
  }

  /** The given nodes in the captured order. */
  ghost predicate IsOriginal(within: set<Node>, topo: Order, original: seq<Node>) {
    SortedBy(topo, original) && forall t :: t in original <==> t in within
  }

  /** If all conflicts are ordered, every order that respects the edges gives every tasklet the values
      it reads, and every slot the final value, that the captured order gives. */
  lemma OrderedConflictsAgree(g: Graph, within: set<Node>, acc: Accesses, topo: Order,
                              original: seq<Node>, order: seq<Node>, prog: Behaviour, m: Machine)
    requires g.Forward(topo) && within <= topo.Keys && ConflictsOrdered(Paths(g, within), within, acc, topo)
    requires IsOriginal(within, topo, original) && Respects(g, within, order)
    ensures Run(acc, prog, order, m) == Run(acc, prog, original, m)
  {
    forall i, j | 0 <= i < j < |original| && acc.Conflict(original[i], original[j])
      ensures Before(order, original[i], original[j])
    {
      var u, v := original[i], original[j];
      assert u in original && v in original;
      assert (u, v) in Paths(g, within);
      var p :| IsPath(g, within, u, v, p);
      forall n | n in within ensures !g.HasEdge(n, n) {}
      PathFollowsSchedule(g, within, order, u, v, p);
    }
    ConflictOrderDecides(acc, prog, original, order, m);
  }

  /** Any schedule of the reconstructed state gives every tracked tasklet the values it reads, and every
      slot the final value, that the original topological order gives. */
  lemma ScheduleIndependence(g: Graph, acc: Accesses, topo: Order, original: seq<Node>, order: seq<Node>,
                             prog: Behaviour, m: Machine)
    requires g.Forward(topo) && (forall s :: SlotOrdered(g, acc, s, topo))
    requires IsOriginal(acc.Tasks(g.nodes.Keys), topo, original)
    requires IsSchedule(g, acc, order)
    ensures Run(acc, prog, order, m) == Run(acc, prog, original, m)
  {
    var within := acc.Tasks(g.nodes.Keys);
    forall u, v | u in within && v in within && topo[u] < topo[v] && acc.Conflict(u, v)
      ensures Connected(g, within, u, v)
    {
      var s :| acc.ConflictOn(s, u, v);
      assert SlotOrdered(g, acc, s, topo);
    }
    OrderedConflictsAgree(g, within, acc, topo, original, order, prog, m);
  }

  /** The original order respects all edges, so reconstruction never makes scheduling impossible. */
  lemma {:induction false} OriginalIsSchedule(g: Graph, within: set<Node>, topo: Order, original: seq<Node>)
    requires g.Forward(topo) && IsOriginal(within, topo, original)
    ensures Respects(g, within, original)
  {
    forall i, j | 0 <= i < j < |original| ensures !g.HasEdge(original[j], original[i]) {
      assert topo[original[i]] < topo[original[j]];
    }
  }
}
