/**
 A single match: which new conflicts it brings, and what has to hold before it so that all
 schedules of the cleaned state agree.
 */
module OneMatch {
  import opened Basics
  import opened StateGraph
  import opened Rewrites
  import opened Scheduling
  import opened Hazards
  import opened Cleaning
  import opened CleaningPass
  import opened Necessity
  import opened PlainWrites
  import opened PlainNecessity
  import opened Connectivity
  import opened MemletUse

  /** Patterns 2 and 3: tasklets that read the copy come to read the original. */
  predicate MovesReaders(r: Rewrite) {
    r.EntryScalar? || r.CopyToTransient?
  }

  /** Patterns 1 and 5: the producer takes over what the assign tasklet writes. */
  predicate TakesOver(r: Rewrite) {
    r.ThroughAssignToExit? || r.AssignWrite?
  }

  function AssignNode(r: Rewrite): Node
    requires TakesOver(r)
  {
    if r.AssignWrite? then r.oe.dst else r.ie1.dst
  }

  /** The slot that the re-attached memlets name. */
  function NewSlot(g: Graph, arrays: string -> Descriptor, r: Rewrite): Slot
    requires Applicable(g, arrays, r)
  {
    match r
    case ThroughAssignToExit(_, _, ie2, _) => SlotOf(ie2.memlet)
    case EntryScalar(oe1) => SlotOf(oe1.memlet)
    case CopyToTransient(ie) => Slot(g.nodes[ie.src].data, Starts(ie.memlet.subset))
    case ScalarWrite(_, oe) => SlotOf(oe.memlet)
    case AssignWrite(_, _, oe2) => SlotOf(oe2.memlet)
  }

  ghost predicate EitherWay(g: Graph, u: Node, v: Node) {
    Connected(g, g.nodes.Keys, u, v) || Connected(g, g.nodes.Keys, v, u)
  }

  /** Before the match. Patterns 2 and 3: every writer of the slot is joined by a path with every tasklet
      that reads the copy. Pattern 4: every other tasklet on the slot is joined with the producer.
      Patterns 1 and 5 need nothing: the producer stands where the assign tasklet stood. */
  ghost predicate Guard(g: Graph, arrays: string -> Descriptor, r: Rewrite)
    requires Applicable(g, arrays, r)
  {
    var before, slot := MemletAccesses(g), NewSlot(g, arrays, r);
    if MovesReaders(r) then
      forall w, t :: before.Writes(w, slot) && t in NewReaders(g, r) && w != t ==> EitherWay(g, w, t)
    else if r.ScalarWrite? then
      forall u :: before.Touches(u, slot) && u != r.ie.src ==> EitherWay(g, u, r.ie.src)
    else true
  }

  // ---- accesses before and after ----

  lemma NewMemletIs(g: Graph, arrays: string -> Descriptor, r: Rewrite, o: Edge)
    requires Applicable(g, arrays, r) && o in Lasts(g, r)
    ensures Reattach(g, r, o).memlet.Move? && SlotOf(Reattach(g, r, o).memlet) == NewSlot(g, arrays, r)
    ensures Reattach(g, r, o) in Apply(g, arrays, r).edges && o in g.edges
    ensures g.IsTasklet(o.dst) ==> MovesReaders(r) && o.dst in NewReaders(g, r)
  {
    match r
    case ThroughAssignToExit(_, _, _, _) =>
    case EntryScalar(_) => assert o in g.OutEdges(Via(r));
    case CopyToTransient(ie) =>
      assert o in g.OutEdges(Via(r));
      assert Starts(Points(Starts(ie.memlet.subset))) == Starts(ie.memlet.subset);
    case ScalarWrite(_, _) => assert r.oe in g.OutEdges(r.ie.dst);
    case AssignWrite(_, _, _) => assert r.oe in g.OutEdges(r.ie.dst) && r.oe2 in g.OutEdges(r.oe.dst);
  }

  lemma TaskletStays(g: Graph, arrays: string -> Descriptor, r: Rewrite, t: Node)
    requires Applicable(g, arrays, r)
    ensures Apply(g, arrays, r).IsTasklet(t) ==> g.IsTasklet(t)
  {
  }

  /** An edge that is new comes from the source of the chain and names the new slot. */
  lemma NewEdge(g: Graph, arrays: string -> Descriptor, r: Rewrite, e: Edge)
    requires Applicable(g, arrays, r) && e in Apply(g, arrays, r).edges && e !in g.edges
    ensures e.src == First(r).src && e.memlet.Move? && SlotOf(e.memlet) == NewSlot(g, arrays, r)
    ensures g.IsTasklet(e.dst) ==> MovesReaders(r) && e.dst in NewReaders(g, r)
    ensures g.IsTasklet(e.src) ==> !MovesReaders(r)
  {
    var o :| o in Lasts(g, r) && e == Reattach(g, r, o);
    NewMemletIs(g, arrays, r, o);
  }

  /** New reads are those of the copy's readers, on the new slot. */
  lemma ReadsAfter(g: Graph, arrays: string -> Descriptor, r: Rewrite, t: Node, s: Slot)
    requires Applicable(g, arrays, r) && MemletAccesses(Apply(g, arrays, r)).Reads(t, s)
    ensures MemletAccesses(g).Reads(t, s) || (s == NewSlot(g, arrays, r) && MovesReaders(r) && t in NewReaders(g, r))
  {
    hide Applicable, Apply, MemletAccesses, NewSlot;
    var g' := Apply(g, arrays, r);
    MemletReads(g', t, s);
    MemletReads(g, t, s);
    TaskletStays(g, arrays, r, t);
    var e :| e in g'.edges && e.memlet.Move? && e.dst == t && SlotOf(e.memlet) == s;
    if e !in g.edges {
      NewEdge(g, arrays, r, e);
    }
  }

  /** New writes are those of the producer, on the new slot. */
  lemma WritesAfter(g: Graph, arrays: string -> Descriptor, r: Rewrite, t: Node, s: Slot)
    requires Applicable(g, arrays, r) && MemletAccesses(Apply(g, arrays, r)).Writes(t, s)
    ensures MemletAccesses(g).Writes(t, s) || (s == NewSlot(g, arrays, r) && !MovesReaders(r) && t == First(r).src)
  {
    hide Applicable, Apply, MemletAccesses, NewSlot;
    var g' := Apply(g, arrays, r);
    MemletReads(g', t, s);
    MemletReads(g, t, s);
    TaskletStays(g, arrays, r, t);
    var e :| e in g'.edges && e.memlet.Move? && e.src == t && SlotOf(e.memlet) == s;
    if e !in g.edges {
      NewEdge(g, arrays, r, e);
    }
  }

  /** Edges into and out of tasklets stay when they are not part of the chain. */
  lemma AccessStays(g: Graph, arrays: string -> Descriptor, r: Rewrite, topo: Order, e: Edge)
    requires Applicable(g, arrays, r) && g.WellFormed() && g.Forward(topo)
    requires e in g.edges && e != First(r) && e !in Middle(r) && e !in Lasts(g, r)
    ensures e in Apply(g, arrays, r).edges
    ensures g.IsTasklet(e.src) ==> Apply(g, arrays, r).IsTasklet(e.src)
    ensures g.IsTasklet(e.dst) ==> Apply(g, arrays, r).IsTasklet(e.dst)
  {
    EndsStay(g, arrays, r, topo, e);
  }

  /** Patterns 2 and 3: writers keep writing, and the copy's readers read the new slot. */
  lemma ReadersMoved(g: Graph, arrays: string -> Descriptor, r: Rewrite, topo: Order, w: Node, t: Node)
    requires Applicable(g, arrays, r) && g.WellFormed() && g.Forward(topo) && MovesReaders(r)
    requires MemletAccesses(g).Writes(w, NewSlot(g, arrays, r)) && t in NewReaders(g, r)
    ensures w in Apply(g, arrays, r).nodes && t in Apply(g, arrays, r).nodes
    ensures MemletAccesses(Apply(g, arrays, r)).Writes(w, NewSlot(g, arrays, r))
    ensures MemletAccesses(Apply(g, arrays, r)).Reads(t, NewSlot(g, arrays, r))
  {
    var g', s := Apply(g, arrays, r), NewSlot(g, arrays, r);
    MemletReads(g, w, s);
    MemletReads(g', w, s);
    MemletReads(g', t, s);
    var e :| e in g.edges && e.memlet.Move? && e.src == w && SlotOf(e.memlet) == s;
    AccessStays(g, arrays, r, topo, e);
    var o :| o in g.OutEdges(Via(r)) && g.IsTasklet(o.dst) && o.dst == t;
    NewMemletIs(g, arrays, r, o);
    EndsStay(g, arrays, r, topo, Reattach(g, r, o));
  }

  /** Pattern 4: the other tasklets keep their accesses, and the producer writes the new slot. */
  lemma ProducerWrites(g: Graph, arrays: string -> Descriptor, r: Rewrite, topo: Order, u: Node)
    requires Applicable(g, arrays, r) && g.WellFormed() && g.Forward(topo) && r.ScalarWrite?
    requires MemletAccesses(g).Touches(u, NewSlot(g, arrays, r)) && u != r.ie.src
    ensures u in Apply(g, arrays, r).nodes && r.ie.src in Apply(g, arrays, r).nodes
    ensures MemletAccesses(Apply(g, arrays, r)).Touches(u, NewSlot(g, arrays, r))
    ensures MemletAccesses(Apply(g, arrays, r)).Writes(r.ie.src, NewSlot(g, arrays, r))
  {
    var g', s, t := Apply(g, arrays, r), NewSlot(g, arrays, r), r.ie.src;
    MemletReads(g, u, s);
    MemletReads(g', u, s);
    MemletReads(g', t, s);
    assert r.oe in g.OutEdges(r.ie.dst);
    var e :| e in g.edges && e.memlet.Move? && (e.src == u || e.dst == u) && SlotOf(e.memlet) == s
             && (if MemletAccesses(g).Reads(u, s) then e.dst == u else e.src == u);
    AccessStays(g, arrays, r, topo, e);
    NewMemletIs(g, arrays, r, r.oe);
    EndsStay(g, arrays, r, topo, Reattach(g, r, r.oe));
  }

  lemma ReaderStays(g: Graph, arrays: string -> Descriptor, r: Rewrite, topo: Order, u: Node)
    requires Applicable(g, arrays, r) && g.WellFormed() && g.Forward(topo) && r.ScalarWrite?
    requires MemletAccesses(g).Reads(u, NewSlot(g, arrays, r))
    ensures MemletAccesses(Apply(g, arrays, r)).Reads(u, NewSlot(g, arrays, r))
  {
    var g', s := Apply(g, arrays, r), NewSlot(g, arrays, r);
    MemletReads(g, u, s);
    MemletReads(g', u, s);
    assert r.oe in g.OutEdges(r.ie.dst);
    var e :| e in g.edges && e.memlet.Move? && e.dst == u && SlotOf(e.memlet) == s;
    AccessStays(g, arrays, r, topo, e);
  }

  // ---- new conflicts are joined ----

  /** A tasklet that is joined with the assign tasklet is joined with its producer. */
  lemma JoinedWithProducer(g: Graph, arrays: string -> Descriptor, r: Rewrite, topo: Order, x: Node)
    requires Applicable(g, arrays, r) && g.WellFormed() && g.Forward(topo) && TakesOver(r)
    requires EitherWay(g, x, AssignNode(r)) && x != First(r).src && x !in Chain(r)
    ensures EitherWay(g, x, First(r).src)
  {
    var within, n := g.nodes.Keys, AssignNode(r);
    var o: Edge := if r.AssignWrite? then r.oe2 else r.ie2;
    var mid: Edge := if r.AssignWrite? then r.oe else r.ie1;
    assert mid in g.edges by {
      assert r.AssignWrite? ==> r.oe in g.OutEdges(r.ie.dst);
    }
    if Connected(g, within, n, x) {
      assert g.HasEdge(First(r).src, Via(r)) && g.HasEdge(Via(r), n);
      EdgeConnects(g, within, First(r).src, Via(r));
      EdgeExtends(g, within, First(r).src, Via(r), n);
      ConnectedTrans(g, within, First(r).src, n, x);
    } else {
      var p :| IsPath(g, within, x, n, p);
      var k := |p| - 1;
      assert g.HasEdge(p[k - 1], p[k - 1 + 1]);
      OnlyEntry(g, mid, p[k - 1]);
      assert g.HasEdge(p[k - 2], p[k - 2 + 1]);
      OnlyEntry(g, First(r), p[k - 2]);
      var q := p[..k - 1];
      assert IsPath(g, within, x, First(r).src, q) by {
        forall i | 0 <= i < |q| - 1 ensures g.HasEdge(q[i], q[i + 1]) {
          assert q[i] == p[i] && q[i + 1] == p[i + 1];
        }
      }
    }
  }

  lemma OnlyEntry(g: Graph, e: Edge, x: Node)
    requires g.InEdges(e.dst) == {e} && g.HasEdge(x, e.dst)
    ensures x == e.src
  {
    var f :| f in g.edges && f.src == x && f.dst == e.dst;
    assert f in g.InEdges(e.dst);
  }

  lemma OldConflictJoined(g: Graph, topo: Order, s: Slot, u: Node, v: Node)
    requires g.Forward(topo) && Injective(topo)
    requires ConflictsOrdered(Paths(g, g.nodes.Keys), g.nodes.Keys, MemletAccesses(g), topo)
    requires u in g.nodes && v in g.nodes && u != v && MemletAccesses(g).ConflictOn(s, u, v)
    ensures EitherWay(g, u, v)
  {
    var acc := MemletAccesses(g);
    assert acc.ConflictOn(s, v, u);
    assert acc.Conflict(u, v) && acc.Conflict(v, u);
    if topo[u] < topo[v] {
      assert (u, v) in Paths(g, g.nodes.Keys);
    } else {
      assert (v, u) in Paths(g, g.nodes.Keys);
    }
  }

  /** The producer takes the assign tasklet's place: whoever touches the slot is joined with it. */
  lemma JoinedByTakeover(g: Graph, arrays: string -> Descriptor, r: Rewrite, topo: Order, x: Node)
    requires Applicable(g, arrays, r) && g.WellFormed() && g.Forward(topo) && Injective(topo) && TakesOver(r)
    requires ConflictsOrdered(Paths(g, g.nodes.Keys), g.nodes.Keys, MemletAccesses(g), topo)
    requires MemletAccesses(g).Touches(x, NewSlot(g, arrays, r)) && x != First(r).src && x !in Chain(r)
    ensures EitherWay(g, x, First(r).src)
  {
    var n, s := AssignNode(r), NewSlot(g, arrays, r);
    var o: Edge := if r.AssignWrite? then r.oe2 else r.ie2;
    assert o in g.edges && o.src == n by {
      assert r.AssignWrite? ==> r.oe in g.OutEdges(r.ie.dst) && r.oe2 in g.OutEdges(r.oe.dst);
    }
    MemletReads(g, n, s);
    MemletReads(g, x, s);
    OldConflictJoined(g, topo, s, x, n);
    JoinedWithProducer(g, arrays, r, topo, x);
  }

  lemma ConflictJoined(g: Graph, arrays: string -> Descriptor, r: Rewrite, topo: Order, s: Slot, w: Node, x: Node)
    requires Applicable(g, arrays, r) && g.WellFormed() && g.Forward(topo) && Injective(topo) && Guard(g, arrays, r)
    requires ConflictsOrdered(Paths(g, g.nodes.Keys), g.nodes.Keys, MemletAccesses(g), topo)
    requires w in g.nodes && x in g.nodes && w !in Chain(r) && x !in Chain(r) && w != x
    requires MemletAccesses(Apply(g, arrays, r)).Writes(w, s) && MemletAccesses(Apply(g, arrays, r)).Touches(x, s)
    ensures EitherWay(g, w, x)
  {
    hide Applicable, Apply, Chain, MemletAccesses, ConflictsOrdered;
    var before, after := MemletAccesses(g), MemletAccesses(Apply(g, arrays, r));
    WritesAfter(g, arrays, r, w, s);
    if after.Reads(x, s) {
      ReadsAfter(g, arrays, r, x, s);
    }
    if after.Writes(x, s) {
      WritesAfter(g, arrays, r, x, s);
    }
    if before.Writes(w, s) && before.Touches(x, s) {
      OldConflictJoined(g, topo, s, w, x);
    } else if !MovesReaders(r) {
      var other := if before.Writes(w, s) then w else x;
      assert before.Touches(other, s) && s == NewSlot(g, arrays, r) && other != First(r).src;
      if TakesOver(r) {
        JoinedByTakeover(g, arrays, r, topo, other);
      } else {
        assert First(r).src == r.ie.src;
        assert EitherWay(g, other, r.ie.src);
      }
    }
  }

  // ---- exactly when ----

  /** One match records no conflict, so nothing is added. */
  lemma NothingAdded(g: Graph, arrays: string -> Descriptor, g': Graph, log: map<string, Slot>, log': map<string, Slot>,
                     topo: Order, r: Rewrite, rewritten: Graph)
    requires CleanedBy(g, arrays, Fine, g', log, log', topo, [r], rewritten)
    ensures Applicable(g, arrays, r) && g' == rewritten == Apply(g, arrays, r)
  {
    var tracked := Tracked(g, arrays, [r], log);
    RunOfOne(g, arrays, r, rewritten);
    OneRecord(g, arrays, r, log);
    hide Applicable, Apply, Tracked;
    AddsNothing(rewritten, g', tracked, topo);
  }

  lemma RunOfOne(g: Graph, arrays: string -> Descriptor, r: Rewrite, g': Graph)
    requires IsRun(g, arrays, [r], g')
    ensures Applicable(g, arrays, r) && g' == Apply(g, arrays, r)
  {
    assert [r][1..] == [];
  }

  lemma AddsNothing(g: Graph, g': Graph, tracked: Accesses, topo: Order)
    requires OnlyAdds(g, g', tracked, tracked.Tasks(g'.nodes.Keys), topo)
    requires forall u, v :: tracked.Conflict(u, v) ==> u == v
    ensures g' == g
  {
    forall e | e in g'.edges ensures e in g.edges {
    }
    assert g'.edges == g.edges;
  }

  lemma OneRecord(g: Graph, arrays: string -> Descriptor, r: Rewrite, log: map<string, Slot>)
    requires Applicable(g, arrays, r)
    ensures forall u, v :: Tracked(g, arrays, [r], log).Conflict(u, v) ==> u == v
  {
    var before := Records(map[], map[], log);
    assert [r][1..] == [];
    assert RecordedAll(g, arrays, [r], before) == Recorded(g, arrays, r, before);
    hide Applicable;
    var tracked := Tracked(g, arrays, [r], log);
    assert MovesReaders(r) ==> tracked.writers == map[];
    assert !MovesReaders(r) ==> tracked.readers == map[];
    forall u, v | tracked.Conflict(u, v) ensures u == v {
      var s :| tracked.ConflictOn(s, u, v);
      assert tracked.Writes(u, s) && tracked.Writes(v, s);
    }
  }

  /** And a single match does clean the state, in this sense. */
  lemma OneMatchCleans(g: Graph, arrays: string -> Descriptor, r: Rewrite, topo: Order, log: map<string, Slot>)
    requires Applicable(g, arrays, r) && g.WellFormed() && g.Forward(topo) && Injective(topo)
    ensures exists log' :: CleanedBy(g, arrays, Fine, Apply(g, arrays, r), log, log', topo, [r], Apply(g, arrays, r))
  {
    var g', tracked := Apply(g, arrays, r), Tracked(g, arrays, [r], log);
    var log' := RecordedAll(g, arrays, [r], Records(map[], map[], log)).replacements;
    assert [r][1..] == [];
    assert IsRun(g, arrays, [r], g');
    ApplyKeepsForward(g, arrays, r, topo);
    ApplyKeepsWellFormed(g, arrays, r, topo);
    OneRecord(g, arrays, r, log);
    hide Applicable, Apply, RecordedAll;
    forall s ensures SlotOrdered(g', tracked, s, topo) {
      OwnConflictsOnly(g', tracked, s, topo);
    }
    assert CleanedBy(g, arrays, Fine, g', log, log', topo, [r], g');
  }

  lemma OwnConflictsOnly(g: Graph, tracked: Accesses, s: Slot, topo: Order)
    requires forall u, v :: tracked.Conflict(u, v) ==> u == v
    ensures SlotOrdered(g, tracked, s, topo)
  {
    forall u, v | tracked.ConflictOn(s, u, v) ensures u == v {
      assert tracked.Conflict(u, v);
    }
  }

  /** If the tasklets of a state are ordered and one match is made, all schedules of the cleaned state
      agree exactly when the guard held before. For patterns 2 and 3 that goes for tasklets that
      overwrite without looking as well. */
  lemma OneMatchIff(g: Graph, arrays: string -> Descriptor, r: Rewrite, g': Graph,
                    log: map<string, Slot>, log': map<string, Slot>, topo: Order, rewritten: Graph, original: seq<Node>)
    requires CleanedBy(g, arrays, Fine, g', log, log', topo, [r], rewritten) && g.WellFormed() && NoOtherUse(g, r)
    requires ConflictsOrdered(Paths(g, g.nodes.Keys), g.nodes.Keys, MemletAccesses(g), topo)
    requires IsOriginal(g'.nodes.Keys, topo, original)
    ensures Applicable(g, arrays, r)
    ensures SchedulesAgree(g', g'.nodes.Keys, MemletAccesses(g'), original) <==> Guard(g, arrays, r)
    ensures MovesReaders(r) ==>
              (PlainSchedulesAgree(g', g'.nodes.Keys, MemletAccesses(g'), original) <==> Guard(g, arrays, r))
  {
    hide Applicable, Apply, Guard, SchedulesAgree, PlainSchedulesAgree, NoOtherUse, MemletAccesses;
    NothingAdded(g, arrays, g', log, log', topo, r, rewritten);
    var within, acc := g'.nodes.Keys, MemletAccesses(g');
    SchedulesAgreeIff(g', within, acc, topo, original);
    PlainSchedulesAgreeIff(g', within, acc, topo, original);
    if Guard(g, arrays, r) {
      GuardSuffices(g, arrays, r, topo);
      PlainToo(g', within, acc, original);
    } else {
      GuardNecessary(g, arrays, r, topo);
    }
  }

  lemma PlainToo(g: Graph, within: set<Node>, acc: Accesses, original: seq<Node>)
    requires SchedulesAgree(g, within, acc, original)
    ensures PlainSchedulesAgree(g, within, acc, original)
  {
  }

  lemma GuardSuffices(g: Graph, arrays: string -> Descriptor, r: Rewrite, topo: Order)
    requires Applicable(g, arrays, r) && g.WellFormed() && g.Forward(topo) && Injective(topo)
    requires NoOtherUse(g, r) && Guard(g, arrays, r)
    requires ConflictsOrdered(Paths(g, g.nodes.Keys), g.nodes.Keys, MemletAccesses(g), topo)
    ensures var g' := Apply(g, arrays, r);
            g'.nodes.Keys <= topo.Keys && ConflictsOrdered(Paths(g', g'.nodes.Keys), g'.nodes.Keys, MemletAccesses(g'), topo)
  {
    var g' := Apply(g, arrays, r);
    var within, acc := g'.nodes.Keys, MemletAccesses(g');
    NodesStay(g, arrays, r);
    PathsKeptIff(g, arrays, r, topo);
    ChainIsGone(g, arrays, r, topo);
    hide Applicable, Apply, Guard, NoOtherUse, MemletAccesses, Chain;
    forall u, v | u in within && v in within && topo[u] < topo[v] && acc.Conflict(u, v) ensures Connected(g', within, u, v) {
      var s :| acc.ConflictOn(s, u, v);
      if acc.Writes(u, s) {
        ConflictJoined(g, arrays, r, topo, s, u, v);
      } else {
        ConflictJoined(g, arrays, r, topo, s, v, u);
      }
      if Connected(g, g.nodes.Keys, v, u) {
        ConnectedForward(g, g.nodes.Keys, topo, v, u);
      }
    }
  }

  lemma NodesStay(g: Graph, arrays: string -> Descriptor, r: Rewrite)
    requires Applicable(g, arrays, r)
    ensures Apply(g, arrays, r).nodes.Keys <= g.nodes.Keys
  {
  }

  lemma GuardNecessary(g: Graph, arrays: string -> Descriptor, r: Rewrite, topo: Order)
    requires Applicable(g, arrays, r) && g.WellFormed() && g.Forward(topo) && Injective(topo) && !Guard(g, arrays, r)
    ensures var g' := Apply(g, arrays, r);
            var within, acc := g'.nodes.Keys, MemletAccesses(g');
            && within <= topo.Keys && !ConflictsOrdered(Paths(g', within), within, acc, topo)
            && (MovesReaders(r) ==> !SourcesOrdered(Paths(g', within), within, acc))
  {
    var g', before, slot := Apply(g, arrays, r), MemletAccesses(g), NewSlot(g, arrays, r);
    NodesStay(g, arrays, r);
    PathsKeptIff(g, arrays, r, topo);
    hide Applicable, Apply, MemletAccesses, ConflictsOrdered, SourcesOrdered;
    if MovesReaders(r) {
      var w, t :| before.Writes(w, slot) && t in NewReaders(g, r) && w != t && !EitherWay(g, w, t);
      ReadersMoved(g, arrays, r, topo, w, t);
      Unjoined(g, g', topo, slot, w, t);
    } else {
      var u :| before.Touches(u, slot) && u != r.ie.src && !EitherWay(g, u, r.ie.src);
      ProducerWrites(g, arrays, r, topo, u);
      Unjoined(g, g', topo, slot, r.ie.src, u);
    }
  }

  lemma Unjoined(g: Graph, g': Graph, topo: Order, s: Slot, w: Node, x: Node)
    requires g'.nodes.Keys <= g.nodes.Keys <= topo.Keys && Injective(topo)
    requires forall u, v :: Connected(g', g'.nodes.Keys, u, v) ==> Connected(g, g.nodes.Keys, u, v)
    requires w in g'.nodes && x in g'.nodes && w != x && !EitherWay(g, w, x)
    requires MemletAccesses(g').Writes(w, s) && MemletAccesses(g').Touches(x, s)
    ensures !ConflictsOrdered(Paths(g', g'.nodes.Keys), g'.nodes.Keys, MemletAccesses(g'), topo)
    ensures MemletAccesses(g').Reads(x, s) ==> !SourcesOrdered(Paths(g', g'.nodes.Keys), g'.nodes.Keys, MemletAccesses(g'))
  {
    hide MemletAccesses, Connected;
    var within, acc := g'.nodes.Keys, MemletAccesses(g');
    assert acc.ConflictOn(s, w, x) && acc.ConflictOn(s, x, w);
    assert acc.Conflict(w, x) && acc.Conflict(x, w);
    assert (w, x) !in Paths(g', within) && (x, w) !in Paths(g', within);
    assert topo[w] < topo[x] || topo[x] < topo[w];
  }
}
