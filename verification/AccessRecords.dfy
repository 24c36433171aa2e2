/**
 That the scans record every access a contraction brings about, so that tasklets that come into
 conflict by contractions are ordered after cleaning.
 */
module AccessRecords {
  import opened Basics
  import opened StateGraph
  import opened Rewrites
  import opened Scheduling
  import opened Hazards
  import opened Cleaning
  import opened CleaningPass
  import opened MemletUse
  import opened OneMatch
  import ExitRecords
  import WholeState
  import OpaqueBypasses
  import MissedHazard

  function AccessesIn(rec: Records): Accesses {
    Accesses(rec.readers, rec.writers)
  }

  /** The edge carries data on slot s that the state did not have before. */
  predicate IsNewOn(g: Graph, g': Graph, e: Edge, s: Slot) {
    e in g'.edges && e !in g.edges && e.memlet.Move? && SlotOf(e.memlet) == s
  }

  // ---- one contraction ----

  /** A re-attached edge is new: it has another source than the edge whose identity it takes over. */
  lemma ReattachedIsNew(g: Graph, arrays: string -> Descriptor, r: Rewrite, topo: Order, o: Edge)
    requires Applicable(g, arrays, r) && g.WellFormed() && g.Forward(topo) && o in Lasts(g, r)
    ensures IsNewOn(g, Apply(g, arrays, r), Reattach(g, r, o), NewSlot(g, arrays, r))
  {
    var e := Reattach(g, r, o);
    NewMemletIs(g, arrays, r, o);
    ChainGoesForward(g, arrays, r, topo, o);
    assert r.AssignWrite? ==> r.oe in g.OutEdges(r.ie.dst) && r.oe2 in g.OutEdges(r.oe.dst);
    assert topo[First(r).src] < topo[Via(r)] <= topo[o.src];
  }

  lemma TargetIsNewSlot(g: Graph, arrays: string -> Descriptor, r: Rewrite)
    requires Applicable(g, arrays, r) && !r.ThroughAssignToExit?
    ensures TargetOf(g, arrays, r) == Target(NewSlot(g, arrays, r))
  {
  }

  lemma TrackAdds(tracked: map<Slot, set<Node>>, slot: Slot, ts: set<Node>, t: Node, s: Slot)
    ensures var after := Track(tracked, slot, ts);
            (s in after && t in after[s]) <==> (s in tracked && t in tracked[s]) || (s == slot && t in ts)
  {
  }

  lemma NewReadersAre(g: Graph, arrays: string -> Descriptor, r: Rewrite, topo: Order, t: Node)
    requires Applicable(g, arrays, r) && g.WellFormed() && g.Forward(topo) && !r.ThroughAssignToExit?
    ensures t in NewReaders(g, r) <==>
            g.IsTasklet(t) && exists e :: IsNewOn(g, Apply(g, arrays, r), e, NewSlot(g, arrays, r)) && e.dst == t
  {
    if t in NewReaders(g, r) {
      var o :| o in g.OutEdges(Via(r)) && g.IsTasklet(o.dst) && o.dst == t;
      ReattachedIsNew(g, arrays, r, topo, o);
    }
    if e :| IsNewOn(g, Apply(g, arrays, r), e, NewSlot(g, arrays, r)) && e.dst == t && g.IsTasklet(t) {
      NewEdge(g, arrays, r, e);
    }
  }

  lemma NewWritersAre(g: Graph, arrays: string -> Descriptor, r: Rewrite, topo: Order, t: Node)
    requires Applicable(g, arrays, r) && g.WellFormed() && g.Forward(topo) && !r.ThroughAssignToExit?
    ensures t in NewWriters(r) <==>
            g.IsTasklet(t) && exists e :: IsNewOn(g, Apply(g, arrays, r), e, NewSlot(g, arrays, r)) && e.src == t
  {
    if t in NewWriters(r) {
      var o := if r.ScalarWrite? then r.oe else r.oe2;
      ReattachedIsNew(g, arrays, r, topo, o);
    }
    if e :| IsNewOn(g, Apply(g, arrays, r), e, NewSlot(g, arrays, r)) && e.src == t && g.IsTasklet(t) {
      NewEdge(g, arrays, r, e);
    }
  }

  /** Patterns 2 to 5 add to the records exactly the accesses of tasklets on edges that are new. */
  lemma {:induction false} NewAccessesAreRecorded(g: Graph, arrays: string -> Descriptor, r: Rewrite, topo: Order,
                                                  before: Records, t: Node, s: Slot)
    requires Applicable(g, arrays, r) && g.WellFormed() && g.Forward(topo) && !r.ThroughAssignToExit?
    ensures var g', was, now := Apply(g, arrays, r), AccessesIn(before), AccessesIn(Recorded(g, arrays, r, before));
            && (now.Reads(t, s) <==> was.Reads(t, s) || (g.IsTasklet(t) && exists e :: IsNewOn(g, g', e, s) && e.dst == t))
            && (now.Writes(t, s) <==> was.Writes(t, s) || (g.IsTasklet(t) && exists e :: IsNewOn(g, g', e, s) && e.src == t))
  {
    TargetIsNewSlot(g, arrays, r);
    NewReadersAre(g, arrays, r, topo, t);
    NewWritersAre(g, arrays, r, topo, t);
    TrackAdds(before.readers, NewSlot(g, arrays, r), NewReaders(g, r), t, s);
    TrackAdds(before.writers, NewSlot(g, arrays, r), NewWriters(r), t, s);
    forall e | IsNewOn(g, Apply(g, arrays, r), e, s) ensures s == NewSlot(g, arrays, r) {
      NewEdge(g, arrays, r, e);
    }
  }

  /** Pattern 1 records the producer, and nobody else, as a writer of the slot that the exit's first
      outgoing edge names; without such an edge it records nothing. When the records are right, that is
      a slot which the new edge reaches behind the exit. */
  lemma {:induction false} ExitWriterIsRecorded(g: Graph, arrays: string -> Descriptor, r: Rewrite,
                                                before: Records, t: Node, s: Slot)
    requires Applicable(g, arrays, r) && r.ThroughAssignToExit?
    ensures var was, now := AccessesIn(before), AccessesIn(Recorded(g, arrays, r, before));
            && (now.Reads(t, s) <==> was.Reads(t, s))
            && (now.Writes(t, s) <==>
                  was.Writes(t, s) || (t == r.ie0.src && r.exit.Some? && r.exit.value.memlet.Move? && s == SlotOf(r.exit.value.memlet)))
    ensures !(r.exit.Some? && r.exit.value.memlet.Move?) ==> Recorded(g, arrays, r, before) == before
    ensures r.exit.Some? && ExitRecords.RecordsReached(g, arrays, r, r.exit.value) ==>
              exists o :: o in ExitRecords.Reached(g, r) && o.memlet.Move?
                          && AccessesIn(Recorded(g, arrays, r, before)).Writes(r.ie0.src, SlotOf(o.memlet))
  {
    if r.exit.Some? && r.exit.value.memlet.Move? {
      TrackAdds(before.readers, SlotOf(r.exit.value.memlet), NewReaders(g, r), t, s);
      TrackAdds(before.writers, SlotOf(r.exit.value.memlet), NewWriters(r), t, s);
    }
    if r.exit.Some? && ExitRecords.RecordsReached(g, arrays, r, r.exit.value) {
      assert ExitRecords.WithFirst(r, r.exit.value) == r;
    }
  }

  /** The bypassed container, and no other one, is noted as replaced: by the slot of the new edges (for
      pattern 1 that of the exit's first outgoing edge). */
  lemma {:induction false} ReplacementIsNoted(g: Graph, arrays: string -> Descriptor, r: Rewrite, topo: Order, before: Records)
    requires Applicable(g, arrays, r) && g.WellFormed() && g.Forward(topo)
    requires r.ThroughAssignToExit? ==> r.exit.Some? && r.exit.value.memlet.Move?
    ensures var name, now := g.nodes[Via(r)].data, Recorded(g, arrays, r, before).replacements;
            && now.Keys == before.replacements.Keys + {name}
            && (forall c :: c in before.replacements && c != name ==> now[c] == before.replacements[c])
            && (r.ThroughAssignToExit? ==> now[name] == SlotOf(r.exit.value.memlet))
            && (!r.ThroughAssignToExit? ==>
                  forall e :: e in Apply(g, arrays, r).edges && e !in g.edges ==> e.memlet.Move? && SlotOf(e.memlet) == now[name])
            && (r.EntryScalar? ==> now[name] == SlotOf(r.oe1.memlet))
            && (r.CopyToTransient? ==> now[name].data == g.nodes[r.ie.src].data && now[name].index == Starts(r.ie.memlet.subset))
  {
    if !r.ThroughAssignToExit? {
      TargetIsNewSlot(g, arrays, r);
      forall e | e in Apply(g, arrays, r).edges && e !in g.edges
        ensures e.memlet.Move? && SlotOf(e.memlet) == NewSlot(g, arrays, r)
      {
        NewEdge(g, arrays, r, e);
      }
    }
  }

  // ---- runs ----

  lemma {:induction false} RecordsGrow(g: Graph, arrays: string -> Descriptor, rs: seq<Rewrite>, before: Records, t: Node, s: Slot)
    ensures var was, now := AccessesIn(before), AccessesIn(RecordedAll(g, arrays, rs, before));
            (was.Reads(t, s) ==> now.Reads(t, s)) && (was.Writes(t, s) ==> now.Writes(t, s))
    decreases |rs|
  {
    if rs != [] && Applicable(g, arrays, rs[0]) {
      var next := Recorded(g, arrays, rs[0], before);
      if TargetOf(g, arrays, rs[0]).Target? {
        var slot := TargetOf(g, arrays, rs[0]).slot;
        TrackAdds(before.readers, slot, NewReaders(g, rs[0]), t, s);
        TrackAdds(before.writers, slot, NewWriters(rs[0]), t, s);
      }
      RecordsGrow(Apply(g, arrays, rs[0]), arrays, rs[1..], next, t, s);
    }
  }

  /** Recorded at the tasklets that it leaves and enters; an edge into a map exit has no slot of its own. */
  ghost predicate IsRecorded(g: Graph, rec: Accesses, e: Edge)
    requires e.memlet.Move?
  {
    && (g.IsTasklet(e.dst) ==> rec.Reads(e.dst, SlotOf(e.memlet)))
    && (g.IsTasklet(e.src) && e.dst in g.nodes && g.nodes[e.dst] != MapExit ==> rec.Writes(e.src, SlotOf(e.memlet)))
  }

  /** Every data-carrying edge of the rewritten state that the state did not have is recorded. */
  lemma {:induction false} NewEdgesAreRecorded(g: Graph, arrays: string -> Descriptor, rs: seq<Rewrite>, g': Graph,
                                               topo: Order, before: Records, e: Edge)
    requires IsRun(g, arrays, rs, g') && g.WellFormed() && g.Forward(topo)
    requires e in g'.edges && e !in g.edges && e.memlet.Move?
    ensures IsRecorded(g, AccessesIn(RecordedAll(g, arrays, rs, before)), e)
    decreases |rs|
  {
    hide Applicable, Apply, Recorded, TargetOf;
    var r, rest := rs[0], rs[1..];
    var g1, next, slot := Apply(g, arrays, r), Recorded(g, arrays, r, before), SlotOf(e.memlet);
    ApplyKeepsForward(g, arrays, r, topo);
    ApplyKeepsWellFormed(g, arrays, r, topo);
    if e in g1.edges {
      RecordsGrow(g1, arrays, rest, next, e.src, slot);
      RecordsGrow(g1, arrays, rest, next, e.dst, slot);
      NewEdgeIsRecorded(g, arrays, r, topo, before, e);
    } else {
      NewEdgesAreRecorded(g1, arrays, rest, g', topo, next, e);
      RunInvariant(g1, arrays, rest, g', topo);
      RunKeepsKinds(g1, arrays, rest, g');
      RunKeepsKinds(g, arrays, rs, g');
    }
  }

  lemma NewEdgeIsRecorded(g: Graph, arrays: string -> Descriptor, r: Rewrite, topo: Order, before: Records, e: Edge)
    requires Applicable(g, arrays, r) && g.WellFormed() && g.Forward(topo)
    requires e in Apply(g, arrays, r).edges && e !in g.edges && e.memlet.Move?
    ensures IsRecorded(g, AccessesIn(Recorded(g, arrays, r, before)), e)
  {
    if r.ThroughAssignToExit? {
      var o :| o in Lasts(g, r) && e == Reattach(g, r, o);
    } else {
      NewAccessesAreRecorded(g, arrays, r, topo, before, e.src, SlotOf(e.memlet));
      NewAccessesAreRecorded(g, arrays, r, topo, before, e.dst, SlotOf(e.memlet));
    }
  }

  // ---- what follows for the cleaned state ----

  /** The tasklet uses the slot by a new edge that has a slot of its own. */
  predicate UsesAnew(g: Graph, g': Graph, e: Edge, t: Node, s: Slot) {
    && IsNewOn(g, g', e, s) && g.IsTasklet(t)
    && (e.dst == t || (e.src == t && e.dst in g.nodes && g.nodes[e.dst] != MapExit))
  }

  /** Two tasklets that come to use one slot by contractions, at least one of them writing, are ordered
      in the cleaned state as they were captured. */
  lemma NewConflictsAreOrdered(g: Graph, arrays: string -> Descriptor, g': Graph, log: map<string, Slot>, log': map<string, Slot>,
                               topo: Order, rs: seq<Rewrite>, rewritten: Graph, s: Slot, e: Edge, f: Edge, u: Node, v: Node)
    requires CleanedBy(g, arrays, Fine, g', log, log', topo, rs, rewritten) && g.WellFormed()
    requires UsesAnew(g, rewritten, e, u, s) && UsesAnew(g, rewritten, f, v, s)
    requires e.dst != u || f.dst != v
    requires u in topo && v in topo && topo[u] < topo[v]
    ensures Connected(g', g'.nodes.Keys, u, v)
  {
    hide IsRun, SlotOrdered, RecordedAll;
    var before := Records(map[], map[], log);
    var tracked := Tracked(g, arrays, rs, log);
    NewEdgesAreRecorded(g, arrays, rs, rewritten, topo, before, e);
    NewEdgesAreRecorded(g, arrays, rs, rewritten, topo, before, f);
    assert tracked.ConflictOn(s, u, v);
    RunInvariant(g, arrays, rs, rewritten, topo);
    assert SlotOrdered(g', tracked, s, topo);
    WholeState.RecordedAreOrdered(g', tracked, topo, u, v, s);
  }

  // ---- two producers of one element ----

  function Arrays(name: string): Descriptor {
    Descriptor(name == "s" || name == "r", name == "s" || name == "r")
  }

  function Stored(producer: Node, scalar: Node, name: string): Edge {
    OpaqueBypasses.Link(producer, Some("o"), scalar, None, MissedHazard.Element(name, 0))
  }

  function CopiedOut(scalar: Node): Edge {
    OpaqueBypasses.Link(scalar, None, 4, None, MissedHazard.Element("A", 0))
  }

  function Producers(): map<Node, Kind> {
    map[0 := OpaqueBypasses.Producer(), 1 := Access("s"), 2 := OpaqueBypasses.Producer(), 3 := Access("r"), 4 := Access("A")]
  }

  /** Tasklets 0 and 2 write A[0], one through the scalar s and one through the scalar r. */
  function TwoProducers(): Graph {
    Graph(Producers(), {Stored(0, 1, "s"), CopiedOut(1), Stored(2, 3, "r"), CopiedOut(3)})
  }

  function OneBypassed(): Graph {
    Graph(Producers() - {1}, {DirectWrite(0, 1), Stored(2, 3, "r"), CopiedOut(3)})
  }

  function BothBypassed(): Graph {
    Graph(Producers() - {1} - {3}, {DirectWrite(0, 1), DirectWrite(2, 3)})
  }

  /** The write that takes over the identity of the edge out of the scalar. */
  function DirectWrite(producer: Node, scalar: Node): Edge {
    CopiedOut(scalar).(src := producer, srcConn := Some("o"))
  }

  function BothMatches(): seq<Rewrite> {
    [ScalarWrite(Stored(0, 1, "s"), CopiedOut(1)), ScalarWrite(Stored(2, 3, "r"), CopiedOut(3))]
  }

  function Cell(): Slot {
    MissedHazard.SlotAt("A", 0)
  }

  function OneRecorded(): Records {
    Records(map[], map[Cell() := {0}], map["s" := Cell()])
  }

  function BothRecorded(): Records {
    Records(map[], map[Cell() := {0, 2}], map["s" := Cell(), "r" := Cell()])
  }

  /** The tasklets ordered as they are numbered. */
  function ProducersOrdered(): Graph {
    Graph(BothBypassed().nodes, BothBypassed().edges + {OrderingEdge(0, 2)})
  }

  lemma FirstMatch()
    ensures var g, r := TwoProducers(), BothMatches()[0];
            Applicable(g, Arrays, r) && Apply(g, Arrays, r) == OneBypassed()
  {
    var g, r := TwoProducers(), BothMatches()[0];
    MissedHazard.OneElement(Stored(0, 1, "s"), "s", 0);
    MissedHazard.OneElement(CopiedOut(1), "A", 0);
    assert g.InEdges(1) == {Stored(0, 1, "s")} && g.OutEdges(1) == {CopiedOut(1)};
    assert Reattach(g, r, CopiedOut(1)) == DirectWrite(0, 1);
    assert Spliced(g, Arrays, r) == OneBypassed().edges;
  }

  lemma SecondMatch()
    ensures var g, r := OneBypassed(), BothMatches()[1];
            Applicable(g, Arrays, r) && Apply(g, Arrays, r) == BothBypassed()
  {
    var g, r := OneBypassed(), BothMatches()[1];
    MissedHazard.OneElement(Stored(2, 3, "r"), "r", 0);
    MissedHazard.OneElement(CopiedOut(3), "A", 0);
    assert g.InEdges(3) == {Stored(2, 3, "r")} && g.OutEdges(3) == {CopiedOut(3)};
    assert Reattach(g, r, CopiedOut(3)) == DirectWrite(2, 3);
    assert Spliced(g, Arrays, r) == BothBypassed().edges;
  }

  /** A write through a scalar adds its producer and its replacement to the records. */
  lemma WriteRecorded(g: Graph, r: Rewrite, before: Records)
    requires Applicable(g, Arrays, r) && r.ScalarWrite? && SlotOf(r.oe.memlet) == Cell()
    ensures Recorded(g, Arrays, r, before)
         == Records(before.readers, Track(before.writers, Cell(), {r.ie.src}), before.replacements[g.nodes[Via(r)].data := Cell()])
  {
  }

  lemma TrackedOne(tracked: map<Slot, set<Node>>, slot: Slot, t: Node)
    ensures Track(tracked, slot, {t}) == tracked[slot := (if slot in tracked then tracked[slot] else {}) + {t}]
  {
    assert t in {t};
  }

  lemma FirstRecorded()
    requires Applicable(TwoProducers(), Arrays, BothMatches()[0])
    ensures Recorded(TwoProducers(), Arrays, BothMatches()[0], Records(map[], map[], map[])) == OneRecorded()
  {
    hide Applicable, Recorded;
    MissedHazard.OneElement(CopiedOut(1), "A", 0);
    WriteRecorded(TwoProducers(), BothMatches()[0], Records(map[], map[], map[]));
    TrackedOne(map[], Cell(), 0);
    var none: map<Slot, set<Node>>, nothing: map<string, Slot> := map[], map[];
    assert {} + {0} == {0 as Node};
    assert none[Cell() := {0}] == map[Cell() := {0}] && nothing["s" := Cell()] == map["s" := Cell()];
  }

  lemma SecondRecorded()
    requires Applicable(OneBypassed(), Arrays, BothMatches()[1])
    ensures Recorded(OneBypassed(), Arrays, BothMatches()[1], OneRecorded()) == BothRecorded()
  {
    hide Applicable, Recorded;
    MissedHazard.OneElement(CopiedOut(3), "A", 0);
    WriteRecorded(OneBypassed(), BothMatches()[1], OneRecorded());
    TrackedOne(OneRecorded().writers, Cell(), 2);
    assert {0} + {2} == {0, 2 as Node};
    assert "s"[0] != "r"[0];
  }

  lemma BothAreRecorded()
    ensures RecordedAll(TwoProducers(), Arrays, BothMatches(), Records(map[], map[], map[])) == BothRecorded()
  {
    FirstMatch();
    SecondMatch();
    FirstRecorded();
    SecondRecorded();
    hide Applicable, Apply, Recorded, OneBypassed, BothBypassed, OneRecorded, BothRecorded;
    var rs := BothMatches();
    assert rs[1..] == [rs[1]] && rs[1..][1..] == [];
  }

  lemma ProducersAreSound()
    ensures TwoProducers().WellFormed() && TwoProducers().Forward(MissedHazard.Numbers())
  {
    MissedHazard.KeysTellEnds(TwoProducers());
  }

  lemma BothApply()
    ensures IsRun(TwoProducers(), Arrays, BothMatches(), BothBypassed())
    ensures forall g' :: IsRun(TwoProducers(), Arrays, BothMatches(), g') ==> g' == BothBypassed()
  {
    hide Applicable, Apply;
    FirstMatch();
    SecondMatch();
    var rs := BothMatches();
    assert rs[1..] == [rs[1]] && rs[1..][1..] == [];
  }

  lemma WritesAnew()
    ensures var g, g', s := TwoProducers(), BothBypassed(), Cell();
            UsesAnew(g, g', DirectWrite(0, 1), 0, s) && UsesAnew(g, g', DirectWrite(2, 3), 2, s)
  {
    MissedHazard.OneElement(CopiedOut(1), "A", 0);
    MissedHazard.OneElement(CopiedOut(3), "A", 0);
    assert DirectWrite(0, 1) !in TwoProducers().edges && DirectWrite(2, 3) !in TwoProducers().edges;
  }

  lemma CapturedOrder(g: Graph, arrays: string -> Descriptor, o: Outcome, g': Graph, log: map<string, Slot>, log': map<string, Slot>,
                      topo: Order, rs: seq<Rewrite>, rewritten: Graph)
    requires CleanedBy(g, arrays, o, g', log, log', topo, rs, rewritten)
    ensures IsRun(g, arrays, rs, rewritten) && g.nodes.Keys <= topo.Keys && Injective(topo)
  {
  }

  /** Both matches apply in turn, and in every state that cleaning leaves after them a path leads from the
      tasklet that was captured first to the other one. */
  lemma ProducersAreOrdered(g': Graph, log': map<string, Slot>, topo: Order, rewritten: Graph)
    requires CleanedBy(TwoProducers(), Arrays, Fine, g', map[], log', topo, BothMatches(), rewritten)
    ensures 0 in topo && 2 in topo && topo[0] != topo[2]
    ensures Connected(g', g'.nodes.Keys, if topo[0] < topo[2] then 0 else 2, if topo[0] < topo[2] then 2 else 0)
  {
    hide CleanedBy, IsRun, UsesAnew, BothMatches, BothBypassed, Connected;
    var g, s := TwoProducers(), Cell();
    var e, f := DirectWrite(0, 1), DirectWrite(2, 3);
    ProducersAreSound();
    BothApply();
    WritesAnew();
    CapturedOrder(g, Arrays, Fine, g', map[], log', topo, BothMatches(), rewritten);
    assert 0 in g.nodes && 2 in g.nodes;
    if topo[0] < topo[2] {
      NewConflictsAreOrdered(g, Arrays, g', map[], log', topo, BothMatches(), rewritten, s, e, f, 0, 2);
    } else {
      NewConflictsAreOrdered(g, Arrays, g', map[], log', topo, BothMatches(), rewritten, s, f, e, 2, 0);
    }
  }

  lemma OrderedIsSound()
    ensures ProducersOrdered().WellFormed() && ProducersOrdered().Forward(MissedHazard.Numbers())
  {
    assert ProducersOrdered().edges == {DirectWrite(0, 1), DirectWrite(2, 3), OrderingEdge(0, 2)};
    assert DirectWrite(0, 1).key == Carried(14) && DirectWrite(2, 3).key == Carried(34);
    assert {0, 2, 4} <= ProducersOrdered().nodes.Keys;
  }

  lemma OneEdgeAdded()
    ensures OnlyAdds(BothBypassed(), ProducersOrdered(), AccessesIn(BothRecorded()), {0, 2}, MissedHazard.Numbers())
  {
    assert AccessesIn(BothRecorded()).ConflictOn(Cell(), 0, 2);
  }

  lemma OnlyTheCell(s: Slot)
    ensures SlotOrdered(ProducersOrdered(), AccessesIn(BothRecorded()), s, MissedHazard.Numbers())
    ensures AccessesIn(BothRecorded()).Tasks(ProducersOrdered().nodes.Keys) == {0, 2}
  {
    var g, acc := ProducersOrdered(), AccessesIn(BothRecorded());
    assert acc.Tasks(g.nodes.Keys) == {0, 2} by {
      assert Cell() in acc.writers;
    }
    assert OrderingEdge(0, 2) in g.edges;
    assert g.HasEdge(0, 2);
    EdgeConnects(g, {0, 2}, 0, 2);
  }

  /** Such a state there is: the one that draws the missing edge. */
  lemma ProducersAreCleaned()
    ensures CleanedBy(TwoProducers(), Arrays, Fine, ProducersOrdered(), map[], BothRecorded().replacements,
                      MissedHazard.Numbers(), BothMatches(), BothBypassed())
  {
    hide SlotOrdered, OnlyAdds, IsRun, BothMatches, BothBypassed, ProducersOrdered, BothRecorded;
    ProducersAreSound();
    BothApply();
    BothAreRecorded();
    OrderedIsSound();
    OneEdgeAdded();
    MissedHazard.NumbersDiffer();
    forall s ensures SlotOrdered(ProducersOrdered(), AccessesIn(BothRecorded()), s, MissedHazard.Numbers()) {
      OnlyTheCell(s);
    }
    OnlyTheCell(Cell());
  }
}
