/**
 The five pattern scans over one state, editing it in place and recording which tasklets now
 read or write which memory slot.
 */
module Cleaning {
  import opened Basics
  import opened StateGraph
  import opened Rewrites
  import opened Scheduling
  import opened States
  import opened Hazards

  /** How a scan can end: normally, or by one of the exceptions it raises. */
  datatype Outcome =
    | Fine
    | ScalarWrittenTwice(name: string)
    | ReplacementConflict(name: string)
    | ExitWithoutMemlet

  /** Slot that a rewrite records; map exits may have no outgoing edge, or an empty first one. */
  datatype Target = NoTarget | BrokenTarget | Target(slot: Slot)

  function TargetOf(g: Graph, arrays: string -> Descriptor, r: Rewrite): Target
    requires Applicable(g, arrays, r)
  {
    match r
    case ThroughAssignToExit(_, _, _, exit) =>
      if exit.None? then NoTarget
      else if exit.value.memlet.Empty? then BrokenTarget
      else Target(SlotOf(exit.value.memlet))
    case EntryScalar(oe1) => Target(SlotOf(oe1.memlet))
    case CopyToTransient(ie) => Target(Slot(g.nodes[ie.src].data, Starts(ie.memlet.subset)))
    case ScalarWrite(_, oe) => Target(SlotOf(oe.memlet))
    case AssignWrite(_, _, oe2) => Target(SlotOf(oe2.memlet))
  }

  /** Tasklets that read the target directly after the rewrite. */
  function NewReaders(g: Graph, r: Rewrite): set<Node> {
    if r.EntryScalar? || r.CopyToTransient? then
      set o | o in g.OutEdges(Via(r)) && g.IsTasklet(o.dst) :: o.dst
    else {}
  }

  /** Tasklets that write the target directly after the rewrite. */
  function NewWriters(r: Rewrite): set<Node> {
    if r.EntryScalar? || r.CopyToTransient? then {} else {First(r).src}
  }

  function Track(tracked: map<Slot, set<Node>>, slot: Slot, ts: set<Node>): map<Slot, set<Node>> {
    if ts == {} then tracked
    else tracked[slot := (if slot in tracked then tracked[slot] else {}) + ts]
  }

  /** Names of the containers that some access node of the state writes. */
  function WrittenNames(g: Graph): set<string> {
    set n | n in g.nodes && g.nodes[n].Access? && g.InEdges(n) != {} :: g.nodes[n].data
  }

  predicate IsWriter(g: Graph, name: string, n: Node) {
    n in g.nodes && g.nodes[n] == Access(name) && g.InEdges(n) != {}
  }

  /** A scalar may go only if one node writes it, in this state alone. */
  function SafeToEliminate(g: Graph, arrays: string -> Descriptor, elsewhere: set<string>, name: string): Outcome {
    if !arrays(name).scalar then Fine
    else if |set n | n in g.nodes && IsWriter(g, name, n)| > 1 then
      ScalarWrittenTwice(name)
    else if name in elsewhere then ScalarWrittenTwice(name)
    else Fine
  }

  /** A scalar is safe exactly when no two nodes of the state write it and no other state does. */
  lemma SafeIffOneWriter(g: Graph, arrays: string -> Descriptor, elsewhere: set<string>, name: string)
    requires arrays(name).scalar
    ensures SafeToEliminate(g, arrays, elsewhere, name).Fine? <==>
            name !in elsewhere && forall n: Node, m: Node :: IsWriter(g, name, n) && IsWriter(g, name, m) ==> n == m
  {
    var writers := set n | n in g.nodes && IsWriter(g, name, n);
    assert forall n: Node :: IsWriter(g, name, n) <==> n in writers;
    MoreThanOne(writers);
  }

  lemma MoreThanOne<T>(s: set<T>)
    ensures |s| > 1 <==> exists x, y :: x in s && y in s && x != y
  {
    if |s| > 1 {
      var x :| x in s;
      assert |s - {x}| == |s| - 1;
      var y :| y in s - {x};
    }
    if x, y :| x in s && y in s && x != y {
      assert |s - {x} - {y}| == |s| - 2;
    }
  }

  /** What attempting an applicable rewrite raises, if anything. */
  function Verdict(g: Graph, arrays: string -> Descriptor, elsewhere: set<string>, replacements: map<string, Slot>,
                   r: Rewrite): Outcome
    requires Applicable(g, arrays, r)
  {
    var name := g.nodes[Via(r)].data;
    var safe := SafeToEliminate(g, arrays, elsewhere, name);
    if !safe.Fine? then safe
    else
      match TargetOf(g, arrays, r)
      case NoTarget => Fine
      case BrokenTarget => ExitWithoutMemlet
      case Target(slot) => if name in replacements && replacements[name] != slot then ReplacementConflict(name) else Fine
  }

  /** Some applicable rewrite raises this. */
  ghost predicate Raises(g: Graph, arrays: string -> Descriptor, elsewhere: set<string>,
                         replacements: map<string, Slot>, o: Outcome) {
    exists r :: Applicable(g, arrays, r) && Verdict(g, arrays, elsewhere, replacements, r) == o
  }

  /** What the scans write down: tasklets per slot, and by which slot a container was replaced. */
  datatype Records = Records(readers: map<Slot, set<Node>>, writers: map<Slot, set<Node>>, replacements: map<string, Slot>)

  /** The records after one more rewrite; a map exit that leads nowhere leaves them alone. */
  function Recorded(g: Graph, arrays: string -> Descriptor, r: Rewrite, before: Records): Records
    requires Applicable(g, arrays, r)
  {
    match TargetOf(g, arrays, r)
    case Target(slot) =>
      Records(Track(before.readers, slot, NewReaders(g, r)), Track(before.writers, slot, NewWriters(r)),
              before.replacements[g.nodes[Via(r)].data := slot])
    case _ => before
  }

  /** An attempt goes through exactly when the bypassed container is safe to eliminate, no empty memlet is in
      the way at a map exit, and recording the replacement leaves all earlier ones as they were. */
  lemma VerdictFineIff(g: Graph, arrays: string -> Descriptor, elsewhere: set<string>, r: Rewrite, before: Records)
    requires Applicable(g, arrays, r)
    ensures var safe := SafeToEliminate(g, arrays, elsewhere, g.nodes[Via(r)].data);
            var verdict, after := Verdict(g, arrays, elsewhere, before.replacements, r), Recorded(g, arrays, r, before).replacements;
            && (verdict.Fine? <==>
                  && safe.Fine? && !(r.ThroughAssignToExit? && r.exit.Some? && r.exit.value.memlet.Empty?)
                  && KeepsReplacements(before.replacements, after))
            && (verdict.ScalarWrittenTwice? <==> !safe.Fine?)
            && (verdict.ReplacementConflict? <==> safe.Fine? && !KeepsReplacements(before.replacements, after))
  {
    var name := g.nodes[Via(r)].data;
    assert forall c :: c in before.replacements ==> c in Recorded(g, arrays, r, before).replacements;
  }

  predicate KeepsReplacements(before: map<string, Slot>, after: map<string, Slot>) {
    forall c :: c in before ==> c in after && after[c] == before[c]
  }

  /** Only scalars can be unsafe; the exception names the container. */
  lemma OnlyScalarsAreUnsafe(g: Graph, arrays: string -> Descriptor, elsewhere: set<string>, name: string)
    ensures var o := SafeToEliminate(g, arrays, elsewhere, name);
            o == (if o.Fine? then Fine else ScalarWrittenTwice(name)) && (!arrays(name).scalar ==> o.Fine?)
  {
  }

  /** What patterns 2 to 5 record is so: afterwards the tasklet has an edge on that very slot. */
  lemma {:induction false} RecordedIsSo(g: Graph, arrays: string -> Descriptor, r: Rewrite, t: Node)
    requires Applicable(g, arrays, r) && !r.ThroughAssignToExit?
    ensures TargetOf(g, arrays, r).Target?
    ensures t in NewReaders(g, r) ==>
              exists e :: e in Apply(g, arrays, r).edges && e.dst == t
                          && e.memlet.Move? && SlotOf(e.memlet) == TargetOf(g, arrays, r).slot
    ensures t in NewWriters(r) ==>
              exists e :: e in Apply(g, arrays, r).edges && e.src == t
                          && e.memlet.Move? && SlotOf(e.memlet) == TargetOf(g, arrays, r).slot
  {
    if t in NewReaders(g, r) {
      var o :| o in g.OutEdges(Via(r)) && g.IsTasklet(o.dst) && o.dst == t;
      ShowsTarget(g, arrays, r, o);
    } else if t in NewWriters(r) {
      assert r.AssignWrite? ==> r.oe in g.OutEdges(r.ie.dst) && r.oe2 in g.OutEdges(r.oe.dst);
      ShowsTarget(g, arrays, r, if r.ScalarWrite? then r.oe else r.oe2);
    }
  }

  lemma ShowsTarget(g: Graph, arrays: string -> Descriptor, r: Rewrite, o: Edge)
    requires Applicable(g, arrays, r) && !r.ThroughAssignToExit? && o in Lasts(g, r) && o.memlet.Move?
    ensures var e := Reattach(g, r, o); var target := TargetOf(g, arrays, r);
            && e in Apply(g, arrays, r).edges && e.dst == o.dst && e.src == First(r).src
            && e.memlet.Move? && target.Target? && SlotOf(e.memlet) == target.slot
  {
    if r.CopyToTransient? {
      assert Starts(Points(Starts(r.ie.memlet.subset))) == Starts(r.ie.memlet.subset);
    }
  }

  /** The records after a run of rewrites. */
  ghost function RecordedAll(g: Graph, arrays: string -> Descriptor, rs: seq<Rewrite>, before: Records): Records
    decreases |rs|
  {
    if rs == [] || !Applicable(g, arrays, rs[0]) then before
    else RecordedAll(Apply(g, arrays, rs[0]), arrays, rs[1..], Recorded(g, arrays, rs[0], before))
  }

  lemma {:induction false} RecordedSnoc(g: Graph, arrays: string -> Descriptor, rs: seq<Rewrite>, g': Graph, r: Rewrite,
                                        before: Records)
    requires IsRun(g, arrays, rs, g') && Applicable(g', arrays, r)
    ensures RecordedAll(g, arrays, rs + [r], before) == Recorded(g', arrays, r, RecordedAll(g, arrays, rs, before))
    decreases |rs|
  {
    hide Applicable, Apply, Recorded;
    if rs == [] {
      assert [r][1..] == [];
    } else {
      RecordedSnoc(Apply(g, arrays, rs[0]), arrays, rs[1..], g', r, Recorded(g, arrays, rs[0], before));
      assert (rs + [r])[1..] == rs[1..] + [r];
    }
  }

  /** No rewrite of any of the five patterns applies. */
  ghost predicate NormalForm(g: Graph, arrays: string -> Descriptor) {
    forall r :: !Applicable(g, arrays, r)
  }

  /** A node that is a transient container with a single edge into it. */
  predicate EnteredOnce(g: Graph, arrays: string -> Descriptor, n: Node, ie: Edge) {
    g.IsAccess(n) && arrays(g.nodes[n].data).transient && g.InEdges(n) == {ie} && MovesOneElement(ie) && ie.src in g.nodes
  }

  /** What a normal form is free of. A transient scalar that a tasklet writes goes neither straight to an
      access node nor, alone, through an assignment to one, nor through an assignment to a map exit. One
      that a map entry fills has some use other than tasklets that read one element. Any transient that one
      element of another access node fills has some use that does not take one element. */
  lemma NothingRedundantLeft(g: Graph, arrays: string -> Descriptor, n: Node, ie: Edge)
    requires NormalForm(g, arrays) && EnteredOnce(g, arrays, n, ie)
    ensures g.IsAccess(ie.src) ==> exists o :: o in g.OutEdges(n) && !MovesOneElement(o)
    ensures arrays(g.nodes[n].data).scalar && g.nodes[ie.src] == MapEntry ==>
              exists o :: o in g.OutEdges(n) && !(g.IsTasklet(o.dst) && MovesOneElement(o))
    ensures arrays(g.nodes[n].data).scalar && g.IsTasklet(ie.src) ==>
              forall oe :: oe in g.OutEdges(n) && MovesOneElement(oe) ==>
                && (g.OutEdges(n) == {oe} ==> !g.IsAccess(oe.dst))
                && (g.IsTasklet(oe.dst) && IsAssign(g.nodes[oe.dst]) && g.InEdges(oe.dst) == {oe} ==>
                      forall oe2 :: oe2 in g.OutEdges(oe.dst) && MovesOneElement(oe2) && oe2.dst in g.nodes ==>
                        && g.nodes[oe2.dst] != MapExit
                        && !(g.OutEdges(n) == {oe} && g.OutEdges(oe.dst) == {oe2} && g.IsAccess(oe2.dst)))
  {
    assert ie in g.InEdges(n);
    assert !Applicable(g, arrays, CopyToTransient(ie)) && !Applicable(g, arrays, EntryScalar(ie));
    if arrays(g.nodes[n].data).scalar && g.IsTasklet(ie.src) {
      forall oe | oe in g.OutEdges(n) && MovesOneElement(oe)
        ensures g.OutEdges(n) == {oe} ==> !g.IsAccess(oe.dst)
      {
        assert !Applicable(g, arrays, ScalarWrite(ie, oe));
      }
      forall oe, oe2 | oe in g.OutEdges(n) && MovesOneElement(oe) && g.IsTasklet(oe.dst) && IsAssign(g.nodes[oe.dst])
                       && g.InEdges(oe.dst) == {oe} && oe2 in g.OutEdges(oe.dst) && MovesOneElement(oe2) && oe2.dst in g.nodes
        ensures g.nodes[oe2.dst] != MapExit
        ensures !(g.OutEdges(n) == {oe} && g.OutEdges(oe.dst) == {oe2} && g.IsAccess(oe2.dst))
      {
        NoAssignLeft(g, arrays, n, ie, oe, oe2);
      }
    }
  }

  lemma NoAssignLeft(g: Graph, arrays: string -> Descriptor, n: Node, ie: Edge, oe: Edge, oe2: Edge)
    requires NormalForm(g, arrays) && EnteredOnce(g, arrays, n, ie) && arrays(g.nodes[n].data).scalar && g.IsTasklet(ie.src)
    requires oe in g.OutEdges(n) && MovesOneElement(oe) && g.IsTasklet(oe.dst) && IsAssign(g.nodes[oe.dst])
    requires g.InEdges(oe.dst) == {oe} && oe2 in g.OutEdges(oe.dst) && MovesOneElement(oe2) && oe2.dst in g.nodes
    ensures g.nodes[oe2.dst] != MapExit
    ensures !(g.OutEdges(n) == {oe} && g.OutEdges(oe.dst) == {oe2} && g.IsAccess(oe2.dst))
  {
    assert ie in g.InEdges(n);
    var outs := g.OutEdges(oe2.dst);
    var exit := None;
    if outs != {} {
      var e :| e in outs;
      exit := Some(e);
    }
    assert !Applicable(g, arrays, ThroughAssignToExit(ie, oe, oe2, exit));
    assert !Applicable(g, arrays, AssignWrite(ie, oe, oe2));
  }

  lemma OnlyOne<T>(s: set<T>, x: T)
    requires x in s && |s| == 1
    ensures s == {x}
  {
    assert |s - {x}| == 0;
  }

  // ---- which matches are left ----

  function PatternOf(r: Rewrite): nat {
    match r
    case ThroughAssignToExit(_, _, _, _) => 1
    case EntryScalar(_) => 2
    case CopyToTransient(_) => 3
    case ScalarWrite(_, _) => 4
    case AssignWrite(_, _, _) => 5
  }

  ghost predicate NoneLeft(g: Graph, arrays: string -> Descriptor, pattern: nat) {
    forall r :: PatternOf(r) == pattern ==> !Applicable(g, arrays, r)
  }

  ghost predicate NoneAt(g: Graph, arrays: string -> Descriptor, pattern: nat, nodes: set<Node>) {
    forall r :: PatternOf(r) == pattern && Via(r) in nodes ==> !Applicable(g, arrays, r)
  }

  /** The edge at the map scope from which patterns 1 and 2 start looking. */
  function ScopeEdge(r: Rewrite): Edge {
    if r.ThroughAssignToExit? then r.ie2 else First(r)
  }

  ghost predicate NoneOn(g: Graph, arrays: string -> Descriptor, pattern: nat, edges: set<Edge>) {
    forall r :: PatternOf(r) == pattern && ScopeEdge(r) in edges ==> !Applicable(g, arrays, r)
  }

  /** Every edge into a map exit (pattern 1) or out of a map entry (pattern 2) outside `todo` has been seen. */
  ghost predicate SeenExcept(g: Graph, pattern: nat, todo: set<Node>, seen: set<Edge>) {
    forall e :: e in g.edges && AtScope(g, pattern, e) && (if pattern == 1 then e.dst else e.src) !in todo
      ==> e in seen
  }

  ghost predicate AtScope(g: Graph, pattern: nat, e: Edge) {
    if pattern == 1 then e.dst in g.nodes && g.nodes[e.dst] == MapExit
    else e.src in g.nodes && g.nodes[e.src] == MapEntry
  }

  lemma NoneAtAnyAccess(g: Graph, arrays: string -> Descriptor, pattern: nat, accesses: set<Node>)
    requires NoneAt(g, arrays, pattern, accesses) && 3 <= pattern <= 5
    requires accesses == set n | n in g.nodes && g.nodes[n].Access?
    ensures NoneLeft(g, arrays, pattern)
  {
    forall r | PatternOf(r) == pattern && Applicable(g, arrays, r) ensures Via(r) in accesses {
    }
  }

  /** If any rewrite with scope edge e applies, then the candidate c does. */
  ghost predicate Represents(g: Graph, arrays: string -> Descriptor, pattern: nat, e: Edge, c: Option<Rewrite>) {
    forall r :: PatternOf(r) == pattern && ScopeEdge(r) == e && Applicable(g, arrays, r)
      ==> c.Some? && Applicable(g, arrays, c.value)
  }

  lemma NoneOnStep(g: Graph, arrays: string -> Descriptor, pattern: nat, edges: set<Edge>, e: Edge, c: Option<Rewrite>)
    requires NoneOn(g, arrays, pattern, edges)
    requires Represents(g, arrays, pattern, e, c) || (pattern == 2 && c == Some(EntryScalar(e)))
    requires c.Some? ==> !Applicable(g, arrays, c.value)
    ensures NoneOn(g, arrays, pattern, edges + {e})
  {
  }

  lemma NoneOnAnyScope(g: Graph, arrays: string -> Descriptor, pattern: nat, seen: set<Edge>)
    requires NoneOn(g, arrays, pattern, seen) && 1 <= pattern <= 2
    requires SeenExcept(g, pattern, {}, seen)
    ensures NoneLeft(g, arrays, pattern)
  {
    forall r | PatternOf(r) == pattern ensures !Applicable(g, arrays, r) {
      if Applicable(g, arrays, r) {
        ScopeEdgeSeen(g, arrays, pattern, seen, r);
      }
    }
  }

  lemma ScopeEdgeSeen(g: Graph, arrays: string -> Descriptor, pattern: nat, seen: set<Edge>, r: Rewrite)
    requires SeenExcept(g, pattern, {}, seen) && PatternOf(r) == pattern && 1 <= pattern <= 2
    requires Applicable(g, arrays, r)
    ensures ScopeEdge(r) in seen
  {
    assert AtScope(g, pattern, ScopeEdge(r));
  }

  lemma NothingLeft(g: Graph, arrays: string -> Descriptor)
    requires forall k :: 1 <= k <= 5 ==> NoneLeft(g, arrays, k)
    ensures NormalForm(g, arrays)
  {
    forall r ensures !Applicable(g, arrays, r) {
      assert NoneLeft(g, arrays, PatternOf(r));
    }
  }

  // ---- splicing edge by edge ----

  /** The edges when the last edges in `todo` are still to be re-attached. */
  function SplicedSoFar(g: Graph, arrays: string -> Descriptor, r: Rewrite, todo: set<Edge>): set<Edge>
    requires Applicable(g, arrays, r)
  {
    g.edges - {First(r)} - Middle(r) - (Lasts(g, r) - todo)
    + set o | o in Lasts(g, r) && o !in todo :: Reattach(g, r, o)
  }

  lemma SpliceStarts(g: Graph, arrays: string -> Descriptor, r: Rewrite, topo: Order)
    requires Applicable(g, arrays, r) && g.WellFormed() && g.Forward(topo)
    ensures SplicedSoFar(g, arrays, r, Lasts(g, r)) == g.edges - {First(r)} - Middle(r)
    ensures Lasts(g, r) <= g.edges
  {
    forall o | o in Lasts(g, r) ensures o in g.edges {
      ChainGoesForward(g, arrays, r, topo, o);
    }
  }

  lemma SpliceStep(g: Graph, arrays: string -> Descriptor, r: Rewrite, todo: set<Edge>, o: Edge)
    requires Applicable(g, arrays, r) && g.WellFormed() && Lasts(g, r) <= g.edges
    requires todo <= Lasts(g, r) && o in todo
    ensures SplicedSoFar(g, arrays, r, todo) - {o} + {Reattach(g, r, o)} == SplicedSoFar(g, arrays, r, todo - {o})
  {
    var lasts := Lasts(g, r);
    forall p | p in lasts && p !in todo ensures Reattach(g, r, p) != o {
      assert Reattach(g, r, p).key == p.key;
    }
    assert lasts - (todo - {o}) == lasts - todo + {o};
    SameWithOneMore(g, arrays, r, todo, o);
  }

  lemma SameWithOneMore(g: Graph, arrays: string -> Descriptor, r: Rewrite, todo: set<Edge>, o: Edge)
    requires Applicable(g, arrays, r) && todo <= Lasts(g, r) && o in todo
    ensures (set p | p in Lasts(g, r) && p !in todo - {o} :: Reattach(g, r, p))
         == (set p | p in Lasts(g, r) && p !in todo :: Reattach(g, r, p)) + {Reattach(g, r, o)}
  {
  }

  lemma SpliceEnds(g: Graph, arrays: string -> Descriptor, r: Rewrite)
    requires Applicable(g, arrays, r)
    ensures SplicedSoFar(g, arrays, r, {}) == Spliced(g, arrays, r)
  {
  }

  class Cleaner {
    const st: State
    const arrays: string -> Descriptor
    const elsewhere: set<string>
    var readers: map<Slot, set<Node>>
    var writers: map<Slot, set<Node>>
    var replacements: map<string, Slot>

    constructor (st: State, arrays: string -> Descriptor, elsewhere: set<string>, replacements: map<string, Slot>)
      ensures this.st == st && this.arrays == arrays && this.elsewhere == elsewhere
      ensures readers == map[] && writers == map[] && this.replacements == replacements
    {
      this.st, this.arrays, this.elsewhere := st, arrays, elsewhere;
      this.readers, this.writers, this.replacements := map[], map[], replacements;
    }

    function Now(): Records
      reads this
    {
      Records(readers, writers, replacements)
    }

    method RecordReplacement(name: string, slot: Slot) returns (o: Outcome)
      modifies this`replacements
      ensures o == if name in old(replacements) && old(replacements)[name] != slot
                   then ReplacementConflict(name) else Fine
      ensures replacements == if o.Fine? then old(replacements)[name := slot] else old(replacements)
    {
      if name in replacements && replacements[name] != slot {
        return ReplacementConflict(name);
      }
      replacements := replacements[name := slot];
      return Fine;
    }

    /** Removes the chain and re-attaches its last edges, one by one, to the source of the first. */
    method Splice(r: Rewrite, ghost topo: Order)
      requires Applicable(st.g, arrays, r) && st.g.WellFormed() && st.g.Forward(topo)
      modifies st
      ensures st.g == old(st.g).(edges := Spliced(old(st.g), arrays, r))
    {
      var g := st.g;
      st.RemoveEdge(First(r));
      st.RemoveEdges(Middle(r));
      var todo := Lasts(g, r);
      SpliceStarts(g, arrays, r, topo);
      while todo != {}
        invariant todo <= Lasts(g, r)
        invariant st.g == g.(edges := SplicedSoFar(g, arrays, r, todo))
        decreases todo
      {
        var o :| o in todo;
        SpliceStep(g, arrays, r, todo, o);
        st.RemoveEdge(o);
        st.AddEdge(Reattach(g, r, o));
        todo := todo - {o};
      }
      SpliceEnds(g, arrays, r);
    }

    /** Removes the bypassed nodes. */
    method Prune(r: Rewrite, ghost g: Graph, ghost topo: Order)
      requires Applicable(g, arrays, r) && g.WellFormed() && g.Forward(topo)
      requires st.g == g.(edges := Spliced(g, arrays, r))
      modifies st
      ensures st.g == Apply(g, arrays, r)
    {
      forall n | n in Dropped(r) ensures st.g.Isolated(n) {
        forall e | e in st.g.edges ensures e.src != n && e.dst != n {
          DroppedIsIsolated(g, arrays, r, topo, e);
        }
      }
      st.RemoveNodes(Dropped(r));
      var kept := st.g;
      st.RemoveNodes(set n | n in DroppedIfIsolated(r) && kept.Isolated(n));
    }

    /** Notes the replacement of the bypassed container and the tasklets that now use its target. */
    method Record(r: Rewrite) returns (o: Outcome)
      requires Applicable(st.g, arrays, r)
      modifies this
      ensures o == Verdict(st.g, arrays, elsewhere, old(replacements), r)
      ensures Now() == if o.Fine? then Recorded(st.g, arrays, r, old(Now())) else old(Now())
    {
      var name := st.g.nodes[Via(r)].data;
      o := SafeToEliminate(st.g, arrays, elsewhere, name);
      if !o.Fine? {
        return;
      }
      var target := TargetOf(st.g, arrays, r);
      if target.BrokenTarget? {
        return ExitWithoutMemlet;
      }
      if target.Target? {
        o := RecordReplacement(name, target.slot);
        if o.Fine? {
          readers := Track(readers, target.slot, NewReaders(st.g, r));
          writers := Track(writers, target.slot, NewWriters(r));
        }
      }
    }

    /** Performs a rewrite if it applies: safety check, bookkeeping, then the edit. A raised
        exception leaves the graph and the records as they were. */
    method Attempt(r: Rewrite, ghost topo: Order) returns (o: Outcome, done: bool)
      requires st.g.WellFormed() && st.g.Forward(topo)
      modifies this, st
      ensures done <==> Applicable(old(st.g), arrays, r) && o.Fine?
      ensures o == if Applicable(old(st.g), arrays, r)
                   then Verdict(old(st.g), arrays, elsewhere, old(replacements), r) else Fine
      ensures st.g == if done then Apply(old(st.g), arrays, r) else old(st.g)
      ensures Now() == if done then Recorded(old(st.g), arrays, r, old(Now())) else old(Now())
    {
      if !Applicable(st.g, arrays, r) {
        return Fine, false;
      }
      o := Record(r);
      if !o.Fine? {
        return o, false;
      }
      ghost var g := st.g;
      Splice(r, topo);
      Prune(r, g, topo);
      done := true;
    }

    /** The rewrites `rs`, one per counted modification, lead from g0 to the current graph and from
        the records rec0 to the current ones. */
    ghost predicate Follows(g0: Graph, rec0: Records, rs: seq<Rewrite>, mods: nat, topo: Order)
      reads this, st
    {
      && g0.WellFormed() && g0.Forward(topo)
      && IsRun(g0, arrays, rs, st.g) && |rs| == mods
      && Now() == RecordedAll(g0, arrays, rs, rec0) && KeepsReplacements(rec0.replacements, replacements)
      && st.g.WellFormed() && st.g.Forward(topo)
    }

    /** Attempts a rewrite in the course of a scan and counts it. */
    method Try(r: Rewrite, mods: nat, ghost g0: Graph, ghost rec0: Records, ghost rs: seq<Rewrite>, ghost topo: Order)
      returns (o: Outcome, mods': nat, ghost rs': seq<Rewrite>)
      requires Follows(g0, rec0, rs, mods, topo)
      modifies this, st
      ensures Follows(g0, rec0, rs', mods', topo)
      ensures mods' == mods + if Applicable(old(st.g), arrays, r) && o.Fine? then 1 else 0
      ensures mods' == mods ==>
                st.g == old(st.g) && Now() == old(Now())
      ensures !o.Fine? ==> Raises(st.g, arrays, elsewhere, replacements, o)
    {
      var done;
      ghost var g, rec := st.g, Now();
      o, done := Attempt(r, topo);
      if done {
        VerdictFineIff(g, arrays, elsewhere, r, rec);
        RunSnoc(g0, arrays, rs, g, r);
        RecordedSnoc(g0, arrays, rs, g, r, rec0);
        RunInvariant(g0, arrays, rs + [r], st.g, topo);
        return o, mods + 1, rs + [r];
      }
      return o, mods, rs;
    }

    /** Nothing was changed, neither the graph nor the records. */
    twostate predicate Untouched()
      reads this, st
    {
      st.g == old(st.g) && Now() == old(Now())
    }

    /** Follows ie2 backwards through the assign tasklet and the scalar. */
    method MatchPattern1(ie2: Edge) returns (c: Option<Rewrite>)
      ensures Represents(st.g, arrays, 1, ie2, c)
    {
      c := None;
      var ins1 := st.g.InEdges(ie2.src);
      if |ins1| == 1 {
        var ie1 :| ie1 in ins1;
        OnlyOne(ins1, ie1);
        var ins0 := st.g.InEdges(ie1.src);
        if |ins0| == 1 {
          var ie0 :| ie0 in ins0;
          OnlyOne(ins0, ie0);
          var outs := st.g.OutEdges(ie2.dst);
          var exit := None;
          if outs != {} {
            var e :| e in outs;
            exit := Some(e);
          }
          c := Some(ThroughAssignToExit(ie0, ie1, ie2, exit));
        }
      }
    }

    method MatchPattern3(an2: Node) returns (c: Option<Rewrite>)
      ensures forall r: Rewrite :: r.CopyToTransient? && Via(r) == an2 && Applicable(st.g, arrays, r) ==> c == Some(r)
    {
      c := None;
      var ins := st.g.InEdges(an2);
      if |ins| == 1 {
        var ie :| ie in ins;
        OnlyOne(ins, ie);
        c := Some(CopyToTransient(ie));
      }
    }

    method MatchPattern4(an: Node) returns (c: Option<Rewrite>)
      ensures forall r: Rewrite :: r.ScalarWrite? && Via(r) == an && Applicable(st.g, arrays, r) ==> c == Some(r)
    {
      c := None;
      var ins, outs := st.g.InEdges(an), st.g.OutEdges(an);
      if |ins| == 1 && |outs| == 1 {
        var ie :| ie in ins;
        var oe :| oe in outs;
        OnlyOne(ins, ie);
        OnlyOne(outs, oe);
        c := Some(ScalarWrite(ie, oe));
      }
    }

    method MatchPattern5(an: Node) returns (c: Option<Rewrite>)
      ensures forall r: Rewrite :: r.AssignWrite? && Via(r) == an && Applicable(st.g, arrays, r) ==> c == Some(r)
    {
      c := None;
      var ins, outs := st.g.InEdges(an), st.g.OutEdges(an);
      if |ins| == 1 && |outs| == 1 {
        var ie :| ie in ins;
        var oe :| oe in outs;
        OnlyOne(ins, ie);
        OnlyOne(outs, oe);
        var outs2 := st.g.OutEdges(oe.dst);
        if |outs2| == 1 {
          var oe2 :| oe2 in outs2;
          OnlyOne(outs2, oe2);
          c := Some(AssignWrite(ie, oe, oe2));
        }
      }
    }

    /** Patterns 1 and 2 at the given edges of one map scope. */
    method CleanAtEdges(pattern: nat, edges: set<Edge>, mods0: nat, ghost g0: Graph, ghost rec0: Records, ghost rs0: seq<Rewrite>,
                        ghost topo: Order)
      returns (o: Outcome, mods: nat, ghost rs: seq<Rewrite>)
      requires 1 <= pattern <= 2 && Follows(g0, rec0, rs0, mods0, topo)
      modifies this, st
      ensures Follows(g0, rec0, rs, mods, topo) && mods >= mods0
      ensures !o.Fine? ==> Raises(st.g, arrays, elsewhere, replacements, o)
      ensures o.Fine? && mods == mods0 ==> Untouched() && NoneOn(st.g, arrays, pattern, edges)
    {
      o, mods, rs := Fine, mods0, rs0;
      var todo := edges;
      while todo != {}
        invariant Follows(g0, rec0, rs, mods, topo) && mods >= mods0 && o.Fine?
        invariant mods == mods0 ==> Untouched()
        invariant mods == mods0 ==> NoneOn(st.g, arrays, pattern, edges - todo)
        decreases todo
      {
        var e :| e in todo;
        var c;
        if pattern == 1 {
          c := MatchPattern1(e);
        } else {
          c := Some(EntryScalar(e));
        }
        ghost var g := st.g;
        if c.Some? {
          o, mods, rs := Try(c.value, mods, g0, rec0, rs, topo);
          if !o.Fine? {
            return;
          }
        }
        if mods == mods0 {
          NoneOnStep(g, arrays, pattern, edges - todo, e, c);
          assert edges - (todo - {e}) == edges - todo + {e};
        }
        todo := todo - {e};
      }
    }

    /** Patterns 1 (tasklet -> scalar -> assign tasklet -> map exit) and 2 (map entry -> scalar ->
        tasklets): one scan over the map exits, or over the map entries. */
    method CleanAtScopes(pattern: nat, mods0: nat, ghost g0: Graph, ghost rec0: Records, ghost rs0: seq<Rewrite>, ghost topo: Order)
      returns (o: Outcome, mods: nat, ghost rs: seq<Rewrite>)
      requires 1 <= pattern <= 2 && Follows(g0, rec0, rs0, mods0, topo)
      modifies this, st
      ensures Follows(g0, rec0, rs, mods, topo) && mods >= mods0
      ensures !o.Fine? ==> Raises(st.g, arrays, elsewhere, replacements, o)
      ensures o.Fine? && mods == mods0 ==> Untouched() && NoneLeft(st.g, arrays, pattern)
    {
      o, mods, rs := Fine, mods0, rs0;
      var scopes := set n | n in st.g.nodes && st.g.nodes[n] == (if pattern == 1 then MapExit else MapEntry);
      ghost var seen: set<Edge> := {};
      while scopes != {}
        invariant Follows(g0, rec0, rs, mods, topo) && mods >= mods0 && o.Fine?
        invariant mods == mods0 ==> Untouched()
        invariant mods == mods0 ==> NoneOn(st.g, arrays, pattern, seen) && SeenExcept(st.g, pattern, scopes, seen)
        decreases scopes
      {
        var n :| n in scopes;
        var edges := if pattern == 1 then st.g.InEdges(n) else st.g.OutEdges(n);
        o, mods, rs := CleanAtEdges(pattern, edges, mods, g0, rec0, rs, topo);
        if !o.Fine? {
          return;
        }
        scopes, seen := scopes - {n}, seen + edges;
      }
      if mods == mods0 {
        NoneOnAnyScope(st.g, arrays, pattern, seen);
      }
    }

    /** Patterns 3 (access -> transient access), 4 (tasklet -> scalar -> access) and
        5 (tasklet -> scalar -> assign tasklet -> access): one scan over the access nodes. */
    method CleanAtAccesses(pattern: nat, mods0: nat, ghost g0: Graph, ghost rec0: Records, ghost rs0: seq<Rewrite>, ghost topo: Order)
      returns (o: Outcome, mods: nat, ghost rs: seq<Rewrite>)
      requires 3 <= pattern <= 5 && Follows(g0, rec0, rs0, mods0, topo)
      modifies this, st
      ensures Follows(g0, rec0, rs, mods, topo) && mods >= mods0
      ensures !o.Fine? ==> Raises(st.g, arrays, elsewhere, replacements, o)
      ensures o.Fine? && mods == mods0 ==> Untouched() && NoneLeft(st.g, arrays, pattern)
    {
      hide Applicable, IsRun;
      o, mods, rs := Fine, mods0, rs0;
      var accesses := set n | n in st.g.nodes && st.g.nodes[n].Access?;
      ghost var all := accesses;
      while accesses != {}
        invariant Follows(g0, rec0, rs, mods, topo) && mods >= mods0 && o.Fine?
        invariant mods == mods0 ==> Untouched()
        invariant mods == mods0 ==> NoneAt(st.g, arrays, pattern, all - accesses)
        decreases accesses
      {
        var an :| an in accesses;
        var c;
        if pattern == 3 {
          c := MatchPattern3(an);
        } else if pattern == 4 {
          c := MatchPattern4(an);
        } else {
          c := MatchPattern5(an);
        }
        if c.Some? {
          o, mods, rs := Try(c.value, mods, g0, rec0, rs, topo);
          if !o.Fine? {
            return;
          }
        }
        accesses := accesses - {an};
      }
      if mods == mods0 {
        NoneAtAnyAccess(st.g, arrays, pattern, all);
      }
    }

    /** The five scans in order. */
    method CleanPatterns(ghost topo: Order) returns (o: Outcome, mods: nat, ghost rs: seq<Rewrite>)
      requires st.g.WellFormed() && st.g.Forward(topo)
      modifies this, st
      ensures Follows(old(st.g), old(Now()), rs, mods, topo)
      ensures !o.Fine? ==> Raises(st.g, arrays, elsewhere, replacements, o)
      ensures o.Fine? && mods == 0 ==> Untouched() && NormalForm(st.g, arrays)
    {
      ghost var g0, rec0 := st.g, Now();
      o, mods, rs := CleanAtScopes(1, 0, g0, rec0, [], topo);
      if o.Fine? {
        o, mods, rs := CleanAtScopes(2, mods, g0, rec0, rs, topo);
      }
      if o.Fine? {
        o, mods, rs := CleanAtAccesses(3, mods, g0, rec0, rs, topo);
      }
      if o.Fine? {
        o, mods, rs := CleanAtAccesses(4, mods, g0, rec0, rs, topo);
      }
      if o.Fine? {
        o, mods, rs := CleanAtAccesses(5, mods, g0, rec0, rs, topo);
      }
      if o.Fine? && mods == 0 {
        NothingLeft(st.g, arrays);
      }
    }

    /** One state: the five scans, then dependency reconstruction in the order captured before them. */
    method CleanState(topo: Order)
      returns (o: Outcome, mods: nat, ghost rewritten: Graph, ghost rs: seq<Rewrite>)
      requires st.g.WellFormed() && st.g.Forward(topo) && Injective(topo)
      requires readers == map[] && writers == map[]
      modifies this, st
      ensures IsRun(old(st.g), arrays, rs, rewritten) && |rs| == mods
      ensures Now() == RecordedAll(old(st.g), arrays, rs, old(Now()))
      ensures KeepsReplacements(old(replacements), replacements)
      ensures st.g.WellFormed() && st.g.Forward(topo)
      ensures OnlyAdds(rewritten, st.g, Accesses(readers, writers), Accesses(readers, writers).Tasks(st.g.nodes.Keys), topo)
      ensures !o.Fine? ==> st.g == rewritten && Raises(st.g, arrays, elsewhere, replacements, o)
      ensures o.Fine? ==> forall s :: SlotOrdered(st.g, Accesses(readers, writers), s, topo)
      ensures o.Fine? && mods == 0 ==>
                st.g == old(st.g) && replacements == old(replacements) && NormalForm(st.g, arrays)
    {
      o, mods, rs := CleanPatterns(topo);
      rewritten := st.g;
      if o.Fine? {
        var acc := Accesses(readers, writers);
        Reconstruct(st, acc, topo);
        assert mods == 0 ==> acc.Tasks(st.g.nodes.Keys) == {};
      }
    }
  }
}
