/**
 The pass over all states of a program, and the loop that repeats it until nothing changes.
 Scalar privatization, which runs first each time, is any renaming of data containers.
 */
module CleaningPass {
  import opened Basics
  import opened StateGraph
  import opened Rewrites
  import opened Scheduling
  import opened States
  import opened Hazards
  import opened Cleaning

  // ---- renamings ----

  /** An edge without its container names: identity, ends, and whether it carries data. */
  datatype Bone = Bone(key: EdgeKey, src: Node, dst: Node, carries: bool)

  function BoneOf(e: Edge): Bone {
    Bone(e.key, e.src, e.dst, e.memlet.Move?)
  }

  function Skeleton(g: Graph): set<Bone> {
    set e | e in g.edges :: BoneOf(e)
  }

  /** h is g with other container names. */
  ghost predicate SameShape(g: Graph, h: Graph) {
    h.WellFormed() && h.nodes.Keys == g.nodes.Keys && Skeleton(h) == Skeleton(g)
  }

  ghost predicate IsRenaming(f: Graph -> Graph) {
    forall g: Graph {:trigger f(g)} :: g.WellFormed() ==> SameShape(g, f(g))
  }

  lemma KeysOfSkeleton(g: Graph)
    ensures g.DataKeys() == set b | b in Skeleton(g) && b.carries :: b.key
  {
    forall k | k in g.DataKeys() ensures k in set b | b in Skeleton(g) && b.carries :: b.key {
      var e :| e in g.edges && e.memlet.Move? && e.key == k;
      assert BoneOf(e) in Skeleton(g);
    }
  }

  lemma SameShapeKeepsKeys(g: Graph, h: Graph)
    requires SameShape(g, h)
    ensures h.DataKeys() == g.DataKeys()
  {
    KeysOfSkeleton(g);
    KeysOfSkeleton(h);
  }

  lemma SameShapeKeepsAcyclic(g: Graph, h: Graph)
    requires SameShape(g, h) && g.Acyclic()
    ensures h.Acyclic()
  {
    var topo: Order :| g.Forward(topo);
    forall f | f in h.edges ensures f.src in topo && f.dst in topo && topo[f.src] < topo[f.dst] {
      assert BoneOf(f) in Skeleton(h);
      var e :| e in g.edges && BoneOf(e) == BoneOf(f);
    }
    assert h.Forward(topo);
  }

  function RenamedMemlet(m: Memlet, replacements: map<string, Slot>): Memlet {
    if m.Move? && m.data in replacements then
      Move(replacements[m.data].data, Points(replacements[m.data].index), m.other)
    else m
  }

  function RenamedKind(k: Kind, replacements: map<string, Slot>): Kind {
    if k.Access? && k.data in replacements then Access(replacements[k.data].data) else k
  }

  /** All memlets and access nodes of replaced scalars now name the replacing slot. */
  function Renamed(g: Graph, replacements: map<string, Slot>): Graph {
    Graph(map n | n in g.nodes :: RenamedKind(g.nodes[n], replacements),
          set e | e in g.edges :: e.(memlet := RenamedMemlet(e.memlet, replacements)))
  }

  /** The first n states renamed. */
  function RenamedUpTo(states: seq<Graph>, replacements: map<string, Slot>, n: nat): (r: seq<Graph>)
    ensures |r| == |states|
  {
    seq(|states|, i requires 0 <= i < |states| => if i < n then Renamed(states[i], replacements) else states[i])
  }

  lemma RenamedStep(states: seq<Graph>, replacements: map<string, Slot>, i: nat)
    requires i < |states| && Sound(RenamedUpTo(states, replacements, i))
    ensures RenamedUpTo(states, replacements, i)[i] == states[i]
    ensures SameShape(states[i], Renamed(states[i], replacements))
    ensures RenamedUpTo(states, replacements, i + 1)
         == RenamedUpTo(states, replacements, i)[i := Renamed(states[i], replacements)]
  {
    assert Healthy(RenamedUpTo(states, replacements, i)[i]);
    RenamedHasSameShape(states[i], replacements);
  }

  lemma {:induction false} RenamedHasSameShape(g: Graph, replacements: map<string, Slot>)
    requires g.WellFormed()
    ensures SameShape(g, Renamed(g, replacements))
  {
    var h := Renamed(g, replacements);
    forall b | b in Skeleton(g) ensures b in Skeleton(h) {
      var e :| e in g.edges && BoneOf(e) == b;
      var f := e.(memlet := RenamedMemlet(e.memlet, replacements));
      assert f in h.edges && BoneOf(f) == b;
    }
  }

  // ---- what renaming does to names ----

  /** The containers that replace others. */
  function Targets(replacements: map<string, Slot>): set<string> {
    set c | c in replacements :: replacements[c].data
  }

  function EdgeRenamed(e: Edge, replacements: map<string, Slot>): Edge {
    e.(memlet := RenamedMemlet(e.memlet, replacements))
  }

  /** Access nodes of replaced containers name the replacing one, all other nodes are as before. */
  lemma NodesRenamed(g: Graph, replacements: map<string, Slot>, n: Node)
    requires n in g.nodes
    ensures n in Renamed(g, replacements).nodes
    ensures var k, k' := g.nodes[n], Renamed(g, replacements).nodes[n];
            if k.Access? && k.data in replacements then k'.Access? && k'.data == replacements[k.data].data else k' == k
  {
  }

  /** Edges keep identity, ends and connectors. Memlets of replaced containers name the replacing slot,
      point by point, and keep their other side; all other memlets are as before. */
  lemma EdgesRenamed(g: Graph, replacements: map<string, Slot>, e: Edge)
    requires e in g.edges
    ensures var f := EdgeRenamed(e, replacements);
            && f in Renamed(g, replacements).edges
            && f.key == e.key && f.src == e.src && f.srcConn == e.srcConn && f.dst == e.dst && f.dstConn == e.dstConn
            && (if e.memlet.Move? && e.memlet.data in replacements
                then f.memlet.Move? && SlotOf(f.memlet) == replacements[e.memlet.data] && f.memlet.other == e.memlet.other
                     && (forall k :: 0 <= k < |f.memlet.subset| ==> f.memlet.subset[k].re == f.memlet.subset[k].rb && f.memlet.subset[k].rs == 1)
                else f.memlet == e.memlet)
  {
    if e.memlet.Move? && e.memlet.data in replacements {
      var slot := replacements[e.memlet.data];
      assert Starts(Points(slot.index)) == slot.index;
    }
  }

  lemma EdgesAreRenamed(g: Graph, replacements: map<string, Slot>, f: Edge)
    requires f in Renamed(g, replacements).edges
    ensures exists e :: e in g.edges && f == EdgeRenamed(e, replacements)
  {
  }

  /** No replaced container is named any more, unless it replaces another one. */
  lemma ReplacedNamesAreGone(g: Graph, replacements: map<string, Slot>)
    ensures forall n :: n in Renamed(g, replacements).nodes && Renamed(g, replacements).nodes[n].Access?
                        && Renamed(g, replacements).nodes[n].data in replacements
                        ==> Renamed(g, replacements).nodes[n].data in Targets(replacements)
    ensures forall f :: f in Renamed(g, replacements).edges && f.memlet.Move? && f.memlet.data in replacements
                        ==> f.memlet.data in Targets(replacements)
  {
    var h := Renamed(g, replacements);
    forall n | n in h.nodes && h.nodes[n].Access? && h.nodes[n].data in replacements
      ensures h.nodes[n].data in Targets(replacements)
    {
      NodesRenamed(g, replacements, n);
    }
    forall f | f in h.edges && f.memlet.Move? && f.memlet.data in replacements
      ensures f.memlet.data in Targets(replacements)
    {
      EdgesAreRenamed(g, replacements, f);
      var e :| e in g.edges && f == EdgeRenamed(e, replacements);
      EdgesRenamed(g, replacements, e);
    }
  }

  /** A memlet that named the container at one of its ends still does. */
  lemma EndsStillNamed(g: Graph, replacements: map<string, Slot>, e: Edge)
    requires e in g.edges && e.memlet.Move?
    ensures var h, f := Renamed(g, replacements), EdgeRenamed(e, replacements);
            && f in h.edges && f.memlet.Move?
            && (g.IsAccess(e.src) && e.memlet.data == g.nodes[e.src].data
                ==> h.IsAccess(f.src) && f.memlet.data == h.nodes[f.src].data)
            && (g.IsAccess(e.dst) && e.memlet.data == g.nodes[e.dst].data
                ==> h.IsAccess(f.dst) && f.memlet.data == h.nodes[f.dst].data)
  {
    EdgesRenamed(g, replacements, e);
    if e.src in g.nodes {
      NodesRenamed(g, replacements, e.src);
    }
    if e.dst in g.nodes {
      NodesRenamed(g, replacements, e.dst);
    }
  }

  // ---- topological orders ----

  lemma {:induction false} SourceExists(g: Graph, todo: set<Node>, order: Order)
    requires g.Forward(order) && todo != {} && todo <= g.nodes.Keys
    ensures exists n :: n in todo && forall e :: e in g.edges && e.dst == n ==> e.src !in todo
  {
    EarliestExists(todo, order);
  }

  /** Some topological numbering of an acyclic state: every node after its predecessors. */
  method TopologicalOrder(g: Graph) returns (topo: Order)
    requires g.WellFormed() && g.Acyclic()
    ensures g.Forward(topo) && Injective(topo)
  {
    ghost var order: Order :| g.Forward(order);
    topo := map[];
    var todo := g.nodes.Keys;
    var next: nat := 0;
    while todo != {}
      invariant todo <= g.nodes.Keys && topo.Keys == g.nodes.Keys - todo
      invariant Injective(topo) && forall n :: n in topo ==> topo[n] < next
      invariant forall e :: e in g.edges && e.dst in topo ==> e.src in topo && topo[e.src] < topo[e.dst]
      decreases todo
    {
      SourceExists(g, todo, order);
      var n :| n in todo && forall e :: e in g.edges && e.dst == n ==> e.src !in todo;
      topo := topo[n := next];
      next := next + 1;
      todo := todo - {n};
    }
  }

  // ---- the program ----

  ghost predicate Healthy(g: Graph) {
    g.WellFormed() && g.Acyclic()
  }

  ghost predicate Sound(states: seq<Graph>) {
    forall i :: 0 <= i < |states| ==> Healthy(states[i])
  }

  /** Number of data-carrying edges of the whole program. */
  function Total(states: seq<Graph>): nat {
    if states == [] then 0 else |states[0].DataKeys()| + Total(states[1..])
  }

  lemma {:induction false} TotalUpdate(states: seq<Graph>, i: nat, g: Graph)
    requires i < |states|
    ensures Total(states[i := g]) + |states[i].DataKeys()| == Total(states) + |g.DataKeys()|
  {
    if i > 0 {
      TotalUpdate(states[1..], i - 1, g);
      assert states[i := g][1..] == states[1..][i - 1 := g];
    } else {
      assert states[0 := g][1..] == states[1..];
    }
  }

  lemma ReplaceState(states: seq<Graph>, i: nat, g: Graph, spent: nat)
    requires i < |states| && Sound(states) && Healthy(g)
    requires |g.DataKeys()| + spent <= |states[i].DataKeys()|
    ensures Sound(states[i := g]) && Total(states[i := g]) + spent <= Total(states)
  {
    TotalUpdate(states, i, g);
  }

  lemma RenameState(states: seq<Graph>, i: nat, g: Graph)
    requires i < |states| && Sound(states) && SameShape(states[i], g)
    ensures Sound(states[i := g]) && Total(states[i := g]) <= Total(states)
  {
    SameShapeKeepsKeys(states[i], g);
    assert Healthy(states[i]);
    SameShapeKeepsAcyclic(states[i], g);
    ReplaceState(states, i, g, 0);
  }

  function WrittenElsewhere(states: seq<Graph>, i: nat): set<string> {
    set j, name | 0 <= j < |states| && j != i && name in WrittenNames(states[j]) :: name
  }

  // ---- what a pass does ----

  /** The accesses that a run of rewrites records. */
  ghost function Tracked(g: Graph, arrays: string -> Descriptor, rs: seq<Rewrite>, log: map<string, Slot>): Accesses {
    var rec := RecordedAll(g, arrays, rs, Records(map[], map[], log));
    Accesses(rec.readers, rec.writers)
  }

  /** Cleaning one state: a run of rewrites, then (unless one of them raised an exception) ordering
      edges for every conflict between the tasklets that the run recorded. */
  ghost predicate CleanedBy(g: Graph, arrays: string -> Descriptor, o: Outcome, g': Graph,
                            log: map<string, Slot>, log': map<string, Slot>,
                            topo: Order, rs: seq<Rewrite>, rewritten: Graph) {
    var acc := Tracked(g, arrays, rs, log);
    && g.Forward(topo) && Injective(topo) && IsRun(g, arrays, rs, rewritten)
    && log' == RecordedAll(g, arrays, rs, Records(map[], map[], log)).replacements
    && g'.WellFormed() && g'.Forward(topo) && OnlyAdds(rewritten, g', acc, acc.Tasks(g'.nodes.Keys), topo)
    && (if o.Fine? then forall s :: SlotOrdered(g', acc, s, topo) else g' == rewritten)
  }

  ghost predicate Cleaned(g: Graph, arrays: string -> Descriptor, o: Outcome, mods: nat, g': Graph,
                          log: map<string, Slot>, log': map<string, Slot>) {
    exists topo: Order, rs: seq<Rewrite>, rewritten ::
      |rs| == mods && CleanedBy(g, arrays, o, g', log, log', topo, rs, rewritten)
  }

  /** Every schedule of a cleaned state computes, on the recorded accesses, what the order captured
      before cleaning computes. */
  lemma CleanedSchedulesAgree(g: Graph, arrays: string -> Descriptor, g': Graph,
                              log: map<string, Slot>, log': map<string, Slot>,
                              topo: Order, rs: seq<Rewrite>, rewritten: Graph,
                              original: seq<Node>, order: seq<Node>, prog: Behaviour, m: Machine)
    requires CleanedBy(g, arrays, Fine, g', log, log', topo, rs, rewritten)
    requires var acc := Tracked(g, arrays, rs, log);
             IsOriginal(acc.Tasks(g'.nodes.Keys), topo, original) && IsSchedule(g', acc, order)
    ensures var acc := Tracked(g, arrays, rs, log);
            Run(acc, prog, order, m) == Run(acc, prog, original, m) && IsSchedule(g', acc, original)
  {
    var acc := Tracked(g, arrays, rs, log);
    ScheduleIndependence(g', acc, topo, original, order, prog, m);
    OriginalIsSchedule(g', acc.Tasks(g'.nodes.Keys), topo, original);
  }

  /** One pass in stages: renamed apart, scanned state by state, replaced containers renamed. */
  datatype Trace = Trace(privatized: seq<Graph>, cleaned: seq<Graph>, logs: seq<map<string, Slot>>, counts: seq<nat>)

  /** The first n states privatized. */
  function PrivatizedUpTo(states: seq<Graph>, privatize: Graph -> Graph, n: nat): (r: seq<Graph>)
    ensures |r| == |states|
  {
    seq(|states|, i requires 0 <= i < |states| => if i < n then privatize(states[i]) else states[i])
  }

  lemma PrivatizedStep(states: seq<Graph>, privatize: Graph -> Graph, i: nat)
    requires i < |states| && Sound(PrivatizedUpTo(states, privatize, i)) && IsRenaming(privatize)
    ensures PrivatizedUpTo(states, privatize, i)[i] == states[i]
    ensures SameShape(states[i], privatize(states[i]))
    ensures PrivatizedUpTo(states, privatize, i + 1)
         == PrivatizedUpTo(states, privatize, i)[i := privatize(states[i])]
  {
    assert Healthy(PrivatizedUpTo(states, privatize, i)[i]);
  }

  function Sum(counts: seq<nat>): nat {
    if counts == [] then 0 else Sum(counts[..|counts| - 1]) + counts[|counts| - 1]
  }

  /** The first states have been cleaned, one per count; only the last of them can have raised o. */
  ghost predicate Scanned(tr: Trace, arrays: string -> Descriptor, o: Outcome) {
    && |tr.cleaned| == |tr.privatized| && |tr.counts| <= |tr.cleaned| && |tr.logs| == |tr.counts| + 1
    && tr.logs[0] == map[]
    && (forall j :: 0 <= j < |tr.counts| ==>
          Cleaned(tr.privatized[j], arrays, if j == |tr.counts| - 1 then o else Fine, tr.counts[j], tr.cleaned[j],
                  tr.logs[j], tr.logs[j + 1]))
    && (forall j :: |tr.counts| <= j < |tr.cleaned| ==> tr.cleaned[j] == tr.privatized[j])
  }

  lemma CleanedIsSound(states: seq<Graph>, i: nat, arrays: string -> Descriptor, o: Outcome, g': Graph,
                       log: map<string, Slot>, log': map<string, Slot>,
                       topo: Order, rs: seq<Rewrite>, rewritten: Graph)
    requires i < |states| && Sound(states)
    requires CleanedBy(states[i], arrays, o, g', log, log', topo, rs, rewritten)
    ensures Sound(states[i := g']) && Total(states[i := g']) + |rs| <= Total(states)
    ensures Cleaned(states[i], arrays, o, |rs|, g', log, log')
    ensures WrittenElsewhere(states[i := g'], i) == WrittenElsewhere(states, i)
  {
    assert Healthy(states[i]) && g'.Forward(topo);
    RunInvariant(states[i], arrays, rs, rewritten, topo);
    OrderingCarriesNoData(rewritten, g');
    ReplaceState(states, i, g', |rs|);
    OthersUnchanged(states, i, g');
  }

  lemma OthersUnchanged(states: seq<Graph>, i: nat, g: Graph)
    requires i < |states|
    ensures WrittenElsewhere(states[i := g], i) == WrittenElsewhere(states, i)
  {
    var states' := states[i := g];
    forall j, name | 0 <= j < |states| && j != i
      ensures name in WrittenNames(states'[j]) <==> name in WrittenNames(states[j])
    {
    }
  }

  lemma ScanStarts(tr: Trace, arrays: string -> Descriptor)
    requires tr.cleaned == tr.privatized && tr.logs == [map[]] && tr.counts == []
    ensures Scanned(tr, arrays, Fine)
  {
  }

  lemma ScanOne(tr: Trace, arrays: string -> Descriptor, o: Outcome, i: nat, g: Graph, m: nat, log: map<string, Slot>)
    requires Scanned(tr, arrays, Fine) && i == |tr.counts| < |tr.cleaned|
    requires |tr.logs| == i + 1 && Cleaned(tr.cleaned[i], arrays, o, m, g, tr.logs[i], log)
    ensures Scanned(tr.(cleaned := tr.cleaned[i := g], logs := tr.logs + [log], counts := tr.counts + [m]), arrays, o)
    ensures Sum(tr.counts + [m]) == Sum(tr.counts) + m
  {
    hide Cleaned;
    assert (tr.counts + [m])[..i] == tr.counts;
    var tr' := tr.(cleaned := tr.cleaned[i := g], logs := tr.logs + [log], counts := tr.counts + [m]);
    forall j | 0 <= j < i + 1
      ensures Cleaned(tr'.privatized[j], arrays, if j == i then o else Fine, tr'.counts[j], tr'.cleaned[j],
                      tr'.logs[j], tr'.logs[j + 1])
    {
      if j < i {
        assert tr'.counts[j] == tr.counts[j] && tr'.cleaned[j] == tr.cleaned[j];
        assert tr'.logs[j] == tr.logs[j] && tr'.logs[j + 1] == tr.logs[j + 1];
        assert Cleaned(tr.privatized[j], arrays, Fine, tr.counts[j], tr.cleaned[j], tr.logs[j], tr.logs[j + 1]);
      }
    }
  }

  ghost predicate IsPassBy(before: seq<Graph>, after: seq<Graph>, arrays: string -> Descriptor,
                           privatize: Graph -> Graph, o: Outcome, mods: nat, tr: Trace) {
    && tr.privatized == PrivatizedUpTo(before, privatize, |before|)
    && Scanned(tr, arrays, o)
    && mods == Sum(tr.counts)
    && (if o.Fine? then
          |tr.counts| == |before| && after == RenamedUpTo(tr.cleaned, tr.logs[|tr.counts|], |before|)
        else after == tr.cleaned)
  }

  ghost predicate IsPass(before: seq<Graph>, after: seq<Graph>, arrays: string -> Descriptor,
                         privatize: Graph -> Graph, o: Outcome, mods: nat) {
    exists tr :: IsPassBy(before, after, arrays, privatize, o, mods, tr)
  }

  lemma NothingToRename(states: seq<Graph>)
    ensures RenamedUpTo(states, map[], |states|) == states
  {
    forall i | 0 <= i < |states| ensures Renamed(states[i], map[]) == states[i] {
      var g, h := states[i], Renamed(states[i], map[]);
      forall e | e in g.edges ensures e in h.edges {
        assert e == e.(memlet := RenamedMemlet(e.memlet, map[]));
      }
      assert h.nodes == g.nodes && h.edges == g.edges;
    }
  }

  /** Something in these states raises o. */
  ghost predicate SomeStateRaises(states: seq<Graph>, arrays: string -> Descriptor, o: Outcome) {
    exists i, log :: 0 <= i < |states| && Raises(states[i], arrays, WrittenElsewhere(states, i), log, o)
  }

  /** A repetition of passes: each starts where the previous one ended, only the last one changes
      nothing or raises o. */
  ghost predicate IsHistory(history: seq<seq<Graph>>, counts: seq<nat>, arrays: string -> Descriptor,
                            privatize: Graph -> Graph, o: Outcome) {
    && |history| == |counts| + 1
    && (forall k :: 0 <= k < |counts| ==>
          IsPass(history[k], history[k + 1], arrays, privatize, if k == |counts| - 1 then o else Fine, counts[k]))
    && (forall k :: 0 <= k < |counts| - 1 ==> counts[k] > 0)
  }

  lemma HistoryStarts(states: seq<Graph>, arrays: string -> Descriptor, privatize: Graph -> Graph)
    ensures IsHistory([states], [], arrays, privatize, Fine) && Sum([]) == 0
  {
  }

  lemma HistorySnoc(history: seq<seq<Graph>>, counts: seq<nat>, arrays: string -> Descriptor,
                    privatize: Graph -> Graph, o: Outcome, states: seq<Graph>, mods: nat)
    requires IsHistory(history, counts, arrays, privatize, Fine) && (counts != [] ==> counts[|counts| - 1] > 0)
    requires |history| == |counts| + 1
    requires IsPass(history[|counts|], states, arrays, privatize, o, mods)
    ensures IsHistory(history + [states], counts + [mods], arrays, privatize, o)
    ensures Sum(counts + [mods]) == Sum(counts) + mods
  {
    hide IsPass;
    var history', counts', n := history + [states], counts + [mods], |counts|;
    assert counts'[..n] == counts;
    forall k | 0 <= k < |counts'|
      ensures IsPass(history'[k], history'[k + 1], arrays, privatize, if k == n then o else Fine, counts'[k])
    {
      if k < n {
        assert IsPass(history[k], history[k + 1], arrays, privatize, Fine, counts[k]);
        assert history'[k] == history[k] && history'[k + 1] == history[k + 1] && counts'[k] == counts[k];
      }
    }
  }

  /** The containers written in the other states, by any access node with incoming edges. */
  lemma WrittenElsewhereIff(states: seq<Graph>, i: nat, name: string)
    requires i < |states|
    ensures name in WrittenElsewhere(states, i) <==>
            exists j: nat, n: Node :: j < |states| && j != i && IsWriter(states[j], name, n)
  {
    if name in WrittenElsewhere(states, i) {
      var j :| 0 <= j < |states| && j != i && name in WrittenNames(states[j]);
      var n :| n in states[j].nodes && states[j].nodes[n].Access? && states[j].InEdges(n) != {} && states[j].nodes[n].data == name;
      assert IsWriter(states[j], name, n);
    }
    if j: nat, n: Node :| j < |states| && j != i && IsWriter(states[j], name, n) {
      assert name in WrittenNames(states[j]);
    }
  }

  class Program {
    const arrays: string -> Descriptor
    const privatize: Graph -> Graph
    var states: seq<Graph>

    constructor (states: seq<Graph>, arrays: string -> Descriptor, privatize: Graph -> Graph)
      ensures this.states == states && this.arrays == arrays && this.privatize == privatize
    {
      this.states, this.arrays, this.privatize := states, arrays, privatize;
    }

    method Rename(i: nat, g: Graph)
      requires i < |states| && Sound(states) && SameShape(states[i], g)
      modifies this
      ensures states == old(states)[i := g] && Sound(states) && Total(states) <= Total(old(states))
    {
      RenameState(states, i, g);
      states := states[i := g];
    }

    method PrivatizeScalars()
      requires Sound(states) && IsRenaming(privatize)
      modifies this
      ensures Sound(states) && Total(states) <= Total(old(states))
      ensures states == PrivatizedUpTo(old(states), privatize, |old(states)|)
    {
      ghost var was := states;
      for i := 0 to |states|
        invariant |states| == |was| && states == PrivatizedUpTo(was, privatize, i)
        invariant Sound(states) && Total(states) <= Total(was)
      {
        PrivatizedStep(was, privatize, i);
        Rename(i, privatize(states[i]));
      }
    }

    method RenameReplaced(replacements: map<string, Slot>)
      requires Sound(states)
      modifies this
      ensures Sound(states) && Total(states) <= Total(old(states))
      ensures states == RenamedUpTo(old(states), replacements, |old(states)|)
    {
      ghost var was := states;
      for i := 0 to |states|
        invariant |states| == |was| && states == RenamedUpTo(was, replacements, i)
        invariant Sound(states) && Total(states) <= Total(was)
      {
        RenamedStep(was, replacements, i);
        Rename(i, Renamed(states[i], replacements));
      }
    }

    /** Cleans state i. */
    method CleanOne(i: nat, replacements: map<string, Slot>)
      returns (o: Outcome, mods: nat, replacements': map<string, Slot>)
      requires i < |states| && Sound(states)
      modifies this
      ensures |states| == |old(states)| && states == old(states)[i := states[i]] && Sound(states)
      ensures Total(states) + mods <= Total(old(states))
      ensures Cleaned(old(states)[i], arrays, o, mods, states[i], replacements, replacements')
      ensures !o.Fine? ==> Raises(states[i], arrays, WrittenElsewhere(states, i), replacements', o)
      ensures o.Fine? && mods == 0 ==> replacements' == replacements && NormalForm(states[i], arrays)
    {
      hide RecordedAll, SlotOrdered, OnlyAdds, Raises, NormalForm, IsRun, WrittenElsewhere, Cleaned;
      assert Healthy(states[i]);
      var topo := TopologicalOrder(states[i]);
      var st := new State(states[i]);
      var cleaner := new Cleaner(st, arrays, WrittenElsewhere(states, i), replacements);
      ghost var rewritten, rs;
      o, mods, rewritten, rs := cleaner.CleanState(topo);
      replacements' := cleaner.replacements;
      assert CleanedBy(states[i], arrays, o, st.g, replacements, replacements', topo, rs, rewritten);
      CleanedIsSound(states, i, arrays, o, st.g, replacements, replacements', topo, rs, rewritten);
      states := states[i := st.g];
    }

    /** One pass over all states. Every counted modification costs a data-carrying edge, and a pass
        that counts none leaves every state in normal form. */
    method ApplyOnce() returns (o: Outcome, mods: nat)
      requires Sound(states) && IsRenaming(privatize)
      modifies this
      ensures IsPass(old(states), states, arrays, privatize, o, mods)
      ensures !o.Fine? ==> SomeStateRaises(states, arrays, o)
      ensures Sound(states) && |states| == |old(states)|
      ensures Total(states) + mods <= Total(old(states))
      ensures o.Fine? && mods == 0 ==> forall i :: 0 <= i < |states| ==> NormalForm(states[i], arrays)
    {
      hide Cleaned, Raises, NormalForm, Scanned, IsRenaming, Sound, WrittenElsewhere;
      PrivatizeScalars();
      o, mods := Fine, 0;
      var replacements: map<string, Slot> := map[];
      ghost var tr := Trace(states, states, [replacements], []);
      ScanStarts(tr, arrays);
      for i := 0 to |states|
        invariant Sound(states) && |states| == |old(states)| && o.Fine?
        invariant tr.privatized == PrivatizedUpTo(old(states), privatize, |old(states)|) && tr.cleaned == states
        invariant Scanned(tr, arrays, Fine) && |tr.counts| == i && mods == Sum(tr.counts)
        invariant |tr.logs| == i + 1 && tr.logs[i] == replacements
        invariant Total(states) + mods <= Total(old(states))
        invariant mods == 0 ==> replacements == map[]
        invariant mods == 0 ==> forall j :: 0 <= j < i ==> NormalForm(states[j], arrays)
      {
        var m;
        o, m, replacements := CleanOne(i, replacements);
        ScanOne(tr, arrays, o, i, states[i], m, replacements);
        tr := tr.(cleaned := states, logs := tr.logs + [replacements], counts := tr.counts + [m]);
        mods := mods + m;
        if !o.Fine? {
          assert IsPassBy(old(states), states, arrays, privatize, o, mods, tr);
          return;
        }
      }
      if replacements != map[] {
        RenameReplaced(replacements);
      } else {
        NothingToRename(states);
      }
      assert IsPassBy(old(states), states, arrays, privatize, o, mods, tr);
    }

    /** Repeats the pass until it changes nothing. It stops after at most as many modifications as
        there were data-carrying edges, with every state acyclic and no pattern left to apply. */
    method ApplyPass() returns (o: Outcome, result: Option<nat>, ghost history: seq<seq<Graph>>, ghost counts: seq<nat>)
      requires Sound(states) && IsRenaming(privatize)
      modifies this
      ensures IsHistory(history, counts, arrays, privatize, o) && counts != [] && |history| == |counts| + 1
      ensures history[0] == old(states) && history[|counts|] == states
      ensures o.Fine? ==> counts[|counts| - 1] == 0
      ensures result == if o.Fine? && Sum(counts) > 0 then Some(Sum(counts)) else None
      ensures !o.Fine? ==> SomeStateRaises(states, arrays, o)
      ensures Sound(states) && |states| == |old(states)|
      ensures Total(states) + Sum(counts) <= Total(old(states))
      ensures o.Fine? ==> forall i :: 0 <= i < |states| ==> NormalForm(states[i], arrays)
    {
      hide IsPass, IsHistory, NormalForm, SomeStateRaises, IsRenaming, Sound, Total, Sum;
      var total: nat, mods: nat := 0, 1;
      o, history, counts := Fine, [states], [];
      HistoryStarts(states, arrays, privatize);
      while mods != 0
        invariant Sound(states) && |states| == |old(states)| && o.Fine?
        invariant IsHistory(history, counts, arrays, privatize, Fine) && total == Sum(counts)
        invariant |history| == |counts| + 1 && history[0] == old(states) && history[|counts|] == states
        invariant mods == if counts == [] then 1 else counts[|counts| - 1]
        invariant Total(states) + total <= Total(old(states))
        invariant mods == 0 ==> forall i :: 0 <= i < |states| ==> NormalForm(states[i], arrays)
        decreases Total(states) + if mods == 0 then 0 else 1, mods
      {
        o, mods := ApplyOnce();
        HistorySnoc(history, counts, arrays, privatize, o, states, mods);
        history, counts := history + [states], counts + [mods];
        if !o.Fine? {
          return o, None, history, counts;
        }
        total := total + mods;
      }
      result := if total > 0 then Some(total) else None;
    }
  }

  lemma OrderingCarriesNoData(g: Graph, g': Graph)
    requires g.edges <= g'.edges
    requires forall e :: e in g'.edges && e !in g.edges ==> e == OrderingEdge(e.src, e.dst)
    ensures g'.DataKeys() == g.DataKeys()
  {
  }
}
