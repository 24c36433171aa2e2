/**
 The five contractions of the clean-up pass, as functions on a graph value. Each one removes a
 chain that starts with a `first` edge, re-attaches the `last` edges of the chain to the source of
 the first one, and drops the nodes that were bypassed.
 */
module Rewrites {
  import opened Basics
  import opened StateGraph

  datatype Rewrite =
    /** tasklet -> scalar -> assign tasklet -> map exit; `exit` is the exit's first out-edge. */
    | ThroughAssignToExit(ie0: Edge, ie1: Edge, ie2: Edge, exit: Option<Edge>)
    /** map entry -> scalar -> tasklets. */
    | EntryScalar(oe1: Edge)
    /** access -> transient access -> anything. */
    | CopyToTransient(ie: Edge)
    /** tasklet -> scalar -> access. */
    | ScalarWrite(ie: Edge, oe: Edge)
    /** tasklet -> scalar -> assign tasklet -> access. */
    | AssignWrite(ie: Edge, oe: Edge, oe2: Edge)

  predicate TransientScalar(g: Graph, arrays: string -> Descriptor, n: Node) {
    g.IsAccess(n) && arrays(g.nodes[n].data).transient && arrays(g.nodes[n].data).scalar
  }

  function First(r: Rewrite): Edge {
    match r
    case ThroughAssignToExit(ie0, _, _, _) => ie0
    case EntryScalar(oe1) => oe1
    case CopyToTransient(ie) => ie
    case ScalarWrite(ie, _) => ie
    case AssignWrite(ie, _, _) => ie
  }

  /** The transient access node that the rewrite bypasses. */
  function Via(r: Rewrite): Node {
    First(r).dst
  }

  /** Edges of the chain strictly between the first and the last ones. */
  function Middle(r: Rewrite): set<Edge> {
    match r
    case ThroughAssignToExit(_, ie1, _, _) => {ie1}
    case AssignWrite(_, oe, _) => {oe}
    case _ => {}
  }

  function Lasts(g: Graph, r: Rewrite): set<Edge> {
    match r
    case ThroughAssignToExit(_, _, ie2, _) => {ie2}
    case EntryScalar(_) => g.OutEdges(Via(r))
    case CopyToTransient(_) => g.OutEdges(Via(r))
    case ScalarWrite(_, oe) => {oe}
    case AssignWrite(_, _, oe2) => {oe2}
  }

  predicate Applicable(g: Graph, arrays: string -> Descriptor, r: Rewrite) {
    && First(r) in g.edges
    && MovesOneElement(First(r))
    && First(r).src in g.nodes
    && g.InEdges(Via(r)) == {First(r)}
    && match r
       case ThroughAssignToExit(ie0, ie1, ie2, exit) =>
         && g.IsTasklet(ie0.src)
         && TransientScalar(g, arrays, ie0.dst)
         && ie1 in g.edges && ie1.src == ie0.dst && MovesOneElement(ie1)
         && g.InEdges(ie1.dst) == {ie1} && g.IsTasklet(ie1.dst) && IsAssign(g.nodes[ie1.dst])
         && ie2 in g.edges && ie2.src == ie1.dst && MovesOneElement(ie2)
         && ie2.dst in g.nodes && g.nodes[ie2.dst] == MapExit
         && (if exit.None? then g.OutEdges(ie2.dst) == {} else exit.value in g.OutEdges(ie2.dst))
       case EntryScalar(oe1) =>
         && g.nodes[oe1.src] == MapEntry
         && TransientScalar(g, arrays, oe1.dst)
         && (forall o :: o in g.OutEdges(oe1.dst) ==> g.IsTasklet(o.dst) && MovesOneElement(o))
       case CopyToTransient(ie) =>
         && g.IsAccess(ie.src)
         && g.IsAccess(ie.dst) && arrays(g.nodes[ie.dst].data).transient
         && (forall o :: o in g.OutEdges(ie.dst) ==> MovesOneElement(o))
       case ScalarWrite(ie, oe) =>
         && g.IsTasklet(ie.src)
         && TransientScalar(g, arrays, ie.dst)
         && g.OutEdges(ie.dst) == {oe} && MovesOneElement(oe) && g.IsAccess(oe.dst)
       case AssignWrite(ie, oe, oe2) =>
         && g.IsTasklet(ie.src)
         && TransientScalar(g, arrays, ie.dst)
         && g.OutEdges(ie.dst) == {oe} && MovesOneElement(oe)
         && g.IsTasklet(oe.dst) && IsAssign(g.nodes[oe.dst])
         && g.InEdges(oe.dst) == {oe} && g.OutEdges(oe.dst) == {oe2}
         && g.IsAccess(oe2.dst) && MovesOneElement(oe2)
  }

  /** Every edge of a match is there and moves one element; the bypassed node is a transient container that
      nothing else enters, and a scalar unless it is a copy of another container. */
  lemma {:induction false} MatchMovesOneElement(g: Graph, arrays: string -> Descriptor, r: Rewrite, e: Edge)
    requires Applicable(g, arrays, r) && (e == First(r) || e in Middle(r) || e in Lasts(g, r))
    ensures e in g.edges && MovesOneElement(e)
    ensures g.IsAccess(Via(r)) && arrays(g.nodes[Via(r)].data).transient && g.InEdges(Via(r)) == {First(r)}
    ensures arrays(g.nodes[Via(r)].data).scalar || (r.CopyToTransient? && g.IsAccess(First(r).src))
  {
    match r
    case ThroughAssignToExit(_, _, _, _) =>
    case EntryScalar(_) => assert e != First(r) ==> e in g.OutEdges(Via(r));
    case CopyToTransient(_) => assert e != First(r) ==> e in g.OutEdges(Via(r));
    case ScalarWrite(ie, oe) => assert oe in g.OutEdges(ie.dst);
    case AssignWrite(ie, oe, oe2) => assert oe in g.OutEdges(ie.dst) && oe2 in g.OutEdges(oe.dst);
  }

  /** What a match joins: in pattern 2 a map entry with tasklets, in pattern 3 an access node with anything, in
      the others a tasklet with an access node or, in pattern 1, a map exit. A tasklet inside copies one of its
      inputs to one of its outputs, and has no other input. */
  lemma {:induction false} MatchJoins(g: Graph, arrays: string -> Descriptor, r: Rewrite, o: Edge)
    requires Applicable(g, arrays, r) && o in Lasts(g, r)
    ensures var from := g.nodes[First(r).src];
            if r.EntryScalar? then from == MapEntry && g.IsTasklet(o.dst)
            else if r.CopyToTransient? then from.Access?
            else from.Tasklet? && (if r.ThroughAssignToExit? then o.dst in g.nodes && g.nodes[o.dst] == MapExit else g.IsAccess(o.dst))
    ensures forall m :: m in Middle(r) ==>
              && m.src == Via(r) && o.src == m.dst && g.InEdges(m.dst) == {m}
              && g.IsTasklet(m.dst) && g.nodes[m.dst].code.Assign?
              && g.nodes[m.dst].code.source in g.nodes[m.dst].ins && g.nodes[m.dst].code.target in g.nodes[m.dst].outs
    ensures Middle(r) == {} ==> o.src == Via(r)
    ensures r.ThroughAssignToExit? ==> if g.OutEdges(o.dst) == {} then r.exit == None
                                       else r.exit.Some? && r.exit.value in g.edges && r.exit.value.src == o.dst
    ensures r.ScalarWrite? || r.AssignWrite? ==> g.OutEdges(o.src) == {o} && (Middle(r) == {} || g.OutEdges(Via(r)) == Middle(r))
  {
    match r
    case ThroughAssignToExit(_, _, _, _) =>
    case EntryScalar(_) => assert o in g.OutEdges(Via(r));
    case CopyToTransient(_) => assert o in g.OutEdges(Via(r));
    case ScalarWrite(ie, oe) => assert oe in g.OutEdges(ie.dst);
    case AssignWrite(ie, oe, oe2) => assert oe in g.OutEdges(ie.dst) && oe2 in g.OutEdges(oe.dst);
  }

  /** A bounding box with no empty dimension holds one element exactly when every dimension is one index. */
  lemma {:induction false} OneElementIff(subset: seq<Dim>)
    requires forall k :: 0 <= k < |subset| ==> subset[k].rb <= subset[k].re
    ensures NumElements(subset) >= 1
    ensures NumElements(subset) == 1 <==> forall k :: 0 <= k < |subset| ==> subset[k].rb == subset[k].re
  {
    if subset != [] {
      var rest := subset[1..];
      OneElementIff(rest);
      assert forall k :: 1 <= k < |subset| ==> subset[k] == rest[k - 1];
      AtLeastFactor(subset[0].re - subset[0].rb + 1, NumElements(rest));
    }
  }

  lemma AtLeastFactor(x: int, y: int)
    requires x >= 1 && y >= 1
    ensures x * y >= x && x * y >= y
  {
  }

  /** The memlet that the re-attached edge gets. */
  function NewMemlet(g: Graph, r: Rewrite, o: Edge): Memlet
    requires r.CopyToTransient? ==> o.memlet.Move? && r.ie.memlet.Move? && g.IsAccess(r.ie.src)
  {
    match r
    case EntryScalar(oe1) => oe1.memlet
    case CopyToTransient(ie) =>
      Move(g.nodes[ie.src].data, Points(Starts(ie.memlet.subset)), o.memlet.other)
    case _ => o.memlet
  }

  function Reattach(g: Graph, r: Rewrite, o: Edge): Edge
    requires r.CopyToTransient? ==> o.memlet.Move? && r.ie.memlet.Move? && g.IsAccess(r.ie.src)
  {
    o.(src := First(r).src, srcConn := First(r).srcConn, memlet := NewMemlet(g, r, o))
  }

  /** Nodes that always disappear. */
  function Dropped(r: Rewrite): set<Node> {
    match r
    case ThroughAssignToExit(_, _, _, _) => {}
    case AssignWrite(_, oe, _) => {Via(r), oe.dst}
    case _ => {Via(r)}
  }

  /** Nodes that disappear when no edge is left at them. */
  function DroppedIfIsolated(r: Rewrite): set<Node> {
    match r
    case ThroughAssignToExit(_, ie1, _, _) => {ie1.dst, Via(r)}
    case EntryScalar(oe1) => {oe1.src}
    case CopyToTransient(ie) => {ie.src}
    case _ => {}
  }

  function Spliced(g: Graph, arrays: string -> Descriptor, r: Rewrite): set<Edge>
    requires Applicable(g, arrays, r)
  {
    g.edges - {First(r)} - Middle(r) - Lasts(g, r) + set o | o in Lasts(g, r) :: Reattach(g, r, o)
  }

  /** The graph after the rewrite. */
  function Apply(g: Graph, arrays: string -> Descriptor, r: Rewrite): Graph
    requires Applicable(g, arrays, r)
  {
    var edges := Spliced(g, arrays, r);
    var kept := Graph(g.nodes - Dropped(r), edges);
    Graph(kept.nodes - (set n | n in DroppedIfIsolated(r) && kept.Isolated(n)), edges)
  }

  // ---- what every rewrite keeps ----

  /** The first and last edges of the chain are in order: chain source before every chain target. */
  lemma ChainGoesForward(g: Graph, arrays: string -> Descriptor, r: Rewrite, topo: Order, o: Edge)
    requires Applicable(g, arrays, r) && g.Forward(topo) && o in Lasts(g, r)
    ensures o in g.edges && First(r).src in topo && topo[First(r).src] < topo[o.dst]
    ensures o.memlet.Move? && o != First(r) && o !in Middle(r)
    ensures o.dst !in Dropped(r) && First(r).src !in Dropped(r)
  {
    match r
    case ThroughAssignToExit(ie0, ie1, ie2, _) =>
    case EntryScalar(oe1) =>
    case CopyToTransient(ie) =>
    case ScalarWrite(ie, oe) =>
      assert oe in g.OutEdges(ie.dst);
    case AssignWrite(ie, oe, oe2) =>
      assert oe in g.OutEdges(ie.dst) && oe2 in g.OutEdges(oe.dst);
  }

  lemma MiddleIsData(g: Graph, arrays: string -> Descriptor, r: Rewrite, m: Edge)
    requires Applicable(g, arrays, r) && m in Middle(r)
    ensures m in g.edges && m.memlet.Move?
  {
    if r.AssignWrite? {
      assert r.oe in g.OutEdges(r.ie.dst);
    }
  }

  /** Nothing is left at a node that is always dropped. */
  lemma DroppedIsIsolated(g: Graph, arrays: string -> Descriptor, r: Rewrite, topo: Order, e: Edge)
    requires Applicable(g, arrays, r) && g.Forward(topo) && e in Spliced(g, arrays, r)
    ensures e.src !in Dropped(r) && e.dst !in Dropped(r)
  {
    if o :| o in Lasts(g, r) && e == Reattach(g, r, o) {
      ChainGoesForward(g, arrays, r, topo, o);
    } else {
      assert e in g.edges && e != First(r) && e !in Middle(r) && e !in Lasts(g, r);
      assert e !in g.InEdges(Via(r));
      match r
      case ThroughAssignToExit(_, _, _, _) =>
      case EntryScalar(_) => assert e !in g.OutEdges(Via(r));
      case CopyToTransient(_) => assert e !in g.OutEdges(Via(r));
      case ScalarWrite(_, oe) => assert e !in g.OutEdges(Via(r));
      case AssignWrite(_, oe, oe2) =>
        assert e !in g.OutEdges(Via(r)) && e !in g.InEdges(oe.dst) && e !in g.OutEdges(oe.dst);
    }
  }

  lemma {:induction false} ApplyKeepsForward(g: Graph, arrays: string -> Descriptor, r: Rewrite, topo: Order)
    requires Applicable(g, arrays, r) && g.Forward(topo)
    ensures Apply(g, arrays, r).Forward(topo)
  {
    forall e | e in Spliced(g, arrays, r)
      ensures e.src in topo && e.dst in topo && topo[e.src] < topo[e.dst]
    {
      if o :| o in Lasts(g, r) && e == Reattach(g, r, o) {
        ChainGoesForward(g, arrays, r, topo, o);
      }
    }
  }

  lemma {:induction false} ApplyKeepsWellFormed(g: Graph, arrays: string -> Descriptor, r: Rewrite, topo: Order)
    requires Applicable(g, arrays, r) && g.WellFormed() && g.Forward(topo)
    ensures Apply(g, arrays, r).WellFormed()
  {
    var g' := Apply(g, arrays, r);
    forall e | e in g'.edges
      ensures e.src in g'.nodes && e.dst in g'.nodes
      ensures e.key.Ordering? ==> e == OrderingEdge(e.key.from, e.key.to)
      ensures exists o :: o in g.edges && o.key == e.key && (o == e || o in Lasts(g, r))
    {
      DroppedIsIsolated(g, arrays, r, topo, e);
      if o :| o in Lasts(g, r) && e == Reattach(g, r, o) {
        ChainGoesForward(g, arrays, r, topo, o);
      }
    }
    forall e, f | e in g'.edges && f in g'.edges && e.key == f.key
      ensures e == f
    {
      SameKeySameEdge(g, arrays, r, topo, e, f);
    }
  }

  lemma SameKeySameEdge(g: Graph, arrays: string -> Descriptor, r: Rewrite, topo: Order, e: Edge, f: Edge)
    requires Applicable(g, arrays, r) && g.WellFormed() && g.Forward(topo)
    requires e in Spliced(g, arrays, r) && f in Spliced(g, arrays, r) && e.key == f.key
    ensures e == f
  {
    var o := OriginOf(g, arrays, r, topo, e);
    var p := OriginOf(g, arrays, r, topo, f);
    assert o == p;
  }

  /** The edge of the old graph whose identity a new edge carries. */
  lemma OriginOf(g: Graph, arrays: string -> Descriptor, r: Rewrite, topo: Order, e: Edge) returns (o: Edge)
    requires Applicable(g, arrays, r) && g.Forward(topo) && e in Spliced(g, arrays, r)
    ensures o in g.edges && o.key == e.key && o != First(r) && o !in Middle(r)
    ensures o in Lasts(g, r) ==> e == Reattach(g, r, o)
    ensures o !in Lasts(g, r) ==> e == o
  {
    if l :| l in Lasts(g, r) && e == Reattach(g, r, l) {
      ChainGoesForward(g, arrays, r, topo, l);
      o := l;
    } else {
      o := e;
    }
  }

  /** Every last edge of the chain returns under its identity, from the source of the first one to where
      it went. In pattern 2 it carries the first edge's memlet. In pattern 3 its memlet names the source,
      at the begin of every dimension, and keeps its other side. In the others it keeps its memlet. */
  lemma LastEdgeReturns(g: Graph, arrays: string -> Descriptor, r: Rewrite, topo: Order, o: Edge)
    requires Applicable(g, arrays, r) && g.WellFormed() && g.Forward(topo) && o in Lasts(g, r)
    ensures exists e :: && e in Apply(g, arrays, r).edges && e.key == o.key && e.dst == o.dst && e.dstConn == o.dstConn
                        && e.src == First(r).src && e.srcConn == First(r).srcConn && e.memlet.Move? && o.memlet.Move?
                        && (r.EntryScalar? ==> e.memlet == First(r).memlet)
                        && (r.CopyToTransient? ==>
                              && e.memlet.other == o.memlet.other && e.memlet.data == g.nodes[r.ie.src].data
                              && |e.memlet.subset| == |r.ie.memlet.subset|
                              && forall k :: 0 <= k < |e.memlet.subset| ==> e.memlet.subset[k] == Point(r.ie.memlet.subset[k].rb))
                        && (!r.EntryScalar? && !r.CopyToTransient? ==> e.memlet == o.memlet)
  {
    ChainGoesForward(g, arrays, r, topo, o);
    assert Reattach(g, r, o) in Apply(g, arrays, r).edges;
  }

  function LostKeys(r: Rewrite): set<EdgeKey> {
    {First(r).key} + set m | m in Middle(r) :: m.key
  }

  lemma NoKeyGained(g: Graph, arrays: string -> Descriptor, r: Rewrite, topo: Order, e: Edge)
    requires Applicable(g, arrays, r) && g.WellFormed() && g.Forward(topo)
    requires e in Spliced(g, arrays, r) && e.memlet.Move?
    ensures e.key in g.DataKeys() - LostKeys(r)
  {
    hide Spliced, Reattach, Middle;
    var o := OriginOf(g, arrays, r, topo, e);
    if o in Lasts(g, r) {
      ChainGoesForward(g, arrays, r, topo, o);
    }
    forall m | m in Middle(r) ensures m.key != e.key {
      MiddleIsData(g, arrays, r, m);
    }
  }

  lemma OtherKeysKept(g: Graph, arrays: string -> Descriptor, r: Rewrite, topo: Order, e: Edge)
    requires Applicable(g, arrays, r) && g.Forward(topo)
    requires e in g.edges && e.memlet.Move? && e.key !in LostKeys(r)
    ensures exists e' :: e' in Spliced(g, arrays, r) && e'.memlet.Move? && e'.key == e.key
  {
    if e in Lasts(g, r) {
      ChainGoesForward(g, arrays, r, topo, e);
      var e' := Reattach(g, r, e);
      assert e' in Spliced(g, arrays, r) && e'.key == e.key && e'.memlet.Move?;
    } else {
      assert e != First(r) && e !in Middle(r);
      assert e in Spliced(g, arrays, r);
    }
  }

  /** A rewrite loses exactly the keys of the first and middle edges of the chain and gains none. */
  lemma {:induction false} ApplyShrinks(g: Graph, arrays: string -> Descriptor, r: Rewrite, topo: Order)
    requires Applicable(g, arrays, r) && g.WellFormed() && g.Forward(topo)
    ensures Apply(g, arrays, r).DataKeys() == g.DataKeys() - LostKeys(r)
    ensures |Apply(g, arrays, r).DataKeys()| < |g.DataKeys()|
  {
    var g' := Apply(g, arrays, r);
    forall k | k in g'.DataKeys() ensures k in g.DataKeys() - LostKeys(r) {
      var e :| e in Spliced(g, arrays, r) && e.memlet.Move? && e.key == k;
      NoKeyGained(g, arrays, r, topo, e);
    }
    forall k | k in g.DataKeys() - LostKeys(r) ensures k in g'.DataKeys() {
      var e :| e in g.edges && e.memlet.Move? && e.key == k;
      OtherKeysKept(g, arrays, r, topo, e);
    }
    StrictlySmaller(g'.DataKeys(), g.DataKeys(), First(r).key);
  }

  lemma StrictlySmaller<T>(a: set<T>, b: set<T>, x: T)
    requires a <= b && x in b && x !in a
    ensures |a| < |b|
  {
    assert a <= b - {x};
    SubsetCount(a, b - {x});
  }

  lemma {:induction false} SubsetCount<T>(a: set<T>, b: set<T>)
    requires a <= b
    ensures |a| <= |b|
  {
    if a != {} {
      var x :| x in a;
      SubsetCount(a - {x}, b - {x});
    }
  }

  // ---- runs of rewrites ----

  /** g' results from g by the given rewrites, each applicable when its turn comes. */
  ghost predicate IsRun(g: Graph, arrays: string -> Descriptor, rs: seq<Rewrite>, g': Graph)
    decreases |rs|
  {
    if rs == [] then g == g'
    else Applicable(g, arrays, rs[0]) && IsRun(Apply(g, arrays, rs[0]), arrays, rs[1..], g')
  }

  lemma {:induction false} RunSnoc(g: Graph, arrays: string -> Descriptor, rs: seq<Rewrite>, g': Graph, r: Rewrite)
    requires IsRun(g, arrays, rs, g') && Applicable(g', arrays, r)
    ensures IsRun(g, arrays, rs + [r], Apply(g', arrays, r))
    decreases |rs|
  {
    hide Applicable, Apply;
    if rs == [] {
      assert [r][1..] == [];
    } else {
      RunSnoc(Apply(g, arrays, rs[0]), arrays, rs[1..], g', r);
      assert (rs + [r])[1..] == rs[1..] + [r];
    }
  }

  /** Any run keeps every edge forward in the order captured before it, and each of its rewrites
      uses up at least one data-carrying edge. */
  lemma {:induction false} RunInvariant(g: Graph, arrays: string -> Descriptor, rs: seq<Rewrite>, g': Graph, topo: Order)
    requires IsRun(g, arrays, rs, g') && g.WellFormed() && g.Forward(topo)
    ensures g'.WellFormed() && g'.Forward(topo)
    ensures g'.nodes.Keys <= g.nodes.Keys
    ensures g'.DataKeys() <= g.DataKeys()
    ensures |g'.DataKeys()| + |rs| <= |g.DataKeys()|
    decreases |rs|
  {
    if rs != [] {
      ApplyKeepsForward(g, arrays, rs[0], topo);
      ApplyKeepsWellFormed(g, arrays, rs[0], topo);
      ApplyShrinks(g, arrays, rs[0], topo);
      RunInvariant(Apply(g, arrays, rs[0]), arrays, rs[1..], g', topo);
    }
  }
}
