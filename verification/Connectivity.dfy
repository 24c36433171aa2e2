/**
 What the contractions do to paths: they add none between nodes that stay, and lose none unless
 the scalar or the assign tasklet of pattern 1 has another use.
 */
module Connectivity {
  import opened Basics
  import opened StateGraph
  import opened Rewrites
  import opened Hazards

  /** The nodes of the chain that the rewrite is meant to drop. */
  function Chain(r: Rewrite): set<Node> {
    match r
    case ThroughAssignToExit(ie0, ie1, _, _) => {ie0.dst, ie1.dst}
    case AssignWrite(ie, oe, _) => {ie.dst, oe.dst}
    case _ => {Via(r)}
  }

  /** The scalar and the assign tasklet of pattern 1 feed nothing but the chain; the other patterns test it. */
  predicate NoOtherUse(g: Graph, r: Rewrite) {
    r.ThroughAssignToExit? ==> g.OutEdges(r.ie0.dst) == {r.ie1} && g.OutEdges(r.ie1.dst) == {r.ie2}
  }

  // ---- no new paths ----

  lemma ChainConnects(g: Graph, arrays: string -> Descriptor, r: Rewrite, o: Edge)
    requires Applicable(g, arrays, r) && g.WellFormed() && o in Lasts(g, r)
    ensures o in g.edges && Connected(g, g.nodes.Keys, First(r).src, o.dst)
  {
    var within, first := g.nodes.Keys, First(r);
    assert g.HasEdge(first.src, first.dst);
    EdgeConnects(g, within, first.src, first.dst);
    if Middle(r) != {} {
      var mid := if r.AssignWrite? then r.oe else r.ie1;
      assert mid in g.OutEdges(first.dst) && o in g.OutEdges(mid.dst) by {
        assert r.AssignWrite? ==> r.oe in g.OutEdges(r.ie.dst) && r.oe2 in g.OutEdges(r.oe.dst);
      }
      EdgeExtends(g, within, first.src, first.dst, mid.dst);
      EdgeExtends(g, within, first.src, mid.dst, o.dst);
    } else {
      assert o in g.OutEdges(first.dst) by {
        assert r.ScalarWrite? ==> r.oe in g.OutEdges(r.ie.dst);
      }
      EdgeExtends(g, within, first.src, first.dst, o.dst);
    }
  }

  lemma NewEdgeIsOldPath(g: Graph, arrays: string -> Descriptor, r: Rewrite, x: Node, y: Node)
    requires Applicable(g, arrays, r) && g.WellFormed() && Apply(g, arrays, r).HasEdge(x, y)
    ensures Connected(g, g.nodes.Keys, x, y)
  {
    var e :| e in Spliced(g, arrays, r) && e.src == x && e.dst == y;
    if o :| o in Lasts(g, r) && e == Reattach(g, r, o) {
      ChainConnects(g, arrays, r, o);
    } else {
      assert e in g.edges && g.HasEdge(x, y);
      EdgeConnects(g, g.nodes.Keys, x, y);
    }
  }

  lemma {:induction false} NewPathIsOld(g: Graph, arrays: string -> Descriptor, r: Rewrite, within: set<Node>,
                                        u: Node, v: Node, p: seq<Node>)
    requires Applicable(g, arrays, r) && g.WellFormed() && IsPath(Apply(g, arrays, r), within, u, v, p)
    ensures Connected(g, g.nodes.Keys, u, v)
    decreases |p|
  {
    hide Applicable, Apply;
    assert Apply(g, arrays, r).HasEdge(p[0], p[1]);
    NewEdgeIsOldPath(g, arrays, r, u, p[1]);
    if |p| > 2 {
      TailIsPath(Apply(g, arrays, r), within, u, v, p);
      NewPathIsOld(g, arrays, r, within, p[1], v, p[1..]);
      ConnectedTrans(g, g.nodes.Keys, u, p[1], v);
    }
  }

  lemma TailIsPath(g: Graph, within: set<Node>, u: Node, v: Node, p: seq<Node>)
    requires IsPath(g, within, u, v, p) && |p| > 2
    ensures IsPath(g, within, p[1], v, p[1..])
  {
    var q := p[1..];
    forall k | 0 <= k < |q| - 1 ensures g.HasEdge(q[k], q[k + 1]) {
      assert q[k] == p[k + 1] && q[k + 1] == p[k + 2];
    }
  }

  // ---- no lost paths ----

  lemma ChainIsGone(g: Graph, arrays: string -> Descriptor, r: Rewrite, topo: Order)
    requires Applicable(g, arrays, r) && g.WellFormed() && g.Forward(topo) && NoOtherUse(g, r)
    ensures Chain(r) !! Apply(g, arrays, r).nodes.Keys
  {
    if r.ThroughAssignToExit? {
      var kept := Graph(g.nodes - Dropped(r), Spliced(g, arrays, r));
      forall e | e in kept.edges
        ensures e.src != r.ie0.dst && e.dst != r.ie0.dst && e.src != r.ie1.dst && e.dst != r.ie1.dst
      {
        if e != Reattach(g, r, r.ie2) {
          assert e !in g.InEdges(r.ie0.dst) && e !in g.OutEdges(r.ie0.dst);
          assert e !in g.InEdges(r.ie1.dst) && e !in g.OutEdges(r.ie1.dst);
        }
      }
    }
  }

  /** Nodes at an edge that is left stay. */
  lemma EndsStay(g: Graph, arrays: string -> Descriptor, r: Rewrite, topo: Order, e: Edge)
    requires Applicable(g, arrays, r) && g.WellFormed() && g.Forward(topo) && e in Spliced(g, arrays, r)
    ensures e.src in Apply(g, arrays, r).nodes && e.dst in Apply(g, arrays, r).nodes
    ensures Apply(g, arrays, r).HasEdge(e.src, e.dst)
  {
    ApplyKeepsWellFormed(g, arrays, r, topo);
    assert e in Apply(g, arrays, r).edges;
  }

  /** Outside the chain edges are untouched. */
  lemma EdgeOutsideStays(g: Graph, arrays: string -> Descriptor, r: Rewrite, e: Edge)
    requires Applicable(g, arrays, r) && e in g.edges && e.src !in Chain(r) && e.dst !in Chain(r)
    ensures e in Spliced(g, arrays, r)
  {
    match r
    case ThroughAssignToExit(_, _, _, _) =>
    case EntryScalar(_) =>
    case CopyToTransient(_) =>
    case ScalarWrite(_, _) =>
      assert r.oe in g.OutEdges(r.ie.dst);
    case AssignWrite(_, _, _) =>
      assert r.oe in g.OutEdges(r.ie.dst) && r.oe2 in g.OutEdges(r.oe.dst);
  }

  /** The chain is entered at its first edge only. */
  lemma EnterChain(g: Graph, arrays: string -> Descriptor, r: Rewrite, x: Node, y: Node)
    requires Applicable(g, arrays, r) && g.HasEdge(x, y) && x !in Chain(r) && y in Chain(r)
    ensures x == First(r).src && y == Via(r)
  {
    var e :| e in g.edges && e.src == x && e.dst == y;
    assert e in g.InEdges(y);
    if r.AssignWrite? {
      assert r.oe in g.OutEdges(r.ie.dst);
    }
  }

  /** And left at its last edges only: from its first node, in at most two steps. */
  lemma LeaveChain(g: Graph, arrays: string -> Descriptor, r: Rewrite, topo: Order, x: Node, y: Node)
    requires Applicable(g, arrays, r) && NoOtherUse(g, r) && g.Forward(topo) && g.HasEdge(x, y) && x in Chain(r)
    ensures (exists o :: o in Lasts(g, r) && o.dst == y) || (x == Via(r) && y in Chain(r) && y != Via(r))
  {
    var e :| e in g.edges && e.src == x && e.dst == y;
    assert e in g.OutEdges(x);
    match r
    case ThroughAssignToExit(_, _, _, _) =>
      assert x == r.ie0.dst ==> e == r.ie1;
    case EntryScalar(_) =>
    case CopyToTransient(_) =>
    case ScalarWrite(_, _) =>
      assert e == r.oe;
    case AssignWrite(_, _, _) =>
      assert x == r.ie.dst ==> e == r.oe;
  }

  lemma ReattachedConnects(g: Graph, arrays: string -> Descriptor, r: Rewrite, topo: Order, o: Edge)
    requires Applicable(g, arrays, r) && g.WellFormed() && g.Forward(topo) && o in Lasts(g, r)
    ensures o.dst in Apply(g, arrays, r).nodes
    ensures Connected(Apply(g, arrays, r), Apply(g, arrays, r).nodes.Keys, First(r).src, o.dst)
  {
    ChainGoesForward(g, arrays, r, topo, o);
    var e := Reattach(g, r, o);
    assert e in Spliced(g, arrays, r);
    EndsStay(g, arrays, r, topo, e);
    EdgeConnects(Apply(g, arrays, r), Apply(g, arrays, r).nodes.Keys, e.src, e.dst);
  }

  /** The first surviving node of a path after its start, with the new path that leads there. */
  lemma NextSurvivor(g: Graph, arrays: string -> Descriptor, r: Rewrite, topo: Order, u: Node, v: Node, p: seq<Node>)
    returns (k: nat)
    requires Applicable(g, arrays, r) && g.WellFormed() && g.Forward(topo) && NoOtherUse(g, r)
    requires IsPath(g, g.nodes.Keys, u, v, p) && u !in Chain(r) && v !in Chain(r)
    ensures 0 < k < |p| && p[k] in Apply(g, arrays, r).nodes
    ensures Connected(Apply(g, arrays, r), Apply(g, arrays, r).nodes.Keys, u, p[k])
  {
    hide Applicable, Apply, Chain, Lasts, Spliced;
    assert g.HasEdge(p[0], p[0 + 1]);
    if p[1] in Chain(r) {
      EnterChain(g, arrays, r, u, p[1]);
      assert g.HasEdge(p[1], p[1 + 1]);
      LeaveChain(g, arrays, r, topo, p[1], p[2]);
      k := 2;
      if !exists o :: o in Lasts(g, r) && o.dst == p[2] {
        assert g.HasEdge(p[2], p[2 + 1]);
        LeaveChain(g, arrays, r, topo, p[2], p[3]);
        k := 3;
      }
      var o :| o in Lasts(g, r) && o.dst == p[k];
      ReattachedConnects(g, arrays, r, topo, o);
    } else {
      k := 1;
      var e :| e in g.edges && e.src == u && e.dst == p[1];
      EdgeOutsideStays(g, arrays, r, e);
      EndsStay(g, arrays, r, topo, e);
      EdgeConnects(Apply(g, arrays, r), Apply(g, arrays, r).nodes.Keys, u, p[1]);
    }
  }

  lemma SuffixIsPath(g: Graph, within: set<Node>, u: Node, v: Node, p: seq<Node>, k: nat)
    requires IsPath(g, within, u, v, p) && k < |p| - 1
    ensures IsPath(g, within, p[k], v, p[k..])
  {
    var q := p[k..];
    forall i | 0 <= i < |q| - 1 ensures g.HasEdge(q[i], q[i + 1]) {
      assert q[i] == p[i + k] && q[i + 1] == p[i + k + 1];
    }
  }

  lemma {:induction false} OldPathIsNew(g: Graph, arrays: string -> Descriptor, r: Rewrite, topo: Order,
                                        u: Node, v: Node, p: seq<Node>)
    requires Applicable(g, arrays, r) && g.WellFormed() && g.Forward(topo) && NoOtherUse(g, r)
    requires IsPath(g, g.nodes.Keys, u, v, p) && u in Apply(g, arrays, r).nodes && v in Apply(g, arrays, r).nodes
    ensures Connected(Apply(g, arrays, r), Apply(g, arrays, r).nodes.Keys, u, v)
    decreases |p|
  {
    hide Applicable, Apply, Chain;
    ChainIsGone(g, arrays, r, topo);
    var k := NextSurvivor(g, arrays, r, topo, u, v, p);
    if k < |p| - 1 {
      SuffixIsPath(g, g.nodes.Keys, u, v, p, k);
      OldPathIsNew(g, arrays, r, topo, p[k], v, p[k..]);
      ConnectedTrans(Apply(g, arrays, r), Apply(g, arrays, r).nodes.Keys, u, p[k], v);
    }
  }

  /** The nodes that go are those of the chain, and the scope or container it starts from, that are left
      without an edge. All others stay as they are. */
  lemma {:induction false} NodesLeft(g: Graph, arrays: string -> Descriptor, r: Rewrite, topo: Order, n: Node)
    requires Applicable(g, arrays, r) && g.WellFormed() && g.Forward(topo) && n in g.nodes
    ensures var g' := Apply(g, arrays, r);
            && (n in g'.nodes <==> !g'.Isolated(n) || !(n in Chain(r) || (n == First(r).src && !g.IsTasklet(n))))
            && (n in g'.nodes ==> g'.nodes[n] == g.nodes[n])
  {
    ApplyKeepsWellFormed(g, arrays, r, topo);
    forall e | e in Spliced(g, arrays, r) ensures e.src !in Dropped(r) && e.dst !in Dropped(r) {
      DroppedIsIsolated(g, arrays, r, topo, e);
    }
  }

  // ---- exactly when ----

  /** Between nodes that stay there are the same paths as before. */
  ghost predicate PathsKept(g: Graph, g': Graph) {
    forall u, v :: u in g'.nodes && v in g'.nodes
      ==> (Connected(g', g'.nodes.Keys, u, v) <==> Connected(g, g.nodes.Keys, u, v))
  }

  lemma OtherUseLosesPath(g: Graph, arrays: string -> Descriptor, r: Rewrite, topo: Order)
    requires Applicable(g, arrays, r) && g.WellFormed() && g.Forward(topo) && !NoOtherUse(g, r)
    ensures !PathsKept(g, Apply(g, arrays, r))
  {
    var g' := Apply(g, arrays, r);
    var first := g.OutEdges(r.ie0.dst) != {r.ie1};
    var n, next := if first then r.ie0.dst else r.ie1.dst, if first then r.ie1 else r.ie2;
    assert next in g.OutEdges(n);
    var e :| e in g.OutEdges(n) && e != next;
    assert e in Spliced(g, arrays, r);
    EndsStay(g, arrays, r, topo, e);
    ReattachedConnects(g, arrays, r, topo, r.ie2);
    var t := First(r).src;
    assert Connected(g, g.nodes.Keys, t, n) by {
      assert g.HasEdge(t, r.ie0.dst) && g.HasEdge(r.ie0.dst, r.ie1.dst);
      EdgeConnects(g, g.nodes.Keys, t, r.ie0.dst);
      if !first {
        EdgeExtends(g, g.nodes.Keys, t, r.ie0.dst, n);
      }
    }
    forall p ensures !IsPath(g', g'.nodes.Keys, t, n, p) {
      if IsPath(g', g'.nodes.Keys, t, n, p) {
        assert g'.HasEdge(p[|p| - 2], p[|p| - 2 + 1]);
        NothingEntersChain(g, arrays, r, topo, p[|p| - 2], n);
      }
    }
  }

  lemma NothingEntersChain(g: Graph, arrays: string -> Descriptor, r: Rewrite, topo: Order, x: Node, n: Node)
    requires Applicable(g, arrays, r) && r.ThroughAssignToExit? && n in Chain(r) && g.Forward(topo)
    ensures !Apply(g, arrays, r).HasEdge(x, n)
  {
    forall f | f in Spliced(g, arrays, r) ensures f.dst != n {
      var o := OriginOf(g, arrays, r, topo, f);
      assert o in g.InEdges(o.dst);
    }
  }

  /** A contraction keeps the paths between the nodes that stay exactly when its scalar and its assign
      tasklet have no other use. Patterns 2 to 5 see to that. */
  lemma PathsKeptIff(g: Graph, arrays: string -> Descriptor, r: Rewrite, topo: Order)
    requires Applicable(g, arrays, r) && g.WellFormed() && g.Forward(topo)
    ensures PathsKept(g, Apply(g, arrays, r)) <==> NoOtherUse(g, r)
    ensures forall u, v :: Connected(Apply(g, arrays, r), Apply(g, arrays, r).nodes.Keys, u, v)
                           ==> Connected(g, g.nodes.Keys, u, v)
  {
    hide Applicable, Apply, NoOtherUse;
    var g' := Apply(g, arrays, r);
    forall u, v | Connected(g', g'.nodes.Keys, u, v) ensures Connected(g, g.nodes.Keys, u, v) {
      var p :| IsPath(g', g'.nodes.Keys, u, v, p);
      NewPathIsOld(g, arrays, r, g'.nodes.Keys, u, v, p);
    }
    if NoOtherUse(g, r) {
      forall u, v | u in g'.nodes && v in g'.nodes && Connected(g, g.nodes.Keys, u, v)
        ensures Connected(g', g'.nodes.Keys, u, v)
      {
        var p :| IsPath(g, g.nodes.Keys, u, v, p);
        OldPathIsNew(g, arrays, r, topo, u, v, p);
      }
    } else {
      OtherUseLosesPath(g, arrays, r, topo);
    }
  }

  // ---- runs ----

  /** No rewrite of the run, when its turn comes, cuts off another use. */
  ghost predicate NoOtherUses(g: Graph, arrays: string -> Descriptor, rs: seq<Rewrite>)
    decreases |rs|
  {
    rs != [] && Applicable(g, arrays, rs[0]) ==>
      NoOtherUse(g, rs[0]) && NoOtherUses(Apply(g, arrays, rs[0]), arrays, rs[1..])
  }

  /** The nodes that no rewrite of the run drops. */
  function Survivors(g: Graph, arrays: string -> Descriptor, rs: seq<Rewrite>): set<Node>
    decreases |rs|
  {
    if rs == [] || !Applicable(g, arrays, rs[0]) then g.nodes.Keys
    else Survivors(Apply(g, arrays, rs[0]), arrays, rs[1..])
  }

  /** Such a run keeps the paths between all nodes that stay to the end. */
  lemma {:induction false} RunKeepsPaths(g: Graph, arrays: string -> Descriptor, rs: seq<Rewrite>, g': Graph, topo: Order)
    requires IsRun(g, arrays, rs, g') && g.WellFormed() && g.Forward(topo) && NoOtherUses(g, arrays, rs)
    ensures g'.nodes.Keys == Survivors(g, arrays, rs) <= g.nodes.Keys && PathsKept(g, g')
    decreases |rs|
  {
    hide Applicable, Apply, NoOtherUse;
    RunInvariant(g, arrays, rs, g', topo);
    if rs != [] {
      var g1 := Apply(g, arrays, rs[0]);
      ApplyKeepsForward(g, arrays, rs[0], topo);
      ApplyKeepsWellFormed(g, arrays, rs[0], topo);
      PathsKeptIff(g, arrays, rs[0], topo);
      RunInvariant(g1, arrays, rs[1..], g', topo);
      RunKeepsPaths(g1, arrays, rs[1..], g', topo);
    }
  }
}
