/**
 What tasklets access by the memlets of their edges, and what they access after contractions, read
 off the original edges.
 */
module MemletUse {
  import opened Basics
  import opened StateGraph
  import opened Rewrites
  import opened Scheduling

  function Tasklets(g: Graph): set<Node> {
    set n | n in g.nodes && g.nodes[n].Tasklet?
  }

  function SlotsOf(edges: set<Edge>): set<Slot> {
    set e | e in edges && e.memlet.Move? :: SlotOf(e.memlet)
  }

  function ReadersOf(edges: set<Edge>, tasklets: set<Node>, s: Slot): set<Node> {
    set e | e in edges && e.memlet.Move? && e.dst in tasklets && SlotOf(e.memlet) == s :: e.dst
  }

  function WritersOf(edges: set<Edge>, tasklets: set<Node>, s: Slot): set<Node> {
    set e | e in edges && e.memlet.Move? && e.src in tasklets && SlotOf(e.memlet) == s :: e.src
  }

  /** Tasklets read the slots of the memlets that come in and write those of the memlets that go out. */
  function AccessesOf(edges: set<Edge>, tasklets: set<Node>): Accesses {
    Accesses(map s | s in SlotsOf(edges) :: ReadersOf(edges, tasklets, s),
             map s | s in SlotsOf(edges) :: WritersOf(edges, tasklets, s))
  }

  function MemletAccesses(g: Graph): Accesses {
    AccessesOf(g.edges, Tasklets(g))
  }

  lemma MemletReads(g: Graph, t: Node, s: Slot)
    ensures MemletAccesses(g).Reads(t, s) <==>
            g.IsTasklet(t) && exists e :: e in g.edges && e.memlet.Move? && e.dst == t && SlotOf(e.memlet) == s
    ensures MemletAccesses(g).Writes(t, s) <==>
            g.IsTasklet(t) && exists e :: e in g.edges && e.memlet.Move? && e.src == t && SlotOf(e.memlet) == s
  {
  }

  /** Edges without memlets, and tasklets without edges, make no difference. */
  lemma SameDataSameAccesses(edges: set<Edge>, tasklets: set<Node>, edges': set<Edge>, tasklets': set<Node>)
    requires forall e: Edge :: e.memlet.Move? ==> (e in edges <==> e in edges')
    requires forall e: Edge :: e in edges && e.memlet.Move? ==>
               (e.src in tasklets <==> e.src in tasklets') && (e.dst in tasklets <==> e.dst in tasklets')
    ensures AccessesOf(edges, tasklets) == AccessesOf(edges', tasklets')
  {
    assert SlotsOf(edges) == SlotsOf(edges');
    forall s ensures ReadersOf(edges, tasklets, s) == ReadersOf(edges', tasklets', s) {
    }
    forall s ensures WritersOf(edges, tasklets, s) == WritersOf(edges', tasklets', s) {
    }
  }

  // ---- where the edges end up ----

  /** What a contraction makes of an edge that it keeps. */
  function EdgeAfter(g: Graph, arrays: string -> Descriptor, r: Rewrite, e: Edge): Edge
    requires Applicable(g, arrays, r)
  {
    if e in Lasts(g, r) then Reattach(g, r, e) else e
  }

  /** What a run makes of an edge, if it keeps it. */
  function Follow(g: Graph, arrays: string -> Descriptor, rs: seq<Rewrite>, e: Edge): Option<Edge>
    decreases |rs|
  {
    if rs == [] || !Applicable(g, arrays, rs[0]) then Some(e)
    else if e == First(rs[0]) || e in Middle(rs[0]) then None
    else Follow(Apply(g, arrays, rs[0]), arrays, rs[1..], EdgeAfter(g, arrays, rs[0], e))
  }

  function FollowedEdges(g: Graph, arrays: string -> Descriptor, rs: seq<Rewrite>): set<Edge> {
    set e | e in g.edges && Follow(g, arrays, rs, e).Some? :: Follow(g, arrays, rs, e).value
  }

  /** The accesses after a run, from the original edges and the matches. */
  function AccessesAfter(g: Graph, arrays: string -> Descriptor, rs: seq<Rewrite>): Accesses {
    AccessesOf(FollowedEdges(g, arrays, rs), Tasklets(g))
  }

  lemma KeptEdgeAfter(g: Graph, arrays: string -> Descriptor, r: Rewrite, topo: Order, e: Edge)
    requires Applicable(g, arrays, r) && g.Forward(topo)
    requires e in g.edges && e != First(r) && e !in Middle(r)
    ensures EdgeAfter(g, arrays, r, e) in Apply(g, arrays, r).edges
  {
  }

  lemma {:induction false} FollowedEdgesAre(g: Graph, arrays: string -> Descriptor, rs: seq<Rewrite>, g': Graph, topo: Order)
    requires IsRun(g, arrays, rs, g') && g.WellFormed() && g.Forward(topo)
    ensures FollowedEdges(g, arrays, rs) == g'.edges
    decreases |rs|
  {
    if rs == [] {
      assert forall e :: Follow(g, arrays, rs, e) == Some(e);
    } else {
      hide Applicable, Apply, EdgeAfter;
      var r := rs[0];
      var g1 := Apply(g, arrays, r);
      ApplyKeepsForward(g, arrays, r, topo);
      ApplyKeepsWellFormed(g, arrays, r, topo);
      FollowedEdgesAre(g1, arrays, rs[1..], g', topo);
      forall x | x in FollowedEdges(g, arrays, rs) ensures x in g'.edges {
        var e :| e in g.edges && Follow(g, arrays, rs, e) == Some(x);
        KeptEdgeAfter(g, arrays, r, topo, e);
        assert Follow(g1, arrays, rs[1..], EdgeAfter(g, arrays, r, e)) == Some(x);
      }
      forall x | x in g'.edges ensures x in FollowedEdges(g, arrays, rs) {
        var e1 :| e1 in g1.edges && Follow(g1, arrays, rs[1..], e1) == Some(x);
        var o := EdgeBefore(g, arrays, r, topo, e1);
        assert Follow(g, arrays, rs, o) == Some(x);
      }
    }
  }

  lemma EdgeBefore(g: Graph, arrays: string -> Descriptor, r: Rewrite, topo: Order, e: Edge) returns (o: Edge)
    requires Applicable(g, arrays, r) && g.Forward(topo) && e in Apply(g, arrays, r).edges
    ensures o in g.edges && o != First(r) && o !in Middle(r) && EdgeAfter(g, arrays, r, o) == e
  {
    o := OriginOf(g, arrays, r, topo, e);
  }

  lemma {:induction false} RunKeepsKinds(g: Graph, arrays: string -> Descriptor, rs: seq<Rewrite>, g': Graph)
    requires IsRun(g, arrays, rs, g')
    ensures forall n :: n in g'.nodes ==> n in g.nodes && g'.nodes[n] == g.nodes[n]
    decreases |rs|
  {
    if rs != [] {
      RunKeepsKinds(Apply(g, arrays, rs[0]), arrays, rs[1..], g');
    }
  }

  /** The tasklets of the rewritten state access what the matches say, whatever ordering edges follow. */
  lemma AccessesAfterAre(g: Graph, arrays: string -> Descriptor, rs: seq<Rewrite>, rewritten: Graph, g': Graph, topo: Order)
    requires IsRun(g, arrays, rs, rewritten) && g.WellFormed() && g.Forward(topo)
    requires g'.nodes == rewritten.nodes && rewritten.edges <= g'.edges
    requires forall e :: e in g'.edges && e !in rewritten.edges ==> e.memlet == Empty
    ensures MemletAccesses(g') == AccessesAfter(g, arrays, rs)
  {
    FollowedEdgesAre(g, arrays, rs, rewritten, topo);
    RunKeepsKinds(g, arrays, rs, rewritten);
    RunInvariant(g, arrays, rs, rewritten, topo);
    forall e | e in rewritten.edges
      ensures e.src in Tasklets(g') <==> e.src in Tasklets(g)
      ensures e.dst in Tasklets(g') <==> e.dst in Tasklets(g)
    {
    }
    SameDataSameAccesses(g'.edges, Tasklets(g'), FollowedEdges(g, arrays, rs), Tasklets(g));
  }
}
