/**
 What pattern 1 records: the slot of the map exit's first outgoing edge, whichever output of the
 exit the contracted chain feeds.
 */
module ExitRecords {
  import opened Basics
  import opened StateGraph
  import opened Rewrites
  import opened Cleaning
  import OpaqueBypasses

  /** What comes in at IN_x goes out at OUT_x. */
  predicate PassesOn(inner: Connector, outer: Connector) {
    && inner.Some? && outer.Some?
    && |inner.value| >= 3 && inner.value[..3] == "IN_"
    && outer.value == "OUT_" + inner.value[3..]
  }

  /** The edges behind the exit that carry on what the chain delivers. */
  ghost function Reached(g: Graph, r: Rewrite): set<Edge>
    requires r.ThroughAssignToExit?
  {
    set o | o in g.OutEdges(r.ie2.dst) && PassesOn(r.ie2.dstConn, o.srcConn)
  }

  /** The match with another edge taken for the first one. */
  function WithFirst(r: Rewrite, e: Edge): Rewrite
    requires r.ThroughAssignToExit?
  {
    ThroughAssignToExit(r.ie0, r.ie1, r.ie2, Some(e))
  }

  /** The slot that is recorded when e comes first is one that the chain reaches. */
  ghost predicate RecordsReached(g: Graph, arrays: string -> Descriptor, r: Rewrite, e: Edge)
    requires r.ThroughAssignToExit? && Applicable(g, arrays, WithFirst(r, e))
  {
    exists o :: o in Reached(g, r) && o.memlet.Move? && TargetOf(g, arrays, WithFirst(r, e)) == Target(SlotOf(o.memlet))
  }

  /** The edge names a slot that the chain reaches. */
  ghost predicate NamesReached(g: Graph, r: Rewrite, e: Edge)
    requires r.ThroughAssignToExit?
  {
    e.memlet.Move? && exists o :: o in Reached(g, r) && o.memlet.Move? && SlotOf(o.memlet) == SlotOf(e.memlet)
  }

  lemma WithFirstRecords(g: Graph, arrays: string -> Descriptor, r: Rewrite, e: Edge)
    requires Applicable(g, arrays, r) && r.ThroughAssignToExit? && e in g.OutEdges(r.ie2.dst)
    ensures Applicable(g, arrays, WithFirst(r, e))
    ensures TargetOf(g, arrays, WithFirst(r, e)) == if e.memlet.Move? then Target(SlotOf(e.memlet)) else BrokenTarget
  {
  }

  /** Whichever outgoing edge of the exit comes first, the recorded slot is one that the chain reaches:
      that is so exactly when every outgoing edge of the exit names such a slot. */
  lemma RecordsReachedIff(g: Graph, arrays: string -> Descriptor, r: Rewrite)
    requires Applicable(g, arrays, r) && r.ThroughAssignToExit?
    ensures forall e :: e in g.OutEdges(r.ie2.dst) ==> Applicable(g, arrays, WithFirst(r, e))
    ensures (forall e :: e in g.OutEdges(r.ie2.dst) ==> RecordsReached(g, arrays, r, e))
       <==> (forall e :: e in g.OutEdges(r.ie2.dst) ==> NamesReached(g, r, e))
  {
    hide Applicable, TargetOf, Reached, SlotOf, RecordsReached, NamesReached;
    forall e | e in g.OutEdges(r.ie2.dst)
      ensures Applicable(g, arrays, WithFirst(r, e)) && (RecordsReached(g, arrays, r, e) <==> NamesReached(g, r, e))
    {
      WithFirstRecords(g, arrays, r, e);
      OneFirstEdge(g, arrays, r, e);
    }
  }

  lemma OneFirstEdge(g: Graph, arrays: string -> Descriptor, r: Rewrite, e: Edge)
    requires r.ThroughAssignToExit? && Applicable(g, arrays, WithFirst(r, e))
    requires TargetOf(g, arrays, WithFirst(r, e)) == if e.memlet.Move? then Target(SlotOf(e.memlet)) else BrokenTarget
    ensures RecordsReached(g, arrays, r, e) <==> NamesReached(g, r, e)
  {
    hide Applicable, TargetOf, Reached, SlotOf;
  }

  /** In particular for an exit with a single output that the chain feeds. */
  lemma SingleOutputIsRecorded(g: Graph, arrays: string -> Descriptor, r: Rewrite, o: Edge)
    requires Applicable(g, arrays, r) && r.ThroughAssignToExit?
    requires g.OutEdges(r.ie2.dst) == {o} && o.memlet.Move? && PassesOn(r.ie2.dstConn, o.srcConn)
    ensures Applicable(g, arrays, WithFirst(r, o)) && RecordsReached(g, arrays, r, o)
  {
    assert o in g.OutEdges(r.ie2.dst) && o in Reached(g, r);
    WithFirstRecords(g, arrays, r, o);
    OneFirstEdge(g, arrays, r, o);
  }

  // ---- an exit with two outputs ----

  function IntoScalar(): Edge {
    OpaqueBypasses.Link(0, Some("o"), 1, None, OpaqueBypasses.Cell("s"))
  }

  function IntoAssign(): Edge {
    OpaqueBypasses.Link(1, None, 2, Some("i"), OpaqueBypasses.Cell("s"))
  }

  function IntoExit(): Edge {
    OpaqueBypasses.Link(2, Some("o"), 3, Some("IN_B"), OpaqueBypasses.Cell("B"))
  }

  function OutAt(conn: string, data: string, node: Node): Edge {
    OpaqueBypasses.Link(3, Some(conn), node, None, OpaqueBypasses.Cell(data))
  }

  /** The chain feeds B through the exit; the exit also writes A, and that edge comes first. */
  function TwoOutputs(): Graph {
    Graph(map[0 := OpaqueBypasses.Producer(), 1 := Access("s"), 2 := Tasklet(Assign("o", "i"), {"i"}, {"o"}),
              3 := MapExit, 4 := Access("A"), 5 := Access("B")],
          {IntoScalar(), IntoAssign(), IntoExit(), OutAt("OUT_A", "A", 4), OutAt("OUT_B", "B", 5)})
  }

  function ThroughExit(): Rewrite {
    ThroughAssignToExit(IntoScalar(), IntoAssign(), IntoExit(), Some(OutAt("OUT_A", "A", 4)))
  }

  lemma ThroughExitApplies()
    ensures Applicable(TwoOutputs(), OpaqueBypasses.Arrays, ThroughExit())
  {
    var g := TwoOutputs();
    OpaqueBypasses.OneElement(IntoScalar(), "s");
    OpaqueBypasses.OneElement(IntoAssign(), "s");
    OpaqueBypasses.OneElement(IntoExit(), "B");
    assert g.InEdges(1) == {IntoScalar()} && g.InEdges(2) == {IntoAssign()};
    assert OutAt("OUT_A", "A", 4) in g.OutEdges(3);
  }

  lemma OnlyBReached()
    ensures Reached(TwoOutputs(), ThroughExit()) == {OutAt("OUT_B", "B", 5)}
  {
    var g := TwoOutputs();
    assert "IN_B"[..3] == "IN_" && "IN_B"[3..] == "B" && "OUT_" + "B" == "OUT_B" && "OUT_A"[4] != "OUT_B"[4];
    assert g.OutEdges(3) == {OutAt("OUT_A", "A", 4), OutAt("OUT_B", "B", 5)};
    assert PassesOn(Some("IN_B"), Some("OUT_B")) && !PassesOn(Some("IN_B"), Some("OUT_A"));
  }

  /** The scalar is recorded, and will be renamed, as an element of A, while its value goes to B. */
  lemma WrongOutputRecorded()
    ensures Applicable(TwoOutputs(), OpaqueBypasses.Arrays, ThroughExit())
    ensures TargetOf(TwoOutputs(), OpaqueBypasses.Arrays, ThroughExit()) == Target(SlotOf(OpaqueBypasses.Cell("A")))
    ensures Reached(TwoOutputs(), ThroughExit()) == {OutAt("OUT_B", "B", 5)}
    ensures !RecordsReached(TwoOutputs(), OpaqueBypasses.Arrays, ThroughExit(), OutAt("OUT_A", "A", 4))
  {
    ThroughExitApplies();
    OnlyBReached();
    assert "A"[0] != "B"[0];
  }
}
