/**
 Graphs that the patterns accept although bypassing the scalar changes what the state computes,
 one for each way in which a bypass can fail to be transparent.
 */
module OpaqueBypasses {
  import opened Basics
  import opened StateGraph
  import opened Rewrites
  import opened Values
  import opened Dataflow

  /** "s" is the transient scalar, everything else an array. */
  function Arrays(name: string): Descriptor {
    Descriptor(name == "s", name == "s")
  }

  /** Element zero of a container. */
  function Cell(data: string): Memlet {
    Move(data, [Point(0)], None)
  }

  function Link(src: Node, srcConn: Connector, dst: Node, dstConn: Connector, memlet: Memlet): Edge {
    Edge(Carried(src * 10 + dst), src, srcConn, dst, dstConn, memlet)
  }

  /** Nodes are numbered in topological order already. */
  function Numbers(g: Graph): Order {
    map n | n in g.nodes :: n
  }

  /** The rewrite applies, but some meaning of tasklets and memory is not preserved. */
  ghost predicate ChangesMeaning(g: Graph, r: Rewrite) {
    && Applicable(g, Arrays, r) && IsBypass(g, Arrays, r) && g.WellFormed() && g.Forward(Numbers(g))
    && exists sem :: !PreservesMeaning(g, Arrays, r, Numbers(g), sem)
  }

  lemma NotTransparent(g: Graph, r: Rewrite)
    requires g.WellFormed() && g.Forward(Numbers(g))
    requires Applicable(g, Arrays, r) && IsBypass(g, Arrays, r) && !Transparent(g, Arrays, r, Numbers(g))
    ensures ChangesMeaning(g, r)
  {
    TransparencyNecessary(g, Arrays, r, Numbers(g));
  }

  lemma OneElement(e: Edge, data: string)
    requires e.memlet == Cell(data) || exists other :: e.memlet == Move(data, [Point(0)], other)
    ensures MovesOneElement(e)
  {
    assert [Point(0)][1..] == [];
  }

  function Producer(): Kind {
    Tasklet(OtherCode, {}, {"o"})
  }

  function EntryEdge(): Edge {
    Link(0, None, 1, None, Cell("s"))
  }

  function ReadEdge(): Edge {
    Link(1, None, 2, Some("i"), Cell("s"))
  }

  function EntryRead(): Graph {
    Graph(map[0 := MapEntry, 1 := Access("s"), 2 := Tasklet(OtherCode, {"i"}, {})], {EntryEdge(), ReadEdge()})
  }

  lemma EntryIsSound()
    ensures var g := EntryRead();
            && g.WellFormed() && g.Forward(Numbers(g)) && g.OutEdges(1) == {ReadEdge()} && g.InEdges(1) == {EntryEdge()}
  {
  }

  /** Pattern 2: the memlet into the scalar names the scalar instead of the array behind the map. */
  lemma ScalarSideAtEntry()
    ensures ChangesMeaning(EntryRead(), EntryScalar(EntryEdge()))
  {
    EntryIsSound();
    OneElement(EntryEdge(), "s");
    OneElement(ReadEdge(), "s");
    assert ReadEdge() in EntryRead().OutEdges(1);
    NotTransparent(EntryRead(), EntryScalar(EntryEdge()));
  }

  /** Pattern 4: the memlet out of the scalar names the scalar and gives the array side as its other subset. */
  lemma ScalarSideAtWrite()
    ensures var first := Link(0, Some("o"), 1, None, Cell("s"));
            var last := Link(1, None, 2, None, Move("s", [Point(0)], Some([Point(3)])));
            var g := Graph(map[0 := Producer(), 1 := Access("s"), 2 := Access("A")], {first, last});
            ChangesMeaning(g, ScalarWrite(first, last))
  {
    var first := Link(0, Some("o"), 1, None, Cell("s"));
    var last := Link(1, None, 2, None, Move("s", [Point(0)], Some([Point(3)])));
    var g := Graph(map[0 := Producer(), 1 := Access("s"), 2 := Access("A")], {first, last});
    OneElement(first, "s");
    OneElement(last, "s");
    assert g.OutEdges(1) == {last} && g.InEdges(1) == {first};
    NotTransparent(g, ScalarWrite(first, last));
  }

  /** Tasklet -> scalar -> assign tasklet o = i, fed through the given connector -> node 3, and
      possibly a further use of the scalar. */
  function IntoScalar(): Edge {
    Link(0, Some("o"), 1, None, Cell("s"))
  }

  function IntoTasklet(conn: string): Edge {
    Link(1, None, 2, Some(conn), Cell("s"))
  }

  function OutOfTasklet(): Edge {
    Link(2, Some("o"), 3, None, Cell("A"))
  }

  function OtherUse(): Edge {
    Link(1, None, 4, None, Cell("B"))
  }

  function ChainNodes(end: Kind): map<Node, Kind> {
    map[0 := Producer(), 1 := Access("s"), 2 := Tasklet(Assign("o", "i"), {"i", "j"}, {"o"}), 3 := end, 4 := Access("B")]
  }

  function MiswiredChain(): Graph {
    Graph(ChainNodes(Access("A")), {IntoScalar(), IntoTasklet("j"), OutOfTasklet()})
  }

  function SharedScalar(): Graph {
    Graph(ChainNodes(MapExit), {IntoScalar(), IntoTasklet("i"), OutOfTasklet(), OtherUse()})
  }

  lemma ChainMovesElements(conn: string)
    ensures MovesOneElement(IntoScalar()) && MovesOneElement(IntoTasklet(conn)) && MovesOneElement(OutOfTasklet())
  {
    OneElement(IntoScalar(), "s");
    OneElement(IntoTasklet(conn), "s");
    OneElement(OutOfTasklet(), "A");
  }

  lemma MiswiredEdges()
    ensures var g := MiswiredChain();
            && g.InEdges(1) == {IntoScalar()} && g.OutEdges(1) == {IntoTasklet("j")}
            && g.InEdges(2) == {IntoTasklet("j")} && g.OutEdges(2) == {OutOfTasklet()}
            && g.WellFormed() && g.Forward(Numbers(g))
  {
  }

  /** Pattern 5: the assignment reads a connector that the scalar does not feed. */
  lemma MiswiredAssign()
    ensures ChangesMeaning(MiswiredChain(), AssignWrite(IntoScalar(), IntoTasklet("j"), OutOfTasklet()))
  {
    ChainMovesElements("j");
    MiswiredEdges();
    assert "i" != "j";
    NotTransparent(MiswiredChain(), AssignWrite(IntoScalar(), IntoTasklet("j"), OutOfTasklet()));
  }

  lemma SharedEdges()
    ensures var g := SharedScalar();
            && g.InEdges(1) == {IntoScalar()} && g.InEdges(2) == {IntoTasklet("i")} && g.OutEdges(3) == {}
            && OtherUse() in g.OutEdges(1) && OtherUse() != IntoTasklet("i")
  {
  }

  lemma SharedIsSound()
    ensures SharedScalar().WellFormed() && SharedScalar().Forward(Numbers(SharedScalar()))
  {
    var g := SharedScalar();
    forall e | e in g.edges
      ensures e.key == Carried(e.src * 10 + e.dst) && e.src in g.nodes && e.dst in g.nodes && e.src < e.dst
    {
    }
    forall e, f | e in g.edges && f in g.edges && e.key == f.key ensures e == f {
      assert e.src == f.src && e.dst == f.dst;
    }
  }

  /** Pattern 1: the scalar also feeds the array B, which is left without its input. */
  lemma OtherUseOfScalar()
    ensures ChangesMeaning(SharedScalar(), ThroughAssignToExit(IntoScalar(), IntoTasklet("i"), OutOfTasklet(), None))
  {
    ChainMovesElements("i");
    SharedEdges();
    SharedIsSound();
    NotTransparent(SharedScalar(), ThroughAssignToExit(IntoScalar(), IntoTasklet("i"), OutOfTasklet(), None));
  }

  // ---- copies into a scalar ----

  /** A[0] is copied to the scalar, and from there to B[3] by the given memlet. */
  function CopyIn(): Edge {
    Link(0, None, 1, None, Cell("A"))
  }

  function CopyOut(memlet: Memlet): Edge {
    Link(1, None, 2, None, memlet)
  }

  function Copies(memlet: Memlet): Graph {
    Graph(map[0 := Access("A"), 1 := Access("s"), 2 := Access("B")], {CopyIn(), CopyOut(memlet)})
  }

  lemma CopyApplies(memlet: Memlet)
    requires memlet.Move? && (memlet.subset == [Point(0)] || memlet.subset == [Point(3)])
    ensures var g := Copies(memlet);
            && g.WellFormed() && g.Forward(Numbers(g)) && g.InEdges(1) == {CopyIn()} && g.OutEdges(1) == {CopyOut(memlet)}
            && Applicable(g, Arrays, CopyToTransient(CopyIn())) && IsBypass(g, Arrays, CopyToTransient(CopyIn()))
  {
    var g := Copies(memlet);
    OneElement(CopyIn(), "A");
    assert [Point(0)][1..] == [] && [Point(3)][1..] == [];
    assert MovesOneElement(CopyOut(memlet));
    assert g.InEdges(1) == {CopyIn()} && g.OutEdges(1) == {CopyOut(memlet)};
  }

  /** Pattern 3: a memlet out of the copy that names the target instead of the scalar. Its place in the
      target is overwritten by the place in the source. */
  lemma TargetSideAtCopy()
    ensures ChangesMeaning(Copies(Move("B", [Point(3)], None)), CopyToTransient(CopyIn()))
  {
    var memlet := Move("B", [Point(3)], None);
    var g := Copies(memlet);
    CopyApplies(memlet);
    assert "B"[0] != "s"[0];
    assert CopyOut(memlet) in g.OutEdges(1) && !NamesCopy(g, CopyIn(), CopyOut(memlet));
    NotTransparent(g, CopyToTransient(CopyIn()));
  }

  lemma CopyReattached(memlet: Memlet)
    requires memlet.Move? && (memlet.subset == [Point(0)] || memlet.subset == [Point(3)])
    ensures Applicable(Copies(memlet), Arrays, CopyToTransient(CopyIn()))
    ensures Apply(Copies(memlet), Arrays, CopyToTransient(CopyIn())).edges
         == {CopyOut(memlet).(src := 0, memlet := Move("A", [Point(0)], memlet.other))}
  {
    var g, r := Copies(memlet), CopyToTransient(CopyIn());
    CopyApplies(memlet);
    assert Points(Starts([Point(0)])) == [Point(0)];
    assert Spliced(g, Arrays, r) == {Reattach(g, r, CopyOut(memlet))};
  }

  /** With a memlet that names the scalar, and B[3] as its other side, A[0] still goes to B[3]. */
  lemma OtherSideAtCopy()
    ensures var memlet := Move("s", [Point(0)], Some([Point(3)]));
            var g, r := Copies(memlet), CopyToTransient(CopyIn());
            && g.WellFormed() && g.Forward(Numbers(g)) && Applicable(g, Arrays, r)
            && (forall sem: Semantics :: PreservesMeaning(g, Arrays, r, Numbers(g), sem))
            && Apply(g, Arrays, r).edges == {Link(1, None, 2, None, Move("A", [Point(0)], Some([Point(3)]))).(src := 0)}
  {
    var memlet := Move("s", [Point(0)], Some([Point(3)]));
    var g, r := Copies(memlet), CopyToTransient(CopyIn());
    CopyApplies(memlet);
    assert "B"[0] != "A"[0] && "A"[0] != "s"[0];
    assert Points(Starts([Point(0)])) == [Point(0)];
    assert NamesCopy(g, CopyIn(), CopyOut(memlet)) && NamesSource(g, CopyIn(), CopyOut(memlet));
    PreservesMeaningIffTransparent(g, Arrays, r, Numbers(g));
    CopyReattached(memlet);
  }
}
