/**
 Two hazards that reconstruction misses. Only the tasklets of a match are recorded: in the first
 state, not that a reader of the copy also writes the array; in the second, not that a tasklet
 outside the match reads the element that the producer comes to write.
 */
module MissedHazard {
  import opened Basics
  import opened StateGraph
  import opened Rewrites
  import opened Scheduling
  import opened Hazards
  import opened Cleaning
  import opened CleaningPass
  import opened Necessity
  import opened PlainWrites
  import opened PlainNecessity
  import opened Connectivity
  import opened MemletUse
  import opened OneMatch
  import OpaqueBypasses

  function Element(data: string, i: int): Memlet {
    Move(data, [Point(i)], None)
  }

  function SlotAt(data: string, i: int): Slot {
    Slot(data, [i])
  }

  function Worker(ins: set<string>, outs: set<string>): Kind {
    Tasklet(OtherCode, ins, outs)
  }

  function Numbers(): Order {
    map[0 := 0, 1 := 1, 2 := 2, 3 := 3, 4 := 4]
  }

  lemma NumbersDiffer()
    ensures Injective(Numbers())
  {
  }

  lemma OneElement(e: Edge, data: string, i: int)
    requires e.memlet == Element(data, i)
    ensures MovesOneElement(e) && SlotOf(e.memlet) == SlotAt(data, i)
  {
    assert [Point(i)][1..] == [];
    assert Starts([Point(i)]) == [i];
  }

  /** Edges that are told apart by their ends. */
  lemma KeysTellEnds(g: Graph)
    requires forall e :: e in g.edges ==> e.key == Carried(e.src * 10 + e.dst) && e.src < e.dst <= 4
    requires forall e :: e in g.edges ==> e.src in g.nodes && e.dst in g.nodes
    requires forall e, f :: e in g.edges && f in g.edges && e.src == f.src && e.dst == f.dst ==> e == f
    requires forall n :: n in g.nodes ==> n <= 4
    ensures g.WellFormed() && g.Forward(Numbers())
  {
  }

  // ---- a reader of the copy that also writes ----

  function CopyEdge(): Edge {
    OpaqueBypasses.Link(0, None, 1, None, Element("A", 0))
  }

  function ToSecond(): Edge {
    OpaqueBypasses.Link(1, None, 2, Some("i"), Element("s", 0))
  }

  function ToThird(): Edge {
    OpaqueBypasses.Link(1, None, 3, Some("i"), Element("s", 0))
  }

  function FromThird(): Edge {
    OpaqueBypasses.Link(3, Some("o"), 4, None, Element("A", 0))
  }

  /** A[0] is copied to s, which tasklets 2 and 3 read; 3 also writes A[0]. */
  function CopyThenWrite(): Graph {
    Graph(map[0 := Access("A"), 1 := Access("s"), 2 := Worker({"i"}, {}), 3 := Worker({"i"}, {"o"}), 4 := Access("A")],
          {CopyEdge(), ToSecond(), ToThird(), FromThird()})
  }

  lemma CopyIsSound()
    ensures CopyThenWrite().WellFormed() && CopyThenWrite().Forward(Numbers())
  {
    KeysTellEnds(CopyThenWrite());
  }

  lemma CopyMatches()
    ensures Applicable(CopyThenWrite(), OpaqueBypasses.Arrays, CopyToTransient(CopyEdge()))
    ensures NewSlot(CopyThenWrite(), OpaqueBypasses.Arrays, CopyToTransient(CopyEdge())) == SlotAt("A", 0)
    ensures NewReaders(CopyThenWrite(), CopyToTransient(CopyEdge())) == {2, 3}
  {
    var g := CopyThenWrite();
    OneElement(CopyEdge(), "A", 0);
    OneElement(ToSecond(), "s", 0);
    OneElement(ToThird(), "s", 0);
    assert g.InEdges(1) == {CopyEdge()} && g.OutEdges(1) == {ToSecond(), ToThird()};
    assert ToSecond() in g.OutEdges(1) && ToThird() in g.OutEdges(1);
  }

  /** Node 1 copies A[0] to s; tasklets 2 and 3 read s, and 3 writes A[0]. */
  function CopyAccesses(): Accesses {
    Accesses(map[SlotAt("A", 0) := {1}, SlotAt("s", 0) := {2, 3}], map[SlotAt("s", 0) := {1}, SlotAt("A", 0) := {3}])
  }

  lemma CopyOrdered()
    ensures CopyThenWrite().nodes.Keys <= Numbers().Keys
    ensures var within := CopyThenWrite().nodes.Keys;
            ConflictsOrdered(Paths(CopyThenWrite(), within), within, CopyAccesses(), Numbers())
  {
    var g, acc := CopyThenWrite(), CopyAccesses();
    var within := g.nodes.Keys;
    assert ToSecond() in g.edges && ToThird() in g.edges;
    forall u, v | u in within && v in within && Numbers()[u] < Numbers()[v] && acc.Conflict(u, v)
      ensures (u, v) in Paths(g, within)
    {
      var s :| acc.ConflictOn(s, u, v);
      assert SlotAt("A", 0) != SlotAt("s", 0);
      assert u == 1 && (v == 2 || v == 3);
      assert g.HasEdge(u, v);
      EdgeConnects(g, within, u, v);
    }
  }

  lemma NoOutEdge(g: Graph, within: set<Node>, u: Node, v: Node)
    requires forall e :: e in g.edges ==> e.src != u
    ensures !Connected(g, within, u, v)
  {
    forall p ensures !IsPath(g, within, u, v, p) {
      if |p| >= 2 && p[0] == u {
        assert !g.HasEdge(p[0], p[0 + 1]);
      }
    }
  }

  lemma NoInEdge(g: Graph, within: set<Node>, u: Node, v: Node)
    requires forall e :: e in g.edges ==> e.dst != v
    ensures !Connected(g, within, u, v)
  {
    forall p ensures !IsPath(g, within, u, v, p) {
      if |p| >= 2 && p[|p| - 1] == v {
        assert !g.HasEdge(p[|p| - 2], p[|p| - 2 + 1]);
      }
    }
  }

  lemma ThirdWrites()
    ensures MemletAccesses(CopyThenWrite()).Writes(3, SlotAt("A", 0))
  {
    MemletReads(CopyThenWrite(), 3, SlotAt("A", 0));
    OneElement(FromThird(), "A", 0);
    assert FromThird() in CopyThenWrite().edges;
  }

  lemma CopyUnguarded()
    ensures Applicable(CopyThenWrite(), OpaqueBypasses.Arrays, CopyToTransient(CopyEdge()))
    ensures !Guard(CopyThenWrite(), OpaqueBypasses.Arrays, CopyToTransient(CopyEdge()))
  {
    CopyMatches();
    ThirdWrites();
    NoOutEdge(CopyThenWrite(), CopyThenWrite().nodes.Keys, 2, 3);
    ThirdToSecond();
    hide Applicable, MemletAccesses, NewReaders, NewSlot, Connected;
    assert !EitherWay(CopyThenWrite(), 3, 2);
  }

  lemma ThirdToSecond()
    ensures !Connected(CopyThenWrite(), CopyThenWrite().nodes.Keys, 3, 2)
  {
    CopyIsSound();
    if Connected(CopyThenWrite(), CopyThenWrite().nodes.Keys, 3, 2) {
      ConnectedForward(CopyThenWrite(), CopyThenWrite().nodes.Keys, Numbers(), 3, 2);
    }
  }

  lemma CopyTasklets(t: Node, s: Slot)
    ensures MemletAccesses(CopyThenWrite()).Writes(t, s) ==> t == 3 && s == SlotAt("A", 0)
    ensures MemletAccesses(CopyThenWrite()).Reads(t, s) ==> s == SlotAt("s", 0)
  {
    MemletReads(CopyThenWrite(), t, s);
    OneElement(FromThird(), "A", 0);
    OneElement(ToSecond(), "s", 0);
    OneElement(ToThird(), "s", 0);
  }

  lemma CopyTaskletsOrdered()
    ensures CopyThenWrite().nodes.Keys <= Numbers().Keys
    ensures ConflictsOrdered(Paths(CopyThenWrite(), CopyThenWrite().nodes.Keys), CopyThenWrite().nodes.Keys,
                             MemletAccesses(CopyThenWrite()), Numbers())
  {
    hide MemletAccesses;
    var acc := MemletAccesses(CopyThenWrite());
    assert SlotAt("A", 0) != SlotAt("s", 0);
    forall u, v | acc.Conflict(u, v) ensures u == v {
      var s :| acc.ConflictOn(s, u, v);
      CopyTasklets(u, s);
      CopyTasklets(v, s);
    }
  }

  lemma NumberedOrder(within: set<Node>, order: seq<Node>)
    requires forall t :: t in order <==> t in within
    requires (forall i, j :: 0 <= i < j < |order| ==> order[i] < order[j]) && forall i :: 0 <= i < |order| ==> order[i] <= 4
    ensures IsOriginal(within, Numbers(), order)
  {
    forall n: Node | n <= 4 ensures n in Numbers() && Numbers()[n] == n {
    }
  }

  lemma AllInOrder(within: set<Node>, order: seq<Node>)
    requires within == {0, 1, 2, 3, 4} && order == [0, 1, 2, 3, 4]
    ensures IsOriginal(within, Numbers(), order)
  {
    NumberedOrder(within, order);
  }

  /** What pattern r makes of g is a clean state, but its schedules disagree, even for tasklets that
      overwrite without looking. */
  ghost predicate OpensHazard(g: Graph, r: Rewrite)
    requires Applicable(g, OpaqueBypasses.Arrays, r)
  {
    var g' := Apply(g, OpaqueBypasses.Arrays, r);
    && (exists log' :: CleanedBy(g, OpaqueBypasses.Arrays, Fine, g', map[], log', Numbers(), [r], g'))
    && forall original :: IsOriginal(g'.nodes.Keys, Numbers(), original)
                          ==> !PlainSchedulesAgree(g', g'.nodes.Keys, MemletAccesses(g'), original)
  }

  /** In the state before cleaning all orders of its nodes compute the same; after pattern 3 and
      reconstruction, tasklet 2 may see what tasklet 3 writes. */
  lemma HazardIsMissed(original: seq<Node>)
    requires original == [0, 1, 2, 3, 4]
    ensures SchedulesAgree(CopyThenWrite(), CopyThenWrite().nodes.Keys, CopyAccesses(), original)
    ensures Applicable(CopyThenWrite(), OpaqueBypasses.Arrays, CopyToTransient(CopyEdge()))
    ensures OpensHazard(CopyThenWrite(), CopyToTransient(CopyEdge()))
  {
    var g, r := CopyThenWrite(), CopyToTransient(CopyEdge());
    CopyIsSound();
    NumbersDiffer();
    CopyOrdered();
    AllInOrder(g.nodes.Keys, original);
    SchedulesAgreeIff(g, g.nodes.Keys, CopyAccesses(), Numbers(), original);
    CopyUnguarded();
    CopyTaskletsOrdered();
    UnguardedReadersOpen(g, r);
  }

  lemma UnguardedReadersOpen(g: Graph, r: Rewrite)
    requires Applicable(g, OpaqueBypasses.Arrays, r) && g.WellFormed() && g.Forward(Numbers()) && Injective(Numbers())
    requires MovesReaders(r) && !Guard(g, OpaqueBypasses.Arrays, r)
    requires ConflictsOrdered(Paths(g, g.nodes.Keys), g.nodes.Keys, MemletAccesses(g), Numbers())
    ensures OpensHazard(g, r)
  {
    hide Applicable, Apply, Guard, CleanedBy, PlainSchedulesAgree, ConflictsOrdered, Numbers;
    var g' := Apply(g, OpaqueBypasses.Arrays, r);
    OneMatchCleans(g, OpaqueBypasses.Arrays, r, Numbers(), map[]);
    var log' :| CleanedBy(g, OpaqueBypasses.Arrays, Fine, g', map[], log', Numbers(), [r], g');
    forall original | IsOriginal(g'.nodes.Keys, Numbers(), original)
      ensures !PlainSchedulesAgree(g', g'.nodes.Keys, MemletAccesses(g'), original)
    {
      OneMatchIff(g, OpaqueBypasses.Arrays, r, g', map[], log', Numbers(), g', original);
    }
  }

  // ---- a reader outside the match ----

  function ReadElement(): Edge {
    OpaqueBypasses.Link(0, None, 1, Some("i"), Element("A", 0))
  }

  function WriteOther(): Edge {
    OpaqueBypasses.Link(1, Some("o"), 4, None, Element("A", 1))
  }

  function ToScalar(): Edge {
    OpaqueBypasses.Link(2, Some("o"), 3, None, Element("s", 0))
  }

  function FromScalar(): Edge {
    OpaqueBypasses.Link(3, None, 4, None, Element("A", 0))
  }

  /** Tasklet 1 reads A[0] and writes A[1]; tasklet 2 writes s, which is then copied to A[0]. */
  function ReadThenCopy(): Graph {
    Graph(map[0 := Access("A"), 1 := Worker({"i"}, {"o"}), 2 := Worker({}, {"o"}), 3 := Access("s"), 4 := Access("A")],
          {ReadElement(), WriteOther(), ToScalar(), FromScalar()})
  }

  function WriteRemoval(): Rewrite {
    ScalarWrite(ToScalar(), FromScalar())
  }

  lemma WriteIsSound()
    ensures ReadThenCopy().WellFormed() && ReadThenCopy().Forward(Numbers())
  {
    KeysTellEnds(ReadThenCopy());
  }

  lemma WriteMatches()
    ensures Applicable(ReadThenCopy(), OpaqueBypasses.Arrays, WriteRemoval())
    ensures FromScalar().memlet.data != "s"
    ensures NewSlot(ReadThenCopy(), OpaqueBypasses.Arrays, WriteRemoval()) == SlotAt("A", 0)
  {
    var g := ReadThenCopy();
    OneElement(ToScalar(), "s", 0);
    OneElement(FromScalar(), "A", 0);
    assert g.InEdges(3) == {ToScalar()} && g.OutEdges(3) == {FromScalar()};
  }

  /** Tasklet 1 reads A[0] and writes A[1], tasklet 2 writes s, node 4 copies s to A[0]. */
  function WriteAccesses(): Accesses {
    Accesses(map[SlotAt("A", 0) := {1}, SlotAt("s", 0) := {4}],
             map[SlotAt("A", 1) := {1}, SlotAt("s", 0) := {2}, SlotAt("A", 0) := {4}])
  }

  lemma WriteOrdered()
    ensures ReadThenCopy().nodes.Keys <= Numbers().Keys
    ensures var within := ReadThenCopy().nodes.Keys;
            ConflictsOrdered(Paths(ReadThenCopy(), within), within, WriteAccesses(), Numbers())
  {
    var g, acc := ReadThenCopy(), WriteAccesses();
    var within := g.nodes.Keys;
    assert WriteOther() in g.edges && ToScalar() in g.edges && FromScalar() in g.edges;
    assert g.HasEdge(1, 4) && g.HasEdge(2, 3) && g.HasEdge(3, 4);
    EdgeConnects(g, within, 1, 4);
    EdgeConnects(g, within, 2, 3);
    EdgeExtends(g, within, 2, 3, 4);
    assert SlotAt("A", 0) != SlotAt("s", 0) && SlotAt("A", 1) != SlotAt("s", 0);
    assert SlotAt("A", 1).index != SlotAt("A", 0).index;
    forall u, v | u in within && v in within && Numbers()[u] < Numbers()[v] && acc.Conflict(u, v)
      ensures (u, v) in Paths(g, within)
    {
      var s :| acc.ConflictOn(s, u, v);
      assert (u == 1 || u == 2) && v == 4;
    }
  }

  lemma WriteUnjoined()
    ensures !EitherWay(ReadThenCopy(), 2, 1)
  {
    var g := ReadThenCopy();
    WriteIsSound();
    NoInEdge(g, g.nodes.Keys, 1, 2);
    if Connected(g, g.nodes.Keys, 2, 1) {
      ConnectedForward(g, g.nodes.Keys, Numbers(), 2, 1);
    }
  }

  lemma WriteReads()
    ensures MemletAccesses(ReadThenCopy()).Reads(1, SlotAt("A", 0))
  {
    MemletReads(ReadThenCopy(), 1, SlotAt("A", 0));
    OneElement(ReadElement(), "A", 0);
    assert ReadElement() in ReadThenCopy().edges;
  }

  /** Tasklet 1 still reads A[0] after the rewrite, which tasklet 2 writes. */
  lemma WriteStaysUnjoined()
    ensures Applicable(ReadThenCopy(), OpaqueBypasses.Arrays, WriteRemoval())
    ensures var g' := Apply(ReadThenCopy(), OpaqueBypasses.Arrays, WriteRemoval());
            && g'.nodes.Keys <= Numbers().Keys
            && !SourcesOrdered(Paths(g', g'.nodes.Keys), g'.nodes.Keys, MemletAccesses(g'))
  {
    hide Applicable, Apply, SourcesOrdered, MemletAccesses, EitherWay, ReadThenCopy;
    var g, r := ReadThenCopy(), WriteRemoval();
    WriteMatches();
    var g' := Apply(g, OpaqueBypasses.Arrays, r);
    WriteIsSound();
    NumbersDiffer();
    WriteReads();
    WriteUnjoined();
    ProducerWrites(g, OpaqueBypasses.Arrays, r, Numbers(), 1);
    ReaderStays(g, OpaqueBypasses.Arrays, r, Numbers(), 1);
    NodesStay(g, OpaqueBypasses.Arrays, r);
    PathsKeptIff(g, OpaqueBypasses.Arrays, r, Numbers());
    Unjoined(g, g', Numbers(), SlotAt("A", 0), 2, 1);
  }

  /** In the state before cleaning all orders of its nodes compute the same; after pattern 4, on a
      bypass whose memlets name the array side, tasklet 1 may see what tasklet 2 writes. */
  lemma OutsideReaderIsMissed(original: seq<Node>)
    requires original == [0, 1, 2, 3, 4]
    ensures SchedulesAgree(ReadThenCopy(), ReadThenCopy().nodes.Keys, WriteAccesses(), original)
    ensures Applicable(ReadThenCopy(), OpaqueBypasses.Arrays, WriteRemoval()) && FromScalar().memlet.data != "s"
    ensures OpensHazard(ReadThenCopy(), WriteRemoval())
  {
    hide Applicable, Apply, SourcesOrdered, PlainSchedulesAgree, CleanedBy, Numbers;
    var g, r := ReadThenCopy(), WriteRemoval();
    WriteMatches();
    var g' := Apply(g, OpaqueBypasses.Arrays, r);
    WriteIsSound();
    NumbersDiffer();
    WriteOrdered();
    AllInOrder(g.nodes.Keys, original);
    SchedulesAgreeIff(g, g.nodes.Keys, WriteAccesses(), Numbers(), original);
    OneMatchCleans(g, OpaqueBypasses.Arrays, r, Numbers(), map[]);
    ApplyKeepsForward(g, OpaqueBypasses.Arrays, r, Numbers());
    WriteStaysUnjoined();
    forall order | IsOriginal(g'.nodes.Keys, Numbers(), order)
      ensures !PlainSchedulesAgree(g', g'.nodes.Keys, MemletAccesses(g'), order)
    {
      PlainSchedulesAgreeIff(g', g'.nodes.Keys, MemletAccesses(g'), Numbers(), order);
    }
  }
}
