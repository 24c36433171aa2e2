/**
 What later states read. A scalar that was copied from a slot is renamed to that slot everywhere; a
 later state that read the scalar comes to read what the slot holds by then.
 */
module LaterReads {
  import opened Basics
  import opened StateGraph
  import opened Rewrites
  import opened Scheduling
  import opened Necessity
  import opened Cleaning
  import opened CleaningPass
  import opened MemletUse
  import OpaqueBypasses

  /** Node c writes what it reads from the slot. */
  ghost predicate Copies(prog: Behaviour, c: Node, from: Slot, to: Slot) {
    forall view: map<Slot, Value>, old_: Value :: from in view ==> prog(c, view, to, old_) == view[from]
  }

  lemma CopiedValue(prog: Behaviour, c: Node, from: Slot, to: Slot, view: map<Slot, Value>, old_: Value)
    requires Copies(prog, c, from, to) && from in view
    ensures prog(c, view, to, old_) == view[from]
  {
  }

  lemma {:induction false} SlotUntouched(acc: Accesses, prog: Behaviour, order: seq<Node>, m: Machine, s: Slot)
    requires s in m.store && forall t :: t in order ==> !acc.Writes(t, s)
    ensures s in Run(acc, prog, order, m).store && Run(acc, prog, order, m).store[s] == m.store[s]
    decreases |order|
  {
    if order != [] {
      assert order[0] in order;
      SlotUntouched(acc, prog, order[1..], Exec(acc, prog, order[0], m), s);
    }
  }

  /** The copy has been made, other nodes have run since: whoever reads the scalar now gets what whoever
      reads the slot gets. */
  ghost predicate StillEqual(acc: Accesses, prog: Behaviour, a: seq<Node>, c: Node, b: seq<Node>, from: Slot, to: Slot, m: Machine)
    requires from in m.store && to in m.store
  {
    var r := Run(acc, prog, a + ([c] + b), m);
    from in r.store && to in r.store && r.store[from] == r.store[to]
  }

  /** Everything after the copy writes one. */
  function WriteOnes(c: Node, b: seq<Node>, from: Slot): Behaviour {
    (t: Node, view: map<Slot, Value>, s: Slot, old_: Value) =>
      if t == c then (if from in view then view[from] else 0) else if t in b then 1 else 0
  }

  lemma AfterCopy(acc: Accesses, prog: Behaviour, a: seq<Node>, c: Node, b: seq<Node>, from: Slot, to: Slot, m: Machine)
    returns (copied: Machine)
    requires from != to && acc.Reads(c, from) && acc.Writes(c, to) && !acc.Writes(c, from)
    requires from in m.store && to in m.store && Copies(prog, c, from, to)
    ensures Run(acc, prog, a + ([c] + b), m) == Run(acc, prog, b, copied)
    ensures copied == Exec(acc, prog, c, Run(acc, prog, a, m))
    ensures from in copied.store && to in copied.store && copied.store[from] == copied.store[to]
    ensures copied.store[from] == Run(acc, prog, a, m).store[from]
  {
    RunAppend(acc, prog, a, [c] + b, m);
    var now := Run(acc, prog, a, m);
    RunAppend(acc, prog, [c], b, now);
    RunOne(acc, prog, c, now);
    StoreKeysStay(acc, prog, a, m);
    copied := Exec(acc, prog, c, now);
    var view := View(acc, c, now.store);
    assert from in view && view[from] == now.store[from];
    CopiedValue(prog, c, from, to, view, now.store[to]);
  }

  lemma {:induction false} StoreKeysStay(acc: Accesses, prog: Behaviour, order: seq<Node>, m: Machine)
    ensures Run(acc, prog, order, m).store.Keys == m.store.Keys
    decreases |order|
  {
    if order != [] {
      StoreKeysStay(acc, prog, order[1..], Exec(acc, prog, order[0], m));
    }
  }

  lemma {:induction false} OnesStay(acc: Accesses, c: Node, b: seq<Node>, done: seq<Node>, from: Slot, m: Machine)
    requires from in m.store && c !in done && forall t :: t in done ==> t in b
    ensures var r := Run(acc, WriteOnes(c, b, from), done, m);
            && from in r.store
            && (m.store[from] == 1 || (exists t :: t in done && acc.Writes(t, from)) ==> r.store[from] == 1)
    decreases |done|
  {
    if done != [] {
      assert done[0] in done;
      OnesStay(acc, c, b, done[1..], from, Exec(acc, WriteOnes(c, b, from), done[0], m));
    }
  }

  lemma {:induction false} ZerosStay(acc: Accesses, c: Node, b: seq<Node>, a: seq<Node>, from: Slot, m: Machine)
    requires from in m.store && m.store[from] == 0 && c !in a && forall t :: t in a ==> t !in b
    ensures var r := Run(acc, WriteOnes(c, b, from), a, m); from in r.store && r.store[from] == 0
    decreases |a|
  {
    if a != [] {
      assert a[0] in a;
      ZerosStay(acc, c, b, a[1..], from, Exec(acc, WriteOnes(c, b, from), a[0], m));
    }
  }

  /** A later read gets the same value under the new name, for all behaviours and memories, exactly when
      nothing has written the slot since the copy. */
  lemma LaterReadKeptIff(acc: Accesses, a: seq<Node>, c: Node, b: seq<Node>, from: Slot, to: Slot)
    requires NoDuplicates(a + ([c] + b)) && from != to
    requires acc.Reads(c, from) && acc.Writes(c, to) && !acc.Writes(c, from)
    requires forall t :: t in b ==> !acc.Writes(t, to)
    ensures (forall prog: Behaviour, m: Machine :: from in m.store && to in m.store && Copies(prog, c, from, to)
                               ==> StillEqual(acc, prog, a, c, b, from, to, m))
       <==> (forall t :: t in b ==> !acc.Writes(t, from))
  {
    if forall t :: t in b ==> !acc.Writes(t, from) {
      forall prog: Behaviour, m: Machine | from in m.store && to in m.store && Copies(prog, c, from, to)
        ensures StillEqual(acc, prog, a, c, b, from, to, m)
      {
        var copied := AfterCopy(acc, prog, a, c, b, from, to, m);
        SlotUntouched(acc, prog, b, copied, from);
        SlotUntouched(acc, prog, b, copied, to);
      }
    } else {
      var prog, m := WriteOnes(c, b, from), Machine(map[from := 0, to := 0], map[]);
      Apart(a, c, b);
      var copied := AfterCopy(acc, prog, a, c, b, from, to, m);
      ZerosStay(acc, c, b, a, from, m);
      OnesStay(acc, c, b, b, from, copied);
      SlotUntouched(acc, prog, b, copied, to);
      assert !StillEqual(acc, prog, a, c, b, from, to, m);
    }
  }

  lemma Apart(a: seq<Node>, c: Node, b: seq<Node>)
    requires NoDuplicates(a + ([c] + b))
    ensures c !in a && c !in b && forall t :: t in a ==> t !in b
  {
    var all := a + ([c] + b);
    assert all[|a|] == c;
    forall i | 0 <= i < |a| ensures a[i] != c && a[i] !in b {
      assert all[i] == a[i];
      forall j | 0 <= j < |b| ensures a[i] != b[j] {
        assert all[|a| + 1 + j] == b[j];
      }
    }
    forall j | 0 <= j < |b| ensures b[j] != c {
      assert all[|a| + 1 + j] == b[j];
    }
  }

  // ---- a program whose later state reads another value ----

  function CopyIn(): Edge {
    OpaqueBypasses.Link(0, None, 1, None, OpaqueBypasses.Cell("A"))
  }

  function WriteEdge(): Edge {
    OpaqueBypasses.Link(2, Some("o"), 3, None, OpaqueBypasses.Cell("A"))
  }

  function ReadEdge(): Edge {
    OpaqueBypasses.Link(4, None, 5, Some("i"), OpaqueBypasses.Cell("s"))
  }

  /** The first state copies A[0] to s, the second one writes A[0], the third one reads s. */
  function CopyState(): Graph {
    Graph(map[0 := Access("A"), 1 := Access("s")], {CopyIn()})
  }

  function WriteState(): Graph {
    Graph(map[2 := OpaqueBypasses.Producer(), 3 := Access("A")], {WriteEdge()})
  }

  function ReadState(): Graph {
    Graph(map[4 := Access("s"), 5 := Tasklet(OtherCode, {"i"}, {})], {ReadEdge()})
  }

  function ThreeStates(): seq<Graph> {
    [CopyState(), WriteState(), ReadState()]
  }

  function SlotOfCell(data: string): Slot {
    SlotOf(OpaqueBypasses.Cell(data))
  }

  /** Node 1 copies A[0] to s, tasklet 2 writes A[0], tasklet 5 reads s. */
  function ProgramAccesses(): Accesses {
    Accesses(map[SlotOfCell("A") := {1}, SlotOfCell("s") := {5}], map[SlotOfCell("s") := {1}, SlotOfCell("A") := {2}])
  }

  lemma NotWrittenElsewhere()
    ensures "s" !in WrittenElsewhere(ThreeStates(), 0)
  {
    assert "A"[0] != "s"[0];
    forall j | 0 <= j < 3 && j != 0 ensures "s" !in WrittenNames(ThreeStates()[j]) {
      if j == 1 {
        assert forall n :: n in WriteState().nodes && WriteState().nodes[n].Access? ==> WriteState().nodes[n].data == "A";
      } else {
        assert ReadState().InEdges(4) == {};
      }
    }
  }

  lemma CopyIsAccepted()
    ensures Applicable(CopyState(), OpaqueBypasses.Arrays, CopyToTransient(CopyIn()))
    ensures SafeToEliminate(CopyState(), OpaqueBypasses.Arrays, WrittenElsewhere(ThreeStates(), 0), "s").Fine?
    ensures TargetOf(CopyState(), OpaqueBypasses.Arrays, CopyToTransient(CopyIn())) == Target(SlotOfCell("A"))
  {
    OpaqueBypasses.OneElement(CopyIn(), "A");
    assert CopyState().InEdges(1) == {CopyIn()} && CopyState().OutEdges(1) == {};
    NotWrittenElsewhere();
    forall n: Node, m: Node | IsWriter(CopyState(), "s", n) && IsWriter(CopyState(), "s", m) ensures n == m {
      assert "A"[0] != "s"[0];
    }
    SafeIffOneWriter(CopyState(), OpaqueBypasses.Arrays, WrittenElsewhere(ThreeStates(), 0), "s");
  }

  lemma ReaderIsRenamed()
    ensures MemletAccesses(ReadState()).Reads(5, SlotOfCell("s"))
    ensures MemletAccesses(Renamed(ReadState(), map["s" := SlotOfCell("A")])).Reads(5, SlotOfCell("A"))
  {
    var log := map["s" := SlotOfCell("A")];
    var g, h := ReadState(), Renamed(ReadState(), log);
    var e := ReadEdge().(memlet := RenamedMemlet(ReadEdge().memlet, log));
    assert ReadEdge() in g.edges;
    assert e in h.edges;
    MemletReads(g, 5, SlotOfCell("s"));
    MemletReads(h, 5, SlotOfCell("A"));
    assert Starts(Points(SlotOfCell("A").index)) == SlotOfCell("A").index;
  }

  /** The pass accepts the copy and renames the reader, which then reads what the second state has
      written instead of what the first state has copied. */
  lemma LaterReadChanges()
    ensures Applicable(CopyState(), OpaqueBypasses.Arrays, CopyToTransient(CopyIn()))
    ensures SafeToEliminate(CopyState(), OpaqueBypasses.Arrays, WrittenElsewhere(ThreeStates(), 0), "s").Fine?
    ensures MemletAccesses(Renamed(ReadState(), map["s" := SlotOfCell("A")])).Reads(5, SlotOfCell("A"))
    ensures exists prog: Behaviour, m: Machine :: && SlotOfCell("A") in m.store && SlotOfCell("s") in m.store
                              && Copies(prog, 1, SlotOfCell("A"), SlotOfCell("s"))
                              && !StillEqual(ProgramAccesses(), prog, [], 1, [2], SlotOfCell("A"), SlotOfCell("s"), m)
  {
    CopyIsAccepted();
    ReaderIsRenamed();
    SecondStateWrites();
    hide Applicable, SafeToEliminate, MemletAccesses, Copies, StillEqual, ProgramAccesses, SlotOfCell;
    LaterReadKeptIff(ProgramAccesses(), [], 1, [2], SlotOfCell("A"), SlotOfCell("s"));
  }

  lemma SecondStateWrites()
    ensures SlotOfCell("A") != SlotOfCell("s")
    ensures var acc := ProgramAccesses();
            && acc.Reads(1, SlotOfCell("A")) && acc.Writes(1, SlotOfCell("s")) && !acc.Writes(1, SlotOfCell("A"))
            && acc.Writes(2, SlotOfCell("A")) && !acc.Writes(2, SlotOfCell("s"))
  {
    assert SlotOfCell("A").data[0] != SlotOfCell("s").data[0];
  }
}
