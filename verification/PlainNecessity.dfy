/** The other half: where sources are not ordered, some plain behaviour shows it. */
module PlainNecessity {
  import opened Basics
  import opened StateGraph
  import opened Scheduling
  import opened Hazards
  import opened Necessity
  import opened PlainWrites

  /** w writes one everywhere, all others write zero. */
  function Only(w: Node): Behaviour {
    (t: Node, view: map<Slot, Value>, s: Slot, old_: Value) => if t == w then 1 else 0
  }

  function Blank(s: Slot): Machine {
    Machine(map[s := 0], map[])
  }

  lemma OnlyIsPlain(w: Node)
    ensures IsPlain(Only(w))
  {
  }

  function OneIf(b: bool): Value {
    if b then 1 else 0
  }

  lemma StoreTells(acc: Accesses, w: Node, order: seq<Node>, s: Slot)
    requires NoDuplicates(order)
    ensures var r := Run(acc, Only(w), order, Blank(s));
            s in r.store && r.store[s] == OneIf(LastWriter(acc, s, order) == Some(w))
  {
    OnlyIsPlain(w);
    StoreShows(acc, Only(w), order, Blank(s), s);
  }

  lemma ReaderTells(acc: Accesses, w: Node, order: seq<Node>, s: Slot, i: nat)
    requires NoDuplicates(order) && i < |order| && acc.Reads(order[i], s)
    ensures var r := Run(acc, Only(w), order, Blank(s));
            && order[i] in r.seen && s in r.seen[order[i]]
            && r.seen[order[i]][s] == OneIf(LastWriter(acc, s, order[..i]) == Some(w))
  {
    SeenShows(acc, Only(w), order, Blank(s), i);
    StoreTells(acc, w, order[..i], s);
  }

  /** Orders with different sources end differently. */
  lemma OtherSourceShows(acc: Accesses, a: seq<Node>, b: seq<Node>, i: nat, j: nat, s: Slot, w: Node)
    requires NoDuplicates(a) && NoDuplicates(b) && i < |a| && j < |b| && a[i] == b[j] && acc.Reads(a[i], s)
    requires LastWriter(acc, s, a[..i]) == Some(w) != LastWriter(acc, s, b[..j])
    ensures Run(acc, Only(w), a, Blank(s)) != Run(acc, Only(w), b, Blank(s))
  {
    ReaderTells(acc, w, a, s, i);
    ReaderTells(acc, w, b, s, j);
  }

  lemma OtherLastShows(acc: Accesses, a: seq<Node>, b: seq<Node>, s: Slot, w: Node)
    requires NoDuplicates(a) && NoDuplicates(b)
    requires LastWriter(acc, s, a) == Some(w) != LastWriter(acc, s, b)
    ensures Run(acc, Only(w), a, Blank(s)) != Run(acc, Only(w), b, Blank(s))
  {
    StoreTells(acc, w, a, s);
    StoreTells(acc, w, b, s);
  }

  /** All orders that respect the edges agree, for behaviours that overwrite without looking. */
  ghost predicate PlainSchedulesAgree(g: Graph, within: set<Node>, acc: Accesses, original: seq<Node>) {
    forall order, prog, m :: Respects(g, within, order) && IsPlain(prog)
      ==> Run(acc, prog, order, m) == Run(acc, prog, original, m)
  }

  /** Two orders that end differently: one of them differs from the original. */
  lemma Disagree(g: Graph, within: set<Node>, acc: Accesses, original: seq<Node>, a: seq<Node>, b: seq<Node>,
                 w: Node, s: Slot)
    requires Respects(g, within, a) && Respects(g, within, b)
    requires Run(acc, Only(w), a, Blank(s)) != Run(acc, Only(w), b, Blank(s))
    ensures !PlainSchedulesAgree(g, within, acc, original)
  {
    OnlyIsPlain(w);
    var there := Run(acc, Only(w), original, Blank(s));
    assert Run(acc, Only(w), a, Blank(s)) != there || Run(acc, Only(w), b, Blank(s)) != there;
  }

  // ---- a reader and a writer side by side ----

  /** Everything from which one of the nodes can be reached. */
  ghost function Ancestors(g: Graph, within: set<Node>, of: set<Node>): set<Node> {
    set n | n in within && exists v :: v in of && Connected(g, within, n, v)
  }

  lemma AncestorsAreClosed(g: Graph, within: set<Node>, of: set<Node>, x: Node, y: Node)
    requires x in within && y in within && (y in Ancestors(g, within, of) || y in of) && g.HasEdge(x, y)
    ensures x in Ancestors(g, within, of)
  {
    if y in of {
      EdgeConnects(g, within, x, y);
    } else {
      var v :| v in of && Connected(g, within, y, v);
      PathInFront(g, within, x, y, v);
    }
  }

  lemma OneRespects(g: Graph, n: Node)
    ensures Respects(g, {n}, [n])
  {
  }

  /** Two nodes not joined by a path can stand side by side, u in front of v. */
  lemma SideBySide(g: Graph, within: set<Node>, topo: Order, front: set<Node>, a: seq<Node>, c: seq<Node>, u: Node, v: Node)
    requires g.Forward(topo) && within <= topo.Keys
    requires u in within && v in within && u != v && !Connected(g, within, u, v) && !Connected(g, within, v, u)
    requires front == Ancestors(g, within, {u, v})
    requires Respects(g, front, a) && Respects(g, within - front - {u} - {v}, c)
    ensures Respects(g, within, a + [u] + [v] + c)
  {
    assert u !in front && v !in front by {
      NotOwnAncestor(g, within, topo, u, v);
      NotOwnAncestor(g, within, topo, v, u);
      assert {u, v} == {v, u};
    }
    OneRespects(g, u);
    OneRespects(g, v);
    forall x, y | x in within && y in front ensures g.HasEdge(x, y) ==> x in front {
      if g.HasEdge(x, y) {
        AncestorsAreClosed(g, within, {u, v}, x, y);
      }
    }
    forall x, y | x in within && y in {u, v} ensures g.HasEdge(x, y) ==> x in front {
      if g.HasEdge(x, y) {
        AncestorsAreClosed(g, within, {u, v}, x, y);
      }
    }
    InTurn(g, front, {u}, a, [u]);
    InTurn(g, front + {u}, {v}, a + [u], [v]);
    InTurn(g, front + {u} + {v}, within - front - {u} - {v}, a + [u] + [v], c);
    assert front + {u} + {v} + (within - front - {u} - {v}) == within;
  }

  lemma NotOwnAncestor(g: Graph, within: set<Node>, topo: Order, u: Node, v: Node)
    requires g.Forward(topo) && within <= topo.Keys && !Connected(g, within, u, v)
    ensures u !in Ancestors(g, within, {u, v})
  {
    if Connected(g, within, u, u) {
      ConnectedForward(g, within, topo, u, u);
    }
  }

  /** An unordered reader and writer: the reader sees the writer's value in one order only. */
  lemma UnorderedReaderShows(g: Graph, within: set<Node>, acc: Accesses, topo: Order, original: seq<Node>,
                             r: Node, w: Node, s: Slot)
    requires g.Forward(topo) && Injective(topo) && within <= topo.Keys
    requires r in within && w in within && r != w && acc.Reads(r, s) && acc.Writes(w, s)
    requires !Connected(g, within, r, w) && !Connected(g, within, w, r)
    ensures !PlainSchedulesAgree(g, within, acc, original)
  {
    var front := Ancestors(g, within, {r, w});
    assert {r, w} == {w, r};
    var a := SortedExists(front, topo);
    var c := SortedExists(within - front - {r} - {w}, topo);
    assert within - front - {r} - {w} == within - front - {w} - {r};
    OriginalIsSchedule(g, front, topo, a);
    OriginalIsSchedule(g, within - front - {r} - {w}, topo, c);
    SideBySide(g, within, topo, front, a, c, w, r);
    SideBySide(g, within, topo, front, a, c, r, w);
    var x, y := a + [w] + [r] + c, a + [r] + [w] + c;
    var i, j := |a| + 1, |a|;
    assert x[..i] == a + [w] && y[..j] == a && x[i] == r == y[j];
    assert (a + [w])[..|a|] == a;
    LastWriterIsIn(acc, s, a);
    NotOwnAncestor(g, within, topo, w, r);
    assert w !in a;
    OtherSourceShows(acc, x, y, i, j, s, w);
    Disagree(g, within, acc, original, x, y, w, s);
  }

  // ---- two candidates for the last writer ----

  lemma {:induction false} LatestExists(ts: set<Node>, topo: Order)
    requires ts != {} && ts <= topo.Keys
    ensures exists t :: t in ts && forall u :: u in ts ==> topo[u] <= topo[t]
  {
    var x :| x in ts;
    if ts != {x} {
      LatestExists(ts - {x}, topo);
      var y :| y in ts - {x} && forall u :: u in ts - {x} ==> topo[u] <= topo[y];
      var most := if topo[x] <= topo[y] then y else x;
      assert most in ts && forall u :: u in ts ==> topo[u] <= topo[most];
    }
  }

  /** No other one comes after w. */
  ghost predicate IsMaximal(g: Graph, within: set<Node>, ws: set<Node>, w: Node) {
    w in ws && forall t :: t in ws ==> !Connected(g, within, w, t)
  }

  /** Without a last one there are two that nothing follows. */
  lemma TwoMaximal(g: Graph, within: set<Node>, topo: Order, ws: set<Node>) returns (v: Node, w: Node)
    requires g.Forward(topo) && within <= topo.Keys && ws <= within && !HasLast(Paths(g, within), ws)
    ensures v != w && IsMaximal(g, within, ws, v) && IsMaximal(g, within, ws, w)
  {
    LatestExists(ws, topo);
    v :| v in ws && forall u :: u in ws ==> topo[u] <= topo[v];
    forall t | t in ws ensures !Connected(g, within, v, t) {
      if Connected(g, within, v, t) {
        ConnectedForward(g, within, topo, v, t);
      }
    }
    assert !IsLast(Paths(g, within), ws, v);
    var others := set u | u in ws && u != v && !Connected(g, within, u, v);
    assert others != {} by {
      var u :| u in ws && u != v && (u, v) !in Paths(g, within);
      assert u in others;
    }
    LatestExists(others, topo);
    w :| w in others && forall u :: u in others ==> topo[u] <= topo[w];
    forall t | t in ws ensures !Connected(g, within, w, t) {
      if Connected(g, within, w, t) {
        ConnectedForward(g, within, topo, w, t);
        if t != v && Connected(g, within, t, v) {
          ConnectedTrans(g, within, w, t, v);
        }
      }
    }
  }

  ghost predicate IsClosed(g: Graph, within: set<Node>, front: set<Node>) {
    front <= within && forall x, y :: x in within && y in front && g.HasEdge(x, y) ==> x in front
  }

  /** The front part first, w and what follows it at its end; then everything else. */
  lemma LateInFront(g: Graph, within: set<Node>, topo: Order, front: set<Node>, w: Node) returns (order: seq<Node>)
    requires g.Forward(topo) && Injective(topo) && within <= topo.Keys && IsClosed(g, within, front) && w in front
    ensures Respects(g, within, order)
    ensures forall t :: t in front && t != w && !Connected(g, within, w, t) ==> Before(order, t, w)
  {
    var early := set t | t in front && t != w && !Connected(g, within, w, t);
    var a := SortedExists(early, topo);
    var b := SortedExists(front - early, topo);
    var c := SortedExists(within - front, topo);
    OriginalIsSchedule(g, early, topo, a);
    OriginalIsSchedule(g, front - early, topo, b);
    OriginalIsSchedule(g, within - front, topo, c);
    forall x, y | x in front - early && y in early ensures !g.HasEdge(x, y) {
      if g.HasEdge(x, y) {
        if x == w {
          EdgeConnects(g, within, w, y);
        } else {
          EdgeExtends(g, within, w, x, y);
        }
      }
    }
    InTurn(g, early, front - early, a, b);
    assert early + (front - early) == front;
    InTurn(g, front, within - front, a + b, c);
    assert front + (within - front) == within;
    order := a + b + c;
    forall t | t in early ensures Before(order, t, w) {
      assert t in a && w in b;
      var i :| 0 <= i < |a| && a[i] == t;
      var j :| 0 <= j < |b| && b[j] == w;
      assert order[i] == t && order[|a| + j] == w;
    }
  }

  /** A reader can be made to see any writer that no other writer in front of it follows. */
  lemma ReaderSees(g: Graph, within: set<Node>, acc: Accesses, topo: Order, r: Node, s: Slot, w: Node)
    returns (order: seq<Node>, i: nat)
    requires g.Forward(topo) && Injective(topo) && within <= topo.Keys && r in within && acc.Reads(r, s)
    requires ReadersOrdered(Paths(g, within), within, acc)
    requires IsMaximal(g, within, WritersBefore(Paths(g, within), acc, within, s, r), w)
    ensures Respects(g, within, order) && i < |order| && order[i] == r && LastWriter(acc, s, order[..i]) == Some(w)
  {
    var front, ws := Ancestors(g, within, {r}), WritersBefore(Paths(g, within), acc, within, s, r);
    forall x, y | x in within && y in front && g.HasEdge(x, y) ensures x in front {
      AncestorsAreClosed(g, within, {r}, x, y);
    }
    forall t | t in ws ensures t in front {
      assert Connected(g, within, t, r) && r in {r};
    }
    order := LateInFront(g, within, topo, front, w);
    assert r in order;
    i :| 0 <= i < |order| && order[i] == r;
    forall t ensures t in order[..i] && acc.Writes(t, s) <==> t in ws {
      WritersInFront(g, within, acc, topo, order, i, s, t);
    }
    forall t | t in order[..i] && acc.Writes(t, s) && t != w ensures Before(order[..i], t, w) {
      assert t in ws;
      PrefixBefore(order, i, t, w);
    }
    LastWriterIs(acc, s, order[..i], w);
  }

  lemma TwoSourcesShow(g: Graph, within: set<Node>, acc: Accesses, topo: Order, original: seq<Node>, r: Node, s: Slot)
    requires g.Forward(topo) && Injective(topo) && within <= topo.Keys && r in within && acc.Reads(r, s)
    requires ReadersOrdered(Paths(g, within), within, acc)
    requires !HasLast(Paths(g, within), WritersBefore(Paths(g, within), acc, within, s, r))
    ensures !PlainSchedulesAgree(g, within, acc, original)
  {
    var v, w := TwoMaximal(g, within, topo, WritersBefore(Paths(g, within), acc, within, s, r));
    var a, i := ReaderSees(g, within, acc, topo, r, s, v);
    var b, j := ReaderSees(g, within, acc, topo, r, s, w);
    OtherSourceShows(acc, a, b, i, j, s, v);
    Disagree(g, within, acc, original, a, b, v, s);
  }

  /** Any writer that no other one follows can be the last one. */
  lemma WritesLast(g: Graph, within: set<Node>, acc: Accesses, topo: Order, s: Slot, w: Node) returns (order: seq<Node>)
    requires g.Forward(topo) && Injective(topo) && within <= topo.Keys && IsMaximal(g, within, Writers(acc, within, s), w)
    ensures Respects(g, within, order) && LastWriter(acc, s, order) == Some(w)
  {
    order := LateInFront(g, within, topo, within, w);
    forall t | t in order && acc.Writes(t, s) && t != w ensures Before(order, t, w) {
      assert t in Writers(acc, within, s);
    }
    LastWriterIs(acc, s, order, w);
  }

  lemma TwoLastShow(g: Graph, within: set<Node>, acc: Accesses, topo: Order, original: seq<Node>, s: Slot)
    requires g.Forward(topo) && Injective(topo) && within <= topo.Keys
    requires !HasLast(Paths(g, within), Writers(acc, within, s))
    ensures !PlainSchedulesAgree(g, within, acc, original)
  {
    var v, w := TwoMaximal(g, within, topo, Writers(acc, within, s));
    var a := WritesLast(g, within, acc, topo, s, v);
    var b := WritesLast(g, within, acc, topo, s, w);
    OtherLastShows(acc, a, b, s, v);
    Disagree(g, within, acc, original, a, b, v, s);
  }

  /** All schedules agree, for all behaviours that overwrite without looking, exactly when every read
      and write of a slot are ordered by a path, the writers before each reader have a last one, and so
      have all writers of a slot. */
  lemma PlainSchedulesAgreeIff(g: Graph, within: set<Node>, acc: Accesses, topo: Order, original: seq<Node>)
    requires g.Forward(topo) && Injective(topo) && within <= topo.Keys && IsOriginal(within, topo, original)
    ensures PlainSchedulesAgree(g, within, acc, original) <==> SourcesOrdered(Paths(g, within), within, acc)
  {
    var before := Paths(g, within);
    if SourcesOrdered(before, within, acc) {
      OriginalIsSchedule(g, within, topo, original);
      forall order, prog, m | Respects(g, within, order) && IsPlain(prog)
        ensures Run(acc, prog, order, m) == Run(acc, prog, original, m)
      {
        OrderedSourcesAgree(g, within, acc, topo, order, original);
        SameSourcesAgree(acc, prog, order, original, m);
      }
    } else if !ReadersOrdered(before, within, acc) {
      var r, w, s :| r in within && w in within && r != w && acc.Reads(r, s) && acc.Writes(w, s)
                     && (r, w) !in before && (w, r) !in before;
      UnorderedReaderShows(g, within, acc, topo, original, r, w, s);
    } else if r, s :| r in within && acc.Reads(r, s) && !HasLast(before, WritersBefore(before, acc, within, s, r)) {
      TwoSourcesShow(g, within, acc, topo, original, r, s);
    } else {
      var s :| !HasLast(before, Writers(acc, within, s));
      TwoLastShow(g, within, acc, topo, original, s);
    }
  }

  // ---- a conflict that does not matter ----

  function Writer(): Kind {
    Tasklet(OtherCode, {}, {"o"})
  }

  /** Tasklet 2 after tasklets 0 and 1. */
  function ThreeWriters(): Graph {
    Graph(map[0 := Writer(), 1 := Writer(), 2 := Writer()], {OrderingEdge(0, 2), OrderingEdge(1, 2)})
  }

  function Overwriting(s: Slot): Accesses {
    Accesses(map[], map[s := {0, 1, 2}])
  }

  lemma ThirdIsLast(s: Slot)
    ensures SourcesOrdered(Paths(ThreeWriters(), {0, 1, 2}), {0, 1, 2}, Overwriting(s))
  {
    var g, within: set<Node> := ThreeWriters(), {0, 1, 2};
    assert OrderingEdge(0, 2) in g.edges && OrderingEdge(1, 2) in g.edges;
    EdgeConnects(g, within, 0, 2);
    EdgeConnects(g, within, 1, 2);
    assert Writers(Overwriting(s), within, s) == within && IsLast(Paths(g, within), within, 2);
    forall x | x != s ensures Writers(Overwriting(s), within, x) == {} {
    }
  }

  lemma FirstTwoUnordered()
    ensures !Connected(ThreeWriters(), {0, 1, 2}, 0, 1)
  {
    forall p ensures !IsPath(ThreeWriters(), {0, 1, 2}, 0, 1, p) {
      if |p| >= 2 && p[|p| - 1] == 1 {
        assert !ThreeWriters().HasEdge(p[|p| - 2], p[|p| - 2 + 1]);
      }
    }
  }

  /** Three writers of one slot, the third after both others: the first two conflict without being
      ordered, and no plain behaviour shows it. */
  lemma OverwrittenConflictIsHarmless(s: Slot, topo: Order, original: seq<Node>)
    requires topo == map[0 := 0, 1 := 1, 2 := 2] && original == [0, 1, 2]
    ensures ThreeWriters().Forward(topo) && IsOriginal({0, 1, 2}, topo, original)
    ensures !ConflictsOrdered(Paths(ThreeWriters(), {0, 1, 2}), {0, 1, 2}, Overwriting(s), topo)
    ensures PlainSchedulesAgree(ThreeWriters(), {0, 1, 2}, Overwriting(s), original)
  {
    hide SourcesOrdered, PlainSchedulesAgree;
    ThirdIsLast(s);
    FirstTwoUnordered();
    PlainSchedulesAgreeIff(ThreeWriters(), {0, 1, 2}, Overwriting(s), topo, original);
    var u: Node, v: Node := 0, 1;
    assert Overwriting(s).ConflictOn(s, u, v);
  }
}
