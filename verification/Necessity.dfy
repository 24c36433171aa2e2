/**
 Why ordering edges are needed: when a conflict is not ordered by a path, some schedule and some
 behaviour of the tasklets give another result than the captured order.
 */
module Necessity {
  import opened StateGraph
  import opened Scheduling
  import opened Hazards

  // ---- a behaviour that shows which of two tasklets came first ----

  /** The first of x and y to write a slot that holds zero leaves its mark; everything else is kept. */
  function Stamp(x: Node, y: Node): Behaviour {
    (t: Node, view: map<Slot, Value>, s: Slot, old_: Value) =>
      if old_ != 0 then old_ else if t == x then 1 else if t == y then 2 else 0
  }

  function Mark(x: Node, y: Node, t: Node): Value {
    if t == x then 1 else if t == y then 2 else 0
  }

  lemma {:induction false} RunAppend(acc: Accesses, prog: Behaviour, a: seq<Node>, b: seq<Node>, m: Machine)
    ensures Run(acc, prog, a + b, m) == Run(acc, prog, b, Run(acc, prog, a, m))
    decreases |a|
  {
    if a == [] {
      assert a + b == b;
    } else {
      assert (a + b)[1..] == a[1..] + b;
      RunAppend(acc, prog, a[1..], b, Exec(acc, prog, a[0], m));
    }
  }

  lemma RunOne(acc: Accesses, prog: Behaviour, t: Node, m: Machine)
    ensures Run(acc, prog, [t], m) == Exec(acc, prog, t, m)
  {
    assert [t][1..] == [];
  }

  predicate SameSeen(m: Machine, r: Machine, t: Node) {
    (t in r.seen <==> t in m.seen) && (t in m.seen ==> r.seen[t] == m.seen[t])
  }

  /** Tasklets other than x and y change neither the slot nor what x and y have seen. */
  lemma {:induction false} OthersKeep(acc: Accesses, x: Node, y: Node, s: Slot, order: seq<Node>, m: Machine)
    requires x !in order && y !in order && s in m.store
    ensures var r := Run(acc, Stamp(x, y), order, m);
            && s in r.store && r.store[s] == m.store[s]
            && SameSeen(m, r, x) && SameSeen(m, r, y)
    decreases |order|
  {
    if order != [] {
      assert order[0] in order;
      OthersKeep(acc, x, y, s, order[1..], Exec(acc, Stamp(x, y), order[0], m));
    }
  }

  /** What one of the two does and sees. */
  lemma OneStamps(acc: Accesses, x: Node, y: Node, s: Slot, t: Node, m: Machine)
    requires (t == x || t == y) && s in m.store
    ensures var r := Exec(acc, Stamp(x, y), t, m);
            && s in r.store
            && r.store[s] == (if acc.Writes(t, s) && m.store[s] == 0 then Mark(x, y, t) else m.store[s])
            && t in r.seen && (acc.Reads(t, s) ==> s in r.seen[t] && r.seen[t][s] == m.store[s])
            && (x != t ==> SameSeen(m, r, x)) && (y != t ==> SameSeen(m, r, y))
  {
  }

  lemma RunThrough(acc: Accesses, prog: Behaviour, a: seq<Node>, p: Node, b: seq<Node>, q: Node, c: seq<Node>, m: Machine)
    ensures Run(acc, prog, a + ([p] + (b + ([q] + c))), m)
         == Run(acc, prog, c, Exec(acc, prog, q, Run(acc, prog, b, Exec(acc, prog, p, Run(acc, prog, a, m)))))
  {
    hide Run, Exec;
    var m1 := Run(acc, prog, a, m);
    var m2 := Exec(acc, prog, p, m1);
    var m3 := Run(acc, prog, b, m2);
    RunAppend(acc, prog, a, [p] + (b + ([q] + c)), m);
    RunAppend(acc, prog, [p], b + ([q] + c), m1);
    RunOne(acc, prog, p, m1);
    RunAppend(acc, prog, b, [q] + c, m2);
    RunAppend(acc, prog, [q], c, m3);
    RunOne(acc, prog, q, m3);
  }

  /** The slot and the views when p acts on a zero in m1, and q afterwards. */
  lemma TwoStamps(acc: Accesses, x: Node, y: Node, s: Slot, p: Node, q: Node, m1: Machine, m3: Machine, m5: Machine)
    requires p != q && (p == x || p == y) && (q == x || q == y)
    requires s in m1.store && m1.store[s] == 0 && s in m3.store && s in m5.store
    requires var m2, m4 := Exec(acc, Stamp(x, y), p, m1), Exec(acc, Stamp(x, y), q, m3);
             && m2.store[s] == m3.store[s] && SameSeen(m2, m3, p)
             && m4.store[s] == m5.store[s] && SameSeen(m4, m5, p) && SameSeen(m4, m5, q)
    ensures MarksShow(acc, x, y, s, p, q, m5)
  {
    OneStamps(acc, x, y, s, p, m1);
    OneStamps(acc, x, y, s, q, m3);
  }

  /** The slot shows the mark of the first writer among p and q; a reading p has seen zero, and a
      reading q the mark of a writing p. */
  predicate MarksShow(acc: Accesses, x: Node, y: Node, s: Slot, p: Node, q: Node, r: Machine) {
    && s in r.store
    && r.store[s] == (if acc.Writes(p, s) then Mark(x, y, p) else if acc.Writes(q, s) then Mark(x, y, q) else 0)
    && p in r.seen && (acc.Reads(p, s) ==> s in r.seen[p] && r.seen[p][s] == 0)
    && q in r.seen
    && (acc.Reads(q, s) ==> s in r.seen[q] && r.seen[q][s] == if acc.Writes(p, s) then Mark(x, y, p) else 0)
  }

  /** After any order in which p comes before q the marks show it. */
  lemma FirstLeavesMark(acc: Accesses, x: Node, y: Node, s: Slot, p: Node, q: Node, order: seq<Node>, m: Machine)
    requires x != y && ((p == x && q == y) || (p == y && q == x)) && NoDuplicates(order) && Before(order, p, q)
    requires s in m.store && m.store[s] == 0
    ensures MarksShow(acc, x, y, s, p, q, Run(acc, Stamp(x, y), order, m))
  {
    hide Run, Exec, Stamp, MarksShow, SameSeen;
    var i, j :| 0 <= i < j < |order| && order[i] == p && order[j] == q;
    var before, between, behind := order[..i], order[i + 1..j], order[j + 1..];
    TwoApart(order, i, j);
    var prog := Stamp(x, y);
    var m1 := Run(acc, prog, before, m);
    var m2 := Exec(acc, prog, p, m1);
    var m3 := Run(acc, prog, between, m2);
    var m4 := Exec(acc, prog, q, m3);
    var m5 := Run(acc, prog, behind, m4);
    assert order == before + ([p] + (between + ([q] + behind)));
    RunThrough(acc, prog, before, p, between, q, behind, m);
    OthersKeep(acc, x, y, s, before, m);
    SlotStays(acc, prog, p, m1, s);
    OthersKeep(acc, x, y, s, between, m2);
    SlotStays(acc, prog, q, m3, s);
    OthersKeep(acc, x, y, s, behind, m4);
    TwoStamps(acc, x, y, s, p, q, m1, m3, m5);
  }

  lemma SlotStays(acc: Accesses, prog: Behaviour, t: Node, m: Machine, s: Slot)
    requires s in m.store
    ensures s in Exec(acc, prog, t, m).store
  {
  }

  lemma TwoApart(order: seq<Node>, i: nat, j: nat)
    requires NoDuplicates(order) && i < j < |order|
    ensures order[i] !in order[..i] && order[j] !in order[..i]
    ensures order[i] !in order[i + 1..j] && order[j] !in order[i + 1..j]
    ensures order[i] !in order[j + 1..] && order[j] !in order[j + 1..]
  {
  }

  /** Two orders that disagree on a conflicting pair end differently for some behaviour. */
  lemma DisagreementShows(acc: Accesses, u: Node, v: Node, s: Slot, a: seq<Node>, b: seq<Node>)
    requires acc.ConflictOn(s, u, v) && u != v && NoDuplicates(a) && NoDuplicates(b)
    requires Before(a, u, v) && Before(b, v, u)
    ensures exists prog, m :: Run(acc, prog, a, m) != Run(acc, prog, b, m)
  {
    var m := Machine(map[s := 0], map[]);
    FirstLeavesMark(acc, u, v, s, u, v, a, m);
    FirstLeavesMark(acc, u, v, s, v, u, b, m);
    assert Run(acc, Stamp(u, v), a, m) != Run(acc, Stamp(u, v), b, m);
  }

  // ---- an order that puts the later one first ----

  /** A set in captured order. */
  lemma {:induction false} SortedExists(ts: set<Node>, topo: Order) returns (sorted: seq<Node>)
    requires ts <= topo.Keys && Injective(topo)
    ensures IsOriginal(ts, topo, sorted)
    decreases |ts|
  {
    if ts == {} {
      sorted := [];
    } else {
      EarliestExists(ts, topo);
      var t :| t in ts && forall u :: u in ts ==> topo[t] <= topo[u];
      var rest := SortedExists(ts - {t}, topo);
      sorted := [t] + rest;
      forall i, j | 0 <= i < j < |sorted| ensures topo[sorted[i]] < topo[sorted[j]] {
        assert sorted[j] == rest[j - 1] && sorted[j] in rest;
        if i > 0 {
          assert sorted[i] == rest[i - 1];
        }
      }
    }
  }

  lemma NothingEnters(g: Graph, within: set<Node>, v: Node, x: Node, y: Node)
    requires x in within && y in within && v in within && (y == v || Connected(g, within, y, v))
    requires x != v && !Connected(g, within, x, v)
    ensures !g.HasEdge(x, y)
  {
    if g.HasEdge(x, y) {
      if y == v {
        EdgeConnects(g, within, x, v);
      } else {
        PathInFront(g, within, x, y, v);
      }
    }
  }

  /** One part after the other, when no edge leads back. */
  lemma InTurn(g: Graph, front: set<Node>, rest: set<Node>, a: seq<Node>, b: seq<Node>)
    requires Respects(g, front, a) && Respects(g, rest, b) && front !! rest
    requires forall x, y :: x in rest && y in front ==> !g.HasEdge(x, y)
    ensures Respects(g, front + rest, a + b)
  {
    var order := a + b;
    forall i, j | 0 <= i < j < |order|
      ensures order[i] != order[j] && !g.HasEdge(order[j], order[i])
    {
      if i < |a| <= j {
        assert order[i] in a && order[j] in b;
      }
    }
  }

  /** Everything from which v can be reached, in captured order, then everything else. */
  lemma EarlyOrder(g: Graph, within: set<Node>, topo: Order, u: Node, v: Node) returns (order: seq<Node>)
    requires g.Forward(topo) && Injective(topo) && within <= topo.Keys
    requires u in within && v in within && u != v && !Connected(g, within, u, v)
    ensures Respects(g, within, order) && Before(order, v, u)
  {
    var front := set n | n in within && (n == v || Connected(g, within, n, v));
    var a := SortedExists(front, topo);
    var b := SortedExists(within - front, topo);
    order := a + b;
    OriginalIsSchedule(g, front, topo, a);
    OriginalIsSchedule(g, within - front, topo, b);
    forall x, y | x in within - front && y in front ensures !g.HasEdge(x, y) {
      NothingEnters(g, within, v, x, y);
    }
    InTurn(g, front, within - front, a, b);
    assert front + (within - front) == within;
    assert v in a && u in b;
    var k :| 0 <= k < |a| && a[k] == v;
    var l :| 0 <= l < |b| && b[l] == u;
    assert order[k] == v && order[|a| + l] == u;
  }

  // ---- exactly when ----

  /** Every order that respects the edges computes what the captured one computes. */
  ghost predicate SchedulesAgree(g: Graph, within: set<Node>, acc: Accesses, original: seq<Node>) {
    forall order, prog, m :: Respects(g, within, order) ==> Run(acc, prog, order, m) == Run(acc, prog, original, m)
  }

  /** All schedules agree, for all behaviours of the tasklets, exactly when every conflict is ordered
      by a path. */
  lemma SchedulesAgreeIff(g: Graph, within: set<Node>, acc: Accesses, topo: Order, original: seq<Node>)
    requires g.Forward(topo) && Injective(topo) && within <= topo.Keys && IsOriginal(within, topo, original)
    ensures SchedulesAgree(g, within, acc, original) <==> ConflictsOrdered(Paths(g, within), within, acc, topo)
  {
    if ConflictsOrdered(Paths(g, within), within, acc, topo) {
      forall order, prog, m | Respects(g, within, order)
        ensures Run(acc, prog, order, m) == Run(acc, prog, original, m)
      {
        OrderedConflictsAgree(g, within, acc, topo, original, order, prog, m);
      }
    } else {
      var u, v :| u in within && v in within && topo[u] < topo[v] && acc.Conflict(u, v) && !Connected(g, within, u, v);
      var s :| acc.ConflictOn(s, u, v);
      var order := EarlyOrder(g, within, topo, u, v);
      OriginalHas(topo, original, u, v);
      DisagreementShows(acc, u, v, s, original, order);
    }
  }

  lemma OriginalHas(topo: Order, original: seq<Node>, u: Node, v: Node)
    requires SortedBy(topo, original) && u in original && v in original && topo[u] < topo[v]
    ensures NoDuplicates(original) && Before(original, u, v)
  {
    var i :| 0 <= i < |original| && original[i] == u;
    var j :| 0 <= j < |original| && original[j] == v;
    assert i < j;
  }
}
