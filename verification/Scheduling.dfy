/**
 Tasklets as deterministic programs over memory slots, and why it is enough to keep conflicting
 tasklets in order.
 */
module Scheduling {
  import opened StateGraph

  /** Per slot, the tasklets that read it and the tasklets that write it. */
  datatype Accesses = Accesses(readers: map<Slot, set<Node>>, writers: map<Slot, set<Node>>) {

    predicate Reads(t: Node, s: Slot) {
      s in readers && t in readers[s]
    }

    predicate Writes(t: Node, s: Slot) {
      s in writers && t in writers[s]
    }

    predicate Touches(t: Node, s: Slot) {
      Reads(t, s) || Writes(t, s)
    }

    /** Both tasklets touch the slot and at least one writes it. */
    predicate ConflictOn(s: Slot, t: Node, u: Node) {
      Touches(t, s) && Touches(u, s) && (Writes(t, s) || Writes(u, s))
    }

    ghost predicate Conflict(t: Node, u: Node) {
      exists s :: ConflictOn(s, t, u)
    }

    /** Tasklets of the state that touch some tracked slot. */
    function Tasks(nodes: set<Node>): set<Node> {
      set t | t in nodes && ((exists s :: s in readers && t in readers[s]) || (exists s :: s in writers && t in writers[s]))
    }
  }

  /** What a tasklet writes to a slot, given the values it reads and the one it overwrites (memlets
      may accumulate). */
  type Behaviour = (Node, map<Slot, Value>, Slot, Value) -> Value

  /** Memory, and what every tasklet executed so far has seen. */
  datatype Machine = Machine(store: map<Slot, Value>, seen: map<Node, map<Slot, Value>>)

  function View(acc: Accesses, t: Node, store: map<Slot, Value>): map<Slot, Value> {
    map s | s in store && acc.Reads(t, s) :: store[s]
  }

  function Exec(acc: Accesses, prog: Behaviour, t: Node, m: Machine): Machine {
    var view := View(acc, t, m.store);
    Machine(map s | s in m.store :: if acc.Writes(t, s) then prog(t, view, s, m.store[s]) else m.store[s],
            m.seen[t := view])
  }

  function Run(acc: Accesses, prog: Behaviour, order: seq<Node>, m: Machine): Machine
    decreases |order|
  {
    if order == [] then m else Run(acc, prog, order[1..], Exec(acc, prog, order[0], m))
  }

  ghost predicate NoDuplicates(s: seq<Node>) {
    forall i, j :: 0 <= i < j < |s| ==> s[i] != s[j]
  }

  ghost predicate Before(order: seq<Node>, t: Node, u: Node) {
    exists i, j :: 0 <= i < j < |order| && order[i] == t && order[j] == u
  }

  /** b is a permutation of a that keeps the order of every conflicting pair of a. */
  ghost predicate KeepsConflicts(acc: Accesses, a: seq<Node>, b: seq<Node>) {
    && NoDuplicates(a) && NoDuplicates(b)
    && (forall t :: t in a <==> t in b)
    && (forall i, j :: 0 <= i < j < |a| && acc.Conflict(a[i], a[j]) ==> Before(b, a[i], a[j]))
  }

  lemma ViewUnaffected(acc: Accesses, prog: Behaviour, t: Node, u: Node, m: Machine)
    requires !acc.Conflict(t, u)
    ensures View(acc, u, Exec(acc, prog, t, m).store) == View(acc, u, m.store)
  {
    forall s | acc.Reads(u, s) ensures !acc.Writes(t, s) {
      assert !acc.ConflictOn(s, t, u);
    }
  }

  lemma IndependentCommute(acc: Accesses, prog: Behaviour, t: Node, u: Node, m: Machine)
    requires t != u && !acc.Conflict(t, u)
    ensures Exec(acc, prog, u, Exec(acc, prog, t, m)) == Exec(acc, prog, t, Exec(acc, prog, u, m))
  {
    assert forall s :: acc.ConflictOn(s, t, u) == acc.ConflictOn(s, u, t);
    ViewUnaffected(acc, prog, t, u, m);
    ViewUnaffected(acc, prog, u, t, m);
    forall s ensures !(acc.Writes(t, s) && acc.Writes(u, s)) {
      assert !acc.ConflictOn(s, t, u);
    }
    assert m.seen[t := View(acc, t, m.store)][u := View(acc, u, m.store)]
        == m.seen[u := View(acc, u, m.store)][t := View(acc, t, m.store)];
  }

  /** A tasklet that conflicts with none of its predecessors may as well run first. */
  lemma {:induction false} MoveToFront(acc: Accesses, prog: Behaviour, b: seq<Node>, i: nat, m: Machine)
    requires i < |b| && NoDuplicates(b)
    requires forall j :: 0 <= j < i ==> !acc.Conflict(b[i], b[j])
    ensures Run(acc, prog, b, m) == Run(acc, prog, [b[i]] + b[..i] + b[i + 1..], m)
    decreases |b|
  {
    hide Run, Exec, Accesses.Conflict;
    var x, h := b[i], b[0];
    if i == 0 {
      assert b == [b[0]] + b[..0] + b[1..];
    } else {
      var rest := b[1..i] + b[i + 1..];
      MoveToFront(acc, prog, b[1..], i - 1, Exec(acc, prog, h, m));
      assert b[1..][..i - 1] == b[1..i] && b[1..][i..] == b[i + 1..];
      assert [x] + b[1..i] + b[i + 1..] == [x] + rest;
      assert b == [h] + b[1..];
      RunCons(acc, prog, h, b[1..], m);
      RunCons(acc, prog, x, rest, Exec(acc, prog, h, m));
      IndependentCommute(acc, prog, x, h, m);
      RunCons(acc, prog, h, rest, Exec(acc, prog, x, m));
      RunCons(acc, prog, x, [h] + rest, m);
      assert [x] + b[..i] + b[i + 1..] == [x] + ([h] + rest);
    }
  }

  lemma RunCons(acc: Accesses, prog: Behaviour, t: Node, rest: seq<Node>, m: Machine)
    ensures Run(acc, prog, [t] + rest, m) == Run(acc, prog, rest, Exec(acc, prog, t, m))
  {
    assert ([t] + rest)[1..] == rest;
  }

  lemma BeforeAsymmetric(b: seq<Node>, t: Node, u: Node)
    requires NoDuplicates(b) && Before(b, t, u)
    ensures !Before(b, u, t)
  {
    var i, j :| 0 <= i < j < |b| && b[i] == t && b[j] == u;
    forall p, q | 0 <= p < q < |b| ensures !(b[p] == u && b[q] == t) {
      assert b[p] == b[j] ==> p == j;
      assert b[q] == b[i] ==> q == i;
    }
  }

  lemma RemovalKeepsBefore(b: seq<Node>, i: nat, t: Node, u: Node)
    requires i < |b| && Before(b, t, u) && t != b[i] && u != b[i]
    ensures Before(b[..i] + b[i + 1..], t, u)
  {
    var p, q :| 0 <= p < q < |b| && b[p] == t && b[q] == u;
    var b' := b[..i] + b[i + 1..];
    var p', q' := if p < i then p else p - 1, if q < i then q else q - 1;
    assert b'[p'] == t && b'[q'] == u && p' < q';
  }

  lemma RestKeepsConflicts(acc: Accesses, a: seq<Node>, b: seq<Node>, i: nat)
    requires KeepsConflicts(acc, a, b) && a != [] && i < |b| && b[i] == a[0]
    ensures KeepsConflicts(acc, a[1..], b[..i] + b[i + 1..])
  {
    var a', b' := a[1..], b[..i] + b[i + 1..];
    forall k, l | 0 <= k < l < |b'| ensures b'[k] != b'[l] {
      assert b'[k] == b[if k < i then k else k + 1] && b'[l] == b[if l < i then l else l + 1];
    }
    forall t ensures t in a' <==> t in b' {
      assert t in a <==> t == a[0] || t in a';
      assert t in b <==> t == b[i] || t in b';
      assert a[0] !in a';
      assert b[i] !in b';
    }
    forall k, l | 0 <= k < l < |a'| && acc.Conflict(a'[k], a'[l]) ensures Before(b', a'[k], a'[l]) {
      assert acc.Conflict(a[k + 1], a[l + 1]);
      RemovalKeepsBefore(b, i, a[k + 1], a[l + 1]);
    }
  }

  lemma HasElement(b: seq<Node>)
    requires b != []
    ensures exists t :: t in b
  {
    assert b[0] in b;
  }

  /** Orders that agree on every conflicting pair compute the same: every tasklet sees the same
      values and memory ends up the same. */
  lemma {:induction false} ConflictOrderDecides(acc: Accesses, prog: Behaviour, a: seq<Node>, b: seq<Node>, m: Machine)
    requires KeepsConflicts(acc, a, b)
    ensures Run(acc, prog, a, m) == Run(acc, prog, b, m)
    decreases |a|
  {
    if a == [] {
      if b != [] {
        HasElement(b);
      }
    } else {
      var x := a[0];
      assert x in b;
      var i :| 0 <= i < |b| && b[i] == x;
      forall j | 0 <= j < i ensures !acc.Conflict(b[i], b[j]) {
        assert b[j] in a;
        var k :| 0 <= k < |a| && a[k] == b[j];
        BeforeAsymmetric(b, b[j], b[i]);
      }
      MoveToFront(acc, prog, b, i, m);
      var rest := b[..i] + b[i + 1..];
      assert [x] + b[..i] + b[i + 1..] == [x] + rest && ([x] + rest)[1..] == rest;
      RestKeepsConflicts(acc, a, b, i);
      ConflictOrderDecides(acc, prog, a[1..], rest, Exec(acc, prog, x, m));
    }
  }
}
