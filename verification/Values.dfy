/**
 The values that arrive at the nodes of a state, for any interpretation of tasklets and memory, and
 the tasklet or memory access from which each of them originally comes. Transient scalars and assign
 tasklets with one arrival pass it on unchanged.
 */
module Values {
  import opened Basics
  import opened StateGraph
  import opened Rewrites

  /** Where an edge reads or writes: the place its memlet names, the memlet's other side
      (when it names the opposite end), or a tasklet connector. */
  datatype Location =
    | Named(data: string, subset: seq<Dim>)
    | OtherSide(other: Option<seq<Dim>>)
    | AtConnector

  datatype Arrival = Arrival(conn: Connector, at: Location, value: Value)

  /** An interpretation: what tasklets compute, and what a load from memory (or through a map
      scope) returns given everything that has arrived at the node. */
  datatype Semantics = Semantics(
    compute: (Node, set<Arrival>, Connector) -> Value,
    load: (Node, set<Arrival>, Connector, Location) -> Value)

  function WriteLocation(g: Graph, e: Edge): Location
    requires e.memlet.Move?
  {
    if g.IsTasklet(e.dst) then AtConnector
    else if g.IsAccess(e.src) && e.memlet.data == g.nodes[e.src].data then OtherSide(e.memlet.other)
    else Named(e.memlet.data, e.memlet.subset)
  }

  function ReadLocation(g: Graph, e: Edge): Location
    requires e.memlet.Move?
  {
    if g.IsAccess(e.dst) && e.memlet.data == g.nodes[e.dst].data then OtherSide(e.memlet.other)
    else Named(e.memlet.data, e.memlet.subset)
  }

  /** The value a node sends out, given what arrived at it. */
  ghost function Output(g: Graph, arrays: string -> Descriptor, sem: Semantics,
                        n: Node, arrived: set<Arrival>, conn: Connector, loc: Location): Value
    requires n in g.nodes
  {
    var k := g.nodes[n];
    if k.Tasklet? then
      if IsAssign(k) && conn == Some(k.code.target)
         && (exists a :: arrived == {a} && a.conn == Some(k.code.source)) then
        var a :| arrived == {a} && a.conn == Some(k.code.source); a.value
      else sem.compute(n, arrived, conn)
    else if TransientScalar(g, arrays, n) && (exists a :: arrived == {a}) then
      var a :| arrived == {a}; a.value
    else sem.load(n, arrived, conn, loc)
  }

  /** What one data-carrying edge delivers to its target. */
  ghost function Delivery(g: Graph, arrays: string -> Descriptor, topo: Order, sem: Semantics, e: Edge): Arrival
    requires g.WellFormed() && g.Forward(topo) && e in g.edges && e.memlet.Move?
    decreases topo[e.src], 1
  {
    Arrival(e.dstConn, WriteLocation(g, e),
            Output(g, arrays, sem, e.src, Inputs(g, arrays, topo, sem, e.src), e.srcConn, ReadLocation(g, e)))
  }

  /** Everything that arrives at a node. */
  ghost function Inputs(g: Graph, arrays: string -> Descriptor, topo: Order, sem: Semantics, n: Node): set<Arrival>
    requires g.WellFormed() && g.Forward(topo) && n in g.nodes
    decreases topo[n], 0
  {
    set e | e in g.edges && e.memlet.Move? && e.dst == n :: Delivery(g, arrays, topo, sem, e)
  }

  lemma OnlyArrival(g: Graph, arrays: string -> Descriptor, topo: Order, sem: Semantics, n: Node, e: Edge)
    requires g.WellFormed() && g.Forward(topo) && n in g.nodes
    requires g.InEdges(n) == {e} && e.memlet.Move?
    ensures e in g.edges && Inputs(g, arrays, topo, sem, n) == {Delivery(g, arrays, topo, sem, e)}
  {
    assert e in g.InEdges(n);
    forall f | f in g.edges && f.memlet.Move? && f.dst == n ensures f == e {
      assert f in g.InEdges(n);
    }
  }

  lemma Singleton<T(!new)>(x: T)
    ensures forall a {:trigger {a}} :: {x} == {a} ==> a == x
  {
    forall a {:trigger {a}} | {x} == {a} ensures a == x {
      assert a in {a};
    }
  }

  // ---- where values come from ----

  /** What first sends a value out: an output of a tasklet, or a load from a place at another node. */
  datatype Origin = Origin(node: Node, conn: Connector, at: Location)

  /** An arrival with its origin in place of its value. */
  datatype Token = Token(conn: Connector, at: Location, origin: Origin)

  /** The origin of what a node sends out, given the origins of what arrived. */
  ghost function SentFrom(g: Graph, arrays: string -> Descriptor, n: Node, arrived: set<Token>,
                          conn: Connector, loc: Location): Origin
    requires n in g.nodes
  {
    var k := g.nodes[n];
    if k.Tasklet? then
      if IsAssign(k) && conn == Some(k.code.target)
         && (exists a :: arrived == {a} && a.conn == Some(k.code.source)) then
        var a :| arrived == {a} && a.conn == Some(k.code.source); a.origin
      else Origin(n, conn, AtConnector)
    else if TransientScalar(g, arrays, n) && (exists a :: arrived == {a}) then
      var a :| arrived == {a}; a.origin
    else Origin(n, conn, loc)
  }

  ghost function Delivered(g: Graph, arrays: string -> Descriptor, topo: Order, e: Edge): Token
    requires g.WellFormed() && g.Forward(topo) && e in g.edges && e.memlet.Move?
    decreases topo[e.src], 1
  {
    Token(e.dstConn, WriteLocation(g, e),
          SentFrom(g, arrays, e.src, Tokens(g, arrays, topo, e.src), e.srcConn, ReadLocation(g, e)))
  }

  ghost function Tokens(g: Graph, arrays: string -> Descriptor, topo: Order, n: Node): set<Token>
    requires g.WellFormed() && g.Forward(topo) && n in g.nodes
    decreases topo[n], 0
  {
    set e | e in g.edges && e.memlet.Move? && e.dst == n :: Delivered(g, arrays, topo, e)
  }

  /** All that arrives at the node is to one connector and place, and of one origin. */
  ghost predicate OneArrival(g: Graph, arrays: string -> Descriptor, topo: Order, n: Node)
    requires g.WellFormed() && g.Forward(topo) && n in g.nodes
  {
    exists t :: Tokens(g, arrays, topo, n) == {t}
  }

  /** The value that an interpretation gives to an origin. */
  ghost function ValueOf(g: Graph, arrays: string -> Descriptor, topo: Order, sem: Semantics, o: Origin): Value
    requires g.WellFormed() && g.Forward(topo) && o.node in g.nodes
  {
    Output(g, arrays, sem, o.node, Inputs(g, arrays, topo, sem, o.node), o.conn, o.at)
  }

  /** Every edge delivers the value of its origin, under every interpretation. */
  lemma {:induction false} OriginDecides(g: Graph, arrays: string -> Descriptor, topo: Order, sem: Semantics, e: Edge)
    requires g.WellFormed() && g.Forward(topo) && e in g.edges && e.memlet.Move?
    ensures var o := Delivered(g, arrays, topo, e).origin;
            && o.node in g.nodes && topo[o.node] <= topo[e.src]
            && Delivery(g, arrays, topo, sem, e).value == ValueOf(g, arrays, topo, sem, o)
    decreases topo[e.src]
  {
    var n := e.src;
    var tokens := Tokens(g, arrays, topo, n);
    if t :| tokens == {t} {
      OneTokenOneArrival(g, arrays, topo, sem, n, t);
      Singleton(t);
      Singleton(Arrival(t.conn, t.at, ValueOf(g, arrays, topo, sem, t.origin)));
    }
  }

  lemma {:induction false} OneTokenOneArrival(g: Graph, arrays: string -> Descriptor, topo: Order, sem: Semantics, n: Node, t: Token)
    requires g.WellFormed() && g.Forward(topo) && n in g.nodes && Tokens(g, arrays, topo, n) == {t}
    ensures t.origin.node in g.nodes && topo[t.origin.node] <= topo[n]
    ensures Inputs(g, arrays, topo, sem, n) == {Arrival(t.conn, t.at, ValueOf(g, arrays, topo, sem, t.origin))}
    decreases topo[n], 0
  {
    hide Delivery, Delivered, ValueOf, Output;
    var tokens, inputs := Tokens(g, arrays, topo, n), Inputs(g, arrays, topo, sem, n);
    assert t in tokens;
    var f :| f in g.edges && f.memlet.Move? && f.dst == n && Delivered(g, arrays, topo, f) == t;
    forall e | e in g.edges && e.memlet.Move? && e.dst == n
      ensures t.origin.node in g.nodes && topo[t.origin.node] <= topo[n]
      ensures Delivery(g, arrays, topo, sem, e) == Arrival(t.conn, t.at, ValueOf(g, arrays, topo, sem, t.origin))
    {
      assert Delivered(g, arrays, topo, e) in tokens;
      OriginDecides(g, arrays, topo, sem, e);
      EndOf(g, arrays, topo, sem, e);
    }
    assert Delivery(g, arrays, topo, sem, f) in inputs;
  }

  lemma EndOf(g: Graph, arrays: string -> Descriptor, topo: Order, sem: Semantics, e: Edge)
    requires g.WellFormed() && g.Forward(topo) && e in g.edges && e.memlet.Move?
    ensures var a, t := Delivery(g, arrays, topo, sem, e), Delivered(g, arrays, topo, e);
            a.conn == t.conn && a.at == t.at
  {
  }

  // ---- an interpretation that tells all origins apart ----

  function Shown(t: Token, num: Origin -> int): Arrival {
    Arrival(t.conn, t.at, num(t.origin))
  }

  /** Whatever arrives, an output or load yields the number of its origin. */
  function Numbered(num: Origin -> int): Semantics {
    Semantics((n: Node, arrived: set<Arrival>, conn) => num(Origin(n, conn, AtConnector)),
              (n: Node, arrived: set<Arrival>, conn, loc) => num(Origin(n, conn, loc)))
  }

  ghost predicate TellsApart(num: Origin -> int, origins: set<Origin>) {
    forall o, p :: o in origins && p in origins && num(o) == num(p) ==> o == p
  }

  lemma {:induction false} Numbering(origins: set<Origin>) returns (num: Origin -> int)
    ensures TellsApart(num, origins)
    ensures forall o :: o in origins ==> num(o) < |origins|
  {
    if origins == {} {
      num := o => 0;
    } else {
      var x :| x in origins;
      var rest := Numbering(origins - {x});
      num := o => if o == x then |origins| - 1 else rest(o);
    }
  }

  ghost function Origins(g: Graph, arrays: string -> Descriptor, topo: Order): set<Origin>
    requires g.WellFormed() && g.Forward(topo)
  {
    set e | e in g.edges && e.memlet.Move? :: Delivered(g, arrays, topo, e).origin
  }

  /** Numbered interpretations show every node the numbers of the origins. */
  lemma {:induction false} NumbersArrive(g: Graph, arrays: string -> Descriptor, topo: Order, num: Origin -> int, n: Node)
    requires g.WellFormed() && g.Forward(topo) && n in g.nodes
    requires TellsApart(num, Origins(g, arrays, topo))
    ensures Inputs(g, arrays, topo, Numbered(num), n) == set t | t in Tokens(g, arrays, topo, n) :: Shown(t, num)
    ensures (exists a :: Inputs(g, arrays, topo, Numbered(num), n) == {a}) <==> OneArrival(g, arrays, topo, n)
    decreases topo[n], 1
  {
    hide Delivery, Delivered, Output, SentFrom;
    var tokens, inputs := Tokens(g, arrays, topo, n), Inputs(g, arrays, topo, Numbered(num), n);
    forall e | e in g.edges && e.memlet.Move? && e.dst == n
      ensures Delivery(g, arrays, topo, Numbered(num), e) == Shown(Delivered(g, arrays, topo, e), num)
    {
      NumberDelivered(g, arrays, topo, num, e);
    }
    forall t | t in tokens ensures t.origin in Origins(g, arrays, topo) && Shown(t, num) in inputs {
      var e :| e in g.edges && e.memlet.Move? && e.dst == n && Delivered(g, arrays, topo, e) == t;
      assert Delivery(g, arrays, topo, Numbered(num), e) in inputs;
    }
    forall a | a in inputs ensures a in set t | t in tokens :: Shown(t, num) {
      var e :| e in g.edges && e.memlet.Move? && e.dst == n && Delivery(g, arrays, topo, Numbered(num), e) == a;
      assert Delivered(g, arrays, topo, e) in tokens;
    }
    OneShown(tokens, inputs, num);
  }

  lemma OneShown(tokens: set<Token>, inputs: set<Arrival>, num: Origin -> int)
    requires inputs == set t | t in tokens :: Shown(t, num)
    requires forall t, u :: t in tokens && u in tokens && num(t.origin) == num(u.origin) ==> t.origin == u.origin
    ensures (exists a :: inputs == {a}) <==> exists t :: tokens == {t}
  {
    if a :| inputs == {a} {
      assert a in inputs;
      var t :| t in tokens && a == Shown(t, num);
      forall u | u in tokens ensures u == t {
        assert Shown(u, num) in inputs;
      }
      assert tokens == {t};
    }
    if t :| tokens == {t} {
      ShownOne(t, num);
    }
  }

  lemma ShownOne(t: Token, num: Origin -> int)
    ensures (set u | u in {t} :: Shown(u, num)) == {Shown(t, num)}
  {
  }

  lemma {:induction false} NumberDelivered(g: Graph, arrays: string -> Descriptor, topo: Order, num: Origin -> int, e: Edge)
    requires g.WellFormed() && g.Forward(topo) && e in g.edges && e.memlet.Move?
    requires TellsApart(num, Origins(g, arrays, topo))
    ensures Delivery(g, arrays, topo, Numbered(num), e) == Shown(Delivered(g, arrays, topo, e), num)
    decreases topo[e.src], 2
  {
    hide Origins, TellsApart;
    var n := e.src;
    NumbersArrive(g, arrays, topo, num, n);
    if t :| Tokens(g, arrays, topo, n) == {t} {
      assert t in Tokens(g, arrays, topo, n);
      ShownOne(t, num);
      Singleton(t);
      Singleton(Shown(t, num));
    }
  }

  ghost predicate OneArrivalUnder(g: Graph, arrays: string -> Descriptor, topo: Order, sem: Semantics, n: Node)
    requires g.WellFormed() && g.Forward(topo) && n in g.nodes
  {
    exists a :: Inputs(g, arrays, topo, sem, n) == {a}
  }

  /** All that arrives is of one origin exactly when it is one arrival under every interpretation. */
  lemma OneArrivalIff(g: Graph, arrays: string -> Descriptor, topo: Order, n: Node)
    requires g.WellFormed() && g.Forward(topo) && n in g.nodes
    ensures OneArrival(g, arrays, topo, n) <==> forall sem: Semantics :: OneArrivalUnder(g, arrays, topo, sem, n)
  {
    if t :| Tokens(g, arrays, topo, n) == {t} {
      forall sem: Semantics ensures OneArrivalUnder(g, arrays, topo, sem, n) {
        OneTokenOneArrival(g, arrays, topo, sem, n, t);
      }
    } else {
      var num := Numbering(Origins(g, arrays, topo));
      NumbersArrive(g, arrays, topo, num, n);
      assert !OneArrivalUnder(g, arrays, topo, Numbered(num), n);
    }
  }
}
