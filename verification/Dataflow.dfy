/**
 Which contractions change nothing in what a state computes: in the data that arrives at every
 node, for any interpretation of tasklets and memory.
 */
module Dataflow {
  import opened Basics
  import opened StateGraph
  import opened Rewrites
  import opened Values

  /** The rewrite bypasses a scalar; only pattern 3 may bypass anything else. */
  predicate IsBypass(g: Graph, arrays: string -> Descriptor, r: Rewrite) {
    TransientScalar(g, arrays, Via(r))
  }

  /** Patterns 1 and 5 also bypass an assign tasklet. */
  predicate BypassesAssign(r: Rewrite) {
    r.ThroughAssignToExit? || r.AssignWrite?
  }

  /** The edge from the scalar to the assign tasklet, and the edge out of that tasklet. */
  function IntoAssign(r: Rewrite): Edge
    requires BypassesAssign(r)
  {
    if r.AssignWrite? then r.oe else r.ie1
  }

  function OutOfAssign(r: Rewrite): Edge
    requires BypassesAssign(r)
  {
    if r.AssignWrite? then r.oe2 else r.ie2
  }

  /** The assign tasklet is wired through the two connectors its assignment mentions. */
  predicate WiredAsWritten(g: Graph, arrays: string -> Descriptor, r: Rewrite)
    requires Applicable(g, arrays, r) && BypassesAssign(r)
  {
    var code := g.nodes[IntoAssign(r).dst].code;
    IntoAssign(r).dstConn == Some(code.source) && OutOfAssign(r).srcConn == Some(code.target)
  }

  /** Pattern 3: an edge out of the copy ends at a tasklet, or its memlet names the copy. */
  predicate NamesCopy(g: Graph, ie: Edge, o: Edge)
    requires g.IsAccess(ie.dst) && o.memlet.Move?
  {
    g.IsTasklet(o.dst) || o.memlet.data == g.nodes[ie.dst].data
  }

  /** Pattern 3: the memlet into the copy names the source and a single step-one index. If however the edge
      out of the copy leads to a node of the source's container, the memlet into the copy names the copy
      and has the other side of the memlet out of it. */
  predicate NamesSource(g: Graph, ie: Edge, o: Edge)
    requires g.IsAccess(ie.src) && g.IsAccess(ie.dst) && ie.memlet.Move? && o.memlet.Move?
  {
    if g.IsAccess(o.dst) && g.nodes[o.dst].data == g.nodes[ie.src].data then
      ie.memlet.data == g.nodes[ie.dst].data && ie.memlet.other == o.memlet.other
    else
      && ie.memlet.data != g.nodes[ie.dst].data && ie.memlet.data == g.nodes[ie.src].data
      && ie.memlet.subset == Points(Starts(ie.memlet.subset))
  }

  /** The source of the copy is itself a scalar that passes on its one arrival, from wherever it is read. */
  ghost predicate PassesOn(g: Graph, arrays: string -> Descriptor, topo: Order, n: Node)
    requires g.WellFormed() && g.Forward(topo)
  {
    TransientScalar(g, arrays, n) && OneArrival(g, arrays, topo, n)
  }

  /** Surviving memlets name the array side (in pattern 3, where they are made to name it, the side that
      this takes for granted), bypassed assignments are wired as written, and in pattern 1 (the only one
      that does not test it) the scalar and the tasklet have no other use. */
  ghost predicate Transparent(g: Graph, arrays: string -> Descriptor, r: Rewrite, topo: Order)
    requires g.WellFormed() && g.Forward(topo) && Applicable(g, arrays, r) && IsBypass(g, arrays, r)
  {
    match r
    case ThroughAssignToExit(ie0, ie1, ie2, _) =>
      && g.OutEdges(ie0.dst) == {ie1} && g.OutEdges(ie1.dst) == {ie2} && WiredAsWritten(g, arrays, r)
    case EntryScalar(oe1) => oe1.memlet.data != g.nodes[oe1.dst].data || g.OutEdges(oe1.dst) == {}
    case CopyToTransient(ie) =>
      forall o :: o in g.OutEdges(ie.dst) ==> NamesCopy(g, ie, o) && (NamesSource(g, ie, o) || PassesOn(g, arrays, topo, ie.src))
    case ScalarWrite(ie, oe) => oe.memlet.data != g.nodes[ie.dst].data
    case AssignWrite(_, _, _) => WiredAsWritten(g, arrays, r)
  }

  lemma AssignChain(g: Graph, arrays: string -> Descriptor, r: Rewrite)
    requires Applicable(g, arrays, r) && BypassesAssign(r)
    ensures IntoAssign(r) in g.edges && IntoAssign(r).src == Via(r) && IntoAssign(r).memlet.Move?
    ensures OutOfAssign(r) in g.edges && OutOfAssign(r).src == IntoAssign(r).dst && OutOfAssign(r).memlet.Move?
    ensures Lasts(g, r) == {OutOfAssign(r)} && Middle(r) == {IntoAssign(r)}
  {
    if r.AssignWrite? {
      assert r.oe in g.OutEdges(r.ie.dst) && r.oe2 in g.OutEdges(r.oe.dst);
    }
  }

  // ---- the bypassed chain passes its value on ----

  lemma ScalarPassesOn(g: Graph, arrays: string -> Descriptor, topo: Order, sem: Semantics, ie: Edge, oe: Edge)
    requires g.WellFormed() && g.Forward(topo)
    requires ie in g.edges && ie.memlet.Move? && g.InEdges(ie.dst) == {ie} && TransientScalar(g, arrays, ie.dst)
    requires oe in g.edges && oe.memlet.Move? && oe.src == ie.dst
    ensures Delivery(g, arrays, topo, sem, oe).value == Delivery(g, arrays, topo, sem, ie).value
  {
    OnlyArrival(g, arrays, topo, sem, ie.dst, ie);
    var only := Delivery(g, arrays, topo, sem, ie);
    assert exists a :: {only} == {a};
    Singleton(only);
  }

  lemma AssignPassesOn(g: Graph, arrays: string -> Descriptor, topo: Order, sem: Semantics, oe: Edge, oe2: Edge)
    requires g.WellFormed() && g.Forward(topo)
    requires oe in g.edges && oe.memlet.Move? && g.InEdges(oe.dst) == {oe}
    requires g.IsTasklet(oe.dst) && IsAssign(g.nodes[oe.dst])
    requires oe.dstConn == Some(g.nodes[oe.dst].code.source)
    requires oe2 in g.edges && oe2.memlet.Move? && oe2.src == oe.dst
    requires oe2.srcConn == Some(g.nodes[oe.dst].code.target)
    ensures Delivery(g, arrays, topo, sem, oe2).value == Delivery(g, arrays, topo, sem, oe).value
  {
    OnlyArrival(g, arrays, topo, sem, oe.dst, oe);
    var only := Delivery(g, arrays, topo, sem, oe);
    assert {only} == {only} && only.conn == Some(g.nodes[oe.dst].code.source);
    Singleton(only);
  }

  /** The value of every last edge of the chain is the value of its first edge. */
  lemma ChainPassesOn(g: Graph, arrays: string -> Descriptor, r: Rewrite, topo: Order, sem: Semantics, o: Edge)
    requires g.WellFormed() && g.Forward(topo)
    requires Applicable(g, arrays, r) && IsBypass(g, arrays, r) && Transparent(g, arrays, r, topo) && o in Lasts(g, r)
    ensures o in g.edges && o.memlet.Move?
    ensures Delivery(g, arrays, topo, sem, o).value == Delivery(g, arrays, topo, sem, First(r)).value
  {
    ChainGoesForward(g, arrays, r, topo, o);
    if BypassesAssign(r) {
      AssignChain(g, arrays, r);
      ScalarPassesOn(g, arrays, topo, sem, First(r), IntoAssign(r));
      AssignPassesOn(g, arrays, topo, sem, IntoAssign(r), OutOfAssign(r));
    } else {
      assert o in g.OutEdges(Via(r));
      ScalarPassesOn(g, arrays, topo, sem, First(r), o);
    }
  }

  /** Nodes that keep edges keep their kind. */
  lemma KindsKept(g: Graph, arrays: string -> Descriptor, r: Rewrite, topo: Order, e: Edge)
    requires Applicable(g, arrays, r) && g.WellFormed() && g.Forward(topo)
    requires e in Apply(g, arrays, r).edges
    ensures var g' := Apply(g, arrays, r);
            && e.src in g'.nodes && e.src in g.nodes && g'.nodes[e.src] == g.nodes[e.src]
            && e.dst in g'.nodes && e.dst in g.nodes && g'.nodes[e.dst] == g.nodes[e.dst]
  {
    ApplyKeepsWellFormed(g, arrays, r, topo);
  }

  /** An edge of two graphs whose ends are of the same kind and whose source sees the same. */
  lemma DeliveryIsLocal(g: Graph, g': Graph, arrays: string -> Descriptor, topo: Order, sem: Semantics, e: Edge)
    requires g.WellFormed() && g.Forward(topo) && g'.WellFormed() && g'.Forward(topo)
    requires e in g.edges && e in g'.edges && e.memlet.Move?
    requires g'.nodes[e.src] == g.nodes[e.src] && g'.nodes[e.dst] == g.nodes[e.dst]
    requires Inputs(g', arrays, topo, sem, e.src) == Inputs(g, arrays, topo, sem, e.src)
    ensures Delivery(g', arrays, topo, sem, e) == Delivery(g, arrays, topo, sem, e)
  {
  }

  /** One edge: if its source sees the same inputs, it delivers what the edge with its identity did. */
  lemma DeliverySame(g: Graph, arrays: string -> Descriptor, r: Rewrite, topo: Order, sem: Semantics, o: Edge, e: Edge)
    requires g.WellFormed() && g.Forward(topo)
    requires Applicable(g, arrays, r) && IsBypass(g, arrays, r) && Transparent(g, arrays, r, topo)
    requires var g' := Apply(g, arrays, r);
             && g'.WellFormed() && g'.Forward(topo) && e in g'.edges && e.memlet.Move? && e.src in g.nodes
             && Inputs(g', arrays, topo, sem, e.src) == Inputs(g, arrays, topo, sem, e.src)
    requires o in g.edges && (if o in Lasts(g, r) then e == Reattach(g, r, o) else e == o)
    ensures o.memlet.Move? && o.dst == e.dst
    ensures Delivery(Apply(g, arrays, r), arrays, topo, sem, e) == Delivery(g, arrays, topo, sem, o)
  {
    KindsKept(g, arrays, r, topo, e);
    if o in Lasts(g, r) {
      ChainGoesForward(g, arrays, r, topo, o);
      ChainPassesOn(g, arrays, r, topo, sem, o);
      ReattachedDelivers(g, arrays, r, topo, sem, o);
    } else {
      DeliveryIsLocal(g, Apply(g, arrays, r), arrays, topo, sem, e);
    }
  }

  /** A re-attached edge delivers what the chain's first edge brought, to the place the last edge names. */
  lemma ReattachedDelivers(g: Graph, arrays: string -> Descriptor, r: Rewrite, topo: Order, sem: Semantics, o: Edge)
    requires g.WellFormed() && g.Forward(topo)
    requires Applicable(g, arrays, r) && IsBypass(g, arrays, r) && Transparent(g, arrays, r, topo)
    requires o in Lasts(g, r) && o in g.edges && o.memlet.Move?
    requires var g', e := Apply(g, arrays, r), Reattach(g, r, o);
             && g'.WellFormed() && g'.Forward(topo) && e in g'.edges && e.memlet.Move?
             && g'.nodes[e.src] == g.nodes[e.src] && g'.nodes[e.dst] == g.nodes[e.dst]
             && Inputs(g', arrays, topo, sem, e.src) == Inputs(g, arrays, topo, sem, e.src)
    requires Delivery(g, arrays, topo, sem, o).value == Delivery(g, arrays, topo, sem, First(r)).value
    ensures Delivery(Apply(g, arrays, r), arrays, topo, sem, Reattach(g, r, o)) == Delivery(g, arrays, topo, sem, o)
  {
    hide Inputs, Spliced, NamesSource, NamesCopy, PassesOn;
    if r.CopyToTransient? {
      CopyDelivers(g, arrays, r, topo, sem, o);
    }
  }

  /** Pattern 3: the other side of the memlet out of the copy names the place that this memlet named, and
      the source is read where the memlet into the copy read it, or wherever when it passes its arrival on. */
  lemma CopyDelivers(g: Graph, arrays: string -> Descriptor, r: Rewrite, topo: Order, sem: Semantics, o: Edge)
    requires g.WellFormed() && g.Forward(topo)
    requires Applicable(g, arrays, r) && IsBypass(g, arrays, r) && Transparent(g, arrays, r, topo) && r.CopyToTransient?
    requires o in Lasts(g, r) && o in g.edges && o.memlet.Move?
    requires var g', e := Apply(g, arrays, r), Reattach(g, r, o);
             && g'.WellFormed() && g'.Forward(topo) && e in g'.edges && e.memlet.Move?
             && g'.nodes[e.src] == g.nodes[e.src] && g'.nodes[e.dst] == g.nodes[e.dst]
             && Inputs(g', arrays, topo, sem, e.src) == Inputs(g, arrays, topo, sem, e.src)
    requires Delivery(g, arrays, topo, sem, o).value == Delivery(g, arrays, topo, sem, First(r)).value
    ensures Delivery(Apply(g, arrays, r), arrays, topo, sem, Reattach(g, r, o)) == Delivery(g, arrays, topo, sem, o)
  {
    hide Applicable, Apply, Inputs;
    CopyChain(g, arrays, r, o);
    var g', e := Apply(g, arrays, r), Reattach(g, r, o);
    var conn, from := r.ie.srcConn, r.ie.src;
    assert NamesCopy(g, r.ie, o) && (NamesSource(g, r.ie, o) || PassesOn(g, arrays, topo, from));
    assert WriteLocation(g', e) == WriteLocation(g, o);
    if NamesSource(g, r.ie, o) {
      assert ReadLocation(g', e) == ReadLocation(g, r.ie);
    } else {
      PassedFromAnywhere(g, g', arrays, topo, sem, from, conn, ReadLocation(g, r.ie), ReadLocation(g', e));
    }
  }

  lemma CopyChain(g: Graph, arrays: string -> Descriptor, r: Rewrite, o: Edge)
    requires Applicable(g, arrays, r) && r.CopyToTransient? && o in Lasts(g, r)
    ensures o in g.OutEdges(r.ie.dst) && r.ie in g.edges && r.ie.memlet.Move? && o.memlet.Move?
    ensures g.IsAccess(r.ie.src) && g.IsAccess(r.ie.dst) && g.InEdges(r.ie.dst) == {r.ie}
  {
  }

  lemma PassedFromAnywhere(g: Graph, g': Graph, arrays: string -> Descriptor, topo: Order, sem: Semantics, n: Node,
                           conn: Connector, loc: Location, loc': Location)
    requires g.WellFormed() && g.Forward(topo) && PassesOn(g, arrays, topo, n) && n in g'.nodes && g'.nodes[n] == g.nodes[n]
    ensures var arrived := Inputs(g, arrays, topo, sem, n);
            Output(g, arrays, sem, n, arrived, conn, loc) == Output(g', arrays, sem, n, arrived, conn, loc')
  {
    var t :| Tokens(g, arrays, topo, n) == {t};
    OneTokenOneArrival(g, arrays, topo, sem, n, t);
  }

  /** No surviving node lies inside a transparent chain. */
  lemma ChainDisappears(g: Graph, arrays: string -> Descriptor, r: Rewrite, topo: Order, o: Edge)
    requires g.WellFormed() && g.Forward(topo)
    requires Applicable(g, arrays, r) && IsBypass(g, arrays, r) && Transparent(g, arrays, r, topo)
    requires o in g.edges && o.dst in Apply(g, arrays, r).nodes
    ensures o != First(r) && o !in Middle(r)
  {
    if r.ThroughAssignToExit? {
      var kept := Graph(g.nodes, Spliced(g, arrays, r));
      forall e | e in kept.edges
        ensures e.src != r.ie0.dst && e.dst != r.ie0.dst && e.src != r.ie1.dst && e.dst != r.ie1.dst
      {
        if e != Reattach(g, r, r.ie2) {
          assert e !in g.InEdges(r.ie0.dst) && e !in g.OutEdges(r.ie0.dst);
          assert e !in g.InEdges(r.ie1.dst) && e !in g.OutEdges(r.ie1.dst);
        }
      }
      assert kept.Isolated(r.ie0.dst) && kept.Isolated(r.ie1.dst);
      assert kept == Graph(g.nodes - Dropped(r), Spliced(g, arrays, r));
    }
  }

  /** Transparent bypasses leave everything that arrives at every surviving node unchanged. */
  lemma {:induction false} BypassPreservesInputs(g: Graph, arrays: string -> Descriptor, r: Rewrite,
                                                 topo: Order, sem: Semantics, n: Node)
    requires g.WellFormed() && g.Forward(topo)
    requires Applicable(g, arrays, r) && IsBypass(g, arrays, r) && Transparent(g, arrays, r, topo) && n in Apply(g, arrays, r).nodes
    ensures Apply(g, arrays, r).WellFormed() && Apply(g, arrays, r).Forward(topo)
    ensures Inputs(Apply(g, arrays, r), arrays, topo, sem, n) == Inputs(g, arrays, topo, sem, n)
    decreases topo[n]
  {
    hide Transparent, Delivery;
    var g' := Apply(g, arrays, r);
    ApplyKeepsForward(g, arrays, r, topo);
    ApplyKeepsWellFormed(g, arrays, r, topo);
    forall e | e in g'.edges && e.memlet.Move? && e.dst == n
      ensures Delivery(g', arrays, topo, sem, e) in Inputs(g, arrays, topo, sem, n)
    {
      var o := OriginOf(g, arrays, r, topo, e);
      BypassPreservesInputs(g, arrays, r, topo, sem, e.src);
      DeliverySame(g, arrays, r, topo, sem, o, e);
    }
    forall o | o in g.edges && o.memlet.Move? && o.dst == n
      ensures Delivery(g, arrays, topo, sem, o) in Inputs(g', arrays, topo, sem, n)
    {
      ChainDisappears(g, arrays, r, topo, o);
      if o in Lasts(g, r) {
        ChainGoesForward(g, arrays, r, topo, o);
      }
      var e := if o in Lasts(g, r) then Reattach(g, r, o) else o;
      assert e in g'.edges;
      BypassPreservesInputs(g, arrays, r, topo, sem, e.src);
      DeliverySame(g, arrays, r, topo, sem, o, e);
    }
  }

  // ---- exactly when ----

  /** The edge re-attached in place of `o` delivers what `o` delivered. */
  ghost predicate DeliversTheSame(g: Graph, arrays: string -> Descriptor, r: Rewrite, topo: Order,
                                  sem: Semantics, o: Edge)
    requires Applicable(g, arrays, r) && g.WellFormed() && g.Forward(topo) && o in Lasts(g, r)
  {
    var g' := Apply(g, arrays, r);
    ApplyKeepsForward(g, arrays, r, topo);
    ApplyKeepsWellFormed(g, arrays, r, topo);
    ChainGoesForward(g, arrays, r, topo, o);
    var e := Reattach(g, r, o);
    assert e in g'.edges;
    Delivery(g', arrays, topo, sem, e) == Delivery(g, arrays, topo, sem, o)
  }

  lemma TransparencySuffices(g: Graph, arrays: string -> Descriptor, r: Rewrite, topo: Order, sem: Semantics, o: Edge)
    requires g.WellFormed() && g.Forward(topo)
    requires Applicable(g, arrays, r) && IsBypass(g, arrays, r) && Transparent(g, arrays, r, topo) && o in Lasts(g, r)
    ensures DeliversTheSame(g, arrays, r, topo, sem, o)
  {
    var g' := Apply(g, arrays, r);
    ApplyKeepsForward(g, arrays, r, topo);
    ApplyKeepsWellFormed(g, arrays, r, topo);
    ChainGoesForward(g, arrays, r, topo, o);
    var e := Reattach(g, r, o);
    assert e in g'.edges && e.src in g'.nodes;
    BypassPreservesInputs(g, arrays, r, topo, sem, e.src);
    DeliverySame(g, arrays, r, topo, sem, o, e);
  }

  /** An interpretation that tells the two sides of a memlet apart, and a tasklet from a plain copy. */
  ghost function Telltale(): Semantics {
    Semantics((n, arrived: set<Arrival>, conn) =>
                if exists a :: arrived == {a} then (var a :| arrived == {a}; a.value + 1) else 0,
              (n, arrived, conn, loc: Location) => if loc.Named? then 1 else 0)
  }

  /** Re-attached edges deliver, and surviving nodes receive, what they did before. */
  ghost predicate PreservesMeaning(g: Graph, arrays: string -> Descriptor, r: Rewrite, topo: Order, sem: Semantics)
    requires Applicable(g, arrays, r) && g.WellFormed() && g.Forward(topo)
  {
    var g' := Apply(g, arrays, r);
    ApplyKeepsForward(g, arrays, r, topo);
    ApplyKeepsWellFormed(g, arrays, r, topo);
    && (forall o :: o in Lasts(g, r) ==> DeliversTheSame(g, arrays, r, topo, sem, o))
    && (forall n :: n in g'.nodes ==> Inputs(g', arrays, topo, sem, n) == Inputs(g, arrays, topo, sem, n))
  }

  lemma TransparencyNecessary(g: Graph, arrays: string -> Descriptor, r: Rewrite, topo: Order)
    requires g.WellFormed() && g.Forward(topo)
    requires Applicable(g, arrays, r) && IsBypass(g, arrays, r) && !Transparent(g, arrays, r, topo)
    ensures exists sem: Semantics :: !PreservesMeaning(g, arrays, r, topo, sem)
  {
    ApplyKeepsForward(g, arrays, r, topo);
    ApplyKeepsWellFormed(g, arrays, r, topo);
    var sem := Telltale();
    if r.CopyToTransient? {
      var o :| o in Lasts(g, r) && !(NamesCopy(g, r.ie, o) && (NamesSource(g, r.ie, o) || PassesOn(g, arrays, topo, r.ie.src)));
      sem := CopyShows(g, arrays, r, topo, o);
      assert !DeliversTheSame(g, arrays, r, topo, sem, o);
    } else {
      OtherwiseShows(g, arrays, r, topo);
    }
    assert !PreservesMeaning(g, arrays, r, topo, sem);
  }

  lemma OtherwiseShows(g: Graph, arrays: string -> Descriptor, r: Rewrite, topo: Order)
    requires g.WellFormed() && g.Forward(topo) && !r.CopyToTransient?
    requires Applicable(g, arrays, r) && IsBypass(g, arrays, r) && !Transparent(g, arrays, r, topo)
    ensures !PreservesMeaning(g, arrays, r, topo, Telltale())
  {
    var g', sem := Apply(g, arrays, r), Telltale();
    ApplyKeepsForward(g, arrays, r, topo);
    ApplyKeepsWellFormed(g, arrays, r, topo);
    if BypassesAssign(r) && !WiredAsWritten(g, arrays, r) {
      MiswiredAssignShows(g, arrays, r, topo);
    } else if r.ThroughAssignToExit? {
      OtherUseLosesItsInput(g, arrays, r, topo, sem);
    } else {
      var o :| o in Lasts(g, r);
      ScalarSideShows(g, arrays, r, topo, o);
      assert !DeliversTheSame(g, arrays, r, topo, sem, o);
    }
  }

  /** Pattern 3: another place in the target is written, or another place of the source is read, which an
      interpretation shows that tells all loads apart. */
  lemma CopyShows(g: Graph, arrays: string -> Descriptor, r: Rewrite, topo: Order, o: Edge) returns (sem: Semantics)
    requires g.WellFormed() && g.Forward(topo)
    requires Applicable(g, arrays, r) && IsBypass(g, arrays, r) && r.CopyToTransient? && o in Lasts(g, r)
    requires !(NamesCopy(g, r.ie, o) && (NamesSource(g, r.ie, o) || PassesOn(g, arrays, topo, r.ie.src)))
    ensures !DeliversTheSame(g, arrays, r, topo, sem, o)
  {
    hide Applicable, Apply, Inputs;
    CopyChain(g, arrays, r, o);
    var g', e, from := Apply(g, arrays, r), Reattach(g, r, o), r.ie.src;
    ApplyKeepsForward(g, arrays, r, topo);
    ApplyKeepsWellFormed(g, arrays, r, topo);
    ChainGoesForward(g, arrays, r, topo, o);
    ReattachedIsThere(g, arrays, r, o);
    KindsKept(g, arrays, r, topo, e);
    var load, load' := Origin(from, r.ie.srcConn, ReadLocation(g, r.ie)), Origin(from, r.ie.srcConn, ReadLocation(g', e));
    var num := Numbering(Origins(g, arrays, topo) + {load, load'});
    sem := Numbered(num);
    if NamesCopy(g, r.ie, o) {
      NumbersArrive(g, arrays, topo, num, from);
      ScalarPassesOn(g, arrays, topo, sem, r.ie, o);
      UpstreamUntouched(g, arrays, r, topo, sem, from);
      assert load != load';
    }
  }

  lemma ReattachedIsThere(g: Graph, arrays: string -> Descriptor, r: Rewrite, o: Edge)
    requires Applicable(g, arrays, r) && o in Lasts(g, r)
    ensures Reattach(g, r, o) in Apply(g, arrays, r).edges
  {
  }

  /** A memlet that names the scalar means another place once its scalar is gone. */
  lemma ScalarSideShows(g: Graph, arrays: string -> Descriptor, r: Rewrite, topo: Order, o: Edge)
    requires g.WellFormed() && g.Forward(topo)
    requires Applicable(g, arrays, r) && (r.EntryScalar? || r.ScalarWrite?) && !Transparent(g, arrays, r, topo) && o in Lasts(g, r)
    ensures !DeliversTheSame(g, arrays, r, topo, Telltale(), o)
  {
    ApplyKeepsForward(g, arrays, r, topo);
    ApplyKeepsWellFormed(g, arrays, r, topo);
    ChainGoesForward(g, arrays, r, topo, o);
    var e := Reattach(g, r, o);
    assert e in Apply(g, arrays, r).edges;
    KindsKept(g, arrays, r, topo, e);
    if r.EntryScalar? {
      ScalarPassesOn(g, arrays, topo, Telltale(), r.oe1, o);
    }
  }

  lemma MiswiredAssignComputes(g: Graph, arrays: string -> Descriptor, r: Rewrite, topo: Order)
    requires Applicable(g, arrays, r) && BypassesAssign(r) && !WiredAsWritten(g, arrays, r)
    requires g.WellFormed() && g.Forward(topo)
    ensures OutOfAssign(r) in g.edges && OutOfAssign(r).memlet.Move?
    ensures Delivery(g, arrays, topo, Telltale(), OutOfAssign(r)).value ==
            Delivery(g, arrays, topo, Telltale(), First(r)).value + 1
  {
    var sem, mid := Telltale(), IntoAssign(r);
    AssignChain(g, arrays, r);
    ScalarPassesOn(g, arrays, topo, sem, First(r), mid);
    OnlyArrival(g, arrays, topo, sem, mid.dst, mid);
    var only := Delivery(g, arrays, topo, sem, mid);
    Singleton(only);
    assert {only} == {only};
  }

  lemma MiswiredAssignShows(g: Graph, arrays: string -> Descriptor, r: Rewrite, topo: Order)
    requires Applicable(g, arrays, r) && BypassesAssign(r) && !WiredAsWritten(g, arrays, r)
    requires g.WellFormed() && g.Forward(topo)
    ensures OutOfAssign(r) in Lasts(g, r)
    ensures !DeliversTheSame(g, arrays, r, topo, Telltale(), OutOfAssign(r))
  {
    var g', o := Apply(g, arrays, r), OutOfAssign(r);
    ApplyKeepsForward(g, arrays, r, topo);
    ApplyKeepsWellFormed(g, arrays, r, topo);
    AssignChain(g, arrays, r);
    MiswiredAssignComputes(g, arrays, r, topo);
    var e := Reattach(g, r, o);
    assert e in g'.edges;
    KindsKept(g, arrays, r, topo, e);
    assert g.IsTasklet(e.src);
    UpstreamUntouched(g, arrays, r, topo, Telltale(), e.src);
    assert Delivery(g', arrays, topo, Telltale(), e).value == Delivery(g, arrays, topo, Telltale(), First(r)).value;
  }

  /** Pattern 1 leaves nothing coming into the scalar or the assign tasklet. */
  lemma NothingComesIn(g: Graph, arrays: string -> Descriptor, r: Rewrite, topo: Order, n: Node, f: Edge)
    requires Applicable(g, arrays, r) && r.ThroughAssignToExit? && n in {r.ie0.dst, r.ie1.dst}
    requires g.Forward(topo) && f in Spliced(g, arrays, r)
    ensures f.dst != n
  {
    var o := OriginOf(g, arrays, r, topo, f);
    assert o in g.InEdges(o.dst);
  }

  /** Pattern 1 with another consumer of the scalar or of the tasklet: it stays, without its input. */
  lemma OtherUseLosesItsInput(g: Graph, arrays: string -> Descriptor, r: Rewrite, topo: Order, sem: Semantics)
    requires Applicable(g, arrays, r) && r.ThroughAssignToExit?
    requires g.OutEdges(r.ie0.dst) != {r.ie1} || g.OutEdges(r.ie1.dst) != {r.ie2}
    requires g.WellFormed() && g.Forward(topo)
    requires Apply(g, arrays, r).WellFormed() && Apply(g, arrays, r).Forward(topo)
    ensures exists n :: && n in Apply(g, arrays, r).nodes && n in g.nodes
                        && Inputs(Apply(g, arrays, r), arrays, topo, sem, n) != Inputs(g, arrays, topo, sem, n)
  {
    var first := g.OutEdges(r.ie0.dst) != {r.ie1};
    var ie, next := if first then r.ie0 else r.ie1, if first then r.ie1 else r.ie2;
    assert next in g.OutEdges(ie.dst) && g.OutEdges(ie.dst) != {next};
    var e :| e in g.OutEdges(ie.dst) && e != next;
    LosesItsInput(g, arrays, r, topo, sem, ie, e);
  }

  lemma LosesItsInput(g: Graph, arrays: string -> Descriptor, r: Rewrite, topo: Order, sem: Semantics, ie: Edge, e: Edge)
    requires Applicable(g, arrays, r) && r.ThroughAssignToExit?
    requires (ie == r.ie0 && e != r.ie1) || (ie == r.ie1 && e != r.ie2)
    requires e in g.edges && e.src == ie.dst
    requires g.WellFormed() && g.Forward(topo)
    requires Apply(g, arrays, r).WellFormed() && Apply(g, arrays, r).Forward(topo)
    ensures ie.dst in Apply(g, arrays, r).nodes && ie.dst in g.nodes
    ensures Inputs(Apply(g, arrays, r), arrays, topo, sem, ie.dst) != Inputs(g, arrays, topo, sem, ie.dst)
  {
    var g', n := Apply(g, arrays, r), ie.dst;
    assert e in g'.edges;
    KindsKept(g, arrays, r, topo, e);
    OnlyArrival(g, arrays, topo, sem, n, ie);
    assert Inputs(g', arrays, topo, sem, n) == {} by {
      forall f | f in g'.edges ensures f.dst != n {
        NothingComesIn(g, arrays, r, topo, n, f);
      }
    }
    assert Delivery(g, arrays, topo, sem, ie) in Inputs(g, arrays, topo, sem, n);
  }

  /** The rewrite touches no edge into the chain's source or anything before it. */
  lemma UpstreamEdges(g: Graph, arrays: string -> Descriptor, r: Rewrite, topo: Order, n: Node)
    requires Applicable(g, arrays, r) && g.WellFormed() && g.Forward(topo)
    requires n in topo && topo[n] <= topo[First(r).src]
    ensures forall e: Edge :: e.dst == n ==> (e in g.edges <==> e in Apply(g, arrays, r).edges)
  {
    forall e: Edge | e.dst == n
      ensures e in g.edges <==> e in Apply(g, arrays, r).edges
    {
      if e in Apply(g, arrays, r).edges {
        var o := OriginOf(g, arrays, r, topo, e);
        if o in Lasts(g, r) {
          ChainGoesForward(g, arrays, r, topo, o);
        }
      } else if e in g.edges {
        EntersChain(g, arrays, r, topo, e);
      }
    }
  }

  lemma EntersChain(g: Graph, arrays: string -> Descriptor, r: Rewrite, topo: Order, e: Edge)
    requires Applicable(g, arrays, r) && g.Forward(topo)
    requires e in g.edges && e !in Apply(g, arrays, r).edges
    ensures e.dst in topo && topo[First(r).src] < topo[e.dst]
  {
    if e in Lasts(g, r) {
      ChainGoesForward(g, arrays, r, topo, e);
    } else if e in Middle(r) {
      assert r.AssignWrite? ==> r.oe in g.OutEdges(r.ie.dst);
      assert topo[First(r).src] < topo[Via(r)] < topo[e.dst];
    }
  }

  /** Upstream of the chain nothing changes, transparent or not. */
  lemma {:induction false} UpstreamUntouched(g: Graph, arrays: string -> Descriptor, r: Rewrite,
                                             topo: Order, sem: Semantics, n: Node)
    requires Applicable(g, arrays, r) && g.WellFormed() && g.Forward(topo)
    requires Apply(g, arrays, r).WellFormed() && Apply(g, arrays, r).Forward(topo)
    requires n in Apply(g, arrays, r).nodes && topo[n] <= topo[First(r).src]
    ensures Inputs(Apply(g, arrays, r), arrays, topo, sem, n) == Inputs(g, arrays, topo, sem, n)
    decreases topo[n]
  {
    hide Applicable, Apply, Delivery;
    var g' := Apply(g, arrays, r);
    UpstreamEdges(g, arrays, r, topo, n);
    forall e | e in g.edges && e.memlet.Move? && e.dst == n
      ensures Delivery(g', arrays, topo, sem, e) == Delivery(g, arrays, topo, sem, e)
    {
      KindsKept(g, arrays, r, topo, e);
      UpstreamUntouched(g, arrays, r, topo, sem, e.src);
      DeliveryIsLocal(g, g', arrays, topo, sem, e);
    }
  }

  /** A bypass preserves meaning under every interpretation exactly when it is transparent. */
  lemma PreservesMeaningIffTransparent(g: Graph, arrays: string -> Descriptor, r: Rewrite, topo: Order)
    requires Applicable(g, arrays, r) && IsBypass(g, arrays, r) && g.WellFormed() && g.Forward(topo)
    ensures Transparent(g, arrays, r, topo) <==> forall sem: Semantics :: PreservesMeaning(g, arrays, r, topo, sem)
  {
    if Transparent(g, arrays, r, topo) {
      forall sem: Semantics ensures PreservesMeaning(g, arrays, r, topo, sem) {
        forall o | o in Lasts(g, r) ensures DeliversTheSame(g, arrays, r, topo, sem, o) {
          TransparencySuffices(g, arrays, r, topo, sem, o);
        }
        forall n | n in Apply(g, arrays, r).nodes
          ensures Apply(g, arrays, r).WellFormed() && Apply(g, arrays, r).Forward(topo)
          ensures Inputs(Apply(g, arrays, r), arrays, topo, sem, n) == Inputs(g, arrays, topo, sem, n)
        {
          BypassPreservesInputs(g, arrays, r, topo, sem, n);
        }
      }
    } else {
      TransparencyNecessary(g, arrays, r, topo);
    }
  }

  // ---- whole runs, and ordering edges ----

  /** A run of bypasses, each transparent when its turn comes. */
  ghost predicate IsFaithfulRun(g: Graph, arrays: string -> Descriptor, topo: Order, rs: seq<Rewrite>, g': Graph)
    requires g.WellFormed() && g.Forward(topo)
    decreases |rs|
  {
    if rs == [] then g == g'
    else if Applicable(g, arrays, rs[0]) && IsBypass(g, arrays, rs[0]) && Transparent(g, arrays, rs[0], topo) then
      ApplyKeepsForward(g, arrays, rs[0], topo);
      ApplyKeepsWellFormed(g, arrays, rs[0], topo);
      IsFaithfulRun(Apply(g, arrays, rs[0]), arrays, topo, rs[1..], g')
    else false
  }

  /** After any number of such bypasses every surviving node still receives the same data. */
  lemma {:induction false} RunPreservesInputs(g: Graph, arrays: string -> Descriptor, rs: seq<Rewrite>, g': Graph,
                                              topo: Order, sem: Semantics, n: Node)
    requires g.WellFormed() && g.Forward(topo) && IsFaithfulRun(g, arrays, topo, rs, g')
    requires n in g'.nodes
    ensures n in g.nodes && g'.WellFormed() && g'.Forward(topo)
    ensures Inputs(g', arrays, topo, sem, n) == Inputs(g, arrays, topo, sem, n)
    decreases |rs|
  {
    if rs != [] {
      ApplyKeepsForward(g, arrays, rs[0], topo);
      ApplyKeepsWellFormed(g, arrays, rs[0], topo);
      RunPreservesInputs(Apply(g, arrays, rs[0]), arrays, rs[1..], g', topo, sem, n);
      BypassPreservesInputs(g, arrays, rs[0], topo, sem, n);
    }
  }

  /** Ordering edges carry nothing: adding some changes no arrival. */
  lemma {:induction false} OrderingEdgesCarryNothing(g: Graph, g': Graph, arrays: string -> Descriptor,
                                                     topo: Order, sem: Semantics, n: Node)
    requires g.WellFormed() && g.Forward(topo) && g'.WellFormed() && g'.Forward(topo)
    requires g'.nodes == g.nodes && g.edges <= g'.edges
    requires forall e :: e in g'.edges && e !in g.edges ==> e.memlet == Empty
    requires n in g.nodes
    ensures Inputs(g', arrays, topo, sem, n) == Inputs(g, arrays, topo, sem, n)
    decreases topo[n]
  {
    forall e | e in g'.edges && e.memlet.Move? && e.dst == n
      ensures e in g.edges && Delivery(g', arrays, topo, sem, e) == Delivery(g, arrays, topo, sem, e)
    {
      OrderingEdgesCarryNothing(g, g', arrays, topo, sem, e.src);
    }
  }

  /** A whole clean-up of a state, rewrites followed by reconstruction, when its bypasses are transparent. */
  lemma {:induction false} CleanUpPreservesInputs(g: Graph, arrays: string -> Descriptor, rs: seq<Rewrite>,
                               rewritten: Graph, g': Graph,
                               topo: Order, sem: Semantics, n: Node)
    requires g.WellFormed() && g.Forward(topo) && IsFaithfulRun(g, arrays, topo, rs, rewritten)
    requires g'.WellFormed() && g'.Forward(topo) && g'.nodes == rewritten.nodes && rewritten.edges <= g'.edges
    requires forall e :: e in g'.edges && e !in rewritten.edges ==> e == OrderingEdge(e.src, e.dst)
    requires n in g'.nodes
    ensures n in g.nodes && Inputs(g', arrays, topo, sem, n) == Inputs(g, arrays, topo, sem, n)
  {
    RunPreservesInputs(g, arrays, rs, rewritten, topo, sem, n);
    OrderingEdgesCarryNothing(rewritten, g', arrays, topo, sem, n);
  }
}
