/** A dataflow state as the pass edits it in place, with the graph operations the pass calls. */
module States {
  import opened Basics
  import opened StateGraph

  class State {
    var g: Graph

    constructor (initial: Graph)
      ensures g == initial
    {
      g := initial;
    }

    method RemoveEdge(e: Edge)
      modifies this
      ensures g == old(g).(edges := old(g).edges - {e})
    {
      g := g.(edges := g.edges - {e});
    }

    method AddEdge(e: Edge)
      modifies this
      ensures g == old(g).(edges := old(g).edges + {e})
    {
      g := g.(edges := g.edges + {e});
    }

    /** Removes a node together with the edges at it. */
    method RemoveNode(n: Node)
      modifies this
      ensures g == Graph(old(g).nodes - {n}, set e | e in old(g).edges && e.src != n && e.dst != n)
      ensures g.Isolated(n) && (old(g).WellFormed() ==> g.WellFormed())
      ensures forall topo :: old(g).Forward(topo) ==> g.Forward(topo)
    {
      g := Graph(g.nodes - {n}, set e | e in g.edges && e.src != n && e.dst != n);
    }

    method RemoveNodeIfIsolated(n: Node)
      modifies this
      ensures g == if old(g).Isolated(n) then old(g).(nodes := old(g).nodes - {n}) else old(g)
    {
      if g.Isolated(n) {
        RemoveNode(n);
        assert g.edges == old(g).edges;
      }
    }

    /** Removes nodes that no edge touches any more. */
    method RemoveNodes(gone: set<Node>)
      requires forall n :: n in gone ==> g.Isolated(n)
      modifies this
      ensures g == old(g).(nodes := old(g).nodes - gone)
    {
      var todo := gone;
      while todo != {}
        invariant todo <= gone
        invariant g == old(g).(nodes := old(g).nodes - (gone - todo))
        decreases todo
      {
        var n :| n in todo;
        assert g.Isolated(n);
        RemoveNodeIfIsolated(n);
        todo := todo - {n};
      }
    }

    method RemoveEdges(gone: set<Edge>)
      modifies this
      ensures g == old(g).(edges := old(g).edges - gone)
    {
      var todo := gone;
      while todo != {}
        invariant todo <= gone
        invariant g == old(g).(edges := old(g).edges - (gone - todo))
        decreases todo
      {
        var e :| e in todo;
        RemoveEdge(e);
        todo := todo - {e};
      }
    }

    /** Orders u before v by an empty edge, unless some edge already does. */
    method AddOrdering(u: Node, v: Node, ghost topo: Order)
      requires g.WellFormed() && g.Forward(topo)
      requires u in g.nodes && v in g.nodes && topo[u] < topo[v]
      modifies this
      ensures g.WellFormed() && g.Forward(topo) && g.HasEdge(u, v)
      ensures g == if old(g).HasEdge(u, v) then old(g)
                   else old(g).(edges := old(g).edges + {OrderingEdge(u, v)})
    {
      if !g.HasEdge(u, v) {
        AddEdge(OrderingEdge(u, v));
        assert OrderingEdge(u, v) in g.edges;
      }
    }
  }
}
