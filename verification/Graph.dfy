/**
 The dataflow state that the clean-up pass edits: nodes, and edges that either carry a memlet
 or are empty (pure ordering). Every edge has an identity; an edge that replaces another one
 takes over its identity, and an ordering edge is identified by its two ends.
 */
module StateGraph {
  import opened Basics

  type Node = nat
  type Value = int
  type Connector = Option<string>

  datatype Code = Assign(target: string, source: string) | OtherCode

  datatype Kind =
    | Access(data: string)
    | Tasklet(code: Code, ins: set<string>, outs: set<string>)
    | MapEntry
    | MapExit

  datatype Memlet = Empty | Move(data: string, subset: seq<Dim>, other: Option<seq<Dim>>)

  datatype EdgeKey = Carried(id: nat) | Ordering(from: Node, to: Node)

  datatype Edge = Edge(key: EdgeKey, src: Node, srcConn: Connector,
                       dst: Node, dstConn: Connector, memlet: Memlet)

  /** What the pass asks of a data descriptor. */
  datatype Descriptor = Descriptor(transient: bool, scalar: bool)

  /** A memory slot: container name and index tuple. */
  datatype Slot = Slot(data: string, index: seq<int>)

  type Order = map<Node, nat>

  datatype Graph = Graph(nodes: map<Node, Kind>, edges: set<Edge>) {

    function InEdges(n: Node): set<Edge> {
      set e | e in edges && e.dst == n
    }

    function OutEdges(n: Node): set<Edge> {
      set e | e in edges && e.src == n
    }

    predicate Isolated(n: Node) {
      forall e :: e in edges ==> e.src != n && e.dst != n
    }

    predicate HasEdge(u: Node, v: Node) {
      exists e :: e in edges && e.src == u && e.dst == v
    }

    predicate IsAccess(n: Node) {
      n in nodes && nodes[n].Access?
    }

    predicate IsTasklet(n: Node) {
      n in nodes && nodes[n].Tasklet?
    }

    /** Ends exist and keys identify edges; an ordering key belongs to an empty edge between its ends. */
    ghost predicate WellFormed() {
      && (forall e :: e in edges ==> e.src in nodes && e.dst in nodes)
      && (forall e, f :: e in edges && f in edges && e.key == f.key ==> e == f)
      && (forall e :: e in edges && e.key.Ordering? ==> e == OrderingEdge(e.key.from, e.key.to))
    }

    /** Every node is numbered and every edge goes from a smaller to a larger number. */
    ghost predicate Forward(topo: Order) {
      && nodes.Keys <= topo.Keys
      && (forall e :: e in edges ==> e.src in topo && e.dst in topo && topo[e.src] < topo[e.dst])
    }

    ghost predicate Acyclic() {
      exists topo: Order :: Forward(topo)
    }

    /** Identities of the edges that carry data: the measure of the pass. */
    function DataKeys(): set<EdgeKey> {
      set e | e in edges && e.memlet.Move? :: e.key
    }
  }

  function OrderingEdge(u: Node, v: Node): Edge {
    Edge(Ordering(u, v), u, None, v, None, Empty)
  }

  /** Number of elements of the bounding box (unit tiles). */
  function NumElements(subset: seq<Dim>): int {
    if subset == [] then 1 else (subset[0].re - subset[0].rb + 1) * NumElements(subset[1..])
  }

  /** The memlet names a non-empty subset whose bounding box holds one element. */
  predicate MovesOneElement(e: Edge) {
    e.memlet.Move? && |e.memlet.subset| > 0 && NumElements(e.memlet.subset) == 1
  }

  function Starts(subset: seq<Dim>): (r: seq<int>)
    ensures |r| == |subset|
  {
    seq(|subset|, i requires 0 <= i < |subset| => subset[i].rb)
  }

  function SlotOf(m: Memlet): Slot
    requires m.Move?
  {
    Slot(m.data, Starts(m.subset))
  }

  /** The tasklet only copies one declared input connector to one declared output connector. */
  predicate IsAssign(k: Kind) {
    k.Tasklet? && k.code.Assign? && k.code.target in k.outs && k.code.source in k.ins
  }

  /** The number of data-carrying edges equals the number of their keys. */
  lemma DataKeysCountEdges(g: Graph)
    requires g.WellFormed()
    ensures |g.DataKeys()| == |set e | e in g.edges && e.memlet.Move?|
  {
    var es := set e | e in g.edges && e.memlet.Move?;
    KeysCount(g, es);
    assert g.DataKeys() == set e | e in es :: e.key;
  }

  lemma {:induction false} KeysCount(g: Graph, es: set<Edge>)
    requires g.WellFormed() && es <= g.edges
    ensures |set e | e in es :: e.key| == |es|
  {
    if es != {} {
      var x :| x in es;
      KeysCount(g, es - {x});
      assert (set e | e in es :: e.key) == (set e | e in es - {x} :: e.key) + {x.key};
    }
  }
}
