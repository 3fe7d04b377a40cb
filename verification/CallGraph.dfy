/** Nodes, edges and paths of a call graph. A pointer to a node is its index in the node list. */
module CallGraph {
  import opened MachineIntegers
  import opened Options

  datatype EdgeType = Sync | Async | Callback | AsyncCrossShard | CallbackCrossShard
  {
    predicate IsAsync() {
      Async? || AsyncCrossShard?
    }

    predicate IsCallback() {
      Callback? || CallbackCrossShard?
    }
  }

  /** The payload of a node. */
  datatype Call = Call(address: string, functionName: string)

  datatype Edge = Edge(
    id: nat,
    typ: EdgeType,
    callback: string,
    to: nat,
    gasLimit: uint64,
    gasUsed: uint64,
    gasUsedByCallback: uint64,
    gasLocked: uint64,
    caption: string,
    fail: bool,
    callbackFail: bool)

  /** The gas fields of a node that path enumeration overwrites. */
  datatype NodeGas = NodeGas(limit: uint64, remaining: uint64, used: uint64, locked: uint64)

  datatype Graph = Graph(calls: seq<Call>, adjacent: seq<seq<Edge>>, start: nat)
  {
    predicate WellFormed() {
      && |adjacent| == |calls|
      && start < |calls|
      && forall v, i :: 0 <= v < |adjacent| && 0 <= i < |adjacent[v]| ==> adjacent[v][i].to < |calls|
    }

    /** Every edge goes down in rank, so there is no cycle. */
    predicate RankedBy(rank: seq<nat>)
      requires WellFormed()
    {
      && |rank| == |calls|
      && forall v, i :: 0 <= v < |adjacent| && 0 <= i < |adjacent[v]| ==> rank[adjacent[v][i].to] < rank[v]
    }

    predicate IsLeaf(v: nat)
      requires v < |adjacent|
    {
      adjacent[v] == []
    }
  }

  /** A pointer to an edge: the node it leaves and its place in the adjacency list. */
  datatype EdgeRef = EdgeRef(from: nat, index: nat)

  type Path = seq<EdgeRef>

  predicate ValidRef(g: Graph, e: EdgeRef)
    requires g.WellFormed()
  {
    e.from < |g.adjacent| && e.index < |g.adjacent[e.from]|
  }

  function EdgeAt(g: Graph, e: EdgeRef): (r: Edge)
    requires g.WellFormed() && ValidRef(g, e)
    ensures r.to < |g.calls|
  {
    g.adjacent[e.from][e.index]
  }

  /** Consecutive edges of the graph, from the start node. */
  predicate IsPath(g: Graph, p: Path)
    requires g.WellFormed()
    decreases |p|, 0
  {
    p == [] ||
    (var front, e := p[..|p| - 1], p[|p| - 1];
     IsPath(g, front) && ValidRef(g, e) && e.from == LastNode(g, front))
  }

  function LastNode(g: Graph, p: Path): (v: nat)
    requires g.WellFormed() && IsPath(g, p)
    ensures v < |g.calls|
    decreases |p|, 1
  {
    if p == [] then g.start else EdgeAt(g, p[|p| - 1]).to
  }

  function LastEdge(g: Graph, p: Path): Option<Edge>
    requires g.WellFormed() && IsPath(g, p)
  {
    if p == [] then None else Some(EdgeAt(g, p[|p| - 1]))
  }
}
