/** The shape of a call tree: what the scheduler and the gas accountant read but never write. */
module TreeShape {
  import opened MachineIntegers
  import opened CallGraph

  /** A call, or, without edges, the finish leaf of its parent's execution. */
  datatype CallNode = CallNode(id: nat, used: uint64, locked: uint64, edges: seq<CallEdge>)
  {
    predicate IsLeaf() {
      edges == []
    }

    predicate HasCallback() {
      exists k :: 0 <= k < |edges| && edges[k].typ.IsCallback()
    }

    predicate HasFailSyncEdge() {
      exists k :: 0 <= k < |edges| && edges[k].typ.Sync? && edges[k].fail
    }
  }

  datatype CallEdge = CallEdge(typ: EdgeType, fail: bool, child: CallNode)

  /** The ids in the subtrees of the first `k` children. */
  function EdgeIds(n: CallNode, k: nat): set<nat>
    requires k <= |n.edges|
    decreases n, k
  {
    if k == 0 then {} else EdgeIds(n, k - 1) + Ids(n.edges[k - 1].child)
  }

  function Ids(n: CallNode): set<nat>
    decreases n, |n.edges| + 1
  {
    {n.id} + EdgeIds(n, |n.edges|)
  }

  /** Every id occurs once. */
  predicate Distinct(n: CallNode)
    decreases n
  {
    && n.id !in EdgeIds(n, |n.edges|)
    && (forall k :: 0 <= k < |n.edges| ==> EdgeIds(n, k) !! Ids(n.edges[k].child))
    && (forall k :: 0 <= k < |n.edges| ==> Distinct(n.edges[k].child))
  }

  /** No call of the tree is configured to fail. */
  predicate FailureFree(n: CallNode)
    decreases n
  {
    && (forall k :: 0 <= k < |n.edges| ==> !n.edges[k].fail)
    && (forall k :: 0 <= k < |n.edges| ==> FailureFree(n.edges[k].child))
  }

  lemma IdIn(n: CallNode)
    ensures n.id in Ids(n)
  {
  }

  lemma {:induction false} EdgeIdsGrow(n: CallNode, j: nat, k: nat)
    requires j <= k <= |n.edges|
    ensures EdgeIds(n, j) <= EdgeIds(n, k)
    decreases k
  {
    if j < k {
      EdgeIdsGrow(n, j, k - 1);
    }
  }

  lemma ChildIds(n: CallNode, k: nat)
    requires k < |n.edges|
    ensures Ids(n.edges[k].child) <= EdgeIds(n, k + 1) <= EdgeIds(n, |n.edges|) <= Ids(n)
    ensures n.edges[k].child.id in Ids(n.edges[k].child) && n.id in Ids(n)
  {
    EdgeIdsGrow(n, k + 1, |n.edges|);
  }

  lemma EarlierDisjoint(n: CallNode, j: nat, k: nat)
    requires Distinct(n) && j < k < |n.edges|
    ensures Ids(n.edges[j].child) !! Ids(n.edges[k].child)
  {
    hide Ids, EdgeIds, Distinct;
    DistinctChild(n, k);
    ChildIds(n, j);
    EdgeIdsGrow(n, j + 1, k);
    PartDisjoint(Ids(n.edges[j].child), EdgeIds(n, k), Ids(n.edges[k].child));
  }

  lemma PartDisjoint(a: set<nat>, b: set<nat>, c: set<nat>)
    requires a <= b && b !! c
    ensures a !! c
  {
  }

  lemma ChildrenDisjoint(n: CallNode, j: nat, k: nat)
    requires Distinct(n) && j < |n.edges| && k < |n.edges| && j != k
    ensures Ids(n.edges[j].child) !! Ids(n.edges[k].child)
  {
    hide Ids, Distinct;
    if j < k {
      EarlierDisjoint(n, j, k);
    } else {
      EarlierDisjoint(n, k, j);
    }
  }

  lemma RootApart(n: CallNode, k: nat)
    requires Distinct(n) && k < |n.edges|
    ensures n.id !in Ids(n.edges[k].child)
  {
    hide Ids;
    ChildIds(n, k);
  }

  lemma DistinctChild(n: CallNode, k: nat)
    requires Distinct(n) && k < |n.edges|
    ensures Distinct(n.edges[k].child) && Ids(n.edges[k].child) !! EdgeIds(n, k)
  {
  }
}
