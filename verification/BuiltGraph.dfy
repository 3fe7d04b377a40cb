/**
  What every execution graph built from a call graph satisfies: where its edges come from, that it
  has no cycle, and the shape that the later stages rely on.
 */
module BuiltGraph {
  import opened CallGraph
  import opened Paths
  import opened CallTree
  import opened ExecutionBuild
  import Pipeline

  /** Every edge has a number, as edges that are added to a call graph do. */
  predicate Numbered(g: Graph) {
    forall v, i :: 0 <= v < |g.adjacent| && 0 <= i < |g.adjacent[v]| ==> g.adjacent[v][i].id > 0
  }

  /** No call and no callback is configured to fail. */
  predicate Reliable(g: Graph) {
    forall v, i :: 0 <= v < |g.adjacent| && 0 <= i < |g.adjacent[v]| ==> !g.adjacent[v][i].fail && !g.adjacent[v][i].callbackFail
  }

  /** No cycle, counting a callback as called by the node that is called asynchronously. */
  predicate RankedCalls(g: Graph, rank: seq<nat>)
    requires Callable(g)
  {
    && |rank| == |g.calls|
    && forall u, i :: 0 <= u < |g.adjacent| && 0 <= i < |g.adjacent[u]| ==> EdgeRanked(g, rank, u, i)
  }

  predicate EdgeRanked(g: Graph, rank: seq<nat>, u: nat, i: nat)
    requires Callable(g) && |rank| == |g.calls| && u < |g.adjacent| && i < |g.adjacent[u]|
  {
    var to := Copy(g, g.adjacent[u][i].to);
    rank[to] < rank[Copy(g, u)] && (NamesCallback(g.adjacent[u][i]) ==> rank[CallbackNode(g, u, i)] < rank[to])
  }

  /** `e` is built from `g`, and all calls of `g` are processed. */
  ghost predicate IsExecutionOf(g: Graph, order: seq<nat>, e: Graph) {
    && Built(g, order, e.calls, e.adjacent) && e.start == Copy(g, g.start)
    && forall v :: 0 <= v < |g.calls| ==> v in order
  }

  // ----- Where edges come from -----

  ghost predicate IsWork(g: Graph, order: seq<nat>, v: nat, e: Edge)
    requires g.WellFormed() && Within(g, order)
  {
    exists k :: 0 <= k < |order| && WorkFor(g, order, v, k, e)
  }

  ghost predicate IsGiven(g: Graph, v: nat, e: Edge)
    requires Callable(g)
  {
    exists u :: 0 <= u < |g.adjacent| && Gives(g, u, v, e)
  }

  lemma BuiltParts(g: Graph, order: seq<nat>, e: Graph)
    requires IsExecutionOf(g, order, e)
    ensures Callable(g) && Within(g, order) && |e.calls| == |e.adjacent| == |g.calls| + |order|
    ensures forall v :: 0 <= v < |g.calls| ==> e.calls[v] == g.calls[v]
    ensures forall f :: |g.calls| <= f < |e.calls| ==> e.calls[f] == FINISH && e.adjacent[f] == []
    ensures e.start == Copy(g, g.start)
  {
    hide Row, CallbacksPresent, Copy;
    assert forall v :: 0 <= v < |g.calls| ==> e.calls[v] == e.calls[..|g.calls|][v];
  }

  /** The edges of a node are exactly its work and the callbacks given to it. */
  lemma EdgeOrigins(g: Graph, order: seq<nat>, e: Graph, v: nat, x: Edge)
    requires IsExecutionOf(g, order, e) && v < |g.calls|
    ensures Callable(g) && Within(g, order) && v < |e.adjacent|
    ensures x in e.adjacent[v] <==> IsWork(g, order, v, x) || IsGiven(g, v, x)
  {
    hide Work, Built, CallbacksInto, Gives, WorkFor, CallbacksPresent, Copy;
    BuiltParts(g, order, e);
    RowOf(g, order, e.calls, e.adjacent, v);
    WorkOrigins(g, order, v, x);
    CallbackOrigins(g, order, v, x);
    AllGive(g, order, v, x);
  }

  lemma AllGive(g: Graph, order: seq<nat>, v: nat, x: Edge)
    requires Callable(g) && Within(g, order) && forall u :: 0 <= u < |g.calls| ==> u in order
    ensures IsGiven(g, v, x) <==> exists k :: 0 <= k < |order| && Gives(g, order[k], v, x)
  {
    hide Gives, CallbacksPresent;
    if IsGiven(g, v, x) {
      var u :| 0 <= u < |g.adjacent| && Gives(g, u, v, x);
      assert u in order;
      var k :| 0 <= k < |order| && order[k] == u;
    }
  }

  /** A given callback edge was named by an async call to the node. */
  lemma GivenEdge(g: Graph, v: nat, x: Edge) returns (u: nat, j: nat)
    requires Callable(g) && IsGiven(g, v, x)
    ensures u < |g.adjacent| && j < |g.adjacent[u]| && NamesCallback(g.adjacent[u][j])
    ensures CallbackCall(g, u, g.adjacent[u][j]) in g.calls && x == CallbackEdge(g, u, g.adjacent[u][j])
    ensures Copy(g, g.adjacent[u][j].to) == v && x.to == CallbackNode(g, u, j)
  {
    hide Copy;
    u :| 0 <= u < |g.adjacent| && Gives(g, u, v, x);
    j :| 0 <= j < |g.adjacent[u]| && x in Back(g, u, j, v);
  }

  /** Work is a finish edge, or an edge of a call that the node stands for. */
  lemma WorkEdge(g: Graph, order: seq<nat>, v: nat, x: Edge) returns (k: nat, i: nat)
    requires g.WellFormed() && Within(g, order) && IsWork(g, order, v, x)
    ensures k < |order| && Copy(g, order[k]) == v && NotBack(x)
    ensures x == ExecutionBuild.FinishEdge(|g.calls| + k) ||
            (i < |g.adjacent[order[k]]| && x == Led(g, order[k])[i] && (IsSync(x) || IsAsync(x)))
  {
    hide Copy, Led;
    k :| 0 <= k < |order| && WorkFor(g, order, v, k, x);
    i := 0;
    if x != ExecutionBuild.FinishEdge(|g.calls| + k) {
      i :| 0 <= i < |Led(g, order[k])| && Led(g, order[k])[i] == x;
    }
  }

  // ----- Nodes -----

  /** A node stands for itself or for nothing. */
  lemma CopyOfCopy(g: Graph, v: nat)
    requires v < |g.calls|
    ensures Copy(g, Copy(g, v)) == Copy(g, v)
  {
    hide NodeOf;
  }

  /** Only nodes that stand for a call have edges. */
  lemma InnerStands(g: Graph, order: seq<nat>, e: Graph, v: nat)
    requires IsExecutionOf(g, order, e) && v < |e.adjacent| && e.adjacent[v] != []
    ensures v < |g.calls| && Copy(g, v) == v
  {
    hide Built, IsWork, IsGiven, Copy;
    BuiltParts(g, order, e);
    var x := e.adjacent[v][0];
    EdgeOrigins(g, order, e, v, x);
    if IsWork(g, order, v, x) {
      var k, i := WorkEdge(g, order, v, x);
      CopyOfCopy(g, order[k]);
    } else {
      var u, j := GivenEdge(g, v, x);
      CopyOfCopy(g, g.adjacent[u][j].to);
    }
  }

  /** Every edge leads to a finish leaf or to a node that stands for a call. */
  lemma TargetStands(g: Graph, order: seq<nat>, e: Graph, v: nat, x: Edge)
    requires IsExecutionOf(g, order, e) && v < |g.calls| && v < |e.adjacent| && x in e.adjacent[v]
    ensures x.to < |g.calls| + |order| && (x.to < |g.calls| ==> Copy(g, x.to) == x.to)
  {
    hide Built, IsWork, IsGiven, NodeOf;
    EdgeOrigins(g, order, e, v, x);
    if IsWork(g, order, v, x) {
      var k, i := WorkEdge(g, order, v, x);
    } else {
      var u, j := GivenEdge(g, v, x);
    }
  }

  function ExecutionRank(rank: seq<nat>, leaves: nat): seq<nat> {
    seq(|rank| + leaves, v => if 0 <= v < |rank| then rank[v] + 1 else 0)
  }

  lemma EdgeGoesDown(g: Graph, order: seq<nat>, e: Graph, rank: seq<nat>, v: nat, x: Edge)
    requires IsExecutionOf(g, order, e) && Callable(g) && RankedCalls(g, rank)
    requires v < |g.calls| && v < |e.adjacent| && x in e.adjacent[v]
    ensures x.to < |rank| + |order|
    ensures ExecutionRank(rank, |order|)[x.to] < ExecutionRank(rank, |order|)[v]
  {
    hide Built, IsWork, IsGiven, Copy;
    EdgeOrigins(g, order, e, v, x);
    if IsWork(g, order, v, x) {
      var k, i := WorkEdge(g, order, v, x);
      if x != ExecutionBuild.FinishEdge(|g.calls| + k) {
        assert EdgeRanked(g, rank, order[k], i);
      }
    } else {
      var u, j := GivenEdge(g, v, x);
      assert EdgeRanked(g, rank, u, j);
    }
  }

  /** The execution graph is well formed, and acyclic if the call graph with its callbacks is. */
  lemma BuiltRanked(g: Graph, order: seq<nat>, e: Graph, rank: seq<nat>)
    requires IsExecutionOf(g, order, e) && Callable(g) && RankedCalls(g, rank)
    ensures e.WellFormed() && e.RankedBy(ExecutionRank(rank, |order|))
  {
    hide IsExecutionOf, RankedCalls, CallbacksPresent, Copy;
    BuiltParts(g, order, e);
    assert |rank| == |g.calls| by { RankLength(g, rank); }
    forall v, i | 0 <= v < |e.adjacent| && 0 <= i < |e.adjacent[v]|
      ensures e.adjacent[v][i].to < |e.calls|
      ensures ExecutionRank(rank, |order|)[e.adjacent[v][i].to] < ExecutionRank(rank, |order|)[v]
    {
      EdgeGoesDown(g, order, e, rank, v, e.adjacent[v][i]);
    }
  }

  lemma RankLength(g: Graph, rank: seq<nat>)
    requires Callable(g) && RankedCalls(g, rank)
    ensures |rank| == |g.calls|
  {
  }

  // ----- The shape of the execution graph -----

  lemma CallbacksComeLast(g: Graph, order: seq<nat>, e: Graph)
    requires IsExecutionOf(g, order, e)
    ensures Pipeline.CallbacksLast(e)
  {
    hide IsExecutionOf, Parted, Copy;
    BuiltParts(g, order, e);
    forall v, i, j | 0 <= v < |e.adjacent| && 0 <= i < j < |e.adjacent[v]| && e.adjacent[v][i].typ.IsCallback()
      ensures e.adjacent[v][j].typ.IsCallback()
    {
      PartedRow(g, order, e, v);
      PartedOrder(e.adjacent[v], i, j);
    }
  }

  lemma PartedRow(g: Graph, order: seq<nat>, e: Graph, v: nat)
    requires IsExecutionOf(g, order, e) && v < |g.calls|
    ensures v < |e.adjacent| && Parted(e.adjacent[v])
  {
    hide Parted, CallbacksPresent, CallbacksInto, Work, Copy;
    assert Row(g, order, v, e.adjacent[v]);
  }

  lemma PartedOrder(s: seq<Edge>, i: nat, j: nat)
    requires Parted(s) && i < j < |s| && IsBack(s[i])
    ensures IsBack(s[j])
  {
    hide Only;
    var others, back := Others(s), Callbacks(s);
    if i < |others| {
      OnlyHold(NotBack, s, i);
    } else {
      OnlyHold(IsBack, s, j - |others|);
    }
  }

  /** A node that stands for a call has a finish edge. */
  lemma FinishOf(g: Graph, order: seq<nat>, e: Graph, v: nat) returns (i: nat)
    requires IsExecutionOf(g, order, e) && e.WellFormed() && v < |g.calls| && Copy(g, v) == v
    ensures i < |e.adjacent[v]| && Pipeline.FinishEdge(e, v, i)
  {
    hide Built, Copy;
    BuiltParts(g, order, e);
    assert v in order;
    var k :| 0 <= k < |order| && order[k] == v;
    var x := ExecutionBuild.FinishEdge(|g.calls| + k);
    assert WorkFor(g, order, v, k, x);
    EdgeOrigins(g, order, e, v, x);
    i :| 0 <= i < |e.adjacent[v]| && e.adjacent[v][i] == x;
  }

  lemma EveryCallFinishes(g: Graph, order: seq<nat>, e: Graph)
    requires IsExecutionOf(g, order, e) && e.WellFormed()
    ensures Pipeline.AllFinish(e)
  {
    hide IsExecutionOf, Pipeline.FinishEdge, Copy;
    BuiltParts(g, order, e);
    forall v | 0 <= v < |e.adjacent| && !e.IsLeaf(v)
      ensures exists i :: 0 <= i < |e.adjacent[v]| && Pipeline.FinishEdge(e, v, i)
    {
      InnerStands(g, order, e, v);
      var i := FinishOf(g, order, e, v);
    }
  }

  lemma InnerAreUnique(g: Graph, order: seq<nat>, e: Graph)
    requires IsExecutionOf(g, order, e) && e.WellFormed()
    ensures Pipeline.InnerCallsUnique(e)
  {
    hide IsExecutionOf, NodeOf;
    BuiltParts(g, order, e);
    forall u, v | 0 <= u < |e.calls| && 0 <= v < |e.calls| && !e.IsLeaf(u) && !e.IsLeaf(v) && e.calls[u] == e.calls[v]
      ensures u == v
    {
      InnerStands(g, order, e, u);
      InnerStands(g, order, e, v);
    }
  }

  /** The leaves that can be entered are finish nodes, and only they carry the finish call. */
  lemma LeavesAreFinishes(g: Graph, order: seq<nat>, e: Graph)
    requires IsExecutionOf(g, order, e) && e.WellFormed() && FINISH !in g.calls
    ensures LeavesAreTold(e)
  {
    hide IsExecutionOf, Copy, Pipeline.FinishEdge;
    BuiltParts(g, order, e);
    forall w, i | 0 <= w < |e.adjacent| && 0 <= i < |e.adjacent[w]| ensures LeafIsTold(e, e.adjacent[w][i].to) {
      var x := e.adjacent[w][i];
      TargetStands(g, order, e, w, x);
      if x.to < |g.calls| {
        var f := FinishOf(g, order, e, x.to);
      } else {
        forall v | 0 <= v < |e.calls| && !e.IsLeaf(v) ensures e.calls[v] != FINISH {
          assert v < |g.calls| && e.calls[v] == g.calls[v];
        }
      }
    }
  }

  /** Callback edges share number 0 with finish edges only, and their label with none of them. */
  lemma EdgeKey(g: Graph, order: seq<nat>, e: Graph, v: nat, x: Edge)
    requires IsExecutionOf(g, order, e) && Numbered(g) && v < |g.calls| && v < |e.adjacent| && x in e.adjacent[v]
    ensures IsBack(x) <==> x.id == 0 && x.caption == "Callback"
    ensures Reliable(g) ==> !x.fail
  {
    hide Built, IsWork, IsGiven, Copy;
    EdgeOrigins(g, order, e, v, x);
    if IsWork(g, order, v, x) {
      var k, i := WorkEdge(g, order, v, x);
    } else {
      var u, j := GivenEdge(g, v, x);
    }
  }

  lemma CallbackKeysDiffer(g: Graph, order: seq<nat>, e: Graph)
    requires IsExecutionOf(g, order, e) && e.WellFormed() && Numbered(g)
    ensures Pipeline.KeysTell(e) && (Reliable(g) ==> Pipeline.NoFailures(e))
  {
    hide IsExecutionOf, CallbacksPresent, Numbered, Copy, Reliable;
    BuiltParts(g, order, e);
    forall v, i | 0 <= v < |e.adjacent| && 0 <= i < |e.adjacent[v]|
      ensures IsBack(e.adjacent[v][i]) <==> e.adjacent[v][i].id == 0 && e.adjacent[v][i].caption == "Callback"
      ensures Reliable(g) ==> !e.adjacent[v][i].fail
    {
      EdgeKey(g, order, e, v, e.adjacent[v][i]);
    }
  }

  lemma StartWorks(g: Graph, order: seq<nat>, e: Graph)
    requires IsExecutionOf(g, order, e) && e.WellFormed()
    ensures !e.IsLeaf(e.start)
  {
    hide IsExecutionOf, Copy, Pipeline.FinishEdge;
    BuiltParts(g, order, e);
    CopyOfCopy(g, g.start);
    var i := FinishOf(g, order, e, e.start);
  }

  /** What building guarantees, for every call graph. */
  lemma BuiltShape(g: Graph, order: seq<nat>, e: Graph)
    requires IsExecutionOf(g, order, e) && e.WellFormed() && Numbered(g) && Reliable(g) && FINISH !in g.calls
    ensures Pipeline.ExecutionShape(e)
  {
    hide IsExecutionOf, LeavesAreTold, Pipeline.CallbacksLast, Pipeline.InnerCallsUnique, Pipeline.KeysTell, Pipeline.AllFinish;
    hide Pipeline.NoFailures;
    CallbacksComeLast(g, order, e);
    InnerAreUnique(g, order, e);
    LeavesAreFinishes(g, order, e);
    CallbackKeysDiffer(g, order, e);
    EveryCallFinishes(g, order, e);
    StartWorks(g, order, e);
  }
}
