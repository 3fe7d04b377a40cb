/**
  From call graph to schedule and gas: the execution graph built from a call graph has the shape that
  the later stages rely on, so the whole chain delivers a good schedule and conserves gas.
 */
module CallGraphRun {
  import opened CallGraph
  import opened Paths
  import opened CallTree
  import opened TreeShape
  import opened ExecutionBuild
  import opened BuiltGraph
  import Pipeline
  import ExecutionRun
  import TreeGas
  import OneCallback
  import opened CallbackFilter
  import Schedule
  import Gas
  import GasWitness
  import MergedGas

  /**
    The whole chain, from the call graph that a test describes. The schedule is correct and the gas
    balances for every call graph. Gas is conserved, whatever the limits, exactly if the call graph
    pays for its callbacks. Every call of the tree is accounted for with the gas of its edge in the
    call graph.
   */
  method RunCallGraph(g: Graph, gas: seq<NodeGas>, ghost rank: seq<nat>)
    returns (tree: TreeGraph, s: Schedule.Scheduler, a: Gas.Accountant, ghost order: seq<nat>, ghost e: Graph)
    requires Callable(g) && |gas| == |g.calls| && RankedCalls(g, rank)
    requires Numbered(g) && Reliable(g) && FINISH !in g.calls
    ensures IsExecutionOf(g, order, e) && e.WellFormed() && e.RankedBy(ExecutionRank(rank, |order|))
    ensures Pipeline.BuiltFrom(e, ExecutionRank(rank, |order|), gas[Copy(g, g.start)], tree.t)
    ensures var n := Pipeline.View(tree.t, 0);
            && Pipeline.Accounted(n, s.State(), a.State()) && n.id in a.limit && a.limit[n.id] == gas[Copy(g, g.start)].limit
            && TreeGas.Mirrors(tree.t, n) && n.id == 0
            && (DistinctNumbers(g) ==> PaysExactly(g, n, a.State()) && MergedGas.KeysTellGas(e))
    ensures TreeGas.TreeAccounts(tree.t, a.State()) && tree.t[0].copy.gas == gas[Copy(g, g.start)]
    ensures forall i :: 0 < i < |tree.t| ==> TreeGas.GasOfEdge(tree.t, i)
    ensures MergedGas.CallsKeepGas(g, tree.t)
    ensures DistinctNumbers(g) ==> MergedGas.CallbacksKeepGas(g, tree.t)
    ensures DistinctNumbers(g) ==> forall i :: 0 < i < |tree.t| ==> MergedGas.UsedInTree(tree.t, i)
  {
    hide *;
    var graph, failing;
    graph, failing, order := CreateExecutionGraph(g, gas, {});
    e := graph.g;
    assert IsExecutionOf(g, order, e) by { CompleteWhenVisited(g, order, e); }
    StartGas(g, gas, graph.gas);
    BuiltRanked(g, order, e, rank);
    BuiltShape(g, order, e);
    tree, s, a := ExecutionRun.RunExecutionGraph(graph, ExecutionRank(rank, |order|));
    OneCallback.TreeIsValid(e, ExecutionRank(rank, |order|), gas[Copy(g, g.start)], tree.t);
    MergedGas.TreeKeepsGas(g, order, e, ExecutionRank(rank, |order|), gas[Copy(g, g.start)], tree.t);
    if DistinctNumbers(g) {
      MergedGas.BuiltKeysTellGas(g, order, e);
      ChainPays(g, order, e, ExecutionRank(rank, |order|), gas[Copy(g, g.start)], tree.t, s.State(), a.State());
    }
  }

  /** The start's limit is what remains and what was spent, funded or left idle; exactly, if nothing underflows. */
  ghost predicate Conserves(n: CallNode, b: Gas.Books)
    requires Gas.Covers(b, Ids(n)) && n.id in Ids(n)
  {
    && Gas.Congruent(b.limit[n.id], b.remaining[n.id] + Gas.Ledger(n, b))
    && (Gas.NoUnderflow(n, b) ==> b.limit[n.id] == b.remaining[n.id] + Gas.Ledger(n, b))
  }

  /**
    All callbacks of the tree are paid for exactly if the call graph pays for its callbacks. Then gas
    is conserved; otherwise, for some limits, it is not.
   */
  ghost predicate PaysExactly(g: Graph, n: CallNode, b: Gas.Books)
    requires Callable(g) && Gas.Covers(b, Ids(n)) && n.id in Ids(n)
  {
    && (Gas.AtMostOne(n, Sync) <==> PaidFor(g))
    && (PaidFor(g) ==> Conserves(n, b) && GasWitness.AlwaysConserved(n))
    && (GasWitness.FewCallbacks(n) && GasWitness.AlwaysConserved(n) ==> PaidFor(g))
  }

  lemma ChainPays(g: Graph, order: seq<nat>, e: Graph, rank: seq<nat>, first: NodeGas, t: Tree, r: Schedule.Rounds, b: Gas.Books)
    requires IsExecutionOf(g, order, e) && Callable(g) && Numbered(g) && DistinctNumbers(g)
    requires Pipeline.BuiltFrom(e, rank, first, t) && e.WellFormed() && Pipeline.ExecutionShape(e) && Valid(t)
    requires Pipeline.Accounted(Pipeline.View(t, 0), r, b)
    ensures PaysExactly(g, Pipeline.View(t, 0), b)
  {
    hide IsExecutionOf, Pipeline.BuiltFrom, Pipeline.ExecutionShape, Pipeline.View, PaidFor, CallbacksPresent, Copy;
    hide Gas.AtMostOne, Gas.Ledger, Gas.Congruent, Gas.NoUnderflow, Gas.Balanced, Gas.Booked;
    hide Schedule.Lawful, Schedule.WellScheduled, Schedule.Calls, Ids, Distinct, FailureFree;
    hide GasWitness.AlwaysConserved, GasWitness.FewCallbacks, GasWitness.Paying;
    var n := Pipeline.View(t, 0);
    ChainPaysExactly(g, order, e, rank, first, t);
    GasWitness.ConservedIffPaying(n);
    GasWitness.PayingIsAtMostOne(n, Sync);
    if Gas.AtMostOne(n, Sync) {
      Gas.Conserved(n, b);
    }
  }

  lemma CompleteWhenVisited(g: Graph, order: seq<nat>, e: Graph)
    requires Built(g, order, e.calls, e.adjacent) && e.start == Copy(g, g.start)
    requires forall v :: 0 <= v < |g.calls| ==> v in order
    ensures IsExecutionOf(g, order, e)
  {
  }

  lemma StartGas(g: Graph, gas: seq<NodeGas>, all: seq<NodeGas>)
    requires Callable(g) && |g.calls| == |gas| <= |all| && all[..|gas|] == gas
    ensures g.start < |g.calls| && Copy(g, g.start) < |gas| && all[Copy(g, g.start)] == gas[Copy(g, g.start)]
  {
    assert all[..|gas|][Copy(g, g.start)] == gas[Copy(g, g.start)];
  }
}
