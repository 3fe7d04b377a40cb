/** From execution graph to schedule and gas: the stages after the execution graph is built, in turn. */
module ExecutionRun {
  import opened MachineIntegers
  import opened CallGraph
  import opened Paths
  import opened CallTree
  import opened TreeShape
  import opened Pipeline
  import opened TreeGas
  import Schedule
  import Gas

  /** The gas limits the paths gave to the nodes of a tree. */
  function Limits(t: Tree): (m: map<nat, uint64>)
    requires Valid(t)
    ensures m.Keys == Ids(View(t, 0))
    ensures forall i :: 0 <= i < |t| ==> i in m && m[i] == t[i].copy.gas.limit
  {
    var m := map i | i in Ids(View(t, 0)) && i < |t| :: t[i].copy.gas.limit;
    assert forall i :: i in Ids(View(t, 0)) <==> 0 <= i < |t| by {
      forall i | i in Ids(View(t, 0)) ensures i < |t| { IdsBelow(t, 0, i); }
      forall i | 0 <= i < |t| ensures i in Ids(View(t, 0)) { InView(t, i); }
    }
    m
  }

  /**
    The whole pipeline: the tree of any acyclic execution graph is scheduled well - rounds never
    decrease along an edge, local calls share their caller's round, cross-shard calls and callbacks
    wait for everything before them, every call has a round - and its gas balances. The accountant sees
    the tree as it is, and leaves at every node what the node's own gas and edges determine.
   */
  method RunExecutionGraph(graph: ExecutionGraph, ghost rank: seq<nat>)
    returns (tree: TreeGraph, s: Schedule.Scheduler, a: Gas.Accountant)
    requires graph.g.WellFormed() && graph.g.RankedBy(rank) && ExecutionShape(graph.g)
    requires |graph.gas| == |graph.g.calls|
    modifies graph
    ensures BuiltFrom(graph.g, rank, old(graph.gas)[graph.g.start], tree.t)
    ensures Accounted(View(tree.t, 0), s.State(), a.State())
    ensures View(tree.t, 0).id in a.limit && a.limit[View(tree.t, 0).id] == old(graph.gas)[graph.g.start].limit
    ensures tree.t[0].copy.gas == old(graph.gas)[graph.g.start]
    ensures Mirrors(tree.t, View(tree.t, 0)) && View(tree.t, 0).id == 0 && TreeAccounts(tree.t, a.State())
    ensures forall i :: 0 < i < |tree.t| ==> GasOfEdge(tree.t, i)
  {
    hide ExecutionShape, BuiltFrom, From, Copies, Valid, Represents, View, Ids, Distinct, FailureFree, Limits;
    hide Schedule.Lawful, Schedule.WellScheduled, Schedule.Finished, Schedule.Calls, Gas.Smooth, Gas.Booked, Gas.Balanced;
    hide Mirrors, TreeAccounts, GasOfEdge, Gas.Accounts, ProperPaths, IsLeafPath, IsPathOf;
    ghost var g, first := graph.g, graph.gas[graph.g.start];
    StartIsInner(g);
    tree := PathsTreeFromDag(graph, rank);
    TreeReady(g, rank, first, tree.t);
    var n := View(tree.t, 0);
    s := new Schedule.Scheduler(Ids(n));
    s.AssignExecutionRounds(n);
    Schedule.ScheduleCorrect(n, s.State());
    Schedule.EveryCallRuns(n, s.State());
    a := new Gas.Accountant(Limits(tree.t), s.round);
    ViewFields(tree.t, 0);
    RootGas(g, rank, first, tree.t);
    ghost var start := a.State();
    assert Opened(tree.t, start);
    a.ComputeRemainingGasBeforeCallbacks(n);
    RunsSmoothly(n, s.State(), a.State());
    ViewMirrors(tree.t, 0);
    AccountsOfTree(tree.t, start, a.State());
    GasFromEdges(g, rank, first, tree.t);
  }

  lemma GasFromEdges(g: Graph, rank: seq<nat>, first: NodeGas, t: Tree)
    requires BuiltFrom(g, rank, first, t) && ExecutionShape(g) && Valid(t)
    ensures forall i :: 0 < i < |t| ==> GasOfEdge(t, i)
  {
    hide BuiltFrom, GasOfEdge, Valid, CallbacksLast, InnerCallsUnique, KeysTell, AllFinish, NoFailures, LeavesAreTold;
    forall i | 0 < i < |t| ensures GasOfEdge(t, i) {
      GasFromEdge(g, rank, first, t, i);
    }
  }
}
