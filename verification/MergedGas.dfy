/**
  Merging paths into a tree loses no gas information: where calls with one key are one call, every
  path through a node of the tree carries the node's own gas.
 */
module MergedGas {
  import opened Options
  import opened CallGraph
  import opened Paths
  import opened CallTree
  import opened Pipeline
  import opened TreeGas
  import OneCallback
  import opened ExecutionBuild
  import opened BuiltGraph
  import opened CallbackFilter

  /** Edges of one node with the same key give their target the same gas. */
  predicate KeysTellGas(g: Graph)
    requires g.WellFormed()
  {
    forall u, i, j :: 0 <= u < |g.adjacent| && 0 <= i < |g.adjacent[u]| && 0 <= j < |g.adjacent[u]| ==>
      EqualIfKeyed(g, g.adjacent[u][i], g.adjacent[u][j])
  }

  predicate EqualIfKeyed(g: Graph, a: Edge, b: Edge)
    requires a.to < |g.calls| && b.to < |g.calls|
  {
    KeyOf(g, a) == KeyOf(g, b) ==> Equivalent(a, b)
  }

  /** The same call, or callbacks that give the same gas. */
  predicate Equivalent(a: Edge, b: Edge) {
    && (a.typ.IsCallback() <==> b.typ.IsCallback())
    && a.gasLimit == b.gasLimit && a.gasUsed == b.gasUsed && a.gasLocked == b.gasLocked
    && (!a.typ.IsCallback() ==> a == b.(to := a.to))
  }

  lemma EquivalentStep(g: Graph, p: Path, q: Path, n: nat)
    requires g.WellFormed() && InnerCallsUnique(g) && KeysTellGas(g) && IsPath(g, p) && IsPath(g, q) && n < |p| && n < |q|
    requires Keys(g, p)[..n + 1] == Keys(g, q)[..n + 1]
    ensures ValidRef(g, p[n]) && ValidRef(g, q[n]) && Equivalent(EdgeAt(g, p[n]), EdgeAt(g, q[n]))
    ensures g.calls[EdgeAt(g, p[n]).to] == g.calls[EdgeAt(g, q[n]).to]
  {
    hide IsPath, Keys, InnerCallsUnique;
    assert Keys(g, p)[..n] == Keys(g, p)[..n + 1][..n] == Keys(g, q)[..n + 1][..n] == Keys(g, q)[..n];
    assert Keys(g, p)[n] == Keys(g, p)[..n + 1][n] == Keys(g, q)[..n + 1][n] == Keys(g, q)[n];
    SameNode(g, p, q, n);
    StepsOf(g, p, n);
    StepsOf(g, q, n);
    assert EqualIfKeyed(g, g.adjacent[p[n].from][p[n].index], g.adjacent[p[n].from][q[n].index]);
  }

  /** Whether a callback is charged to its call does not depend on which equivalent edge is followed. */
  lemma GasOfEquivalent(a: Edge, b: Edge, e: Edge, f: Edge, s: string, t: string)
    requires Equivalent(a, b) && Equivalent(e, f) && Allowed(Some(a), e, s) && Allowed(Some(b), f, t)
    ensures EdgeGas(Some(a), e) == EdgeGas(Some(b), f)
  {
  }

  lemma GasOfFirst(e: Edge, f: Edge)
    requires Equivalent(e, f)
    ensures EdgeGas(None, e) == EdgeGas(None, f)
  {
  }

  lemma KeysUpTo(a: seq<Key>, b: seq<Key>, k: nat, l: nat)
    requires l <= k <= |a| && k <= |b| && a[..k] == b[..k]
    ensures a[..l] == b[..l]
  {
    assert a[..l] == a[..k][..l] && b[..l] == b[..k][..l];
  }

  /** Equal keys so far give equal gas. */
  lemma SameGas(g: Graph, first: NodeGas, p: Path, q: Path, k: nat)
    requires g.WellFormed() && InnerCallsUnique(g) && KeysTellGas(g) && Admissible(g, p) && Admissible(g, q)
    requires IsPath(g, p) && IsPath(g, q) && k <= |p| && k <= |q| && Keys(g, p)[..k] == Keys(g, q)[..k]
    ensures GasOn(g, first, p)[k] == GasOn(g, first, q)[k]
  {
    hide IsPath, Keys, InnerCallsUnique, KeysTellGas, Admissible, EdgeGas, Equivalent, Allowed, GasOn, EdgesOn;
    PathGas(g, first, p, k);
    PathGas(g, first, q, k);
    if k > 0 {
      PathStep(g, p, k - 1);
      PathStep(g, q, k - 1);
      EquivalentStep(g, p, q, k - 1);
      if k == 1 {
        GasOfFirst(EdgeAt(g, p[0]), EdgeAt(g, q[0]));
      } else {
        PathStep(g, p, k - 2);
        PathStep(g, q, k - 2);
        KeysUpTo(Keys(g, p), Keys(g, q), k, k - 1);
        EquivalentStep(g, p, q, k - 2);
        OneCallback.StepAllowed(g, p, k - 1);
        OneCallback.StepAllowed(g, q, k - 1);
        GasOfEquivalent(EdgeAt(g, p[k - 2]), EdgeAt(g, q[k - 2]), EdgeAt(g, p[k - 1]), EdgeAt(g, q[k - 1]),
                        g.calls[EdgeAt(g, p[k - 1]).to].functionName, g.calls[EdgeAt(g, q[k - 1]).to].functionName);
      }
    }
  }

  /** Two complete paths with the same keys so far have equal copies of the node they have reached. */
  lemma SameCopy(g: Graph, first: NodeGas, p: Path, q: Path, k: nat)
    requires g.WellFormed() && InnerCallsUnique(g) && KeysTellGas(g) && LeavesAreTold(g) && !g.IsLeaf(g.start)
    requires Complete(g, p) && Complete(g, q) && IsPath(g, p) && IsPath(g, q) && p != [] && q != []
    requires k <= |p| && k <= |q| && Keys(g, p)[..k] == Keys(g, q)[..k]
    ensures CopyOf(g, first, p).nodes[k] == CopyOf(g, first, q).nodes[k]
  {
    hide IsPath, Keys, InnerCallsUnique, KeysTellGas, LeavesAreTold, Admissible, GasOn;
    SameGas(g, first, p, q, k);
    SameNodeCall(g, p, q, k);
    if k == |p| || k == |q| {
      EndTogether(g, p, q, k);
      KeysUpTo(Keys(g, p), Keys(g, q), k, k - 1);
      SameGas(g, first, p, q, k - 1);
    }
  }

  lemma SameNodeCall(g: Graph, p: Path, q: Path, k: nat)
    requires g.WellFormed() && InnerCallsUnique(g) && KeysTellGas(g) && IsPath(g, p) && IsPath(g, q)
    requires k <= |p| && k <= |q| && Keys(g, p)[..k] == Keys(g, q)[..k]
    ensures g.calls[NodesOn(g, p)[k]] == g.calls[NodesOn(g, q)[k]]
  {
    hide IsPath, Keys, InnerCallsUnique, KeysTellGas, NodesOn;
    if k == 0 {
      FirstOnPath(g, p);
      FirstOnPath(g, q);
    } else {
      EquivalentStep(g, p, q, k - 1);
      StepsOf(g, p, k - 1);
      StepsOf(g, q, k - 1);
    }
  }

  /** A path that ends where another one is ends that one, too. */
  lemma EndTogether(g: Graph, p: Path, q: Path, k: nat)
    requires g.WellFormed() && InnerCallsUnique(g) && KeysTellGas(g) && LeavesAreTold(g) && IsPath(g, p) && IsPath(g, q)
    requires g.IsLeaf(LastNode(g, p)) && g.IsLeaf(LastNode(g, q)) && p != [] && q != []
    requires k <= |p| && k <= |q| && (k == |p| || k == |q|) && Keys(g, p)[..k] == Keys(g, q)[..k]
    ensures k == |p| == |q| && k > 0
  {
    hide IsPath, Keys, InnerCallsUnique, KeysTellGas, LeavesAreTold;
    SameNodeCall(g, p, q, k);
    LastIsTold(g, p);
    LastIsTold(g, q);
    if k < |p| { InnerNode(g, p, k); }
    if k < |q| { InnerNode(g, q, k); }
  }

  /** Every path through a node of the tree carries the node's call and gas. */
  lemma MergeKeepsGas(g: Graph, rank: seq<nat>, first: NodeGas, t: Tree, i: nat, x: nat)
    requires BuiltFrom(g, rank, first, t) && ExecutionShape(g) && KeysTellGas(g) && i < |t|
    requires x < |From(g, rank, [])| && |KeyPath(t, i)| <= |From(g, rank, [])[x]|
    requires IsPath(g, From(g, rank, [])[x]) && Keys(g, From(g, rank, [])[x])[..|KeyPath(t, i)|] == KeyPath(t, i)
    ensures CopyOf(g, first, From(g, rank, [])[x]).nodes[|KeyPath(t, i)|] == t[i].copy
  {
    hide From, CopyOf, Copies, Aged, Followed, IsPath, Keys, Valid, KeyPath, KeysTellGas, InnerCallsUnique, LeavesAreTold;
    hide CallbacksLast, KeysTell, AllFinish, NoFailures, Complete;
    EmptyIsPath(g);
    var s, n := From(g, rank, []), |KeyPath(t, i)|;
    var ps := Copies(g, first, s);
    assert Explained(t, i, ps);
    var m, k :| 0 <= m < |ps| && 0 <= k <= |ps[m].edges| && CopiedFrom(t, i, ps[m], k);
    CopiesLength(g, first, s);
    CopyAt(g, first, s, m);
    CopyIs(g, first, s, m);
    PathsExact(g, rank);
    assert s[m] in s && s[x] in s;
    assert k == n;
    SameCopy(g, first, s[x], s[m], n);
  }

  lemma CopyIs(g: Graph, first: NodeGas, s: seq<Path>, m: nat)
    requires g.WellFormed() && ProperPaths(g, s) && m < |s|
    ensures IsPath(g, s[m]) && s[m] != [] && Copies(g, first, s)[m] == CopyOf(g, first, s[m])
  {
  }

  /** The edge into a node of the tree is, but for its target, equivalent to the one of every path that passes there. */
  lemma IncomingOnPath(g: Graph, rank: seq<nat>, first: NodeGas, t: Tree, i: nat, x: nat) returns (r: EdgeRef)
    requires BuiltFrom(g, rank, first, t) && InnerCallsUnique(g) && KeysTellGas(g) && 0 < i < |t|
    requires x < |From(g, rank, [])| && 0 < |KeyPath(t, i)| <= |From(g, rank, [])[x]|
    requires IsPath(g, From(g, rank, [])[x]) && Keys(g, From(g, rank, [])[x])[..|KeyPath(t, i)|] == KeyPath(t, i)
    ensures ValidRef(g, r) && t[i].incoming == Some(EdgeAt(g, r).(to := i))
    ensures var n := |KeyPath(t, i)|;
            ValidRef(g, From(g, rank, [])[x][n - 1]) && Equivalent(EdgeAt(g, From(g, rank, [])[x][n - 1]), EdgeAt(g, r))
  {
    hide From, CopyOf, Copies, Aged, Followed, IsPath, Keys, Valid, KeyPath, KeysTellGas, InnerCallsUnique;
    EmptyIsPath(g);
    var s, n := From(g, rank, []), |KeyPath(t, i)|;
    var ps := Copies(g, first, s);
    assert Explained(t, i, ps);
    var m, k :| 0 <= m < |ps| && 0 <= k <= |ps[m].edges| && CopiedFrom(t, i, ps[m], k);
    CopiesLength(g, first, s);
    CopyAt(g, first, s, m);
    StepsOf(g, s[m], n - 1);
    EquivalentStep(g, s[x], s[m], n - 1);
    r := s[m][n - 1];
  }

  /**
    The callback of an async call uses what that call's edge sets aside for it, every other call what
    its own edge says. A finish leaf takes over what the call above it uses.
   */
  ghost predicate UsedInTree(t: Tree, i: nat)
    requires Valid(t) && i < |t|
  {
    t[i].incoming.Some? && t[i].parent.Some? && t[i].parent.value < |t| &&
    var e, above := t[i].incoming.value, t[t[i].parent.value];
    t[i].copy.gas.used ==
    if t[i].edges == [] then above.copy.gas.used
    else if above.incoming.Some? && AsyncThenCallback(above.incoming.value.typ, e.typ) then above.incoming.value.gasUsedByCallback
    else e.gasUsed
  }

  lemma UsedIsOfEdge(g: Graph, rank: seq<nat>, first: NodeGas, t: Tree, i: nat)
    requires BuiltFrom(g, rank, first, t) && ExecutionShape(g) && KeysTellGas(g) && 0 < i < |t| && Valid(t)
    ensures UsedInTree(t, i)
  {
    hide From, CopyOf, Copies, Represents, IsPath, Valid, KeyPath, Keys, ProperPaths, PathKeys;
    hide KeysTellGas, InnerCallsUnique, LeavesAreTold, CallbacksLast, KeysTell, AllFinish, NoFailures;
    var p, j := EdgeInto(t, i);
    EmptyIsPath(g);
    var m := CarriedBy(g, rank, first, t, i);
    var s, k := From(g, rank, []), |KeyPath(t, i)|;
    CopiesLength(g, first, s);
    var c := Copies(g, first, s)[m];
    PathOfCopy(g, rank, first, t, i, m);
    RootAlone(t, p);
    if t[i].edges == [] {
      MergeKeepsGas(g, rank, first, t, p, m);
      CopyIs(g, first, s, m);
    } else if p > 0 {
      var r := IncomingOnPath(g, rank, first, t, p, m);
      assert c.edges[k - 2] == EdgeAt(g, s[m][k - 2]);
    }
  }

  /** A path through a node passes the node above it. */
  lemma PathOfCopy(g: Graph, rank: seq<nat>, first: NodeGas, t: Tree, i: nat, m: nat)
    requires BuiltFrom(g, rank, first, t) && 0 < i < |t| && m < |From(g, rank, [])|
    requires |Copies(g, first, From(g, rank, []))| == |From(g, rank, [])| && WellShaped(Copies(g, first, From(g, rank, []))[m])
    requires CopiedFrom(t, i, Copies(g, first, From(g, rank, []))[m], |KeyPath(t, i)|)
    ensures t[i].parent.Some? && t[i].parent.value < |t| && IsPath(g, From(g, rank, [])[m])
    ensures var s, n := From(g, rank, [])[m], |KeyPath(t, t[i].parent.value)|;
            && |KeyPath(t, i)| == n + 1 && n < |s| && Keys(g, s)[..n] == KeyPath(t, t[i].parent.value)
            && Copies(g, first, From(g, rank, []))[m].edges == EdgesOn(g, s)
            && (n > 0 ==> ValidRef(g, s[n - 1]) && EdgesOn(g, s)[n - 1] == EdgeAt(g, s[n - 1]))
  {
    hide From, CopyOf, Copies, Represents, IsPath, Keys, ProperPaths, Valid;
    EmptyIsPath(g);
    KeyPathGrows(t, i);
    CopyAt(g, first, From(g, rank, []), m);
    var s, n := From(g, rank, [])[m], |KeyPath(t, i)|;
    assert KeyPath(t, i)[..n - 1] == KeyPath(t, t[i].parent.value);
    assert Keys(g, s)[..n - 1] == Keys(g, s)[..n][..n - 1];
    if n > 1 { StepsOf(g, s, n - 2); }
  }

  // ----- Built graphs -----

  lemma BuiltEquivalent(g: Graph, order: seq<nat>, e: Graph, v: nat, x: Edge, y: Edge)
    requires IsExecutionOf(g, order, e) && e.WellFormed() && Callable(g) && Numbered(g) && DistinctNumbers(g)
    requires v < |g.calls| && v < |e.adjacent| && x in e.adjacent[v] && y in e.adjacent[v]
    requires x.id == y.id && x.caption == y.caption
    ensures Equivalent(x, y)
  {
    hide IsExecutionOf, CallbacksPresent, Numbered, DistinctNumbers;
    BuiltGraph.EdgeKey(g, order, e, v, x);
    BuiltGraph.EdgeKey(g, order, e, v, y);
    if IsBack(x) {
      var u, i := GivenCall(g, order, e, v, x);
      var w, j := GivenCall(g, order, e, v, y);
    } else {
      CallsAlike(g, order, e, v, x, y);
    }
  }

  /** Execution graphs of call graphs with distinct edge numbers keep gas when their paths are merged. */
  lemma BuiltKeysTellGas(g: Graph, order: seq<nat>, e: Graph)
    requires IsExecutionOf(g, order, e) && e.WellFormed() && Callable(g) && Numbered(g) && DistinctNumbers(g)
    ensures KeysTellGas(e)
  {
    hide IsExecutionOf, CallbacksPresent, Numbered, DistinctNumbers, Equivalent, Copy;
    BuiltParts(g, order, e);
    forall v, i, j | 0 <= v < |e.adjacent| && 0 <= i < |e.adjacent[v]| && 0 <= j < |e.adjacent[v]|
      ensures EqualIfKeyed(e, e.adjacent[v][i], e.adjacent[v][j])
    {
      var x, y := e.adjacent[v][i], e.adjacent[v][j];
      if x.id == y.id && x.caption == y.caption {
        BuiltEquivalent(g, order, e, v, x, y);
      }
    }
  }

  // ----- The gas of the call graph -----

  /** A node of the tree is a call that the given edge of the call graph makes, with the gas of that edge. */
  predicate MakesWithGas(g: Graph, c: Edge, n: TreeNode)
    requires c.to < |g.calls|
  {
    && n.incoming.Some? && n.incoming.value == c.(to := n.incoming.value.to)
    && n.copy.call == g.calls[c.to]
    && n.copy.gas.limit == c.gasLimit && n.copy.gas.used == c.gasUsed && n.copy.gas.locked == c.gasLocked
  }

  ghost predicate MadeWithGas(g: Graph, n: TreeNode)
    requires g.WellFormed()
  {
    exists u, i :: 0 <= u < |g.adjacent| && 0 <= i < |g.adjacent[u]| && MakesWithGas(g, g.adjacent[u][i], n)
  }

  /**
    The callback that answers an async call uses the gas that the call's edge in the call graph sets
    aside for it, and comes with no gas of its own.
   */
  ghost predicate AnsweredWithGas(g: Graph, async: TreeNode, back: TreeNode)
    requires g.WellFormed()
  {
    && back.copy.gas.limit == 0 && back.copy.gas.locked == 0
    && exists u, i :: 0 <= u < |g.adjacent| && 0 <= i < |g.adjacent[u]| && MakesWithGas(g, g.adjacent[u][i], async)
                      && back.copy.gas.used == g.adjacent[u][i].gasUsedByCallback
  }

  /** Every call of the tree is made by an edge of the call graph, with that edge's gas. */
  ghost predicate CallsKeepGas(g: Graph, t: Tree)
    requires g.WellFormed()
  {
    forall i :: 0 < i < |t| && t[i].edges != [] && !OverCallback(t, i) ==> MadeWithGas(g, t[i])
  }

  ghost predicate CallbacksKeepGas(g: Graph, t: Tree)
    requires g.WellFormed() && Valid(t)
  {
    forall i :: 0 < i < |t| && t[i].edges != [] && AnswersAbove(t, i) ==> AnsweredWithGas(g, t[t[i].parent.value], t[i])
  }

  /** The node is the callback of the async call above it. */
  predicate AnswersAbove(t: Tree, i: nat)
    requires Valid(t) && i < |t|
  {
    && t[i].incoming.Some? && t[i].parent.Some? && t[i].parent.value < |t| && t[t[i].parent.value].incoming.Some?
    && AsyncThenCallback(t[t[i].parent.value].incoming.value.typ, t[i].incoming.value.typ)
  }

  /** The edge into a node of the tree, in the graph whose paths were merged. */
  lemma IncomingOrigin(g: Graph, rank: seq<nat>, first: NodeGas, t: Tree, i: nat) returns (r: EdgeRef)
    requires BuiltFrom(g, rank, first, t) && 0 < i < |t|
    ensures ValidRef(g, r) && t[i].incoming == Some(EdgeAt(g, r).(to := i)) && t[i].copy.call == g.calls[EdgeAt(g, r).to]
  {
    hide From, CopyOf, Copies, Aged, Followed, IsPath, Keys, Valid, KeyPath;
    EmptyIsPath(g);
    var s := From(g, rank, []);
    var ps := Copies(g, first, s);
    assert Explained(t, i, ps);
    var m, k :| 0 <= m < |ps| && 0 <= k <= |ps[m].edges| && CopiedFrom(t, i, ps[m], k);
    CopiesLength(g, first, s);
    CopyAt(g, first, s, m);
    CopyIs(g, first, s, m);
    KeyPathGrows(t, i);
    StepsOf(g, s[m], k - 1);
    CopyShows(g, first, s[m]);
    r := s[m][k - 1];
  }

  lemma CallKeepsGas(g: Graph, order: seq<nat>, e: Graph, rank: seq<nat>, first: NodeGas, t: Tree, i: nat)
    requires IsExecutionOf(g, order, e) && Callable(g) && BuiltFrom(e, rank, first, t) && Valid(t)
    requires e.WellFormed() && ExecutionShape(e) && 0 < i < |t| && t[i].edges != [] && !OverCallback(t, i)
    ensures MadeWithGas(g, t[i])
  {
    hide IsExecutionOf, BuiltFrom, ExecutionShape, CallbacksPresent, Valid, Copy;
    var r := IncomingOrigin(e, rank, first, t, i);
    StartIsInner(e);
    LeavesTold(e);
    GasFromEdge(e, rank, first, t, i);
    var v, x := r.from, EdgeAt(e, r);
    BuiltParts(g, order, e);
    InnerStands(g, order, e, v);
    var u, j := MadeCall(g, order, e, v, x);
    if x.to >= |g.calls| {
      LeafInTree(e, rank, first, t, i, r);
    } else {
      assert e.calls[x.to] == g.calls[x.to] == g.calls[g.adjacent[u][j].to];
      assert MakesWithGas(g, g.adjacent[u][j], t[i]);
    }
  }

  lemma LeavesTold(g: Graph)
    requires g.WellFormed() && ExecutionShape(g)
    ensures LeavesAreTold(g)
  {
  }

  /** Where an edge leads to a leaf, the tree ends. */
  lemma LeafInTree(g: Graph, rank: seq<nat>, first: NodeGas, t: Tree, i: nat, r: EdgeRef)
    requires BuiltFrom(g, rank, first, t) && ExecutionShape(g) && 0 < i < |t| && ValidRef(g, r) && Valid(t)
    requires t[i].copy.call == g.calls[EdgeAt(g, r).to] && g.IsLeaf(EdgeAt(g, r).to)
    ensures t[i].edges == []
  {
    hide From, CopyOf, Copies, Represents, IsPath, Valid, KeyPath, Keys, ProperPaths, PathKeys, EdgesOn, CarriesGas;
    hide InnerCallsUnique, CallbacksLast, KeysTell, AllFinish, NoFailures;
    EmptyIsPath(g);
    var m := CarriedBy(g, rank, first, t, i);
    var s, k := From(g, rank, []), |KeyPath(t, i)|;
    CopyIsShown(g, first, s, m);
    assert LeafIsTold(g, EdgeAt(g, r).to);
  }

  lemma CopyIsShown(g: Graph, first: NodeGas, s: seq<Path>, m: nat)
    requires g.WellFormed() && ProperPaths(g, s) && m < |Copies(g, first, s)|
    ensures m < |s| && Shows(g, s[m], Copies(g, first, s)[m])
  {
    hide CopyOf, Shows;
    CopyShows(g, first, s[m]);
  }

  lemma CallbackKeepsGas(g: Graph, order: seq<nat>, e: Graph, rank: seq<nat>, first: NodeGas, t: Tree, i: nat)
    requires IsExecutionOf(g, order, e) && Callable(g) && BuiltFrom(e, rank, first, t) && Valid(t)
    requires e.WellFormed() && ExecutionShape(e) && KeysTellGas(e) && 0 < i < |t| && t[i].edges != [] && AnswersAbove(t, i)
    ensures AnsweredWithGas(g, t[t[i].parent.value], t[i])
  {
    hide IsExecutionOf, BuiltFrom, ExecutionShape, CallbacksPresent, Valid, Copy, KeysTellGas;
    var p, j := EdgeInto(t, i);
    RootAlone(t, p);
    UsedIsOfEdge(e, rank, first, t, i);
    StartIsInner(e);
    LeavesTold(e);
    GasFromEdge(e, rank, first, t, i);
    var r := IncomingOrigin(e, rank, first, t, i);
    BuiltParts(g, order, e);
    InnerStands(g, order, e, r.from);
    var w, y := GivenCall(g, order, e, r.from, EdgeAt(e, r));
    CallKeepsGas(g, order, e, rank, first, t, p);
    var u, x :| 0 <= u < |g.adjacent| && 0 <= x < |g.adjacent[u]| && MakesWithGas(g, g.adjacent[u][x], t[p]);
    assert t[i].copy.gas.used == g.adjacent[u][x].gasUsedByCallback;
  }

  /** The whole tree of a call graph's execution. */
  lemma TreeKeepsGas(g: Graph, order: seq<nat>, e: Graph, rank: seq<nat>, first: NodeGas, t: Tree)
    requires IsExecutionOf(g, order, e) && Callable(g) && BuiltFrom(e, rank, first, t) && Valid(t)
    requires e.WellFormed() && ExecutionShape(e)
    ensures CallsKeepGas(g, t)
    ensures KeysTellGas(e) ==> CallbacksKeepGas(g, t) && forall i :: 0 < i < |t| ==> UsedInTree(t, i)
  {
    hide IsExecutionOf, BuiltFrom, ExecutionShape, CallbacksPresent, Valid, KeysTellGas, CallsKeepGas, CallbacksKeepGas, UsedInTree;
    AllCallsKeepGas(g, order, e, rank, first, t);
    if KeysTellGas(e) {
      AllCallbacksKeepGas(g, order, e, rank, first, t);
      forall i | 0 < i < |t| ensures UsedInTree(t, i) {
        UsedIsOfEdge(e, rank, first, t, i);
      }
    }
  }

  lemma AllCallsKeepGas(g: Graph, order: seq<nat>, e: Graph, rank: seq<nat>, first: NodeGas, t: Tree)
    requires IsExecutionOf(g, order, e) && Callable(g) && BuiltFrom(e, rank, first, t) && Valid(t)
    requires e.WellFormed() && ExecutionShape(e)
    ensures CallsKeepGas(g, t)
  {
    hide IsExecutionOf, BuiltFrom, ExecutionShape, CallbacksPresent, Valid, MadeWithGas, OverCallback;
    forall i | 0 < i < |t| && t[i].edges != [] && !OverCallback(t, i) ensures MadeWithGas(g, t[i]) {
      CallKeepsGas(g, order, e, rank, first, t, i);
    }
  }

  lemma AllCallbacksKeepGas(g: Graph, order: seq<nat>, e: Graph, rank: seq<nat>, first: NodeGas, t: Tree)
    requires IsExecutionOf(g, order, e) && Callable(g) && BuiltFrom(e, rank, first, t) && Valid(t)
    requires e.WellFormed() && ExecutionShape(e) && KeysTellGas(e)
    ensures CallbacksKeepGas(g, t)
  {
    hide IsExecutionOf, BuiltFrom, ExecutionShape, CallbacksPresent, Valid, AnsweredWithGas, KeysTellGas;
    forall i | 0 < i < |t| && t[i].edges != [] && AnswersAbove(t, i) ensures AnsweredWithGas(g, t[t[i].parent.value], t[i]) {
      CallbackKeepsGas(g, order, e, rank, first, t, i);
    }
  }
}
