/**
  When a call of the tree has at most one callback: if no path may go on, after an async call, over
  callbacks to different nodes.
 */
module OneCallback {
  import opened Options
  import opened CallGraph
  import opened Paths
  import opened CallTree
  import opened TreeShape
  import opened Pipeline
  import Gas

  /** Calls with the same key, made by one node, are of one type and name one callback. */
  predicate KeysTellCalls(g: Graph)
    requires g.WellFormed()
  {
    forall u, i, j :: 0 <= u < |g.adjacent| && 0 <= i < |g.adjacent[u]| && 0 <= j < |g.adjacent[u]| ==>
      AlikeIfKeyed(g, g.adjacent[u][i], g.adjacent[u][j])
  }

  predicate AlikeIfKeyed(g: Graph, a: Edge, b: Edge)
    requires a.to < |g.calls| && b.to < |g.calls|
  {
    !a.typ.IsCallback() && !b.typ.IsCallback() && KeyOf(g, a) == KeyOf(g, b) ==> a.typ == b.typ && a.callback == b.callback
  }

  /** `f` is a callback that a path may follow after the call `a`. */
  predicate Answers(g: Graph, a: Edge, f: Edge)
    requires f.to < |g.calls|
  {
    f.typ.IsCallback() && Allowed(Some(a), f, g.calls[f.to].functionName)
  }

  predicate PlainRef(g: Graph, r: EdgeRef)
    requires g.WellFormed()
  {
    ValidRef(g, r) && !EdgeAt(g, r).typ.IsCallback()
  }

  /** A path without callbacks. The filter lets all of them pass. */
  ghost predicate Plain(g: Graph, p: Path)
    requires g.WellFormed()
  {
    IsPath(g, p) && forall k :: 0 <= k < |p| ==> PlainRef(g, p[k])
  }

  /** The call `a` may be followed by callbacks `f` and `h` with different keys. */
  predicate AnsweredTwice(g: Graph, a: Edge, f: Edge, h: Edge)
    requires f.to < |g.calls| && h.to < |g.calls|
  {
    Answers(g, a, f) && Answers(g, a, h) && KeyOf(g, f) != KeyOf(g, h)
  }

  /** The start may be followed by a callback, or the last call by two. */
  ghost predicate Overanswered(g: Graph, p: Path)
    requires g.WellFormed() && IsPath(g, p)
  {
    var row := g.adjacent[LastNode(g, p)];
    if p == [] then exists j :: 0 <= j < |row| && row[j].typ.IsCallback()
    else exists j, k :: 0 <= j < |row| && 0 <= k < |row| && AnsweredTwice(g, LastEdge(g, p).value, row[j], row[k])
  }

  /** No path without callbacks reaches a call with more callbacks than it pays for. */
  ghost predicate AllPaid(g: Graph)
    requires g.WellFormed()
  {
    forall p: Path :: Plain(g, p) ==> !Overanswered(g, p)
  }

  ghost predicate Disciplined(g: Graph)
    requires g.WellFormed()
  {
    KeysTellCalls(g) && AllPaid(g) && InnerCallsUnique(g) && KeysTell(g)
  }

  // ----- Along a path -----

  /** Consecutive edges of an admissible path pass the filter. */
  lemma StepAllowed(g: Graph, p: Path, n: nat)
    requires g.WellFormed() && Admissible(g, p) && 0 < n < |p|
    ensures ValidRef(g, p[n - 1]) && ValidRef(g, p[n]) && EdgeAt(g, p[n - 1]).to == p[n].from
    ensures Allowed(Some(EdgeAt(g, p[n - 1])), EdgeAt(g, p[n]), g.calls[EdgeAt(g, p[n]).to].functionName)
  {
    PrefixAdmissible(g, p, n + 1);
    var q := p[..n + 1];
    assert q[..n] == p[..n] && q[n] == p[n] && p[..n][n - 1] == p[n - 1];
  }

  /** Two paths with the same keys so far made the same call before they go on. */
  lemma SameCall(g: Graph, p: Path, q: Path, n: nat)
    requires g.WellFormed() && Disciplined(g) && IsPath(g, p) && IsPath(g, q) && n < |p| && n < |q|
    requires Keys(g, p)[..n + 1] == Keys(g, q)[..n + 1]
    ensures ValidRef(g, p[n]) && ValidRef(g, q[n]) && p[n].from == q[n].from
    ensures var a, b := EdgeAt(g, p[n]), EdgeAt(g, q[n]);
            && (a.typ.IsCallback() <==> b.typ.IsCallback())
            && (!a.typ.IsCallback() ==> a.typ == b.typ && a.callback == b.callback)
  {
    hide IsPath, Keys, InnerCallsUnique, AllPaid;
    assert Keys(g, p)[..n] == Keys(g, p)[..n + 1][..n] == Keys(g, q)[..n + 1][..n] == Keys(g, q)[..n];
    assert Keys(g, p)[n] == Keys(g, p)[..n + 1][n] == Keys(g, q)[..n + 1][n] == Keys(g, q)[n];
    SameNode(g, p, q, n);
    StepsOf(g, p, n);
    StepsOf(g, q, n);
    assert AlikeIfKeyed(g, g.adjacent[p[n].from][p[n].index], g.adjacent[p[n].from][q[n].index]);
  }

  ghost predicate PlainUpTo(g: Graph, p: Path, n: nat)
    requires g.WellFormed() && n <= |p|
  {
    forall k :: 0 <= k < n ==> PlainRef(g, p[k])
  }

  /** Whether a path has met a callback shows in its keys. */
  lemma PlainByKeys(g: Graph, p: Path, q: Path, n: nat)
    requires g.WellFormed() && Disciplined(g) && IsPath(g, p) && IsPath(g, q) && n <= |p| && n <= |q|
    requires Keys(g, p)[..n] == Keys(g, q)[..n] && PlainUpTo(g, p, n)
    ensures PlainUpTo(g, q, n)
  {
    hide IsPath, Keys, Disciplined;
    forall k | 0 <= k < n ensures PlainRef(g, q[k]) {
      assert Keys(g, p)[..k + 1] == Keys(g, p)[..n][..k + 1] == Keys(g, q)[..n][..k + 1] == Keys(g, q)[..k + 1];
      SameCall(g, p, q, k);
    }
  }

  /** Two paths that made the same call and go on over callbacks go on over the same key. */
  lemma SameAnswer(g: Graph, p: Path, q: Path, n: nat)
    requires g.WellFormed() && Disciplined(g) && Admissible(g, p) && Admissible(g, q) && 0 < n < |p| && n < |q|
    requires IsPath(g, p) && IsPath(g, q) && Keys(g, p)[..n] == Keys(g, q)[..n] && PlainUpTo(g, p, n)
    requires ValidRef(g, p[n]) && EdgeAt(g, p[n]).typ.IsCallback() && ValidRef(g, q[n]) && EdgeAt(g, q[n]).typ.IsCallback()
    ensures Keys(g, p)[..n + 1] == Keys(g, q)[..n + 1]
  {
    hide Admissible, IsPath, Keys, Disciplined, Allowed, NodesOn, EdgesOn, KeyOf;
    assert PlainRef(g, p[n - 1]);
    SameCall(g, p, q, n - 1);
    Inner(g);
    SameNode(g, p, q, n);
    StepAllowed(g, p, n);
    StepAllowed(g, q, n);
    var a, b, f := EdgeAt(g, p[n - 1]), EdgeAt(g, q[n - 1]), EdgeAt(g, q[n]);
    AllowedAlike(a, b, f, g.calls[f.to].functionName);
    AnswersOfOne(g, p, n, q[n].index);
    StepsOf(g, p, n);
    StepsOf(g, q, n);
    OneKeyMore(Keys(g, p), Keys(g, q), n);
  }

  lemma OneKeyMore(a: seq<Key>, b: seq<Key>, n: nat)
    requires n < |a| && n < |b| && a[..n] == b[..n] && a[n] == b[n]
    ensures a[..n + 1] == b[..n + 1]
  {
    assert a[..n + 1] == a[..n] + [a[n]] && b[..n + 1] == b[..n] + [b[n]];
  }

  lemma Inner(g: Graph)
    requires g.WellFormed() && Disciplined(g)
    ensures InnerCallsUnique(g)
  {
  }

  lemma AllowedAlike(a: Edge, b: Edge, f: Edge, target: string)
    requires a.typ == b.typ && a.callback == b.callback && Allowed(Some(b), f, target)
    ensures Allowed(Some(a), f, target)
  {
  }

  /** Callbacks that may follow the same call, reached without callbacks, have one key. */
  lemma AnswersOfOne(g: Graph, p: Path, n: nat, k: nat)
    requires g.WellFormed() && Disciplined(g) && IsPath(g, p) && 0 < n < |p| && PlainUpTo(g, p, n)
    requires ValidRef(g, p[n - 1]) && ValidRef(g, p[n]) && EdgeAt(g, p[n - 1]).to == p[n].from && k < |g.adjacent[p[n].from]|
    requires Answers(g, EdgeAt(g, p[n - 1]), EdgeAt(g, p[n]))
    requires Answers(g, EdgeAt(g, p[n - 1]), g.adjacent[p[n].from][k])
    ensures KeyOf(g, EdgeAt(g, p[n])) == KeyOf(g, g.adjacent[p[n].from][k])
  {
    hide KeysTellCalls, InnerCallsUnique, KeysTell, Answers, Keys, IsPath;
    PrefixIsPath(g, p, n);
    var r := p[..n];
    assert r[n - 1] == p[n - 1];
    assert Plain(g, r);
    LastOf(g, r);
    assert !Overanswered(g, r);
    assert g.adjacent[p[n].from][p[n].index] == EdgeAt(g, p[n]);
    assert !AnsweredTwice(g, EdgeAt(g, p[n - 1]), g.adjacent[p[n].from][p[n].index], g.adjacent[p[n].from][k]);
  }

  lemma LastOf(g: Graph, p: Path)
    requires g.WellFormed() && IsPath(g, p) && p != []
    ensures ValidRef(g, p[|p| - 1]) && LastNode(g, p) == EdgeAt(g, p[|p| - 1]).to && LastEdge(g, p) == Some(EdgeAt(g, p[|p| - 1]))
  {
  }

  // ----- In the tree -----

  /** A path through a child of node `i`, ready for comparison. */
  lemma PassingPath(g: Graph, rank: seq<nat>, first: NodeGas, t: Tree, i: nat, j: nat) returns (p: Path)
    requires BuiltFrom(g, rank, first, t) && i < |t| && j < |t[i].edges|
    ensures var n := |KeyPath(t, i)|;
            && Admissible(g, p) && IsPath(g, p) && n < |p| && Keys(g, p)[..n + 1] == ChildPath(t, i, j)
            && Keys(g, p)[..n] == KeyPath(t, i)
            && ValidRef(g, p[n]) && EdgeAt(g, p[n]).typ == t[i].edges[j].typ
  {
    hide From, Represents, Copies, Valid, KeyPath, ChildPath, Keys, Admissible, Complete;
    EmptyIsPath(g);
    var x := EdgeOrigin(g, rank, first, t, i, j);
    p := From(g, rank, [])[x];
    PathsExact(g, rank);
    ChildPathLength(t, i, j);
    EnumeratedIsAdmissible(g, rank, p);
    assert Keys(g, p)[..|KeyPath(t, i)|] == Keys(g, p)[..|KeyPath(t, i)| + 1][..|KeyPath(t, i)|];
  }

  lemma EnumeratedIsAdmissible(g: Graph, rank: seq<nat>, p: Path)
    requires g.WellFormed() && g.RankedBy(rank) && IsPath(g, []) && p in From(g, rank, [])
    ensures Admissible(g, p) && IsPath(g, p)
  {
    hide From;
    PathsExact(g, rank);
  }

  /** A path that leads to node `i` without callbacks. */
  ghost predicate Approaches(g: Graph, t: Tree, i: nat, z: Path)
    requires g.WellFormed() && Valid(t) && i < |t|
  {
    var n := |KeyPath(t, i)|;
    IsPath(g, z) && n <= |z| && Keys(g, z)[..n] == KeyPath(t, i) && PlainUpTo(g, z, n)
  }

  /** Going on over an edge that is no callback approaches the child. */
  lemma ApproachChild(g: Graph, rank: seq<nat>, first: NodeGas, t: Tree, i: nat, j: nat, z: Path) returns (p: Path)
    requires BuiltFrom(g, rank, first, t) && Disciplined(g) && i < |t| && j < |t[i].edges| && t[i].edges[j].to < |t|
    requires Approaches(g, t, i, z) && !t[i].edges[j].typ.IsCallback()
    ensures var n := |KeyPath(t, i)|;
            && Approaches(g, t, t[i].edges[j].to, p) && |KeyPath(t, t[i].edges[j].to)| == n + 1
            && n < |p| && ValidRef(g, p[n]) && EdgeAt(g, p[n]).typ == t[i].edges[j].typ
  {
    hide From, Represents, Copies, Valid, KeyPath, ChildPath, Keys, Admissible, IsPath, Disciplined;
    p := PassingPath(g, rank, first, t, i, j);
    ChildKeys(t, i, j);
    ChildPathLength(t, i, j);
    PlainByKeys(g, z, p, |KeyPath(t, i)|);
  }

  /** A child of a call that is reached without callbacks, and the path to it. */
  lemma PassingChild(g: Graph, rank: seq<nat>, first: NodeGas, t: Tree, c: nat, a: nat, z: Path) returns (p: Path)
    requires BuiltFrom(g, rank, first, t) && Disciplined(g) && c < |t| && a < |t[c].edges| && Approaches(g, t, c, z)
    ensures var n := |KeyPath(t, c)|;
            && Admissible(g, p) && IsPath(g, p) && n < |p| && Keys(g, p)[..n + 1] == ChildPath(t, c, a)
            && Keys(g, p)[..n] == KeyPath(t, c) && PlainUpTo(g, p, n)
            && ValidRef(g, p[n]) && EdgeAt(g, p[n]).typ == t[c].edges[a].typ
  {
    hide From, Represents, Copies, Valid, KeyPath, ChildPath, Keys, Admissible, IsPath, Disciplined, BuiltFrom;
    TreeIsValid(g, rank, first, t);
    p := PassingPath(g, rank, first, t, c, a);
    PlainByKeys(g, z, p, |KeyPath(t, c)|);
  }

  /** Of a call that is reached without callbacks no two children are callbacks. */
  lemma TreeOneCallback(g: Graph, rank: seq<nat>, first: NodeGas, t: Tree, c: nat, a: nat, b: nat, z: Path)
    requires BuiltFrom(g, rank, first, t) && Disciplined(g) && 0 < c < |t| && Approaches(g, t, c, z)
    requires a < |t[c].edges| && b < |t[c].edges| && t[c].edges[a].typ.IsCallback() && t[c].edges[b].typ.IsCallback()
    ensures a == b
  {
    hide From, Represents, Copies, Valid, KeyPath, ChildPath, Keys, Admissible, IsPath, Disciplined;
    var p := PassingChild(g, rank, first, t, c, a, z);
    var q := PassingChild(g, rank, first, t, c, b, z);
    InnerHasKeys(t, c);
    SameAnswer(g, p, q, |KeyPath(t, c)|);
    if a != b {
      SiblingKeys(t, c, a, b);
    }
  }

  lemma InnerHasKeys(t: Tree, c: nat)
    requires Valid(t) && 0 < c < |t|
    ensures |KeyPath(t, c)| > 0
  {
  }

  /** A sync call has no callbacks. */
  lemma SyncUnanswered(g: Graph, rank: seq<nat>, first: NodeGas, t: Tree, c: nat, a: nat, z: Path)
    requires BuiltFrom(g, rank, first, t) && Disciplined(g) && 0 < c < |t| && a < |t[c].edges| && Approaches(g, t, c, z)
    requires var n := |KeyPath(t, c)|; n > 0 && ValidRef(g, z[n - 1]) && EdgeAt(g, z[n - 1]).typ == Sync
    ensures !t[c].edges[a].typ.IsCallback()
  {
    hide From, Represents, Copies, Valid, KeyPath, ChildPath, Keys, Admissible, IsPath, Disciplined;
    var n := |KeyPath(t, c)|;
    var p := PassingChild(g, rank, first, t, c, a, z);
    SameCall(g, z, p, n - 1);
    StepAllowed(g, p, n);
  }

  /** The start has no callbacks. */
  lemma RootUnanswered(g: Graph, rank: seq<nat>, first: NodeGas, t: Tree, a: nat)
    requires BuiltFrom(g, rank, first, t) && Disciplined(g) && 0 < |t| && a < |t[0].edges|
    ensures !t[0].edges[a].typ.IsCallback()
  {
    hide From, Represents, Copies, Valid, ChildPath, Keys, Admissible, KeysTellCalls, InnerCallsUnique, KeysTell;
    RootKeys(t);
    var p := PassingPath(g, rank, first, t, 0, a);
    StepsOf(g, p, 0);
    FirstOnPath(g, p);
    assert Plain(g, []);
    assert !Overanswered(g, []);
    assert LastNode(g, []) == g.start == p[0].from && EdgeAt(g, p[0]) == g.adjacent[g.start][p[0].index];
    assert !g.adjacent[g.start][p[0].index].typ.IsCallback();
  }

  // ----- In the view of the accountant -----

  lemma {:induction false} CountedOnce(n: CallNode, k: nat)
    requires k <= |n.edges|
    requires forall a, b :: 0 <= a < |n.edges| && 0 <= b < |n.edges| ==>
      (n.edges[a].typ.IsCallback() && n.edges[b].typ.IsCallback() ==> a == b)
    ensures Gas.CallbackCount(n, k) <= 1
    decreases k
  {
    if k > 0 {
      CountedOnce(n, k - 1);
    }
  }

  /** The subtree of a call that is reached without callbacks leaves nothing unpaid. */
  lemma {:induction false} ViewAtMostOne(g: Graph, rank: seq<nat>, first: NodeGas, t: Tree, c: nat, typ: EdgeType, z: Path)
    requires BuiltFrom(g, rank, first, t) && Disciplined(g) && 0 < c < |t| && Approaches(g, t, c, z) && !typ.IsCallback()
    requires var n := |KeyPath(t, c)|; n > 0 && ValidRef(g, z[n - 1]) && EdgeAt(g, z[n - 1]).typ == typ
    ensures Gas.AtMostOne(View(t, c), typ)
    decreases |t| - c
  {
    hide BuiltFrom, Disciplined, Valid, View, Gas.CallbackCount, Approaches, KeyPath;
    TreeIsValid(g, rank, first, t);
    var n := View(t, c);
    ViewRoot(t, c);
    forall a | 0 <= a < |n.edges| ensures n.edges[a].typ == t[c].edges[a].typ { ViewAt(t, c, a); }
    forall a, b | 0 <= a < |n.edges| && 0 <= b < |n.edges| && n.edges[a].typ.IsCallback() && n.edges[b].typ.IsCallback()
      ensures a == b
    {
      TreeOneCallback(g, rank, first, t, c, a, b, z);
    }
    forall a | typ == Sync && 0 <= a < |n.edges| ensures !n.edges[a].typ.IsCallback() {
      SyncUnanswered(g, rank, first, t, c, a, z);
    }
    CountedOnce(n, |n.edges|);
    forall k | 0 <= k < |n.edges| && Gas.Counted(n, k) ensures Gas.AtMostOne(n.edges[k].child, n.edges[k].typ) {
      ViewAt(t, c, k);
      var p := ApproachChild(g, rank, first, t, c, k, z);
      ViewAtMostOne(g, rank, first, t, t[c].edges[k].to, t[c].edges[k].typ, p);
    }
  }

  lemma TreeIsValid(g: Graph, rank: seq<nat>, first: NodeGas, t: Tree)
    requires BuiltFrom(g, rank, first, t)
    ensures g.WellFormed() && Valid(t)
  {
  }

  lemma ApproachRoot(g: Graph, t: Tree)
    requires g.WellFormed() && Valid(t)
    ensures Approaches(g, t, 0, [])
  {
    RootKeys(t);
  }

  /** In the tree of a disciplined execution graph every callback is paid for. */
  lemma TreeAtMostOne(g: Graph, rank: seq<nat>, first: NodeGas, t: Tree)
    requires BuiltFrom(g, rank, first, t) && Disciplined(g) && |t| > 0
    ensures Valid(t) && Gas.AtMostOne(View(t, 0), Sync)
  {
    hide BuiltFrom, Disciplined, Valid, View, Gas.CallbackCount, Approaches, KeyPath;
    TreeIsValid(g, rank, first, t);
    var n := View(t, 0);
    ViewRoot(t, 0);
    forall a | 0 <= a < |n.edges| ensures !n.edges[a].typ.IsCallback() {
      ViewAt(t, 0, a);
      RootUnanswered(g, rank, first, t, a);
    }
    forall k | 0 <= k < |n.edges| && Gas.Counted(n, k) ensures Gas.AtMostOne(n.edges[k].child, n.edges[k].typ) {
      ViewAt(t, 0, k);
      ApproachRoot(g, t);
      var p := ApproachChild(g, rank, first, t, 0, k, []);
      ViewAtMostOne(g, rank, first, t, t[0].edges[k].to, t[0].edges[k].typ, p);
    }
  }

  // ----- The converse -----

  /** Whether a path goes on over a callback shows in its keys. */
  lemma CallbackByKey(g: Graph, p: Path, q: Path, n: nat)
    requires g.WellFormed() && InnerCallsUnique(g) && KeysTell(g) && IsPath(g, p) && IsPath(g, q) && n < |p| && n < |q|
    requires Keys(g, p)[..n + 1] == Keys(g, q)[..n + 1]
    ensures ValidRef(g, p[n]) && ValidRef(g, q[n])
    ensures EdgeAt(g, p[n]).typ.IsCallback() <==> EdgeAt(g, q[n]).typ.IsCallback()
  {
    hide IsPath, Keys, InnerCallsUnique;
    assert Keys(g, p)[..n] == Keys(g, p)[..n + 1][..n] == Keys(g, q)[..n + 1][..n] == Keys(g, q)[..n];
    assert Keys(g, p)[n] == Keys(g, p)[..n + 1][n] == Keys(g, q)[..n + 1][n] == Keys(g, q)[n];
    SameNode(g, p, q, n);
    StepsOf(g, p, n);
    StepsOf(g, q, n);
    assert KeyOf(g, g.adjacent[p[n].from][p[n].index]) == KeyOf(g, g.adjacent[p[n].from][q[n].index]);
  }

  /** Every admissible path leads somewhere in the tree. */
  lemma InTree(g: Graph, rank: seq<nat>, first: NodeGas, t: Tree, p: Path)
    requires BuiltFrom(g, rank, first, t) && ExecutionShape(g) && Admissible(g, p) && IsPath(g, p)
    ensures HasKeyPath(t, Keys(g, p))
  {
    hide From, Represents, Copies, Valid, KeyPath, CallbacksLast, InnerCallsUnique, KeysTell, LeavesAreTold, AllFinish, NoFailures;
    EmptyIsPath(g);
    PathsExact(g, rank);
    var w := p;
    if !g.IsLeaf(LastNode(g, p)) {
      var f := FinishIndex(g, LastNode(g, p));
      w := Extend(g, p, f);
      ExtendAdmissible(g, p, f);
      assert w[..|p|] == p;
    }
    PrefixIsPath(g, w, |p|);
    assert w[..|p|] == p;
    assert Complete(g, w);
    EnumeratedInTree(g, rank, first, t, w, |p|);
  }

  lemma EnumeratedInTree(g: Graph, rank: seq<nat>, first: NodeGas, t: Tree, w: Path, n: nat)
    requires BuiltFrom(g, rank, first, t) && !g.IsLeaf(g.start) && IsPath(g, []) && w in From(g, rank, []) && IsPath(g, w) && n <= |w|
    ensures HasKeyPath(t, Keys(g, w)[..n])
  {
    hide From, Copies, Valid, KeyPath, Keys, Represents, HasKeyPath;
    var s := From(g, rank, []);
    var ps := Copies(g, first, s);
    var z :| 0 <= z < |s| && s[z] == w;
    CopiesLength(g, first, s);
    CopyAt(g, first, s, z);
    EnumeratedPathsFit(g, rank, first);
    TreeIsPrefixClosure(t, ps, Keys(g, w)[..n]);
  }

  /** The edge of the tree over which an admissible path leaves a node. */
  lemma TreeEdge(g: Graph, rank: seq<nat>, first: NodeGas, t: Tree, i: nat, q: Path) returns (a: nat)
    requires BuiltFrom(g, rank, first, t) && ExecutionShape(g) && i < |t| && q != [] && Admissible(g, q) && IsPath(g, q)
    requires Keys(g, q)[..|q| - 1] == KeyPath(t, i)
    ensures a < |t[i].edges| && t[i].edges[a].to < |t| && KeyPath(t, t[i].edges[a].to) == Keys(g, q)
    ensures ChildPath(t, i, a) == Keys(g, q) && ValidRef(g, q[|q| - 1])
    ensures t[i].edges[a].typ.IsCallback() <==> EdgeAt(g, q[|q| - 1]).typ.IsCallback()
  {
    hide From, Represents, Copies, KeyPath, Keys, HasKeyPath, Admissible, IsPath, LeavesAreTold, AllFinish, NoFailures, ChildPath;
    InTree(g, rank, first, t, q);
    var n := |q| - 1;
    assert Keys(g, q) == KeyPath(t, i) + [Keys(g, q)[n]];
    var c;
    a, c := EdgeWithKey(t, i, Keys(g, q)[n]);
    ChildKeys(t, i, a);
    var p := PassingPath(g, rank, first, t, i, a);
    assert Keys(g, p)[..n + 1] == Keys(g, q)[..n + 1];
    CallbackByKey(g, p, q, n);
  }

  lemma PlainAdmissible(g: Graph, p: Path)
    requires g.WellFormed() && Plain(g, p)
    ensures Admissible(g, p)
    decreases |p|
  {
    if p != [] {
      var front := p[..|p| - 1];
      assert forall k :: 0 <= k < |front| ==> front[k] == p[k];
      PlainAdmissible(g, front);
      assert PlainRef(g, p[|p| - 1]);
    }
  }

  /** A path without callbacks leads to a node whose subtree must pay, too. */
  lemma {:induction false} PlainNode(g: Graph, rank: seq<nat>, first: NodeGas, t: Tree, p: Path) returns (i: nat, typ: EdgeType)
    requires BuiltFrom(g, rank, first, t) && ExecutionShape(g) && Plain(g, p) && !g.IsLeaf(LastNode(g, p)) && |t| > 0
    ensures Valid(t) && i < |t| && KeyPath(t, i) == Keys(g, p) && (p == [] ==> i == 0 && typ == Sync)
    ensures Gas.AtMostOne(View(t, 0), Sync) ==> Gas.AtMostOne(View(t, i), typ)
    decreases |p|
  {
    hide BuiltFrom, ExecutionShape, Valid, View, KeyPath, Gas.Unpaid, Admissible, Gas.Counted, ChildPath;
    TreeIsValid(g, rank, first, t);
    if p == [] {
      RootKeys(t);
      i, typ := 0, Sync;
    } else {
      var front := p[..|p| - 1];
      PlainFront(g, p);
      var i0, typ0 := PlainNode(g, rank, first, t, front);
      PlainAdmissible(g, p);
      PrefixIsPath(g, p, |p| - 1);
      var j := TreeEdge(g, rank, first, t, i0, p);
      i, typ := t[i0].edges[j].to, t[i0].edges[j].typ;
      GoesOn(g, rank, first, t, i, p);
      assert PlainRef(g, p[|p| - 1]);
      ViewCounts(t, i0, j);
      if Gas.AtMostOne(View(t, 0), Sync) {
        assert Gas.AtMostOne(View(t, i0).edges[j].child, View(t, i0).edges[j].typ);
      }
    }
  }

  lemma PlainFront(g: Graph, p: Path)
    requires g.WellFormed() && Plain(g, p) && p != []
    ensures Plain(g, p[..|p| - 1]) && !g.IsLeaf(LastNode(g, p[..|p| - 1]))
  {
    var front := p[..|p| - 1];
    assert forall k :: 0 <= k < |front| ==> front[k] == p[k];
  }

  /** Where the graph goes on, the tree does. */
  lemma GoesOn(g: Graph, rank: seq<nat>, first: NodeGas, t: Tree, i: nat, p: Path)
    requires BuiltFrom(g, rank, first, t) && ExecutionShape(g) && i < |t| && Admissible(g, p) && IsPath(g, p)
    requires KeyPath(t, i) == Keys(g, p) && !g.IsLeaf(LastNode(g, p))
    ensures t[i].edges != []
  {
    hide BuiltFrom, KeyPath, Keys, CallbacksLast, InnerCallsUnique, KeysTell, LeavesAreTold, AllFinish, NoFailures;
    TreeIsValid(g, rank, first, t);
    var f := FinishIndex(g, LastNode(g, p));
    var w := Extend(g, p, f);
    ExtendAdmissible(g, p, f);
    assert w[..|p|] == p;
    PrefixIsPath(g, w, |p|);
    var a := TreeEdge(g, rank, first, t, i, w);
  }

  lemma ViewCounts(t: Tree, i: nat, j: nat)
    requires Valid(t) && i < |t| && j < |t[i].edges| && t[i].edges[j].to < |t|
    requires !t[i].edges[j].typ.IsCallback() && t[t[i].edges[j].to].edges != []
    ensures var n := View(t, i);
            && j < |n.edges| && Gas.Counted(n, j)
            && n.edges[j].child == View(t, t[i].edges[j].to) && n.edges[j].typ == t[i].edges[j].typ
  {
    hide Valid, View;
    ViewAt(t, i, j);
    ViewRoot(t, t[i].edges[j].to);
  }

  lemma {:induction false} CountTwo(n: CallNode, a: nat, b: nat, k: nat)
    requires a < b < k <= |n.edges| && n.edges[a].typ.IsCallback() && n.edges[b].typ.IsCallback()
    ensures Gas.CallbackCount(n, k) >= 2
    decreases k
  {
    if b < k - 1 {
      CountTwo(n, a, b, k - 1);
    }
  }

  /** A callback that may follow a path is a child of the node the path leads to. */
  lemma CallbackInTree(g: Graph, rank: seq<nat>, first: NodeGas, t: Tree, i: nat, p: Path, j: nat) returns (a: nat)
    requires BuiltFrom(g, rank, first, t) && ExecutionShape(g) && i < |t|
    requires Admissible(g, p) && IsPath(g, p) && KeyPath(t, i) == Keys(g, p)
    requires j < |g.adjacent[LastNode(g, p)]| && MayFollow(g, p, j) && g.adjacent[LastNode(g, p)][j].typ.IsCallback()
    ensures a < |t[i].edges| && t[i].edges[a].typ.IsCallback()
    ensures ChildPath(t, i, a) == Keys(g, p) + [KeyOf(g, g.adjacent[LastNode(g, p)][j])]
  {
    hide BuiltFrom, KeyPath, ExecutionShape, ChildPath, MayFollow;
    TreeIsValid(g, rank, first, t);
    var q := Extend(g, p, j);
    ExtendAdmissible(g, p, j);
    assert q[..|p|] == p;
    PrefixIsPath(g, q, |p|);
    a := TreeEdge(g, rank, first, t, i, q);
  }

  lemma ViewTypes(t: Tree, i: nat, a: nat)
    requires Valid(t) && i < |t| && a < |t[i].edges|
    ensures a < |View(t, i).edges| && View(t, i).edges[a].typ == t[i].edges[a].typ
  {
    hide Valid, View;
    ViewAt(t, i, a);
  }

  lemma StartShows(g: Graph, rank: seq<nat>, first: NodeGas, t: Tree)
    requires BuiltFrom(g, rank, first, t) && ExecutionShape(g) && IsPath(g, []) && Overanswered(g, []) && |t| > 0
    ensures Valid(t) && Gas.Unpaid(View(t, 0), Sync) > 0
  {
    hide BuiltFrom, ExecutionShape, Valid, View, KeyPath, Gas.CallbackCount, ChildPath, MayFollow, KeyOf;
    TreeIsValid(g, rank, first, t);
    RootKeys(t);
    var row := g.adjacent[LastNode(g, [])];
    var j :| 0 <= j < |row| && row[j].typ.IsCallback();
    FollowsStart(g, j);
    var a := CallbackInTree(g, rank, first, t, 0, [], j);
    ViewTypes(t, 0, a);
    CountOne(View(t, 0), a);
  }

  lemma CallShows(g: Graph, rank: seq<nat>, first: NodeGas, t: Tree, p: Path, i: nat, typ: EdgeType)
    requires BuiltFrom(g, rank, first, t) && ExecutionShape(g) && Admissible(g, p) && IsPath(g, p) && p != [] && Overanswered(g, p)
    requires i < |t| && KeyPath(t, i) == Keys(g, p)
    ensures Gas.Unpaid(View(t, i), typ) > 0
  {
    hide BuiltFrom, ExecutionShape, Valid, View, KeyPath, Gas.CallbackCount, ChildPath, MayFollow, KeyOf, Keys, Admissible, Answers;
    TreeIsValid(g, rank, first, t);
    var row := g.adjacent[LastNode(g, p)];
    var j, k :| 0 <= j < |row| && 0 <= k < |row| && AnsweredTwice(g, LastEdge(g, p).value, row[j], row[k]);
    AnswerFollows(g, p, j);
    AnswerFollows(g, p, k);
    var a := CallbackInTree(g, rank, first, t, i, p, j);
    var b := CallbackInTree(g, rank, first, t, i, p, k);
    assert ChildPath(t, i, a)[|p|] == KeyOf(g, row[j]) && ChildPath(t, i, b)[|p|] == KeyOf(g, row[k]);
    ViewTypes(t, i, a);
    ViewTypes(t, i, b);
    var n := View(t, i);
    if a < b { CountTwo(n, a, b, |n.edges|); } else { CountTwo(n, b, a, |n.edges|); }
  }

  /** A call with more callbacks than it pays for shows in the tree. */
  lemma OveransweredShows(g: Graph, rank: seq<nat>, first: NodeGas, t: Tree, p: Path)
    requires BuiltFrom(g, rank, first, t) && ExecutionShape(g) && Plain(g, p) && Overanswered(g, p) && |t| > 0
    ensures Valid(t) && !Gas.AtMostOne(View(t, 0), Sync)
  {
    hide BuiltFrom, ExecutionShape, Valid, View, KeyPath, Gas.Unpaid, Admissible, Keys;
    TreeIsValid(g, rank, first, t);
    if p == [] {
      StartShows(g, rank, first, t);
    } else {
      var i, typ := PlainNode(g, rank, first, t, p);
      PlainAdmissible(g, p);
      CallShows(g, rank, first, t, p, i, typ);
    }
  }

  lemma CountOne(n: CallNode, a: nat)
    requires a < |n.edges| && n.edges[a].typ.IsCallback()
    ensures Gas.CallbackCount(n, |n.edges|) >= 1
  {
  }

  lemma FollowsStart(g: Graph, j: nat)
    requires g.WellFormed() && j < |g.adjacent[g.start]|
    ensures IsPath(g, []) && LastNode(g, []) == g.start && MayFollow(g, [], j)
  {
  }

  lemma AnswerFollows(g: Graph, p: Path, j: nat)
    requires g.WellFormed() && IsPath(g, p) && p != [] && j < |g.adjacent[LastNode(g, p)]|
    requires Answers(g, LastEdge(g, p).value, g.adjacent[LastNode(g, p)][j])
    ensures MayFollow(g, p, j) && g.adjacent[LastNode(g, p)][j].typ.IsCallback()
  {
  }

  /** The tree pays for all callbacks, exactly if no path without callbacks is overanswered. */
  lemma TreePaysExactly(g: Graph, rank: seq<nat>, first: NodeGas, t: Tree)
    requires BuiltFrom(g, rank, first, t) && ExecutionShape(g) && KeysTellCalls(g) && |t| > 0
    ensures Valid(t) && (Gas.AtMostOne(View(t, 0), Sync) <==> AllPaid(g))
  {
    hide BuiltFrom, Valid, View, Gas.AtMostOne, Overanswered, IsPath, KeysTellCalls;
    hide CallbacksLast, InnerCallsUnique, KeysTell, LeavesAreTold, AllFinish, NoFailures;
    TreeIsValid(g, rank, first, t);
    if AllPaid(g) {
      TreeAtMostOne(g, rank, first, t);
    } else {
      var p: Path :| Plain(g, p) && Overanswered(g, p);
      OveransweredShows(g, rank, first, t, p);
    }
  }
}
