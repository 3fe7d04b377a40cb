/**
  From execution graph to schedule: the call tree built from an execution graph inherits what the
  scheduler relies on, so the rounds assigned to it form a good schedule.
 */
module Pipeline {
  import opened MachineIntegers
  import opened CallGraph
  import opened Paths
  import opened CallTree
  import opened TreeShape
  import Schedule
  import Gas

  // ----- Execution graphs -----

  predicate CallbacksLast(g: Graph) {
    forall v, i, j :: 0 <= v < |g.adjacent| && 0 <= i < j < |g.adjacent[v]| && g.adjacent[v][i].typ.IsCallback() ==>
      g.adjacent[v][j].typ.IsCallback()
  }

  /** Inner nodes are told apart by address and function. */
  predicate InnerCallsUnique(g: Graph)
    requires g.WellFormed()
  {
    forall u, v :: 0 <= u < |g.calls| && 0 <= v < |g.calls| && !g.IsLeaf(u) && !g.IsLeaf(v) && g.calls[u] == g.calls[v] ==>
      u == v
  }

  function KeyOf(g: Graph, e: Edge): Key
    requires e.to < |g.calls|
  {
    Key(g.calls[e.to], e.caption, e.id)
  }

  /** Edges of one node with the same key are both callbacks or both not. */
  predicate KeysTell(g: Graph)
    requires g.WellFormed()
  {
    forall v, i, j :: 0 <= v < |g.adjacent| && 0 <= i < |g.adjacent[v]| && 0 <= j < |g.adjacent[v]| ==>
      (KeyOf(g, g.adjacent[v][i]) == KeyOf(g, g.adjacent[v][j]) ==>
         (g.adjacent[v][i].typ.IsCallback() <==> g.adjacent[v][j].typ.IsCallback()))
  }

  predicate FinishEdge(g: Graph, v: nat, i: nat)
    requires g.WellFormed() && v < |g.adjacent| && i < |g.adjacent[v]|
  {
    g.adjacent[v][i].typ.Sync? && g.IsLeaf(g.adjacent[v][i].to)
  }

  /** Every inner node has an edge to a finish leaf. */
  predicate AllFinish(g: Graph)
    requires g.WellFormed()
  {
    forall v :: 0 <= v < |g.adjacent| && !g.IsLeaf(v) ==> exists i :: 0 <= i < |g.adjacent[v]| && FinishEdge(g, v, i)
  }

  predicate NoFailures(g: Graph) {
    forall v, i :: 0 <= v < |g.adjacent| && 0 <= i < |g.adjacent[v]| ==> !g.adjacent[v][i].fail
  }

  /** What building an execution graph guarantees, if no call is configured to fail. */
  ghost predicate ExecutionShape(g: Graph)
    requires g.WellFormed()
  {
    && CallbacksLast(g) && InnerCallsUnique(g) && LeavesAreTold(g) && KeysTell(g) && AllFinish(g) && NoFailures(g)
    && !g.IsLeaf(g.start)
  }

  // ----- Keys of choice paths -----

  function Keys(g: Graph, p: Path): (ks: seq<Key>)
    requires g.WellFormed() && IsPath(g, p)
    ensures |ks| == |p|
  {
    if p == [] then [] else Keys(g, p[..|p| - 1]) + [KeyOf(g, EdgeAt(g, p[|p| - 1]))]
  }

  lemma {:induction false} StepsOf(g: Graph, p: Path, k: nat)
    requires g.WellFormed() && IsPath(g, p) && k < |p|
    ensures ValidRef(g, p[k]) && NodesOn(g, p)[k] == p[k].from && NodesOn(g, p)[k + 1] == EdgeAt(g, p[k]).to
    ensures EdgesOn(g, p)[k] == EdgeAt(g, p[k]) && Keys(g, p)[k] == KeyOf(g, EdgeAt(g, p[k]))
    ensures !g.IsLeaf(p[k].from)
  {
    var front := p[..|p| - 1];
    if k < |front| {
      StepsOf(g, front, k);
      assert front[k] == p[k];
    }
  }

  lemma KeysOfCopy(g: Graph, first: NodeGas, p: Path)
    requires g.WellFormed() && IsPath(g, p) && p != []
    ensures var c := CopyOf(g, first, p); WellShaped(c) && PathKeys(c) == Keys(g, p) && c.edges == EdgesOn(g, p)
  {
    var c := CopyOf(g, first, p);
    forall k | 0 <= k < |p| ensures PathKeys(c)[k] == Keys(g, p)[k] {
      StepsOf(g, p, k);
    }
  }

  lemma {:induction false} PrefixIsPath(g: Graph, p: Path, n: nat)
    requires g.WellFormed() && IsPath(g, p) && n <= |p|
    ensures IsPath(g, p[..n]) && Keys(g, p[..n]) == Keys(g, p)[..n]
    ensures LastNode(g, p[..n]) == NodesOn(g, p)[n]
    decreases |p|
  {
    if n < |p| {
      var front := p[..|p| - 1];
      PrefixIsPath(g, front, n);
      assert front[..n] == p[..n];
    } else {
      assert p[..n] == p;
    }
  }

  /** Equal keys so far lead to the same node, as long as both paths go on. */
  lemma SameNode(g: Graph, p: Path, q: Path, n: nat)
    requires g.WellFormed() && InnerCallsUnique(g) && IsPath(g, p) && IsPath(g, q) && n < |p| && n < |q|
    requires Keys(g, p)[..n] == Keys(g, q)[..n]
    ensures p[n].from == q[n].from
  {
    hide IsPath, Keys, NodesOn, EdgesOn, InnerCallsUnique;
    StepsOf(g, p, n);
    StepsOf(g, q, n);
    if n == 0 {
      FirstOnPath(g, p);
      FirstOnPath(g, q);
    } else {
      StepsOf(g, p, n - 1);
      StepsOf(g, q, n - 1);
      assert Keys(g, p)[..n][n - 1] == Keys(g, q)[..n][n - 1];
      SameInner(g, p[n].from, q[n].from);
    }
  }

  lemma SameInner(g: Graph, u: nat, v: nat)
    requires g.WellFormed() && InnerCallsUnique(g) && u < |g.calls| && v < |g.calls|
    requires !g.IsLeaf(u) && !g.IsLeaf(v) && g.calls[u] == g.calls[v]
    ensures u == v
  {
  }

  // ----- Splicing paths -----

  function Splice(p: Path, y: Path, n: nat): Path
    requires n <= |p| && n <= |y|
  {
    p[..n] + y[n..]
  }

  /** A path may leave its beginning over any edge that is not a callback, and go on as another path does. */
  lemma {:induction false} SpliceAdmissible(g: Graph, p: Path, y: Path, n: nat)
    requires g.WellFormed() && Admissible(g, p) && Admissible(g, y) && n < |y| && n <= |p|
    requires NodesOn(g, p)[n] == y[n].from && ValidRef(g, y[n]) && !EdgeAt(g, y[n]).typ.IsCallback()
    ensures Admissible(g, Splice(p, y, n)) && LastNode(g, Splice(p, y, n)) == LastNode(g, y)
    ensures Keys(g, Splice(p, y, n)) == Keys(g, p)[..n] + Keys(g, y)[n..]
    decreases |y|
  {
    hide Admissible, IsPath, Keys, NodesOn, LastNode;
    var q := Splice(p, y, n);
    var qf, yf := q[..|q| - 1], y[..|y| - 1];
    FrontAdmissible(g, y);
    AdmissibleIsPath(g, p);
    if |y| == n + 1 {
      SpliceFirst(g, p, y, n);
      assert q == p[..n] + [y[n]];
    } else {
      assert yf[n] == y[n];
      SpliceAdmissible(g, p, yf, n);
      assert qf == Splice(p, yf, n) && q[|q| - 1] == y[|y| - 1];
      assert qf[|qf| - 1] == yf[|yf| - 1];
      SpliceNext(g, qf, y);
      assert q == qf + [y[|y| - 1]];
      assert Keys(g, y)[n..] == Keys(g, yf)[n..] + [Keys(g, y)[|y| - 1]];
    }
  }

  lemma AdmissibleIsPath(g: Graph, q: Path)
    requires g.WellFormed() && Admissible(g, q)
    ensures IsPath(g, q)
  {
  }

  lemma FrontAdmissible(g: Graph, y: Path)
    requires g.WellFormed() && Admissible(g, y) && y != []
    ensures var yf := y[..|y| - 1];
            && Admissible(g, yf) && IsPath(g, y) && IsPath(g, yf)
            && Keys(g, y) == Keys(g, yf) + [Keys(g, y)[|y| - 1]]
  {
  }

  lemma SpliceFirst(g: Graph, p: Path, y: Path, n: nat)
    requires g.WellFormed() && Admissible(g, p) && Admissible(g, y) && |y| == n + 1 && n <= |p|
    requires NodesOn(g, p)[n] == y[n].from && ValidRef(g, y[n]) && !EdgeAt(g, y[n]).typ.IsCallback()
    ensures var q := p[..n] + [y[n]];
            Admissible(g, q) && LastNode(g, q) == LastNode(g, y) && Keys(g, q) == Keys(g, p)[..n] + Keys(g, y)[n..]
  {
    PrefixIsPath(g, p, n);
    PrefixAdmissible(g, p, n);
    var q := p[..n] + [y[n]];
    assert q[..n] == p[..n];
  }

  /** After the splice both paths go on alike. */
  lemma SpliceNext(g: Graph, qf: Path, y: Path)
    requires g.WellFormed() && Admissible(g, qf) && Admissible(g, y) && |y| >= 2 && qf != []
    requires qf[|qf| - 1] == y[|y| - 2] && LastNode(g, qf) == LastNode(g, y[..|y| - 1])
    ensures var q := qf + [y[|y| - 1]];
            && Admissible(g, q) && LastNode(g, q) == LastNode(g, y)
            && Keys(g, q) == Keys(g, qf) + [Keys(g, y)[|y| - 1]]
  {
    var q := qf + [y[|y| - 1]];
    assert q[..|qf|] == qf;
  }

  // ----- The order of enumeration -----

  lemma OneComesFirst(p: Path, q: Path, k: nat, n: nat)
    requires PartAt(p, q, k)
    ensures !PartAt(q, p, n)
  {
    if n < |p| && n < |q| && k < n {
      assert p[..n][k] == p[k] && q[..n][k] == q[k];
    } else if n < k {
      assert p[..k][n] == p[n] && q[..k][n] == q[n];
    }
  }

  /** A path that takes the earlier edge has a smaller number. */
  lemma EarlierNumber(s: seq<Path>, q: Path, b: nat, n: nat) returns (a: nat)
    requires DepthFirst(s) && q in s && b < |s| && PartAt(q, s[b], n)
    ensures a < b && s[a] == q
  {
    a :| 0 <= a < |s| && s[a] == q;
    if b < a {
      assert Before(s[b], q);
      var k :| PartAt(s[b], q, k);
      OneComesFirst(s[b], q, k, n);
    }
  }

  // ----- The tree of an execution graph -----

  lemma EmptyIsPath(g: Graph)
    requires g.WellFormed()
    ensures IsPath(g, [])
  {
  }

  /** The tree was built from the paths of the graph. */
  ghost predicate BuiltFrom(g: Graph, rank: seq<nat>, first: NodeGas, t: Tree) {
    && g.WellFormed() && g.RankedBy(rank) && ProperPaths(g, From(g, rank, []))
    && Valid(t) && Represents(t, Copies(g, first, From(g, rank, [])))
  }

  /** Path number `x` passes node `i` of the tree and goes on over edge `j`. */
  ghost predicate Passes(g: Graph, s: seq<Path>, t: Tree, i: nat, j: nat, x: nat)
    requires g.WellFormed() && ProperPaths(g, s) && Valid(t) && i < |t| && j < |t[i].edges| && x < |s|
  {
    var n := |KeyPath(t, i)|;
    IsPath(g, s[x]) && n < |s[x]| && Keys(g, s[x])[..n + 1] == ChildPath(t, i, j)
  }

  lemma CopyAt(g: Graph, first: NodeGas, s: seq<Path>, x: nat)
    requires g.WellFormed() && ProperPaths(g, s) && x < |s|
    ensures IsPath(g, s[x]) && s[x] != [] && WellShaped(Copies(g, first, s)[x])
    ensures PathKeys(Copies(g, first, s)[x]) == Keys(g, s[x]) && Copies(g, first, s)[x].edges == EdgesOn(g, s[x])
  {
    hide CopyOf;
    KeysOfCopy(g, first, s[x]);
  }

  /** Every tree edge was copied from an edge of a path that passes there. */
  lemma EdgeOrigin(g: Graph, rank: seq<nat>, first: NodeGas, t: Tree, i: nat, j: nat) returns (x: nat)
    requires BuiltFrom(g, rank, first, t) && i < |t| && j < |t[i].edges|
    ensures var s := From(g, rank, []);
            && x < |s| && Passes(g, s, t, i, j, x) && ValidRef(g, s[x][|KeyPath(t, i)|])
            && t[i].edges[j] == EdgeAt(g, s[x][|KeyPath(t, i)|]).(to := t[i].edges[j].to)
  {
    hide From, CopyOf, Copies, Aged, Followed, IsPath, Keys;
    EmptyIsPath(g);
    var s := From(g, rank, []);
    var ps := Copies(g, first, s);
    var e, m := ChildOrigin(t, ps, i, j);
    x := m;
    CopiesLength(g, first, s);
    CopyAt(g, first, s, x);
    StepsOf(g, s[x], |KeyPath(t, i)|);
  }

  lemma CopiesLength(g: Graph, first: NodeGas, s: seq<Path>)
    requires g.WellFormed() && ProperPaths(g, s)
    ensures |Copies(g, first, s)| == |s|
  {
  }

  lemma ChildOrigin(t: Tree, ps: seq<PathCopy>, i: nat, j: nat) returns (e: Edge, m: nat)
    requires Valid(t) && Represents(t, ps) && i < |t| && j < |t[i].edges|
    ensures m < |ps| && WellShaped(ps[m]) && |KeyPath(t, i)| < |ps[m].edges|
    ensures PathKeys(ps[m])[..|KeyPath(t, i)| + 1] == ChildPath(t, i, j)
    ensures t[i].edges[j] == ps[m].edges[|KeyPath(t, i)|].(to := t[i].edges[j].to)
  {
    hide Aged, Followed;
    e := t[i].edges[j];
    assert EdgesValid(t, i);
    assert EdgeLinked(t, i, e);
    assert KeyPath(t, e.to) == ChildPath(t, i, j);
    assert Explained(t, e.to, ps);
    var x, k :| 0 <= x < |ps| && 0 <= k <= |ps[x].edges| && CopiedFrom(t, e.to, ps[x], k);
    assert k == |KeyPath(t, i)| + 1;
    m := x;
  }

  lemma InAgeOrder(t: Tree, ps: seq<PathCopy>, i: nat, j: nat, k: nat)
    requires Valid(t) && Represents(t, ps) && i < |t| && j < k < |t[i].edges|
    ensures (forall m :: 0 <= m < |ps| ==> WellShaped(ps[m])) && Elder(ps, ChildPath(t, i, j), ChildPath(t, i, k))
  {
    hide Valid, Explained, Followed, Elder, ChildPath;
  }

  /** The path that brings an elder sibling before the younger one appears. */
  lemma ElderPath(g: Graph, rank: seq<nat>, first: NodeGas, t: Tree, i: nat, j: nat, k: nat) returns (m: nat)
    requires BuiltFrom(g, rank, first, t) && i < |t| && j < k < |t[i].edges|
    ensures var s := From(g, rank, []);
            && m < |s| && Passes(g, s, t, i, j, m)
            && forall l :: 0 <= l <= m ==> IsPath(g, s[l]) && !(ChildPath(t, i, k) <= Keys(g, s[l]))
  {
    hide From, CopyOf, Copies, Represents, IsPath, Keys, KeyPath, Valid, PathKeys, ChildPath, EdgesOn;
    EmptyIsPath(g);
    var s := From(g, rank, []);
    var ps := Copies(g, first, s);
    CopiesLength(g, first, s);
    ChildPathLength(t, i, j);
    InAgeOrder(t, ps, i, j, k);
    m :| 0 <= m < |ps| && WellShaped(ps[m]) && ChildPath(t, i, j) <= PathKeys(ps[m]) && NotBy(ps, ChildPath(t, i, k), m);
    CopyAt(g, first, s, m);
    forall l | 0 <= l <= m ensures IsPath(g, s[l]) && !(ChildPath(t, i, k) <= Keys(g, s[l])) {
      CopyAt(g, first, s, l);
    }
  }

  lemma ChildPathLength(t: Tree, i: nat, j: nat)
    requires Valid(t) && i < |t| && j < |t[i].edges|
    ensures |ChildPath(t, i, j)| == |KeyPath(t, i)| + 1 && ChildPath(t, i, j)[..|KeyPath(t, i)|] == KeyPath(t, i)
  {
  }

  /** The elder path, too, goes on over a callback. */
  lemma ElderIsCallback(g: Graph, s: seq<Path>, t: Tree, i: nat, j: nat, m: nat, x: nat)
    requires g.WellFormed() && InnerCallsUnique(g) && KeysTell(g) && ProperPaths(g, s) && Valid(t)
    requires i < |t| && j < |t[i].edges| && m < |s| && x < |s| && Passes(g, s, t, i, j, m) && Passes(g, s, t, i, j, x)
    requires ValidRef(g, s[x][|KeyPath(t, i)|]) && EdgeAt(g, s[x][|KeyPath(t, i)|]).typ.IsCallback()
    ensures ValidRef(g, s[m][|KeyPath(t, i)|]) && EdgeAt(g, s[m][|KeyPath(t, i)|]).typ.IsCallback()
  {
    hide IsPath, Keys, KeyPath, Valid, ChildPath, InnerCallsUnique;
    var n := |KeyPath(t, i)|;
    var p, q := s[m], s[x];
    assert Keys(g, p)[..n] == Keys(g, p)[..n + 1][..n] == Keys(g, q)[..n + 1][..n] == Keys(g, q)[..n];
    assert Keys(g, p)[n] == Keys(g, p)[..n + 1][n] == Keys(g, q)[..n + 1][n] == Keys(g, q)[n];
    SameNode(g, p, q, n);
    StepsOf(g, p, n);
    StepsOf(g, q, n);
    assert KeyOf(g, g.adjacent[p[n].from][p[n].index]) == KeyOf(g, g.adjacent[p[n].from][q[n].index]);
  }

  lemma EarlierEdge(g: Graph, v: nat, a: nat, b: nat)
    requires g.WellFormed() && CallbacksLast(g) && v < |g.adjacent| && a < |g.adjacent[v]| && b < |g.adjacent[v]|
    requires !g.adjacent[v][a].typ.IsCallback() && g.adjacent[v][b].typ.IsCallback()
    ensures a < b
  {
  }

  /**
    If the elder path leaves over a callback and another path over a non-callback, then a path with
    the younger key is enumerated before the elder path.
   */
  lemma YoungerComesFirst(g: Graph, rank: seq<nat>, t: Tree, i: nat, j: nat, k: nat, m: nat, y: nat) returns (z: nat)
    requires g.WellFormed() && g.RankedBy(rank) && ProperPaths(g, From(g, rank, [])) && Valid(t)
    requires CallbacksLast(g) && InnerCallsUnique(g) && i < |t| && j < |t[i].edges| && k < |t[i].edges|
    requires var s, n := From(g, rank, []), |KeyPath(t, i)|;
             && m < |s| && Passes(g, s, t, i, j, m) && ValidRef(g, s[m][n]) && EdgeAt(g, s[m][n]).typ.IsCallback()
             && y < |s| && Passes(g, s, t, i, k, y) && ValidRef(g, s[y][n]) && !EdgeAt(g, s[y][n]).typ.IsCallback()
    ensures var s := From(g, rank, []);
            z < m && IsPath(g, s[z]) && ChildPath(t, i, k) <= Keys(g, s[z])
  {
    hide From, IsPath, Keys, KeyPath, Valid, ChildPath, CallbacksLast, InnerCallsUnique, Complete;
    EmptyIsPath(g);
    var s, n := From(g, rank, []), |KeyPath(t, i)|;
    var p, w := s[m], s[y];
    ChildPathLength(t, i, j);
    ChildPathLength(t, i, k);
    assert Keys(g, p)[..n] == Keys(g, p)[..n + 1][..n] == KeyPath(t, i);
    assert Keys(g, w)[..n] == Keys(g, w)[..n + 1][..n] == KeyPath(t, i);
    SameNode(g, p, w, n);
    EarlierEdge(g, p[n].from, w[n].index, p[n].index);
    var q := SplicedPath(g, rank, p, w, n);
    assert q[n] == w[n] && q[..n] == p[..n];
    PathsExact(g, rank);
    z := EarlierNumber(s, q, m, n);
    assert Keys(g, q)[..n + 1] == Keys(g, w)[..n + 1];
  }

  lemma SplicedPath(g: Graph, rank: seq<nat>, p: Path, w: Path, n: nat) returns (q: Path)
    requires g.WellFormed() && g.RankedBy(rank) && p in From(g, rank, []) && w in From(g, rank, [])
    requires IsPath(g, p) && IsPath(g, w) && n < |p| && n < |w| && Keys(g, p)[..n] == Keys(g, w)[..n]
    requires p[n].from == w[n].from && ValidRef(g, w[n]) && !EdgeAt(g, w[n]).typ.IsCallback()
    ensures q == Splice(p, w, n) && q in From(g, rank, []) && IsPath(g, q) && Keys(g, q) == Keys(g, w)
  {
    hide From, Keys, Admissible;
    PathsExact(g, rank);
    StepsOf(g, p, n);
    SpliceAdmissible(g, p, w, n);
    q := Splice(p, w, n);
    AdmissibleIsPath(g, q);
    assert Keys(g, q) == Keys(g, w)[..n] + Keys(g, w)[n..] == Keys(g, w);
    assert Complete(g, q);
  }

  /** In the tree, too, callbacks follow all other edges. */
  lemma TreeCallbacksLast(g: Graph, rank: seq<nat>, first: NodeGas, t: Tree, i: nat, j: nat, k: nat)
    requires BuiltFrom(g, rank, first, t) && CallbacksLast(g) && InnerCallsUnique(g) && KeysTell(g)
    requires i < |t| && j < k < |t[i].edges| && t[i].edges[j].typ.IsCallback()
    ensures t[i].edges[k].typ.IsCallback()
  {
    hide From, IsPath, Keys, KeyPath, Valid, Represents, CallbacksLast, InnerCallsUnique, KeysTell, ChildPath, Passes;
    EmptyIsPath(g);
    var m := ElderPath(g, rank, first, t, i, j, k);
    var x := EdgeOrigin(g, rank, first, t, i, j);
    var y := EdgeOrigin(g, rank, first, t, i, k);
    ElderIsCallback(g, From(g, rank, []), t, i, j, m, x);
    if !t[i].edges[k].typ.IsCallback() {
      var z := YoungerComesFirst(g, rank, t, i, j, k, m, y);
    }
  }

  /** The beginning of a path, finished at once, is a path of its own. */
  lemma FinishedPath(g: Graph, rank: seq<nat>, p: Path, n: nat) returns (w: Path)
    requires g.WellFormed() && g.RankedBy(rank) && AllFinish(g) && p in From(g, rank, []) && n < |p|
    ensures w in From(g, rank, []) && IsPath(g, w) && IsPath(g, p) && |w| == n + 1
    ensures Keys(g, w)[..n] == Keys(g, p)[..n]
  {
    hide From, AllFinish;
    PathsExact(g, rank);
    AdmissibleIsPath(g, p);
    PrefixAdmissible(g, p, n);
    PrefixIsPath(g, p, n);
    StepsOf(g, p, n);
    var r := p[..n];
    var f := FinishIndex(g, p[n].from);
    w := Extend(g, r, f);
    ExtendAdmissible(g, r, f);
    assert w[..n] == r;
    assert Complete(g, w);
  }

  lemma FinishIndex(g: Graph, v: nat) returns (i: nat)
    requires g.WellFormed() && AllFinish(g) && v < |g.adjacent| && !g.IsLeaf(v)
    ensures i < |g.adjacent[v]| && FinishEdge(g, v, i)
  {
    i :| 0 <= i < |g.adjacent[v]| && FinishEdge(g, v, i);
  }

  ghost predicate LeafEdge(t: Tree, i: nat, j: nat)
    requires Valid(t) && i < |t| && j < |t[i].edges|
  {
    t[i].edges[j].to < |t| && t[t[i].edges[j].to].edges == []
  }

  /** Every inner node of the tree has a finish leaf. */
  lemma TreeFinishes(g: Graph, rank: seq<nat>, first: NodeGas, t: Tree, i: nat) returns (j: nat)
    requires BuiltFrom(g, rank, first, t) && ExecutionShape(g) && i < |t| && t[i].edges != []
    ensures j < |t[i].edges| && LeafEdge(t, i, j)
  {
    hide From, IsPath, Keys, KeyPath, Represents, Copies, EdgesValid;
    hide AllFinish, CallbacksLast, InnerCallsUnique, KeysTell, LeavesAreTold, NoFailures;
    EmptyIsPath(g);
    var s, n := From(g, rank, []), |KeyPath(t, i)|;
    var ps := Copies(g, first, s);
    var x := EdgeOrigin(g, rank, first, t, i, 0);
    ChildPathLength(t, i, 0);
    assert Keys(g, s[x])[..n] == Keys(g, s[x])[..n + 1][..n] == KeyPath(t, i);
    var w := FinishedPath(g, rank, s[x], n);
    var z :| 0 <= z < |s| && s[z] == w;
    CopiesLength(g, first, s);
    CopyAt(g, first, s, z);
    var ks := Keys(g, w);
    assert ks == KeyPath(t, i) + [ks[n]];
    EnumeratedPathsFit(g, rank, first);
    TreeIsPrefixClosure(t, ps, ks);
    var c;
    j, c := EdgeWithKey(t, i, ks[n]);
    LeafIffNotExtended(t, ps, c);
  }

  lemma EdgeWithKey(t: Tree, i: nat, key: Key) returns (j: nat, c: nat)
    requires Valid(t) && i < |t| && HasKeyPath(t, KeyPath(t, i) + [key])
    ensures j < |t[i].edges| && c == t[i].edges[j].to < |t| && KeyPath(t, c) == KeyPath(t, i) + [key]
  {
    ExtensionIsEdge(t, i, key);
    assert EdgesValid(t, i);
    j :| 0 <= j < |t[i].edges| && !(t[i].edges[j].to < |t| && EdgeKey(t, t[i].edges[j]) != key);
    assert EdgeLinked(t, i, t[i].edges[j]);
    c := t[i].edges[j].to;
  }

  // ----- The tree as the scheduler sees it -----

  function View(t: Tree, i: nat): (n: CallNode)
    requires Valid(t) && i < |t|
    decreases |t| - i, 1, 0
  {
    CallNode(i, t[i].copy.gas.used, t[i].copy.gas.locked, ViewEdges(t, i, |t[i].edges|))
  }

  function ViewEdges(t: Tree, i: nat, k: nat): (es: seq<CallEdge>)
    requires Valid(t) && i < |t| && k <= |t[i].edges|
    ensures |es| == k
    decreases |t| - i, 0, k
  {
    if k == 0 then []
    else
      var e := t[i].edges[k - 1];
      assert EdgesValid(t, i) && EdgeLinked(t, i, e);
      ViewEdges(t, i, k - 1) + [CallEdge(e.typ, e.fail, View(t, e.to))]
  }

  lemma {:induction false} ViewEdgesAt(t: Tree, i: nat, k: nat, j: nat)
    requires Valid(t) && i < |t| && j < k <= |t[i].edges|
    ensures t[i].edges[j].to < |t| && i < t[i].edges[j].to
    ensures ViewEdges(t, i, k)[j] == CallEdge(t[i].edges[j].typ, t[i].edges[j].fail, View(t, t[i].edges[j].to))
    decreases k
  {
    hide View, KeyPath;
    assert EdgesValid(t, i) && EdgeLinked(t, i, t[i].edges[j]);
    if j < k - 1 {
      ViewEdgesAt(t, i, k - 1, j);
    }
  }

  lemma ViewAt(t: Tree, i: nat, j: nat)
    requires Valid(t) && i < |t| && j < |t[i].edges|
    ensures t[i].edges[j].to < |t| && i < t[i].edges[j].to && |View(t, i).edges| == |t[i].edges|
    ensures View(t, i).edges[j] == CallEdge(t[i].edges[j].typ, t[i].edges[j].fail, View(t, t[i].edges[j].to))
  {
    hide Valid, ViewEdges;
    ViewEdgesAt(t, i, |t[i].edges|, j);
  }

  lemma ViewRoot(t: Tree, i: nat)
    requires Valid(t) && i < |t|
    ensures View(t, i).id == i && |View(t, i).edges| == |t[i].edges|
  {
  }

  lemma ChildKeys(t: Tree, i: nat, j: nat)
    requires Valid(t) && i < |t| && j < |t[i].edges|
    ensures t[i].edges[j].to < |t| && KeyPath(t, t[i].edges[j].to) == ChildPath(t, i, j)
  {
    assert EdgesValid(t, i) && EdgeLinked(t, i, t[i].edges[j]);
  }

  /** Everything in a subtree lies below its root. */
  lemma {:induction false} IdsBelow(t: Tree, i: nat, x: nat)
    requires Valid(t) && i < |t| && x in Ids(View(t, i))
    ensures x < |t| && KeyPath(t, i) <= KeyPath(t, x)
    decreases |t| - i, 1, 0
  {
    hide Valid, KeyPath, View;
    ViewRoot(t, i);
    if x != i {
      var j := EdgeIdsBelow(t, i, |t[i].edges|, x);
    }
  }

  /** A node below some child lies below one of them. */
  lemma {:induction false} EdgeIdsBelow(t: Tree, i: nat, k: nat, x: nat) returns (j: nat)
    requires Valid(t) && i < |t| && k <= |t[i].edges| && |View(t, i).edges| == |t[i].edges|
    requires x in EdgeIds(View(t, i), k)
    ensures j < k && x < |t| && ChildPath(t, i, j) <= KeyPath(t, x) && KeyPath(t, i) <= KeyPath(t, x)
    decreases |t| - i, 0, k
  {
    hide Valid, KeyPath, View, Ids, ChildPath;
    ViewAt(t, i, k - 1);
    ChildPathLength(t, i, k - 1);
    if x in EdgeIds(View(t, i), k - 1) {
      j := EdgeIdsBelow(t, i, k - 1, x);
    } else {
      j := k - 1;
      IdsBelow(t, t[i].edges[j].to, x);
      ChildKeys(t, i, j);
      PrefixTransitive(KeyPath(t, i), ChildPath(t, i, j), KeyPath(t, x));
    }
  }

  lemma PrefixTransitive(a: seq<Key>, b: seq<Key>, c: seq<Key>)
    requires b <= c && |a| <= |b| && b[..|a|] == a
    ensures a <= c
  {
  }

  lemma SiblingKeys(t: Tree, i: nat, j: nat, k: nat)
    requires Valid(t) && i < |t| && j < |t[i].edges| && k < |t[i].edges| && j != k
    ensures ChildPath(t, i, j) != ChildPath(t, i, k) && |ChildPath(t, i, j)| == |ChildPath(t, i, k)| == |KeyPath(t, i)| + 1
  {
    assert EdgesValid(t, i);
    assert ChildPath(t, i, j)[|KeyPath(t, i)|] == EdgeKey(t, t[i].edges[j]);
    assert ChildPath(t, i, k)[|KeyPath(t, i)|] == EdgeKey(t, t[i].edges[k]);
  }

  /** Node ids are unique in the scheduler's view. */
  lemma {:induction false} ViewDistinct(t: Tree, i: nat)
    requires Valid(t) && i < |t|
    ensures Distinct(View(t, i))
    decreases |t| - i
  {
    hide Valid, KeyPath, View, Ids, EdgeIds, ChildPath;
    ViewRoot(t, i);
    var n := View(t, i);
    assert n.id !in EdgeIds(n, |n.edges|) by {
      if n.id in EdgeIds(n, |n.edges|) {
        var j := EdgeIdsBelow(t, i, |n.edges|, i);
        ChildPathLength(t, i, j);
      }
    }
    forall k | 0 <= k < |n.edges|
      ensures EdgeIds(n, k) !! Ids(n.edges[k].child) && Distinct(n.edges[k].child)
    {
      ViewAt(t, i, k);
      ViewDistinct(t, t[i].edges[k].to);
      forall x | x in EdgeIds(n, k) ensures x !in Ids(n.edges[k].child) {
        ApartFromEarlier(t, i, k, x);
      }
    }
  }

  lemma ApartFromEarlier(t: Tree, i: nat, k: nat, x: nat)
    requires Valid(t) && i < |t| && k < |t[i].edges| && |View(t, i).edges| == |t[i].edges|
    requires x in EdgeIds(View(t, i), k)
    ensures x !in Ids(View(t, i).edges[k].child)
  {
    hide Valid, KeyPath, View, Ids, EdgeIds, ChildPath;
    var j := EdgeIdsBelow(t, i, k, x);
    ViewAt(t, i, k);
    SiblingKeys(t, i, j, k);
    ChildKeys(t, i, k);
    if x in Ids(View(t, i).edges[k].child) {
      IdsBelow(t, t[i].edges[k].to, x);
    }
  }

  lemma TreeEdgeRuns(g: Graph, rank: seq<nat>, first: NodeGas, t: Tree, i: nat, j: nat)
    requires BuiltFrom(g, rank, first, t) && NoFailures(g) && i < |t| && j < |t[i].edges|
    ensures !t[i].edges[j].fail
  {
    hide From, Copies, Represents, Valid, Keys, KeyPath;
    EmptyIsPath(g);
    var x := EdgeOrigin(g, rank, first, t, i, j);
    var r := From(g, rank, [])[x][|KeyPath(t, i)|];
    assert !g.adjacent[r.from][r.index].fail;
  }

  /** The tree is ready for the scheduler: finish leaves everywhere, callbacks last. */
  lemma {:induction false} ViewReady(g: Graph, rank: seq<nat>, first: NodeGas, t: Tree, i: nat)
    requires BuiltFrom(g, rank, first, t) && ExecutionShape(g) && i < |t|
    ensures Schedule.Finished(View(t, i)) && Schedule.CallbacksLast(View(t, i)) && FailureFree(View(t, i))
    decreases |t| - i
  {
    hide From, Represents, Copies, Valid, View, CallbacksLast, InnerCallsUnique, KeysTell, LeavesAreTold, AllFinish, NoFailures;
    ViewRoot(t, i);
    var n := View(t, i);
    forall k | 0 <= k < |n.edges|
      ensures Schedule.Finished(n.edges[k].child) && Schedule.CallbacksLast(n.edges[k].child)
      ensures !n.edges[k].fail && FailureFree(n.edges[k].child)
    {
      ViewAt(t, i, k);
      TreeEdgeRuns(g, rank, first, t, i, k);
      ViewReady(g, rank, first, t, t[i].edges[k].to);
    }
    forall j, k | 0 <= j < k < |n.edges| && n.edges[j].typ.IsCallback() ensures n.edges[k].typ.IsCallback() {
      ViewAt(t, i, j);
      ViewAt(t, i, k);
      TreeCallbacksLast(g, rank, first, t, i, j, k);
    }
    if n.edges != [] {
      var j := TreeFinishes(g, rank, first, t, i);
      ViewAt(t, i, j);
      ViewRoot(t, t[i].edges[j].to);
      assert n.edges[j].child.IsLeaf();
    }
  }

  /** Where every call has a round, nothing keeps the accountant from a call. */
  lemma {:induction false} RunsSmoothly(n: CallNode, r: Schedule.Rounds, b: Gas.Books)
    requires Schedule.Covers(r, Ids(n)) && Gas.Covers(b, Ids(n)) && n.id in Ids(n) && b.round == r.round
    requires FailureFree(n) && Schedule.WellScheduled(n, r) && r.round[n.id] >= 0
    ensures Gas.Smooth(n, b)
    decreases n
  {
    hide Ids;
    forall k | 0 <= k < |n.edges| && Gas.Counted(n, k) ensures (ChildIds(n, k); Gas.Smooth(n.edges[k].child, b)) {
      ChildIds(n, k);
      assert Schedule.IsCall(n, k) && Schedule.EdgeScheduled(n, k, r);
      RunsSmoothly(n.edges[k].child, r, b);
    }
  }

  /** The results of all stages on one tree. */
  ghost predicate Accounted(n: CallNode, r: Schedule.Rounds, b: Gas.Books) {
    && Distinct(n) && FailureFree(n) && !n.IsLeaf()
    && Schedule.Covers(r, Ids(n)) && Schedule.Lawful(n, r) && Schedule.WellScheduled(n, r)
    && n.id in r.round && r.round[n.id] == 0
    && (forall i :: i in Schedule.Calls(n) ==> i in r.round && r.round[i] >= 0)
    && Gas.Covers(b, Ids(n)) && n.id in Ids(n) && b.round == r.round
    && Gas.Booked(n, Gas.Incoming(Sync, false), b) && Gas.Balanced(n, b)
  }

  /** The root of the tree starts with the gas of the start node. */
  lemma RootGas(g: Graph, rank: seq<nat>, first: NodeGas, t: Tree)
    requires BuiltFrom(g, rank, first, t) && |t| > 0
    ensures t[0].copy.gas == first
  {
    hide From, CopyOf, Copies, Aged, Followed, IsPath, Keys, Valid;
    EmptyIsPath(g);
    var s := From(g, rank, []);
    var ps := Copies(g, first, s);
    assert Explained(t, 0, ps);
    var m, k :| 0 <= m < |ps| && 0 <= k <= |ps[m].edges| && CopiedFrom(t, 0, ps[m], k);
    RootKeys(t);
    CopiesLength(g, first, s);
    CopyStart(g, first, s, m);
  }

  lemma CopyStart(g: Graph, first: NodeGas, s: seq<Path>, m: nat)
    requires g.WellFormed() && ProperPaths(g, s) && m < |s|
    ensures var c := Copies(g, first, s)[m]; c.nodes != [] && c.nodes[0].gas == first
  {
    PathGas(g, first, s[m], 0);
  }

  lemma StartIsInner(g: Graph)
    requires g.WellFormed() && ExecutionShape(g)
    ensures !g.IsLeaf(g.start)
  {
  }

  /** Finishing at once is always a path. */
  lemma SomePath(g: Graph, rank: seq<nat>) returns (w: Path)
    requires g.WellFormed() && g.RankedBy(rank) && AllFinish(g) && !g.IsLeaf(g.start)
    ensures w in From(g, rank, []) && w != []
  {
    hide From, AllFinish;
    PathsExact(g, rank);
    var f := FinishIndex(g, g.start);
    w := Extend(g, [], f);
    ExtendAdmissible(g, [], f);
    assert Complete(g, w);
  }

  lemma TreeReady(g: Graph, rank: seq<nat>, first: NodeGas, t: Tree)
    requires g.WellFormed() && g.RankedBy(rank) && ExecutionShape(g) && ProperPaths(g, From(g, rank, []))
    requires Copies(g, first, From(g, rank, [])) != [] ==> Valid(t) && Represents(t, Copies(g, first, From(g, rank, [])))
    ensures BuiltFrom(g, rank, first, t) && |t| > 0
    ensures var n := View(t, 0);
            && Distinct(n) && !n.IsLeaf()
            && Schedule.Finished(n) && Schedule.CallbacksLast(n) && FailureFree(n)
  {
    hide From, Copies, Represents, View, CallbacksLast, InnerCallsUnique, KeysTell, LeavesAreTold, AllFinish, NoFailures, KeyPath;
    var w := SomePath(g, rank);
    var s := From(g, rank, []);
    var ps := Copies(g, first, s);
    var z :| 0 <= z < |s| && s[z] == w;
    CopiesLength(g, first, s);
    CopyAt(g, first, s, z);
    ViewDistinct(t, 0);
    ViewReady(g, rank, first, t, 0);
    ViewRoot(t, 0);
    EnumeratedPathsFit(g, rank, first);
    LeafIffNotExtended(t, ps, 0);
    RootKeys(t);
    assert [] < PathKeys(ps[z]);
  }

  lemma RootKeys(t: Tree)
    requires Valid(t)
    ensures KeyPath(t, 0) == []
  {
  }
}
