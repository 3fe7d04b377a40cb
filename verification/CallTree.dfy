/**
  Merging the enumerated paths into a call tree: a path is followed as far as the tree already has
  a matching edge, and completed with copies of its nodes.
 */
module CallTree {
  import opened Options
  import opened CallGraph
  import opened Paths

  /** A tree node; pointers to tree nodes are indices, and a tree edge's `to` is one of them. */
  datatype TreeNode = TreeNode(copy: NodeCopy, parent: Option<nat>, incoming: Option<Edge>, edges: seq<Edge>)

  type Tree = seq<TreeNode>

  /** What tells two edges apart when paths are merged. */
  datatype Key = Key(call: Call, caption: string, id: nat)

  function PathKeys(p: PathCopy): (ks: seq<Key>)
    requires |p.nodes| == |p.edges| + 1
    ensures |ks| == |p.edges|
  {
    seq(|p.edges|, k requires 0 <= k < |p.edges| => KeyAt(p, k))
  }

  function KeyAt(p: PathCopy, k: nat): Key
    requires |p.nodes| == |p.edges| + 1 && k < |p.edges|
  {
    Key(p.nodes[k + 1].call, p.edges[k].caption, p.edges[k].id)
  }

  // ----- Well-formed trees -----

  predicate Linked(t: Tree) {
    forall i {:trigger t[i].parent} :: 0 < i < |t| ==>
      && t[i].parent.Some? && t[i].parent.value < i
      && t[i].incoming.Some? && t[i].incoming.value.to == i
      && t[i].incoming.value in t[t[i].parent.value].edges
  }

  predicate EdgeLinked(t: Tree, i: nat, e: Edge)
    requires i < |t|
  {
    i < e.to < |t| && t[e.to].parent == Some(i) && t[e.to].incoming == Some(e)
  }

  function EdgeKey(t: Tree, e: Edge): Key
    requires e.to < |t|
  {
    Key(t[e.to].copy.call, e.caption, e.id)
  }

  /** The edges of one node lead to its own children and have distinct keys. */
  predicate EdgesValid(t: Tree, i: nat)
    requires i < |t|
  {
    && (forall j :: 0 <= j < |t[i].edges| ==> EdgeLinked(t, i, t[i].edges[j]))
    && (forall j, k :: 0 <= j < k < |t[i].edges| ==> EdgeKey(t, t[i].edges[j]) != EdgeKey(t, t[i].edges[k]))
  }

  /** A rooted tree: one parent and one incoming edge per node, and distinguishable siblings. */
  predicate Valid(t: Tree) {
    && t != [] && t[0].parent == None && t[0].incoming == None
    && Linked(t)
    && forall i :: 0 <= i < |t| ==> EdgesValid(t, i)
  }

  /** The keys on the way from the root to a node. */
  function KeyPath(t: Tree, i: nat): seq<Key>
    requires Valid(t) && i < |t|
  {
    if i == 0 then []
    else
      assert t[i].parent.Some?;
      KeyPath(t, t[i].parent.value) + [EdgeKey(t, t[i].incoming.value)]
  }

  ghost predicate HasKeyPath(t: Tree, ks: seq<Key>)
    requires Valid(t)
  {
    exists i :: 0 <= i < |t| && KeyPath(t, i) == ks
  }

  /** No two nodes are reached by the same keys. */
  lemma {:induction false} KeyPathInjective(t: Tree, i: nat, j: nat)
    requires Valid(t) && i < |t| && j < |t| && KeyPath(t, i) == KeyPath(t, j)
    ensures i == j
    decreases i
  {
    hide EdgesValid, EdgeKey;
    assert t[i].parent == t[i].parent && t[j].parent == t[j].parent;
    if i > 0 && j > 0 {
      var p, q := t[i].parent.value, t[j].parent.value;
      assert KeyPath(t, i)[..|KeyPath(t, i)| - 1] == KeyPath(t, p);
      assert KeyPath(t, j)[..|KeyPath(t, j)| - 1] == KeyPath(t, q);
      assert KeyPath(t, i)[|KeyPath(t, i)| - 1] == KeyPath(t, j)[|KeyPath(t, j)| - 1];
      KeyPathInjective(t, p, q);
      SiblingsDiffer(t, p, t[i].incoming.value, t[j].incoming.value);
    }
  }

  lemma SiblingsDiffer(t: Tree, p: nat, e: Edge, f: Edge)
    requires p < |t| && EdgesValid(t, p) && e in t[p].edges && f in t[p].edges
    requires e.to < |t| && f.to < |t| && EdgeKey(t, e) == EdgeKey(t, f)
    ensures e == f
  {
    var j :| 0 <= j < |t[p].edges| && t[p].edges[j] == e;
    var k :| 0 <= k < |t[p].edges| && t[p].edges[k] == f;
  }

  // ----- Adding a child -----

  function AddChild(t: Tree, p: nat, copy: NodeCopy, edge: Edge): (r: Tree)
    requires p < |t|
    ensures |r| == |t| + 1
  {
    var e := edge.(to := |t|);
    t[p := t[p].(edges := t[p].edges + [e])] + [TreeNode(copy, Some(p), Some(e), [])]
  }

  predicate NoSuchEdge(t: Tree, p: nat, key: Key)
    requires p < |t|
  {
    forall j :: 0 <= j < |t[p].edges| ==> t[p].edges[j].to < |t| && EdgeKey(t, t[p].edges[j]) != key
  }

  lemma AddChildValid(t: Tree, p: nat, copy: NodeCopy, edge: Edge)
    requires Valid(t) && p < |t| && NoSuchEdge(t, p, Key(copy.call, edge.caption, edge.id))
    ensures Valid(AddChild(t, p, copy, edge))
  {
    var r := AddChild(t, p, copy, edge);
    forall i | 0 < i < |r|
      ensures r[i].parent.Some? && r[i].parent.value < i && r[i].incoming.Some? && r[i].incoming.value.to == i
           && r[i].incoming.value in r[r[i].parent.value].edges
    {
      if i < |t| {
        assert t[i].parent.Some?;
      } else {
        assert r[p].edges[|t[p].edges|] == edge.(to := |t|);
      }
    }
    forall i | 0 <= i < |r| ensures EdgesValid(r, i) {
      if i < |t| {
        assert EdgesValid(t, i);
        AddChildEdges(t, p, copy, edge, i);
      }
    }
  }

  lemma AddChildEdges(t: Tree, p: nat, copy: NodeCopy, edge: Edge, i: nat)
    requires p < |t| && i < |t| && EdgesValid(t, i)
    requires NoSuchEdge(t, p, Key(copy.call, edge.caption, edge.id))
    ensures EdgesValid(AddChild(t, p, copy, edge), i)
  {
    var r := AddChild(t, p, copy, edge);
    forall j | 0 <= j < |r[i].edges| ensures EdgeLinked(r, i, r[i].edges[j]) {
      if j < |t[i].edges| {
        assert EdgeLinked(t, i, t[i].edges[j]);
        assert r[i].edges[j] == t[i].edges[j];
      }
    }
    forall j, k | 0 <= j < k < |r[i].edges| ensures EdgeKey(r, r[i].edges[j]) != EdgeKey(r, r[i].edges[k]) {
      assert EdgeLinked(t, i, t[i].edges[j]);
      assert r[i].edges[j] == t[i].edges[j];
      assert EdgeKey(r, r[i].edges[j]) == EdgeKey(t, t[i].edges[j]);
      if k < |t[i].edges| {
        assert EdgeLinked(t, i, t[i].edges[k]);
        assert r[i].edges[k] == t[i].edges[k];
        assert EdgeKey(r, r[i].edges[k]) == EdgeKey(t, t[i].edges[k]);
      }
    }
  }

  /** A new child does not change the way to any other node. */
  lemma {:induction false} AddChildKeyPath(t: Tree, p: nat, copy: NodeCopy, edge: Edge, i: nat)
    requires Valid(t) && p < |t| && i < |t| && Valid(AddChild(t, p, copy, edge))
    ensures KeyPath(AddChild(t, p, copy, edge), i) == KeyPath(t, i)
    decreases i
  {
    hide EdgesValid;
    if i > 0 {
      assert t[i].parent.Some?;
      AddChildKeyPath(t, p, copy, edge, t[i].parent.value);
    }
  }

  lemma NewChildKeyPath(t: Tree, p: nat, copy: NodeCopy, edge: Edge)
    requires Valid(t) && p < |t| && Valid(AddChild(t, p, copy, edge))
    ensures KeyPath(AddChild(t, p, copy, edge), |t|) == KeyPath(t, p) + [Key(copy.call, edge.caption, edge.id)]
  {
    hide EdgesValid;
    AddChildKeyPath(t, p, copy, edge, p);
  }

  // ----- What a tree represents -----

  predicate WellShaped(p: PathCopy) {
    |p.nodes| == |p.edges| + 1
  }

  predicate StartsAt(p: PathCopy, start: Call) {
    WellShaped(p) && p.nodes[0].call == start
  }

  /** Node `i` was copied from position `k` of path `p`, and so was the edge into it. */
  ghost predicate CopiedFrom(t: Tree, i: nat, p: PathCopy, k: nat)
    requires Valid(t) && i < |t| && WellShaped(p)
  {
    && k <= |p.edges|
    && KeyPath(t, i) == PathKeys(p)[..k]
    && t[i].copy == p.nodes[k]
    && (k > 0 ==> t[i].incoming == Some(p.edges[k - 1].(to := i)))
  }

  ghost predicate Explained(t: Tree, i: nat, ps: seq<PathCopy>)
    requires Valid(t) && i < |t| && forall m :: 0 <= m < |ps| ==> WellShaped(ps[m])
  {
    exists m, k :: 0 <= m < |ps| && 0 <= k <= |ps[m].edges| && CopiedFrom(t, i, ps[m], k)
  }

  /** Every prefix of the path leads somewhere in the tree. */
  ghost predicate Followed(t: Tree, p: PathCopy, n: nat)
    requires Valid(t) && WellShaped(p) && n <= |p.edges|
  {
    forall k :: 0 <= k <= n ==> HasKeyPath(t, PathKeys(p)[..k])
  }

  /** Some path continues with `a` before the first path that continues with `b`. */
  ghost predicate Elder(ps: seq<PathCopy>, a: seq<Key>, b: seq<Key>)
    requires forall m :: 0 <= m < |ps| ==> WellShaped(ps[m])
  {
    exists m :: 0 <= m < |ps| && WellShaped(ps[m]) && a <= PathKeys(ps[m]) && NotBy(ps, b, m)
  }

  /** No path up to number `m` continues with `b`. */
  ghost predicate NotBy(ps: seq<PathCopy>, b: seq<Key>, m: nat)
    requires m < |ps| && forall m :: 0 <= m < |ps| ==> WellShaped(ps[m])
  {
    forall l :: 0 <= l <= m ==> WellShaped(ps[l]) && !(b <= PathKeys(ps[l]))
  }

  function ChildPath(t: Tree, i: nat, j: nat): seq<Key>
    requires Valid(t) && i < |t| && j < |t[i].edges|
  {
    assert EdgesValid(t, i);
    assert EdgeLinked(t, i, t[i].edges[j]);
    KeyPath(t, i) + [EdgeKey(t, t[i].edges[j])]
  }

  /** Siblings stand in the order in which the paths brought them. */
  ghost predicate Aged(t: Tree, ps: seq<PathCopy>)
    requires Valid(t) && forall m :: 0 <= m < |ps| ==> WellShaped(ps[m])
  {
    forall i, j, k :: 0 <= i < |t| && 0 <= j < k < |t[i].edges| ==> Elder(ps, ChildPath(t, i, j), ChildPath(t, i, k))
  }

  /** The tree holds the given paths, in their order, and nothing else. */
  ghost predicate Represents(t: Tree, ps: seq<PathCopy>)
    requires Valid(t)
  {
    && (forall m :: 0 <= m < |ps| ==> WellShaped(ps[m]))
    && (forall i :: 0 <= i < |t| ==> Explained(t, i, ps))
    && (forall m :: 0 <= m < |ps| ==> Followed(t, ps[m], |ps[m].edges|))
    && Aged(t, ps)
  }

  lemma ExplainedByMore(t: Tree, i: nat, ps: seq<PathCopy>, p: PathCopy)
    requires Valid(t) && i < |t| && (forall m :: 0 <= m < |ps| ==> WellShaped(ps[m])) && WellShaped(p)
    requires Explained(t, i, ps)
    ensures Explained(t, i, ps + [p])
  {
    hide CopiedFrom, Valid;
    var m, k :| 0 <= m < |ps| && 0 <= k <= |ps[m].edges| && CopiedFrom(t, i, ps[m], k);
    assert (ps + [p])[m] == ps[m];
  }

  lemma GrownExplained(t: Tree, q: nat, copy: NodeCopy, edge: Edge, i: nat, ps: seq<PathCopy>)
    requires Valid(t) && q < |t| && Valid(AddChild(t, q, copy, edge)) && i < |t|
    requires (forall m :: 0 <= m < |ps| ==> WellShaped(ps[m])) && Explained(t, i, ps)
    ensures Explained(AddChild(t, q, copy, edge), i, ps)
  {
    hide Valid, KeyPath;
    var r := AddChild(t, q, copy, edge);
    AddChildKeyPath(t, q, copy, edge, i);
    var m, k :| 0 <= m < |ps| && 0 <= k <= |ps[m].edges| && CopiedFrom(t, i, ps[m], k);
    assert CopiedFrom(r, i, ps[m], k);
  }

  lemma GrownHasKeyPath(t: Tree, q: nat, copy: NodeCopy, edge: Edge, ks: seq<Key>)
    requires Valid(t) && q < |t| && Valid(AddChild(t, q, copy, edge)) && HasKeyPath(t, ks)
    ensures HasKeyPath(AddChild(t, q, copy, edge), ks)
  {
    hide Valid, KeyPath;
    var i :| 0 <= i < |t| && KeyPath(t, i) == ks;
    AddChildKeyPath(t, q, copy, edge, i);
  }

  lemma GrownFollowed(t: Tree, q: nat, copy: NodeCopy, edge: Edge, p: PathCopy, n: nat)
    requires Valid(t) && q < |t| && Valid(AddChild(t, q, copy, edge)) && WellShaped(p) && n <= |p.edges|
    requires Followed(t, p, n)
    ensures Followed(AddChild(t, q, copy, edge), p, n)
  {
    hide Valid, HasKeyPath;
    forall k | 0 <= k <= n ensures HasKeyPath(AddChild(t, q, copy, edge), PathKeys(p)[..k]) {
      GrownHasKeyPath(t, q, copy, edge, PathKeys(p)[..k]);
    }
  }

  lemma PathKeysStep(p: PathCopy, k: nat)
    requires WellShaped(p) && k < |p.edges|
    ensures PathKeys(p)[..k + 1] == PathKeys(p)[..k] + [KeyAt(p, k)]
  {
  }

  /** The state of an insertion after `k` edges of `p`: `crt` is the node reached. */
  ghost predicate Inserting(t: Tree, done: seq<PathCopy>, p: PathCopy, k: nat, crt: nat) {
    && Valid(t) && crt < |t| && WellShaped(p) && k <= |p.edges|
    && (forall m :: 0 <= m < |done| ==> WellShaped(done[m]))
    && KeyPath(t, crt) == PathKeys(p)[..k]
    && (forall i :: 0 <= i < |t| ==> Explained(t, i, done + [p]))
    && (forall m :: 0 <= m < |done| ==> Followed(t, done[m], |done[m].edges|))
    && Followed(t, p, k)
    && Aged(t, done + [p])
  }

  lemma InsertBegins(t: Tree, done: seq<PathCopy>, p: PathCopy)
    requires Valid(t) && Represents(t, done) && WellShaped(p)
    ensures Inserting(t, done, p, 0, 0)
  {
    hide EdgesValid, Linked, Explained, Followed;
    forall i | 0 <= i < |t| ensures Explained(t, i, done + [p]) {
      ExplainedByMore(t, i, done, p);
    }
    RootFollowed(t, p);
    AgedByMore(t, done, p);
  }

  lemma RootFollowed(t: Tree, p: PathCopy)
    requires Valid(t) && WellShaped(p)
    ensures KeyPath(t, 0) == PathKeys(p)[..0] && Followed(t, p, 0)
  {
    assert KeyPath(t, 0) == PathKeys(p)[..0];
  }

  lemma InsertEnds(t: Tree, done: seq<PathCopy>, p: PathCopy, crt: nat)
    requires WellShaped(p) && Inserting(t, done, p, |p.edges|, crt)
    ensures Valid(t) && Represents(t, done + [p])
  {
    hide Valid, Explained, Followed;
    var ps := done + [p];
    forall m | 0 <= m < |ps| ensures Followed(t, ps[m], |ps[m].edges|) {
      if m < |done| { assert ps[m] == done[m]; }
    }
  }

  /** The next edge is already there. */
  lemma InsertFollows(t: Tree, done: seq<PathCopy>, p: PathCopy, k: nat, crt: nat, j: nat)
    requires Inserting(t, done, p, k, crt) && k < |p.edges|
    requires j < |t[crt].edges| && t[crt].edges[j].to < |t| && EdgeKey(t, t[crt].edges[j]) == KeyAt(p, k)
    ensures Inserting(t, done, p, k + 1, t[crt].edges[j].to)
  {
    hide Explained, Followed, EdgeKey;
    var e := t[crt].edges[j];
    assert EdgesValid(t, crt);
    assert EdgeLinked(t, crt, e);
    PathKeysStep(p, k);
    assert KeyPath(t, e.to) == PathKeys(p)[..k + 1];
    FollowedOneMore(t, p, k, e.to);
  }

  lemma FollowedOneMore(t: Tree, p: PathCopy, k: nat, i: nat)
    requires Valid(t) && WellShaped(p) && k < |p.edges| && Followed(t, p, k)
    requires i < |t| && KeyPath(t, i) == PathKeys(p)[..k + 1]
    ensures Followed(t, p, k + 1)
  {
    hide Valid, KeyPath;
    assert HasKeyPath(t, PathKeys(p)[..k + 1]);
  }

  /** The next edge is missing and is added. */
  lemma InsertGrows(t: Tree, done: seq<PathCopy>, p: PathCopy, k: nat, crt: nat)
    requires Inserting(t, done, p, k, crt) && k < |p.edges|
    requires NoSuchEdge(t, crt, KeyAt(p, k))
    ensures Inserting(AddChild(t, crt, p.nodes[k + 1], p.edges[k]), done, p, k + 1, |t|)
  {
    hide Valid, Explained, Followed, KeyPath;
    var copy, edge := p.nodes[k + 1], p.edges[k];
    var r := AddChild(t, crt, copy, edge);
    AddChildValid(t, crt, copy, edge);
    NewChildKeyPath(t, crt, copy, edge);
    PathKeysStep(p, k);
    assert KeyPath(r, |t|) == PathKeys(p)[..k + 1];
    forall i | 0 <= i < |r| ensures Explained(r, i, done + [p]) {
      if i < |t| {
        GrownExplained(t, crt, copy, edge, i, done + [p]);
      } else {
        NewNodeExplained(t, r, done, p, k, crt);
      }
    }
    forall m | 0 <= m < |done| ensures Followed(r, done[m], |done[m].edges|) {
      GrownFollowed(t, crt, copy, edge, done[m], |done[m].edges|);
    }
    GrownFollowed(t, crt, copy, edge, p, k);
    FollowedOneMore(r, p, k, |t|);
    GrownAged(t, done, p, k, crt);
  }

  lemma ElderByMore(ps: seq<PathCopy>, p: PathCopy, a: seq<Key>, b: seq<Key>)
    requires (forall m :: 0 <= m < |ps| ==> WellShaped(ps[m])) && WellShaped(p) && Elder(ps, a, b)
    ensures Elder(ps + [p], a, b)
  {
    var m :| 0 <= m < |ps| && WellShaped(ps[m]) && a <= PathKeys(ps[m]) && NotBy(ps, b, m);
    assert (ps + [p])[m] == ps[m];
    assert NotBy(ps + [p], b, m);
  }

  lemma AgedByMore(t: Tree, ps: seq<PathCopy>, p: PathCopy)
    requires Valid(t) && (forall m :: 0 <= m < |ps| ==> WellShaped(ps[m])) && WellShaped(p) && Aged(t, ps)
    ensures Aged(t, ps + [p])
  {
    hide Valid, Elder, ChildPath;
    forall i, j, k | 0 <= i < |t| && 0 <= j < k < |t[i].edges|
      ensures Elder(ps + [p], ChildPath(t, i, j), ChildPath(t, i, k))
    {
      ElderByMore(ps, p, ChildPath(t, i, j), ChildPath(t, i, k));
    }
  }

  /** A key path below a node is one of its edges. */
  lemma ExtensionIsEdge(t: Tree, i: nat, key: Key)
    requires Valid(t) && i < |t| && HasKeyPath(t, KeyPath(t, i) + [key])
    ensures !NoSuchEdge(t, i, key)
  {
    hide EdgesValid, EdgeKey;
    var ks := KeyPath(t, i) + [key];
    var j :| 0 <= j < |t| && KeyPath(t, j) == ks;
    assert j > 0;
    assert t[j].parent.Some?;
    var q := t[j].parent.value;
    assert ks[..|ks| - 1] == KeyPath(t, i) == KeyPath(t, q);
    KeyPathInjective(t, q, i);
    assert ks[|ks| - 1] == EdgeKey(t, t[j].incoming.value);
  }

  /** A sibling of a missing edge was brought by an earlier path. */
  lemma NewestChild(t: Tree, done: seq<PathCopy>, p: PathCopy, k: nat, crt: nat, j: nat)
    requires Inserting(t, done, p, k, crt) && k < |p.edges| && NoSuchEdge(t, crt, KeyAt(p, k))
    requires j < |t[crt].edges|
    ensures Elder(done + [p], ChildPath(t, crt, j), KeyPath(t, crt) + [KeyAt(p, k)])
  {
    hide Followed, Explained, Valid, KeyPath, Aged, EdgeKey, ChildPath;
    var ps := done + [p];
    var b := KeyPath(t, crt) + [KeyAt(p, k)];
    var a := ChildPath(t, crt, j);
    var m := ChildBrought(t, ps, crt, j, KeyAt(p, k));
    PathKeysStep(p, k);
    assert b <= PathKeys(p);
    DifferentKeys(PathKeys(p), PathKeys(ps[m]), a, b);
    assert m < |done|;
    forall l | 0 <= l <= m ensures WellShaped(ps[l]) && !(b <= PathKeys(ps[l])) {
      assert ps[l] == done[l];
      NotFollowedYet(t, crt, KeyAt(p, k), done[l]);
    }
    assert NotBy(ps, b, m);
  }

  /** Some path brought the edge; its key differs from that of a missing one. */
  lemma ChildBrought(t: Tree, ps: seq<PathCopy>, crt: nat, j: nat, key: Key) returns (m: nat)
    requires Valid(t) && (forall l :: 0 <= l < |ps| ==> WellShaped(ps[l])) && crt < |t| && j < |t[crt].edges|
    requires (forall i :: 0 <= i < |t| ==> Explained(t, i, ps)) && NoSuchEdge(t, crt, key)
    ensures m < |ps| && WellShaped(ps[m]) && ChildPath(t, crt, j) <= PathKeys(ps[m])
    ensures |ChildPath(t, crt, j)| == |KeyPath(t, crt)| + 1 && ChildPath(t, crt, j) != KeyPath(t, crt) + [key]
  {
    assert EdgesValid(t, crt);
    var e := t[crt].edges[j];
    assert EdgeLinked(t, crt, e);
    var a := ChildPath(t, crt, j);
    assert KeyPath(t, e.to) == a;
    assert a[|a| - 1] != key;
    assert Explained(t, e.to, ps);
    var x, n :| 0 <= x < |ps| && 0 <= n <= |ps[x].edges| && CopiedFrom(t, e.to, ps[x], n);
    m := x;
  }

  lemma DifferentKeys(s: seq<Key>, r: seq<Key>, a: seq<Key>, b: seq<Key>)
    requires b <= s && a <= r && |a| == |b| && a != b
    ensures r != s
  {
  }

  lemma PrefixFollowed(t: Tree, q: PathCopy, b: seq<Key>)
    requires Valid(t) && WellShaped(q) && Followed(t, q, |q.edges|) && b <= PathKeys(q)
    ensures HasKeyPath(t, b)
  {
    hide Valid, HasKeyPath;
    assert PathKeys(q)[..|b|] == b;
  }

  lemma NotFollowedYet(t: Tree, crt: nat, key: Key, q: PathCopy)
    requires Valid(t) && crt < |t| && NoSuchEdge(t, crt, key) && WellShaped(q) && Followed(t, q, |q.edges|)
    ensures !(KeyPath(t, crt) + [key] <= PathKeys(q))
  {
    hide Valid, KeyPath, NoSuchEdge;
    var b := KeyPath(t, crt) + [key];
    if b <= PathKeys(q) {
      PrefixFollowed(t, q, b);
      ExtensionIsEdge(t, crt, key);
    }
  }

  lemma GrownAged(t: Tree, done: seq<PathCopy>, p: PathCopy, k: nat, crt: nat)
    requires Inserting(t, done, p, k, crt) && k < |p.edges| && NoSuchEdge(t, crt, KeyAt(p, k))
    requires Valid(AddChild(t, crt, p.nodes[k + 1], p.edges[k]))
    ensures Aged(AddChild(t, crt, p.nodes[k + 1], p.edges[k]), done + [p])
  {
    hide Valid, Explained, Followed, Elder, KeyPath, ChildPath, NoSuchEdge;
    var r := AddChild(t, crt, p.nodes[k + 1], p.edges[k]);
    forall i, a, b | 0 <= i < |r| && 0 <= a < b < |r[i].edges|
      ensures Elder(done + [p], ChildPath(r, i, a), ChildPath(r, i, b))
    {
      assert i < |t|;
      GrownChildPath(t, crt, p.nodes[k + 1], p.edges[k], i, a);
      GrownChildPath(t, crt, p.nodes[k + 1], p.edges[k], i, b);
      if b == |t[i].edges| {
        NewestChild(t, done, p, k, crt, a);
      }
    }
  }

  lemma GrownChildPath(t: Tree, q: nat, copy: NodeCopy, edge: Edge, i: nat, j: nat)
    requires Valid(t) && q < |t| && i < |t| && Valid(AddChild(t, q, copy, edge))
    requires j < |AddChild(t, q, copy, edge)[i].edges|
    ensures ChildPath(AddChild(t, q, copy, edge), i, j) ==
            if j < |t[i].edges| then ChildPath(t, i, j) else KeyPath(t, q) + [Key(copy.call, edge.caption, edge.id)]
  {
    hide Linked;
    AddChildKeyPath(t, q, copy, edge, i);
    assert EdgesValid(t, i);
    if j < |t[i].edges| {
      assert EdgeLinked(t, i, t[i].edges[j]);
    }
  }

  lemma NewNodeExplained(t: Tree, r: Tree, done: seq<PathCopy>, p: PathCopy, k: nat, crt: nat)
    requires WellShaped(p) && k < |p.edges| && crt < |t| && Valid(r)
    requires forall m :: 0 <= m < |done| ==> WellShaped(done[m])
    requires r == AddChild(t, crt, p.nodes[k + 1], p.edges[k])
    requires KeyPath(r, |t|) == PathKeys(p)[..k + 1]
    ensures Explained(r, |t|, done + [p])
  {
    hide Valid, KeyPath;
    assert (done + [p])[|done|] == p;
    assert CopiedFrom(r, |t|, (done + [p])[|done|], k + 1);
  }

  /** A tree that consists of the root of the first path. */
  lemma FirstBegins(p: PathCopy)
    requires WellShaped(p)
    ensures Inserting([TreeNode(p.nodes[0], None, None, [])], [], p, 0, 0)
  {
    var t := [TreeNode(p.nodes[0], None, None, [])];
    assert EdgesValid(t, 0);
    assert Valid(t);
    RootFollowed(t, p);
    assert ([] + [p])[0] == p;
    assert CopiedFrom(t, 0, ([] + [p])[0], 0);
  }

  lemma RootKept(t: Tree, p: nat, copy: NodeCopy, edge: Edge)
    requires p < |t|
    ensures AddChild(t, p, copy, edge)[0].copy == t[0].copy
  {
  }

  class TreeGraph {
    var t: Tree

    constructor ()
      ensures t == []
    {
      t := [];
    }

    /** `FindNode`: the first node with the given payload. */
    method FindNode(call: Call) returns (r: Option<nat>)
      ensures r.None? ==> forall i :: 0 <= i < |t| ==> t[i].copy.call != call
      ensures r.Some? ==> r.value < |t| && t[r.value].copy.call == call
      ensures r.Some? ==> forall i :: 0 <= i < r.value ==> t[i].copy.call != call
    {
      for i := 0 to |t|
        invariant forall k :: 0 <= k < i ==> t[k].copy.call != call
      {
        if t[i].copy.call == call { return Some(i); }
      }
      return None;
    }

    /** The loop over the edges of the current node: the first one with the wanted key. */
    method FindChild(crt: nat, key: Key) returns (r: Option<nat>)
      requires Valid(t) && crt < |t|
      ensures r.None? ==> NoSuchEdge(t, crt, key)
      ensures r.Some? ==> r.value < |t[crt].edges| && t[crt].edges[r.value].to < |t|
      ensures r.Some? ==> EdgeKey(t, t[crt].edges[r.value]) == key
    {
      assert EdgesValid(t, crt);
      for j := 0 to |t[crt].edges|
        invariant forall k :: 0 <= k < j ==> t[crt].edges[k].to < |t| && EdgeKey(t, t[crt].edges[k]) != key
      {
        assert EdgeLinked(t, crt, t[crt].edges[j]);
        if EdgeKey(t, t[crt].edges[j]) == key { return Some(j); }
      }
      return None;
    }

    /** The inner loop of `pathsTreeFromDag`: one path is followed and completed. */
    method InsertPath(p: PathCopy, root: nat, ghost done: seq<PathCopy>)
      requires Inserting(t, done, p, 0, root)
      modifies this
      ensures Valid(t) && Represents(t, done + [p]) && t[0].copy == old(t)[0].copy
    {
      hide Valid, KeyPath, Explained, Followed, Represents, AddChild;
      ghost var rootCopy := t[0].copy;
      var crt: nat := root;
      for k := 0 to |p.edges|
        invariant Inserting(t, done, p, k, crt)
        invariant t != [] && t[0].copy == rootCopy
      {
        var child := FindChild(crt, KeyAt(p, k));
        if child.Some? {
          InsertFollows(t, done, p, k, crt, child.value);
          crt := t[crt].edges[child.value].to;
        } else {
          InsertGrows(t, done, p, k, crt);
          RootKept(t, crt, p.nodes[k + 1], p.edges[k]);
          var parent := crt;
          crt := |t|;
          t := AddChild(t, parent, p.nodes[k + 1], p.edges[k]);
        }
      }
      InsertEnds(t, done, p, crt);
    }

    /** `pathsTreeFromDag` on the enumerated paths, which all start at the same node. */
    method FromPaths(paths: seq<PathCopy>, ghost start: Call)
      requires t == [] && forall m :: 0 <= m < |paths| ==> StartsAt(paths[m], start)
      modifies this
      ensures paths == [] ==> t == []
      ensures paths != [] ==> Valid(t) && Represents(t, paths)
    {
      hide Represents;
      for m := 0 to |paths|
        invariant m == 0 ==> t == []
        invariant m > 0 ==> Valid(t) && Represents(t, paths[..m]) && t[0].copy.call == start
      {
        var p := paths[m];
        assert StartsAt(paths[0], start) && StartsAt(p, start);
        var root := FindNode(p.nodes[0].call);
        if root.None? {
          t := [TreeNode(p.nodes[0], None, None, [])];
          root := Some(0);
          FirstBegins(p);
        } else {
          InsertBegins(t, paths[..m], p);
        }
        InsertPath(p, root.value, paths[..m]);
        assert paths[..m + 1] == paths[..m] + [p];
      }
      assert paths[..|paths|] == paths;
    }
  }

  // ----- The tree has the paths' key sequences -----

  /** The ways from the root are exactly the prefixes of the paths. */
  lemma TreeIsPrefixClosure(t: Tree, ps: seq<PathCopy>, ks: seq<Key>)
    requires Valid(t) && Represents(t, ps)
    ensures HasKeyPath(t, ks) <==> exists m :: 0 <= m < |ps| && ks <= PathKeys(ps[m])
  {
    hide Valid, KeyPath;
    if HasKeyPath(t, ks) {
      var i :| 0 <= i < |t| && KeyPath(t, i) == ks;
      assert Explained(t, i, ps);
      var m, k :| 0 <= m < |ps| && 0 <= k <= |ps[m].edges| && CopiedFrom(t, i, ps[m], k);
      assert ks <= PathKeys(ps[m]);
    }
    forall m | 0 <= m < |ps| && ks <= PathKeys(ps[m]) ensures HasKeyPath(t, ks) {
      assert Followed(t, ps[m], |ps[m].edges|);
      assert PathKeys(ps[m])[..|ks|] == ks;
    }
  }

  /** A node is a leaf exactly when no longer way passes through it. */
  lemma LeafIsMaximal(t: Tree, i: nat)
    requires Valid(t) && i < |t|
    ensures t[i].edges == [] <==> forall key :: !HasKeyPath(t, KeyPath(t, i) + [key])
  {
    hide Valid, KeyPath;
    if t[i].edges != [] {
      var key := ChildKeyPath(t, i, 0);
    } else {
      forall key ensures !HasKeyPath(t, KeyPath(t, i) + [key]) {
        LeafHasNoExtension(t, i, key);
      }
    }
  }

  lemma ChildKeyPath(t: Tree, i: nat, j: nat) returns (key: Key)
    requires Valid(t) && i < |t| && j < |t[i].edges|
    ensures HasKeyPath(t, KeyPath(t, i) + [key])
  {
    hide EdgeKey;
    assert EdgesValid(t, i);
    var e := t[i].edges[j];
    assert EdgeLinked(t, i, e);
    key := EdgeKey(t, e);
    assert KeyPath(t, e.to) == KeyPath(t, i) + [key];
  }

  lemma LeafHasNoExtension(t: Tree, i: nat, key: Key)
    requires Valid(t) && i < |t| && t[i].edges == []
    ensures !HasKeyPath(t, KeyPath(t, i) + [key])
  {
    hide EdgeKey, EdgesValid;
    forall j | 0 <= j < |t| ensures KeyPath(t, j) != KeyPath(t, i) + [key] {
      if j > 0 {
        assert t[j].parent.Some?;
        var q := t[j].parent.value;
        assert KeyPath(t, j)[..|KeyPath(t, j)| - 1] == KeyPath(t, q);
        if KeyPath(t, j) == KeyPath(t, i) + [key] {
          assert (KeyPath(t, i) + [key])[..|KeyPath(t, i)|] == KeyPath(t, i);
          KeyPathInjective(t, q, i);
          assert false;
        }
      }
    }
  }

  ghost predicate IsLeafPath(t: Tree, ks: seq<Key>)
    requires Valid(t)
  {
    exists i :: 0 <= i < |t| && KeyPath(t, i) == ks && t[i].edges == []
  }

  ghost predicate AllWellShaped(ps: seq<PathCopy>) {
    forall m :: 0 <= m < |ps| ==> WellShaped(ps[m])
  }

  ghost predicate IsPathOf(ps: seq<PathCopy>, ks: seq<Key>)
    requires AllWellShaped(ps)
  {
    exists m :: 0 <= m < |ps| && PathKeys(ps[m]) == ks
  }

  ghost predicate ExtendedBy(ps: seq<PathCopy>, ks: seq<Key>)
    requires AllWellShaped(ps)
  {
    exists m :: 0 <= m < |ps| && ks < PathKeys(ps[m])
  }

  lemma ExtensionHasNextKey(ps: seq<PathCopy>, ks: seq<Key>)
    requires AllWellShaped(ps)
    ensures ExtendedBy(ps, ks) <==> exists key, m :: 0 <= m < |ps| && ks + [key] <= PathKeys(ps[m])
  {
    forall m | 0 <= m < |ps| && ks < PathKeys(ps[m])
      ensures exists key :: ks + [key] <= PathKeys(ps[m])
    {
      assert ks + [PathKeys(ps[m])[|ks|]] <= PathKeys(ps[m]);
    }
    forall key, m | 0 <= m < |ps| && ks + [key] <= PathKeys(ps[m]) ensures ks < PathKeys(ps[m]) {
      assert PathKeys(ps[m])[..|ks|] == (ks + [key])[..|ks|] == ks;
    }
  }

  /** A node is a leaf exactly when no path properly extends the way to it. */
  lemma LeafIffNotExtended(t: Tree, ps: seq<PathCopy>, i: nat)
    requires Valid(t) && Represents(t, ps) && AllWellShaped(ps) && i < |t|
    ensures t[i].edges == [] <==> !ExtendedBy(ps, KeyPath(t, i))
  {
    hide Valid, KeyPath, Represents, ExtendedBy, HasKeyPath;
    LeafIsMaximal(t, i);
    ExtensionHasNextKey(ps, KeyPath(t, i));
    forall key
      ensures HasKeyPath(t, KeyPath(t, i) + [key]) <==>
        exists m :: 0 <= m < |ps| && KeyPath(t, i) + [key] <= PathKeys(ps[m])
    {
      TreeIsPrefixClosure(t, ps, KeyPath(t, i) + [key]);
    }
  }

  /** The root-to-leaf key sequences are those of the paths that no other path properly extends. */
  lemma LeavesAreMaximalPaths(t: Tree, ps: seq<PathCopy>, ks: seq<Key>)
    requires Valid(t) && Represents(t, ps) && AllWellShaped(ps)
    ensures IsLeafPath(t, ks) <==> IsPathOf(ps, ks) && !ExtendedBy(ps, ks)
  {
    hide Valid, KeyPath, Represents;
    TreeIsPrefixClosure(t, ps, ks);
    if HasKeyPath(t, ks) {
      var i :| 0 <= i < |t| && KeyPath(t, i) == ks;
      LeafIffNotExtended(t, ps, i);
      if IsLeafPath(t, ks) {
        var j :| 0 <= j < |t| && KeyPath(t, j) == ks && t[j].edges == [];
        KeyPathInjective(t, i, j);
      }
    }
  }

  /** No path properly extends another. */
  ghost predicate PrefixFree(ps: seq<PathCopy>)
    requires AllWellShaped(ps)
  {
    forall m :: 0 <= m < |ps| ==> !ExtendedBy(ps, PathKeys(ps[m]))
  }

  /** For such paths the merge preserves meaning: root-to-leaf sequences and paths are the same. */
  lemma LeavesArePaths(t: Tree, ps: seq<PathCopy>, ks: seq<Key>)
    requires Valid(t) && Represents(t, ps) && AllWellShaped(ps) && PrefixFree(ps)
    ensures IsLeafPath(t, ks) <==> IsPathOf(ps, ks)
  {
    hide Valid, Represents, ExtendedBy;
    LeavesAreMaximalPaths(t, ps, ks);
  }

  // ----- The tree of an execution graph -----

  /** A leaf that can be entered never carries the payload of an inner node, as a finish node never does. */
  ghost predicate LeavesAreTold(g: Graph)
    requires g.WellFormed()
  {
    forall w, i :: 0 <= w < |g.adjacent| && 0 <= i < |g.adjacent[w]| ==> LeafIsTold(g, g.adjacent[w][i].to)
  }

  ghost predicate LeafIsTold(g: Graph, u: nat)
    requires g.WellFormed() && u < |g.calls|
  {
    g.IsLeaf(u) ==> forall v :: 0 <= v < |g.calls| && !g.IsLeaf(v) ==> g.calls[u] != g.calls[v]
  }

  lemma {:induction false} InnerNode(g: Graph, p: Path, k: nat)
    requires g.WellFormed() && IsPath(g, p) && k < |p|
    ensures !g.IsLeaf(NodesOn(g, p)[k])
  {
    var front := p[..|p| - 1];
    if k < |front| {
      InnerNode(g, front, k);
    } else {
      assert NodesOn(g, p)[k] == NodesOn(g, front)[k] == LastNode(g, front);
    }
  }

  lemma CopyShape(g: Graph, first: NodeGas, p: Path)
    requires g.WellFormed() && IsPath(g, p) && p != []
    ensures var c := CopyOf(g, first, p);
            && StartsAt(c, g.calls[g.start]) && |c.edges| == |p|
            && forall k :: 0 <= k < |p| ==> PathKeys(c)[k].call == g.calls[NodesOn(g, p)[k + 1]]
  {
    FirstOnPath(g, p);
  }

  lemma {:induction false} FirstOnPath(g: Graph, p: Path)
    requires g.WellFormed() && IsPath(g, p)
    ensures NodesOn(g, p)[0] == g.start
  {
    if p != [] {
      FirstOnPath(g, p[..|p| - 1]);
    }
  }

  lemma NotProperPrefix(g: Graph, first: NodeGas, p: Path, q: Path)
    requires g.WellFormed() && LeavesAreTold(g) && p != [] && q != [] && IsPath(g, p) && IsPath(g, q)
    requires g.IsLeaf(LastNode(g, p))
    ensures var a, b := CopyOf(g, first, p), CopyOf(g, first, q);
            WellShaped(a) && WellShaped(b) && !(PathKeys(a) < PathKeys(b))
  {
    hide CopyOf, IsPath, LeavesAreTold;
    CopyShape(g, first, p);
    CopyShape(g, first, q);
    var a, b := CopyOf(g, first, p), CopyOf(g, first, q);
    if |p| < |q| {
      InnerNode(g, q, |p|);
      LastIsTold(g, p);
      var n := |p| - 1;
      assert PathKeys(a)[n].call == g.calls[LastNode(g, p)];
      assert PathKeys(b)[n].call == g.calls[NodesOn(g, q)[n + 1]];
    }
  }

  lemma LastIsTold(g: Graph, p: Path)
    requires g.WellFormed() && LeavesAreTold(g) && p != [] && IsPath(g, p)
    ensures LeafIsTold(g, LastNode(g, p))
  {
    hide LeafIsTold;
    var e := p[|p| - 1];
    assert g.adjacent[e.from][e.index].to == LastNode(g, p);
  }

  /** The enumerated paths are well shaped, start together, and none is a prefix of another. */
  lemma EnumeratedPathsFit(g: Graph, rank: seq<nat>, first: NodeGas)
    requires g.WellFormed() && g.RankedBy(rank) && !g.IsLeaf(g.start)
    ensures ProperPaths(g, From(g, rank, []))
    ensures var ps := Copies(g, first, From(g, rank, []));
            && (forall m :: 0 <= m < |ps| ==> StartsAt(ps[m], g.calls[g.start]))
            && AllWellShaped(ps)
            && (LeavesAreTold(g) ==> PrefixFree(ps))
  {
    hide From, CopyOf, Complete, LeavesAreTold;
    FromArePaths(g, rank, []);
    var s := From(g, rank, []);
    var ps := Copies(g, first, s);
    PathsExact(g, rank);
    forall m | 0 <= m < |ps| ensures StartsAt(ps[m], g.calls[g.start]) {
      CopyShape(g, first, s[m]);
    }
    if LeavesAreTold(g) {
      forall m, n | 0 <= m < |ps| && 0 <= n < |ps| ensures !(PathKeys(ps[m]) < PathKeys(ps[n])) {
        assert s[m] in s;
        EndsInLeaf(g, s[m]);
        NotProperPrefix(g, first, s[m], s[n]);
      }
    }
  }

  lemma EndsInLeaf(g: Graph, p: Path)
    requires g.WellFormed() && Complete(g, p)
    ensures g.IsLeaf(LastNode(g, p))
  {
  }

  /** `pathsTreeFromDag`: enumerate, then merge. */
  method PathsTreeFromDag(graph: ExecutionGraph, ghost rank: seq<nat>) returns (tree: TreeGraph)
    requires graph.g.WellFormed() && graph.g.RankedBy(rank) && !graph.g.IsLeaf(graph.g.start)
    requires |graph.gas| == |graph.g.calls|
    modifies graph
    ensures fresh(tree) && ProperPaths(graph.g, From(graph.g, rank, []))
    ensures var ps := Copies(graph.g, old(graph.gas)[graph.g.start], From(graph.g, rank, []));
            && (ps == [] ==> tree.t == [])
            && (ps != [] ==> Valid(tree.t) && Represents(tree.t, ps))
            && (ps != [] && LeavesAreTold(graph.g) ==> forall ks :: IsLeafPath(tree.t, ks) <==> IsPathOf(ps, ks))
  {
    hide From, CopyOf, Valid, Represents, LeavesAreTold;
    ghost var g, first := graph.g, graph.gas[graph.g.start];
    EnumeratedPathsFit(g, rank, first);
    graph.GetPaths(rank);
    tree := new TreeGraph();
    tree.FromPaths(graph.paths, g.calls[g.start]);
    ghost var ps := Copies(g, first, From(g, rank, []));
    if ps != [] && LeavesAreTold(g) {
      forall ks ensures IsLeafPath(tree.t, ks) <==> IsPathOf(ps, ks) {
        LeavesArePaths(tree.t, ps, ks);
      }
    }
  }
}
