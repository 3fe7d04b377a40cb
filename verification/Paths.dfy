/**
  Enumeration of the admissible paths of an acyclic execution graph. The enumeration overwrites the
  gas fields of shared nodes as it walks; each emitted path must nevertheless carry its own.
 */
module Paths {
  import opened Options
  import opened CallGraph

  // ----- Admissible paths -----

  /** Whether a path that arrived over `last` may continue over `e` into a node running `target`. */
  predicate Allowed(last: Option<Edge>, e: Edge, target: string) {
    last.None? ||
    (var l := last.value;
     && !(l.typ == Sync && e.typ.IsCallback())
     && !(l.typ == Async && e.typ == CallbackCrossShard)
     && !(l.typ == AsyncCrossShard && e.typ == Callback)
     && !(OwnCallback(l, e) && l.callback != target))
  }

  predicate OwnCallback(l: Edge, e: Edge) {
    (l.typ == Async && e.typ == Callback) || (l.typ == AsyncCrossShard && e.typ == CallbackCrossShard)
  }

  predicate MayFollow(g: Graph, p: Path, i: nat)
    requires g.WellFormed() && IsPath(g, p) && i < |g.adjacent[LastNode(g, p)]|
  {
    var e := g.adjacent[LastNode(g, p)][i];
    Allowed(LastEdge(g, p), e, g.calls[e.to].functionName)
  }

  predicate Admissible(g: Graph, p: Path)
    requires g.WellFormed()
  {
    IsPath(g, p) && (p == [] || (Admissible(g, p[..|p| - 1]) && MayFollow(g, p[..|p| - 1], p[|p| - 1].index)))
  }

  /** A path that cannot be continued because it ends in a leaf. */
  predicate Complete(g: Graph, p: Path)
    requires g.WellFormed()
  {
    Admissible(g, p) && g.IsLeaf(LastNode(g, p))
  }

  function Extend(g: Graph, p: Path, i: nat): (q: Path)
    requires g.WellFormed() && IsPath(g, p) && i < |g.adjacent[LastNode(g, p)]|
    ensures IsPath(g, q) && LastNode(g, q) == g.adjacent[LastNode(g, p)][i].to
  {
    var e := EdgeRef(LastNode(g, p), i);
    var q := p + [e];
    assert q[..|p|] == p;
    q
  }

  /** All complete continuations of `p`, depth first in adjacency order. */
  function From(g: Graph, rank: seq<nat>, p: Path): seq<Path>
    requires g.WellFormed() && g.RankedBy(rank) && IsPath(g, p)
    decreases rank[LastNode(g, p)], 1, 0
  {
    if g.IsLeaf(LastNode(g, p)) then [p] else FromEdge(g, rank, p, 0)
  }

  /** The continuations over edges `i` and later of the last node. */
  function FromEdge(g: Graph, rank: seq<nat>, p: Path, i: nat): seq<Path>
    requires g.WellFormed() && g.RankedBy(rank) && IsPath(g, p) && i <= |g.adjacent[LastNode(g, p)]|
    decreases rank[LastNode(g, p)], 0, |g.adjacent[LastNode(g, p)]| - i
  {
    if i == |g.adjacent[LastNode(g, p)]| then []
    else (if MayFollow(g, p, i) then From(g, rank, Extend(g, p, i)) else []) + FromEdge(g, rank, p, i + 1)
  }

  predicate IsPrefix(p: Path, q: Path) {
    |p| <= |q| && q[..|p|] == p
  }

  // ----- Sound, complete, without repetition -----

  lemma ExtendAdmissible(g: Graph, p: Path, i: nat)
    requires g.WellFormed() && Admissible(g, p) && i < |g.adjacent[LastNode(g, p)]| && MayFollow(g, p, i)
    ensures Admissible(g, Extend(g, p, i))
  {
    assert Extend(g, p, i)[..|p|] == p;
  }

  /** Everything enumerated is a complete admissible path that continues `p`. */
  lemma {:induction false} FromSound(g: Graph, rank: seq<nat>, p: Path)
    requires g.WellFormed() && g.RankedBy(rank) && Admissible(g, p)
    ensures forall q :: q in From(g, rank, p) ==> IsPrefix(p, q) && Complete(g, q)
    decreases rank[LastNode(g, p)], 1, 0
  {
    if !g.IsLeaf(LastNode(g, p)) {
      FromEdgeSound(g, rank, p, 0);
    }
  }

  lemma PrefixOfPrefix(p: Path, r: Path, q: Path)
    requires |r| == |p| + 1 && r[..|p|] == p && IsPrefix(r, q)
    ensures IsPrefix(p, q) && |q| > |p| && q[|p|] == r[|p|]
  {
    assert q[..|r|][|p|] == r[|p|];
    assert q[..|p|] == q[..|r|][..|p|];
  }

  lemma {:induction false} FromEdgeSound(g: Graph, rank: seq<nat>, p: Path, i: nat)
    requires g.WellFormed() && g.RankedBy(rank) && Admissible(g, p) && i <= |g.adjacent[LastNode(g, p)]|
    ensures forall q: Path :: q in FromEdge(g, rank, p, i) ==>
      IsPrefix(p, q) && Complete(g, q) && |q| > |p| && q[|p|].index >= i
    decreases rank[LastNode(g, p)], 0, |g.adjacent[LastNode(g, p)]| - i
  {
    hide From, Complete, MayFollow, IsPrefix;
    if i < |g.adjacent[LastNode(g, p)]| {
      FromEdgeSound(g, rank, p, i + 1);
      if MayFollow(g, p, i) {
        var r := Extend(g, p, i);
        ExtendAdmissible(g, p, i);
        FromSound(g, rank, r);
        forall q: Path | q in From(g, rank, r) ensures IsPrefix(p, q) && |q| > |p| && q[|p|].index == i {
          PrefixOfPrefix(p, r, q);
        }
      }
    }
  }

  /** Every complete admissible path that continues `p` is enumerated. */
  lemma {:induction false} FromComplete(g: Graph, rank: seq<nat>, p: Path, q: Path)
    requires g.WellFormed() && g.RankedBy(rank) && Admissible(g, p)
    requires IsPrefix(p, q) && Complete(g, q)
    ensures q in From(g, rank, p)
    decreases rank[LastNode(g, p)], |q| - |p|
  {
    if |q| == |p| {
      assert q == p;
    } else {
      var next := NextChoice(g, p, q);
      FromComplete(g, rank, Extend(g, p, next), q);
      InFromEdge(g, rank, p, 0, next, q);
    }
  }

  lemma {:induction false} PrefixAdmissible(g: Graph, q: Path, n: nat)
    requires g.WellFormed() && Admissible(g, q) && n <= |q|
    ensures Admissible(g, q[..n])
    decreases |q|
  {
    if n < |q| {
      PrefixAdmissible(g, q[..|q| - 1], n);
      assert q[..|q| - 1][..n] == q[..n];
    } else {
      assert q[..n] == q;
    }
  }

  /** The edge over which `q` leaves its prefix `p`. */
  lemma NextChoice(g: Graph, p: Path, q: Path) returns (i: nat)
    requires g.WellFormed() && Admissible(g, p) && Admissible(g, q) && IsPrefix(p, q) && |p| < |q|
    ensures i < |g.adjacent[LastNode(g, p)]| && MayFollow(g, p, i)
    ensures IsPrefix(Extend(g, p, i), q) && Admissible(g, Extend(g, p, i))
  {
    var r := q[..|p| + 1];
    PrefixAdmissible(g, q, |p| + 1);
    assert r[..|p|] == p;
    i := r[|p|].index;
    assert r == Extend(g, p, i);
  }

  lemma {:induction false} InFromEdge(g: Graph, rank: seq<nat>, p: Path, i: nat, k: nat, q: Path)
    requires g.WellFormed() && g.RankedBy(rank) && Admissible(g, p)
    requires i <= k < |g.adjacent[LastNode(g, p)]| && MayFollow(g, p, k)
    requires q in From(g, rank, Extend(g, p, k))
    ensures q in FromEdge(g, rank, p, i)
    decreases k - i
  {
    hide From, MayFollow;
    if i < k {
      InFromEdge(g, rank, p, i + 1, k, q);
    }
  }

  ghost predicate NoRepeats(s: seq<Path>) {
    forall i, j :: 0 <= i < j < |s| ==> s[i] != s[j]
  }

  /** Where the two paths part, the first one takes the earlier edge. */
  ghost predicate Before(p: Path, q: Path) {
    exists k: nat :: PartAt(p, q, k)
  }

  predicate PartAt(p: Path, q: Path, k: nat) {
    k < |p| && k < |q| && p[..k] == q[..k] && p[k].index < q[k].index
  }

  ghost predicate DepthFirst(s: seq<Path>) {
    forall i, j :: 0 <= i < j < |s| ==> Before(s[i], s[j])
  }

  lemma DepthFirstUnique(s: seq<Path>)
    requires DepthFirst(s)
    ensures NoRepeats(s)
  {
    forall i, j | 0 <= i < j < |s| ensures s[i] != s[j] {
      assert Before(s[i], s[j]);
    }
  }

  lemma {:induction false} FromDepthFirst(g: Graph, rank: seq<nat>, p: Path)
    requires g.WellFormed() && g.RankedBy(rank) && Admissible(g, p)
    ensures DepthFirst(From(g, rank, p))
    decreases rank[LastNode(g, p)], 1, 0
  {
    if !g.IsLeaf(LastNode(g, p)) {
      FromEdgeDepthFirst(g, rank, p, 0);
    }
  }

  lemma {:induction false} FromEdgeDepthFirst(g: Graph, rank: seq<nat>, p: Path, i: nat)
    requires g.WellFormed() && g.RankedBy(rank) && Admissible(g, p) && i <= |g.adjacent[LastNode(g, p)]|
    ensures DepthFirst(FromEdge(g, rank, p, i))
    decreases rank[LastNode(g, p)], 0, |g.adjacent[LastNode(g, p)]| - i
  {
    hide From, MayFollow, Complete;
    if i < |g.adjacent[LastNode(g, p)]| {
      FromEdgeDepthFirst(g, rank, p, i + 1);
      if MayFollow(g, p, i) {
        var r := Extend(g, p, i);
        ExtendAdmissible(g, p, i);
        FromDepthFirst(g, rank, r);
        FromSound(g, rank, r);
        FromEdgeSound(g, rank, p, i + 1);
        JoinDepthFirst(From(g, rank, r), FromEdge(g, rank, p, i + 1), p, r, i);
      }
    }
  }

  lemma JoinDepthFirst(a: seq<Path>, b: seq<Path>, p: Path, r: Path, i: nat)
    requires DepthFirst(a) && DepthFirst(b) && |r| == |p| + 1 && r[..|p|] == p && r[|p|].index == i
    requires forall q :: q in a ==> IsPrefix(r, q)
    requires forall q: Path :: q in b ==> IsPrefix(p, q) && |q| > |p| && q[|p|].index >= i + 1
    ensures DepthFirst(a + b)
  {
    hide Before;
    forall x, y | 0 <= x < y < |a + b| ensures Before((a + b)[x], (a + b)[y]) {
      if x < |a| <= y {
        assert (a + b)[x] in a && (a + b)[y] in b;
        PartAfter(p, r, (a + b)[x], (a + b)[y]);
      }
    }
  }

  lemma PartAfter(p: Path, r: Path, q: Path, q': Path)
    requires |r| == |p| + 1 && r[..|p|] == p && IsPrefix(r, q)
    requires IsPrefix(p, q') && |q'| > |p| && q'[|p|].index > r[|p|].index
    ensures Before(q, q')
  {
    PrefixOfPrefix(p, r, q);
    assert PartAt(q, q', |p|);
  }

  /**
    `getPaths` lists each complete admissible path from the start node exactly once, and no other
    path, depth first in the order of the adjacency lists.
   */
  lemma PathsExact(g: Graph, rank: seq<nat>)
    requires g.WellFormed() && g.RankedBy(rank)
    ensures forall q :: q in From(g, rank, []) <==> Complete(g, q)
    ensures NoRepeats(From(g, rank, [])) && DepthFirst(From(g, rank, []))
  {
    hide From, Complete;
    FromSound(g, rank, []);
    FromDepthFirst(g, rank, []);
    DepthFirstUnique(From(g, rank, []));
    forall q | Complete(g, q) ensures q in From(g, rank, []) {
      FromComplete(g, rank, [], q);
    }
  }

  // ----- Gas carried by a path -----

  datatype NodeCopy = NodeCopy(call: Call, gas: NodeGas)
  datatype PathCopy = PathCopy(nodes: seq<NodeCopy>, edges: seq<Edge>)

  /** The gas an edge gives its target when the path arrived at its source over `last`. */
  function EdgeGas(last: Option<Edge>, e: Edge): NodeGas {
    var used := if last.Some? && OwnCallback(last.value, e) then last.value.gasUsedByCallback else e.gasUsed;
    NodeGas(e.gasLimit, 0, used, e.gasLocked)
  }

  function NodesOn(g: Graph, p: Path): (s: seq<nat>)
    requires g.WellFormed() && IsPath(g, p)
    ensures |s| == |p| + 1 && s[|p|] == LastNode(g, p)
    ensures forall k :: 0 <= k < |s| ==> s[k] < |g.calls|
  {
    if p == [] then [g.start] else NodesOn(g, p[..|p| - 1]) + [LastNode(g, p)]
  }

  function EdgesOn(g: Graph, p: Path): (s: seq<Edge>)
    requires g.WellFormed() && IsPath(g, p)
    ensures |s| == |p|
  {
    if p == [] then [] else EdgesOn(g, p[..|p| - 1]) + [EdgeAt(g, p[|p| - 1])]
  }

  /** The gas of every node of a path, each set by its own edge. */
  function GasOn(g: Graph, first: NodeGas, p: Path): (s: seq<NodeGas>)
    requires g.WellFormed() && IsPath(g, p)
    ensures |s| == |p| + 1
  {
    if p == [] then [first]
    else
      var front := p[..|p| - 1];
      GasOn(g, first, front) + [EdgeGas(LastEdge(g, front), EdgeAt(g, p[|p| - 1]))]
  }

  /** At the end of a path the leaf takes over the gas used by the node before it. */
  function FinalGas(g: Graph, first: NodeGas, p: Path): (s: seq<NodeGas>)
    requires g.WellFormed() && IsPath(g, p) && p != []
    ensures |s| == |p| + 1
  {
    var s := GasOn(g, first, p);
    var used := s[|p| - 1].used;
    s[|p| := s[|p|].(used := used, limit := used)]
  }

  function CopyOf(g: Graph, first: NodeGas, p: Path): PathCopy
    requires g.WellFormed() && IsPath(g, p) && p != []
  {
    var nodes, gas := NodesOn(g, p), FinalGas(g, first, p);
    PathCopy(seq(|p| + 1, k requires 0 <= k <= |p| => NodeCopy(g.calls[nodes[k]], gas[k])), EdgesOn(g, p))
  }

  /** The copy lists the edges and the calls the path goes through, the last call at the end of the last edge. */
  ghost predicate Shows(g: Graph, p: Path, c: PathCopy)
    requires g.WellFormed()
  {
    && |c.edges| == |p| > 0 && |c.nodes| == |p| + 1
    && (forall k :: 0 <= k < |p| ==>
          && ValidRef(g, p[k])
          && c.edges[k] == g.adjacent[p[k].from][p[k].index]
          && c.nodes[k].call == g.calls[p[k].from]
          && c.nodes[k + 1].call == g.calls[c.edges[k].to])
  }

  /**
    Each node between the ends has the limit and the locked gas of the edge into it, and nothing
    remaining. It uses what that edge says, unless the edge is the callback of the async edge before
    it: then what the async edge sets aside for its callback. The last node uses, and is limited to,
    what the node before it uses.
   */
  ghost predicate CarriesGas(first: NodeGas, c: PathCopy) {
    var n := |c.edges|;
    && n > 0 && |c.nodes| == n + 1 && c.nodes[0].gas == first
    && (forall k :: 0 < k < n ==>
          var gas, e := c.nodes[k].gas, c.edges[k - 1];
          && gas.limit == e.gasLimit && gas.locked == e.gasLocked && gas.remaining == 0
          && gas.used == if k > 1 && AsyncThenCallback(c.edges[k - 2].typ, e.typ)
                         then c.edges[k - 2].gasUsedByCallback else e.gasUsed)
    && c.nodes[n].gas == NodeGas(c.nodes[n - 1].gas.used, 0, c.nodes[n - 1].gas.used, c.edges[n - 1].gasLocked)
  }

  predicate AsyncThenCallback(a: EdgeType, b: EdgeType) {
    (a == Async && b == Callback) || (a == AsyncCrossShard && b == CallbackCrossShard)
  }

  lemma {:induction false} PathStep(g: Graph, p: Path, k: nat)
    requires g.WellFormed() && IsPath(g, p) && k < |p|
    ensures ValidRef(g, p[k]) && EdgesOn(g, p)[k] == EdgeAt(g, p[k])
    ensures NodesOn(g, p)[k] == p[k].from && NodesOn(g, p)[k + 1] == EdgeAt(g, p[k]).to
  {
    if k < |p| - 1 {
      PathStep(g, p[..|p| - 1], k);
    }
  }

  lemma {:induction false} PathGas(g: Graph, first: NodeGas, p: Path, k: nat)
    requires g.WellFormed() && IsPath(g, p) && k <= |p|
    ensures var es := EdgesOn(g, p);
            GasOn(g, first, p)[k] ==
            if k == 0 then first else EdgeGas(if k == 1 then None else Some(es[k - 2]), es[k - 1])
    decreases |p|
  {
    hide EdgeGas;
    if p != [] {
      var front := p[..|p| - 1];
      if k < |p| {
        PathGas(g, first, front, k);
      } else if k > 1 {
        PathStep(g, p, k - 2);
        assert LastEdge(g, front) == Some(EdgeAt(g, p[k - 2]));
      }
    }
  }

  lemma CopyShows(g: Graph, first: NodeGas, p: Path)
    requires g.WellFormed() && IsPath(g, p) && p != []
    ensures Shows(g, p, CopyOf(g, first, p))
  {
    hide IsPath, NodesOn, EdgesOn, FinalGas;
    forall k | 0 <= k < |p|
      ensures ValidRef(g, p[k]) && EdgesOn(g, p)[k] == EdgeAt(g, p[k])
      ensures NodesOn(g, p)[k] == p[k].from && NodesOn(g, p)[k + 1] == EdgeAt(g, p[k]).to
    {
      PathStep(g, p, k);
    }
  }

  lemma CopyCarries(g: Graph, first: NodeGas, p: Path)
    requires g.WellFormed() && IsPath(g, p) && p != []
    ensures CarriesGas(first, CopyOf(g, first, p))
  {
    hide IsPath, NodesOn, EdgesOn, GasOn;
    var c, es := CopyOf(g, first, p), EdgesOn(g, p);
    forall k | 0 <= k <= |p|
      ensures GasOn(g, first, p)[k] == if k == 0 then first else EdgeGas(if k == 1 then None else Some(es[k - 2]), es[k - 1])
    {
      PathGas(g, first, p, k);
    }
    assert forall k :: 0 <= k < |p| ==> c.nodes[k].gas == GasOn(g, first, p)[k];
  }

  // ----- Which edges may follow each other -----

  /**
    Over `l` any call may follow. A callback may follow over a callback, over a local async edge if it
    is local and over a cross-shard async edge if it is cross-shard, in both cases only if it is the
    callback this edge names.
   */
  predicate Joins(l: Edge, e: Edge, target: string) {
    match e.typ
    case Callback => l.typ == Callback || l.typ == CallbackCrossShard || (l.typ == Async && l.callback == target)
    case CallbackCrossShard =>
      l.typ == Callback || l.typ == CallbackCrossShard || (l.typ == AsyncCrossShard && l.callback == target)
    case _ => true
  }

  /** Any two consecutive edges of the path may follow each other. */
  ghost predicate AllJoin(g: Graph, p: Path)
    requires g.WellFormed() && IsPath(g, p)
  {
    forall k :: 0 < k < |p| ==> JoinsAt(g, p, k)
  }

  ghost predicate JoinsAt(g: Graph, p: Path, k: nat)
    requires g.WellFormed() && IsPath(g, p) && 0 < k < |p|
  {
    var es := EdgesOn(g, p);
    Joins(es[k - 1], es[k], g.calls[NodesOn(g, p)[k + 1]].functionName)
  }

  /** The paths the walk admits are those whose consecutive edges may follow each other. */
  lemma {:induction false} AdmissibleIff(g: Graph, p: Path)
    requires g.WellFormed() && IsPath(g, p)
    ensures Admissible(g, p) <==> AllJoin(g, p)
    decreases |p|
  {
    hide Allowed, JoinsAt;
    if p != [] {
      var front := p[..|p| - 1];
      AdmissibleIff(g, front);
      forall k | 0 < k < |front| ensures JoinsAt(g, front, k) <==> JoinsAt(g, p, k) {
        JoinsInFront(g, p, k);
      }
      LastJoins(g, p);
    }
  }

  lemma JoinsInFront(g: Graph, p: Path, k: nat)
    requires g.WellFormed() && IsPath(g, p) && 0 < k < |p| - 1
    ensures JoinsAt(g, p[..|p| - 1], k) <==> JoinsAt(g, p, k)
  {
    hide Joins;
  }

  lemma LastJoins(g: Graph, p: Path)
    requires g.WellFormed() && IsPath(g, p) && p != []
    ensures MayFollow(g, p[..|p| - 1], p[|p| - 1].index) <==> (|p| > 1 ==> JoinsAt(g, p, |p| - 1))
  {
    hide Joins, Allowed;
    PathStep(g, p, |p| - 1);
    if |p| > 1 {
      PathStep(g, p, |p| - 2);
      var es := EdgesOn(g, p);
      JoinsIff(es[|p| - 2], es[|p| - 1], g.calls[LastNode(g, p)].functionName);
    } else {
      AnyMayStart(g.adjacent[g.start][p[0].index], g.calls[LastNode(g, p)].functionName);
    }
  }

  lemma AnyMayStart(e: Edge, target: string)
    ensures Allowed(None, e, target)
  {
  }

  lemma JoinsIff(l: Edge, e: Edge, target: string)
    ensures Allowed(Some(l), e, target) <==> Joins(l, e, target)
  {
  }

  ghost predicate ProperPaths(g: Graph, s: seq<Path>)
    requires g.WellFormed()
  {
    forall i :: 0 <= i < |s| ==> s[i] != [] && IsPath(g, s[i])
  }

  ghost function Copies(g: Graph, first: NodeGas, s: seq<Path>): seq<PathCopy>
    requires g.WellFormed() && ProperPaths(g, s)
  {
    seq(|s|, i requires 0 <= i < |s| => CopyOf(g, first, s[i]))
  }

  lemma CopiesAppend(g: Graph, first: NodeGas, a: seq<Path>, b: seq<Path>)
    requires g.WellFormed() && ProperPaths(g, a) && ProperPaths(g, b)
    ensures ProperPaths(g, a + b) && Copies(g, first, a + b) == Copies(g, first, a) + Copies(g, first, b)
  {
    hide CopyOf;
    assert forall i :: 0 <= i < |a + b| ==> (a + b)[i] == if i < |a| then a[i] else b[i - |a|];
  }

  lemma LeafCopies(g: Graph, rank: seq<nat>, first: NodeGas, p: Path)
    requires g.WellFormed() && g.RankedBy(rank) && IsPath(g, p) && g.IsLeaf(LastNode(g, p)) && p != []
    ensures ProperPaths(g, From(g, rank, p)) && Copies(g, first, From(g, rank, p)) == [CopyOf(g, first, p)]
  {
    hide CopyOf, IsPath;
  }

  /** All edges of an inner node are still to be followed, or none is. */
  lemma EdgesCopies(g: Graph, rank: seq<nat>, first: NodeGas, p: Path)
    requires g.WellFormed() && g.RankedBy(rank) && IsPath(g, p) && !g.IsLeaf(LastNode(g, p))
    ensures var n := |g.adjacent[LastNode(g, p)]|;
            && ProperPaths(g, FromEdge(g, rank, p, 0)) && FromEdge(g, rank, p, 0) == From(g, rank, p)
            && ProperPaths(g, FromEdge(g, rank, p, n)) && Copies(g, first, FromEdge(g, rank, p, n)) == []
  {
    hide CopyOf, IsPath, MayFollow;
    FromEdgeArePaths(g, rank, p, 0);
  }

  /** One edge is followed, or passed over. */
  lemma EdgeCopies(g: Graph, rank: seq<nat>, first: NodeGas, p: Path, i: nat)
    requires g.WellFormed() && g.RankedBy(rank) && IsPath(g, p) && i < |g.adjacent[LastNode(g, p)]|
    ensures ProperPaths(g, FromEdge(g, rank, p, i)) && ProperPaths(g, FromEdge(g, rank, p, i + 1))
    ensures ProperPaths(g, From(g, rank, Extend(g, p, i)))
    ensures Copies(g, first, FromEdge(g, rank, p, i)) ==
            (if MayFollow(g, p, i) then Copies(g, first, From(g, rank, Extend(g, p, i))) else [])
            + Copies(g, first, FromEdge(g, rank, p, i + 1))
  {
    hide CopyOf, IsPath, MayFollow, From;
    FromEdgeArePaths(g, rank, p, i);
    FromEdgeArePaths(g, rank, p, i + 1);
    FromArePaths(g, rank, Extend(g, p, i));
    CopiesAppend(g, first, From(g, rank, Extend(g, p, i)), FromEdge(g, rank, p, i + 1));
  }

  ghost predicate AllCarry(first: NodeGas, cs: seq<PathCopy>) {
    forall m :: 0 <= m < |cs| ==> CarriesGas(first, cs[m])
  }

  lemma NewCarry(first: NodeGas, before: seq<PathCopy>, cs: seq<PathCopy>)
    requires AllCarry(first, cs)
    ensures AllCarry(first, (before + cs)[|before|..])
  {
    assert (before + cs)[|before|..] == cs;
  }

  lemma CopiesCarry(g: Graph, first: NodeGas, s: seq<Path>)
    requires g.WellFormed() && ProperPaths(g, s)
    ensures AllCarry(first, Copies(g, first, s))
    ensures forall m :: 0 <= m < |s| ==> Shows(g, s[m], Copies(g, first, s)[m])
  {
    hide CopyOf, CarriesGas, Shows;
    forall m | 0 <= m < |s| ensures CarriesGas(first, CopyOf(g, first, s[m])) && Shows(g, s[m], CopyOf(g, first, s[m])) {
      CopyCarries(g, first, s[m]);
      CopyShows(g, first, s[m]);
    }
  }

  lemma {:induction false} FromArePaths(g: Graph, rank: seq<nat>, p: Path)
    requires g.WellFormed() && g.RankedBy(rank) && IsPath(g, p) && (g.IsLeaf(LastNode(g, p)) ==> p != [])
    ensures ProperPaths(g, From(g, rank, p))
    decreases rank[LastNode(g, p)], 1, 0
  {
    if !g.IsLeaf(LastNode(g, p)) {
      FromEdgeArePaths(g, rank, p, 0);
    }
  }

  lemma {:induction false} FromEdgeArePaths(g: Graph, rank: seq<nat>, p: Path, i: nat)
    requires g.WellFormed() && g.RankedBy(rank) && IsPath(g, p) && i <= |g.adjacent[LastNode(g, p)]|
    ensures ProperPaths(g, FromEdge(g, rank, p, i))
    decreases rank[LastNode(g, p)], 0, |g.adjacent[LastNode(g, p)]| - i
  {
    hide From, MayFollow;
    if i < |g.adjacent[LastNode(g, p)]| {
      FromEdgeArePaths(g, rank, p, i + 1);
      FromArePaths(g, rank, Extend(g, p, i));
    }
  }

  /** The nodes before the last one of a path lie strictly higher. */
  lemma {:induction false} PathDescends(g: Graph, rank: seq<nat>, p: Path, k: nat)
    requires g.WellFormed() && g.RankedBy(rank) && IsPath(g, p) && k < |p|
    ensures rank[NodesOn(g, p)[k]] > rank[LastNode(g, p)]
  {
    var front := p[..|p| - 1];
    if k < |front| {
      PathDescends(g, rank, front, k);
    }
  }

  /** The walk's invariant: the nodes of the current path hold the gas of their own edges. */
  ghost predicate OnPath(g: Graph, gas: seq<NodeGas>, first: NodeGas, p: Path)
    requires g.WellFormed() && IsPath(g, p)
  {
    && |gas| == |g.calls|
    && forall k :: 0 <= k <= |p| ==> gas[NodesOn(g, p)[k]] == GasOn(g, first, p)[k]
  }

  /** Nodes above a given rank hold the same gas. */
  ghost predicate SameAbove(rank: seq<nat>, bound: nat, a: seq<NodeGas>, b: seq<NodeGas>) {
    |a| == |b| == |rank| && forall v :: 0 <= v < |rank| && rank[v] > bound ==> a[v] == b[v]
  }

  lemma OnPathExtend(g: Graph, rank: seq<nat>, gas: seq<NodeGas>, first: NodeGas, p: Path, i: nat)
    requires g.WellFormed() && g.RankedBy(rank) && IsPath(g, p) && OnPath(g, gas, first, p)
    requires i < |g.adjacent[LastNode(g, p)]|
    ensures var e := g.adjacent[LastNode(g, p)][i];
            OnPath(g, gas[e.to := EdgeGas(LastEdge(g, p), e)], first, Extend(g, p, i))
  {
    var e := g.adjacent[LastNode(g, p)][i];
    var q := Extend(g, p, i);
    assert q[..|p|] == p;
    forall k | 0 <= k <= |p| ensures NodesOn(g, p)[k] != e.to {
      if k < |p| { PathDescends(g, rank, p, k); }
    }
  }

  lemma OnPathKept(g: Graph, rank: seq<nat>, a: seq<NodeGas>, b: seq<NodeGas>, first: NodeGas, p: Path, bound: nat)
    requires g.WellFormed() && g.RankedBy(rank) && IsPath(g, p) && OnPath(g, a, first, p)
    requires bound < rank[LastNode(g, p)] && SameAbove(rank, bound, a, b)
    ensures OnPath(g, b, first, p)
  {
    forall k | 0 <= k <= |p| ensures b[NodesOn(g, p)[k]] == a[NodesOn(g, p)[k]] {
      if k < |p| { PathDescends(g, rank, p, k); }
    }
  }

  class ExecutionGraph {
    const g: Graph
    var gas: seq<NodeGas>
    var paths: seq<PathCopy>

    constructor (g: Graph, gas: seq<NodeGas>)
      ensures this.g == g && this.gas == gas && paths == []
    {
      this.g, this.gas, paths := g, gas, [];
    }

    /** `getPaths`: a copy of every admissible path, in depth-first order, each with its own gas. */
    method GetPaths(ghost rank: seq<nat>)
      requires g.WellFormed() && g.RankedBy(rank) && |gas| == |g.calls| && !g.IsLeaf(g.start)
      modifies this
      ensures ProperPaths(g, From(g, rank, []))
      ensures paths == Copies(g, old(gas)[g.start], From(g, rank, []))
      ensures AllCarry(old(gas)[g.start], paths)
      ensures forall m :: 0 <= m < |paths| ==> Shows(g, From(g, rank, [])[m], paths[m])
    {
      hide CopyOf, AllCarry, Shows;
      paths := [];
      ghost var s, first := From(g, rank, []), gas[g.start];
      GetPathsRecursive([], rank, first);
      CopiesCarry(g, first, s);
    }

    method GetPathsRecursive(path: Path, ghost rank: seq<nat>, ghost first: NodeGas)
      requires g.WellFormed() && g.RankedBy(rank) && IsPath(g, path) && OnPath(g, gas, first, path)
      requires |gas| == |g.calls| && (g.IsLeaf(LastNode(g, path)) ==> path != [])
      modifies this
      ensures SameAbove(rank, rank[LastNode(g, path)], old(gas), gas)
      ensures ProperPaths(g, From(g, rank, path))
      ensures paths == old(paths) + Copies(g, first, From(g, rank, path))
      ensures |old(paths)| <= |paths| && AllCarry(first, paths[|old(paths)|..])
      decreases rank[LastNode(g, path)]
    {
      hide CopyOf, OnPath, MayFollow, IsPath, AllCarry, From, FromEdge, Copies, ProperPaths, EdgeGas;
      var last := LastNode(g, path);
      FromArePaths(g, rank, path);
      CopiesCarry(g, first, From(g, rank, path));
      NewCarry(first, paths, Copies(g, first, From(g, rank, path)));
      if g.IsLeaf(last) {
        LeafCopies(g, rank, first, path);
        EmitPath(path, rank, first);
        return;
      }
      ghost var before := gas;
      EdgesCopies(g, rank, first, path);
      for i := 0 to |g.adjacent[last]|
        invariant SameAbove(rank, rank[last], before, gas)
        invariant OnPath(g, gas, first, path)
        invariant ProperPaths(g, FromEdge(g, rank, path, i))
        invariant paths + Copies(g, first, FromEdge(g, rank, path, i))
               == old(paths) + Copies(g, first, From(g, rank, path))
      {
        EdgeCopies(g, rank, first, path, i);
        var e := g.adjacent[last][i];
        if MayFollow(g, path, i) {
          OnPathExtend(g, rank, gas, first, path, i);
          ghost var start, emitted := gas, paths;
          gas := gas[e.to := EdgeGas(LastEdge(g, path), e)];
          var next := Extend(g, path, i);
          GetPathsRecursive(next, rank, first);
          OnPathKept(g, rank, start, gas, first, path, rank[e.to]);
        }
      }
    }

    /** The end of a path: the leaf is filled in and the whole path is copied. */
    method EmitPath(path: Path, ghost rank: seq<nat>, ghost first: NodeGas)
      requires g.WellFormed() && g.RankedBy(rank) && IsPath(g, path) && path != [] && OnPath(g, gas, first, path)
      modifies this
      ensures |gas| == |old(gas)| && forall v :: 0 <= v < |gas| && v != LastNode(g, path) ==> gas[v] == old(gas)[v]
      ensures paths == old(paths) + [CopyOf(g, first, path)]
    {
      var nodes := NodesOn(g, path);
      var last, previous := nodes[|path|], nodes[|path| - 1];
      gas := gas[last := gas[last].(used := gas[previous].used)];
      gas := gas[last := gas[last].(limit := gas[last].used)];
      forall k | 0 <= k < |path| ensures nodes[k] != last {
        PathDescends(g, rank, path, k);
      }
      var copies := CopyNodes(nodes);
      assert copies == CopyOf(g, first, path).nodes;
      paths := paths + [PathCopy(copies, EdgesOn(g, path))];
    }

    /** `copyNodesList`. */
    method CopyNodes(nodes: seq<nat>) returns (copies: seq<NodeCopy>)
      requires |gas| == |g.calls| && forall k :: 0 <= k < |nodes| ==> nodes[k] < |gas|
      ensures |copies| == |nodes|
      ensures forall k :: 0 <= k < |nodes| ==> copies[k] == NodeCopy(g.calls[nodes[k]], gas[nodes[k]])
    {
      copies := [];
      for k := 0 to |nodes|
        invariant |copies| == k
        invariant forall j :: 0 <= j < k ==> copies[j] == NodeCopy(g.calls[nodes[j]], gas[nodes[j]])
      {
        copies := copies + [NodeCopy(g.calls[nodes[k]], gas[nodes[k]])];
      }
    }
  }
}
