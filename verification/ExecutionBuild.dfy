/**
  Building the execution graph of a call graph. Every call gets its sync calls, the edge to its own
  finish leaf and its async calls, in this order; the callback of an async call becomes an edge that
  leaves the called node, after everything that node does itself.
 */
module ExecutionBuild {
  import opened Options
  import opened CallGraph
  import opened Paths

  /** The call of a finish leaf. */
  const FINISH := Call("", "*")
  const NO_GAS := NodeGas(0, 0, 0, 0)

  // ----- What the call graph must provide -----

  predicate NamesCallback(e: Edge) {
    e.typ.IsAsync() && e.callback != ""
  }

  function CallbackCall(g: Graph, u: nat, e: Edge): Call
    requires u < |g.calls|
  {
    Call(g.calls[u].address, e.callback)
  }

  /** A callback that is named must be a node at the caller's address; building panics otherwise. */
  predicate CallbacksPresent(g: Graph)
    requires g.WellFormed()
  {
    forall u, i :: 0 <= u < |g.adjacent| && 0 <= i < |g.adjacent[u]| && NamesCallback(g.adjacent[u][i]) ==>
      CallbackCall(g, u, g.adjacent[u][i]) in g.calls
  }

  predicate Callable(g: Graph) {
    g.WellFormed() && CallbacksPresent(g)
  }

  // ----- The edges of the execution graph -----

  /** The first node with the given call. */
  function NodeOf(calls: seq<Call>, c: Call): (i: nat)
    requires c in calls
    ensures i < |calls| && calls[i] == c && forall j :: 0 <= j < i ==> calls[j] != c
  {
    if calls[0] == c then 0 else 1 + NodeOf(calls[1..], c)
  }

  /** The node that stands for `v` in the execution graph: the first one with its call. */
  function Copy(g: Graph, v: nat): (r: nat)
    requires v < |g.calls|
    ensures r < |g.calls| && g.calls[r] == g.calls[v]
  {
    NodeOf(g.calls, g.calls[v])
  }

  /** The edges of a call, led to the nodes that stand for the calls they make. */
  function Led(g: Graph, v: nat): (s: seq<Edge>)
    requires g.WellFormed() && v < |g.calls|
    ensures |s| == |g.adjacent[v]|
    ensures forall i :: 0 <= i < |s| ==> s[i] == g.adjacent[v][i].(to := Copy(g, g.adjacent[v][i].to))
  {
    seq(|g.adjacent[v]|, i requires 0 <= i < |g.adjacent[v]| => g.adjacent[v][i].(to := Copy(g, g.adjacent[v][i].to)))
  }

  function FinishEdge(f: nat): Edge {
    Edge(0, Sync, "", f, 0, 0, 0, 0, "", false, false)
  }

  function CallbackEdge(g: Graph, u: nat, e: Edge): Edge
    requires u < |g.calls| && CallbackCall(g, u, e) in g.calls
  {
    Edge(0, if e.typ.Async? then Callback else CallbackCrossShard, "", NodeOf(g.calls, CallbackCall(g, u, e)),
         0, 0, e.gasUsedByCallback, 0, "Callback", e.callbackFail, false)
  }

  function Only(p: Edge -> bool, s: seq<Edge>): seq<Edge> {
    if s == [] then [] else Only(p, s[..|s| - 1]) + (if p(s[|s| - 1]) then [s[|s| - 1]] else [])
  }

  predicate IsSync(e: Edge) {
    e.typ.Sync?
  }

  predicate IsAsync(e: Edge) {
    e.typ.IsAsync()
  }

  predicate IsBack(e: Edge) {
    e.typ.IsCallback()
  }

  predicate NotBack(e: Edge) {
    !IsBack(e)
  }

  function Callbacks(s: seq<Edge>): seq<Edge> {
    Only(IsBack, s)
  }

  function Others(s: seq<Edge>): seq<Edge> {
    Only(NotBack, s)
  }

  /** All callbacks come last. */
  predicate Parted(s: seq<Edge>) {
    s == Others(s) + Callbacks(s)
  }

  /** What a call does itself. */
  function Own(g: Graph, v: nat, finish: nat): seq<Edge>
    requires g.WellFormed() && v < |g.calls|
  {
    Only(IsSync, Led(g, v)) + [FinishEdge(finish)] + Only(IsAsync, Led(g, v))
  }

  /**
    What node `v` does itself, once the calls in `order` are processed: the work of every call it
    stands for, usually one. The finish leaf of the call processed at step `k` is node `|g.calls| + k`.
   */
  function Work(g: Graph, order: seq<nat>, v: nat): seq<Edge>
    requires g.WellFormed() && Within(g, order)
    decreases |order|
  {
    if order == [] then []
    else
      var front, u := order[..|order| - 1], order[|order| - 1];
      var before, finish := Work(g, front, v), |g.calls| + |front|;
      if Copy(g, u) != v then before
      else if g.IsLeaf(u) then [FinishEdge(finish)] + before
      else before + Own(g, u, finish)
  }

  /** The callback that edge `i` of `u` gives to `v`, if it does. */
  function Back(g: Graph, u: nat, i: nat, v: nat): (r: seq<Edge>)
    requires g.WellFormed() && CallbacksPresent(g) && u < |g.adjacent| && i < |g.adjacent[u]|
    ensures |r| <= 1 && forall k :: 0 <= k < |r| ==> IsBack(r[k])
  {
    var e := g.adjacent[u][i];
    if NamesCallback(e) && Copy(g, e.to) == v then [CallbackEdge(g, u, e)] else []
  }

  /** The callbacks that the first `i` edges of `u` give to the node `v` they call. */
  function CallbacksFrom(g: Graph, u: nat, i: nat, v: nat): seq<Edge>
    requires g.WellFormed() && CallbacksPresent(g) && u < |g.adjacent| && i <= |g.adjacent[u]|
    decreases i
  {
    if i == 0 then [] else CallbacksFrom(g, u, i - 1, v) + Back(g, u, i - 1, v)
  }

  /** The callbacks that the calls in `order` give to `v`. */
  function CallbacksInto(g: Graph, order: seq<nat>, v: nat): seq<Edge>
    requires g.WellFormed() && CallbacksPresent(g) && Within(g, order)
    decreases |order|
  {
    if order == [] then []
    else
      var u := order[|order| - 1];
      CallbacksInto(g, order[..|order| - 1], v) + CallbacksFrom(g, u, |g.adjacent[u]|, v)
  }

  /** The node of the callback that edge `i` of `u` names. */
  function CallbackNode(g: Graph, u: nat, i: nat): (c: nat)
    requires Callable(g) && u < |g.adjacent| && i < |g.adjacent[u]| && NamesCallback(g.adjacent[u][i])
    ensures c < |g.calls| && g.calls[c] == CallbackCall(g, u, g.adjacent[u][i])
  {
    NodeOf(g.calls, CallbackCall(g, u, g.adjacent[u][i]))
  }

  /** The callback that edge `i` of `u` names and configures to fail, if it does. */
  function Broken(g: Graph, u: nat, i: nat): set<nat>
    requires Callable(g) && u < |g.adjacent| && i < |g.adjacent[u]|
  {
    if NamesCallback(g.adjacent[u][i]) && g.adjacent[u][i].callbackFail then {CallbackNode(g, u, i)} else {}
  }

  function BrokenFrom(g: Graph, u: nat, i: nat): set<nat>
    requires Callable(g) && u < |g.adjacent| && i <= |g.adjacent[u]|
    decreases i
  {
    if i == 0 then {} else BrokenFrom(g, u, i - 1) + Broken(g, u, i - 1)
  }

  function BrokenBy(g: Graph, order: seq<nat>): set<nat>
    requires Callable(g) && Within(g, order)
    decreases |order|
  {
    if order == [] then {}
    else
      var u := order[|order| - 1];
      BrokenBy(g, order[..|order| - 1]) + BrokenFrom(g, u, |g.adjacent[u]|)
  }

  lemma BrokenNext(g: Graph, order: seq<nat>, v: nat)
    requires Callable(g) && Within(g, order) && v < |g.calls|
    ensures Within(g, order + [v])
    ensures BrokenBy(g, order + [v]) == BrokenBy(g, order) + BrokenFrom(g, v, |g.adjacent[v]|)
  {
    hide CallbacksPresent;
    assert (order + [v])[..|order|] == order;
  }

  ghost predicate Breaks(g: Graph, u: nat, i: nat, c: nat)
    requires Callable(g) && u < |g.adjacent| && i < |g.adjacent[u]|
  {
    NamesCallback(g.adjacent[u][i]) && g.adjacent[u][i].callbackFail && CallbackNode(g, u, i) == c
  }

  lemma {:induction false} BrokenByEdges(g: Graph, u: nat, i: nat, c: nat)
    requires Callable(g) && u < |g.adjacent| && i <= |g.adjacent[u]|
    ensures c in BrokenFrom(g, u, i) <==> exists j :: 0 <= j < i && Breaks(g, u, j, c)
    decreases i
  {
    hide CallbacksPresent, CallbackNode;
    if i > 0 {
      BrokenByEdges(g, u, i - 1, c);
      if c in BrokenFrom(g, u, i) && c !in BrokenFrom(g, u, i - 1) {
        assert Breaks(g, u, i - 1, c);
      }
    }
  }

  // ----- Filters -----

  lemma {:induction false} OnlyConcat(p: Edge -> bool, s: seq<Edge>, t: seq<Edge>)
    ensures Only(p, s + t) == Only(p, s) + Only(p, t)
    decreases |t|
  {
    if t == [] {
      assert s + t == s;
    } else {
      OnlyConcat(p, s, t[..|t| - 1]);
      assert (s + t)[..|s + t| - 1] == s + t[..|t| - 1];
    }
  }

  lemma OnlyNothing(p: Edge -> bool, s: seq<Edge>)
    ensures Only(p, s[..0]) == []
  {
  }

  lemma OnlyNext(p: Edge -> bool, s: seq<Edge>, i: nat)
    requires i < |s|
    ensures Only(p, s[..i + 1]) == Only(p, s[..i]) + (if p(s[i]) then [s[i]] else [])
  {
    assert s[..i + 1][..i] == s[..i];
  }

  lemma {:induction false} OnlyHas(p: Edge -> bool, s: seq<Edge>, e: Edge)
    ensures e in Only(p, s) <==> e in s && p(e)
  {
    if s != [] {
      OnlyHas(p, s[..|s| - 1], e);
      assert s == s[..|s| - 1] + [s[|s| - 1]];
    }
  }

  lemma {:induction false} OnlyAll(p: Edge -> bool, s: seq<Edge>)
    requires forall k :: 0 <= k < |s| ==> p(s[k])
    ensures Only(p, s) == s
  {
    if s != [] {
      OnlyAll(p, s[..|s| - 1]);
    }
  }

  lemma {:induction false} OnlyNone(p: Edge -> bool, s: seq<Edge>)
    requires forall k :: 0 <= k < |s| ==> !p(s[k])
    ensures Only(p, s) == []
  {
    if s != [] {
      OnlyNone(p, s[..|s| - 1]);
    }
  }

  lemma {:induction false} OnlyHold(p: Edge -> bool, s: seq<Edge>, k: nat)
    requires k < |Only(p, s)|
    ensures p(Only(p, s)[k])
  {
    if k < |Only(p, s[..|s| - 1])| {
      OnlyHold(p, s[..|s| - 1], k);
    }
  }

  lemma FilterConcat(s: seq<Edge>, t: seq<Edge>)
    ensures Others(s + t) == Others(s) + Others(t) && Callbacks(s + t) == Callbacks(s) + Callbacks(t)
  {
    OnlyConcat(NotBack, s, t);
    OnlyConcat(IsBack, s, t);
  }

  lemma FilterOthers(s: seq<Edge>)
    requires forall k :: 0 <= k < |s| ==> NotBack(s[k])
    ensures Others(s) == s && Callbacks(s) == []
  {
    OnlyAll(NotBack, s);
    OnlyNone(IsBack, s);
  }

  lemma FilterCallbacks(s: seq<Edge>)
    requires forall k :: 0 <= k < |s| ==> IsBack(s[k])
    ensures Others(s) == [] && Callbacks(s) == s
  {
    OnlyNone(NotBack, s);
    OnlyAll(IsBack, s);
  }

  lemma {:induction false} FilterLengths(s: seq<Edge>)
    ensures |s| == |Others(s)| + |Callbacks(s)|
  {
    if s != [] {
      FilterLengths(s[..|s| - 1]);
    }
  }

  /** Moving the callbacks to the end keeps both kinds and their order. */
  lemma PartedIsParted(s: seq<Edge>)
    ensures var r := Others(s) + Callbacks(s); Parted(r) && Others(r) == Others(s) && Callbacks(r) == Callbacks(s)
  {
    hide Only;
    forall k | 0 <= k < |Others(s)| ensures NotBack(Others(s)[k]) { OnlyHold(NotBack, s, k); }
    forall k | 0 <= k < |Callbacks(s)| ensures IsBack(Callbacks(s)[k]) { OnlyHold(IsBack, s, k); }
    FilterOthers(Others(s));
    FilterCallbacks(Callbacks(s));
    FilterConcat(Others(s), Callbacks(s));
  }

  lemma PartedAppend(s: seq<Edge>, e: Edge)
    requires Parted(s) && IsBack(e)
    ensures Parted(s + [e])
  {
    hide Others, Callbacks;
    FilterConcat(s, [e]);
    FilterCallbacks([e]);
    assert Others(s) + Callbacks(s) + [e] == Others(s) + (Callbacks(s) + [e]);
  }

  /** Sync and async edges are no callbacks. */
  lemma OwnKinds(g: Graph, v: nat, finish: nat)
    requires g.WellFormed() && v < |g.calls|
    ensures forall k :: 0 <= k < |Own(g, v, finish)| ==> NotBack(Own(g, v, finish)[k])
    ensures forall k :: 0 <= k < |Only(IsSync, Led(g, v))| ==> NotBack(Only(IsSync, Led(g, v))[k])
  {
    hide Only, Led;
    var syncs, asyncs := Only(IsSync, Led(g, v)), Only(IsAsync, Led(g, v));
    forall k | 0 <= k < |syncs| ensures NotBack(syncs[k]) { OnlyHold(IsSync, Led(g, v), k); }
    forall k | 0 <= k < |asyncs| ensures NotBack(asyncs[k]) { OnlyHold(IsAsync, Led(g, v), k); }
  }

  // ----- The state of the construction -----

  /** The edges of node `v` once the calls in `order` are processed. */
  predicate Row(g: Graph, order: seq<nat>, v: nat, s: seq<Edge>)
    requires g.WellFormed() && CallbacksPresent(g) && v < |g.calls| && Within(g, order)
  {
    Parted(s) && Others(s) == Work(g, order, v) && Callbacks(s) == CallbacksInto(g, order, v)
  }

  predicate Within(g: Graph, order: seq<nat>) {
    forall k :: 0 <= k < |order| ==> order[k] < |g.calls|
  }

  /** The nodes are those of the call graph, then a finish leaf for every call that is processed. */
  predicate Built(g: Graph, order: seq<nat>, calls: seq<Call>, adjacent: seq<seq<Edge>>) {
    && Callable(g) && Within(g, order)
    && |calls| == |adjacent| == |g.calls| + |order|
    && calls[..|g.calls|] == g.calls
    && (forall f :: |g.calls| <= f < |calls| ==> calls[f] == FINISH && adjacent[f] == [])
    && (forall v :: 0 <= v < |g.calls| ==> Row(g, order, v, adjacent[v]))
  }

  /** What adding the first `i` edges of `v`, as far as they are async, does to every node. */
  ghost predicate Linked(g: Graph, v: nat, i: nat, a: seq<seq<Edge>>, b: seq<seq<Edge>>)
    requires g.WellFormed() && CallbacksPresent(g) && v < |g.adjacent| && i <= |g.adjacent[v]|
  {
    |b| == |a| && forall w :: 0 <= w < |a| ==> LinkedRow(g, v, i, w, a[w], b[w])
  }

  ghost predicate LinkedRow(g: Graph, v: nat, i: nat, w: nat, a: seq<Edge>, b: seq<Edge>)
    requires g.WellFormed() && CallbacksPresent(g) && v < |g.adjacent| && i <= |g.adjacent[v]|
  {
    && Others(b) == Others(a) + (if w == Copy(g, v) then Only(IsAsync, Led(g, v)[..i]) else [])
    && Callbacks(b) == Callbacks(a) + CallbacksFrom(g, v, i, w)
    && (w != Copy(g, v) && Parted(a) ==> Parted(b))
  }

  /** Edge `i` of `v`, if it is async and `w` stands for the caller. */
  function Ahead(g: Graph, v: nat, i: nat, w: nat): (r: seq<Edge>)
    requires g.WellFormed() && v < |g.adjacent| && i < |g.adjacent[v]|
    ensures |r| <= 1 && forall k :: 0 <= k < |r| ==> NotBack(r[k])
  {
    if w == Copy(g, v) && g.adjacent[v][i].typ.IsAsync() then [Led(g, v)[i]] else []
  }

  lemma AsyncsNext(g: Graph, v: nat, i: nat)
    requires g.WellFormed() && v < |g.adjacent| && i < |g.adjacent[v]|
    ensures Only(IsAsync, Led(g, v)[..i + 1]) == Only(IsAsync, Led(g, v)[..i]) + Ahead(g, v, i, Copy(g, v))
  {
    hide Led;
    assert Led(g, v)[..i + 1][..i] == Led(g, v)[..i];
  }

  lemma LinkStep(g: Graph, v: nat, i: nat, w: nat, a: seq<Edge>, b: seq<Edge>)
    requires g.WellFormed() && CallbacksPresent(g) && v < |g.adjacent| && i < |g.adjacent[v]| && LinkedRow(g, v, i, w, a, b)
    ensures LinkedRow(g, v, i + 1, w, a, b + Ahead(g, v, i, w) + Back(g, v, i, w))
  {
    hide Others, Callbacks, Back, Parted, CallbacksPresent, Only, Led, Copy;
    var own, back := Ahead(g, v, i, w), Back(g, v, i, w);
    AsyncsNext(g, v, i);
    FilterConcat(b, own);
    FilterConcat(b + own, back);
    FilterOthers(own);
    FilterCallbacks(back);
    if w != Copy(g, v) && Parted(a) {
      if back == [] {
        assert b + own + back == b;
      } else {
        PartedAppend(b, back[0]);
        assert b + own + back == b + [back[0]];
      }
    }
  }

  lemma LinkNothing(g: Graph, v: nat, a: seq<seq<Edge>>)
    requires g.WellFormed() && CallbacksPresent(g) && v < |g.adjacent|
    ensures Linked(g, v, 0, a, a)
  {
    assert Led(g, v)[..0] == [];
  }

  /** One turn of the loop over async edges. */
  lemma LinkNext(g: Graph, v: nat, i: nat, a: seq<seq<Edge>>, b: seq<seq<Edge>>, c: seq<seq<Edge>>)
    requires g.WellFormed() && CallbacksPresent(g) && v < |g.adjacent| && i < |g.adjacent[v]| && Linked(g, v, i, a, b)
    requires |c| == |b| && forall w :: 0 <= w < |b| ==> c[w] == b[w] + Ahead(g, v, i, w) + Back(g, v, i, w)
    ensures Linked(g, v, i + 1, a, c)
  {
    hide LinkedRow, Ahead, Back, CallbacksPresent;
    forall w | 0 <= w < |a| ensures LinkedRow(g, v, i + 1, w, a[w], c[w]) {
      LinkStep(g, v, i, w, a[w], b[w]);
    }
  }

  // ----- One call is processed -----

  lemma WorkNext(g: Graph, order: seq<nat>, v: nat, w: nat)
    requires g.WellFormed() && Within(g, order) && v < |g.calls|
    ensures var before, finish := Work(g, order, w), |g.calls| + |order|;
            Work(g, order + [v], w) == if Copy(g, v) != w then before
                                       else if g.IsLeaf(v) then [FinishEdge(finish)] + before
                                       else before + Own(g, v, finish)
  {
    hide Own, Copy;
    assert (order + [v])[..|order|] == order;
  }

  lemma CallbacksIntoNext(g: Graph, order: seq<nat>, v: nat, w: nat)
    requires g.WellFormed() && CallbacksPresent(g) && Within(g, order) && v < |g.calls|
    ensures CallbacksInto(g, order + [v], w) == CallbacksInto(g, order, w) + CallbacksFrom(g, v, |g.adjacent[v]|, w)
  {
    assert (order + [v])[..|order|] == order;
  }

  /** A row that does not stand for the processed call only gains callbacks. */
  lemma OtherRow(g: Graph, order: seq<nat>, v: nat, w: nat, a: seq<Edge>, b: seq<Edge>)
    requires g.WellFormed() && CallbacksPresent(g) && Within(g, order) && v < |g.calls| && w < |g.calls| && Copy(g, v) != w
    requires Row(g, order, w, a) && LinkedRow(g, v, |g.adjacent[v]|, w, a, b)
    ensures Row(g, order + [v], w, b)
  {
    hide Others, Callbacks, Parted, CallbacksInto, CallbacksFrom, Work, CallbacksPresent, Copy, Led;
    CallbacksIntoNext(g, order, v, w);
    WorkNext(g, order, v, w);
  }

  /** The processed call's row, before its callbacks are moved to the end. */
  lemma OwnRow(g: Graph, order: seq<nat>, v: nat, a: seq<Edge>, b: seq<Edge>, c: seq<Edge>)
    requires g.WellFormed() && CallbacksPresent(g) && Within(g, order) && v < |g.calls| && !g.IsLeaf(v)
    requires Row(g, order, Copy(g, v), a) && b == a + Only(IsSync, Led(g, v)) + [FinishEdge(|g.calls| + |order|)]
    requires LinkedRow(g, v, |g.adjacent[v]|, Copy(g, v), b, c)
    ensures Row(g, order + [v], Copy(g, v), Others(c) + Callbacks(c))
  {
    hide Others, Callbacks, CallbacksInto, CallbacksFrom, Work, CallbacksPresent, Only, Parted, Copy, Led;
    var w, finish := Copy(g, v), |g.calls| + |order|;
    var own := Only(IsSync, Led(g, v)) + [FinishEdge(finish)];
    assert b == a + own;
    FilterConcat(a, own);
    OwnKinds(g, v, finish);
    FilterOthers(own);
    assert Led(g, v)[..|g.adjacent[v]|] == Led(g, v);
    CallbacksIntoNext(g, order, v, w);
    WorkNext(g, order, v, w);
    PartedIsParted(c);
    assert Others(a) + own + Only(IsAsync, Led(g, v)) == Others(a) + Own(g, v, finish);
  }

  /** All steps for one call with edges. */
  lemma InnerProcessed(g: Graph, order: seq<nat>, v: nat, calls: seq<Call>, a: seq<seq<Edge>>, b: seq<seq<Edge>>, c: seq<seq<Edge>>)
    requires Built(g, order, calls, a) && v < |g.calls| && !g.IsLeaf(v)
    requires var w := Copy(g, v);
             b == a[w := a[w] + Only(IsSync, Led(g, v)) + [FinishEdge(|g.calls| + |order|)]] + [[]]
    requires Linked(g, v, |g.adjacent[v]|, b, c)
    ensures var w := Copy(g, v);
            Built(g, order + [v], calls + [FINISH], c[w := Others(c[w]) + Callbacks(c[w])])
  {
    hide Others, Callbacks, Row, LinkedRow, CallbacksPresent, Only, Copy, Led;
    var r := Copy(g, v);
    var d := c[r := Others(c[r]) + Callbacks(c[r])];
    forall w | 0 <= w < |g.calls| ensures Row(g, order + [v], w, d[w]) {
      assert LinkedRow(g, v, |g.adjacent[v]|, w, b[w], c[w]);
      if w == r {
        OwnRow(g, order, v, a[r], b[r], c[r]);
      } else {
        OtherRow(g, order, v, w, a[w], c[w]);
      }
    }
    forall f | |g.calls| <= f < |c| ensures d[f] == [] {
      assert LinkedRow(g, v, |g.adjacent[v]|, f, b[f], c[f]);
      StillEmpty(g, v, f, c[f]);
    }
  }

  lemma StillEmpty(g: Graph, v: nat, f: nat, s: seq<Edge>)
    requires g.WellFormed() && CallbacksPresent(g) && v < |g.calls| <= f && LinkedRow(g, v, |g.adjacent[v]|, f, [], s)
    ensures s == []
  {
    NoCallbackToLeaf(g, v, |g.adjacent[v]|, f);
    FilterOthers([]);
    FilterLengths(s);
  }

  lemma {:induction false} NoCallbackToLeaf(g: Graph, v: nat, i: nat, f: nat)
    requires g.WellFormed() && CallbacksPresent(g) && v < |g.adjacent| && i <= |g.adjacent[v]| && f >= |g.calls|
    ensures CallbacksFrom(g, v, i, f) == []
    decreases i
  {
    hide Copy, CallbackEdge;
    if i > 0 {
      NoCallbackToLeaf(g, v, i - 1, f);
    }
  }

  /** A call without edges gets its finish edge in front of the edges already there. */
  lemma LeafProcessed(g: Graph, order: seq<nat>, v: nat, calls: seq<Call>, a: seq<seq<Edge>>)
    requires Built(g, order, calls, a) && v < |g.calls| && g.IsLeaf(v)
    ensures var w := Copy(g, v);
            Built(g, order + [v], calls + [FINISH], a[w := [FinishEdge(|g.calls| + |order|)] + a[w]] + [[]])
  {
    hide Others, Callbacks, Row, CallbacksPresent, Only, Copy;
    var r := Copy(g, v);
    var d := a[r := [FinishEdge(|g.calls| + |order|)] + a[r]] + [[]];
    forall w | 0 <= w < |g.calls| ensures Row(g, order + [v], w, d[w]) {
      if w == r {
        LeafRow(g, order, v, a[r]);
      } else {
        LinkNothing(g, v, a);
        assert LinkedRow(g, v, 0, w, a[w], a[w]);
        OtherRow(g, order, v, w, a[w], a[w]);
      }
    }
  }

  lemma LeafRow(g: Graph, order: seq<nat>, v: nat, s: seq<Edge>)
    requires g.WellFormed() && CallbacksPresent(g) && Within(g, order) && v < |g.calls| && g.IsLeaf(v)
    requires Row(g, order, Copy(g, v), s)
    ensures Row(g, order + [v], Copy(g, v), [FinishEdge(|g.calls| + |order|)] + s)
  {
    hide Others, Callbacks, CallbacksInto, Work, CallbacksPresent, Copy, Own, Led, Only;
    var own := [FinishEdge(|g.calls| + |order|)];
    FilterConcat(own, s);
    FilterOthers(own);
    WorkNext(g, order, v, Copy(g, v));
    CallbacksIntoNext(g, order, v, Copy(g, v));
  }

  // ----- The construction -----

  ghost function Unvisited(g: Graph, visited: set<nat>): set<nat> {
    set v: nat | v < |g.calls| && v !in visited
  }

  lemma FewerUnvisited(g: Graph, before: set<nat>, after: set<nat>, v: nat)
    requires v < |g.calls| && v !in before && before + {v} <= after
    ensures Unvisited(g, after) < Unvisited(g, before)
  {
    assert v in Unvisited(g, before);
  }

  class ExecutionGraphBuilder {
    const graph: Graph
    var calls: seq<Call>
    var adjacent: seq<seq<Edge>>
    var gas: seq<NodeGas>
    var failing: set<nat>
    var visited: set<nat>
    ghost const given: set<nat>
    ghost var order: seq<nat>

    ghost predicate Valid()
      reads this
    {
      && Built(graph, order, calls, adjacent) && |gas| == |calls| && failing == given + BrokenBy(graph, order)
      && (forall v :: v in visited <==> v in order)
      && (forall j, k :: 0 <= j < k < |order| ==> order[j] != order[k])
    }

    /** `newGraphUsingNodes`. */
    constructor (g: Graph, gas: seq<NodeGas>, failing: set<nat>)
      requires Callable(g) && |gas| == |g.calls|
      ensures Valid() && graph == g && order == [] && this.gas == gas && given == failing
    {
      graph, calls, adjacent, this.gas := g, g.calls, seq(|g.calls|, _ => []), gas;
      this.failing, given, visited, order := failing, failing, {}, [];
    }

    /** `FindNode`. */
    method FindNode(c: Call) returns (r: Option<nat>)
      ensures r.None? <==> c !in calls
      ensures r.Some? ==> c in calls && r.value == NodeOf(calls, c)
    {
      for i := 0 to |calls|
        invariant forall j :: 0 <= j < i ==> calls[j] != c
      {
        if calls[i] == c {
          return Some(i);
        }
      }
      return None;
    }

    /** The execution graph's copy of a node of the call graph. */
    method FindCopy(v: nat) returns (r: nat)
      requires Callable(graph) && v < |graph.calls| <= |calls| && calls[..|graph.calls|] == graph.calls
      ensures r == Copy(graph, v)
    {
      hide NodeOf;
      PrefixNode(graph.calls, calls, graph.calls[v]);
      var found := FindNode(graph.calls[v]);
      r := found.value;
    }

    method AddEdge(from: nat, e: Edge)
      requires from < |adjacent|
      modifies this`adjacent
      ensures adjacent == old(adjacent)[from := old(adjacent[from]) + [e]]
    {
      adjacent := adjacent[from := adjacent[from] + [e]];
    }

    /** `buildFinishNode`. */
    method AddFinishLeaf() returns (f: nat)
      modifies this`calls, this`adjacent, this`gas
      ensures f == old(|calls|) && calls == old(calls) + [FINISH] && adjacent == old(adjacent) + [[]] && gas == old(gas) + [NO_GAS]
    {
      f := |calls|;
      calls, adjacent, gas := calls + [FINISH], adjacent + [[]], gas + [NO_GAS];
    }

    /** `addSyncEdgesToExecutionGraph`. */
    method AddSyncEdges(v: nat, source: nat)
      requires Callable(graph) && v < |graph.calls| <= |calls| && calls[..|graph.calls|] == graph.calls && |adjacent| == |calls|
      requires source == Copy(graph, v)
      modifies this`adjacent
      ensures adjacent == old(adjacent)[source := old(adjacent[source]) + Only(IsSync, Led(graph, v))]
    {
      hide CallbacksPresent, Copy, Led, Only;
      var edges := graph.adjacent[v];
      ghost var led := Led(graph, v);
      ghost var row := adjacent[source];
      OnlyNothing(IsSync, led);
      for i := 0 to |edges|
        invariant |adjacent| == |old(adjacent)| && adjacent[source] == row + Only(IsSync, led[..i])
        invariant forall w :: 0 <= w < |adjacent| && w != source ==> adjacent[w] == old(adjacent[w])
      {
        OnlyNext(IsSync, led, i);
        if edges[i].typ.Sync? {
          var to := FindCopy(edges[i].to);
          AddEdge(source, edges[i].(to := to));
          assert row + Only(IsSync, led[..i]) + [led[i]] == row + Only(IsSync, led[..i + 1]);
        }
      }
      assert led[..|edges|] == led;
    }

    /** The callback that edge `i` of `v` names becomes an edge of the called node, and a failing one marks its node. */
    method AddCallback(v: nat, i: nat, to: nat)
      requires Callable(graph) && v < |graph.calls| <= |calls| && calls[..|graph.calls|] == graph.calls && to < |adjacent|
      requires i < |graph.adjacent[v]| && NamesCallback(graph.adjacent[v][i])
      modifies this`adjacent, this`failing
      ensures CallbackCall(graph, v, graph.adjacent[v][i]) in graph.calls
      ensures adjacent == old(adjacent)[to := old(adjacent[to]) + [CallbackEdge(graph, v, graph.adjacent[v][i])]]
      ensures failing == old(failing) + (if graph.adjacent[v][i].callbackFail then {CallbackNode(graph, v, i)} else {})
    {
      hide NodeOf;
      var e := graph.adjacent[v][i];
      var c := CallbackCall(graph, v, e);
      PrefixNode(graph.calls, calls, c);
      var callback := FindNode(c);
      var typ := if e.typ.Async? then Callback else CallbackCrossShard;
      AddEdge(to, Edge(0, typ, "", callback.value, 0, 0, e.gasUsedByCallback, 0, "Callback", e.callbackFail, false));
      if e.callbackFail {
        failing := failing + {callback.value};
      }
    }

    /** One turn of `addAsyncEdgesToExecutionGraph`. */
    method AddAsyncEdge(v: nat, i: nat, source: nat)
      requires Callable(graph) && v < |graph.calls| <= |calls| && calls[..|graph.calls|] == graph.calls && |adjacent| == |calls|
      requires source == Copy(graph, v) && i < |graph.adjacent[v]|
      modifies this`adjacent, this`failing
      ensures |adjacent| == |old(adjacent)|
      ensures forall w :: 0 <= w < |adjacent| ==> adjacent[w] == old(adjacent[w]) + Ahead(graph, v, i, w) + Back(graph, v, i, w)
      ensures failing == old(failing) + Broken(graph, v, i)
    {
      hide Copy, CallbackNode, CallbackEdge, CallbacksPresent;
      var e := graph.adjacent[v][i];
      if e.typ.IsAsync() {
        var to := FindCopy(e.to);
        AddEdge(source, e.(to := to));
        if e.callback != "" {
          AddCallback(v, i, to);
        }
      }
    }

    /** `addAsyncEdgesToExecutionGraph`: the callback of an async call leaves the called node. */
    method AddAsyncEdges(v: nat, source: nat)
      requires Callable(graph) && v < |graph.calls| <= |calls| && calls[..|graph.calls|] == graph.calls && |adjacent| == |calls|
      requires source == Copy(graph, v)
      modifies this`adjacent, this`failing
      ensures |adjacent| == |old(adjacent)| && Linked(graph, v, |graph.adjacent[v]|, old(adjacent), adjacent)
      ensures failing == old(failing) + BrokenFrom(graph, v, |graph.adjacent[v]|)
    {
      hide Linked, Copy, Ahead, Back, CallbackNode, CallbacksPresent;
      ghost var start := adjacent;
      LinkNothing(graph, v, start);
      for i := 0 to |graph.adjacent[v]|
        invariant |adjacent| == |start| && Linked(graph, v, i, start, adjacent)
        invariant failing == old(failing) + BrokenFrom(graph, v, i)
      {
        ghost var before := adjacent;
        AddAsyncEdge(v, i, source);
        LinkNext(graph, v, i, start, before, adjacent);
      }
    }

    /** `moveCallbacksToTheEndOfEdges`. */
    method MoveCallbacksToTheEndOfEdges(v: nat)
      requires v < |adjacent|
      modifies this`adjacent
      ensures adjacent == old(adjacent)[v := Others(old(adjacent[v])) + Callbacks(old(adjacent[v]))]
    {
      var edges := adjacent[v];
      var others, callbacks := [], [];
      for i := 0 to |edges|
        invariant others == Others(edges[..i]) && callbacks == Callbacks(edges[..i])
      {
        assert edges[..i + 1][..i] == edges[..i];
        if edges[i].typ.IsCallback() {
          callbacks := callbacks + [edges[i]];
        } else {
          others := others + [edges[i]];
        }
      }
      assert edges[..|edges|] == edges;
      adjacent := adjacent[v := others + callbacks];
    }

    /** The closure of `CreateExecutionGraphFromCallGraph` on a call without edges. */
    method ProcessLeaf(v: nat, source: nat)
      requires Built(graph, order, calls, adjacent) && v < |graph.calls| && graph.IsLeaf(v) && source == Copy(graph, v)
      modifies this`calls, this`adjacent, this`gas
      ensures Within(graph, order + [v]) && Built(graph, order + [v], calls, adjacent)
      ensures gas == old(gas) + [NO_GAS]
    {
      hide Row, CallbacksPresent, Copy;
      ghost var a := adjacent;
      LeafProcessed(graph, order, v, calls, a);
      var f := AddFinishLeaf();
      adjacent := adjacent[source := [FinishEdge(f)] + adjacent[source]];
      assert adjacent == a[source := [FinishEdge(f)] + a[source]] + [[]];
    }

    /** The closure on a call with edges. */
    method ProcessInner(v: nat, source: nat)
      requires Built(graph, order, calls, adjacent) && v < |graph.calls| && !graph.IsLeaf(v) && source == Copy(graph, v)
      modifies this`calls, this`adjacent, this`gas, this`failing
      ensures Within(graph, order + [v]) && Built(graph, order + [v], calls, adjacent)
      ensures gas == old(gas) + [NO_GAS] && failing == old(failing) + BrokenFrom(graph, v, |graph.adjacent[v]|)
    {
      hide Row, Only, CallbacksPresent, Others, Callbacks, Linked, Copy, Led, BrokenFrom;
      ghost var a := adjacent;
      AddSyncEdges(v, source);
      var f := AddFinishLeaf();
      AddEdge(source, FinishEdge(f));
      ghost var b := adjacent;
      assert b == a[source := a[source] + Only(IsSync, Led(graph, v)) + [FinishEdge(f)]] + [[]];
      AddAsyncEdges(v, source);
      InnerProcessed(graph, order, v, old(calls), a, b, adjacent);
      MoveCallbacksToTheEndOfEdges(source);
    }

    /** The closure of `CreateExecutionGraphFromCallGraph`. */
    method ProcessNode(v: nat)
      requires Valid() && v < |graph.calls| && v !in visited
      modifies this`calls, this`adjacent, this`gas, this`failing, this`order
      ensures Built(graph, order, calls, adjacent) && order == old(order) + [v] && |gas| == |calls|
      ensures failing == given + BrokenBy(graph, order)
      ensures |old(gas)| <= |gas| && gas[..|old(gas)|] == old(gas)
    {
      hide Row, CallbacksPresent, Copy, BrokenBy;
      BrokenNext(graph, order, v);
      var source := FindCopy(v);
      if graph.IsLeaf(v) {
        ProcessLeaf(v, source);
      } else {
        ProcessInner(v, source);
      }
      order := order + [v];
    }

    /** `dfsFromNode`. */
    method DfsFromNode(v: nat)
      requires Valid() && v < |graph.calls|
      modifies this
      ensures Valid() && v in visited && old(visited) <= visited
      ensures |old(gas)| <= |gas| && gas[..|old(gas)|] == old(gas)
      decreases Unvisited(graph, visited)
    {
      hide Row, CallbacksPresent;
      if v in visited {
        return;
      }
      ProcessNode(v);
      visited := visited + {v};
      for i := 0 to |graph.adjacent[v]|
        invariant Valid() && old(visited) + {v} <= visited
        invariant |old(gas)| <= |gas| && gas[..|old(gas)|] == old(gas)
      {
        FewerUnvisited(graph, old(visited), visited, v);
        DfsFromNode(graph.adjacent[v][i].to);
      }
    }

    /** `DfsGraph`: every call is processed once. */
    method DfsGraph()
      requires Valid()
      modifies this
      ensures Valid() && forall v :: 0 <= v < |graph.calls| ==> v in order
      ensures |old(gas)| <= |gas| && gas[..|old(gas)|] == old(gas)
    {
      hide Row, CallbacksPresent;
      for v := 0 to |graph.calls|
        invariant Valid() && forall u :: 0 <= u < v ==> u in visited
        invariant |old(gas)| <= |gas| && gas[..|old(gas)|] == old(gas)
      {
        DfsFromNode(v);
      }
    }
  }

  /** `CreateExecutionGraphFromCallGraph`; `order` is the order of the depth-first search. */
  method CreateExecutionGraph(g: Graph, gas: seq<NodeGas>, given: set<nat>)
    returns (e: ExecutionGraph, failing: set<nat>, ghost order: seq<nat>)
    requires Callable(g) && |gas| == |g.calls|
    ensures fresh(e) && e.g.start == Copy(g, g.start) && Built(g, order, e.g.calls, e.g.adjacent)
    ensures |gas| <= |e.gas| == |e.g.calls| && e.gas[..|gas|] == gas
    ensures (forall v :: 0 <= v < |g.calls| ==> v in order) && forall j, k :: 0 <= j < k < |order| ==> order[j] != order[k]
    ensures forall c :: c in failing <==> c in given || IsBroken(g, c)
  {
    hide Row, CallbacksPresent, IsBroken, BrokenBy;
    var b := new ExecutionGraphBuilder(g, gas, given);
    var start := b.FindCopy(g.start);
    b.DfsGraph();
    order, failing := b.order, b.failing;
    forall c ensures c in failing <==> c in given || IsBroken(g, c) { BrokenOrigins(g, order, c); }
    e := new ExecutionGraph(Graph(b.calls, b.adjacent, start), b.gas);
  }

  /** Some async call of the graph names the callback and configures it to fail. */
  ghost predicate IsBroken(g: Graph, c: nat)
    requires Callable(g)
  {
    exists u, i :: 0 <= u < |g.adjacent| && 0 <= i < |g.adjacent[u]| && Breaks(g, u, i, c)
  }

  lemma {:induction false} BrokenByCalls(g: Graph, order: seq<nat>, c: nat)
    requires Callable(g) && Within(g, order)
    ensures c in BrokenBy(g, order) <==>
      exists k :: 0 <= k < |order| && c in BrokenFrom(g, order[k], |g.adjacent[order[k]]|)
    decreases |order|
  {
    hide CallbacksPresent, BrokenFrom;
    if order != [] {
      BrokenByCalls(g, order[..|order| - 1], c);
      assert forall k :: 0 <= k < |order| - 1 ==> order[k] == order[..|order| - 1][k];
    }
  }

  lemma BrokenOrigins(g: Graph, order: seq<nat>, c: nat)
    requires Callable(g) && Within(g, order) && forall v :: 0 <= v < |g.calls| ==> v in order
    ensures c in BrokenBy(g, order) <==> IsBroken(g, c)
  {
    hide CallbacksPresent, BrokenFrom, BrokenBy, Breaks;
    BrokenByCalls(g, order, c);
    forall u | 0 <= u < |g.adjacent|
      ensures c in BrokenFrom(g, u, |g.adjacent[u]|) <==> exists j :: 0 <= j < |g.adjacent[u]| && Breaks(g, u, j, c)
    {
      BrokenByEdges(g, u, |g.adjacent[u]|, c);
    }
    if IsBroken(g, c) {
      var u, i :| 0 <= u < |g.adjacent| && 0 <= i < |g.adjacent[u]| && Breaks(g, u, i, c);
      assert u in order;
      var k :| 0 <= k < |order| && order[k] == u;
      assert c in BrokenFrom(g, order[k], |g.adjacent[order[k]]|);
    }
  }

  lemma PrefixNode(calls: seq<Call>, more: seq<Call>, c: Call)
    requires |calls| <= |more| && more[..|calls|] == calls && c in calls
    ensures c in more && NodeOf(more, c) == NodeOf(calls, c)
  {
    assert forall k :: 0 <= k < |calls| ==> more[k] == more[..|calls|][k];
    assert more[NodeOf(calls, c)] == c;
  }

  // ----- What the execution graph contains -----

  /** A node does its own work first, then its callbacks follow. */
  lemma RowOf(g: Graph, order: seq<nat>, calls: seq<Call>, adjacent: seq<seq<Edge>>, v: nat)
    requires Built(g, order, calls, adjacent) && v < |g.calls|
    ensures v < |adjacent| && adjacent[v] == Work(g, order, v) + CallbacksInto(g, order, v)
  {
    hide Others, Callbacks, Work, CallbacksInto, CallbacksPresent;
    assert Row(g, order, v, adjacent[v]);
  }

  /** Work that node `v` does for call `u`, which was processed at step `k`. */
  ghost predicate WorkFor(g: Graph, order: seq<nat>, v: nat, k: nat, e: Edge)
    requires g.WellFormed() && Within(g, order) && k < |order|
  {
    Copy(g, order[k]) == v && (e == FinishEdge(|g.calls| + k) || (e in Led(g, order[k]) && (IsSync(e) || IsAsync(e))))
  }

  /** A node's work is exactly the finish edges and the sync and async calls of the calls it stands for. */
  lemma {:induction false} WorkOrigins(g: Graph, order: seq<nat>, v: nat, e: Edge)
    requires g.WellFormed() && Within(g, order)
    ensures e in Work(g, order, v) <==> exists k :: 0 <= k < |order| && WorkFor(g, order, v, k, e)
    decreases |order|
  {
    hide Copy, Led, Only;
    if order != [] {
      var front, u := order[..|order| - 1], order[|order| - 1];
      WorkOrigins(g, front, v, e);
      OnlyHas(IsSync, Led(g, u), e);
      OnlyHas(IsAsync, Led(g, u), e);
      LastWork(g, order, v, e);
      assert forall k :: 0 <= k < |front| ==> (WorkFor(g, order, v, k, e) <==> WorkFor(g, front, v, k, e));
    }
  }

  lemma LastWork(g: Graph, order: seq<nat>, v: nat, e: Edge)
    requires g.WellFormed() && Within(g, order) && order != []
    ensures e in Work(g, order, v) <==> e in Work(g, order[..|order| - 1], v) || WorkFor(g, order, v, |order| - 1, e)
  {
    hide Copy, Only, Led;
    var u := order[|order| - 1];
    OnlyHas(IsSync, Led(g, u), e);
    OnlyHas(IsAsync, Led(g, u), e);
  }

  lemma {:induction false} GivenByEdges(g: Graph, u: nat, i: nat, v: nat, e: Edge)
    requires g.WellFormed() && CallbacksPresent(g) && u < |g.adjacent| && i <= |g.adjacent[u]|
    ensures e in CallbacksFrom(g, u, i, v) <==> exists j :: 0 <= j < i && e in Back(g, u, j, v)
    decreases i
  {
    hide Back, CallbacksPresent;
    if i > 0 {
      GivenByEdges(g, u, i - 1, v, e);
    }
  }

  ghost predicate Gives(g: Graph, u: nat, v: nat, e: Edge)
    requires g.WellFormed() && CallbacksPresent(g) && u < |g.adjacent|
  {
    exists j :: 0 <= j < |g.adjacent[u]| && e in Back(g, u, j, v)
  }

  /** A node's callbacks are exactly those that async calls to it name. */
  lemma {:induction false} CallbackOrigins(g: Graph, order: seq<nat>, v: nat, e: Edge)
    requires g.WellFormed() && CallbacksPresent(g) && Within(g, order)
    ensures e in CallbacksInto(g, order, v) <==> exists k :: 0 <= k < |order| && Gives(g, order[k], v, e)
    decreases |order|
  {
    hide Gives, Back, CallbacksFrom, CallbacksPresent;
    if order != [] {
      var front, u := order[..|order| - 1], order[|order| - 1];
      CallbackOrigins(g, front, v, e);
      GivesMeans(g, u, v, e);
      assert forall k :: 0 <= k < |front| ==> order[k] == front[k];
    }
  }

  lemma GivesMeans(g: Graph, u: nat, v: nat, e: Edge)
    requires g.WellFormed() && CallbacksPresent(g) && u < |g.adjacent|
    ensures Gives(g, u, v, e) <==> e in CallbacksFrom(g, u, |g.adjacent[u]|, v)
  {
    GivenByEdges(g, u, |g.adjacent[u]|, v, e);
  }

  // ----- The order of a node's edges -----

  predicate DistinctSteps(order: seq<nat>) {
    forall j, k :: 0 <= j < k < |order| ==> order[j] != order[k]
  }

  /** No other call has the same address and function. */
  predicate StandsAlone(g: Graph, v: nat)
    requires v < |g.calls|
  {
    forall u :: 0 <= u < |g.calls| ==> (Copy(g, u) == v <==> u == v)
  }

  lemma {:induction false} NoWorkYet(g: Graph, order: seq<nat>, v: nat)
    requires g.WellFormed() && Within(g, order) && v < |g.calls| && StandsAlone(g, v) && v !in order
    ensures Work(g, order, v) == []
  {
    hide Copy, Own;
    if order != [] {
      assert order[|order| - 1] in order;
      NoWorkYet(g, order[..|order| - 1], v);
    }
  }

  lemma {:induction false} WorkAlone(g: Graph, order: seq<nat>, v: nat, k: nat)
    requires g.WellFormed() && Within(g, order) && v < |g.calls| && StandsAlone(g, v) && DistinctSteps(order)
    requires k < |order| && order[k] == v
    ensures Work(g, order, v) == if g.IsLeaf(v) then [FinishEdge(|g.calls| + k)] else Own(g, v, |g.calls| + k)
  {
    hide Copy, Own;
    var front := order[..|order| - 1];
    if k < |front| {
      assert order[|order| - 1] != v;
      WorkAlone(g, front, v, k);
    } else {
      NoWorkYet(g, front, v);
    }
  }

  /** When an edge comes: first sync calls, then the finish, then async calls, then callbacks. */
  function Stage(g: Graph, x: Edge): nat {
    match x.typ
    case Sync => if x.to < |g.calls| then 0 else 1
    case Async => 2
    case AsyncCrossShard => 2
    case Callback => 3
    case CallbackCrossShard => 3
  }

  predicate InStages(g: Graph, s: seq<Edge>) {
    forall i, j :: 0 <= i < j < |s| ==> Stage(g, s[i]) <= Stage(g, s[j])
  }

  predicate AllAt(g: Graph, s: seq<Edge>, stage: nat) {
    forall i :: 0 <= i < |s| ==> Stage(g, s[i]) == stage
  }

  lemma StagesJoin(g: Graph, a: seq<Edge>, b: seq<Edge>, stage: nat)
    requires InStages(g, a) && AllAt(g, b, stage) && forall i :: 0 <= i < |a| ==> Stage(g, a[i]) <= stage
    ensures InStages(g, a + b) && forall i :: 0 <= i < |a + b| ==> Stage(g, (a + b)[i]) <= stage
  {
    hide Stage;
  }

  lemma KindsAt(g: Graph, v: nat, finish: nat)
    requires g.WellFormed() && v < |g.calls| <= finish
    ensures AllAt(g, Only(IsSync, Led(g, v)), 0) && AllAt(g, [FinishEdge(finish)], 1) && AllAt(g, Only(IsAsync, Led(g, v)), 2)
  {
    hide Only, Copy;
    var syncs, asyncs := Only(IsSync, Led(g, v)), Only(IsAsync, Led(g, v));
    forall k | 0 <= k < |syncs| ensures Stage(g, syncs[k]) == 0 {
      OnlyHold(IsSync, Led(g, v), k);
      OnlyHas(IsSync, Led(g, v), syncs[k]);
    }
    forall k | 0 <= k < |asyncs| ensures Stage(g, asyncs[k]) == 2 { OnlyHold(IsAsync, Led(g, v), k); }
  }

  lemma OwnInStages(g: Graph, v: nat, finish: nat)
    requires g.WellFormed() && v < |g.calls| <= finish
    ensures InStages(g, Own(g, v, finish)) && forall i :: 0 <= i < |Own(g, v, finish)| ==> Stage(g, Own(g, v, finish)[i]) <= 2
  {
    hide Only, Led, Stage;
    var syncs, asyncs := Only(IsSync, Led(g, v)), Only(IsAsync, Led(g, v));
    KindsAt(g, v, finish);
    StagesJoin(g, syncs, [FinishEdge(finish)], 1);
    StagesJoin(g, syncs + [FinishEdge(finish)], asyncs, 2);
  }

  /** A call makes its sync calls, finishes, makes its async calls, and its callbacks come last. */
  lemma WorkInStages(g: Graph, order: seq<nat>, calls: seq<Call>, adjacent: seq<seq<Edge>>, v: nat)
    requires Built(g, order, calls, adjacent) && v < |g.calls| && StandsAlone(g, v) && DistinctSteps(order) && v in order
    ensures v < |adjacent| && InStages(g, adjacent[v])
  {
    hide Own, Stage, Work, CallbacksInto, CallbacksPresent, Copy, Only;
    var k :| 0 <= k < |order| && order[k] == v;
    RowOf(g, order, calls, adjacent, v);
    WorkAlone(g, order, v, k);
    if !g.IsLeaf(v) {
      OwnInStages(g, v, |g.calls| + k);
    } else {
      FinishStage(g, |g.calls| + k);
    }
    CallbackStage(g, order, v, adjacent[v]);
    StagesJoin(g, Work(g, order, v), CallbacksInto(g, order, v), 3);
  }

  lemma FinishStage(g: Graph, f: nat)
    requires |g.calls| <= f
    ensures Stage(g, FinishEdge(f)) == 1
  {
  }

  lemma CallbackStage(g: Graph, order: seq<nat>, v: nat, s: seq<Edge>)
    requires Callable(g) && v < |g.calls| && Within(g, order) && Row(g, order, v, s)
    ensures AllAt(g, CallbacksInto(g, order, v), 3)
  {
    hide Only, Work, CallbacksInto, CallbacksPresent;
    forall k | 0 <= k < |Callbacks(s)| ensures Stage(g, Callbacks(s)[k]) == 3 { OnlyHold(IsBack, s, k); }
  }
}
