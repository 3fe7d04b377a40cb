/**
  The filter of the path enumeration on execution graphs: after an async call it is meant to let pass
  the call's own callback only. It compares function names, so it does exactly when no callers with
  different addresses name the same callback for calls of one type to one node.
 */
module CallbackFilter {
  import opened Options
  import opened CallGraph
  import opened Paths
  import opened ExecutionBuild
  import opened BuiltGraph
  import opened CallTree
  import OneCallback
  import Pipeline
  import Gas

  /** Two async calls of one type to one node name the same callback, at different addresses. */
  predicate Collide(g: Graph, u: nat, i: nat, w: nat, j: nat)
    requires Callable(g) && u < |g.adjacent| && i < |g.adjacent[u]| && w < |g.adjacent| && j < |g.adjacent[w]|
  {
    var a, b := g.adjacent[u][i], g.adjacent[w][j];
    && NamesCallback(a) && NamesCallback(b) && a.typ == b.typ && a.callback == b.callback
    && Copy(g, a.to) == Copy(g, b.to) && g.calls[u].address != g.calls[w].address
  }

  predicate NoCollision(g: Graph)
    requires Callable(g)
  {
    forall u, i, w, j :: 0 <= u < |g.adjacent| && 0 <= i < |g.adjacent[u]| && 0 <= w < |g.adjacent| && 0 <= j < |g.adjacent[w]| ==>
      !Collide(g, u, i, w, j)
  }

  /** Every callback that passes the filter after async call `i` of `u` is its own. */
  ghost predicate OwnOnly(g: Graph, e: Graph, u: nat, i: nat)
    requires Callable(g) && e.WellFormed() && |g.calls| <= |e.calls| && u < |g.adjacent| && i < |g.adjacent[u]|
  {
    var a := Led(g, u)[i];
    forall k :: 0 <= k < |e.adjacent[a.to]| && OneCallback.Answers(e, a, e.adjacent[a.to][k]) ==>
      e.calls[e.adjacent[a.to][k].to] == CallbackCall(g, u, a)
  }

  ghost predicate AllOwnOnly(g: Graph, e: Graph)
    requires Callable(g) && e.WellFormed() && |g.calls| <= |e.calls|
  {
    forall u, i :: 0 <= u < |g.adjacent| && 0 <= i < |g.adjacent[u]| && g.adjacent[u][i].typ.IsAsync() ==> OwnOnly(g, e, u, i)
  }

  lemma BuiltWellFormed(g: Graph, order: seq<nat>, e: Graph)
    requires IsExecutionOf(g, order, e)
    ensures Callable(g) && e.WellFormed() && |g.calls| <= |e.calls|
  {
    hide IsExecutionOf, Copy, CallbacksPresent;
    BuiltParts(g, order, e);
    forall v, i | 0 <= v < |e.adjacent| && 0 <= i < |e.adjacent[v]| ensures e.adjacent[v][i].to < |e.calls| {
      TargetStands(g, order, e, v, e.adjacent[v][i]);
    }
  }

  /** A callback edge leads to the call it was named by, in the execution graph as in the call graph. */
  lemma GivenCall(g: Graph, order: seq<nat>, e: Graph, v: nat, x: Edge) returns (w: nat, j: nat)
    requires IsExecutionOf(g, order, e) && v < |g.calls| && v < |e.adjacent| && x in e.adjacent[v] && IsBack(x)
    ensures Callable(g) && w < |g.adjacent| && j < |g.adjacent[w]| && NamesCallback(g.adjacent[w][j])
    ensures Copy(g, g.adjacent[w][j].to) == v && (x.typ == Callback <==> g.adjacent[w][j].typ == Async)
    ensures x.to < |e.calls| && e.calls[x.to] == CallbackCall(g, w, g.adjacent[w][j])
    ensures x.id == 0 && x.caption == "Callback" && x.callback == "" && !x.callbackFail
    ensures x.fail == g.adjacent[w][j].callbackFail && x.gasUsedByCallback == g.adjacent[w][j].gasUsedByCallback
    ensures x.gasLimit == 0 && x.gasUsed == 0 && x.gasLocked == 0
  {
    hide Built, IsWork, IsGiven, Copy, CallbacksPresent;
    BuiltParts(g, order, e);
    EdgeOrigins(g, order, e, v, x);
    if IsWork(g, order, v, x) {
      var k, i := WorkEdge(g, order, v, x);
    }
    w, j := GivenEdge(g, v, x);
  }

  /** What passes the filter after an async call was named by a call of its type, with its callback's name. */
  lemma AnswerWasNamed(g: Graph, order: seq<nat>, e: Graph, u: nat, i: nat, x: Edge) returns (w: nat, j: nat)
    requires IsExecutionOf(g, order, e) && Callable(g) && e.WellFormed() && |g.calls| <= |e.calls|
    requires u < |g.adjacent| && i < |g.adjacent[u]| && g.adjacent[u][i].typ.IsAsync()
    requires x in e.adjacent[Led(g, u)[i].to] && x.to < |e.calls| && OneCallback.Answers(e, Led(g, u)[i], x)
    ensures w < |g.adjacent| && j < |g.adjacent[w]| && NamesCallback(g.adjacent[u][i]) && NamesCallback(g.adjacent[w][j])
    ensures g.adjacent[w][j].typ == g.adjacent[u][i].typ && g.adjacent[w][j].callback == g.adjacent[u][i].callback
    ensures Copy(g, g.adjacent[w][j].to) == Copy(g, g.adjacent[u][i].to)
    ensures e.calls[x.to] == CallbackCall(g, w, g.adjacent[w][j]) && x.id == 0 && x.caption == "Callback"
  {
    hide IsExecutionOf, Copy, CallbacksPresent;
    w, j := GivenCall(g, order, e, Led(g, u)[i].to, x);
  }

  /** The callback that an async call names is an edge of the called node and passes the filter. */
  lemma OwnIsFollowed(g: Graph, order: seq<nat>, e: Graph, w: nat, j: nat, u: nat, i: nat) returns (k: nat)
    requires IsExecutionOf(g, order, e) && Callable(g) && e.WellFormed() && |g.calls| <= |e.calls|
    requires u < |g.adjacent| && i < |g.adjacent[u]| && w < |g.adjacent| && j < |g.adjacent[w]|
    requires var a, b := g.adjacent[u][i], g.adjacent[w][j];
             && NamesCallback(a) && NamesCallback(b) && a.typ == b.typ && a.callback == b.callback
             && Copy(g, a.to) == Copy(g, b.to)
    ensures var a := Led(g, u)[i];
            && k < |e.adjacent[a.to]| && OneCallback.Answers(e, a, e.adjacent[a.to][k])
            && e.calls[e.adjacent[a.to][k].to] == CallbackCall(g, w, g.adjacent[w][j])
  {
    hide IsExecutionOf, Copy, NodeOf;
    BuiltParts(g, order, e);
    var v := Led(g, u)[i].to;
    var x := CallbackEdge(g, w, g.adjacent[w][j]);
    assert x in Back(g, w, j, v);
    assert Gives(g, w, v, x);
    EdgeOrigins(g, order, e, v, x);
    k :| 0 <= k < |e.adjacent[v]| && e.adjacent[v][k] == x;
  }

  /** The filter lets pass own callbacks only, exactly when no two async calls collide. */
  lemma FilterMeaning(g: Graph, order: seq<nat>, e: Graph)
    requires IsExecutionOf(g, order, e)
    ensures Callable(g) && e.WellFormed() && |g.calls| <= |e.calls|
    ensures AllOwnOnly(g, e) <==> NoCollision(g)
  {
    hide IsExecutionOf, Copy, CallbacksPresent, OneCallback.Answers;
    BuiltWellFormed(g, order, e);
    if NoCollision(g) {
      forall u, i | 0 <= u < |g.adjacent| && 0 <= i < |g.adjacent[u]| && g.adjacent[u][i].typ.IsAsync()
        ensures OwnOnly(g, e, u, i)
      {
        OwnWithoutCollision(g, order, e, u, i);
      }
    } else {
      var u, i, w, j :| 0 <= u < |g.adjacent| && 0 <= i < |g.adjacent[u]| && 0 <= w < |g.adjacent| && 0 <= j < |g.adjacent[w]|
                        && Collide(g, u, i, w, j);
      var k := OwnIsFollowed(g, order, e, w, j, u, i);
      assert !OwnOnly(g, e, u, i);
    }
  }

  lemma OwnWithoutCollision(g: Graph, order: seq<nat>, e: Graph, u: nat, i: nat)
    requires IsExecutionOf(g, order, e) && Callable(g) && e.WellFormed() && |g.calls| <= |e.calls| && NoCollision(g)
    requires u < |g.adjacent| && i < |g.adjacent[u]| && g.adjacent[u][i].typ.IsAsync()
    ensures OwnOnly(g, e, u, i)
  {
    hide IsExecutionOf, Copy, CallbacksPresent, OneCallback.Answers;
    var a := Led(g, u)[i];
    forall k | 0 <= k < |e.adjacent[a.to]| && OneCallback.Answers(e, a, e.adjacent[a.to][k])
      ensures e.calls[e.adjacent[a.to][k].to] == CallbackCall(g, u, a)
    {
      var w, j := AnswerWasNamed(g, order, e, u, i, e.adjacent[a.to][k]);
      assert !Collide(g, u, i, w, j);
    }
  }

  // ----- A graph on which a stranger's callback is followed -----

  function AsyncEdge(id: nat, to: nat): Edge {
    Edge(id, Async, "cb", to, 0, 0, 0, 150, "Async\ncb", false, false)
  }

  /** A.f calls B.g and C.h; C.h calls B.g, too; both want B.g to be answered at their own "cb". */
  function Strangers(): Graph {
    Graph([Call("A", "f"), Call("B", "g"), Call("A", "cb"), Call("C", "h"), Call("C", "cb")],
          [[AsyncEdge(1, 1), Edge(2, Sync, "", 3, 0, 0, 0, 0, "Sync", false, false)], [], [], [AsyncEdge(3, 1)], []],
          0)
  }

  lemma FirstWithItsCall(g: Graph, v: nat)
    requires v < |g.calls| && forall j :: 0 <= j < v ==> g.calls[j] != g.calls[v]
    ensures Copy(g, v) == v
  {
    hide NodeOf;
  }

  lemma StrangersStand()
    ensures var g := Strangers(); Callable(g) && forall v :: 0 <= v < 5 ==> Copy(g, v) == v
  {
    hide NodeOf;
    var g := Strangers();
    assert g.calls[2] == CallbackCall(g, 0, g.adjacent[0][0]);
    assert g.calls[4] == CallbackCall(g, 3, g.adjacent[3][0]);
    forall v | 0 <= v < 5 ensures Copy(g, v) == v { FirstWithItsCall(g, v); }
  }

  /** The graph is one that the whole chain accepts, and its calls collide. */
  lemma StrangersCollide()
    ensures var g := Strangers();
            && Callable(g) && RankedCalls(g, [3, 1, 0, 2, 0]) && Numbered(g) && Reliable(g) && FINISH !in g.calls
            && Collide(g, 0, 0, 3, 0) && !NoCollision(g)
  {
    hide NodeOf, Copy;
    var g := Strangers();
    StrangersStand();
    assert CallbackNode(g, 0, 0) == 2 && CallbackNode(g, 3, 0) == 4 by {
      assert CallbackNode(g, 0, 0) == NodeOf(g.calls, g.calls[2]) && CallbackNode(g, 3, 0) == NodeOf(g.calls, g.calls[4]);
      assert Copy(g, 2) == 2 && Copy(g, 4) == 4;
    }
    forall u, i | 0 <= u < |g.adjacent| && 0 <= i < |g.adjacent[u]| ensures EdgeRanked(g, [3, 1, 0, 2, 0], u, i) {
      assert (u == 0 && i == 0) || (u == 0 && i == 1) || (u == 3 && i == 0);
    }
  }

  /** In every execution graph built from it, A.f's call may be answered by C's callback. */
  lemma StrangerIsFollowed(order: seq<nat>, e: Graph)
    requires IsExecutionOf(Strangers(), order, e)
    ensures Callable(Strangers()) && e.WellFormed() && |Strangers().calls| <= |e.calls| && !AllOwnOnly(Strangers(), e)
  {
    hide IsExecutionOf, Strangers, AllOwnOnly, Copy, RankedCalls, NoCollision;
    StrangersCollide();
    FilterMeaning(Strangers(), order, e);
  }

  // ----- Which call graphs pay for their callbacks -----

  predicate DistinctNumbers(g: Graph) {
    forall u, i, w, j :: 0 <= u < |g.adjacent| && 0 <= i < |g.adjacent[u]| && 0 <= w < |g.adjacent| && 0 <= j < |g.adjacent[w]| ==>
      (g.adjacent[u][i].id == g.adjacent[w][j].id ==> u == w && i == j)
  }

  /** A sync or async call of the call graph. */
  predicate IsCall(g: Graph, r: EdgeRef) {
    r.from < |g.adjacent| && r.index < |g.adjacent[r.from]| && !g.adjacent[r.from][r.index].typ.IsCallback()
  }

  /** Consecutive calls, from the start of the call graph. */
  predicate IsWalk(g: Graph, c: seq<EdgeRef>)
    requires g.WellFormed()
  {
    && (forall k :: 0 <= k < |c| ==> IsCall(g, c[k]))
    && (c != [] ==> Copy(g, c[0].from) == Copy(g, g.start))
    && forall k :: 0 < k < |c| ==> Copy(g, c[k].from) == Copy(g, Target(g, c[k - 1]))
  }

  function Target(g: Graph, r: EdgeRef): (v: nat)
    requires g.WellFormed() && IsCall(g, r)
    ensures v < |g.calls|
  {
    g.adjacent[r.from][r.index].to
  }

  /** Call `i` of `u` is made in some run from the start. */
  ghost predicate Reached(g: Graph, u: nat, i: nat)
    requires g.WellFormed()
  {
    exists c: seq<EdgeRef> :: IsWalk(g, c) && c != [] && c[|c| - 1] == EdgeRef(u, i)
  }

  /** No async call with a callback leads to the start. */
  predicate StartUncalled(g: Graph)
    requires Callable(g)
  {
    forall u, i :: 0 <= u < |g.adjacent| && 0 <= i < |g.adjacent[u]| && NamesCallback(g.adjacent[u][i]) ==>
      Copy(g, g.adjacent[u][i].to) != Copy(g, g.start)
  }

  /** No call that is made in a run collides with another one. */
  ghost predicate NoReachedCollision(g: Graph)
    requires Callable(g)
  {
    forall u, i, w, j :: 0 <= u < |g.adjacent| && 0 <= i < |g.adjacent[u]| && 0 <= w < |g.adjacent| && 0 <= j < |g.adjacent[w]| ==>
      !(Collide(g, u, i, w, j) && Reached(g, u, i))
  }

  ghost predicate PaidFor(g: Graph)
    requires Callable(g)
  {
    StartUncalled(g) && NoReachedCollision(g)
  }

  /** A call made in the execution graph is a finish edge or an edge of a call that the node stands for. */
  lemma MadeCall(g: Graph, order: seq<nat>, e: Graph, v: nat, x: Edge) returns (u: nat, i: nat)
    requires IsExecutionOf(g, order, e) && v < |g.calls| && v < |e.adjacent| && x in e.adjacent[v] && NotBack(x)
    ensures g.WellFormed()
    ensures (x == Edge(0, Sync, "", x.to, 0, 0, 0, 0, "", false, false) && x.to >= |g.calls|) ||
            (u < |g.calls| && Copy(g, u) == v && i < |g.adjacent[u]| && x == Led(g, u)[i] && (IsSync(x) || IsAsync(x)))
  {
    hide Built, IsWork, IsGiven, Copy, CallbacksPresent, Led;
    BuiltParts(g, order, e);
    EdgeOrigins(g, order, e, v, x);
    if IsGiven(g, v, x) && !IsWork(g, order, v, x) {
      var w, j := GivenEdge(g, v, x);
    }
    var k;
    k, i := WorkEdge(g, order, v, x);
    u := order[k];
  }

  lemma CallsAlike(g: Graph, order: seq<nat>, e: Graph, v: nat, x: Edge, y: Edge)
    requires IsExecutionOf(g, order, e) && e.WellFormed() && Callable(g) && Numbered(g) && DistinctNumbers(g)
    requires v < |g.calls| && v < |e.adjacent| && x in e.adjacent[v] && y in e.adjacent[v]
    requires NotBack(x) && NotBack(y) && x.id == y.id
    ensures x == y.(to := x.to)
  {
    hide IsExecutionOf, Copy, CallbacksPresent;
    var u, i := MadeCall(g, order, e, v, x);
    var w, j := MadeCall(g, order, e, v, y);
  }

  lemma KeysTellMadeCalls(g: Graph, order: seq<nat>, e: Graph)
    requires IsExecutionOf(g, order, e) && e.WellFormed() && Callable(g) && Numbered(g) && DistinctNumbers(g)
    ensures OneCallback.KeysTellCalls(e)
  {
    hide IsExecutionOf, Copy, CallbacksPresent, Numbered, DistinctNumbers;
    BuiltParts(g, order, e);
    forall v, i, j | 0 <= v < |e.adjacent| && 0 <= i < |e.adjacent[v]| && 0 <= j < |e.adjacent[v]|
      ensures OneCallback.AlikeIfKeyed(e, e.adjacent[v][i], e.adjacent[v][j])
    {
      var x, y := e.adjacent[v][i], e.adjacent[v][j];
      if NotBack(x) && NotBack(y) && x.id == y.id {
        CallsAlike(g, order, e, v, x, y);
      }
    }
  }

  // ----- Walks of the call graph and paths of the execution graph -----

  /** The execution graph makes the calls of a walk. */
  ghost predicate Follows(g: Graph, e: Graph, c: seq<EdgeRef>, p: Path)
    requires g.WellFormed() && e.WellFormed() && IsWalk(g, c)
  {
    && |p| == |c|
    && forall k :: 0 <= k < |c| ==> ValidRef(e, p[k]) && EdgeAt(e, p[k]) == Led(g, c[k].from)[c[k].index]
  }

  lemma LedIsMade(g: Graph, order: seq<nat>, e: Graph, r: EdgeRef) returns (k: nat)
    requires IsExecutionOf(g, order, e) && e.WellFormed() && Callable(g) && |g.calls| <= |e.calls| && IsCall(g, r)
    ensures k < |e.adjacent[Copy(g, r.from)]| && e.adjacent[Copy(g, r.from)][k] == Led(g, r.from)[r.index]
  {
    hide Built, Copy, CallbacksPresent;
    BuiltParts(g, order, e);
    var v, x := Copy(g, r.from), Led(g, r.from)[r.index];
    assert r.from in order;
    var l :| 0 <= l < |order| && order[l] == r.from;
    assert WorkFor(g, order, v, l, x);
    EdgeOrigins(g, order, e, v, x);
    k :| 0 <= k < |e.adjacent[v]| && e.adjacent[v][k] == x;
  }

  lemma WalkFront(g: Graph, c: seq<EdgeRef>)
    requires g.WellFormed() && IsWalk(g, c) && c != []
    ensures IsWalk(g, c[..|c| - 1])
  {
    hide Copy;
    var d := c[..|c| - 1];
    assert forall k :: 0 <= k < |d| ==> d[k] == c[k];
  }

  lemma NoSteps(g: Graph, e: Graph)
    requires g.WellFormed() && e.WellFormed()
    ensures IsWalk(g, []) && OneCallback.Plain(e, []) && Follows(g, e, [], [])
  {
  }

  lemma LastIsInPlain(e: Graph, q: Path)
    requires e.WellFormed() && OneCallback.Plain(e, q)
    ensures IsPath(e, q)
  {
  }

  lemma {:induction false} PathOfWalk(g: Graph, order: seq<nat>, e: Graph, c: seq<EdgeRef>) returns (p: Path)
    requires IsExecutionOf(g, order, e) && e.WellFormed() && Callable(g) && |g.calls| <= |e.calls| && IsWalk(g, c)
    ensures OneCallback.Plain(e, p) && Follows(g, e, c, p)
    decreases |c|
  {
    hide IsExecutionOf, Copy, CallbacksPresent, IsWalk, Led, Follows, OneCallback.Plain;
    BuiltParts(g, order, e);
    p := [];
    NoSteps(g, e);
    if c != [] {
      var d, r := c[..|c| - 1], c[|c| - 1];
      WalkFront(g, c);
      WalkCalls(g, c);
      var q := PathOfWalk(g, order, e, d);
      LastIsInPlain(e, q);
      var k := LedIsMade(g, order, e, r);
      WalkGoesOn(g, e, c, q);
      p := Extend(e, q, k);
      assert p[..|p| - 1] == q && p[|q|] == EdgeRef(LastNode(e, q), k);
      WalkCalls(g, c);
      assert d + [r] == c;
      FollowsSnoc(g, e, d, p, r);
      PlainSnoc(e, q, p);
    }
  }

  lemma PlainSnoc(e: Graph, q: Path, p: Path)
    requires e.WellFormed() && OneCallback.Plain(e, q) && IsPath(e, p) && p != [] && p[..|p| - 1] == q
    requires OneCallback.PlainRef(e, p[|p| - 1])
    ensures OneCallback.Plain(e, p)
  {
    hide IsPath;
    assert forall l :: 0 <= l < |q| ==> p[l] == p[..|p| - 1][l];
  }

  lemma WalkGoesOn(g: Graph, e: Graph, c: seq<EdgeRef>, q: Path)
    requires g.WellFormed() && e.WellFormed() && IsWalk(g, c) && c != [] && IsWalk(g, c[..|c| - 1]) && IsPath(e, q)
    requires Follows(g, e, c[..|c| - 1], q) && e.start == Copy(g, g.start)
    ensures LastNode(e, q) == Copy(g, c[|c| - 1].from)
  {
    hide Copy;
    var d := c[..|c| - 1];
    if d != [] {
      assert d[|d| - 1] == c[|d| - 1];
      OneCallback.LastOf(e, q);
    }
  }

  /** A path without callbacks that does not end in a finish leaf makes the calls of a walk. */
  lemma {:induction false} WalkOfPath(g: Graph, order: seq<nat>, e: Graph, p: Path) returns (c: seq<EdgeRef>)
    requires IsExecutionOf(g, order, e) && e.WellFormed() && Callable(g) && |g.calls| <= |e.calls|
    requires OneCallback.Plain(e, p) && !e.IsLeaf(LastNode(e, p))
    ensures IsWalk(g, c) && Follows(g, e, c, p)
    decreases |p|
  {
    hide IsExecutionOf, Copy, CallbacksPresent;
    c := [];
    if p != [] {
      BuiltParts(g, order, e);
      OneCallback.PlainFront(e, p);
      var d := WalkOfPath(g, order, e, p[..|p| - 1]);
      OneCallback.LastOf(e, p);
      var r := p[|p| - 1];
      var x := EdgeAt(e, r);
      assert OneCallback.PlainRef(e, r);
      var u, i := MadeCall(g, order, e, r.from, x);
      c := d + [EdgeRef(u, i)];
      WalkExtends(g, e, d, p, u, i);
    }
  }

  lemma WalkExtends(g: Graph, e: Graph, d: seq<EdgeRef>, p: Path, u: nat, i: nat)
    requires g.WellFormed() && e.WellFormed() && IsWalk(g, d) && IsPath(e, p) && p != [] && IsPath(e, p[..|p| - 1])
    requires Follows(g, e, d, p[..|p| - 1]) && e.start == Copy(g, g.start)
    requires u < |g.calls| && i < |g.adjacent[u]| && IsCall(g, EdgeRef(u, i)) && ValidRef(e, p[|p| - 1])
    requires Copy(g, u) == p[|p| - 1].from && EdgeAt(e, p[|p| - 1]) == Led(g, u)[i]
    ensures IsWalk(g, d + [EdgeRef(u, i)]) && Follows(g, e, d + [EdgeRef(u, i)], p)
  {
    hide Copy, IsWalk, Led;
    var front := p[..|p| - 1];
    assert p[|p| - 1].from == LastNode(e, front);
    WalkCalls(g, d);
    if d != [] {
      OneCallback.LastOf(e, front);
      assert EdgeAt(e, front[|d| - 1]) == Led(g, d[|d| - 1].from)[d[|d| - 1].index];
      LedTarget(g, d[|d| - 1]);
    }
    WalkSnoc(g, d, EdgeRef(u, i));
    FollowsSnoc(g, e, d, p, EdgeRef(u, i));
  }

  lemma LedTarget(g: Graph, r: EdgeRef)
    requires g.WellFormed() && IsCall(g, r)
    ensures Led(g, r.from)[r.index].to == Copy(g, Target(g, r))
  {
    hide Copy;
  }

  lemma WalkSnoc(g: Graph, d: seq<EdgeRef>, r: EdgeRef)
    requires g.WellFormed() && IsWalk(g, d) && IsCall(g, r)
    requires if d == [] then Copy(g, r.from) == Copy(g, g.start)
             else IsCall(g, d[|d| - 1]) && Copy(g, r.from) == Copy(g, Target(g, d[|d| - 1]))
    ensures IsWalk(g, d + [r])
  {
    hide Copy;
    var c := d + [r];
    assert forall k :: 0 <= k < |d| ==> c[k] == d[k];
  }

  lemma FollowsSnoc(g: Graph, e: Graph, d: seq<EdgeRef>, p: Path, r: EdgeRef)
    requires g.WellFormed() && e.WellFormed() && IsWalk(g, d) && IsWalk(g, d + [r]) && p != [] && IsCall(g, r)
    requires Follows(g, e, d, p[..|p| - 1]) && ValidRef(e, p[|p| - 1]) && EdgeAt(e, p[|p| - 1]) == Led(g, r.from)[r.index]
    ensures Follows(g, e, d + [r], p)
  {
    hide Copy, IsWalk, Led;
    WalkCalls(g, d);
    WalkCalls(g, d + [r]);
    var front := p[..|p| - 1];
    assert forall k :: 0 <= k < |front| ==> front[k] == p[k];
    assert forall k :: 0 <= k < |d| ==> (d + [r])[k] == d[k];
  }

  // ----- The condition -----

  lemma CalledStart(g: Graph, order: seq<nat>, e: Graph, u: nat, i: nat)
    requires IsExecutionOf(g, order, e) && e.WellFormed() && Callable(g) && |g.calls| <= |e.calls|
    requires u < |g.adjacent| && i < |g.adjacent[u]| && NamesCallback(g.adjacent[u][i])
    requires Copy(g, g.adjacent[u][i].to) == Copy(g, g.start)
    ensures OneCallback.Plain(e, []) && OneCallback.Overanswered(e, [])
  {
    hide IsExecutionOf, Copy, CallbacksPresent;
    BuiltParts(g, order, e);
    var k := OwnIsFollowed(g, order, e, u, i, u, i);
    assert LastNode(e, []) == e.start == Led(g, u)[i].to;
  }

  lemma ReachedCollision(g: Graph, order: seq<nat>, e: Graph, u: nat, i: nat, w: nat, j: nat) returns (p: Path)
    requires IsExecutionOf(g, order, e) && e.WellFormed() && Callable(g) && |g.calls| <= |e.calls|
    requires u < |g.adjacent| && i < |g.adjacent[u]| && w < |g.adjacent| && j < |g.adjacent[w]|
    requires Collide(g, u, i, w, j) && Reached(g, u, i)
    ensures OneCallback.Plain(e, p) && OneCallback.Overanswered(e, p)
  {
    hide IsExecutionOf, Copy, CallbacksPresent, OneCallback.Answers, IsWalk;
    var c: seq<EdgeRef> :| IsWalk(g, c) && c != [] && c[|c| - 1] == EdgeRef(u, i);
    p := PathOfWalk(g, order, e, c);
    OneCallback.LastOf(e, p);
    assert EdgeAt(e, p[|p| - 1]) == Led(g, u)[i];
    var k := OwnIsFollowed(g, order, e, u, i, u, i);
    var l := OwnIsFollowed(g, order, e, w, j, u, i);
    var row := e.adjacent[LastNode(e, p)];
    assert OneCallback.AnsweredTwice(e, Led(g, u)[i], row[k], row[l]);
  }

  lemma OveransweredCollides(g: Graph, order: seq<nat>, e: Graph, p: Path)
    requires IsExecutionOf(g, order, e) && e.WellFormed() && Callable(g) && |g.calls| <= |e.calls|
    requires OneCallback.Plain(e, p) && p != [] && OneCallback.Overanswered(e, p)
    ensures !NoReachedCollision(g)
  {
    hide IsExecutionOf, Copy, CallbacksPresent, IsWalk, OneCallback.Answers, NoReachedCollision;
    var row := e.adjacent[LastNode(e, p)];
    var a := LastEdge(e, p).value;
    var k, l :| 0 <= k < |row| && 0 <= l < |row| && OneCallback.AnsweredTwice(e, a, row[k], row[l]);
    var c := WalkOfPath(g, order, e, p);
    var r := c[|c| - 1];
    OneCallback.LastOf(e, p);
    WalkCalls(g, c);
    assert a == Led(g, r.from)[r.index];
    assert Reached(g, r.from, r.index);
    TwoNamesCollide(g, order, e, r.from, r.index, row[k], row[l]);
  }

  /** Of two callbacks with different keys that may follow a call one is not its own. */
  lemma TwoNamesCollide(g: Graph, order: seq<nat>, e: Graph, u: nat, i: nat, x: Edge, y: Edge)
    requires IsExecutionOf(g, order, e) && e.WellFormed() && Callable(g) && |g.calls| <= |e.calls|
    requires u < |g.adjacent| && i < |g.adjacent[u]| && !g.adjacent[u][i].typ.IsCallback() && x.to < |e.calls| && y.to < |e.calls|
    requires x in e.adjacent[Led(g, u)[i].to] && y in e.adjacent[Led(g, u)[i].to]
    requires OneCallback.AnsweredTwice(e, Led(g, u)[i], x, y) && Reached(g, u, i)
    ensures !NoReachedCollision(g)
  {
    hide IsExecutionOf, Copy, CallbacksPresent, Reached;
    AsyncAnswers(e, Led(g, u)[i], x);
    var w, j := AnswerWasNamed(g, order, e, u, i, x);
    var w', j' := AnswerWasNamed(g, order, e, u, i, y);
    assert Collide(g, u, i, w, j) || Collide(g, u, i, w', j');
  }

  lemma AsyncAnswers(e: Graph, a: Edge, x: Edge)
    requires x.to < |e.calls| && OneCallback.Answers(e, a, x) && !a.typ.IsCallback()
    ensures a.typ.IsAsync()
  {
  }

  lemma WalkCalls(g: Graph, c: seq<EdgeRef>)
    requires g.WellFormed() && IsWalk(g, c)
    ensures forall k :: 0 <= k < |c| ==> IsCall(g, c[k])
  {
  }

  lemma AnsweredStart(g: Graph, order: seq<nat>, e: Graph)
    requires IsExecutionOf(g, order, e) && e.WellFormed() && Callable(g) && |g.calls| <= |e.calls|
    requires IsPath(e, []) && OneCallback.Overanswered(e, [])
    ensures !StartUncalled(g)
  {
    hide IsExecutionOf, Copy, CallbacksPresent;
    BuiltParts(g, order, e);
    var row := e.adjacent[LastNode(e, [])];
    var k :| 0 <= k < |row| && row[k].typ.IsCallback();
    var w, j := GivenCall(g, order, e, e.start, row[k]);
  }

  /** The execution graph pays for all callbacks, exactly if the call graph does. */
  lemma PaidExactly(g: Graph, order: seq<nat>, e: Graph)
    requires IsExecutionOf(g, order, e) && e.WellFormed() && Callable(g) && |g.calls| <= |e.calls|
    ensures OneCallback.AllPaid(e) <==> PaidFor(g)
  {
    hide IsExecutionOf, Copy, CallbacksPresent, OneCallback.Overanswered, Reached, Collide;
    if PaidFor(g) {
      forall p: Path | OneCallback.Plain(e, p) ensures !OneCallback.Overanswered(e, p) {
        if OneCallback.Overanswered(e, p) {
          if p == [] { AnsweredStart(g, order, e); } else { OveransweredCollides(g, order, e, p); }
        }
      }
    } else if !StartUncalled(g) {
      var u, i :| 0 <= u < |g.adjacent| && 0 <= i < |g.adjacent[u]| && NamesCallback(g.adjacent[u][i]) &&
                  Copy(g, g.adjacent[u][i].to) == Copy(g, g.start);
      CalledStart(g, order, e, u, i);
    } else {
      var u, i, w, j :| 0 <= u < |g.adjacent| && 0 <= i < |g.adjacent[u]| && 0 <= w < |g.adjacent| && 0 <= j < |g.adjacent[w]|
                        && Collide(g, u, i, w, j) && Reached(g, u, i);
      var p := ReachedCollision(g, order, e, u, i, w, j);
    }
  }

  /** The tree has no unpaid callback, exactly if no call made in a run collides and nobody answers to the start. */
  lemma ChainPaysExactly(g: Graph, order: seq<nat>, e: Graph, rank: seq<nat>, first: NodeGas, t: Tree)
    requires IsExecutionOf(g, order, e) && Callable(g) && Numbered(g) && DistinctNumbers(g)
    requires Pipeline.BuiltFrom(e, rank, first, t) && e.WellFormed() && Pipeline.ExecutionShape(e) && |t| > 0
    ensures Valid(t) && (Gas.AtMostOne(Pipeline.View(t, 0), Sync) <==> PaidFor(g))
  {
    hide IsExecutionOf, Copy, CallbacksPresent, Pipeline.BuiltFrom, Pipeline.ExecutionShape, OneCallback.AllPaid, PaidFor;
    hide Pipeline.View, Valid, Gas.AtMostOne, OneCallback.KeysTellCalls;
    BuiltWellFormed(g, order, e);
    KeysTellMadeCalls(g, order, e);
    OneCallback.TreePaysExactly(e, rank, first, t);
    PaidExactly(g, order, e);
  }

  lemma StartCallReached(g: Graph, i: nat)
    requires Callable(g) && IsCall(g, EdgeRef(g.start, i))
    ensures Reached(g, g.start, i)
  {
    hide CallbacksPresent, Copy;
    var c := [EdgeRef(g.start, i)];
    assert IsWalk(g, c);
  }

  lemma CollisionAtStart(g: Graph, i: nat, w: nat, j: nat)
    requires Callable(g) && IsCall(g, EdgeRef(g.start, i)) && w < |g.adjacent| && j < |g.adjacent[w]|
    requires Collide(g, g.start, i, w, j)
    ensures !PaidFor(g)
  {
    hide CallbacksPresent, Copy, Collide, Reached, StartUncalled;
    StartCallReached(g, i);
  }

  lemma StrangersAreNumbered()
    ensures DistinctNumbers(Strangers())
  {
    var g := Strangers();
    forall u, i | 0 <= u < |g.adjacent| && 0 <= i < |g.adjacent[u]|
      ensures g.adjacent[u][i].id == (if u == 0 then i + 1 else 3) && (u == 0 || (u == 3 && i == 0))
    {
    }
  }

  /** On the graph of the strangers the chain does not pay. */
  lemma StrangersDoNotPay()
    ensures var g := Strangers(); Callable(g) && DistinctNumbers(g) && !PaidFor(g)
  {
    hide Copy, CallbacksPresent, Collide, PaidFor, DistinctNumbers, RankedCalls, NoCollision;
    StrangersCollide();
    StrangersAreNumbered();
    CollisionAtStart(Strangers(), 0, 3, 0);
  }
}
