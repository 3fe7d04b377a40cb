/**
  The queue of cross-shard calls: calls are kept in stable round order, and a local callback waits
  for the queued calls below its async call.
 */
module CrossShardQueue {
  import opened Options

  /** The nodes of the call trees: rounds, parents, and which nodes are callbacks. */
  datatype Forest = Forest(round: seq<int>, parent: seq<Option<nat>>, callback: seq<bool>)
  {
    /** Parents come before their children, so every chain of parents ends. */
    predicate Valid() {
      && |parent| == |round| == |callback|
      && forall v :: 0 <= v < |parent| && parent[v].Some? ==> parent[v].value < v
    }
  }

  /** What is handed over for a call; `callType` is the number of the enumeration value. */
  datatype Request = Request(callerAddress: string, startNode: nat, callType: int, asyncData: string, data: string)

  /** A queued call. `arrival` numbers the insertions; no operation reads it, it serves to state the order. */
  datatype QueuedCall = QueuedCall(request: Request, parentsPath: seq<nat>, arrival: nat)
  {
    function StartNode(): nat {
      request.startNode
    }
  }

  // ----- Ancestors -----

  /** `a` is `k` parents above `v`, and no node on the way up, `a` included, is a callback. */
  predicate AncestorAt(f: Forest, v: nat, a: nat, k: nat)
    requires f.Valid() && v < |f.parent|
  {
    if k == 0 then v == a
    else f.parent[v].Some? && !f.callback[f.parent[v].value] && AncestorAt(f, f.parent[v].value, a, k - 1)
  }

  ghost predicate IsAncestor(f: Forest, v: nat, a: nat)
    requires f.Valid() && v < |f.parent|
  {
    exists k :: k > 0 && AncestorAt(f, v, a, k)
  }

  /** The parents of a node, nearest first, up to a callback or a root. */
  function ParentsPath(f: Forest, v: nat): (s: seq<nat>)
    requires f.Valid() && v < |f.parent|
    decreases v
  {
    if f.parent[v].None? || f.callback[f.parent[v].value] then []
    else [f.parent[v].value] + ParentsPath(f, f.parent[v].value)
  }

  lemma {:induction false} ParentsAreAncestors(f: Forest, v: nat, a: nat)
    requires f.Valid() && v < |f.parent|
    ensures a in ParentsPath(f, v) <==> IsAncestor(f, v, a)
    decreases v
  {
    if f.parent[v].Some? && !f.callback[f.parent[v].value] {
      var p := f.parent[v].value;
      ParentsAreAncestors(f, p, a);
      if a == p {
        assert AncestorAt(f, p, a, 0);
        assert AncestorAt(f, v, a, 1);
      } else if IsAncestor(f, p, a) {
        var k :| k > 0 && AncestorAt(f, p, a, k);
        assert AncestorAt(f, v, a, k + 1);
      }
      if IsAncestor(f, v, a) {
        var k :| k > 0 && AncestorAt(f, v, a, k);
        assert AncestorAt(f, p, a, k - 1);
      }
    }
  }

  /** The path lists the ancestors from the nearest on. */
  lemma {:induction false} ParentsInOrder(f: Forest, v: nat, k: nat)
    requires f.Valid() && v < |f.parent| && k < |ParentsPath(f, v)|
    ensures AncestorAt(f, v, ParentsPath(f, v)[k], k + 1)
    decreases v
  {
    var p := f.parent[v].value;
    if k == 0 {
      assert AncestorAt(f, p, p, 0);
    } else {
      ParentsInOrder(f, p, k - 1);
    }
  }

  // ----- Order -----

  function RoundOf(f: Forest, c: QueuedCall): int {
    if c.StartNode() < |f.round| then f.round[c.StartNode()] else 0
  }

  /** Earlier round, or same round and earlier arrival. */
  predicate Precedes(f: Forest, a: QueuedCall, b: QueuedCall) {
    RoundOf(f, a) < RoundOf(f, b) || (RoundOf(f, a) == RoundOf(f, b) && a.arrival < b.arrival)
  }

  ghost predicate Ordered(f: Forest, s: seq<QueuedCall>) {
    forall i, j :: 0 <= i < j < |s| ==> Precedes(f, s[i], s[j])
  }

  /** The order in terms of the rounds of the start nodes, which `sort.Stable` compares, and of arrival. */
  ghost predicate InRoundOrder(f: Forest, s: seq<QueuedCall>) {
    && (forall i :: 0 <= i < |s| ==> s[i].request.startNode < |f.round|)
    && (forall i, j :: 0 <= i < j < |s| ==> f.round[s[i].request.startNode] <= f.round[s[j].request.startNode])
    && (forall i, j :: 0 <= i < j < |s| && f.round[s[i].request.startNode] == f.round[s[j].request.startNode] ==>
          s[i].arrival < s[j].arrival)
  }

  lemma OrderedByRound(f: Forest, s: seq<QueuedCall>)
    requires Ordered(f, s) && forall i :: 0 <= i < |s| ==> s[i].request.startNode < |f.round|
    ensures InRoundOrder(f, s)
  {
    forall i, j | 0 <= i < j < |s|
      ensures f.round[s[i].request.startNode] <= f.round[s[j].request.startNode]
      ensures f.round[s[i].request.startNode] == f.round[s[j].request.startNode] ==> s[i].arrival < s[j].arrival
    {
      assert Precedes(f, s[i], s[j]);
    }
  }

  /** Where a stable sort puts a call that was appended last: after every call of its round. */
  function Insert(f: Forest, s: seq<QueuedCall>, c: QueuedCall): seq<QueuedCall> {
    if s == [] then [c]
    else if RoundOf(f, c) < RoundOf(f, s[|s| - 1]) then Insert(f, s[..|s| - 1], c) + [s[|s| - 1]]
    else s + [c]
  }

  /** `sort.Stable` by round: each element in turn is moved before the later-round ones. */
  function StableSort(f: Forest, s: seq<QueuedCall>): seq<QueuedCall> {
    if s == [] then [] else Insert(f, StableSort(f, s[..|s| - 1]), s[|s| - 1])
  }

  lemma {:induction false} InsertKeeps(f: Forest, s: seq<QueuedCall>, c: QueuedCall)
    ensures multiset(Insert(f, s, c)) == multiset(s) + multiset{c}
    ensures |Insert(f, s, c)| == |s| + 1
  {
    if s != [] && RoundOf(f, c) < RoundOf(f, s[|s| - 1]) {
      InsertKeeps(f, s[..|s| - 1], c);
      assert s == s[..|s| - 1] + [s[|s| - 1]];
    }
  }

  lemma {:induction false} InsertOrders(f: Forest, s: seq<QueuedCall>, c: QueuedCall)
    requires Ordered(f, s) && forall i :: 0 <= i < |s| ==> s[i].arrival < c.arrival
    ensures Ordered(f, Insert(f, s, c))
  {
    if s != [] && RoundOf(f, c) < RoundOf(f, s[|s| - 1]) {
      var front, last := s[..|s| - 1], s[|s| - 1];
      InsertOrders(f, front, c);
      InsertKeeps(f, front, c);
      var r := Insert(f, front, c);
      forall i | 0 <= i < |r| ensures Precedes(f, r[i], last) {
        assert r[i] in multiset(r);
        assert r[i] in front || r[i] == c;
        if r[i] in front {
          var j :| 0 <= j < |front| && front[j] == r[i];
          assert s[j] == r[i];
        }
      }
    }
  }

  /** Sorting a queue that is in order changes nothing. */
  lemma {:induction false} SortOfOrdered(f: Forest, s: seq<QueuedCall>)
    requires Ordered(f, s)
    ensures StableSort(f, s) == s
  {
    if s != [] {
      var front := s[..|s| - 1];
      SortOfOrdered(f, front);
      assert s == front + [s[|s| - 1]];
      if front != [] {
        assert Precedes(f, s[|s| - 2], s[|s| - 1]);
      }
    }
  }

  predicate InArrivalOrder(s: seq<QueuedCall>) {
    forall i, j :: 0 <= i < j < |s| ==> s[i].arrival < s[j].arrival
  }

  /** The sort permutes its input, orders it by round, and keeps calls of one round in input order. */
  lemma {:induction false} SortIsStable(f: Forest, s: seq<QueuedCall>)
    requires InArrivalOrder(s)
    ensures Ordered(f, StableSort(f, s)) && multiset(StableSort(f, s)) == multiset(s)
    ensures (forall i :: 0 <= i < |s| ==> s[i].request.startNode < |f.round|) ==> InRoundOrder(f, StableSort(f, s))
  {
    hide InRoundOrder;
    if s != [] {
      var front, last := s[..|s| - 1], s[|s| - 1];
      SortIsStable(f, front);
      var sorted := StableSort(f, front);
      assert s == front + [last];
      forall i | 0 <= i < |sorted| ensures sorted[i].arrival < last.arrival {
        assert sorted[i] in multiset(front);
        assert sorted[i] in front;
      }
      InsertOrders(f, sorted, last);
      InsertKeeps(f, sorted, last);
    }
    if forall i :: 0 <= i < |s| ==> s[i].request.startNode < |f.round| {
      var sorted := StableSort(f, s);
      forall i | 0 <= i < |sorted| ensures sorted[i].request.startNode < |f.round| {
        assert sorted[i] in multiset(s);
        assert sorted[i] in s;
      }
      OrderedByRound(f, sorted);
    }
  }

  /** Only one arrangement of given calls is in order. */
  lemma {:induction false} OrderIsUnique(f: Forest, a: seq<QueuedCall>, b: seq<QueuedCall>)
    requires Ordered(f, a) && Ordered(f, b) && multiset(a) == multiset(b)
    ensures a == b
  {
    hide Ordered, Precedes;
    if a == [] {
      assert |multiset(b)| == 0;
    } else {
      assert a[0] in multiset(b);
      SameFirst(f, a, b);
      assert a == [a[0]] + a[1..] && b == [b[0]] + b[1..];
      assert multiset(a[1..]) == multiset(a) - multiset{a[0]} == multiset(b[1..]);
      TailOrdered(f, a);
      TailOrdered(f, b);
      OrderIsUnique(f, a[1..], b[1..]);
    }
  }

  lemma TailOrdered(f: Forest, s: seq<QueuedCall>)
    requires s != [] && Ordered(f, s)
    ensures Ordered(f, s[1..])
  {
    hide Precedes;
  }

  lemma FirstIsLeast(f: Forest, s: seq<QueuedCall>, x: QueuedCall)
    requires s != [] && Ordered(f, s) && x in s
    ensures x == s[0] || Precedes(f, s[0], x)
  {
    hide Precedes;
    var i :| 0 <= i < |s| && s[i] == x;
  }

  lemma SameFirst(f: Forest, a: seq<QueuedCall>, b: seq<QueuedCall>)
    requires a != [] && Ordered(f, a) && Ordered(f, b) && multiset(a) == multiset(b)
    ensures b != [] && a[0] == b[0]
  {
    hide Ordered;
    assert a[0] in multiset(b);
    assert b[0] in multiset(a);
    FirstIsLeast(f, a, b[0]);
    FirstIsLeast(f, b, a[0]);
  }

  // ----- Runs -----

  datatype State = State(queue: seq<QueuedCall>, arrivals: nat)

  /** Requeueing a call is enqueueing its request again. */
  datatype Op = Enqueue(request: Request) | Dequeue

  function NewCall(f: Forest, request: Request, arrivals: nat): QueuedCall
    requires f.Valid() && request.startNode < |f.parent|
  {
    QueuedCall(request, ParentsPath(f, request.startNode), arrivals)
  }

  predicate Legal(f: Forest, op: Op) {
    op.Enqueue? ==> op.request.startNode < |f.parent|
  }

  predicate AllLegal(f: Forest, ops: seq<Op>) {
    forall i :: 0 <= i < |ops| ==> Legal(f, ops[i])
  }

  function Step(f: Forest, s: State, op: Op): State
    requires f.Valid() && Legal(f, op)
  {
    match op
    case Enqueue(request) => State(StableSort(f, s.queue + [NewCall(f, request, s.arrivals)]), s.arrivals + 1)
    case Dequeue => if s.queue == [] then s else s.(queue := s.queue[1..])
  }

  function Run(f: Forest, ops: seq<Op>): State
    requires f.Valid() && AllLegal(f, ops)
  {
    if ops == [] then State([], 0) else Step(f, Run(f, ops[..|ops| - 1]), ops[|ops| - 1])
  }

  /** The calls a run has put in. */
  function PutIn(f: Forest, ops: seq<Op>): multiset<QueuedCall>
    requires f.Valid() && AllLegal(f, ops)
  {
    if ops == [] then multiset{}
    else
      var front, op := ops[..|ops| - 1], ops[|ops| - 1];
      PutIn(f, front)
      + (if op.Enqueue?
         then multiset{QueuedCall(op.request, ParentsPath(f, op.request.startNode), Run(f, front).arrivals)}
         else multiset{})
  }

  /** The calls a run has taken out. */
  function TakenOut(f: Forest, ops: seq<Op>): multiset<QueuedCall>
    requires f.Valid() && AllLegal(f, ops)
  {
    if ops == [] then multiset{}
    else
      var front, op := ops[..|ops| - 1], ops[|ops| - 1];
      var q := Run(f, front).queue;
      TakenOut(f, front) + (if op.Dequeue? && q != [] then multiset{q[0]} else multiset{})
  }

  ghost predicate Good(f: Forest, s: State)
    requires f.Valid()
  {
    && Ordered(f, s.queue)
    && (forall i :: 0 <= i < |s.queue| ==> s.queue[i].arrival < s.arrivals)
    && (forall i :: 0 <= i < |s.queue| ==> KnowsParents(f, s.queue[i]))
  }

  predicate KnowsParents(f: Forest, c: QueuedCall)
    requires f.Valid()
  {
    c.StartNode() < |f.parent| && c.parentsPath == ParentsPath(f, c.StartNode())
  }

  lemma EnqueueSorts(f: Forest, s: State, c: QueuedCall)
    requires f.Valid() && Good(f, s) && c.arrival == s.arrivals
    ensures StableSort(f, s.queue + [c]) == Insert(f, s.queue, c)
    ensures Ordered(f, Insert(f, s.queue, c)) && multiset(Insert(f, s.queue, c)) == multiset(s.queue) + multiset{c}
  {
    var q := s.queue + [c];
    assert q[..|q| - 1] == s.queue;
    SortOfOrdered(f, s.queue);
    InsertOrders(f, s.queue, c);
    InsertKeeps(f, s.queue, c);
  }

  lemma StepGood(f: Forest, s: State, op: Op)
    requires f.Valid() && Legal(f, op) && Good(f, s)
    ensures Good(f, Step(f, s, op))
  {
    hide StableSort, Insert, ParentsPath;
    match op
    case Dequeue =>
    case Enqueue(request) =>
      var c := NewCall(f, request, s.arrivals);
      EnqueueSorts(f, s, c);
      var t := Step(f, s, op);
      forall i | 0 <= i < |t.queue| ensures t.queue[i].arrival < t.arrivals && KnowsParents(f, t.queue[i]) {
        assert t.queue[i] in multiset(t.queue);
        assert t.queue[i] in s.queue || t.queue[i] == c;
      }
  }

  /**
    Over any run the queue stays in order of round and arrival, and nothing is lost: what was put in
    is what was taken out and what is still queued.
   */
  lemma {:induction false} RunKeepsOrder(f: Forest, ops: seq<Op>)
    requires f.Valid() && AllLegal(f, ops)
    ensures Good(f, Run(f, ops)) && InRoundOrder(f, Run(f, ops).queue)
    ensures PutIn(f, ops) == TakenOut(f, ops) + multiset(Run(f, ops).queue)
  {
    hide StableSort, Insert, ParentsPath, Good, NewCall, InRoundOrder;
    if ops == [] {
      NewIsGood(f);
    } else {
      var front, op := ops[..|ops| - 1], ops[|ops| - 1];
      RunKeepsOrder(f, front);
      var s := Run(f, front);
      StepGood(f, s, op);
      StepBalances(f, s, op);
    }
    GoodByRound(f, Run(f, ops));
  }

  lemma GoodByRound(f: Forest, s: State)
    requires f.Valid() && Good(f, s)
    ensures InRoundOrder(f, s.queue)
  {
    hide Ordered, InRoundOrder, ParentsPath;
    forall i | 0 <= i < |s.queue| ensures s.queue[i].request.startNode < |f.round| {
      assert KnowsParents(f, s.queue[i]);
    }
    OrderedByRound(f, s.queue);
  }

  lemma NewIsGood(f: Forest)
    requires f.Valid()
    ensures Good(f, State([], 0))
  {
  }

  lemma StepBalances(f: Forest, s: State, op: Op)
    requires f.Valid() && Legal(f, op) && Good(f, s)
    ensures op.Enqueue? ==>
      multiset(Step(f, s, op).queue) ==
      multiset(s.queue) + multiset{QueuedCall(op.request, ParentsPath(f, op.request.startNode), s.arrivals)}
    ensures op.Dequeue? && s.queue != [] ==> multiset(s.queue) == multiset{s.queue[0]} + multiset(Step(f, s, op).queue)
  {
    hide StableSort, Insert, ParentsPath;
    match op
    case Enqueue(request) => EnqueueSorts(f, s, NewCall(f, request, s.arrivals));
    case Dequeue =>
      if s.queue != [] {
        assert s.queue == [s.queue[0]] + s.queue[1..];
      }
  }

  /** The first call is of an earlier round than the second, or of the same round and came before it. */
  predicate NoLater(f: Forest, a: QueuedCall, b: QueuedCall) {
    && a.request.startNode < |f.round| && b.request.startNode < |f.round|
    && var ra, rb := f.round[a.request.startNode], f.round[b.request.startNode];
       ra < rb || (ra == rb && a.arrival < b.arrival)
  }

  /** A dequeued call has the least round, and among those the earliest arrival. */
  lemma DequeueTakesEarliest(f: Forest, ops: seq<Op>, c: QueuedCall)
    requires f.Valid() && AllLegal(f, ops) && c in Run(f, ops).queue
    ensures var first := Run(f, ops).queue[0]; first == c || NoLater(f, first, c)
  {
    hide Run, ParentsPath, Good;
    RunKeepsOrder(f, ops);
    var q := Run(f, ops).queue;
    var i :| 0 <= i < |q| && q[i] == c;
  }

  class CallsQueue {
    const f: Forest
    var queue: seq<QueuedCall>
    var arrivals: nat

    ghost predicate Valid()
      reads this
    {
      f.Valid() && Good(f, State(queue, arrivals))
    }

    constructor (f: Forest)
      requires f.Valid()
      ensures Valid() && this.f == f && queue == [] && arrivals == 0
    {
      this.f, queue, arrivals := f, [], 0;
    }

    /** The loop of `createCrossShardCall` that collects parents up to a callback. */
    method CollectParents(startNode: nat) returns (path: seq<nat>)
      requires f.Valid() && startNode < |f.parent|
      ensures path == ParentsPath(f, startNode)
    {
      path := [];
      var crt: nat := startNode;
      while f.parent[crt].Some?
        invariant crt < |f.parent|
        invariant path + ParentsPath(f, crt) == ParentsPath(f, startNode)
        decreases crt
      {
        var parent := f.parent[crt].value;
        if f.callback[parent] { break; }
        path := path + [parent];
        crt := parent;
      }
    }

    /** `Enqueue`: append, then sort stably. */
    method Enqueue(request: Request)
      requires Valid() && request.startNode < |f.parent|
      modifies this
      ensures Valid() && State(queue, arrivals) == Step(f, old(State(queue, arrivals)), Op.Enqueue(request))
      ensures InRoundOrder(f, queue)
      ensures multiset(queue) ==
              old(multiset(queue)) + multiset{QueuedCall(request, ParentsPath(f, request.startNode), old(arrivals))}
    {
      hide StableSort, Good, InRoundOrder;
      StepGood(f, State(queue, arrivals), Op.Enqueue(request));
      StepBalances(f, State(queue, arrivals), Op.Enqueue(request));
      var path := CollectParents(request.startNode);
      queue := queue + [QueuedCall(request, path, arrivals)];
      queue := StableSort(f, queue);
      arrivals := arrivals + 1;
      GoodByRound(f, State(queue, arrivals));
    }

    /** `Requeue`: the request of a call goes to the back of its round; its parents are collected anew. */
    method Requeue(c: QueuedCall)
      requires Valid() && c.StartNode() < |f.parent|
      modifies this
      ensures Valid() && State(queue, arrivals) == Step(f, old(State(queue, arrivals)), Op.Enqueue(c.request))
    {
      Enqueue(c.request);
    }

    /** `Dequeue`: the front of the queue, if any. */
    method Dequeue() returns (top: Option<QueuedCall>)
      requires Valid()
      modifies this
      ensures Valid() && State(queue, arrivals) == Step(f, old(State(queue, arrivals)), Op.Dequeue)
      ensures top == if old(queue) == [] then None else Some(old(queue)[0])
      ensures top.Some? ==> forall i :: 0 <= i < |queue| ==> NoLater(f, top.value, queue[i])
      ensures InRoundOrder(f, queue)
    {
      hide Good;
      StepGood(f, State(queue, arrivals), Op.Dequeue);
      GoodByRound(f, State(queue, arrivals));
      if |queue| == 0 { return None; }
      top := Some(queue[0]);
      queue := queue[1..];
      assert forall i :: 0 <= i < |queue| ==> queue[i] == old(queue)[i + 1];
    }

    /**
      `CanExecuteLocalCallback`: exactly when no queued call starts below the callback's parent
      without a callback in between.
     */
    method CanExecuteLocalCallback(callbackNode: nat) returns (ok: bool)
      requires Valid() && callbackNode < |f.parent|
      ensures ok <==> forall i :: 0 <= i < |queue| ==> NotBelow(f, f.parent[callbackNode], queue[i])
    {
      var parent := f.parent[callbackNode];
      for i := 0 to |queue|
        invariant forall j :: 0 <= j < i ==> NotBelow(f, parent, queue[j])
      {
        assert KnowsParents(f, queue[i]);
        var path := queue[i].parentsPath;
        for k := 0 to |path|
          invariant forall j :: 0 <= j < k ==> Some(path[j]) != parent
        {
          if Some(path[k]) == parent {
            ParentsAreAncestors(f, queue[i].StartNode(), path[k]);
            return false;
          }
        }
        if parent.Some? { ParentsAreAncestors(f, queue[i].StartNode(), parent.value); }
      }
      return true;
    }
  }

  /** The call does not start below the given node. */
  ghost predicate NotBelow(f: Forest, parent: Option<nat>, c: QueuedCall)
    requires f.Valid()
  {
    parent.Some? ==> c.StartNode() < |f.parent| && !IsAncestor(f, c.StartNode(), parent.value)
  }
}
