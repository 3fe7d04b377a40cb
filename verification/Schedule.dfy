/**
  Assignment of execution rounds on a failure-free call tree. The traversal writes the rounds in
  place; the law it establishes speaks only about the rounds written.
 */
module Schedule {
  import opened Options
  import opened CallGraph
  import opened TreeShape

  /** Every call has a finish leaf. */
  predicate HasLeaf(n: CallNode) {
    exists k :: 0 <= k < |n.edges| && n.edges[k].child.IsLeaf()
  }

  predicate Finished(n: CallNode)
    decreases n
  {
    n.IsLeaf() || (HasLeaf(n) && forall k :: 0 <= k < |n.edges| ==> Finished(n.edges[k].child))
  }

  function FirstLeaf(n: CallNode, k: nat): (i: nat)
    requires k <= |n.edges| && exists j :: k <= j < |n.edges| && n.edges[j].child.IsLeaf()
    ensures k <= i < |n.edges| && n.edges[i].child.IsLeaf()
    ensures forall j :: k <= j < i ==> !n.edges[j].child.IsLeaf()
    decreases |n.edges| - k
  {
    if n.edges[k].child.IsLeaf() then k else FirstLeaf(n, k + 1)
  }

  /** `getGasLeaf`. */
  function GasLeaf(n: CallNode): nat
    requires HasLeaf(n)
  {
    n.edges[FirstLeaf(n, 0)].child.id
  }

  /** The call itself and all calls in the subtrees of its first `k` children. */
  function Before(n: CallNode, k: nat): set<nat>
    requires k <= |n.edges|
    decreases n, k
  {
    if k == 0 then {n.id}
    else Before(n, k - 1) + (if n.edges[k - 1].child.IsLeaf() then {} else Calls(n.edges[k - 1].child))
  }

  /** All calls of a tree. */
  function Calls(n: CallNode): set<nat>
    decreases n, |n.edges| + 1
  {
    Before(n, |n.edges|)
  }

  // ----- The law -----

  datatype Rounds = Rounds(round: map<nat, int>, latest: map<nat, int>)

  predicate Covers(r: Rounds, ids: set<nat>) {
    ids <= r.round.Keys && ids <= r.latest.Keys
  }

  /** `m` is the latest round among the given calls. */
  ghost predicate IsLatest(r: Rounds, ids: set<nat>, m: int)
    requires Covers(r, ids)
  {
    && (forall i :: i in ids ==> r.round[i] <= m)
    && (exists i :: i in ids && r.round[i] == m)
  }

  /**
    When a child runs: local calls in their caller's round; a cross-shard call one round after
    everything its caller did before it; a callback after everything before it, one round later if
    it comes from another shard.
   */
  ghost predicate RunsAt(n: CallNode, k: nat, r: Rounds)
    requires k < |n.edges| && Covers(r, Ids(n)) && Before(n, k) <= Ids(n) && n.edges[k].child.id in Ids(n)
  {
    var at := r.round[n.edges[k].child.id];
    match n.edges[k].typ
    case Sync => at == r.round[n.id]
    case Async => at == r.round[n.id]
    case AsyncCrossShard => IsLatest(r, Before(n, k), at - 1)
    case Callback => IsLatest(r, Before(n, k), at)
    case CallbackCrossShard => IsLatest(r, Before(n, k), at - 1)
  }

  lemma {:induction false} BeforeIds(n: CallNode, k: nat)
    requires k <= |n.edges|
    ensures Before(n, k) <= {n.id} + EdgeIds(n, k) <= Ids(n)
    decreases n, k
  {
    if k > 0 {
      BeforeIds(n, k - 1);
      CallsIds(n.edges[k - 1].child);
    }
    EdgeIdsGrow(n, k, |n.edges|);
  }

  lemma {:induction false} CallsIds(n: CallNode)
    ensures Calls(n) <= Ids(n)
    decreases n, |n.edges| + 1
  {
    BeforeIds(n, |n.edges|);
  }

  /** The law of a call's first `k` children, and of everything below them. */
  ghost predicate LawUpTo(n: CallNode, k: nat, r: Rounds)
    requires k <= |n.edges| && Covers(r, Ids(n))
    decreases n, 1
  {
    forall j :: 0 <= j < k && !n.edges[j].child.IsLeaf() ==> ChildLaw(n, j, r)
  }

  ghost predicate ChildLaw(n: CallNode, j: nat, r: Rounds)
    requires j < |n.edges| && Covers(r, Ids(n))
    decreases n, 0
  {
    ChildIds(n, j);
    BeforeIds(n, j);
    RunsAt(n, j, r) && Lawful(n.edges[j].child, r)
  }

  /** The schedule of a whole tree. */
  ghost predicate Lawful(n: CallNode, r: Rounds)
    requires Covers(r, Ids(n))
    decreases n, 2
  {
    CallsIds(n);
    && LawUpTo(n, |n.edges|, r)
    && IsLatest(r, Calls(n), r.latest[n.id])
    && (HasLeaf(n) ==> (GasLeafIn(n); r.round[GasLeaf(n)] == r.round[n.id]))
  }

  lemma GasLeafIn(n: CallNode)
    requires HasLeaf(n)
    ensures GasLeaf(n) in EdgeIds(n, |n.edges|) && GasLeaf(n) in Ids(n)
  {
    ChildIds(n, FirstLeaf(n, 0));
  }

  // ----- What the law depends on -----

  /** Two states agree on the given rounds and latest rounds. */
  ghost predicate Agree(r: Rounds, s: Rounds, rounds: set<nat>, latests: set<nat>)
    requires rounds <= r.round.Keys && rounds <= s.round.Keys && latests <= r.latest.Keys && latests <= s.latest.Keys
  {
    (forall i :: i in rounds ==> r.round[i] == s.round[i]) && (forall i :: i in latests ==> r.latest[i] == s.latest[i])
  }

  lemma LatestFrame(r: Rounds, s: Rounds, ids: set<nat>, m: int)
    requires Covers(r, ids) && Covers(s, ids) && Agree(r, s, ids, {}) && IsLatest(r, ids, m)
    ensures IsLatest(s, ids, m)
  {
    var i :| i in ids && r.round[i] == m;
    assert s.round[i] == m;
  }

  lemma {:induction false} LawfulFrame(n: CallNode, r: Rounds, s: Rounds)
    requires Covers(r, Ids(n)) && Covers(s, Ids(n)) && Agree(r, s, Ids(n), Ids(n)) && Lawful(n, r)
    ensures Lawful(n, s)
    decreases n, 1
  {
    hide Ids, Calls, IsLatest, ChildLaw, HasLeaf;
    CallsIds(n);
    IdIn(n);
    LatestFrame(r, s, Calls(n), r.latest[n.id]);
    forall j | 0 <= j < |n.edges| && !n.edges[j].child.IsLeaf() ensures ChildLaw(n, j, s) {
      ChildIds(n, j);
      assert ChildLaw(n, j, r);
      ChildLawFrame(n, j, r, s);
    }
    if HasLeaf(n) {
      GasLeafIn(n);
    }
  }

  lemma {:induction false} ChildLawFrame(n: CallNode, j: nat, r: Rounds, s: Rounds)
    requires j < |n.edges| && Covers(r, Ids(n)) && Covers(s, Ids(n))
    requires EdgeIds(n, j + 1) <= Ids(n) && n.id in Ids(n)
    requires Agree(r, s, {n.id} + EdgeIds(n, j + 1), EdgeIds(n, j + 1))
    requires ChildLaw(n, j, r)
    ensures ChildLaw(n, j, s)
    decreases n, 0
  {
    hide Ids, EdgeIds, IsLatest, Lawful, Before;
    ChildIds(n, j);
    BeforeIds(n, j);
    EdgeIdsGrow(n, j, j + 1);
    LawfulFrame(n.edges[j].child, r, s);
    var at := r.round[n.edges[j].child.id];
    match n.edges[j].typ
    case Sync =>
    case Async =>
    case AsyncCrossShard => LatestFrame(r, s, Before(n, j), at - 1);
    case Callback => LatestFrame(r, s, Before(n, j), at);
    case CallbackCrossShard => LatestFrame(r, s, Before(n, j), at - 1);
  }

  // ----- The traversal -----

  function RoundFor(typ: EdgeType, at: int, latest: int): int {
    match typ
    case Sync => at
    case Async => at
    case AsyncCrossShard => latest + 1
    case Callback => latest
    case CallbackCrossShard => latest + 1
  }

  /** A call in the middle of its traversal: its first `k` children are done. */
  ghost predicate Progress(n: CallNode, k: nat, r: Rounds, at: int)
    requires k <= |n.edges|
  {
    && Covers(r, Ids(n)) && n.id in Ids(n) && Before(n, k) <= Ids(n)
    && at >= 0 && r.round[n.id] == at
    && LawUpTo(n, k, r)
    && IsLatest(r, Before(n, k), r.latest[n.id])
    && (HasLeaf(n) ==> GasLeaf(n) in Ids(n) && r.round[GasLeaf(n)] == at)
    && Untouched(n, k, r)
  }

  /** The latest rounds below the remaining children are still zero. */
  ghost predicate Untouched(n: CallNode, k: nat, r: Rounds)
    requires k <= |n.edges| && Covers(r, Ids(n))
  {
    forall j, i :: k <= j < |n.edges| && i in Ids(n.edges[j].child) ==> i in r.latest && r.latest[i] == 0
  }

  lemma LatestAtLeast(n: CallNode, k: nat, r: Rounds, at: int)
    requires k <= |n.edges| && Progress(n, k, r, at)
    ensures r.latest[n.id] >= at >= 0
  {
    hide Ids, LawUpTo, Untouched, HasLeaf;
    BeforeHasSelf(n, k);
  }

  lemma {:induction false} BeforeHasSelf(n: CallNode, k: nat)
    requires k <= |n.edges|
    ensures n.id in Before(n, k)
    decreases k
  {
    if k > 0 {
      BeforeHasSelf(n, k - 1);
    }
  }

  /** A finish leaf changes nothing. */
  lemma LeafStep(n: CallNode, k: nat, r: Rounds, at: int)
    requires k < |n.edges| && Progress(n, k, r, at) && n.edges[k].child.IsLeaf()
    ensures Progress(n, k + 1, r, at)
  {
    hide Ids, ChildLaw, IsLatest, HasLeaf;
    assert Before(n, k + 1) == Before(n, k);
  }

  /** Outside a subtree nothing changed. */
  ghost predicate OnlyInside(ids: set<nat>, r: Rounds, s: Rounds) {
    && r.round.Keys == s.round.Keys && r.latest.Keys == s.latest.Keys
    && (forall i :: i in r.round && i !in ids ==> s.round[i] == r.round[i])
    && (forall i :: i in r.latest && i !in ids ==> s.latest[i] == r.latest[i])
  }

  function Raise(s: Rounds, n: nat, c: nat): Rounds
    requires n in s.latest && c in s.latest
  {
    if s.latest[n] < s.latest[c] then s.(latest := s.latest[n := s.latest[c]]) else s
  }

  /** A traversed child: `s` is the state after its subtree, before the parent's maximum is raised. */
  lemma CallStep(n: CallNode, k: nat, r: Rounds, s: Rounds, at: int)
    requires Distinct(n) && k < |n.edges| && Progress(n, k, r, at)
    requires var c := n.edges[k].child;
             && !c.IsLeaf() && OnlyInside(Ids(c), r, s) && Covers(s, Ids(c)) && c.id in Ids(c)
             && Lawful(c, s) && s.round[c.id] == RoundFor(n.edges[k].typ, at, r.latest[n.id])
    ensures Progress(n, k + 1, Raise(s, n.id, n.edges[k].child.id), at)
  {
    hide Ids, Before, Calls, LawUpTo, ChildLaw, IsLatest, Lawful, HasLeaf, Distinct, RunsAt, EdgeIds, Untouched;
    var c := n.edges[k].child;
    var t := Raise(s, n.id, c.id);
    RootApart(n, k);
    BeforeIds(n, k + 1);
    BeforeApart(n, k);
    BeforeStep(n, k);
    EarlierLaw(n, k, r, t);
    NewLaw(n, k, r, s, t, at);
    LawSnoc(n, k, t);
    LatestGrows(n, k, r, s, t);
    LeafKept(n, k, r, t, at);
    UntouchedKept(n, k, r, t);
  }

  lemma BeforeStep(n: CallNode, k: nat)
    requires k < |n.edges| && !n.edges[k].child.IsLeaf()
    ensures Before(n, k + 1) == Before(n, k) + Calls(n.edges[k].child)
  {
    hide Calls;
  }

  /** Earlier calls lie outside the subtree of child `k`. */
  lemma BeforeApart(n: CallNode, k: nat)
    requires Distinct(n) && k < |n.edges|
    ensures Before(n, k) !! Ids(n.edges[k].child) && EdgeIds(n, k) !! Ids(n.edges[k].child)
  {
    hide Ids;
    RootApart(n, k);
    BeforeIds(n, k);
  }

  lemma LawSnoc(n: CallNode, k: nat, t: Rounds)
    requires k < |n.edges| && Covers(t, Ids(n)) && LawUpTo(n, k, t) && ChildLaw(n, k, t)
    ensures LawUpTo(n, k + 1, t)
  {
    hide Ids, ChildLaw;
  }

  lemma EarlierLaw(n: CallNode, k: nat, r: Rounds, t: Rounds)
    requires Distinct(n) && k < |n.edges| && Covers(r, Ids(n)) && Covers(t, Ids(n)) && LawUpTo(n, k, r)
    requires forall i :: i in r.round && i !in Ids(n.edges[k].child) ==> i in t.round && t.round[i] == r.round[i]
    requires forall i :: i in r.latest && i !in Ids(n.edges[k].child) && i != n.id ==> i in t.latest && t.latest[i] == r.latest[i]
    ensures LawUpTo(n, k, t)
  {
    hide Ids, ChildLaw, EdgeIds, Distinct;
    BeforeApart(n, k);
    RootApart(n, k);
    IdIn(n);
    RootNotBelow(n);
    forall j | 0 <= j < k && !n.edges[j].child.IsLeaf() ensures ChildLaw(n, j, t) {
      ChildIds(n, j);
      EdgeIdsGrow(n, j + 1, k);
      assert ChildLaw(n, j, r);
      ChildLawFrame(n, j, r, t);
    }
  }

  lemma RootNotBelow(n: CallNode)
    requires Distinct(n)
    ensures n.id !in EdgeIds(n, |n.edges|)
  {
  }

  lemma NewLaw(n: CallNode, k: nat, r: Rounds, s: Rounds, t: Rounds, at: int)
    requires Distinct(n) && k < |n.edges| && Progress(n, k, r, at)
    requires var c := n.edges[k].child;
             && OnlyInside(Ids(c), r, s) && Covers(s, Ids(c)) && c.id in Ids(c)
             && Lawful(c, s) && s.round[c.id] == RoundFor(n.edges[k].typ, at, r.latest[n.id])
             && n.id in s.latest && c.id in s.latest && t == Raise(s, n.id, c.id)
    ensures Covers(t, Ids(n)) && ChildLaw(n, k, t)
  {
    hide Ids, EdgeIds, IsLatest, Lawful, Before, LawUpTo, HasLeaf, Untouched;
    var c := n.edges[k].child;
    RootApart(n, k);
    BeforeApart(n, k);
    ChildIds(n, k);
    BeforeIds(n, k);
    LawfulFrame(c, s, t);
    LatestFrame(r, t, Before(n, k), r.latest[n.id]);
  }

  lemma LatestGrows(n: CallNode, k: nat, r: Rounds, s: Rounds, t: Rounds)
    requires Distinct(n) && k < |n.edges| && Covers(r, Ids(n)) && n.id in Ids(n) && Before(n, k) <= Ids(n)
    requires IsLatest(r, Before(n, k), r.latest[n.id])
    requires var c := n.edges[k].child;
             && OnlyInside(Ids(c), r, s) && Covers(s, Ids(c)) && c.id in Ids(c) && Lawful(c, s)
             && n.id in s.latest && c.id in s.latest && t == Raise(s, n.id, c.id)
             && Before(n, k + 1) == Before(n, k) + Calls(c)
    ensures Before(n, k + 1) <= Ids(n) && Covers(t, Before(n, k + 1)) && n.id in t.latest
    ensures IsLatest(t, Before(n, k + 1), t.latest[n.id])
  {
    hide Ids, EdgeIds, IsLatest, Before, Calls, LawUpTo, HasLeaf;
    var c := n.edges[k].child;
    RootApart(n, k);
    BeforeApart(n, k);
    BeforeIds(n, k + 1);
    CallsIds(c);
    LatestFrame(r, t, Before(n, k), r.latest[n.id]);
    LatestFrame(s, t, Calls(c), s.latest[c.id]);
    LatestOfUnion(t, Before(n, k), Calls(c), r.latest[n.id], s.latest[c.id]);
  }

  lemma LatestOfUnion(t: Rounds, a: set<nat>, b: set<nat>, x: int, y: int)
    requires Covers(t, a) && Covers(t, b) && IsLatest(t, a, x) && IsLatest(t, b, y)
    ensures IsLatest(t, a + b, if x < y then y else x)
  {
    var i :| i in a && t.round[i] == x;
    var j :| j in b && t.round[j] == y;
    assert i in a + b && j in a + b;
  }

  lemma LeafKept(n: CallNode, k: nat, r: Rounds, t: Rounds, at: int)
    requires Distinct(n) && k < |n.edges| && !n.edges[k].child.IsLeaf()
    requires HasLeaf(n) ==> GasLeaf(n) in r.round && r.round[GasLeaf(n)] == at
    requires forall i :: i in r.round && i !in Ids(n.edges[k].child) ==> i in t.round && t.round[i] == r.round[i]
    ensures HasLeaf(n) ==> GasLeaf(n) in Ids(n) && GasLeaf(n) in t.round && t.round[GasLeaf(n)] == at
  {
    hide Ids, Distinct;
    if HasLeaf(n) {
      GasLeafIn(n);
      var j := FirstLeaf(n, 0);
      ChildIds(n, j);
      ChildrenDisjoint(n, j, k);
    }
  }

  lemma UntouchedKept(n: CallNode, k: nat, r: Rounds, t: Rounds)
    requires Distinct(n) && k < |n.edges| && Covers(r, Ids(n)) && Covers(t, Ids(n)) && Untouched(n, k, r)
    requires forall i :: i in r.latest && i !in Ids(n.edges[k].child) && i != n.id ==> i in t.latest && t.latest[i] == r.latest[i]
    ensures Untouched(n, k + 1, t)
  {
    hide Ids, Distinct;
    forall j, i | k + 1 <= j < |n.edges| && i in Ids(n.edges[j].child) ensures i in t.latest && t.latest[i] == 0 {
      ChildrenDisjoint(n, j, k);
      RootApart(n, j);
    }
  }

  /** The incoming edge: the caller's id and the type of the call. */
  datatype Caller = Caller(id: nat, typ: EdgeType)

  /** What the traversal needs of the state when it enters a subtree. */
  ghost predicate Ready(n: CallNode, caller: Option<Caller>, r: Rounds) {
    && Covers(r, Ids(n)) && n.id in Ids(n)
    && (forall i :: i in Ids(n) ==> r.latest[i] == 0)
    && match caller
       case None => r.round[n.id] == 0 && (HasLeaf(n) ==> GasLeaf(n) in Ids(n) && r.round[GasLeaf(n)] == 0)
       case Some(c) => Covers(r, {c.id}) && c.id !in Ids(n) && 0 <= r.round[c.id] <= r.latest[c.id]
  }

  /** The round a call gets from its caller. */
  function EntryRound(caller: Option<Caller>, r: Rounds): int
    requires caller.Some? ==> Covers(r, {caller.value.id})
  {
    match caller
    case None => 0
    case Some(c) => assert c.id in {c.id}; RoundFor(c.typ, r.round[c.id], r.latest[c.id])
  }

  /** The state just after a call has been given its round. */
  function Entered(n: CallNode, caller: Option<Caller>, r: Rounds): Rounds
    requires caller.Some? ==> Covers(r, {caller.value.id})
    requires HasLeaf(n)
  {
    var at := EntryRound(caller, r);
    if caller.None? then r
    else Rounds(r.round[n.id := at][GasLeaf(n) := at], r.latest[n.id := at])
  }

  lemma EnterProgress(n: CallNode, caller: Option<Caller>, r: Rounds)
    requires Distinct(n) && HasLeaf(n) && Ready(n, caller, r)
    ensures var t := Entered(n, caller, r);
            OnlyInside(Ids(n), r, t) && Progress(n, 0, t, EntryRound(caller, r))
  {
    hide Ids, Distinct, HasLeaf, ChildLaw, GasLeaf;
    var t, at := Entered(n, caller, r), EntryRound(caller, r);
    RootNotBelow(n);
    GasLeafIn(n);
    BeforeIds(n, 0);
    assert t.round[n.id] == at && n.id in Before(n, 0);
    forall j, i | 0 <= j < |n.edges| && i in Ids(n.edges[j].child) ensures i in t.latest && t.latest[i] == 0 {
      ChildIds(n, j);
      RootApart(n, j);
    }
  }

  /** A child is entered with the state its parent's traversal has reached. */
  lemma ChildReady(n: CallNode, k: nat, r: Rounds, at: int)
    requires Distinct(n) && k < |n.edges| && Progress(n, k, r, at)
    ensures Ready(n.edges[k].child, Some(Caller(n.id, n.edges[k].typ)), r)
  {
    hide Distinct, HasLeaf, LawUpTo, IsLatest, Ids;
    RootApart(n, k);
    ChildIds(n, k);
    LatestAtLeast(n, k, r, at);
  }

  lemma Unchanged(ids: set<nat>, r: Rounds)
    ensures OnlyInside(ids, r, r)
  {
  }

  /** What a visit leaves behind in a call's subtree. */
  ghost predicate ChildVisited(c: CallNode, caller: Option<Caller>, before: Rounds, after: Rounds)
    requires caller.Some? ==> Covers(before, {caller.value.id})
  {
    && Covers(after, Ids(c)) && Lawful(c, after)
    && c.id in after.round && after.round[c.id] == EntryRound(caller, before)
  }

  lemma VisitEnds(n: CallNode, caller: Option<Caller>, start: Rounds, r: Rounds, at: int)
    requires Progress(n, |n.edges|, r, at)
    requires (caller.Some? ==> Covers(start, {caller.value.id})) && at == EntryRound(caller, start)
    ensures ChildVisited(n, caller, start, r)
  {
    hide Ids, LawUpTo, IsLatest, HasLeaf;
  }

  lemma ReadyCaller(n: CallNode, caller: Option<Caller>, r: Rounds)
    requires Ready(n, caller, r)
    ensures caller.Some? ==> Covers(r, {caller.value.id})
  {
  }

  lemma Parts(n: CallNode, k: nat)
    requires Distinct(n) && Finished(n) && k < |n.edges|
    ensures HasLeaf(n) && Distinct(n.edges[k].child) && Finished(n.edges[k].child)
  {
  }

  /** One turn of the loop over the edges. */
  lemma ChildStep(n: CallNode, k: nat, start: Rounds, before: Rounds, after: Rounds, at: int)
    requires Distinct(n) && k < |n.edges| && Progress(n, k, before, at) && OnlyInside(Ids(n), start, before)
    requires var c, caller := n.edges[k].child, Some(Caller(n.id, n.edges[k].typ));
             && OnlyInside(Ids(c), before, after)
             && (c.IsLeaf() ==> after == before)
             && (!c.IsLeaf() ==> Ready(c, caller, before) && ChildVisited(c, caller, before, after))
    ensures var c := n.edges[k].child;
            && n.id in after.latest && c.id in after.latest
            && Progress(n, k + 1, Raise(after, n.id, c.id), at)
            && OnlyInside(Ids(n), start, Raise(after, n.id, c.id))
  {
    hide Ids, Distinct, Lawful, LawUpTo, IsLatest, HasLeaf;
    var c := n.edges[k].child;
    ChildIds(n, k);
    LatestAtLeast(n, k, before, at);
    if c.IsLeaf() {
      LeafStep(n, k, before, at);
      assert before.latest[c.id] == 0;
    } else {
      CallStep(n, k, before, after, at);
    }
  }

  class Scheduler {
    var round: map<nat, int>
    var latest: map<nat, int>

    function State(): Rounds
      reads this
    {
      Rounds(round, latest)
    }

    constructor (ids: set<nat>)
      ensures latest.Keys == ids && round.Keys == ids && forall i :: i in ids ==> latest[i] == 0
    {
      round := map i | i in ids :: 0;
      latest := map i | i in ids :: 0;
    }

    /** The first closure of `AssignExecutionRounds`: a call gets its round when it is entered. */
    method Enter(n: CallNode, caller: Option<Caller>)
      requires HasLeaf(n) && (caller.Some? ==> Covers(State(), {caller.value.id}))
      modifies this
      ensures State() == Entered(n, caller, old(State()))
    {
      hide HasLeaf, GasLeaf;
      if caller.None? { return; }
      var c := caller.value;
      assert c.id in {c.id};
      var at;
      match c.typ {
        case Sync => at := round[c.id];
        case Async => at := round[c.id];
        case AsyncCrossShard => at := latest[c.id] + 1;
        case Callback => at := latest[c.id];
        case CallbackCrossShard => at := latest[c.id] + 1;
      }
      round := round[n.id := at];
      latest := latest[n.id := round[n.id]];
      round := round[GasLeaf(n) := round[n.id]];
    }

    /** `dfsFromNodeRunningOrder`; after each edge the caller's latest round is raised. */
    method Visit(n: CallNode, caller: Option<Caller>)
      requires Distinct(n) && Finished(n) && Ready(n, caller, State())
      modifies this
      ensures OnlyInside(Ids(n), old(State()), State())
      ensures n.IsLeaf() ==> State() == old(State())
      ensures (caller.Some? ==> Covers(old(State()), {caller.value.id}))
      ensures !n.IsLeaf() ==> ChildVisited(n, caller, old(State()), State())
      decreases n
    {
      hide Ids, Lawful, Progress, OnlyInside, HasLeaf, Entered, EntryRound, Ready, Distinct, Finished, ChildVisited, Covers;
      ghost var start := State();
      Unchanged(Ids(n), start);
      ReadyCaller(n, caller, start);
      if n.IsLeaf() { return; }
      Parts(n, 0);
      ghost var at := EntryRound(caller, start);
      EnterProgress(n, caller, start);
      Enter(n, caller);
      for k := 0 to |n.edges|
        invariant Progress(n, k, State(), at)
        invariant OnlyInside(Ids(n), start, State())
      {
        var c := n.edges[k].child;
        ghost var before := State();
        Parts(n, k);
        ChildReady(n, k, before, at);
        Visit(c, Some(Caller(n.id, n.edges[k].typ)));
        ChildStep(n, k, start, before, State(), at);
        if latest[n.id] < latest[c.id] {
          latest := latest[n.id := latest[c.id]];
        }
      }
      VisitEnds(n, caller, start, State(), at);
    }

    /** `AssignExecutionRounds`: the start node and its finish leaf run in round 0. */
    method AssignExecutionRounds(n: CallNode)
      requires Distinct(n) && Finished(n) && !n.IsLeaf() && FailureFree(n)
      requires Covers(State(), Ids(n)) && forall i :: i in Ids(n) ==> latest[i] == 0
      modifies this
      ensures Covers(State(), Ids(n)) && Lawful(n, State())
      ensures n.id in round && round[n.id] == 0
    {
      hide Ids, Distinct, Lawful, HasLeaf;
      round := map i | i in round :: -1;
      IdIn(n);
      GasLeafIn(n);
      round := round[n.id := 0];
      round := round[GasLeaf(n) := 0];
      RootNotBelow(n);
      Visit(n, None);
    }
  }

  // ----- Consequences of the law -----

  /** Callback edges follow all other edges, as the execution graph is built. */
  predicate CallbacksLast(n: CallNode)
    decreases n
  {
    && (forall j, k :: 0 <= j < k < |n.edges| && n.edges[j].typ.IsCallback() ==> n.edges[k].typ.IsCallback())
    && (forall k :: 0 <= k < |n.edges| ==> CallbacksLast(n.edges[k].child))
  }

  predicate CrossShard(typ: EdgeType) {
    typ.AsyncCrossShard? || typ.CallbackCrossShard?
  }

  /** Child `k` runs after everything in the subtree of child `j`: strictly, if it comes from another shard. */
  ghost predicate RunsAfter(n: CallNode, k: nat, j: nat, r: Rounds)
    requires j < |n.edges| && k < |n.edges| && Covers(r, Ids(n))
  {
    ChildIds(n, k);
    ChildIds(n, j);
    CallsIds(n.edges[j].child);
    var at := r.round[n.edges[k].child.id];
    forall d :: d in Calls(n.edges[j].child) ==> if CrossShard(n.edges[k].typ) then r.round[d] < at else r.round[d] <= at
  }

  ghost predicate IsCall(n: CallNode, k: nat) {
    k < |n.edges| && !n.edges[k].child.IsLeaf()
  }

  /** What a reader expects of a schedule, edge by edge. */
  ghost predicate EdgeScheduled(n: CallNode, k: nat, r: Rounds)
    requires IsCall(n, k) && Covers(r, Ids(n))
  {
    ChildIds(n, k);
    IdIn(n);
    var typ, at := n.edges[k].typ, r.round[n.edges[k].child.id];
    && at >= r.round[n.id]
    && (typ.Sync? || typ.Async? ==> at == r.round[n.id])
    && (CrossShard(typ) ==> at > r.round[n.id])
    && (CrossShard(typ) || typ.IsCallback() ==> forall j :: 0 <= j < k && IsCall(n, j) ==> RunsAfter(n, k, j, r))
    && (typ.IsCallback() ==>
          forall j :: 0 <= j < |n.edges| && IsCall(n, j) && !n.edges[j].typ.IsCallback() ==> RunsAfter(n, k, j, r))
  }

  ghost predicate WellScheduled(n: CallNode, r: Rounds)
    requires Covers(r, Ids(n))
    decreases n
  {
    forall k :: 0 <= k < |n.edges| && IsCall(n, k) ==>
      EdgeScheduled(n, k, r) && (ChildIds(n, k); WellScheduled(n.edges[k].child, r))
  }

  lemma {:induction false} CallsBefore(n: CallNode, j: nat, k: nat)
    requires j < k <= |n.edges| && IsCall(n, j)
    ensures Calls(n.edges[j].child) <= Before(n, k)
    decreases k
  {
    if j < k - 1 {
      CallsBefore(n, j, k - 1);
    }
  }

  lemma EarlierSiblings(n: CallNode, k: nat, j: nat, r: Rounds)
    requires IsCall(n, k) && IsCall(n, j) && j < k && Covers(r, Ids(n)) && ChildLaw(n, k, r)
    requires CrossShard(n.edges[k].typ) || n.edges[k].typ.IsCallback()
    ensures RunsAfter(n, k, j, r)
  {
    hide Ids, Before, Calls, Lawful;
    ChildIds(n, k);
    ChildIds(n, j);
    BeforeIds(n, k);
    CallsBefore(n, j, k);
  }

  lemma EdgeIsScheduled(n: CallNode, k: nat, r: Rounds)
    requires IsCall(n, k) && Covers(r, Ids(n)) && ChildLaw(n, k, r) && CallbacksLast(n)
    ensures EdgeScheduled(n, k, r)
  {
    hide Ids, Before, Calls, Lawful, RunsAfter;
    ChildIds(n, k);
    BeforeIds(n, k);
    BeforeHasSelf(n, k);
    IdIn(n);
    forall j | 0 <= j < k && IsCall(n, j) && (CrossShard(n.edges[k].typ) || n.edges[k].typ.IsCallback())
      ensures RunsAfter(n, k, j, r)
    {
      EarlierSiblings(n, k, j, r);
    }
  }

  /** If the start runs, every call does. */
  lemma {:induction false} EveryCallRuns(n: CallNode, r: Rounds)
    requires Covers(r, Ids(n)) && WellScheduled(n, r) && n.id in r.round && r.round[n.id] >= 0
    ensures forall i :: i in Calls(n) ==> i in r.round && r.round[i] >= 0
    decreases n, |n.edges| + 1
  {
    EarlierCallsRun(n, |n.edges|, r);
  }

  lemma {:induction false} EarlierCallsRun(n: CallNode, k: nat, r: Rounds)
    requires k <= |n.edges| && Covers(r, Ids(n)) && WellScheduled(n, r) && n.id in r.round && r.round[n.id] >= 0
    ensures forall i :: i in Before(n, k) ==> i in r.round && r.round[i] >= 0
    decreases n, k
  {
    hide Ids, Calls;
    if k > 0 {
      EarlierCallsRun(n, k - 1, r);
      ChildIds(n, k - 1);
      if !n.edges[k - 1].child.IsLeaf() {
        assert IsCall(n, k - 1);
        EveryCallRuns(n.edges[k - 1].child, r);
      }
    }
  }

  /** Every lawful schedule of a tree whose callbacks come last is a good schedule throughout. */
  lemma {:induction false} ScheduleCorrect(n: CallNode, r: Rounds)
    requires Covers(r, Ids(n)) && Lawful(n, r) && CallbacksLast(n)
    ensures WellScheduled(n, r)
    decreases n
  {
    hide Ids, EdgeScheduled, Calls, RunsAt;
    forall k | 0 <= k < |n.edges| && IsCall(n, k)
      ensures EdgeScheduled(n, k, r) && (ChildIds(n, k); WellScheduled(n.edges[k].child, r))
    {
      ChildIds(n, k);
      assert ChildLaw(n, k, r);
      EdgeIsScheduled(n, k, r);
      ScheduleCorrect(n.edges[k].child, r);
    }
  }
}
