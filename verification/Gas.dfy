/**
  Gas accounting on a call tree: the post-order traversal that computes what remains of every call's
  gas before callbacks run, in 64-bit arithmetic, and the conservation of gas it implies.
 */
module Gas {
  import opened MachineIntegers
  import opened CallGraph
  import opened TreeShape

  /** The edge into a node; the start node counts as a sync call. */
  datatype Incoming = Incoming(typ: EdgeType, fail: bool)

  function Into(n: CallNode, k: nat): Incoming
    requires k < |n.edges|
  {
    Incoming(n.edges[k].typ, n.edges[k].fail)
  }

  // ----- The books -----

  /** The gas fields of all nodes, and the rounds in which they run; -1 says that a call never does. */
  datatype Books = Books(limit: map<nat, uint64>, remaining: map<nat, uint64>, accumulated: map<nat, uint64>, round: map<nat, int>)

  predicate Covers(b: Books, ids: set<nat>) {
    ids <= b.limit.Keys && ids <= b.remaining.Keys && ids <= b.accumulated.Keys && ids <= b.round.Keys
  }

  /** What a call hands to one child: its limit and locked gas, less what a sync call gives back. */
  function Handed(n: CallNode, k: nat, b: Books): int
    requires k < |n.edges| && Covers(b, Ids(n))
  {
    ChildIds(n, k);
    var e := n.edges[k];
    if e.child.IsLeaf() || e.typ.IsCallback() then 0
    else b.limit[e.child.id] + e.child.locked - (if e.typ.IsAsync() then 0 else b.remaining[e.child.id])
  }

  function HandedUpTo(n: CallNode, k: nat, b: Books): int
    requires k <= |n.edges| && Covers(b, Ids(n))
    decreases k
  {
    if k == 0 then 0 else HandedUpTo(n, k - 1, b) + Handed(n, k - 1, b)
  }

  /** The gas a call spends, over unbounded integers. */
  function Spent(n: CallNode, b: Books): int
    requires Covers(b, Ids(n))
  {
    n.used + HandedUpTo(n, |n.edges|, b)
  }

  predicate Processed(n: CallNode, into: Incoming, b: Books)
    requires Covers(b, Ids(n)) && n.id in Ids(n)
  {
    !n.IsLeaf() && !into.typ.IsCallback() && b.round[n.id] != -1
  }

  predicate Fails(n: CallNode, into: Incoming) {
    into.fail || n.HasFailSyncEdge()
  }

  /** What a call gives to each of its callbacks. */
  function Funding(n: CallNode, b: Books): uint64
    requires n.id in b.remaining
  {
    Wrap64(b.remaining[n.id] + n.locked)
  }

  /** The entries of one call: what remains, and the funding of its callbacks. */
  predicate OwnEntries(n: CallNode, into: Incoming, b: Books)
    requires Covers(b, Ids(n)) && n.id in Ids(n)
  {
    && b.remaining[n.id] == (if Fails(n, into) then 0 else Wrap64(b.limit[n.id] - Spent(n, b)))
    && b.accumulated[n.id] == Kept(n, into, b.remaining[n.id])
    && forall k :: 0 <= k < |n.edges| && n.edges[k].typ.IsCallback() ==> Funded(n, k, b)
  }

  predicate Funded(n: CallNode, k: nat, b: Books)
    requires k < |n.edges| && Covers(b, Ids(n)) && n.id in Ids(n)
  {
    ChildIds(n, k);
    b.limit[n.edges[k].child.id] == Funding(n, b)
  }

  /** The books of a whole subtree are in order. */
  predicate Booked(n: CallNode, into: Incoming, b: Books)
    requires Covers(b, Ids(n))
    decreases n, 1
  {
    IdIn(n);
    BookedUpTo(n, |n.edges|, b) && (Processed(n, into, b) ==> OwnEntries(n, into, b))
  }

  predicate BookedUpTo(n: CallNode, k: nat, b: Books)
    requires k <= |n.edges| && Covers(b, Ids(n))
    decreases n, 0, k
  {
    forall j :: 0 <= j < k ==> (ChildIds(n, j); Booked(n.edges[j].child, Into(n, j), b))
  }

  // ----- Congruence -----

  /** Equal modulo 2^64. */
  predicate Congruent(a: int, b: int) {
    (a - b) % TWO_64 == 0
  }

  lemma Multiples(x: int, y: int)
    requires x % TWO_64 == 0 && y % TWO_64 == 0
    ensures (x + y) % TWO_64 == 0 && (x - y) % TWO_64 == 0
  {
  }

  lemma CongruentSum(a: int, b: int, c: int, d: int)
    requires Congruent(a, b) && Congruent(c, d)
    ensures Congruent(a + c, b + d) && Congruent(a - c, b - d)
  {
    Multiples(a - b, c - d);
    assert a + c - (b + d) == a - b + (c - d) && a - c - (b - d) == a - b - (c - d);
  }

  /** Adding the same on both sides, or moving it to the other side, keeps a congruence. */
  lemma CongruentShift(a: int, b: int, c: int, d: int)
    requires a - b == c - d
    ensures Congruent(a, b) <==> Congruent(c, d)
  {
  }

  lemma CongruentSelf(a: int)
    ensures Congruent(a, a)
  {
  }

  lemma CongruentTrans(a: int, b: int, c: int)
    requires Congruent(a, b) && Congruent(b, c)
    ensures Congruent(a, c)
  {
    Multiples(a - b, b - c);
    assert a - b + (b - c) == a - c;
  }

  lemma WrapCongruent(x: int)
    ensures Congruent(Wrap64(x), x)
  {
  }

  // ----- The ledger -----

  /** Every call outside callback subtrees runs, and none fails. */
  predicate Smooth(n: CallNode, b: Books)
    requires Covers(b, Ids(n))
    decreases n
  {
    IdIn(n);
    && b.round[n.id] != -1
    && (forall k :: 0 <= k < |n.edges| ==> !n.edges[k].fail)
    && (forall k :: 0 <= k < |n.edges| && Counted(n, k) ==> (ChildIds(n, k); Smooth(n.edges[k].child, b)))
  }

  /** Child `k` is a call outside the callbacks. */
  predicate Counted(n: CallNode, k: nat)
    requires k < |n.edges|
  {
    !n.edges[k].child.IsLeaf() && !n.edges[k].typ.IsCallback()
  }

  /** How many of the first `k` children are callbacks. */
  function CallbackCount(n: CallNode, k: nat): (m: nat)
    requires k <= |n.edges|
    ensures m > 0 <==> exists j :: 0 <= j < k && n.edges[j].typ.IsCallback()
    decreases k
  {
    if k == 0 then 0 else CallbackCount(n, k - 1) + (if n.edges[k - 1].typ.IsCallback() then 1 else 0)
  }

  function Callbacks(n: CallNode): nat {
    CallbackCount(n, |n.edges|)
  }

  /** The limits of the callbacks among the first `k` children. */
  function CallbackLimits(n: CallNode, k: nat, b: Books): int
    requires k <= |n.edges| && Covers(b, Ids(n))
    decreases k
  {
    if k == 0 then 0
    else
      ChildIds(n, k - 1);
      CallbackLimits(n, k - 1, b) + (if n.edges[k - 1].typ.IsCallback() then b.limit[n.edges[k - 1].child.id] else 0)
  }

  /**
    What a finished call leaves idle: a sync call its locked gas, an async call without a callback what
    it accumulated and its locked gas.
   */
  function Idle(c: CallNode, typ: EdgeType, b: Books): int
    requires Covers(b, Ids(c)) && c.id in Ids(c)
  {
    if !typ.IsAsync() then c.locked else if Callbacks(c) > 0 then 0 else b.accumulated[c.id] + c.locked
  }

  /** Everything spent, funded to callbacks or left idle at a call and below. */
  function Ledger(n: CallNode, b: Books): int
    requires Covers(b, Ids(n))
    decreases n, |n.edges| + 1
  {
    n.used + CallbackLimits(n, |n.edges|, b) + LedgerUpTo(n, |n.edges|, b)
  }

  function LedgerUpTo(n: CallNode, k: nat, b: Books): int
    requires k <= |n.edges| && Covers(b, Ids(n))
    decreases n, k
  {
    if k == 0 then 0
    else
      ChildIds(n, k - 1);
      var c := n.edges[k - 1].child;
      LedgerUpTo(n, k - 1, b) + (if Counted(n, k - 1) then Ledger(c, b) + Idle(c, n.edges[k - 1].typ, b) else 0)
  }

  // ----- Surplus -----

  /**
    Gas that is funded without being taken from anyone: an async call pays for one callback out of
    what remains, a call of another kind for none.
   */
  function Unpaid(n: CallNode, typ: EdgeType): nat {
    if typ.IsAsync() && Callbacks(n) > 0 then Callbacks(n) - 1 else Callbacks(n)
  }

  function Surplus(n: CallNode, typ: EdgeType, b: Books): int
    requires Covers(b, Ids(n))
    decreases n, |n.edges| + 1
  {
    IdIn(n);
    Unpaid(n, typ) * Funding(n, b) + SurplusUpTo(n, |n.edges|, b)
  }

  function SurplusUpTo(n: CallNode, k: nat, b: Books): int
    requires k <= |n.edges| && Covers(b, Ids(n))
    decreases n, k
  {
    if k == 0 then 0
    else
      ChildIds(n, k - 1);
      SurplusUpTo(n, k - 1, b) +
      (if Counted(n, k - 1) then Surplus(n.edges[k - 1].child, n.edges[k - 1].typ, b) else 0)
  }

  lemma TimesNext(m: int, w: int)
    ensures (m + 1) * w == m * w + w
  {
  }

  /** All callbacks together are given as many times the funding as there are callbacks. */
  lemma {:induction false} LimitsAreFundings(n: CallNode, k: nat, into: Incoming, b: Books)
    requires k <= |n.edges| && Covers(b, Ids(n)) && n.id in Ids(n) && OwnEntries(n, into, b)
    ensures CallbackLimits(n, k, b) == CallbackCount(n, k) * Funding(n, b)
    decreases k
  {
    hide Ids, Spent, Fails, Kept, Funding;
    if k > 0 {
      LimitsAreFundings(n, k - 1, into, b);
      TimesNext(CallbackCount(n, k - 1), Funding(n, b));
      ChildIds(n, k - 1);
      if n.edges[k - 1].typ.IsCallback() {
        assert Funded(n, k - 1, b);
      }
    }
  }

  /** One callback less is left unpaid by an async call. */
  lemma AsyncPaysOne(n: CallNode, typ: EdgeType, b: Books)
    requires Covers(b, Ids(n)) && n.id in Ids(n)
    ensures Surplus(n, Sync, b) ==
            Surplus(n, typ, b) + (if typ.IsAsync() && Callbacks(n) > 0 then Funding(n, b) else 0)
  {
    hide Ids, Funding, SurplusUpTo, Callbacks;
    if typ.IsAsync() && Callbacks(n) > 0 {
      TimesNext(Callbacks(n) - 1, Funding(n, b));
    }
  }

  // ----- Conservation -----

  /**
    The balance of every call, modulo 2^64: its limit and the surplus created at it and below make up
    what remains and the ledger.
   */
  lemma {:induction false} GasBalances(n: CallNode, into: Incoming, b: Books)
    requires Covers(b, Ids(n)) && n.id in Ids(n) && Booked(n, into, b) && Smooth(n, b)
    requires Processed(n, into, b) && !into.fail
    ensures Congruent(b.limit[n.id] + Surplus(n, Sync, b), b.remaining[n.id] + Ledger(n, b))
    decreases n, |n.edges| + 1
  {
    hide Ids, Ledger, Surplus, Spent, HandedUpTo, LedgerUpTo, SurplusUpTo, Congruent, CallbackLimits, Funding;
    NoFailures(n, b);
    HandedIsLedger(n, |n.edges|, b);
    EntryBalances(n, into, b);
    Totals(n, b);
    LimitsAreFundings(n, |n.edges|, into, b);
    var h, l, x := HandedUpTo(n, |n.edges|, b), LedgerUpTo(n, |n.edges|, b), SurplusUpTo(n, |n.edges|, b);
    var rest := b.remaining[n.id] + n.used;
    CongruentSum(b.limit[n.id], rest + h, h + x, l);
    CongruentShift(b.limit[n.id] + (h + x), rest + h + l, b.limit[n.id] + Surplus(n, Sync, b), b.remaining[n.id] + Ledger(n, b));
  }

  lemma Totals(n: CallNode, b: Books)
    requires Covers(b, Ids(n)) && n.id in Ids(n)
    ensures Ledger(n, b) == n.used + CallbackLimits(n, |n.edges|, b) + LedgerUpTo(n, |n.edges|, b)
    ensures Spent(n, b) == n.used + HandedUpTo(n, |n.edges|, b)
    ensures Surplus(n, Sync, b) == CallbackCount(n, |n.edges|) * Funding(n, b) + SurplusUpTo(n, |n.edges|, b)
  {
  }

  lemma NoFailures(n: CallNode, b: Books)
    requires Covers(b, Ids(n)) && Smooth(n, b)
    ensures !n.HasFailSyncEdge()
  {
  }

  lemma EntryBalances(n: CallNode, into: Incoming, b: Books)
    requires Covers(b, Ids(n)) && n.id in Ids(n) && OwnEntries(n, into, b) && !Fails(n, into)
    ensures Congruent(b.limit[n.id], b.remaining[n.id] + Spent(n, b))
  {
    hide Ids, Spent;
    WrapCongruent(b.limit[n.id] - Spent(n, b));
  }

  /** What a call hands to its children, and their surplus, is what the ledger records for them. */
  lemma {:induction false} HandedIsLedger(n: CallNode, k: nat, b: Books)
    requires k <= |n.edges| && Covers(b, Ids(n)) && BookedUpTo(n, |n.edges|, b) && Smooth(n, b)
    ensures Congruent(HandedUpTo(n, k, b) + SurplusUpTo(n, k, b), LedgerUpTo(n, k, b))
    decreases n, k
  {
    hide Ids, Ledger, Surplus, Idle, Handed, Smooth, BookedUpTo, Congruent;
    if k == 0 {
      CongruentSelf(0);
    } else {
      HandedIsLedger(n, k - 1, b);
      var c, typ := n.edges[k - 1].child, n.edges[k - 1].typ;
      ChildIds(n, k - 1);
      if Counted(n, k - 1) {
        ChildBooked(n, k - 1, b);
        KeepsRemaining(c, Into(n, k - 1), b);
        GasBalances(c, Into(n, k - 1), b);
        ChildBalances(n, k - 1, b);
        CongruentSum(HandedUpTo(n, k - 1, b) + SurplusUpTo(n, k - 1, b), LedgerUpTo(n, k - 1, b),
                     Handed(n, k - 1, b) + Surplus(c, typ, b), Ledger(c, b) + Idle(c, typ, b));
      } else {
        HandedNothing(n, k - 1, b);
      }
    }
  }

  lemma HandedNothing(n: CallNode, k: nat, b: Books)
    requires k < |n.edges| && Covers(b, Ids(n)) && !Counted(n, k)
    ensures Handed(n, k, b) == 0
  {
  }

  lemma ChildBooked(n: CallNode, k: nat, b: Books)
    requires k < |n.edges| && Covers(b, Ids(n)) && BookedUpTo(n, |n.edges|, b) && Smooth(n, b) && Counted(n, k)
    ensures var c := n.edges[k].child;
            && Covers(b, Ids(c)) && c.id in Ids(c) && Booked(c, Into(n, k), b) && Smooth(c, b)
            && Processed(c, Into(n, k), b) && !Into(n, k).fail
  {
    hide Ids, Booked;
    ChildIds(n, k);
    SmoothRuns(n.edges[k].child, b);
  }

  lemma SmoothRuns(n: CallNode, b: Books)
    requires Covers(b, Ids(n)) && Smooth(n, b) && n.id in Ids(n)
    ensures b.round[n.id] != -1
  {
  }

  /** An async call that answers to nobody accumulates what remains. */
  lemma KeepsRemaining(c: CallNode, into: Incoming, b: Books)
    requires Covers(b, Ids(c)) && c.id in Ids(c) && Booked(c, into, b) && Processed(c, into, b)
    ensures into.typ.IsAsync() && Callbacks(c) == 0 ==> b.accumulated[c.id] == b.remaining[c.id]
  {
    hide Ids, Spent, BookedUpTo;
  }

  lemma ChildBalances(n: CallNode, k: nat, b: Books)
    requires k < |n.edges| && Covers(b, Ids(n)) && Counted(n, k)
    requires var c := n.edges[k].child;
             && Covers(b, Ids(c)) && c.id in Ids(c)
             && Congruent(b.limit[c.id] + Surplus(c, Sync, b), b.remaining[c.id] + Ledger(c, b))
             && (n.edges[k].typ.IsAsync() && Callbacks(c) == 0 ==> b.accumulated[c.id] == b.remaining[c.id])
    ensures var c, typ := n.edges[k].child, n.edges[k].typ;
            Congruent(Handed(n, k, b) + Surplus(c, typ, b), Ledger(c, b) + Idle(c, typ, b))
  {
    hide Ids, Ledger, Surplus, Congruent, Callbacks, Wrap64;
    var c, typ := n.edges[k].child, n.edges[k].typ;
    var x, y := b.limit[c.id] + Surplus(c, Sync, b), b.remaining[c.id] + Ledger(c, b);
    AsyncPaysOne(c, typ, b);
    var left, right := Handed(n, k, b) + Surplus(c, typ, b), Ledger(c, b) + Idle(c, typ, b);
    if typ.IsAsync() && Callbacks(c) > 0 {
      var rest := b.remaining[c.id] + c.locked;
      WrapCongruent(rest);
      CongruentSum(x, y, Wrap64(rest), rest);
      CongruentShift(x - Wrap64(rest), y - rest, left, right);
    } else {
      CongruentShift(x, y, left, right);
    }
  }

  /** Gas is conserved modulo 2^64 exactly when the surplus vanishes modulo 2^64. */
  lemma GasConserved(n: CallNode, into: Incoming, b: Books)
    requires Covers(b, Ids(n)) && n.id in Ids(n) && Booked(n, into, b) && Smooth(n, b)
    requires Processed(n, into, b) && !into.fail
    ensures Congruent(b.limit[n.id], b.remaining[n.id] + Ledger(n, b)) <==> Congruent(Surplus(n, Sync, b), 0)
  {
    hide Ids, Ledger, Surplus, Congruent, Booked, Smooth;
    GasBalances(n, into, b);
    var l, r, x := b.limit[n.id], b.remaining[n.id] + Ledger(n, b), Surplus(n, Sync, b);
    if Congruent(l, r) {
      CongruentSum(l + x, r, l, r);
      CongruentShift(l + x - l, r - r, x, 0);
    }
    if Congruent(x, 0) {
      CongruentSum(l + x, r, x, 0);
      CongruentShift(l + x - x, r - 0, l, r);
    }
  }

  /** Every async call outside callbacks has at most one callback, every other call none. */
  predicate AtMostOne(n: CallNode, typ: EdgeType)
    decreases n
  {
    && Unpaid(n, typ) == 0
    && forall k :: 0 <= k < |n.edges| && Counted(n, k) ==> AtMostOne(n.edges[k].child, n.edges[k].typ)
  }

  lemma {:induction false} NoSurplus(n: CallNode, typ: EdgeType, b: Books)
    requires Covers(b, Ids(n)) && AtMostOne(n, typ)
    ensures Surplus(n, typ, b) == 0
    decreases n, |n.edges| + 1
  {
    hide Ids, Funding;
    NoSurplusUpTo(n, |n.edges|, typ, b);
  }

  lemma {:induction false} NoSurplusUpTo(n: CallNode, k: nat, typ: EdgeType, b: Books)
    requires k <= |n.edges| && Covers(b, Ids(n)) && AtMostOne(n, typ)
    ensures SurplusUpTo(n, k, b) == 0
    decreases n, k
  {
    hide Ids, Unpaid;
    if k > 0 {
      NoSurplusUpTo(n, k - 1, typ, b);
      ChildIds(n, k - 1);
      if Counted(n, k - 1) {
        NoSurplus(n.edges[k - 1].child, n.edges[k - 1].typ, b);
      }
    }
  }

  // ----- Exactness -----

  /** No entry wrapped: every spending fits its limit, and so does every callback's funding. */
  predicate NoUnderflow(n: CallNode, b: Books)
    requires Covers(b, Ids(n))
    decreases n
  {
    && (n.IsLeaf() || (ChildIds(n, 0); 0 <= b.limit[n.id] - Spent(n, b) < TWO_64 && b.remaining[n.id] + n.locked < TWO_64))
    && forall k :: 0 <= k < |n.edges| && Counted(n, k) ==> (ChildIds(n, k); NoUnderflow(n.edges[k].child, b))
  }

  /** Where nothing underflows the balance is exact, so gas is conserved exactly without surplus. */
  lemma {:induction false} GasConservedExactly(n: CallNode, into: Incoming, b: Books)
    requires Covers(b, Ids(n)) && n.id in Ids(n) && Booked(n, into, b) && Smooth(n, b) && NoUnderflow(n, b)
    requires Processed(n, into, b) && !into.fail
    ensures b.limit[n.id] + Surplus(n, Sync, b) == b.remaining[n.id] + Ledger(n, b)
    ensures b.limit[n.id] == b.remaining[n.id] + Ledger(n, b) <==> Surplus(n, Sync, b) == 0
    decreases n, |n.edges| + 1
  {
    hide Ids, Ledger, Surplus, Spent, HandedUpTo, LedgerUpTo, SurplusUpTo, BookedUpTo, Smooth, CallbackLimits, Funding;
    NoFailures(n, b);
    HandedIsLedgerExactly(n, |n.edges|, b);
    Totals(n, b);
    LimitsAreFundings(n, |n.edges|, into, b);
    WrapExact(b.limit[n.id] - Spent(n, b));
  }

  lemma WrapExact(x: int)
    requires 0 <= x < TWO_64
    ensures Wrap64(x) == x
  {
  }

  lemma {:induction false} HandedIsLedgerExactly(n: CallNode, k: nat, b: Books)
    requires k <= |n.edges| && Covers(b, Ids(n)) && BookedUpTo(n, |n.edges|, b) && Smooth(n, b) && NoUnderflow(n, b)
    ensures HandedUpTo(n, k, b) + SurplusUpTo(n, k, b) == LedgerUpTo(n, k, b)
    decreases n, k
  {
    hide Ids, Ledger, Surplus, Idle, Handed, Smooth, BookedUpTo, NoUnderflow;
    if k > 0 {
      HandedIsLedgerExactly(n, k - 1, b);
      var c := n.edges[k - 1].child;
      ChildIds(n, k - 1);
      if Counted(n, k - 1) {
        ChildBooked(n, k - 1, b);
        ChildNoUnderflow(n, k - 1, b);
        KeepsRemaining(c, Into(n, k - 1), b);
        GasConservedExactly(c, Into(n, k - 1), b);
        ChildBalancesExactly(n, k - 1, b);
      } else {
        HandedNothing(n, k - 1, b);
      }
    }
  }

  lemma ChildNoUnderflow(n: CallNode, k: nat, b: Books)
    requires k < |n.edges| && Covers(b, Ids(n)) && NoUnderflow(n, b) && Counted(n, k)
    ensures Covers(b, Ids(n.edges[k].child)) && NoUnderflow(n.edges[k].child, b)
  {
    hide Ids, Spent;
    ChildIds(n, k);
  }

  lemma ChildBalancesExactly(n: CallNode, k: nat, b: Books)
    requires k < |n.edges| && Covers(b, Ids(n)) && Counted(n, k)
    requires var c := n.edges[k].child;
             && Covers(b, Ids(c)) && c.id in Ids(c) && NoUnderflow(c, b)
             && b.limit[c.id] + Surplus(c, Sync, b) == b.remaining[c.id] + Ledger(c, b)
             && (n.edges[k].typ.IsAsync() && Callbacks(c) == 0 ==> b.accumulated[c.id] == b.remaining[c.id])
    ensures var c, typ := n.edges[k].child, n.edges[k].typ;
            Handed(n, k, b) + Surplus(c, typ, b) == Ledger(c, b) + Idle(c, typ, b)
  {
    hide Ids, Ledger, Surplus, Callbacks, Spent;
    var c, typ := n.edges[k].child, n.edges[k].typ;
    AsyncPaysOne(c, typ, b);
    WrapExact(b.remaining[c.id] + c.locked);
  }

  // ----- A tree that creates gas -----

  function Leaf(id: nat): CallNode {
    CallNode(id, 0, 0, [])
  }

  /** An async call that answers to two callbacks. */
  function Finishing(id: nat): CallNode {
    CallNode(id, 0, 0, [CallEdge(Sync, false, Leaf(id + 1))])
  }

  function TwiceAnswered(): CallNode {
    CallNode(2, 0, 150, [CallEdge(Sync, false, Leaf(3)),
                         CallEdge(Callback, false, Finishing(4)),
                         CallEdge(Callback, false, Finishing(6))])
  }

  function TwoCallbacks(): CallNode {
    CallNode(0, 0, 0, [CallEdge(Sync, false, Leaf(1)), CallEdge(Async, false, TwiceAnswered())])
  }

  lemma TwoAreCounted()
    ensures Callbacks(TwiceAnswered()) == 2 && Callbacks(TwoCallbacks()) == 0
    ensures !TwiceAnswered().HasFailSyncEdge() && !TwoCallbacks().HasFailSyncEdge()
    ensures Counted(TwoCallbacks(), 1) && !Counted(TwoCallbacks(), 0)
    ensures forall k :: 0 <= k < 3 ==> !Counted(TwiceAnswered(), k)
  {
    assert CallbackCount(TwiceAnswered(), 1) == 0;
    assert CallbackCount(TwiceAnswered(), 2) == 1;
    assert CallbackCount(TwoCallbacks(), 1) == 0;
  }

  /** Nothing is counted below the async call, so the only surplus is its own. */
  lemma OnceUnpaid(b: Books)
    requires Covers(b, Ids(TwoCallbacks())) && 2 in b.remaining
    ensures Surplus(TwoCallbacks(), Sync, b) == Funding(TwiceAnswered(), b)
  {
    hide Ids, Funding, CallbackCount;
    var n, c := TwoCallbacks(), TwiceAnswered();
    TwoAreCounted();
    ChildIds(n, 1);
    IdIn(n);
    assert SurplusUpTo(c, 1, b) == 0 && SurplusUpTo(c, 2, b) == 0 && SurplusUpTo(c, 3, b) == 0;
    assert Surplus(c, Async, b) == Funding(c, b);
    assert SurplusUpTo(n, 1, b) == 0 && SurplusUpTo(n, 2, b) == Surplus(c, Async, b);
  }

  lemma NothingHanded(b: Books)
    requires Covers(b, Ids(TwiceAnswered()))
    ensures Spent(TwiceAnswered(), b) == 0
  {
    hide Ids, CallbackCount;
    var c := TwiceAnswered();
    TwoAreCounted();
    HandedNothing(c, 0, b);
    HandedNothing(c, 1, b);
    HandedNothing(c, 2, b);
    assert HandedUpTo(c, 1, b) == 0 && HandedUpTo(c, 2, b) == 0;
  }

  /** Limits 1000 for the start and 500 for the async call: both callbacks get 650, once unpaid. */
  lemma GasIsCreated(b: Books)
    requires Covers(b, Ids(TwoCallbacks())) && Booked(TwoCallbacks(), Incoming(Sync, false), b)
    requires 0 in b.limit && b.limit[0] == 1000 && 2 in b.limit && b.limit[2] == 500
    requires 0 in b.round && b.round[0] == 0 && 2 in b.round && b.round[2] == 0
    ensures Surplus(TwoCallbacks(), Sync, b) == 650
    ensures 0 in b.remaining && !Congruent(b.limit[0], b.remaining[0] + Ledger(TwoCallbacks(), b))
  {
    hide Ids, Surplus, Ledger, Spent, CallbackCount;
    var n, c := TwoCallbacks(), TwiceAnswered();
    TwoAreCounted();
    ChildIds(n, 1);
    IdIn(n);
    assert Smooth(c, b) && Smooth(n, b);
    assert Booked(c, Into(n, 1), b);
    NothingHanded(b);
    WrapExact(500);
    WrapExact(650);
    OnceUnpaid(b);
    GasConserved(n, Incoming(Sync, false), b);
  }

  // ----- What the books depend on -----

  /** Two states agree on a subtree, up to the limit of its root when that is a callback. */
  ghost predicate SameBelow(n: CallNode, into: Incoming, b: Books, c: Books)
    requires Covers(b, Ids(n)) && Covers(c, Ids(n))
  {
    && b.round == c.round
    && (forall i :: i in Ids(n) ==> b.remaining[i] == c.remaining[i] && b.accumulated[i] == c.accumulated[i])
    && (forall i :: i in Ids(n) && (i != n.id || !into.typ.IsCallback()) ==> b.limit[i] == c.limit[i])
  }

  lemma HandedFrame(n: CallNode, k: nat, b: Books, c: Books)
    requires k < |n.edges| && Covers(b, Ids(n)) && Covers(c, Ids(n)) && n.edges[k].child.id in Ids(n)
    requires !n.edges[k].typ.IsCallback() ==>
      && b.limit[n.edges[k].child.id] == c.limit[n.edges[k].child.id]
      && b.remaining[n.edges[k].child.id] == c.remaining[n.edges[k].child.id]
    ensures Handed(n, k, b) == Handed(n, k, c)
  {
    hide Ids;
  }

  /** The entries that a call's spending depends on. */
  ghost predicate SameChildren(n: CallNode, b: Books, c: Books)
    requires Covers(b, Ids(n)) && Covers(c, Ids(n))
  {
    forall k :: 0 <= k < |n.edges| && !n.edges[k].typ.IsCallback() ==> SameChild(n, k, b, c)
  }

  ghost predicate SameChild(n: CallNode, k: nat, b: Books, c: Books)
    requires k < |n.edges| && Covers(b, Ids(n)) && Covers(c, Ids(n))
  {
    ChildIds(n, k);
    var i := n.edges[k].child.id;
    b.limit[i] == c.limit[i] && b.remaining[i] == c.remaining[i]
  }

  lemma {:induction false} HandedUpToFrame(n: CallNode, k: nat, b: Books, c: Books)
    requires k <= |n.edges| && Covers(b, Ids(n)) && Covers(c, Ids(n)) && SameChildren(n, b, c)
    ensures HandedUpTo(n, k, b) == HandedUpTo(n, k, c)
    decreases k
  {
    hide Ids, Handed;
    if k > 0 {
      HandedUpToFrame(n, k - 1, b, c);
      ChildIds(n, k - 1);
      if !n.edges[k - 1].typ.IsCallback() { assert SameChild(n, k - 1, b, c); }
      HandedFrame(n, k - 1, b, c);
    }
  }

  lemma {:induction false} BookedFrame(n: CallNode, into: Incoming, b: Books, c: Books)
    requires Distinct(n) && Covers(b, Ids(n)) && Covers(c, Ids(n)) && SameBelow(n, into, b, c) && Booked(n, into, b)
    ensures Booked(n, into, c)
    decreases n
  {
    hide Ids, OwnEntries, Distinct;
    forall j | 0 <= j < |n.edges| ensures (ChildIds(n, j); Booked(n.edges[j].child, Into(n, j), c)) {
      ChildIds(n, j);
      RootApart(n, j);
      DistinctChild(n, j);
      BookedFrame(n.edges[j].child, Into(n, j), b, c);
    }
    IdIn(n);
    if Processed(n, into, b) {
      forall k | 0 <= k < |n.edges| && !n.edges[k].typ.IsCallback() ensures SameChild(n, k, b, c) {
        ChildIds(n, k);
      }
      OwnEntriesFrame(n, into, b, c);
    }
  }

  lemma OwnEntriesFrame(n: CallNode, into: Incoming, b: Books, c: Books)
    requires Covers(b, Ids(n)) && Covers(c, Ids(n)) && n.id in Ids(n)
    requires SameChildren(n, b, c) && SameBelow(n, into, b, c) && !into.typ.IsCallback() && OwnEntries(n, into, b)
    ensures OwnEntries(n, into, c)
  {
    hide Ids, HandedUpTo;
    HandedUpToFrame(n, |n.edges|, b, c);
    forall k | 0 <= k < |n.edges| && n.edges[k].typ.IsCallback() ensures Funded(n, k, c) {
      ChildIds(n, k);
      assert Funded(n, k, b);
    }
  }

  // ----- The fields of every call -----

  predicate CallbackEdge(typ: EdgeType) {
    typ == Callback || typ == CallbackCrossShard
  }

  /** The traversal passes over leaves, callbacks and calls that do not run. */
  predicate PassedOver(n: CallNode, into: Incoming, round: map<nat, int>) {
    n.edges == [] || CallbackEdge(into.typ) || (n.id in round && round[n.id] == -1)
  }

  /**
    One call afterwards, in terms of its edges. What remains is nothing if the call or a sync call of
    it fails, and otherwise its limit less what it spends. An async call without callback edges has
    accumulated what remains, every other call nothing. A call that is passed over is as before.
   */
  ghost predicate OwnAccount(n: CallNode, into: Incoming, start: Books, b: Books)
    requires Covers(start, Ids(n)) && Covers(b, Ids(n)) && n.id in Ids(n)
  {
    if PassedOver(n, into, b.round) then
      b.remaining[n.id] == start.remaining[n.id] && b.accumulated[n.id] == start.accumulated[n.id]
    else
      && b.remaining[n.id] == (if into.fail || (exists k :: 0 <= k < |n.edges| && n.edges[k].typ == Sync && n.edges[k].fail)
                               then 0 else (b.limit[n.id] - Spent(n, b)) % TWO_64)
      && b.accumulated[n.id] == (if (into.typ == Async || into.typ == AsyncCrossShard)
                                   && (forall k :: 0 <= k < |n.edges| ==> !CallbackEdge(n.edges[k].typ))
                                 then b.remaining[n.id] else 0)
  }

  /** A child's limit afterwards: a callback is given its caller's remaining and locked gas, any other child keeps its own. */
  ghost predicate LimitOfChild(n: CallNode, into: Incoming, k: nat, start: Books, b: Books)
    requires k < |n.edges| && Covers(start, Ids(n)) && Covers(b, Ids(n))
  {
    ChildIds(n, k);
    var i := n.edges[k].child.id;
    b.limit[i] == if CallbackEdge(n.edges[k].typ) && !PassedOver(n, into, b.round)
                  then (b.remaining[n.id] + n.locked) % TWO_64 else start.limit[i]
  }

  /** Every call of a tree afterwards. */
  ghost predicate Accounts(n: CallNode, into: Incoming, start: Books, b: Books)
    requires Covers(start, Ids(n)) && Covers(b, Ids(n))
    decreases n
  {
    IdIn(n);
    && OwnAccount(n, into, start, b)
    && (forall k :: 0 <= k < |n.edges| ==> LimitOfChild(n, into, k, start, b))
    && (forall k :: 0 <= k < |n.edges| ==> (ChildIds(n, k); Accounts(n.edges[k].child, Into(n, k), start, b)))
  }

  /** What the traversal leaves alone in a tree. */
  ghost predicate Untouched(n: CallNode, into: Incoming, start: Books, b: Books)
    requires Covers(start, Ids(n)) && Covers(b, Ids(n))
    decreases n, 1
  {
    IdIn(n);
    && (!Processed(n, into, b) ==> b.remaining[n.id] == start.remaining[n.id] && b.accumulated[n.id] == start.accumulated[n.id])
    && (forall k :: 0 <= k < |n.edges| ==> ChildUntouched(n, into, k, start, b))
  }

  ghost predicate ChildUntouched(n: CallNode, into: Incoming, k: nat, start: Books, b: Books)
    requires k < |n.edges| && Covers(start, Ids(n)) && Covers(b, Ids(n)) && n.id in Ids(n)
    decreases n, 0
  {
    ChildIds(n, k);
    var c := n.edges[k].child;
    && (!(Processed(n, into, b) && n.edges[k].typ.IsCallback()) ==> b.limit[c.id] == start.limit[c.id])
    && Untouched(c, Into(n, k), start, b)
  }

  /** Later writes that spare a subtree spare what is untouched in it. */
  lemma {:induction false} UntouchedFrame(n: CallNode, into: Incoming, start: Books, b: Books, c: Books)
    requires Distinct(n) && Covers(start, Ids(n)) && Covers(b, Ids(n)) && Covers(c, Ids(n))
    requires SameBelow(n, into, b, c) && Untouched(n, into, start, b)
    ensures Untouched(n, into, start, c)
    decreases n
  {
    hide Ids, Distinct;
    IdIn(n);
    forall k | 0 <= k < |n.edges| ensures ChildUntouched(n, into, k, start, c) {
      ChildIds(n, k);
      RootApart(n, k);
      DistinctChild(n, k);
      assert ChildUntouched(n, into, k, start, b);
      UntouchedFrame(n.edges[k].child, Into(n, k), start, b, c);
    }
  }

  /** Earlier writes outside a subtree do not matter for what is untouched in it. */
  lemma {:induction false} UntouchedSince(n: CallNode, into: Incoming, start: Books, later: Books, b: Books)
    requires Covers(start, Ids(n)) && Covers(later, Ids(n)) && Covers(b, Ids(n)) && Untouched(n, into, later, b)
    requires SameOn(Ids(n), start, later)
    ensures Untouched(n, into, start, b)
    decreases n
  {
    hide Ids;
    IdIn(n);
    forall k | 0 <= k < |n.edges| ensures ChildUntouched(n, into, k, start, b) {
      ChildIds(n, k);
      assert ChildUntouched(n, into, k, later, b);
      UntouchedSince(n.edges[k].child, Into(n, k), start, later, b);
    }
  }

  ghost predicate SameOn(ids: set<nat>, b: Books, c: Books)
    requires Covers(b, ids) && Covers(c, ids)
  {
    forall i :: i in ids ==> b.limit[i] == c.limit[i] && b.remaining[i] == c.remaining[i] && b.accumulated[i] == c.accumulated[i]
  }

  /** Books in order, and nothing else touched: every call is as stated. */
  lemma {:induction false} BookedAccounts(n: CallNode, into: Incoming, start: Books, b: Books)
    requires Covers(start, Ids(n)) && Covers(b, Ids(n)) && Booked(n, into, b) && Untouched(n, into, start, b)
    ensures Accounts(n, into, start, b)
    decreases n
  {
    hide Ids, Spent, OwnAccount, Booked, LimitOfChild;
    IdIn(n);
    BookedAccount(n, into, start, b);
    forall k | 0 <= k < |n.edges| ensures LimitOfChild(n, into, k, start, b)
                                  ensures (ChildIds(n, k); Accounts(n.edges[k].child, Into(n, k), start, b)) {
      ChildIds(n, k);
      assert ChildUntouched(n, into, k, start, b);
      BookedChild(n, into, k, b);
      BookedLimit(n, into, k, start, b);
      BookedAccounts(n.edges[k].child, Into(n, k), start, b);
    }
  }

  lemma BookedChild(n: CallNode, into: Incoming, k: nat, b: Books)
    requires k < |n.edges| && Covers(b, Ids(n)) && Booked(n, into, b)
    ensures Covers(b, Ids(n.edges[k].child)) && Booked(n.edges[k].child, Into(n, k), b)
  {
    hide Ids, OwnEntries;
    ChildIds(n, k);
  }

  lemma BookedAccount(n: CallNode, into: Incoming, start: Books, b: Books)
    requires Covers(start, Ids(n)) && Covers(b, Ids(n)) && Booked(n, into, b) && Untouched(n, into, start, b) && n.id in Ids(n)
    ensures OwnAccount(n, into, start, b)
  {
    hide Ids, Spent, BookedUpTo, ChildUntouched;
  }

  lemma BookedLimit(n: CallNode, into: Incoming, k: nat, start: Books, b: Books)
    requires k < |n.edges| && Covers(start, Ids(n)) && Covers(b, Ids(n)) && n.id in Ids(n)
    requires Booked(n, into, b) && ChildUntouched(n, into, k, start, b)
    ensures LimitOfChild(n, into, k, start, b)
  {
    hide Ids, Spent, BookedUpTo, Fails, Kept;
    ChildIds(n, k);
    if Processed(n, into, b) && n.edges[k].typ.IsCallback() {
      assert Funded(n, k, b);
    }
  }

  /** The first `k` children are untouched but for what they themselves account for. */
  ghost predicate ChildrenUntouched(n: CallNode, k: nat, start: Books, b: Books)
    requires k <= |n.edges| && Covers(start, Ids(n)) && Covers(b, Ids(n))
  {
    forall j :: 0 <= j < k ==> OneUntouched(n, j, start, b)
  }

  ghost predicate OneUntouched(n: CallNode, j: nat, start: Books, b: Books)
    requires j < |n.edges| && Covers(start, Ids(n)) && Covers(b, Ids(n))
  {
    ChildIds(n, j);
    var c := n.edges[j].child;
    b.limit[c.id] == start.limit[c.id] && Untouched(c, Into(n, j), start, b)
  }

  lemma UntouchedStep(n: CallNode, k: nat, start: Books, b: Books, c: Books)
    requires Distinct(n) && k < |n.edges| && Progress(n, k, start, b) && Covers(start, Ids(n)) && Covers(c, Ids(n))
    requires Covers(b, Ids(n.edges[k].child)) && Covers(c, Ids(n.edges[k].child))
    requires ChildrenUntouched(n, k, start, b) && OnlyInside(Ids(n.edges[k].child), b, c)
    requires Untouched(n.edges[k].child, Into(n, k), b, c)
    requires n.edges[k].child.id in b.limit && n.edges[k].child.id in c.limit
    requires c.limit[n.edges[k].child.id] == b.limit[n.edges[k].child.id]
    ensures ChildrenUntouched(n, k + 1, start, c)
  {
    hide Ids, EdgeIds, Distinct, BookedUpTo, Untouched;
    forall j | 0 <= j < k + 1 ensures OneUntouched(n, j, start, c) {
      ChildIds(n, j);
      if j < k {
        assert OneUntouched(n, j, start, b);
        ChildrenDisjoint(n, j, k);
        DistinctChild(n, j);
        UntouchedFrame(n.edges[j].child, Into(n, j), start, b, c);
      } else {
        SubtreeApart(n, k);
        UntouchedSince(n.edges[k].child, Into(n, k), start, b, c);
      }
    }
  }

  /** A call that is passed over. */
  lemma PassedUntouched(n: CallNode, into: Incoming, start: Books, b: Books)
    requires Distinct(n) && Covers(start, Ids(n)) && Covers(b, Ids(n)) && n.id in Ids(n)
    requires ChildrenUntouched(n, |n.edges|, start, b) && !Processed(n, into, b)
    requires b.remaining[n.id] == start.remaining[n.id] && b.accumulated[n.id] == start.accumulated[n.id]
    ensures Untouched(n, into, start, b)
  {
    hide Ids, Distinct;
    forall k | 0 <= k < |n.edges| ensures ChildUntouched(n, into, k, start, b) {
      ChildIds(n, k);
      assert OneUntouched(n, k, start, b);
    }
  }

  /** A call whose own entries are written. */
  lemma SettledUntouched(n: CallNode, into: Incoming, start: Books, b: Books, c: Books)
    requires Distinct(n) && Covers(start, Ids(n)) && Covers(b, Ids(n)) && Covers(c, Ids(n)) && n.id in Ids(n)
    requires ChildrenUntouched(n, |n.edges|, start, b) && Processed(n, into, b) && Settled(n, into, b, c)
    ensures Untouched(n, into, start, c)
  {
    hide Ids, Distinct, Spent, SameBelow;
    forall k | 0 <= k < |n.edges| ensures ChildUntouched(n, into, k, start, c) {
      ChildIds(n, k);
      assert OneUntouched(n, k, start, b);
      SettledBelow(n, into, b, c, k);
      DistinctChild(n, k);
      UntouchedFrame(n.edges[k].child, Into(n, k), start, b, c);
    }
  }

  ghost predicate OnlyInside(ids: set<nat>, b: Books, c: Books) {
    && b.round == c.round
    && b.limit.Keys == c.limit.Keys && b.remaining.Keys == c.remaining.Keys && b.accumulated.Keys == c.accumulated.Keys
    && (forall i :: i in b.limit && i !in ids ==> c.limit[i] == b.limit[i])
    && (forall i :: i in b.remaining && i !in ids ==> c.remaining[i] == b.remaining[i])
    && (forall i :: i in b.accumulated && i !in ids ==> c.accumulated[i] == b.accumulated[i])
  }

  // ----- The traversal -----

  /** Before a subtree is processed nothing has been accumulated in it. */
  ghost predicate Fresh(ids: set<nat>, b: Books) {
    Covers(b, ids) && forall i :: i in ids ==> b.accumulated[i] == 0
  }

  /** The first `k` children of a call are processed. */
  ghost predicate Progress(n: CallNode, k: nat, start: Books, b: Books)
    requires k <= |n.edges|
  {
    && Covers(b, Ids(n)) && BookedUpTo(n, k, b)
    && OnlyInside(EdgeIds(n, k), start, b)
  }

  lemma ChildFresh(n: CallNode, k: nat, start: Books, b: Books)
    requires Distinct(n) && k < |n.edges| && Progress(n, k, start, b) && Fresh(Ids(n), start)
    ensures Fresh(Ids(n.edges[k].child), b)
  {
    hide Ids, EdgeIds, BookedUpTo;
    ChildIds(n, k);
    SubtreeApart(n, k);
  }

  lemma SubtreeApart(n: CallNode, k: nat)
    requires Distinct(n) && k < |n.edges|
    ensures EdgeIds(n, k) !! Ids(n.edges[k].child)
  {
    hide Ids, EdgeIds;
  }

  lemma EdgeIdsStep(n: CallNode, k: nat)
    requires k < |n.edges|
    ensures EdgeIds(n, k + 1) == EdgeIds(n, k) + Ids(n.edges[k].child)
  {
    hide Ids;
  }

  lemma ChildStep(n: CallNode, k: nat, start: Books, b: Books, c: Books)
    requires Distinct(n) && k < |n.edges| && Progress(n, k, start, b)
    requires OnlyInside(Ids(n.edges[k].child), b, c) && Covers(c, Ids(n.edges[k].child))
    requires Booked(n.edges[k].child, Into(n, k), c)
    ensures Progress(n, k + 1, start, c)
  {
    hide Ids, EdgeIds, Booked, Distinct;
    EdgeIdsStep(n, k);
    forall j | 0 <= j < k + 1 ensures (ChildIds(n, j); Booked(n.edges[j].child, Into(n, j), c)) {
      ChildIds(n, j);
      if j < k {
        ChildrenDisjoint(n, j, k);
        DistinctChild(n, j);
        BookedFrame(n.edges[j].child, Into(n, j), b, c);
      }
    }
  }

  lemma Int64Congruent(x: int)
    ensures Congruent(ToInt64(x), x)
  {
  }

  lemma CongruentWrap(a: int, b: int)
    requires Congruent(a, b)
    ensures Wrap64(a) == Wrap64(b)
  {
  }

  /** Wrapping an operand first makes no difference modulo 2^64. */
  lemma HandWrapped(g: int, exact: int, x: int, y: int)
    requires Congruent(g, exact) && Congruent(y, x)
    ensures Congruent(ToInt64(g - y), exact - x) && Congruent(ToInt64(g + y), exact + x)
  {
    hide ToInt64, Congruent;
    Int64Congruent(g - y);
    Int64Congruent(g + y);
    CongruentSum(g, exact, y, x);
    CongruentTrans(ToInt64(g - y), g - y, exact - x);
    CongruentTrans(ToInt64(g + y), g + y, exact + x);
  }

  lemma WrappedTwice(x: int)
    ensures Congruent(ToInt64(Wrap64(x)), x)
  {
    hide ToInt64, Congruent;
    Int64Congruent(Wrap64(x));
    WrapCongruent(x);
    CongruentTrans(ToInt64(Wrap64(x)), Wrap64(x), x);
  }

  /** The books after a call's own entries are written. */
  ghost predicate Settled(n: CallNode, into: Incoming, b: Books, c: Books)
    requires Covers(b, Ids(n)) && n.id in Ids(n)
  {
    && OnlyInside(Ids(n), b, c)
    && (forall i :: i in b.remaining && i != n.id ==> c.remaining[i] == b.remaining[i])
    && (forall i :: i in b.accumulated && i != n.id ==> c.accumulated[i] == b.accumulated[i])
    && (forall i :: i in b.limit && !IsCallbackChild(n, i) ==> c.limit[i] == b.limit[i])
    && c.remaining[n.id] == (if Fails(n, into) then 0 else Wrap64(b.limit[n.id] - Spent(n, b)))
    && c.accumulated[n.id] == Wrap64(b.accumulated[n.id] as int + Kept(n, into, c.remaining[n.id]))
    && (forall k :: 0 <= k < |n.edges| && n.edges[k].typ.IsCallback() ==>
          n.edges[k].child.id in c.limit && c.limit[n.edges[k].child.id] == Wrap64(c.remaining[n.id] + n.locked))
  }

  /** An async call without a callback keeps what remains. */
  function Kept(n: CallNode, into: Incoming, remaining: uint64): uint64 {
    if into.typ.IsAsync() && !n.HasCallback() then remaining else 0
  }

  ghost predicate IsCallbackChild(n: CallNode, i: nat) {
    exists k :: 0 <= k < |n.edges| && n.edges[k].typ.IsCallback() && n.edges[k].child.id == i
  }

  lemma SettledIsBooked(n: CallNode, into: Incoming, b: Books, c: Books)
    requires Distinct(n) && Covers(b, Ids(n)) && n.id in Ids(n) && BookedUpTo(n, |n.edges|, b)
    requires Processed(n, into, b) && b.accumulated[n.id] == 0 && Settled(n, into, b, c)
    ensures Covers(c, Ids(n)) && Booked(n, into, c) && c.limit[n.id] == b.limit[n.id]
  {
    hide Ids, Distinct, Spent, BookedUpTo, OwnEntries;
    RootNotCallback(n);
    SettledChildren(n, into, b, c);
    SettledOwn(n, into, b, c);
  }

  lemma SettledChildren(n: CallNode, into: Incoming, b: Books, c: Books)
    requires Distinct(n) && Covers(b, Ids(n)) && Covers(c, Ids(n)) && n.id in Ids(n)
    requires BookedUpTo(n, |n.edges|, b) && Settled(n, into, b, c)
    ensures BookedUpTo(n, |n.edges|, c)
  {
    hide Ids, Distinct, Spent, Booked, Settled;
    forall j | 0 <= j < |n.edges| ensures (ChildIds(n, j); Booked(n.edges[j].child, Into(n, j), c)) {
      ChildIds(n, j);
      DistinctChild(n, j);
      SettledBelow(n, into, b, c, j);
      BookedFrame(n.edges[j].child, Into(n, j), b, c);
    }
  }

  lemma SettledOwn(n: CallNode, into: Incoming, b: Books, c: Books)
    requires Distinct(n) && Covers(b, Ids(n)) && Covers(c, Ids(n)) && n.id in Ids(n)
    requires b.accumulated[n.id] == 0 && Settled(n, into, b, c) && !IsCallbackChild(n, n.id)
    ensures OwnEntries(n, into, c)
  {
    hide Ids, Distinct, Spent, SameBelow, Fails, Kept, Wrap64, OnlyInside, IsCallbackChild;
    SettledSpent(n, into, b, c);
    Wrap64Identity(Kept(n, into, c.remaining[n.id]));
    forall k | 0 <= k < |n.edges| && n.edges[k].typ.IsCallback() ensures Funded(n, k, c) {
      ChildIds(n, k);
    }
  }

  lemma SettledSpent(n: CallNode, into: Incoming, b: Books, c: Books)
    requires Distinct(n) && Covers(b, Ids(n)) && Covers(c, Ids(n)) && n.id in Ids(n) && Settled(n, into, b, c)
    ensures Spent(n, b) == Spent(n, c)
  {
    hide Ids, Distinct, Spent, SameBelow, Settled;
    forall k | 0 <= k < |n.edges| && !n.edges[k].typ.IsCallback() ensures SameChild(n, k, b, c) {
      ChildIds(n, k);
      SettledBelow(n, into, b, c, k);
    }
    SpentFrame(n, b, c);
  }

  lemma SpentFrame(n: CallNode, b: Books, c: Books)
    requires Covers(b, Ids(n)) && Covers(c, Ids(n)) && SameChildren(n, b, c)
    ensures Spent(n, b) == Spent(n, c)
  {
    hide Ids, HandedUpTo;
    HandedUpToFrame(n, |n.edges|, b, c);
  }

  lemma RootNotCallback(n: CallNode)
    requires Distinct(n)
    ensures !IsCallbackChild(n, n.id)
  {
    hide Distinct, Ids;
    forall k | 0 <= k < |n.edges| ensures n.edges[k].child.id != n.id {
      ChildIds(n, k);
      RootApart(n, k);
    }
  }

  lemma SettledBelow(n: CallNode, into: Incoming, b: Books, c: Books, j: nat)
    requires Distinct(n) && Covers(b, Ids(n)) && n.id in Ids(n) && j < |n.edges| && Settled(n, into, b, c)
    ensures var m := n.edges[j].child;
            && Covers(b, Ids(m)) && Covers(c, Ids(m)) && SameBelow(m, Into(n, j), b, c) && m.id in Ids(m)
            && (!n.edges[j].typ.IsCallback() ==> c.limit[m.id] == b.limit[m.id] && c.remaining[m.id] == b.remaining[m.id])
  {
    hide Distinct, Ids, Spent;
    var m := n.edges[j].child;
    ChildIds(n, j);
    RootApart(n, j);
    forall i | i in Ids(m) && (i != m.id || !n.edges[j].typ.IsCallback()) ensures !IsCallbackChild(n, i) {
      forall k | 0 <= k < |n.edges| && n.edges[k].typ.IsCallback() ensures n.edges[k].child.id != i {
        ChildIds(n, k);
        if k != j { ChildrenDisjoint(n, j, k); }
      }
    }
  }

  lemma UnprocessedIsBooked(n: CallNode, into: Incoming, b: Books)
    requires Covers(b, Ids(n)) && BookedUpTo(n, |n.edges|, b) && n.id in Ids(n) && !Processed(n, into, b)
    ensures Booked(n, into, b)
  {
    hide Ids;
  }

  class Accountant {
    const round: map<nat, int>
    var limit: map<nat, uint64>
    var remaining: map<nat, uint64>
    var accumulated: map<nat, uint64>

    function State(): Books
      reads this
    {
      Books(limit, remaining, accumulated, round)
    }

    constructor (limit: map<nat, uint64>, round: map<nat, int>)
      ensures this.limit == limit && this.round == round && remaining.Keys == limit.Keys && accumulated.Keys == limit.Keys
      ensures forall i :: i in limit ==> remaining[i] == 0 && accumulated[i] == 0
    {
      this.limit, this.round := limit, round;
      remaining := map i | i in limit :: 0;
      accumulated := map i | i in limit :: 0;
    }

    /** The loop over the edges, in `int64`. */
    method SubtractHanded(n: CallNode) returns (g: int64)
      requires Covers(State(), Ids(n)) && n.id in Ids(n)
      ensures Congruent(g, limit[n.id] - HandedUpTo(n, |n.edges|, State()))
    {
      hide Ids, ToInt64, Congruent, Wrap64;
      Int64Congruent(limit[n.id]);
      g := ToInt64(limit[n.id]);
      for k := 0 to |n.edges|
        invariant Congruent(g, limit[n.id] - HandedUpTo(n, k, State()))
      {
        var e := n.edges[k];
        ghost var exact := limit[n.id] - HandedUpTo(n, k, State());
        ChildIds(n, k);
        if !e.child.IsLeaf() && !e.typ.IsCallback() {
          var c := e.child;
          WrappedTwice(limit[c.id] + c.locked);
          HandWrapped(g, exact, limit[c.id] + c.locked, ToInt64(Wrap64(limit[c.id] + c.locked)));
          g := ToInt64(g - ToInt64(Wrap64(limit[c.id] + c.locked)));
          if !e.typ.IsAsync() {
            Int64Congruent(remaining[c.id]);
            HandWrapped(g, exact - (limit[c.id] + c.locked), remaining[c.id], ToInt64(remaining[c.id]));
            g := ToInt64(g + ToInt64(remaining[c.id]));
          }
        }
      }
    }

    /** The second loop: every callback is given what remains and what was locked for it. */
    method FundCallbacks(n: CallNode)
      requires Covers(State(), Ids(n)) && n.id in Ids(n)
      modifies this`limit
      ensures limit.Keys == old(limit).Keys
      ensures forall i :: i in limit && !IsCallbackChild(n, i) ==> limit[i] == old(limit)[i]
      ensures forall k :: 0 <= k < |n.edges| && n.edges[k].typ.IsCallback() ==>
        n.edges[k].child.id in limit && limit[n.edges[k].child.id] == Wrap64(remaining[n.id] + n.locked)
    {
      hide Ids, Wrap64;
      ghost var funding := Wrap64(remaining[n.id] + n.locked);
      for k := 0 to |n.edges|
        invariant limit.Keys == old(limit).Keys
        invariant forall i :: i in limit && !IsCallbackChild(n, i) ==> limit[i] == old(limit)[i]
        invariant forall j :: 0 <= j < k && n.edges[j].typ.IsCallback() ==>
          n.edges[j].child.id in limit && limit[n.edges[j].child.id] == funding
      {
        ChildIds(n, k);
        if n.edges[k].typ.IsCallback() {
          limit := limit[n.edges[k].child.id := Wrap64(remaining[n.id] + n.locked)];
        }
      }
    }

    /** What remains of a call's own gas. */
    method SettleRemaining(n: CallNode, into: Incoming)
      requires Covers(State(), Ids(n)) && n.id in Ids(n)
      modifies this`remaining
      ensures remaining == old(remaining)[n.id := if Fails(n, into) then 0 else Wrap64(limit[n.id] - Spent(n, old(State())))]
    {
      hide Ids, Wrap64, Congruent, HandedUpTo, ToInt64, Fails, Spent;
      ghost var start := State();
      if Fails(n, into) {
        remaining := remaining[n.id := 0];
      } else {
        var g := SubtractHanded(n);
        RemainingExact(n, start, g);
        remaining := remaining[n.id := Wrap64(Wrap64(g) - n.used)];
      }
    }

    /** The closure of `ComputeRemainingGasBeforeCallbacks` on a call that it processes. */
    method Settle(n: CallNode, into: Incoming)
      requires Covers(State(), Ids(n)) && n.id in Ids(n)
      modifies this
      ensures Settled(n, into, old(State()), State())
    {
      hide Ids, Wrap64, Fails, Spent, IsCallbackChild, OnlyInside;
      SettleRemaining(n, into);
      if into.typ.IsAsync() && !n.HasCallback() {
        accumulated := accumulated[n.id := Wrap64(accumulated[n.id] as int + remaining[n.id])];
      } else {
        Wrap64Identity(accumulated[n.id]);
      }
      FundCallbacks(n);
      WritesInside(n, old(State()), State());
    }

    /** `dfsFromNodePostOrder` with that closure. */
    method Process(n: CallNode, into: Incoming)
      requires Distinct(n) && Fresh(Ids(n), State())
      modifies this
      ensures OnlyInside(Ids(n), old(State()), State())
      ensures Covers(State(), Ids(n)) && Booked(n, into, State())
      ensures n.id in limit && n.id in old(limit) && limit[n.id] == old(limit)[n.id]
      ensures Covers(old(State()), Ids(n)) && Untouched(n, into, old(State()), State())
      ensures Accounts(n, into, old(State()), State())
      decreases n
    {
      hide Ids, EdgeIds, Booked, BookedUpTo, Distinct, OnlyInside, Fresh, Progress, Settled, Untouched, ChildrenUntouched, Accounts;
      ghost var start := State();
      Begin(n, start);
      for k := 0 to |n.edges|
        invariant Covers(start, Ids(n)) && Covers(State(), Ids(n))
        invariant Progress(n, k, start, State()) && ChildrenUntouched(n, k, start, State())
      {
        ghost var before := State();
        ChildFresh(n, k, start, before);
        DistinctChild(n, k);
        Process(n.edges[k].child, Into(n, k));
        ChildStep(n, k, start, before, State());
        StillCovered(n, k + 1, start, State());
        UntouchedStep(n, k, start, before, State());
      }
      ghost var middle := State();
      RootUntouched(n, start, middle);
      if n.IsLeaf() || into.typ.IsCallback() || round[n.id] == -1 {
        UnprocessedIsBooked(n, into, middle);
        PassedUntouched(n, into, start, middle);
        BookedAccounts(n, into, start, middle);
        return;
      }
      Settle(n, into);
      SettledIsBooked(n, into, middle, State());
      SettledUntouched(n, into, start, middle, State());
      BookedAccounts(n, into, start, State());
      Within(n, into, start, middle, State());
    }

    /** `ComputeRemainingGasBeforeCallbacks`. */
    method ComputeRemainingGasBeforeCallbacks(n: CallNode)
      requires Distinct(n) && Fresh(Ids(n), State())
      modifies this
      ensures Covers(State(), Ids(n)) && n.id in Ids(n)
      ensures Booked(n, Incoming(Sync, false), State()) && limit[n.id] == old(limit)[n.id]
      ensures Covers(old(State()), Ids(n)) && Accounts(n, Incoming(Sync, false), old(State()), State())
      ensures Smooth(n, State()) && !n.IsLeaf() ==> Balanced(n, State())
    {
      hide Ids, Booked, Distinct, Smooth, Balanced, Accounts, Untouched;
      Process(n, Incoming(Sync, false));
      IdIn(n);
      if Smooth(n, State()) && !n.IsLeaf() {
        TreeBalances(n, State());
      }
    }
  }

  /** The balance of a whole tree. */
  ghost predicate Balanced(n: CallNode, b: Books)
    requires Covers(b, Ids(n)) && n.id in Ids(n)
  {
    && Congruent(b.limit[n.id] + Surplus(n, Sync, b), b.remaining[n.id] + Ledger(n, b))
    && (Congruent(b.limit[n.id], b.remaining[n.id] + Ledger(n, b)) <==> Congruent(Surplus(n, Sync, b), 0))
    && (NoUnderflow(n, b) ==> b.limit[n.id] + Surplus(n, Sync, b) == b.remaining[n.id] + Ledger(n, b))
    && (AtMostOne(n, Sync) ==> Surplus(n, Sync, b) == 0)
  }

  lemma TreeBalances(n: CallNode, b: Books)
    requires Covers(b, Ids(n)) && n.id in Ids(n) && Booked(n, Incoming(Sync, false), b) && Smooth(n, b) && !n.IsLeaf()
    ensures Balanced(n, b)
  {
    hide Ids, Booked, Smooth, Congruent, Ledger, Surplus, NoUnderflow, AtMostOne;
    SmoothRuns(n, b);
    GasBalances(n, Incoming(Sync, false), b);
    GasConserved(n, Incoming(Sync, false), b);
    if NoUnderflow(n, b) { GasConservedExactly(n, Incoming(Sync, false), b); }
    if AtMostOne(n, Sync) { NoSurplus(n, Sync, b); }
  }

  /** Without surplus the root's limit is what remains and what the ledger records. */
  lemma Conserved(n: CallNode, b: Books)
    requires Covers(b, Ids(n)) && n.id in Ids(n) && Balanced(n, b) && AtMostOne(n, Sync)
    ensures Congruent(b.limit[n.id], b.remaining[n.id] + Ledger(n, b))
    ensures NoUnderflow(n, b) ==> b.limit[n.id] == b.remaining[n.id] + Ledger(n, b)
  {
    hide Ids, Ledger, Surplus, NoUnderflow, AtMostOne;
  }

  lemma RemainingExact(n: CallNode, b: Books, g: int)
    requires Covers(b, Ids(n)) && n.id in Ids(n) && Congruent(g, b.limit[n.id] - HandedUpTo(n, |n.edges|, b))
    ensures Wrap64(Wrap64(g) - n.used) == Wrap64(b.limit[n.id] - Spent(n, b))
  {
    hide Ids, HandedUpTo, Congruent, Wrap64;
    var exact := b.limit[n.id] - HandedUpTo(n, |n.edges|, b);
    WrapCongruent(g);
    CongruentTrans(Wrap64(g), g, exact);
    CongruentSelf(n.used);
    CongruentSum(Wrap64(g), exact, n.used, n.used);
    CongruentWrap(Wrap64(g) - n.used, exact - n.used);
  }

  lemma WritesInside(n: CallNode, b: Books, c: Books)
    requires b.round == c.round && b.limit.Keys == c.limit.Keys
    requires b.remaining.Keys == c.remaining.Keys && b.accumulated.Keys == c.accumulated.Keys
    requires forall i :: i in b.remaining && i != n.id ==> c.remaining[i] == b.remaining[i]
    requires forall i :: i in b.accumulated && i != n.id ==> c.accumulated[i] == b.accumulated[i]
    requires forall i :: i in b.limit && !IsCallbackChild(n, i) ==> c.limit[i] == b.limit[i]
    ensures OnlyInside(Ids(n), b, c)
  {
    hide Ids, IsCallbackChild;
    IdIn(n);
    CallbackChildrenInside(n);
  }

  lemma CallbackChildrenInside(n: CallNode)
    ensures forall i :: IsCallbackChild(n, i) ==> i in Ids(n)
  {
    hide Ids;
    forall i | IsCallbackChild(n, i) ensures i in Ids(n) {
      var k :| 0 <= k < |n.edges| && n.edges[k].typ.IsCallback() && n.edges[k].child.id == i;
      ChildIds(n, k);
    }
  }

  lemma Begin(n: CallNode, start: Books)
    requires Fresh(Ids(n), start)
    ensures Covers(start, Ids(n)) && Progress(n, 0, start, start) && ChildrenUntouched(n, 0, start, start)
  {
    hide Ids;
  }

  lemma StillCovered(n: CallNode, k: nat, start: Books, b: Books)
    requires k <= |n.edges| && Progress(n, k, start, b)
    ensures Covers(b, Ids(n))
  {
    hide Ids, EdgeIds, BookedUpTo;
  }

  lemma RootUntouched(n: CallNode, start: Books, b: Books)
    requires Distinct(n) && Fresh(Ids(n), start) && Progress(n, |n.edges|, start, b)
    ensures Covers(b, Ids(n)) && n.id in Ids(n) && BookedUpTo(n, |n.edges|, b) && OnlyInside(Ids(n), start, b)
    ensures n.id in start.limit && b.limit[n.id] == start.limit[n.id] && b.accumulated[n.id] == 0
    ensures b.remaining[n.id] == start.remaining[n.id] && start.accumulated[n.id] == 0
  {
    hide BookedUpTo, EdgeIds;
    assert EdgeIds(n, |n.edges|) <= Ids(n);
  }

  lemma Within(n: CallNode, into: Incoming, start: Books, middle: Books, end: Books)
    requires Covers(middle, Ids(n)) && n.id in Ids(n) && OnlyInside(Ids(n), start, middle) && Settled(n, into, middle, end)
    ensures OnlyInside(Ids(n), start, end)
  {
    hide Ids, Spent;
  }
}
