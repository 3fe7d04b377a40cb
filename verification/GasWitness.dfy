/**
  Gas is conserved on a tree, whatever the limits, exactly when every callback is paid for. The
  witness for another tree picks a call that does not pay, and gives every call just the limit that
  leaves one unit to the callbacks of that call and nothing to all others.
 */
module GasWitness {
  import opened MachineIntegers
  import opened CallGraph
  import opened TreeShape
  import opened Gas

  /** Every call outside callbacks leaves a multiple of 2^64 callbacks unpaid, that is, in practice, none. */
  predicate Paying(n: CallNode, typ: EdgeType)
    decreases n
  {
    && Unpaid(n, typ) % TWO_64 == 0
    && forall k :: 0 <= k < |n.edges| && Counted(n, k) ==> Paying(n.edges[k].child, n.edges[k].typ)
  }

  /** No call has 2^64 callbacks or more. */
  predicate FewCallbacks(n: CallNode)
    decreases n
  {
    Callbacks(n) < TWO_64 && forall k :: 0 <= k < |n.edges| ==> FewCallbacks(n.edges[k].child)
  }

  lemma {:induction false} PayingIsAtMostOne(n: CallNode, typ: EdgeType)
    ensures AtMostOne(n, typ) ==> Paying(n, typ)
    ensures FewCallbacks(n) && Paying(n, typ) ==> AtMostOne(n, typ)
    decreases n
  {
    hide CallbackCount;
    forall k | 0 <= k < |n.edges| && Counted(n, k)
      ensures AtMostOne(n.edges[k].child, n.edges[k].typ) ==> Paying(n.edges[k].child, n.edges[k].typ)
      ensures FewCallbacks(n.edges[k].child) && Paying(n.edges[k].child, n.edges[k].typ) ==> AtMostOne(n.edges[k].child, n.edges[k].typ)
    {
      PayingIsAtMostOne(n.edges[k].child, n.edges[k].typ);
    }
  }

  /** The unpaid callbacks of the calls with id `x`. */
  function UnpaidAt(n: CallNode, typ: EdgeType, x: nat): nat
    decreases n, |n.edges| + 1
  {
    (if n.id == x then Unpaid(n, typ) else 0) + UnpaidAtUpTo(n, |n.edges|, x)
  }

  function UnpaidAtUpTo(n: CallNode, k: nat, x: nat): nat
    requires k <= |n.edges|
    decreases n, k
  {
    if k == 0 then 0
    else UnpaidAtUpTo(n, k - 1, x) + (if Counted(n, k - 1) then UnpaidAt(n.edges[k - 1].child, n.edges[k - 1].typ, x) else 0)
  }

  lemma {:induction false} NotAtAll(n: CallNode, typ: EdgeType, x: nat)
    requires x !in Ids(n)
    ensures UnpaidAt(n, typ, x) == 0
    decreases n, |n.edges| + 1
  {
    hide Unpaid;
    NotAtAllUpTo(n, |n.edges|, x);
  }

  lemma {:induction false} NotAtAllUpTo(n: CallNode, k: nat, x: nat)
    requires k <= |n.edges| && x !in EdgeIds(n, k)
    ensures UnpaidAtUpTo(n, k, x) == 0
    decreases n, k
  {
    hide Unpaid, Ids;
    if k > 0 {
      NotAtAllUpTo(n, k - 1, x);
      if Counted(n, k - 1) {
        NotAtAll(n.edges[k - 1].child, n.edges[k - 1].typ, x);
      }
    }
  }

  /** Only child `j` has calls with id `x`. */
  lemma {:induction false} OnlyInChild(n: CallNode, j: nat, k: nat, x: nat)
    requires Distinct(n) && j < k <= |n.edges| && Counted(n, j) && x in Ids(n.edges[j].child)
    ensures UnpaidAtUpTo(n, k, x) == UnpaidAt(n.edges[j].child, n.edges[j].typ, x)
    decreases k
  {
    hide Ids, EdgeIds, Distinct, UnpaidAt;
    if k == j + 1 {
      DistinctChild(n, j);
      NotAtAllUpTo(n, j, x);
    } else {
      OnlyInChild(n, j, k - 1, x);
      ChildrenDisjoint(n, j, k - 1);
      if Counted(n, k - 1) {
        NotAtAll(n.edges[k - 1].child, n.edges[k - 1].typ, x);
      }
    }
  }

  /** A tree that is not paying has a call whose unpaid callbacks show. */
  lemma {:induction false} Debtor(n: CallNode, typ: EdgeType) returns (x: nat)
    requires Distinct(n) && !Paying(n, typ)
    ensures x in Ids(n) && UnpaidAt(n, typ, x) % TWO_64 != 0
    decreases n
  {
    hide Ids, EdgeIds, Unpaid, Distinct, UnpaidAtUpTo;
    IdIn(n);
    if Unpaid(n, typ) % TWO_64 != 0 {
      x := n.id;
      RootAlone(n);
    } else {
      var k :| 0 <= k < |n.edges| && Counted(n, k) && !Paying(n.edges[k].child, n.edges[k].typ);
      DistinctChild(n, k);
      x := Debtor(n.edges[k].child, n.edges[k].typ);
      ChildIds(n, k);
      RootApart(n, k);
      OnlyInChild(n, k, |n.edges|, x);
    }
  }

  lemma RootAlone(n: CallNode)
    requires Distinct(n)
    ensures UnpaidAtUpTo(n, |n.edges|, n.id) == 0
  {
    hide Ids, EdgeIds;
    NotAtAllUpTo(n, |n.edges|, n.id);
  }

  /** Callbacks of calls with id `x` are given one unit each, all others nothing. */
  predicate OneUnit(n: CallNode, x: nat, b: Books)
    requires Covers(b, Ids(n))
    decreases n, 1
  {
    IdIn(n);
    Funding(n, b) == Share(n, x) && OneUnitUpTo(n, |n.edges|, x, b)
  }

  function Share(n: CallNode, x: nat): uint64 {
    if n.id == x then 1 else 0
  }

  predicate OneUnitUpTo(n: CallNode, k: nat, x: nat, b: Books)
    requires k <= |n.edges| && Covers(b, Ids(n))
    decreases n, 0, k
  {
    forall j :: 0 <= j < k && Counted(n, j) ==> (ChildIds(n, j); OneUnit(n.edges[j].child, x, b))
  }

  /** Then the surplus counts the unpaid callbacks of those calls. */
  lemma {:induction false} SurplusCounts(n: CallNode, typ: EdgeType, x: nat, b: Books)
    requires Covers(b, Ids(n)) && OneUnit(n, x, b)
    ensures Surplus(n, typ, b) == UnpaidAt(n, typ, x)
    decreases n, |n.edges| + 1
  {
    hide Ids, Unpaid;
    IdIn(n);
    SurplusCountsUpTo(n, |n.edges|, x, b);
  }

  lemma {:induction false} SurplusCountsUpTo(n: CallNode, k: nat, x: nat, b: Books)
    requires k <= |n.edges| && Covers(b, Ids(n)) && OneUnitUpTo(n, |n.edges|, x, b)
    ensures SurplusUpTo(n, k, b) == UnpaidAtUpTo(n, k, x)
    decreases n, k
  {
    hide Ids, Unpaid, OneUnit, UnpaidAt, Surplus;
    if k > 0 {
      SurplusCountsUpTo(n, k - 1, x, b);
      ChildIds(n, k - 1);
      if Counted(n, k - 1) {
        SurplusCounts(n.edges[k - 1].child, n.edges[k - 1].typ, x, b);
      }
    }
  }

  // ----- The witness -----

  lemma {:induction false} OneUnitFrame(n: CallNode, x: nat, b: Books, c: Books)
    requires Covers(b, Ids(n)) && Covers(c, Ids(n)) && OneUnit(n, x, b)
    requires forall i :: i in Ids(n) ==> b.remaining[i] == c.remaining[i]
    ensures OneUnit(n, x, c)
    decreases n
  {
    hide Ids;
    IdIn(n);
    forall j | 0 <= j < |n.edges| && Counted(n, j) ensures (ChildIds(n, j); OneUnit(n.edges[j].child, x, c)) {
      ChildIds(n, j);
      OneUnitFrame(n.edges[j].child, x, b, c);
    }
  }

  /** The limit that leaves a call, after what it spends, its share for each callback. */
  function JustEnough(n: CallNode, x: nat, b: Books): uint64
    requires Covers(b, Ids(n))
  {
    Wrap64(Spent(n, b) + Share(n, x) - n.locked)
  }

  /** The books with that limit, and the entries that follow from it. */
  ghost function Paid(n: CallNode, into: Incoming, x: nat, b: Books): Books
    requires Covers(b, Ids(n))
  {
    IdIn(n);
    var left := Wrap64(Share(n, x) - n.locked);
    Books(map i | i in b.limit :: if i == n.id then JustEnough(n, x, b) else if IsCallbackChild(n, i) then Share(n, x) else b.limit[i],
          b.remaining[n.id := left], b.accumulated[n.id := Kept(n, into, left)], b.round)
  }

  /** Just the limit of the call is changed. */
  function Relimited(n: CallNode, x: nat, b: Books): Books
    requires Covers(b, Ids(n))
  {
    b.(limit := b.limit[n.id := JustEnough(n, x, b)])
  }

  lemma ShareIsLeft(spent: int, locked: uint64, share: uint64)
    ensures Wrap64(Wrap64(spent + share - locked) - spent) == Wrap64(share - locked)
    ensures Wrap64(Wrap64(share - locked) + locked) == share
  {
  }

  /** A new limit of the call itself is not seen below it. */
  lemma RelimitedBelow(n: CallNode, x: nat, b: Books)
    requires Distinct(n) && Covers(b, Ids(n)) && n.id in Ids(n) && BookedUpTo(n, |n.edges|, b)
    ensures Covers(Relimited(n, x, b), Ids(n)) && BookedUpTo(n, |n.edges|, Relimited(n, x, b))
    ensures Spent(n, Relimited(n, x, b)) == Spent(n, b)
  {
    hide Ids, Distinct, Booked, Spent, JustEnough;
    var c := Relimited(n, x, b);
    forall j | 0 <= j < |n.edges| ensures (ChildIds(n, j); Booked(n.edges[j].child, Into(n, j), c)) {
      ChildIds(n, j);
      RootApart(n, j);
      DistinctChild(n, j);
      BookedFrame(n.edges[j].child, Into(n, j), b, c);
    }
    forall k | 0 <= k < |n.edges| && !n.edges[k].typ.IsCallback() ensures SameChild(n, k, b, c) {
      ChildIds(n, k);
      RootApart(n, k);
    }
    SpentFrame(n, b, c);
  }

  lemma RelimitedInside(n: CallNode, x: nat, b: Books)
    requires Covers(b, Ids(n)) && n.id in Ids(n)
    ensures OnlyInside(Ids(n), b, Relimited(n, x, b))
  {
    hide Ids, JustEnough;
  }

  lemma PaidLimits(n: CallNode, into: Incoming, x: nat, b: Books)
    requires Distinct(n) && Covers(b, Ids(n)) && n.id in Ids(n)
    ensures var r, c := Relimited(n, x, b), Paid(n, into, x, b);
            && OnlyInside(Ids(n), b, c) && OnlyInside(Ids(n), r, c)
            && (forall i :: i in r.limit && !IsCallbackChild(n, i) ==> c.limit[i] == r.limit[i])
            && (forall k :: 0 <= k < |n.edges| && n.edges[k].typ.IsCallback() ==>
                  n.edges[k].child.id in c.limit && c.limit[n.edges[k].child.id] == Share(n, x))
  {
    hide Ids, Distinct, Wrap64, IsCallbackChild, JustEnough, OnlyInside;
    RootNotCallback(n);
    var r, c := Relimited(n, x, b), Paid(n, into, x, b);
    WritesInside(n, r, c);
    RelimitedInside(n, x, b);
    Inside(n, b, r, c);
    forall k | 0 <= k < |n.edges| && n.edges[k].typ.IsCallback()
      ensures n.edges[k].child.id in c.limit && c.limit[n.edges[k].child.id] == Share(n, x)
    {
      ChildIds(n, k);
      CallbackChild(n, k);
    }
  }

  lemma PaidIsSettled(n: CallNode, into: Incoming, x: nat, b: Books)
    requires Distinct(n) && Covers(b, Ids(n)) && n.id in Ids(n) && BookedUpTo(n, |n.edges|, b) && !Fails(n, into)
    requires b.accumulated[n.id] == 0
    ensures Covers(Relimited(n, x, b), Ids(n)) && Settled(n, into, Relimited(n, x, b), Paid(n, into, x, b))
    ensures OnlyInside(Ids(n), b, Paid(n, into, x, b)) && Wrap64(Wrap64(Share(n, x) - n.locked) + n.locked) == Share(n, x)
  {
    hide Ids, Distinct, Spent, BookedUpTo, Wrap64, IsCallbackChild, OnlyInside, Fails, Kept;
    RelimitedBelow(n, x, b);
    ShareIsLeft(Spent(n, b), n.locked, Share(n, x));
    Wrap64Identity(Kept(n, into, Wrap64(Share(n, x) - n.locked)));
    PaidLimits(n, into, x, b);
  }

  lemma CallbackChild(n: CallNode, k: nat)
    requires k < |n.edges| && n.edges[k].typ.IsCallback()
    ensures IsCallbackChild(n, n.edges[k].child.id)
  {
  }

  /** Every call has a round. */
  ghost predicate AllRun(n: CallNode, b: Books) {
    forall i :: i in Ids(n) ==> i in b.round && b.round[i] != -1
  }

  lemma {:induction false} Witness(n: CallNode, into: Incoming, x: nat, start: Books) returns (b: Books)
    requires Distinct(n) && FailureFree(n) && !into.fail && Fresh(Ids(n), start) && AllRun(n, start)
    ensures OnlyInside(Ids(n), start, b) && Covers(b, Ids(n)) && Booked(n, into, b)
    ensures !n.IsLeaf() && !into.typ.IsCallback() ==> OneUnit(n, x, b)
    decreases n, |n.edges| + 1
  {
    hide Ids, Distinct, Booked, OneUnit, BookedUpTo, OneUnitUpTo, Paid, Settled, Progress, AllRun, Fresh, OnlyInside, Fails;
    b := WitnessUpTo(n, |n.edges|, x, start);
    RootUntouched(n, start, b);
    RootRuns(n, start, b);
    if n.IsLeaf() || into.typ.IsCallback() {
      UnprocessedIsBooked(n, into, b);
    } else {
      NeverFails(n, into);
      PaidIsSettled(n, into, x, b);
      RelimitedBelow(n, x, b);
      SettledIsBooked(n, into, Relimited(n, x, b), Paid(n, into, x, b));
      PaidIsOneUnit(n, into, x, b);
      Inside(n, start, b, Paid(n, into, x, b));
      b := Paid(n, into, x, b);
    }
  }

  lemma RootRuns(n: CallNode, start: Books, b: Books)
    requires AllRun(n, start) && OnlyInside(Ids(n), start, b) && n.id in Ids(n)
    ensures n.id in b.round && b.round[n.id] != -1
  {
    hide Ids;
  }

  lemma NeverFails(n: CallNode, into: Incoming)
    requires FailureFree(n) && !into.fail
    ensures !Fails(n, into)
  {
  }

  lemma Inside(n: CallNode, a: Books, b: Books, c: Books)
    requires OnlyInside(Ids(n), a, b) && OnlyInside(Ids(n), b, c)
    ensures OnlyInside(Ids(n), a, c)
  {
    hide Ids;
  }

  lemma PaidIsOneUnit(n: CallNode, into: Incoming, x: nat, b: Books)
    requires Distinct(n) && Covers(b, Ids(n)) && n.id in Ids(n) && OneUnitUpTo(n, |n.edges|, x, b)
    requires Covers(Paid(n, into, x, b), Ids(n)) && Wrap64(Wrap64(Share(n, x) - n.locked) + n.locked) == Share(n, x)
    ensures OneUnit(n, x, Paid(n, into, x, b))
  {
    hide Ids, Distinct, Wrap64, JustEnough, IsCallbackChild;
    var c := Paid(n, into, x, b);
    forall j | 0 <= j < |n.edges| && Counted(n, j) ensures (ChildIds(n, j); OneUnit(n.edges[j].child, x, c)) {
      ChildIds(n, j);
      RootApart(n, j);
      OneUnitFrame(n.edges[j].child, x, b, c);
    }
  }

  lemma {:induction false} WitnessUpTo(n: CallNode, k: nat, x: nat, start: Books) returns (b: Books)
    requires k <= |n.edges| && Distinct(n) && FailureFree(n) && Fresh(Ids(n), start) && AllRun(n, start)
    ensures Progress(n, k, start, b) && Covers(b, Ids(n)) && OneUnitUpTo(n, k, x, b)
    decreases n, k
  {
    hide Ids, Distinct, Booked, OneUnit, Fresh, AllRun, FailureFree;
    if k == 0 {
      b := start;
      Begin(n, start);
    } else {
      var a := WitnessUpTo(n, k - 1, x, start);
      ChildFresh(n, k - 1, start, a);
      DistinctChild(n, k - 1);
      ChildMayRun(n, k - 1, start, a);
      b := Witness(n.edges[k - 1].child, Into(n, k - 1), x, a);
      ChildStep(n, k - 1, start, a, b);
      EarlierUnits(n, k - 1, x, a, b);
    }
  }

  lemma ChildMayRun(n: CallNode, k: nat, start: Books, a: Books)
    requires k < |n.edges| && FailureFree(n) && AllRun(n, start) && Progress(n, k, start, a)
    ensures FailureFree(n.edges[k].child) && !Into(n, k).fail && AllRun(n.edges[k].child, a)
  {
    hide Ids, BookedUpTo;
    ChildIds(n, k);
  }

  lemma EarlierUnits(n: CallNode, k: nat, x: nat, a: Books, b: Books)
    requires Distinct(n) && k < |n.edges| && Covers(a, Ids(n)) && Covers(b, Ids(n)) && OneUnitUpTo(n, k, x, a)
    requires OnlyInside(Ids(n.edges[k].child), a, b) && Covers(b, Ids(n.edges[k].child))
    requires Counted(n, k) ==> OneUnit(n.edges[k].child, x, b)
    ensures OneUnitUpTo(n, k + 1, x, b)
  {
    hide Ids, Distinct, OneUnit;
    forall j | 0 <= j < k + 1 && Counted(n, j) ensures (ChildIds(n, j); OneUnit(n.edges[j].child, x, b)) {
      ChildIds(n, j);
      if j < k {
        ChildrenDisjoint(n, j, k);
        OneUnitFrame(n.edges[j].child, x, a, b);
      }
    }
  }

  // ----- The condition -----

  /** Gas is conserved on the tree, for these books. */
  ghost predicate ConservedIn(n: CallNode, b: Books)
    requires Covers(b, Ids(n))
  {
    IdIn(n);
    Congruent(b.limit[n.id], b.remaining[n.id] + Ledger(n, b))
  }

  /** Gas is conserved on the tree, whatever the limits its calls are given. */
  ghost predicate AlwaysConserved(n: CallNode) {
    forall b: Books :: Covers(b, Ids(n)) && AllRun(n, b) && Booked(n, Incoming(Sync, false), b) ==> ConservedIn(n, b)
  }

  lemma {:induction false} RunsSmooth(n: CallNode, b: Books)
    requires Covers(b, Ids(n)) && FailureFree(n) && AllRun(n, b)
    ensures Smooth(n, b)
    decreases n
  {
    hide Ids;
    IdIn(n);
    forall k | 0 <= k < |n.edges| && Counted(n, k) ensures (ChildIds(n, k); Smooth(n.edges[k].child, b)) {
      ChildIds(n, k);
      RunsSmooth(n.edges[k].child, b);
    }
  }

  lemma SurplusDecides(n: CallNode, b: Books)
    requires FailureFree(n) && !n.IsLeaf() && Covers(b, Ids(n)) && AllRun(n, b) && Booked(n, Incoming(Sync, false), b)
    ensures ConservedIn(n, b) <==> Congruent(Surplus(n, Sync, b), 0)
  {
    hide Ids, Booked, Smooth, AllRun, FailureFree, Congruent, Surplus, Ledger;
    IdIn(n);
    RunsSmooth(n, b);
    SmoothRuns(n, b);
    GasConserved(n, Incoming(Sync, false), b);
  }

  function BlankBooks(ids: set<nat>): Books {
    Books(map i | i in ids :: 0, map i | i in ids :: 0, map i | i in ids :: 0, map i | i in ids :: 0)
  }

  /** Whatever the limits, gas is conserved exactly if every call pays for its callbacks. */
  lemma ConservedIffPaying(n: CallNode)
    requires Distinct(n) && FailureFree(n) && !n.IsLeaf()
    ensures AlwaysConserved(n) <==> Paying(n, Sync)
  {
    hide Ids, Distinct, FailureFree, Booked, ConservedIn, Paying, UnpaidAt, Surplus;
    if Paying(n, Sync) {
      forall b: Books | Covers(b, Ids(n)) && AllRun(n, b) && Booked(n, Incoming(Sync, false), b) ensures ConservedIn(n, b) {
        SurplusDecides(n, b);
        PayingSurplus(n, Sync, b);
      }
    } else {
      var x := Debtor(n, Sync);
      var b := Witness(n, Incoming(Sync, false), x, BlankBooks(Ids(n)));
      SurplusDecides(n, b);
      SurplusCounts(n, Sync, x, b);
    }
  }

  lemma MultipleOf(m: nat, w: int)
    requires m % TWO_64 == 0
    ensures Congruent(m * w, 0)
  {
    var q := m / TWO_64;
    assert m * w == q * w * TWO_64;
  }

  lemma {:induction false} PayingSurplus(n: CallNode, typ: EdgeType, b: Books)
    requires Covers(b, Ids(n)) && Paying(n, typ)
    ensures Congruent(Surplus(n, typ, b), 0)
    decreases n, |n.edges| + 1
  {
    hide Ids, Funding, Unpaid, Congruent;
    IdIn(n);
    PayingSurplusUpTo(n, |n.edges|, typ, b);
    MultipleOf(Unpaid(n, typ), Funding(n, b));
    CongruentSum(Unpaid(n, typ) * Funding(n, b), 0, SurplusUpTo(n, |n.edges|, b), 0);
  }

  lemma {:induction false} PayingSurplusUpTo(n: CallNode, k: nat, typ: EdgeType, b: Books)
    requires k <= |n.edges| && Covers(b, Ids(n)) && Paying(n, typ)
    ensures Congruent(SurplusUpTo(n, k, b), 0)
    decreases n, k
  {
    hide Ids, Unpaid, Surplus, Congruent;
    CongruentSelf(0);
    if k > 0 {
      PayingSurplusUpTo(n, k - 1, typ, b);
      ChildIds(n, k - 1);
      if Counted(n, k - 1) {
        var c := n.edges[k - 1].child;
        PayingSurplus(c, n.edges[k - 1].typ, b);
        CongruentSum(SurplusUpTo(n, k - 1, b), 0, Surplus(c, n.edges[k - 1].typ, b), 0);
      }
    }
  }

  /** On trees with fewer than 2^64 callbacks per call: at most one per async call, none for others. */
  lemma ConservedIffAtMostOne(n: CallNode)
    requires Distinct(n) && FailureFree(n) && !n.IsLeaf() && FewCallbacks(n)
    ensures AlwaysConserved(n) <==> AtMostOne(n, Sync)
  {
    hide AlwaysConserved, Distinct, FailureFree, Paying, AtMostOne;
    ConservedIffPaying(n);
    PayingIsAtMostOne(n, Sync);
  }
}
