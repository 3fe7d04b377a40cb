/**
  The accounts of a call tree node by node: what the accountant leaves at every node, in terms of the
  tree's own nodes and edges, and where the gas of a node comes from.
 */
module TreeGas {
  import opened MachineIntegers
  import opened Options
  import opened CallGraph
  import opened Paths
  import opened CallTree
  import opened TreeShape
  import opened Pipeline
  import Gas

  // ----- The tree in the view of the accountant -----

  /** The view shows the gas and the edges of the tree's nodes. */
  predicate Mirrors(t: Tree, n: CallNode)
    decreases n
  {
    && n.id < |t|
    && n.used == t[n.id].copy.gas.used && n.locked == t[n.id].copy.gas.locked
    && |n.edges| == |t[n.id].edges|
    && (forall k :: 0 <= k < |n.edges| ==>
          && n.edges[k].typ == t[n.id].edges[k].typ && n.edges[k].fail == t[n.id].edges[k].fail
          && n.edges[k].child.id == t[n.id].edges[k].to)
    && (forall k :: 0 <= k < |n.edges| ==> Mirrors(t, n.edges[k].child))
  }

  lemma {:induction false} ViewMirrors(t: Tree, i: nat)
    requires Valid(t) && i < |t|
    ensures Mirrors(t, View(t, i))
    decreases |t| - i
  {
    hide Valid, View;
    var n := View(t, i);
    ViewFields(t, i);
    forall k | 0 <= k < |n.edges|
      ensures n.edges[k].typ == t[i].edges[k].typ && n.edges[k].fail == t[i].edges[k].fail
      ensures n.edges[k].child.id == t[i].edges[k].to && Mirrors(t, n.edges[k].child)
    {
      ViewAt(t, i, k);
      ViewFields(t, t[i].edges[k].to);
      ViewMirrors(t, t[i].edges[k].to);
    }
  }

  lemma ViewFields(t: Tree, i: nat)
    requires Valid(t) && i < |t|
    ensures View(t, i).id == i && |View(t, i).edges| == |t[i].edges|
    ensures View(t, i).used == t[i].copy.gas.used && View(t, i).locked == t[i].copy.gas.locked
  {
    hide Valid;
  }

  // ----- Accounts -----

  predicate CoversTree(t: Tree, b: Gas.Books) {
    forall i :: 0 <= i < |t| ==> i in b.limit && i in b.remaining && i in b.accumulated && i in b.round
  }

  /** The node is the child over a callback edge. */
  predicate OverCallback(t: Tree, i: nat)
    requires i < |t|
  {
    t[i].incoming.Some? && Gas.CallbackEdge(t[i].incoming.value.typ)
  }

  predicate OverAsync(t: Tree, i: nat)
    requires i < |t|
  {
    t[i].incoming.Some? && (t[i].incoming.value.typ == Async || t[i].incoming.value.typ == AsyncCrossShard)
  }

  /** The accountant writes the entries of the calls that run, except callbacks. */
  predicate Settles(t: Tree, i: nat, b: Gas.Books)
    requires i < |t| && CoversTree(t, b)
  {
    t[i].edges != [] && !OverCallback(t, i) && b.round[i] != -1
  }

  /** What node `i` hands to the calls over its first `k` edges. */
  function HandedTo(t: Tree, i: nat, k: nat, b: Gas.Books): int
    requires Valid(t) && i < |t| && k <= |t[i].edges| && CoversTree(t, b)
    decreases k
  {
    if k == 0 then 0
    else
      var e := t[i].edges[k - 1];
      assert EdgesValid(t, i) && EdgeLinked(t, i, e);
      HandedTo(t, i, k - 1, b) +
      (if t[e.to].edges == [] || Gas.CallbackEdge(e.typ) then 0
       else b.limit[e.to] + t[e.to].copy.gas.locked - (if e.typ == Sync then b.remaining[e.to] else 0))
  }

  /**
    What is left at a node: nothing where no entry is written; else, modulo 2^64, its limit less what
    it uses and hands on, and an async call without callback edges has accumulated that, too.
   */
  ghost predicate NodeAccount(t: Tree, i: nat, b: Gas.Books)
    requires Valid(t) && i < |t| && CoversTree(t, b)
  {
    if !Settles(t, i, b) then b.remaining[i] == 0 && b.accumulated[i] == 0
    else
      && b.remaining[i] == (b.limit[i] - t[i].copy.gas.used - HandedTo(t, i, |t[i].edges|, b)) % TWO_64
      && b.accumulated[i] ==
         (if OverAsync(t, i) && (forall k :: 0 <= k < |t[i].edges| ==> !Gas.CallbackEdge(t[i].edges[k].typ))
          then b.remaining[i] else 0)
  }

  /** A callback is given what its caller has left and locked; every other node keeps the limit it came with. */
  ghost predicate NodeLimit(t: Tree, i: nat, b: Gas.Books)
    requires Valid(t) && i < |t| && CoversTree(t, b)
  {
    if OverCallback(t, i) && t[i].parent.Some? && t[i].parent.value < |t| && Settles(t, t[i].parent.value, b)
    then b.limit[i] == (b.remaining[t[i].parent.value] + t[t[i].parent.value].copy.gas.locked) % TWO_64
    else b.limit[i] == t[i].copy.gas.limit
  }

  ghost predicate TreeAccounts(t: Tree, b: Gas.Books)
    requires Valid(t)
  {
    && CoversTree(t, b)
    && (forall i :: 0 <= i < |t| ==> NodeAccount(t, i, b))
    && (forall i :: 0 <= i < |t| ==> NodeLimit(t, i, b))
  }

  // ----- From the view to the tree -----

  function IntoNode(t: Tree, i: nat): Gas.Incoming
    requires i < |t|
  {
    if t[i].incoming.None? then Gas.Incoming(Sync, false)
    else Gas.Incoming(t[i].incoming.value.typ, t[i].incoming.value.fail)
  }

  /** The edge that leads to a node other than the root. */
  lemma EdgeInto(t: Tree, i: nat) returns (p: nat, j: nat)
    requires Valid(t) && 0 < i < |t|
    ensures t[i].parent == Some(p) && p < i && j < |t[p].edges| && t[i].incoming == Some(t[p].edges[j]) && t[p].edges[j].to == i
  {
    assert t[i].parent.Some?;
    p := t[i].parent.value;
    var e := t[i].incoming.value;
    assert e in t[p].edges;
    j :| 0 <= j < |t[p].edges| && t[p].edges[j] == e;
  }

  /** The view has every node of the tree, with everything below it. */
  lemma {:induction false} InView(t: Tree, i: nat)
    requires Valid(t) && i < |t|
    ensures Ids(View(t, i)) <= Ids(View(t, 0)) && i in Ids(View(t, 0))
    decreases i
  {
    hide Valid, View, Ids;
    ViewFields(t, i);
    IdIn(View(t, i));
    if i > 0 {
      var p, j := EdgeInto(t, i);
      InView(t, p);
      ViewFields(t, p);
      ViewAt(t, p, j);
      ChildIds(View(t, p), j);
    }
  }

  lemma CoversAll(t: Tree, b: Gas.Books)
    requires Valid(t) && Gas.Covers(b, Ids(View(t, 0)))
    ensures CoversTree(t, b)
  {
    hide Valid, View, Ids;
    forall i | 0 <= i < |t| ensures i in Ids(View(t, 0)) {
      InView(t, i);
    }
  }

  /** What holds of every call in the view holds of every node. */
  lemma {:induction false} AccountsAt(t: Tree, i: nat, start: Gas.Books, b: Gas.Books)
    requires Valid(t) && i < |t| && Gas.Covers(start, Ids(View(t, 0))) && Gas.Covers(b, Ids(View(t, 0)))
    requires Gas.Accounts(View(t, 0), Gas.Incoming(Sync, false), start, b)
    ensures Gas.Covers(start, Ids(View(t, i))) && Gas.Covers(b, Ids(View(t, i)))
    ensures Gas.Accounts(View(t, i), IntoNode(t, i), start, b)
    decreases i
  {
    hide Valid, View, Ids, Gas.Accounts;
    InView(t, i);
    if i > 0 {
      var p, j := EdgeInto(t, i);
      AccountsAt(t, p, start, b);
      ViewFields(t, p);
      ViewAt(t, p, j);
      AccountsOfChild(View(t, p), IntoNode(t, p), j, start, b);
    } else {
      RootIsUncalled(t);
    }
  }

  lemma RootIsUncalled(t: Tree)
    requires Valid(t)
    ensures IntoNode(t, 0) == Gas.Incoming(Sync, false)
  {
  }

  lemma AccountsOfChild(n: CallNode, into: Gas.Incoming, k: nat, start: Gas.Books, b: Gas.Books)
    requires k < |n.edges| && Gas.Covers(start, Ids(n)) && Gas.Covers(b, Ids(n)) && Gas.Accounts(n, into, start, b)
    ensures var c := n.edges[k].child;
            && Gas.Covers(start, Ids(c)) && Gas.Covers(b, Ids(c)) && Gas.Accounts(c, Gas.Into(n, k), start, b)
            && Gas.LimitOfChild(n, into, k, start, b)
  {
    hide Ids, Gas.OwnAccount, Gas.LimitOfChild;
    ChildIds(n, k);
  }

  lemma OwnAccountOf(n: CallNode, into: Gas.Incoming, start: Gas.Books, b: Gas.Books)
    requires Gas.Covers(start, Ids(n)) && Gas.Covers(b, Ids(n)) && Gas.Accounts(n, into, start, b)
    ensures n.id in Ids(n) && Gas.OwnAccount(n, into, start, b)
  {
    hide Ids, Gas.OwnAccount, Gas.LimitOfChild;
    IdIn(n);
  }

  lemma {:induction false} HandedIs(t: Tree, i: nat, k: nat, b: Gas.Books)
    requires Valid(t) && i < |t| && k <= |t[i].edges| && CoversTree(t, b)
    requires Gas.Covers(b, Ids(View(t, i))) && |View(t, i).edges| == |t[i].edges|
    ensures Gas.HandedUpTo(View(t, i), k, b) == HandedTo(t, i, k, b)
    decreases k
  {
    hide View, Ids, Valid;
    if k > 0 {
      HandedIs(t, i, k - 1, b);
      ViewAt(t, i, k - 1);
      ViewFields(t, t[i].edges[k - 1].to);
    }
  }

  lemma SpentIs(t: Tree, i: nat, b: Gas.Books)
    requires Valid(t) && i < |t| && CoversTree(t, b) && Gas.Covers(b, Ids(View(t, i)))
    ensures Gas.Spent(View(t, i), b) == t[i].copy.gas.used + HandedTo(t, i, |t[i].edges|, b)
  {
    hide View, Ids, Valid, HandedTo, Gas.HandedUpTo;
    ViewFields(t, i);
    HandedIs(t, i, |t[i].edges|, b);
  }

  /** No edge of the view fails. */
  lemma {:induction false} NoneFails(t: Tree, i: nat)
    requires Valid(t) && i < |t| && FailureFree(View(t, 0))
    ensures FailureFree(View(t, i)) && !IntoNode(t, i).fail
    decreases i
  {
    hide Valid, View;
    if i > 0 {
      var p, j := EdgeInto(t, i);
      NoneFails(t, p);
      ViewFields(t, p);
      ViewAt(t, p, j);
    } else {
      RootIsUncalled(t);
    }
  }

  /** The view of one node, edge by edge. */
  lemma ViewTypes(t: Tree, i: nat)
    requires Valid(t) && i < |t|
    ensures |View(t, i).edges| == |t[i].edges|
    ensures forall k :: 0 <= k < |t[i].edges| ==> View(t, i).edges[k].typ == t[i].edges[k].typ
  {
    hide Valid, View;
    ViewFields(t, i);
    forall k | 0 <= k < |t[i].edges| ensures View(t, i).edges[k].typ == t[i].edges[k].typ {
      ViewAt(t, i, k);
    }
  }

  /** The books before the traversal: the limits the nodes came with, and nothing else. */
  predicate Opened(t: Tree, b: Gas.Books) {
    && CoversTree(t, b)
    && (forall i :: 0 <= i < |t| ==> b.limit[i] == t[i].copy.gas.limit)
    && (forall i :: 0 <= i < |t| ==> b.remaining[i] == 0)
    && (forall i :: 0 <= i < |t| ==> b.accumulated[i] == 0)
  }

  lemma AccountIs(t: Tree, i: nat, start: Gas.Books, b: Gas.Books)
    requires Valid(t) && i < |t| && Opened(t, start) && CoversTree(t, b) && FailureFree(View(t, 0))
    requires Gas.Covers(start, Ids(View(t, 0))) && Gas.Covers(b, Ids(View(t, 0)))
    requires Gas.Accounts(View(t, 0), Gas.Incoming(Sync, false), start, b)
    ensures NodeAccount(t, i, b)
  {
    hide Valid, View, Ids, Gas.Accounts, Gas.Spent, HandedTo;
    AccountsAt(t, i, start, b);
    OwnAccountOf(View(t, i), IntoNode(t, i), start, b);
    NoneFails(t, i);
    ViewFields(t, i);
    ViewTypes(t, i);
    SpentIs(t, i, b);
  }

  lemma LimitIs(t: Tree, i: nat, start: Gas.Books, b: Gas.Books)
    requires Valid(t) && i < |t| && Opened(t, start) && CoversTree(t, b)
    requires Gas.Covers(start, Ids(View(t, 0))) && Gas.Covers(b, Ids(View(t, 0)))
    requires Gas.Accounts(View(t, 0), Gas.Incoming(Sync, false), start, b) && 0 in b.limit && b.limit[0] == t[0].copy.gas.limit
    ensures NodeLimit(t, i, b)
  {
    hide Valid, View, Ids, Gas.Accounts;
    if i > 0 {
      var p, j := EdgeInto(t, i);
      AccountsAt(t, p, start, b);
      ViewFields(t, p);
      ViewAt(t, p, j);
      ViewFields(t, i);
      AccountsOfChild(View(t, p), IntoNode(t, p), j, start, b);
    } else {
      RootIsUncalled(t);
    }
  }

  lemma AccountsOfTree(t: Tree, start: Gas.Books, b: Gas.Books)
    requires Valid(t) && Opened(t, start) && FailureFree(View(t, 0))
    requires Gas.Covers(start, Ids(View(t, 0))) && Gas.Covers(b, Ids(View(t, 0)))
    requires Gas.Accounts(View(t, 0), Gas.Incoming(Sync, false), start, b) && 0 in b.limit && b.limit[0] == t[0].copy.gas.limit
    ensures TreeAccounts(t, b)
  {
    hide Valid, View, Ids, Gas.Accounts, NodeAccount, NodeLimit, FailureFree, Opened, Gas.Covers;
    CoversAll(t, b);
    forall i | 0 <= i < |t| ensures NodeAccount(t, i, b) && NodeLimit(t, i, b) {
      AccountIs(t, i, start, b);
      LimitIs(t, i, start, b);
    }
  }

  // ----- Where the gas of a node comes from -----

  /**
    A call has the limit and the locked gas of the edge into it. It uses what that edge says, except
    the callback of the async call above it. A finish leaf takes over what the call above it uses.
   */
  ghost predicate GasOfEdge(t: Tree, i: nat)
    requires Valid(t) && i < |t|
  {
    t[i].incoming.Some? && t[i].parent.Some? && t[i].parent.value < |t| &&
    var e, gas, above := t[i].incoming.value, t[i].copy.gas, t[t[i].parent.value];
    if t[i].edges == [] then gas.used == gas.limit && gas.locked == e.gasLocked
    else
      && gas.limit == e.gasLimit && gas.locked == e.gasLocked
      && (!Gas.CallbackEdge(e.typ) || above.incoming.None? ==> gas.used == e.gasUsed)
  }

  lemma CarriedBy(g: Graph, rank: seq<nat>, first: NodeGas, t: Tree, i: nat) returns (m: nat)
    requires BuiltFrom(g, rank, first, t) && LeavesAreTold(g) && !g.IsLeaf(g.start) && i < |t|
    ensures var ps, k := Copies(g, first, From(g, rank, [])), |KeyPath(t, i)|;
            && m < |ps| && CarriesGas(first, ps[m]) && WellShaped(ps[m]) && CopiedFrom(t, i, ps[m], k)
            && (t[i].edges == [] <==> k == |ps[m].edges|)
  {
    hide From, CopyOf, Copies, Aged, Followed, IsPath, Valid, LeavesAreTold, CarriesGas, KeyPath, Shows;
    EmptyIsPath(g);
    EnumeratedPathsFit(g, rank, first);
    var ps := Copies(g, first, From(g, rank, []));
    CopiesCarry(g, first, From(g, rank, []));
    CopiesLength(g, first, From(g, rank, []));
    assert Explained(t, i, ps);
    var x, k :| 0 <= x < |ps| && 0 <= k <= |ps[x].edges| && CopiedFrom(t, i, ps[x], k);
    m := x;
    LeafIffNotExtended(t, ps, i);
    EndsWhereItEnds(ps, m, k);
  }

  lemma EndsWhereItEnds(ps: seq<PathCopy>, m: nat, k: nat)
    requires AllWellShaped(ps) && PrefixFree(ps) && m < |ps| && k <= |ps[m].edges|
    ensures ExtendedBy(ps, PathKeys(ps[m])[..k]) <==> k < |ps[m].edges|
  {
    if k == |ps[m].edges| {
      assert PathKeys(ps[m])[..k] == PathKeys(ps[m]);
    } else {
      assert PathKeys(ps[m])[..k] < PathKeys(ps[m]);
    }
  }

  lemma GasFromEdge(g: Graph, rank: seq<nat>, first: NodeGas, t: Tree, i: nat)
    requires BuiltFrom(g, rank, first, t) && LeavesAreTold(g) && !g.IsLeaf(g.start) && 0 < i < |t| && Valid(t)
    ensures GasOfEdge(t, i)
  {
    hide From, CopyOf, Copies, Represents, IsPath, LeavesAreTold, Valid, KeyPath, ProperPaths;
    var p, j := EdgeInto(t, i);
    var m := CarriedBy(g, rank, first, t, i);
    var k := |KeyPath(t, i)|;
    KeyPathGrows(t, i);
    if k == 1 || t[p].incoming.None? {
      RootAlone(t, p);
    }
  }

  lemma KeyPathGrows(t: Tree, i: nat)
    requires Valid(t) && 0 < i < |t|
    ensures t[i].parent.Some? && t[i].parent.value < |t| && |KeyPath(t, i)| == |KeyPath(t, t[i].parent.value)| + 1
  {
    assert t[i].parent.Some?;
  }

  lemma RootAlone(t: Tree, p: nat)
    requires Valid(t) && p < |t|
    ensures t[p].incoming.None? <==> p == 0
    ensures KeyPath(t, p) == [] <==> p == 0
  {
    assert t[p].parent == t[p].parent;
  }
}
