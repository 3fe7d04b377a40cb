/**
  Async calls and their groups: the life cycle of a group over whole runs, and the conversion
  between the VM's own objects and the protobuf messages.
 */
module AsyncCalls {
  import opened MachineIntegers
  import opened Options
  import Overflow
  import Messages
  import Codec
  import opened Serializable

  const PENDING: uint8 := 0
  const RESOLVED: uint8 := 1
  const REJECTED: uint8 := 2

  type uint8 = x: int | 0 <= x < 0x100

  // Execution modes of a call.
  const ASYNC_BUILTIN_FUNC_CROSS_SHARD: uint64 := 2
  const ASYNC_UNKNOWN: uint64 := 4

  // ----- Group contents -----

  /** Removal by moving the last element into the gap; other indices are ignored. */
  function SwapRemove<T>(s: seq<T>, index: int): seq<T> {
    if 0 <= index < |s| then s[index := s[|s| - 1]][..|s| - 1] else s
  }

  /** Swap-remove drops one occurrence of the indexed element and nothing else. */
  lemma SwapRemoveDropsOne<T>(s: seq<T>, index: int)
    requires 0 <= index < |s|
    ensures multiset(SwapRemove(s, index)) == multiset(s) - multiset{s[index]}
  {
    hide SwapRemove;
    var last := |s| - 1;
    SwapRemoveParts(s, index);
    if index == last {
      assert s == s[..last] + [s[last]];
    } else {
      var before, after := s[..index], s[index + 1..last];
      assert s == before + [s[index]] + after + [s[last]];
    }
  }

  lemma SwapRemoveParts<T>(s: seq<T>, index: int)
    requires 0 <= index < |s|
    ensures var last := |s| - 1;
            SwapRemove(s, index) == if index == last then s[..last] else s[..index] + [s[last]] + s[index + 1..last]
  {
  }

  /** The elements that are in `keep`, in order. */
  function Keep<T(==)>(s: seq<T>, keep: set<T>): seq<T> {
    if s == [] then []
    else Keep(s[..|s| - 1], keep) + if s[|s| - 1] in keep then [s[|s| - 1]] else []
  }

  /** Filtering keeps every occurrence of a kept element and removes all others. */
  lemma {:induction false} KeepCounts<T>(s: seq<T>, keep: set<T>, x: T)
    ensures multiset(Keep(s, keep))[x] == if x in keep then multiset(s)[x] else 0
  {
    if s != [] {
      KeepCounts(s[..|s| - 1], keep, x);
      assert s == s[..|s| - 1] + [s[|s| - 1]];
    }
  }

  /** `r` is what `s` has in `keep`: `at` lists, in increasing order, the places its elements come from. */
  ghost predicate Selects<T>(s: seq<T>, keep: set<T>, r: seq<T>, at: seq<nat>) {
    && |at| == |r| && (forall k :: 0 <= k < |at| ==> at[k] < |s| && r[k] == s[at[k]])
    && (forall j, k :: 0 <= j < k < |at| ==> at[j] < at[k])
    && (forall i :: 0 <= i < |s| ==> (i in at <==> s[i] in keep))
  }

  /** Filtering keeps the order. */
  lemma {:induction false} KeepSelects<T>(s: seq<T>, keep: set<T>) returns (at: seq<nat>)
    ensures Selects(s, keep, Keep(s, keep), at)
  {
    hide Selects;
    if s == [] {
      at := [];
      SelectsNothing(keep);
    } else {
      var front, x := s[..|s| - 1], s[|s| - 1];
      at := KeepSelects(front, keep);
      if x in keep {
        SelectsNext(front, keep, Keep(front, keep), at, x);
        at := at + [|front|];
      } else {
        SkipsNext(front, keep, Keep(front, keep), at, x);
        assert Keep(s, keep) == Keep(front, keep);
      }
      assert s == front + [x];
    }
  }

  lemma SelectsNothing<T>(keep: set<T>)
    ensures Selects([], keep, [], [])
  {
  }

  lemma SelectsNext<T>(s: seq<T>, keep: set<T>, r: seq<T>, at: seq<nat>, x: T)
    requires Selects(s, keep, r, at) && x in keep
    ensures Selects(s + [x], keep, r + [x], at + [|s|])
  {
    forall i | 0 <= i < |s + [x]| ensures i in at + [|s|] <==> (s + [x])[i] in keep {
      if i < |s| {
        assert i in at + [|s|] <==> i in at;
      }
    }
  }

  lemma SkipsNext<T>(s: seq<T>, keep: set<T>, r: seq<T>, at: seq<nat>, x: T)
    requires Selects(s, keep, r, at) && x !in keep
    ensures Selects(s + [x], keep, r, at)
  {
  }

  class AsyncCall {
    var callID: seq<byte>
    var status: uint8
    var executionMode: uint64
    var destination: seq<byte>
    var data: seq<byte>
    var gasLimit: uint64
    var gasLocked: uint64
    var valueBytes: seq<byte>
    var successCallback: seq<byte>
    var errorCallback: seq<byte>
    var callbackClosure: seq<byte>
    var isBuiltinFunctionCall: bool

    function Value(): NativeCall
      reads this
    {
      NativeCall(callID, status, executionMode, destination, data, gasLimit, gasLocked, valueBytes,
                 successCallback, errorCallback, callbackClosure, isBuiltinFunctionCall)
    }

    constructor (v: NativeCall)
      ensures Value() == v
    {
      callID, status, executionMode := v.callID, v.status, v.executionMode;
      destination, data, gasLimit, gasLocked := v.destination, v.data, v.gasLimit, v.gasLocked;
      valueBytes, successCallback, errorCallback := v.valueBytes, v.successCallback, v.errorCallback;
      callbackClosure, isBuiltinFunctionCall := v.callbackClosure, v.isBuiltinFunctionCall;
    }

    /** The call is settled: resolved for return code 0 (`Ok`), rejected otherwise. */
    method UpdateStatus(returnCode: int)
      modifies this`status
      ensures status == Settled(returnCode)
      ensures (status == RESOLVED <==> returnCode == 0) && (status == REJECTED <==> returnCode != 0)
      ensures Value().GetCallbackName() == if returnCode == 0 then successCallback else errorCallback
    {
      status := RESOLVED;
      if returnCode != 0 {
        status := REJECTED;
      }
    }

    method Reject()
      modifies this`status
      ensures status == REJECTED && Value().GetCallbackName() == errorCallback
    {
      status := REJECTED;
    }
  }

  function Settled(returnCode: int): uint8 {
    if returnCode == 0 then RESOLVED else REJECTED
  }

  class AsyncCallGroup {
    var callback: seq<byte>
    var gasLocked: uint64
    var callbackData: seq<byte>
    var identifier: seq<byte>
    var calls: seq<AsyncCall>

    function Value(): NativeGroup
      reads this, calls
    {
      NativeGroup(callback, gasLocked, callbackData, identifier, NativeValues(calls))
    }

    constructor (identifier: seq<byte>)
      ensures Value() == NativeGroup([], 0, [], identifier, [])
    {
      callback, gasLocked, callbackData, calls := [], 0, [], [];
      this.identifier := identifier;
    }

    constructor Literal(callback: seq<byte>, gasLocked: uint64, callbackData: seq<byte>, identifier: seq<byte>,
                        calls: seq<AsyncCall>)
      ensures this.callback == callback && this.gasLocked == gasLocked && this.callbackData == callbackData
      ensures this.identifier == identifier && this.calls == calls
    {
      this.callback, this.gasLocked, this.callbackData := callback, gasLocked, callbackData;
      this.identifier, this.calls := identifier, calls;
    }

    method AddAsyncCall(call: AsyncCall)
      modifies this`calls
      ensures calls == old(calls) + [call]
    {
      calls := calls + [call];
    }

    method IsComplete() returns (b: bool)
      ensures b <==> calls == []
    {
      b := |calls| == 0;
    }

    method DeleteAsyncCall(index: int)
      modifies this`calls
      ensures calls == SwapRemove(old(calls), index)
      ensures !(0 <= index < |old(calls)|) ==> calls == old(calls)
      ensures 0 <= index < |old(calls)| ==> |calls| == |old(calls)| - 1 && forall k :: 0 <= k < |calls| ==>
        calls[k] == old(calls)[if k == index then |calls| else k]
    {
      if |calls| == 0 { return; }
      var last := |calls| - 1;
      if index < 0 || index > last { return; }
      calls := calls[index := calls[last]];
      calls := calls[..last];
    }

    method DeleteCompletedAsyncCalls()
      modifies this`calls
      ensures calls == Keep(old(calls), old(PendingOf(calls)))
      ensures exists at :: Selects(old(calls), old(PendingOf(calls)), calls, at)
    {
      var remaining: seq<AsyncCall> := [];
      ghost var pending := PendingOf(calls);
      for i := 0 to |calls|
        invariant remaining == Keep(calls[..i], pending)
      {
        assert calls[..i + 1][..i] == calls[..i];
        if calls[i].status == PENDING {
          remaining := remaining + [calls[i]];
        }
      }
      assert calls[..|calls|] == calls;
      ghost var at := KeepSelects(calls, pending);
      calls := remaining;
    }
  }

  ghost function PendingOf(calls: seq<AsyncCall>): set<AsyncCall>
    reads calls
  {
    set c | c in calls && c.status == PENDING
  }

  // ----- Runs -----

  /** A group together with the status of every call object in existence, `C` naming objects. */
  datatype State<C> = State(status: map<C, uint8>, calls: seq<C>)

  function NewState<C>(): State<C> {
    State(map[], [])
  }

  datatype Op<C> =
    | Add(call: C)
    | UpdateStatus(call: C, returnCode: int)
    | Reject(call: C)
    | Delete(index: int)
    | DeleteCompleted

  function Pending<C(==)>(s: State<C>): set<C> {
    set c | c in s.status && s.status[c] == PENDING
  }

  /** The effect of one operation; a call that was never seen before is added as pending. */
  function Step<C(==)>(s: State<C>, op: Op<C>): State<C> {
    match op
    case Add(c) => State(if c in s.status then s.status else s.status[c := PENDING], s.calls + [c])
    case UpdateStatus(c, code) => s.(status := s.status[c := Settled(code)])
    case Reject(c) => s.(status := s.status[c := REJECTED])
    case Delete(index) => s.(calls := SwapRemove(s.calls, index))
    case DeleteCompleted => s.(calls := Keep(s.calls, Pending(s)))
  }

  function Run<C(==)>(s: State<C>, ops: seq<Op<C>>): State<C> {
    if ops == [] then s else Step(Run(s, ops[..|ops| - 1]), ops[|ops| - 1])
  }

  /** Every call a run adds, with multiplicity. */
  function Added<C(==)>(ops: seq<Op<C>>): multiset<C> {
    if ops == [] then multiset{}
    else
      var op := ops[|ops| - 1];
      Added(ops[..|ops| - 1]) + (if op.Add? then multiset{op.call} else multiset{})
  }

  /** Every call a run removes by index, with multiplicity. */
  function Deleted<C(==)>(s: State<C>, ops: seq<Op<C>>): multiset<C> {
    if ops == [] then multiset{}
    else
      var before, op := Run(s, ops[..|ops| - 1]), ops[|ops| - 1];
      var dropped := if op.Delete? && 0 <= op.index < |before.calls| then multiset{before.calls[op.index]} else multiset{};
      Deleted(s, ops[..|ops| - 1]) + dropped
  }

  predicate IsSettled<C(==)>(s: State<C>, c: C) {
    c in s.status && s.status[c] != PENDING
  }

  /** No settled call ever becomes pending again. */
  lemma {:induction false} SettledForever<C>(s: State<C>, ops: seq<Op<C>>, c: C)
    requires IsSettled(s, c)
    ensures IsSettled(Run(s, ops), c)
  {
    if ops != [] {
      SettledForever(s, ops[..|ops| - 1], c);
    }
  }

  /** The operation settles the given call. */
  predicate Settles<C(==)>(op: Op<C>, c: C) {
    (op.UpdateStatus? || op.Reject?) && op.call == c
  }

  /** The last operation that settles a call decides: resolved for return code 0, rejected otherwise. */
  lemma {:induction false} LastSettlementDecides<C>(s: State<C>, ops: seq<Op<C>>, k: nat, c: C)
    requires k < |ops| && Settles(ops[k], c) && forall j :: k < j < |ops| ==> !Settles(ops[j], c)
    ensures var r := Run(s, ops);
            && c in r.status
            && (r.status[c] == RESOLVED <==> ops[k].UpdateStatus? && ops[k].returnCode == 0)
            && (r.status[c] == REJECTED <==> ops[k].Reject? || ops[k].returnCode != 0)
  {
    if k < |ops| - 1 {
      LastSettlementDecides(s, ops[..|ops| - 1], k, c);
    }
  }

  /** Where every added call is, at any moment of a run that started with an empty group. */
  ghost predicate Accounted<C(!new)>(s: State<C>, added: multiset<C>, deleted: multiset<C>) {
    && (forall c :: c in s.calls ==> c in s.status)
    && (forall c :: multiset(s.calls)[c] + deleted[c] <= added[c])
    && (forall c :: multiset(s.calls)[c] + deleted[c] < added[c] ==> IsSettled(s, c))
  }

  lemma {:induction false} RunAccounts<C(!new)>(ops: seq<Op<C>>)
    ensures Accounted(Run(NewState(), ops), Added(ops), Deleted(NewState(), ops))
  {
    var s0 := NewState<C>();
    if ops != [] {
      var earlier, op := ops[..|ops| - 1], ops[|ops| - 1];
      RunAccounts(earlier);
      StepAccounts(Run(s0, earlier), op, Added(earlier), Deleted(s0, earlier));
    }
  }

  lemma StepAccounts<C(!new)>(s: State<C>, op: Op<C>, added: multiset<C>, deleted: multiset<C>)
    requires Accounted(s, added, deleted)
    ensures var added' := added + if op.Add? then multiset{op.call} else multiset{};
            var deleted' := deleted + if op.Delete? && 0 <= op.index < |s.calls|
                                      then multiset{s.calls[op.index]} else multiset{};
            Accounted(Step(s, op), added', deleted')
  {
    match op
    case Add(c) => AddAccounts(s, c, added, deleted);
    case UpdateStatus(c, code) => SettleAccounts(s, c, Settled(code), added, deleted);
    case Reject(c) => SettleAccounts(s, c, REJECTED, added, deleted);
    case Delete(index) =>
      if 0 <= index < |s.calls| {
        DeleteAccounts(s, index, added, deleted);
      }
    case DeleteCompleted => PurgeAccounts(s, added, deleted);
  }

  lemma AddAccounts<C(!new)>(s: State<C>, x: C, added: multiset<C>, deleted: multiset<C>)
    requires Accounted(s, added, deleted)
    ensures Accounted(Step(s, Add(x)), added + multiset{x}, deleted)
  {
    var t := Step(s, Add(x));
    forall c ensures multiset(t.calls)[c] == multiset(s.calls)[c] + multiset{x}[c] {
    }
  }

  lemma SettleAccounts<C(!new)>(s: State<C>, x: C, st: uint8, added: multiset<C>, deleted: multiset<C>)
    requires Accounted(s, added, deleted) && st != PENDING
    ensures Accounted(s.(status := s.status[x := st]), added, deleted)
  {
  }

  lemma DeleteAccounts<C(!new)>(s: State<C>, index: nat, added: multiset<C>, deleted: multiset<C>)
    requires Accounted(s, added, deleted) && index < |s.calls|
    ensures Accounted(Step(s, Delete(index)), added, deleted + multiset{s.calls[index]})
  {
    hide SwapRemove;
    var t := Step(s, Delete(index));
    SwapRemoveDropsOne(s.calls, index);
    forall c | c in t.calls ensures c in t.status {
      assert c in multiset(t.calls);
      assert c in multiset(s.calls);
    }
  }

  lemma PurgeAccounts<C(!new)>(s: State<C>, added: multiset<C>, deleted: multiset<C>)
    requires Accounted(s, added, deleted)
    ensures Accounted(Step(s, DeleteCompleted), added, deleted)
  {
    hide Keep;
    var t := Step(s, DeleteCompleted);
    forall c ensures multiset(t.calls)[c] == if c in Pending(s) then multiset(s.calls)[c] else 0 {
      KeepCounts(s.calls, Pending(s), c);
    }
    forall c | c in t.calls ensures c in t.status {
      assert multiset(t.calls)[c] > 0;
    }
    forall c | multiset(t.calls)[c] + deleted[c] < added[c] ensures IsSettled(t, c) {
      if multiset(s.calls)[c] > 0 { assert c in s.calls; }
    }
  }

  /**
    Right after the completed calls are deleted, the group is complete exactly when every call ever
    added, and not removed by index, is settled.
   */
  lemma CompleteIffAllSettled<C(!new)>(ops: seq<Op<C>>)
    ensures var s0 := NewState<C>();
            var s := Run(s0, ops + [DeleteCompleted]);
            s.calls == [] <==> forall c :: c in Added(ops) - Deleted(s0, ops) ==> IsSettled(s, c)
  {
    var s0 := NewState<C>();
    var before := Run(s0, ops);
    var all := ops + [DeleteCompleted];
    assert all[..|ops|] == ops;
    var s := Run(s0, all);
    assert s == Step(before, DeleteCompleted);
    RunAccounts(ops);
    forall c ensures multiset(s.calls)[c] == if c in Pending(before) then multiset(before.calls)[c] else 0 {
      KeepCounts(before.calls, Pending(before), c);
    }
    if s.calls == [] {
      forall c | c in Added(ops) - Deleted(s0, ops) ensures IsSettled(s, c) {
        assert multiset(s.calls)[c] == 0;
        if multiset(before.calls)[c] > 0 { assert c in before.calls; }
      }
    } else {
      var c := s.calls[0];
      assert multiset(s.calls)[c] > 0;
      assert c in Added(ops) - Deleted(s0, ops);
    }
  }

  // ----- Runs of the code -----

  /** A list of call objects stands for a list of names. */
  ghost predicate Named(objects: map<nat, AsyncCall>, calls: seq<AsyncCall>, names: seq<nat>) {
    && |calls| == |names|
    && forall i :: 0 <= i < |names| ==> names[i] in objects && calls[i] == objects[names[i]]
  }

  /** The call objects, one per name, and the group's list are in the given state. */
  ghost predicate Mirrors(objects: map<nat, AsyncCall>, calls: seq<AsyncCall>, s: State<nat>)
    reads objects.Values
  {
    && objects.Keys == s.status.Keys
    && (forall c, d :: c in objects && d in objects && objects[c] == objects[d] ==> c == d)
    && (forall c :: c in objects ==> objects[c].status == s.status[c])
    && Named(objects, calls, s.calls)
  }

  lemma {:induction false} KeepNamed(objects: map<nat, AsyncCall>, calls: seq<AsyncCall>, names: seq<nat>,
                                     keep: set<AsyncCall>, kept: set<nat>)
    requires Named(objects, calls, names)
    requires forall i :: 0 <= i < |names| ==> (calls[i] in keep <==> names[i] in kept)
    ensures Named(objects, Keep(calls, keep), Keep(names, kept))
  {
    if names != [] {
      KeepNamed(objects, calls[..|calls| - 1], names[..|names| - 1], keep, kept);
    }
  }

  /** Any sequence of operations on real objects ends in the state its run describes. */
  method Replay(ops: seq<Op<nat>>) returns (objects: map<nat, AsyncCall>, group: AsyncCallGroup)
    ensures fresh(group) && fresh(objects.Values)
    ensures Mirrors(objects, group.calls, Run(NewState(), ops))
  {
    hide Keep, SwapRemove;
    objects := map[];
    group := new AsyncCallGroup([]);
    for i := 0 to |ops|
      invariant fresh(group) && fresh(objects.Values)
      invariant Mirrors(objects, group.calls, Run(NewState(), ops[..i]))
    {
      ghost var s := Run(NewState(), ops[..i]);
      assert ops[..i + 1][..i] == ops[..i];
      objects := Perform(objects, group, ops[i], s);
    }
    assert ops[..|ops|] == ops;
  }

  method Perform(objects: map<nat, AsyncCall>, group: AsyncCallGroup, op: Op<nat>, ghost s: State<nat>)
    returns (after: map<nat, AsyncCall>)
    requires Mirrors(objects, group.calls, s)
    modifies group`calls, objects.Values
    ensures fresh(after.Values - objects.Values)
    ensures Mirrors(after, group.calls, Step(s, op))
  {
    hide Keep, SwapRemove, Mirrors, Pending;
    after := objects;
    match op
    case Add(c) =>
      after := Create(objects, group.calls, c, s);
      AddNamed(after, group, c, Known(s, c));
    case UpdateStatus(c, code) =>
      after := Create(objects, group.calls, c, s);
      UpdateNamed(after, group.calls, c, code, Known(s, c));
      assert Known(s, c).status[c := Settled(code)] == s.status[c := Settled(code)];
    case Reject(c) =>
      after := Create(objects, group.calls, c, s);
      RejectNamed(after, group.calls, c, Known(s, c));
      assert Known(s, c).status[c := REJECTED] == s.status[c := REJECTED];
    case Delete(index) =>
      DeleteNamed(objects, group, index, s);
    case DeleteCompleted =>
      PurgeNamed(objects, group, s);
  }

  method DeleteNamed(objects: map<nat, AsyncCall>, group: AsyncCallGroup, index: int, ghost s: State<nat>)
    requires Mirrors(objects, group.calls, s)
    modifies group`calls
    ensures Mirrors(objects, group.calls, Step(s, Delete(index)))
  {
    hide SwapRemove;
    SwapRemoveNamed(objects, group.calls, s.calls, index);
    group.DeleteAsyncCall(index);
  }

  method PurgeNamed(objects: map<nat, AsyncCall>, group: AsyncCallGroup, ghost s: State<nat>)
    requires Mirrors(objects, group.calls, s)
    modifies group`calls
    ensures Mirrors(objects, group.calls, Step(s, DeleteCompleted))
  {
    hide Keep;
    KeepNamed(objects, group.calls, s.calls, PendingOf(group.calls), Pending(s));
    group.DeleteCompletedAsyncCalls();
  }

  method AddNamed(objects: map<nat, AsyncCall>, group: AsyncCallGroup, c: nat, ghost s: State<nat>)
    requires Mirrors(objects, group.calls, s) && c in objects
    modifies group`calls
    ensures Mirrors(objects, group.calls, s.(calls := s.calls + [c]))
  {
    group.AddAsyncCall(objects[c]);
  }

  method UpdateNamed(objects: map<nat, AsyncCall>, ghost calls: seq<AsyncCall>, c: nat, code: int, ghost s: State<nat>)
    requires Mirrors(objects, calls, s) && c in objects
    modifies objects[c]
    ensures Mirrors(objects, calls, s.(status := s.status[c := Settled(code)]))
  {
    objects[c].UpdateStatus(code);
  }

  method RejectNamed(objects: map<nat, AsyncCall>, ghost calls: seq<AsyncCall>, c: nat, ghost s: State<nat>)
    requires Mirrors(objects, calls, s) && c in objects
    modifies objects[c]
    ensures Mirrors(objects, calls, s.(status := s.status[c := REJECTED]))
  {
    objects[c].Reject();
  }

  lemma SwapRemoveNamed(objects: map<nat, AsyncCall>, calls: seq<AsyncCall>, names: seq<nat>, index: int)
    requires Named(objects, calls, names)
    ensures Named(objects, SwapRemove(calls, index), SwapRemove(names, index))
  {
  }

  /** A call that was never named before exists as pending. */
  function Known(s: State<nat>, c: nat): State<nat> {
    if c in s.status then s else s.(status := s.status[c := PENDING])
  }

  method Create(objects: map<nat, AsyncCall>, ghost calls: seq<AsyncCall>, c: nat, ghost s: State<nat>)
    returns (after: map<nat, AsyncCall>)
    requires Mirrors(objects, calls, s)
    ensures c in after && fresh(after.Values - objects.Values) && Mirrors(after, calls, Known(s, c))
  {
    after := objects;
    if c !in objects {
      var call := new AsyncCall(NativeCall([], PENDING, 0, [], [], 0, 0, [], [], [], [], false));
      after := objects[c := call];
      assert forall d :: d in objects ==> after[d] == objects[d];
    }
  }

  // ----- Conversion -----

  datatype NativeCall = NativeCall(
    callID: seq<byte>,
    status: uint8,
    executionMode: uint64,
    destination: seq<byte>,
    data: seq<byte>,
    gasLimit: uint64,
    gasLocked: uint64,
    valueBytes: seq<byte>,
    successCallback: seq<byte>,
    errorCallback: seq<byte>,
    callbackClosure: seq<byte>,
    isBuiltinFunctionCall: bool)
  {
    predicate IsRemote() {
      executionMode == ASYNC_UNKNOWN || executionMode == ASYNC_BUILTIN_FUNC_CROSS_SHARD
    }

    function GetCallbackName(): seq<byte> {
      if status == RESOLVED then successCallback else errorCallback
    }

    function GetTotalGas(): uint64 {
      Overflow.AddUint64(gasLimit, gasLocked)
    }
  }

  datatype NativeGroup = NativeGroup(
    callback: seq<byte>,
    gasLocked: uint64,
    callbackData: seq<byte>,
    identifier: seq<byte>,
    calls: seq<NativeCall>)

  function NativeValues(cs: seq<AsyncCall>): (vs: seq<NativeCall>)
    reads cs
    ensures |vs| == |cs| && forall i :: 0 <= i < |cs| ==> vs[i] == cs[i].Value()
  {
    if cs == [] then [] else NativeValues(cs[..|cs| - 1]) + [cs[|cs| - 1].Value()]
  }

  function ToMessage(c: NativeCall): Messages.CallValue {
    Messages.CallValue(c.callID, c.status, ToInt32(c.executionMode), c.destination, c.data, c.gasLimit, c.gasLocked,
                       c.valueBytes, c.successCallback, c.errorCallback, c.callbackClosure)
  }

  function FromMessage(v: Messages.CallValue): (c: NativeCall)
    ensures (v.status - c.status) % 0x100 == 0 && (v.executionMode - c.executionMode) % TWO_64 == 0
  {
    NativeCall(v.callID, v.status % 0x100, Wrap64(v.executionMode), v.destination, v.data, v.gasLimit, v.gasLocked,
               v.valueBytes, v.successCallback, v.errorCallback, v.callbackClosure, false)
  }

  function ToMessages(cs: seq<NativeCall>): (vs: seq<Messages.CallValue>)
    ensures |vs| == |cs| && forall i :: 0 <= i < |cs| ==> vs[i] == ToMessage(cs[i])
  {
    if cs == [] then [] else ToMessages(cs[..|cs| - 1]) + [ToMessage(cs[|cs| - 1])]
  }

  function FromMessages(vs: seq<Messages.CallValue>): (cs: seq<NativeCall>)
    ensures |cs| == |vs| && forall i :: 0 <= i < |vs| ==> cs[i] == FromMessage(vs[i])
  {
    if vs == [] then [] else FromMessages(vs[..|vs| - 1]) + [FromMessage(vs[|vs| - 1])]
  }

  function ToGroupMessage(g: NativeGroup): Messages.GroupValue {
    Messages.GroupValue(g.callback, g.gasLocked, g.callbackData, g.identifier, ToMessages(g.calls))
  }

  function FromGroupMessage(v: Messages.GroupValue): NativeGroup {
    NativeGroup(v.callback, v.gasLocked, v.callbackData, v.identifier, FromMessages(v.calls))
  }

  /** The execution modes that a signed 32-bit field can carry. */
  predicate Portable(mode: uint64) {
    mode < TWO_31 || mode >= TWO_64 - TWO_31
  }

  lemma ModeRoundTrip(mode: uint64)
    ensures Wrap64(ToInt32(mode)) == mode <==> Portable(mode)
  {
  }

  /** The first mode that is lost comes back as another one. */
  lemma ModeTwoTo31IsLost(c: NativeCall)
    requires c.executionMode == TWO_31
    ensures FromMessage(ToMessage(c)).executionMode == TWO_64 - TWO_31
  {
  }

  /** Converting a call and back loses the built-in flag, and nothing else exactly for portable modes. */
  lemma CallConversion(c: NativeCall)
    ensures FromMessage(ToMessage(c)) == c.(isBuiltinFunctionCall := false) <==> Portable(c.executionMode)
  {
    ModeRoundTrip(c.executionMode);
  }

  /**
    After conversion and back, whatever the mode was: a call is remote exactly if the low half of its
    mode is that of a remote one, it answers with the callback its return code selects, and its gas
    adds up as before, capped.
   */
  lemma AnswersAfterConversion(c: NativeCall, returnCode: int)
    ensures var r := FromMessage(ToMessage(c.(status := Settled(returnCode))));
            && (r.IsRemote() <==> c.executionMode % TWO_32 == 2 || c.executionMode % TWO_32 == 4)
            && r.GetCallbackName() == (if returnCode == 0 then c.successCallback else c.errorCallback)
            && r.GetTotalGas() == (if c.gasLimit + c.gasLocked < TWO_64 then c.gasLimit + c.gasLocked else TWO_64 - 1)
  {
    hide ToMessage, FromMessage;
    var d := c.(status := Settled(returnCode));
    assert FromMessage(ToMessage(d)) == d.(executionMode := Wrap64(ToInt32(d.executionMode)), isBuiltinFunctionCall := false) by {
      Converted(d);
    }
    LowHalf(d.executionMode);
  }

  lemma Converted(c: NativeCall)
    ensures FromMessage(ToMessage(c)) == c.(executionMode := Wrap64(ToInt32(c.executionMode)), isBuiltinFunctionCall := false)
  {
    hide ToInt32, Wrap64;
  }

  lemma LowHalf(mode: uint64)
    ensures Wrap64(ToInt32(mode)) == 2 <==> mode % TWO_32 == 2
    ensures Wrap64(ToInt32(mode)) == 4 <==> mode % TWO_32 == 4
  {
  }

  predicate AllPortable(g: NativeGroup) {
    forall i :: 0 <= i < |g.calls| ==> Portable(g.calls[i].executionMode)
  }

  /** What survives of a group. */
  function Stored(g: NativeGroup): (r: NativeGroup)
    ensures |r.calls| == |g.calls|
    ensures forall i :: 0 <= i < |g.calls| ==> r.calls[i] == g.calls[i].(isBuiltinFunctionCall := false)
  {
    g.(calls := seq(|g.calls|, i requires 0 <= i < |g.calls| => g.calls[i].(isBuiltinFunctionCall := false)))
  }

  lemma GroupConversion(g: NativeGroup)
    ensures FromGroupMessage(ToGroupMessage(g)) == Stored(g) <==> AllPortable(g)
  {
    var r := FromGroupMessage(ToGroupMessage(g));
    forall i | 0 <= i < |g.calls|
      ensures r.calls[i] == Stored(g).calls[i] <==> Portable(g.calls[i].executionMode)
    {
      CallConversion(g.calls[i]);
    }
    if AllPortable(g) {
      assert r.calls == Stored(g).calls;
    }
  }

  /**
    The whole trip - convert, encode, decode, convert back - returns the group without its built-in
    flags, with the same answers to `IsRemote`, `GetCallbackName` and `GetTotalGas`, exactly when
    every execution mode fits the enumeration field.
   */
  lemma NativeRoundTrip(g: NativeGroup)
    requires |Messages.EncodeGroup(ToGroupMessage(g))| < TWO_63
    ensures var d := Messages.DecodeGroup(Messages.EncodeGroup(ToGroupMessage(g)), 0, Messages.EMPTY_GROUP);
            && d.err == None
            && (FromGroupMessage(d.msg) == Stored(g) <==> AllPortable(g))
            && (AllPortable(g) ==> forall i :: 0 <= i < |g.calls| ==> SameAnswers(FromGroupMessage(d.msg).calls[i], g.calls[i]))
  {
    hide Messages.EncodeGroup, Messages.DecodeGroup, FromGroupMessage, ToGroupMessage;
    Codec.GroupRoundTrip(ToGroupMessage(g));
    GroupConversion(g);
  }

  predicate SameAnswers(a: NativeCall, b: NativeCall) {
    && (a.IsRemote() <==> b.IsRemote())
    && a.GetCallbackName() == b.GetCallbackName()
    && a.GetTotalGas() == b.GetTotalGas()
  }

  /** `AsyncCall.toSerializable`. */
  method CallToSerializable(c: AsyncCall) returns (s: SerializableAsyncCall)
    ensures fresh(s) && s.Value() == ToMessage(c.Value())
  {
    hide ToInt32;
    s := new SerializableAsyncCall.Literal(Messages.CallValue(
      c.callID, c.status, ToInt32(c.executionMode), c.destination, c.data, c.gasLimit, c.gasLocked,
      c.valueBytes, c.successCallback, c.errorCallback, c.callbackClosure));
  }

  /** `AsyncCallGroup.toSerializable`: fresh messages, in the order of the calls. */
  method GroupToSerializable(g: AsyncCallGroup) returns (s: SerializableAsyncCallGroup)
    ensures fresh(s) && fresh(s.calls) && s.Value() == ToGroupMessage(g.Value())
  {
    hide NativeValues, Values, ToMessages;
    var out := CallsToSerializable(g.calls);
    s := new SerializableAsyncCallGroup.Literal(g.callback, g.gasLocked, g.callbackData, g.identifier, out);
  }

  method CallsToSerializable(cs: seq<AsyncCall>) returns (out: seq<SerializableAsyncCall>)
    ensures fresh(out) && Values(out) == ToMessages(NativeValues(cs))
  {
    hide *;
    out := [];
    for i := 0 to |cs|
      invariant |out| == i && fresh(out)
      invariant forall k :: 0 <= k < i ==> out[k].Value() == ToMessage(cs[k].Value())
    {
      var c := CallToSerializable(cs[i]);
      out := out + [c];
    }
  }

  /** `fromSerializableAsyncCalls`. */
  method CallsFromSerializable(cs: seq<SerializableAsyncCall>) returns (out: seq<AsyncCall>)
    ensures fresh(out) && NativeValues(out) == FromMessages(Values(cs))
  {
    hide *;
    out := [];
    for i := 0 to |cs|
      invariant |out| == i && fresh(out)
      invariant forall k :: 0 <= k < i ==> out[k].Value() == FromMessage(cs[k].Value())
    {
      var c := new AsyncCall(FromMessage(cs[i].Value()));
      out := out + [c];
    }
  }

  /** `SerializableAsyncCallGroup.fromSerializable`. */
  method GroupFromSerializable(s: SerializableAsyncCallGroup) returns (g: AsyncCallGroup)
    ensures fresh(g) && fresh(g.calls) && g.Value() == FromGroupMessage(s.Value())
  {
    hide NativeValues, Values, FromMessages;
    var calls := CallsFromSerializable(s.calls);
    g := new AsyncCallGroup.Literal(s.callback, s.gasLocked, s.callbackData, s.identifier, calls);
  }

  /** `ToSerializableAsyncCallGroups`. */
  method GroupsToSerializable(gs: seq<AsyncCallGroup>) returns (out: seq<SerializableAsyncCallGroup>)
    ensures |out| == |gs| && fresh(out)
    ensures forall i :: 0 <= i < |gs| ==> out[i].Value() == ToGroupMessage(gs[i].Value())
  {
    hide *;
    out := [];
    for i := 0 to |gs|
      invariant |out| == i && fresh(out)
      invariant forall k :: 0 <= k < i ==> out[k].Value() == ToGroupMessage(gs[k].Value())
    {
      var s := GroupToSerializable(gs[i]);
      out := out + [s];
    }
  }

  /** `FromSerializableAsyncCallGroups`. */
  method GroupsFromSerializable(ss: seq<SerializableAsyncCallGroup>) returns (out: seq<AsyncCallGroup>)
    ensures |out| == |ss| && fresh(out)
    ensures forall i :: 0 <= i < |ss| ==> out[i].Value() == FromGroupMessage(ss[i].Value())
  {
    hide *;
    out := [];
    for i := 0 to |ss|
      invariant |out| == i && fresh(out)
      invariant forall k :: 0 <= k < i ==> out[k].Value() == FromGroupMessage(ss[k].Value())
    {
      var g := GroupFromSerializable(ss[i]);
      out := out + [g];
    }
  }

  /** A message written to bytes and read back into a fresh one. */
  method WriteAndRead(s: SerializableAsyncCallGroup) returns (back: SerializableAsyncCallGroup)
    requires |Messages.EncodeGroup(s.Value())| < TWO_63
    ensures fresh(back) && back.Value() == s.Value()
  {
    hide *;
    var buf := s.Marshal();
    back := new SerializableAsyncCallGroup();
    Codec.GroupRoundTrip(s.Value());
    var err := back.Unmarshal(buf[..]);
  }

  method WriteAndReadAll(ss: seq<SerializableAsyncCallGroup>) returns (backs: seq<SerializableAsyncCallGroup>)
    requires forall i :: 0 <= i < |ss| ==> |Messages.EncodeGroup(ss[i].Value())| < TWO_63
    ensures |backs| == |ss| && fresh(backs)
    ensures forall i :: 0 <= i < |ss| ==> backs[i].Value() == ss[i].Value()
  {
    hide *;
    backs := [];
    for i := 0 to |ss|
      invariant |backs| == i && fresh(backs)
      invariant forall k :: 0 <= k < i ==> backs[k].Value() == ss[k].Value()
    {
      var back := WriteAndRead(ss[i]);
      backs := backs + [back];
    }
  }

  /** The code end to end: a list of groups is stored and loaded. */
  method StoreAndLoad(gs: seq<AsyncCallGroup>) returns (rs: seq<AsyncCallGroup>)
    requires forall i :: 0 <= i < |gs| ==> |Messages.EncodeGroup(ToGroupMessage(gs[i].Value()))| < TWO_63
    ensures |rs| == |gs| && fresh(rs)
    ensures forall i :: 0 <= i < |gs| ==> (rs[i].Value() == Stored(gs[i].Value()) <==> AllPortable(gs[i].Value()))
  {
    hide *;
    var ss := GroupsToSerializable(gs);
    var backs := WriteAndReadAll(ss);
    rs := GroupsFromSerializable(backs);
    forall i | 0 <= i < |gs| ensures rs[i].Value() == Stored(gs[i].Value()) <==> AllPortable(gs[i].Value()) {
      GroupConversion(gs[i].Value());
    }
  }
}
