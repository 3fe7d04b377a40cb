/**
  Loads and stores in a linear WASM memory. The requested end is computed with a saturating 32-bit
  addition; the lemmas say exactly when that gives the semantics of unbounded integers.
 */
module ExecutorMemory {
  import opened MachineIntegers
  import opened Options
  import opened Overflow

  datatype LoadResult = Loaded(bytes: seq<byte>) | LoadBadBounds | LoadNegativeLength

  datatype StoreError = BadBoundsLower | BadBoundsUpper

  /** `Offset`. */
  function Offset(memPtr: int32, offset: int32): int32 {
    AddInt32(memPtr, offset)
  }

  function Min(a: int, b: int): int {
    if a <= b then a else b
  }

  // ----- Semantics over unbounded integers -----

  /** The requested bytes, as far as the memory goes. */
  function ClampedLoad(memory: seq<byte>, p: int, n: int): LoadResult {
    if n == 0 then Loaded([])
    else if p < 0 || p > |memory| then LoadBadBounds
    else if n < 0 then LoadNegativeLength
    else Loaded(memory[p..Min(p + n, |memory|)])
  }

  /** The whole range is replaced, or nothing is. */
  function RangeStore(memory: seq<byte>, p: int, data: seq<byte>): (seq<byte>, Option<StoreError>) {
    if data == [] then (memory, None)
    else if p < 0 then (memory, Some(BadBoundsLower))
    else if p + |data| > |memory| then (memory, Some(BadBoundsUpper))
    else (memory[..p] + data + memory[p + |data|..], None)
  }

  // ----- Saturation -----

  /** The requested end saturated although the memory reaches beyond the largest `int32`. */
  predicate LoadCutShort(size: nat, p: int32, n: int32) {
    0 <= p && p + n > MAX_INT32 && size > MAX_INT32
  }

  /**
    The length of the data is cut to an `int32`. How many bytes are then stored: none for a length that
    becomes zero, otherwise as far as the saturated end allows.
   */
  function Reach(p: int32, n: nat): int {
    if ToInt32(n) == 0 then 0 else Min(p + ToInt32(n), MAX_INT32) - p
  }

  /** Fewer bytes than there are would be stored, without an error. */
  predicate StoreCutShort(size: nat, p: int32, n: nat) {
    n > 0 && (ToInt32(n) == 0 || (0 <= p && 0 <= Reach(p, n) < n && p + Reach(p, n) <= size))
  }

  /** The length became negative, and the end that follows from it passes the check: slicing panics. */
  predicate StorePanics(size: nat, p: int32, n: nat) {
    0 <= p && ToInt32(n) < 0 && ToUint32(p + ToInt32(n)) <= size
  }

  /** A clamped load, which saturation may end at the largest `int32`. */
  function LoadOutcome(memory: seq<byte>, p: int32, n: int32): LoadResult {
    if LoadCutShort(|memory|, p, n) then Loaded(memory[p..MAX_INT32]) else ClampedLoad(memory, p, n)
  }

  /** A range store, of which a part only may be stored. */
  function StoreOutcome(memory: seq<byte>, p: int32, data: seq<byte>): (seq<byte>, Option<StoreError>) {
    if !StoreCutShort(|memory|, p, |data|) then RangeStore(memory, p, data) else PartStore(memory, p, data, Reach(p, |data|))
  }

  function PartStore(memory: seq<byte>, p: int32, data: seq<byte>, n: nat): (seq<byte>, Option<StoreError>)
    requires n <= |data| && (n == 0 || (0 <= p && p + n <= |memory|))
  {
    (if n == 0 then memory else memory[..p] + data[..n] + memory[p + n..], None)
  }

  // ----- The code -----

  method MemLoadFromMemory(memory: array<byte>, memPtr: int32, length: int32) returns (r: LoadResult)
    requires memory.Length < TWO_32
    ensures !LoadCutShort(memory.Length, memPtr, length) ==> r == ClampedLoad(memory[..], memPtr, length)
    ensures LoadCutShort(memory.Length, memPtr, length) ==> r == Loaded(memory[..][memPtr..MAX_INT32])
  {
    if length == 0 { return Loaded([]); }
    var memoryLength := memory.Length;
    var requestedEnd := Offset(memPtr, length);
    var isOffsetTooSmall := memPtr < 0;
    var isOffsetTooLarge := ToUint32(memPtr) > memoryLength;
    var isRequestedEndTooLarge := ToUint32(requestedEnd) > memoryLength;
    if isOffsetTooSmall || isOffsetTooLarge { return LoadBadBounds; }
    if length < 0 { return LoadNegativeLength; }
    var size := (if isRequestedEndTooLarge then memoryLength else requestedEnd) - memPtr;
    var result := new byte[size];
    forall k | 0 <= k < size { result[k] := memory[memPtr + k]; }
    assert result[..] == memory[..][memPtr..memPtr + size];
    return Loaded(result[..]);
  }

  method MemStoreToMemory(memory: array<byte>, memPtr: int32, data: seq<byte>) returns (err: Option<StoreError>)
    requires memory.Length < TWO_32 && !StorePanics(memory.Length, memPtr, |data|)
    modifies memory
    ensures !StoreCutShort(memory.Length, memPtr, |data|) ==>
      (memory[..], err) == RangeStore(old(memory[..]), memPtr, data)
    ensures StoreCutShort(memory.Length, memPtr, |data|) ==>
      (memory[..], err) == PartStore(old(memory[..]), memPtr, data, Reach(memPtr, |data|))
  {
    hide Offset, ToInt32, ToUint32, Reach, StorePanics, StoreCutShort;
    ghost var before := memory[..];
    var dataLength := ToInt32(|data|);
    if memPtr >= 0 && dataLength != 0 { StoreCases(memory.Length, memPtr, |data|); }
    EarlyCases(memory.Length, memPtr, |data|);
    if dataLength == 0 { return None; }
    var requestedEnd := Offset(memPtr, dataLength);
    if memPtr < 0 { return Some(BadBoundsLower); }
    if ToUint32(requestedEnd) > memory.Length { return Some(BadBoundsUpper); }
    forall k | memPtr <= k < requestedEnd { memory[k] := data[k - memPtr]; }
    assert memory[..] == before[..memPtr] + data[..requestedEnd - memPtr] + before[requestedEnd..];
    assert data[..|data|] == data && before == before[..memPtr] + [] + before[memPtr..];
    return None;
  }

  /** The check on the end, for a pointer and a cut length that are not rejected before. */
  lemma StoreCases(size: nat, p: int32, n: nat)
    requires 0 <= p && ToInt32(n) != 0 && size < TWO_32 && !StorePanics(size, p, n)
    ensures var end := Offset(p, ToInt32(n));
            && (ToUint32(end) <= size ==>
                  && end == p + Reach(p, n) && 0 <= Reach(p, n) <= n && end <= size
                  && (StoreCutShort(size, p, n) <==> Reach(p, n) < n))
            && (ToUint32(end) > size ==> !StoreCutShort(size, p, n) && p + n > size)
  {
    LengthCut(n);
  }

  lemma EarlyCases(size: nat, p: int32, n: nat)
    ensures ToInt32(n) == 0 ==> Reach(p, n) == 0 && (StoreCutShort(size, p, n) <==> n > 0)
    ensures ToInt32(n) != 0 && p < 0 ==> !StoreCutShort(size, p, n)
    ensures n == 0 ==> ToInt32(n) == 0
  {
  }

  lemma LengthCut(n: nat)
    ensures n < TWO_31 ==> ToInt32(n) == n
    ensures n >= TWO_31 ==> ToInt32(n) + TWO_32 <= n
  {
  }

  // ----- Exactly when the code meets the semantics -----

  /** A load is the clamped load on unbounded integers, unless saturation cuts it short. */
  lemma LoadIsClamped(memory: seq<byte>, p: int32, n: int32)
    ensures LoadOutcome(memory, p, n) == ClampedLoad(memory, p, n) <==> !LoadCutShort(|memory|, p, n)
  {
    if LoadCutShort(|memory|, p, n) {
      assert |memory[p..MAX_INT32]| < Min(p + n, |memory|) - p;
    }
  }

  /** The last byte of a memory of 2^31 bytes is not loaded. */
  lemma LastByteIsLost(memory: seq<byte>)
    requires |memory| == TWO_31
    ensures LoadOutcome(memory, MAX_INT32, 1) == Loaded([])
    ensures ClampedLoad(memory, MAX_INT32, 1) == Loaded([memory[MAX_INT32]])
  {
  }

  /** For contents of given lengths, stores are range stores exactly when they are not cut short. */
  lemma StoreIsRangeStore(size: nat, p: int32, n: nat)
    ensures !StoreCutShort(size, p, n) <==>
      forall memory: seq<byte>, data: seq<byte> :: |memory| == size && |data| == n ==>
        StoreOutcome(memory, p, data) == RangeStore(memory, p, data)
  {
    if StoreCutShort(size, p, n) {
      CutShortStoreIsWrong(size, p, n);
    }
  }

  /** Wherever a store is cut short, some contents are stored wrongly. */
  lemma CutShortStoreIsWrong(size: nat, p: int32, n: nat)
    requires StoreCutShort(size, p, n)
    ensures exists memory: seq<byte>, data: seq<byte> ::
      |memory| == size && |data| == n && StoreOutcome(memory, p, data) != RangeStore(memory, p, data)
  {
    var memory: seq<byte> := seq(size, _ => 0);
    var data: seq<byte> := seq(n, _ => 1);
    var m := Reach(p, n);
    var (after, err) := StoreOutcome(memory, p, data);
    assert err == None;
    if 0 <= p && p + n <= size {
      var ideal := RangeStore(memory, p, data).0;
      assert ideal[p + m] == data[m] == 1;
      assert after[p + m] == memory[p + m] == 0;
    }
    assert StoreOutcome(memory, p, data) != RangeStore(memory, p, data);
  }

  /** What was stored is loaded back exactly when the store was not cut short. */
  lemma LoadAfterStore(memory: seq<byte>, p: int32, data: seq<byte>)
    requires 0 < |data| < TWO_31 && StoreOutcome(memory, p, data).1 == None
    ensures var after := StoreOutcome(memory, p, data).0;
            |after| == |memory| && (LoadOutcome(after, p, |data|) == Loaded(data) <==> !StoreCutShort(|memory|, p, |data|))
  {
    LengthCut(|data|);
    var after := StoreOutcome(memory, p, data).0;
    if StoreCutShort(|memory|, p, |data|) {
      assert |LoadOutcome(after, p, |data|).bytes| <= MAX_INT32 - p < |data|;
    } else {
      assert after[p..p + |data|] == data;
    }
  }

  /** A store leaves every load that does not touch its range unchanged. */
  lemma StoreLeavesOthers(memory: seq<byte>, p: int32, data: seq<byte>, q: int32, n: int32)
    requires 0 <= q && 0 <= n && (q + n <= p || p + |data| <= q)
    ensures LoadOutcome(StoreOutcome(memory, p, data).0, q, n) == LoadOutcome(memory, q, n)
  {
    var after := StoreOutcome(memory, p, data).0;
    assert |after| == |memory|;
    if q <= |memory| {
      assert after[q..Min(q + n, |memory|)] == memory[q..Min(q + n, |memory|)];
      if LoadCutShort(|memory|, q, n) {
        assert after[q..MAX_INT32] == memory[q..MAX_INT32];
      }
    }
  }
}
