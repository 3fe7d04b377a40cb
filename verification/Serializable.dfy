/**
  The protobuf message objects: the writer that fills a buffer from its end, and the reader that
  moves a cursor over its input and updates the message in place. Both are proved against the
  value-level definitions of `Messages`.
 */
module Serializable {
  import opened MachineIntegers
  import opened Options
  import opened Varint
  import opened Wire
  import opened Messages
  import opened Codec

  // ----- Writing backwards -----

  lemma PatchBefore(buf: seq<byte>, lo: nat, piece: seq<byte>, mid: nat, done: seq<byte>)
    requires lo + |piece| == mid && mid + |done| <= |buf|
    ensures Patch(Patch(buf, mid, done), lo, piece) == Patch(buf, lo, piece + done)
  {
  }

  /** `copy(dAtA[at:], b)`. */
  method CopyInto(buf: array<byte>, at: nat, b: seq<byte>)
    requires at + |b| <= buf.Length
    modifies buf
    ensures buf[..] == Patch(old(buf[..]), at, b)
  {
    forall k | 0 <= k < |b| {
      buf[at + k] := b[k];
    }
  }

  method WriteByte(buf: array<byte>, end: nat, b: byte) returns (at: nat)
    requires 0 < end <= buf.Length
    modifies buf
    ensures at + 1 == end && buf[..] == Patch(old(buf[..]), at, [b])
  {
    at := end - 1;
    buf[at] := b;
  }

  /** A length-delimited field, written so that it ends at `end`; an empty one is omitted. */
  method WriteBytes(buf: array<byte>, end: nat, tag: byte, b: seq<byte>) returns (at: nat)
    requires |b| < TWO_63 && |BytesPart(tag, b)| <= end <= buf.Length
    modifies buf
    ensures at + |BytesPart(tag, b)| == end
    ensures buf[..] == Patch(old(buf[..]), at, BytesPart(tag, b))
  {
    hide Patch, Encoding;
    if |b| > 0 {
      at := WriteDelimited(buf, end, tag, b);
    } else {
      at := end;
      PatchNothing(buf[..], end);
    }
  }

  method WriteDelimited(buf: array<byte>, end: nat, tag: byte, b: seq<byte>) returns (at: nat)
    requires |b| < TWO_63 && 1 + |Encoding(|b|)| + |b| <= end <= buf.Length
    modifies buf
    ensures at + 1 + |Encoding(|b|)| + |b| == end
    ensures buf[..] == Patch(old(buf[..]), at, [tag] + (Encoding(|b|) + b))
  {
    hide Patch, Encoding, SizeOfVarint;
    ghost var before := buf[..];
    CopyInto(buf, end - |b|, b);
    at := WritePrefix(buf, end - |b|, tag, |b|);
    PatchBefore(before, at, [tag] + Encoding(|b|), end - |b|, b);
    assert [tag] + Encoding(|b|) + b == [tag] + (Encoding(|b|) + b);
  }

  /** The tag and length that precede a payload starting at `end`. */
  method WritePrefix(buf: array<byte>, end: nat, tag: byte, v: uint64) returns (at: nat)
    requires 1 + |Encoding(v)| <= end <= buf.Length
    modifies buf
    ensures at + 1 + |Encoding(v)| == end
    ensures buf[..] == Patch(old(buf[..]), at, [tag] + Encoding(v))
  {
    hide Patch, Encoding, SizeOfVarint;
    ghost var before := buf[..];
    SizeIsEncodingLength(v);
    var mid := EncodeVarint(buf, end, v);
    at := WriteByte(buf, mid, tag);
    PatchBefore(before, at, [tag], mid, Encoding(v));
  }

  method WriteNumber(buf: array<byte>, end: nat, tag: byte, v: uint64) returns (at: nat)
    requires |NumberPart(tag, v)| <= end <= buf.Length
    modifies buf
    ensures at + |NumberPart(tag, v)| == end
    ensures buf[..] == Patch(old(buf[..]), at, NumberPart(tag, v))
  {
    hide Patch, Encoding;
    if v != 0 {
      at := WritePrefix(buf, end, tag, v);
    } else {
      at := end;
      PatchNothing(buf[..], end);
    }
  }

  class SerializableAsyncCall {
    var callID: seq<byte>
    var status: int32
    var executionMode: int32
    var destination: seq<byte>
    var data: seq<byte>
    var gasLimit: uint64
    var gasLocked: uint64
    var valueBytes: seq<byte>
    var successCallback: seq<byte>
    var errorCallback: seq<byte>
    var callbackClosure: seq<byte>

    function Value(): CallValue
      reads this
    {
      CallValue(callID, status, executionMode, destination, data, gasLimit, gasLocked, valueBytes,
                successCallback, errorCallback, callbackClosure)
    }

    constructor ()
      ensures Value() == EMPTY_CALL
    {
      callID, status, executionMode, destination, data := [], 0, 0, [], [];
      gasLimit, gasLocked, valueBytes := 0, 0, [];
      successCallback, errorCallback, callbackClosure := [], [], [];
    }

    constructor Literal(v: CallValue)
      ensures Value() == v
    {
      callID, status, executionMode, destination, data := v.callID, v.status, v.executionMode, v.destination, v.data;
      gasLimit, gasLocked, valueBytes := v.gasLimit, v.gasLocked, v.valueBytes;
      successCallback, errorCallback, callbackClosure := v.successCallback, v.errorCallback, v.callbackClosure;
    }

    /**
      `MarshalToSizedBuffer(buf[:end])`: the encoding is written in place so that it ends at `end`,
      and no other byte changes.
     */
    method MarshalToSizedBuffer(buf: array<byte>, end: nat) returns (n: nat)
      requires |EncodeCall(Value())| <= end <= buf.Length < TWO_63
      modifies buf
      ensures n == |EncodeCall(Value())|
      ensures buf[..] == Patch(old(buf[..]), end - n, EncodeCall(Value()))
    {
      hide Patch, BytesPart, NumberPart;
      ghost var before := buf[..];
      ghost var v := Value();
      ghost var head := CallHead(v);
      CallSplit(v);
      var i := MarshalTail(buf, end);
      i := MarshalHead(buf, i);
      PatchBefore(before, i, head, i + |head|, CallTail(v));
      n := end - i;
    }

    method MarshalTail(buf: array<byte>, end: nat) returns (i: nat)
      requires |CallTail(Value())| <= end <= buf.Length < TWO_63
      modifies buf
      ensures i + |CallTail(Value())| == end
      ensures buf[..] == Patch(old(buf[..]), i, CallTail(Value()))
    {
      hide Patch, BytesPart, NumberPart;
      ghost var before := buf[..];
      BytesPartHolds(0x62, callbackClosure);
      BytesPartHolds(0x5a, errorCallback);
      BytesPartHolds(0x52, successCallback);
      BytesPartHolds(0x4a, valueBytes);
      ghost var j, t;
      i := WriteBytes(buf, end, 0x62, callbackClosure);
      t, j := BytesPart(0x62, callbackClosure), i;
      i := WriteBytes(buf, i, 0x5a, errorCallback);
      PatchBefore(before, i, BytesPart(0x5a, errorCallback), j, t);
      t, j := BytesPart(0x5a, errorCallback) + t, i;
      i := WriteBytes(buf, i, 0x52, successCallback);
      PatchBefore(before, i, BytesPart(0x52, successCallback), j, t);
      t, j := BytesPart(0x52, successCallback) + t, i;
      i := WriteBytes(buf, i, 0x4a, valueBytes);
      PatchBefore(before, i, BytesPart(0x4a, valueBytes), j, t);
      t, j := BytesPart(0x4a, valueBytes) + t, i;
      i := WriteNumber(buf, i, 0x40, gasLocked);
      PatchBefore(before, i, NumberPart(0x40, gasLocked), j, t);
      t, j := NumberPart(0x40, gasLocked) + t, i;
      i := WriteNumber(buf, i, 0x38, gasLimit);
      PatchBefore(before, i, NumberPart(0x38, gasLimit), j, t);
    }

    method MarshalHead(buf: array<byte>, end: nat) returns (i: nat)
      requires |CallHead(Value())| <= end <= buf.Length < TWO_63
      modifies buf
      ensures i + |CallHead(Value())| == end
      ensures buf[..] == Patch(old(buf[..]), i, CallHead(Value()))
    {
      hide Patch, BytesPart, NumberPart;
      ghost var before := buf[..];
      BytesPartHolds(0x32, data);
      BytesPartHolds(0x2a, destination);
      BytesPartHolds(0x0a, callID);
      ghost var j, t;
      i := WriteBytes(buf, end, 0x32, data);
      t, j := BytesPart(0x32, data), i;
      i := WriteBytes(buf, i, 0x2a, destination);
      PatchBefore(before, i, BytesPart(0x2a, destination), j, t);
      t, j := BytesPart(0x2a, destination) + t, i;
      i := WriteNumber(buf, i, 0x18, Unsigned(executionMode));
      PatchBefore(before, i, NumberPart(0x18, Unsigned(executionMode)), j, t);
      t, j := NumberPart(0x18, Unsigned(executionMode)) + t, i;
      i := WriteNumber(buf, i, 0x10, Unsigned(status));
      PatchBefore(before, i, NumberPart(0x10, Unsigned(status)), j, t);
      t, j := NumberPart(0x10, Unsigned(status)) + t, i;
      i := WriteBytes(buf, i, 0x0a, callID);
      PatchBefore(before, i, BytesPart(0x0a, callID), j, t);
    }

    /** The `switch` cases that replace a length-delimited field; `at` is the cursor after the tag. */
    method UnmarshalBlob(input: seq<byte>, at: nat, num: int32) returns (r: Result<nat>)
      requires at <= |input| < TWO_63 && KindOf(CallSchema, num) == BytesKind
      modifies this
      ensures match ReadBytes(input[at..], at)
              case Ok((b, n)) => r == Ok(n) && Value() == SetCall(old(Value()), num, Blob(b))
              case Err(e) => r == Err(e) && Value() == old(Value())
    {
      hide ReadBytes;
      var d := DecodeBytes(input, at);
      if d.Err? { return Err(d.err); }
      var (b, n) := d.value;
      match num {
        case 1 => callID := b;
        case 5 => destination := b;
        case 6 => data := b;
        case 9 => valueBytes := b;
        case 10 => successCallback := b;
        case 11 => errorCallback := b;
        case _ => callbackClosure := b;
      }
      return Ok(n);
    }

    /** The `switch` cases that accumulate a number in place, and leave it half read on an error. */
    method UnmarshalNumber(input: seq<byte>, at: nat, num: int32) returns (r: Result<nat>)
      requires at <= |input| && KindOf(CallSchema, num) == NumberKind
      modifies this
      ensures match ReadVarint(input[at..])
              case Read(v, n) => r == Ok(n) && Value() == SetCall(old(Value()), num, Number(v))
              case Broken(e, p) => r == Err(e) && Value() == SetCall(old(Value()), num, Number(p))
    {
      hide ReadVarint, ToInt32;
      if num == 2 || num == 3 {
        var e := DecodeEnum(input, at);
        var x := if e.EnumValue? then e.value else e.partial;
        if num == 2 { status := x; } else { executionMode := x; }
        return if e.EnumValue? then Ok(e.len) else Err(e.err);
      } else {
        var d := DecodeVarint(input, at);
        var x := if d.Read? then d.value else d.partial;
        if num == 7 { gasLimit := x; } else { gasLocked := x; }
        return if d.Read? then Ok(d.len) else Err(d.err);
      }
    }

    /** `Unmarshal`: message and error are exactly those of `DecodeCall`, failing runs included. */
    method Unmarshal(input: seq<byte>) returns (err: Option<Error>)
      requires |input| < TWO_63
      modifies this
      ensures Decoded(Value(), err) == DecodeCall(input, 0, old(Value()))
    {
      hide DecodeCall, ReadVarint, ReadTagged, SetCall, ReadBytes, SkipFrom, FieldNumber, WireType, Value;
      ghost var start := Value();
      var i := 0;
      assert input[0..] == input;
      while i < |input|
        invariant 0 <= i <= |input|
        invariant DecodeCall(input, 0, start) == DecodeCall(input[i..], i, Value())
      {
        ghost var m := Value();
        ghost var field := ReadField(CallSchema, input[i..], i);
        CallTurn(input, i, m);
        var tag := DecodeVarint(input, i);
        if tag.Broken? { return Some(tag.err); }
        var at, num, wireType := i + tag.len, FieldNumber(tag.value), WireType(tag.value);
        assert input[i..][tag.len..] == input[at..];
        TaggedCases(CallSchema, input, i, tag.value, tag.len);
        if wireType == 4 { return Some(EndGroupForNonGroup); }
        if num <= 0 { return Some(IllegalTag(num)); }
        match KindOf(CallSchema, num) {
          case BytesKind =>
            if wireType != 2 { return Some(WrongWireType(num, wireType)); }
            var r := UnmarshalBlob(input, at, num);
            if r.Err? { return Some(r.err); }
            i := at + r.value;
          case NumberKind =>
            if wireType != 0 { return Some(WrongWireType(num, wireType)); }
            var r := UnmarshalNumber(input, at, num);
            if r.Err? { return Some(r.err); }
            i := at + r.value;
          case UnknownKind =>
            var r := SkipUnknown(input, i);
            if r.Err? { return Some(r.err); }
            i := i + r.value;
        }
      }
      assert input[i..] == [];
      DecodeCallEnd(i, Value());
      return None;
    }
  }

  ghost function CallHead(m: CallValue): seq<byte> {
    BytesPart(0x0a, m.callID)
    + (NumberPart(0x10, Unsigned(m.status))
    + (NumberPart(0x18, Unsigned(m.executionMode))
    + (BytesPart(0x2a, m.destination)
    + BytesPart(0x32, m.data))))
  }

  lemma CallSplit(m: CallValue)
    ensures EncodeCall(m) == CallHead(m) + CallTail(m)
  {
    hide BytesPart, NumberPart;
  }

  // ----- Reading -----

  /** The inlined code that reads a length and slices the payload. */
  method DecodeBytes(input: seq<byte>, at: nat) returns (r: Result<(seq<byte>, nat)>)
    requires at <= |input| < TWO_63
    ensures r == ReadBytes(input[at..], at)
  {
    hide ReadVarint;
    var d := DecodeVarint(input, at);
    if d.Broken? { return Err(d.err); }
    var length := ToInt64(d.value);
    if length < 0 { return Err(InvalidLength); }
    var begin := at + d.len;
    var postIndex := ToInt64(begin + length);
    WrappedIndex(begin + length);
    if postIndex < 0 { return Err(InvalidLength); }
    if postIndex > |input| { return Err(UnexpectedEOF); }
    assert input[at..][d.len..d.len + length] == input[begin..postIndex];
    return Ok((input[begin..postIndex], d.len + length));
  }

  /** The `default` case: skip from the tag, then check the new cursor. */
  method SkipUnknown(input: seq<byte>, i: nat) returns (r: Result<nat>)
    requires i < |input| < TWO_63
    ensures r == match SkipFrom(input[i..], 0, 0)
                 case Err(e) => Err(e)
                 case Ok(n) =>
                   if i + n >= TWO_63 then Err(InvalidLength)
                   else if i + n > |input| then Err(UnexpectedEOF)
                   else Ok(n)
  {
    hide SkipFrom;
    r := SkipAsyncCall(input[i..]);
    if r.Err? { return; }
    WrappedIndex(i + r.value);
    if ToInt64(i + r.value) < 0 { return Err(InvalidLength); }
    if ToInt64(i + r.value) > |input| { return Err(UnexpectedEOF); }
  }

  /** One turn of the call decoder. */
  lemma CallTurn(input: seq<byte>, i: nat, m: CallValue)
    requires i < |input|
    ensures var s := input[i..];
            DecodeCall(s, i, m) ==
            match ReadField(CallSchema, s, i)
            case Field(num, d, n) => DecodeCall(input[i + n..], i + n, SetCall(m, num, d))
            case Ignored(n) => DecodeCall(input[i + n..], i + n, m)
            case NumberBroken(num, p, e) => Decoded(SetCall(m, num, Number(p)), Some(e))
            case Stopped(e) => Decoded(m, Some(e))
  {
    hide ReadField, SetCall;
    var r := ReadField(CallSchema, input[i..], i);
    if r.Consumed?() {
      assert input[i..][r.n..] == input[i + r.n..];
    }
  }

  /** What one turn does after the tag, on the whole input. */
  lemma TaggedCases(schema: Schema, input: seq<byte>, i: nat, wire: uint64, k: nat)
    requires i < |input| && 1 <= k && i + k <= |input|
    ensures var num, wireType := FieldNumber(wire), WireType(wire);
            ReadTagged(schema, input[i..], i, wire, k) ==
            if wireType == 4 then Stopped(EndGroupForNonGroup)
            else if num <= 0 then Stopped(IllegalTag(num))
            else
              match KindOf(schema, num)
              case BytesKind =>
                if wireType != 2 then Stopped(WrongWireType(num, wireType))
                else (match ReadBytes(input[i + k..], i + k)
                      case Ok((payload, n)) => Field(num, Blob(payload), k + n)
                      case Err(e) => Stopped(e))
              case NumberKind =>
                if wireType != 0 then Stopped(WrongWireType(num, wireType))
                else (match ReadVarint(input[i + k..])
                      case Read(v, n) => Field(num, Number(v), k + n)
                      case Broken(e, p) => NumberBroken(num, p, e))
              case UnknownKind =>
                match SkipFrom(input[i..], 0, 0)
                case Err(e) => Stopped(e)
                case Ok(n) =>
                  if i + n >= TWO_63 then Stopped(InvalidLength)
                  else if i + n > |input| then Stopped(UnexpectedEOF)
                  else Ignored(n)
  {
    hide ReadVarint, ReadBytes, SkipFrom, KindOf, FieldNumber, WireType;
    assert input[i..][k..] == input[i + k..];
  }

  // ----- Groups -----

  function Values(cs: seq<SerializableAsyncCall>): (vs: seq<CallValue>)
    reads cs
    ensures |vs| == |cs| && forall i :: 0 <= i < |cs| ==> vs[i] == cs[i].Value()
  {
    if cs == [] then [] else Values(cs[..|cs| - 1]) + [cs[|cs| - 1].Value()]
  }

  lemma {:induction false} CallPartsSuffix(cs: seq<CallValue>, k: nat)
    requires k <= |cs|
    ensures |CallParts(cs[k..])| <= |CallParts(cs)|
    decreases k
  {
    hide CallPart;
    if k > 0 {
      CallPartsSuffix(cs[1..], k - 1);
      assert cs[1..][k - 1..] == cs[k..];
    } else {
      assert cs[0..] == cs;
    }
  }

  lemma CallPartsFrom(cs: seq<CallValue>, k: nat)
    requires k < |cs|
    ensures CallParts(cs[k..]) == CallPart(cs[k]) + CallParts(cs[k + 1..])
  {
    hide CallPart;
    assert cs[k..][1..] == cs[k + 1..];
  }

  class SerializableAsyncCallGroup {
    var callback: seq<byte>
    var gasLocked: uint64
    var callbackData: seq<byte>
    var identifier: seq<byte>
    var calls: seq<SerializableAsyncCall>

    function Value(): GroupValue
      reads this, calls
    {
      GroupValue(callback, gasLocked, callbackData, identifier, Values(calls))
    }

    constructor ()
      ensures Value() == EMPTY_GROUP
    {
      callback, gasLocked, callbackData, identifier, calls := [], 0, [], [], [];
    }

    constructor Literal(callback: seq<byte>, gasLocked: uint64, callbackData: seq<byte>, identifier: seq<byte>,
                        calls: seq<SerializableAsyncCall>)
      ensures this.callback == callback && this.gasLocked == gasLocked && this.callbackData == callbackData
      ensures this.identifier == identifier && this.calls == calls
    {
      this.callback, this.gasLocked, this.callbackData := callback, gasLocked, callbackData;
      this.identifier, this.calls := identifier, calls;
    }

    /** `Size`: the loop over the nested calls adds up the length of the encoding. */
    method Size() returns (n: nat)
      requires |EncodeGroup(Value())| < TWO_63
      ensures n == |EncodeGroup(Value())|
    {
      hide BytesSize, NumberSize, SizeCall, SizeOfVarint, EncodeGroup;
      ghost var vs := Values(calls);
      n := BytesSize(callback) + NumberSize(gasLocked) + BytesSize(callbackData) + BytesSize(identifier);
      ghost var scalars := n;
      assert vs[0..] == vs;
      for k := 0 to |calls|
        invariant n + SizeCalls(vs[k..]) == scalars + SizeCalls(vs)
      {
        assert vs[k..][1..] == vs[k + 1..];
        var l := SizeCall(calls[k].Value());
        n := n + 1 + l + SizeOfVarint(Wrap64(l));
      }
      SizeOfGroup(Value());
    }

    /** `MarshalToSizedBuffer(buf[:end])`. */
    method MarshalToSizedBuffer(buf: array<byte>, end: nat) returns (n: nat)
      requires |EncodeGroup(Value())| <= end <= buf.Length < TWO_63
      modifies buf
      ensures n == |EncodeGroup(Value())|
      ensures buf[..] == Patch(old(buf[..]), end - n, EncodeGroup(Value()))
    {
      hide Patch, BytesPart, NumberPart, CallParts, Values;
      ghost var before := buf[..];
      ghost var v := Value();
      var i := MarshalCalls(buf, end);
      ghost var mid := i;
      i := MarshalScalars(buf, i);
      PatchBefore(before, i, GroupHead(v), mid, CallParts(v.calls));
      GroupSplit(v);
      n := end - i;
    }

    /** The fields before the nested calls, the last one first. */
    method MarshalScalars(buf: array<byte>, end: nat) returns (i: nat)
      requires |GroupHead(Value())| <= end <= buf.Length < TWO_63
      modifies buf
      ensures i + |GroupHead(Value())| == end
      ensures buf[..] == Patch(old(buf[..]), i, GroupHead(Value()))
    {
      hide Patch, BytesPart, NumberPart, Values;
      ghost var before := buf[..];
      BytesPartHolds(0x22, identifier);
      BytesPartHolds(0x1a, callbackData);
      BytesPartHolds(0x0a, callback);
      ghost var j, t;
      i := WriteBytes(buf, end, 0x22, identifier);
      t, j := BytesPart(0x22, identifier), i;
      i := WriteBytes(buf, i, 0x1a, callbackData);
      PatchBefore(before, i, BytesPart(0x1a, callbackData), j, t);
      t, j := BytesPart(0x1a, callbackData) + t, i;
      i := WriteNumber(buf, i, 0x10, gasLocked);
      PatchBefore(before, i, NumberPart(0x10, gasLocked), j, t);
      t, j := NumberPart(0x10, gasLocked) + t, i;
      i := WriteBytes(buf, i, 0x0a, callback);
      PatchBefore(before, i, BytesPart(0x0a, callback), j, t);
    }

    /** The loop that writes the nested calls, the last one first. */
    method MarshalCalls(buf: array<byte>, end: nat) returns (i: nat)
      requires |CallParts(Values(calls))| <= end <= buf.Length < TWO_63
      modifies buf
      ensures i + |CallParts(Values(calls))| == end
      ensures buf[..] == Patch(old(buf[..]), i, CallParts(Values(calls)))
    {
      hide Patch, CallParts, EncodeCall, Encoding;
      ghost var before := buf[..];
      ghost var vs := Values(calls);
      i := end;
      assert vs[|calls|..] == [];
      NoCallParts();
      PatchNothing(before, end);
      for k := |calls| downto 0
        invariant i + |CallParts(vs[k..])| == end
        invariant buf[..] == Patch(before, i, CallParts(vs[k..]))
      {
        CallPartsFrom(vs, k);
        CallPartsSuffix(vs, k);
        ghost var j := i;
        i := MarshalCall(calls[k], buf, i);
        PatchBefore(before, i, CallPart(vs[k]), j, CallParts(vs[k + 1..]));
      }
      assert vs[0..] == vs;
    }

    /** `Marshal`: a buffer of exactly `Size()` bytes, filled down to index 0. */
    method Marshal() returns (buf: array<byte>)
      requires |EncodeGroup(Value())| < TWO_63
      ensures fresh(buf) && buf[..] == EncodeGroup(Value())
    {
      hide EncodeGroup;
      var size := Size();
      buf := new byte[size];
      var n := MarshalToSizedBuffer(buf, size);
    }

    /** Field 5: a fresh call is appended first and then decoded into. */
    method UnmarshalCall(b: seq<byte>) returns (err: Option<Error>)
      requires |b| < TWO_63
      modifies this
      ensures |calls| == |old(calls)| + 1 && calls[..|old(calls)|] == old(calls) && fresh(calls[|old(calls)|])
      ensures Decoded(Value(), err) == SetGroup(old(Value()), 5, Blob(b))
    {
      hide DecodeCall;
      var call := new SerializableAsyncCall();
      ghost var earlier := calls;
      calls := calls + [call];
      err := call.Unmarshal(b);
      assert calls[..|calls| - 1] == earlier;
    }

    method UnmarshalBlob(input: seq<byte>, at: nat, num: int32) returns (r: Result<nat>)
      requires at <= |input| < TWO_63 && KindOf(GroupSchema, num) == BytesKind
      modifies this
      ensures |old(calls)| <= |calls| && calls[..|old(calls)|] == old(calls)
      ensures forall k :: |old(calls)| <= k < |calls| ==> fresh(calls[k])
      ensures match ReadBytes(input[at..], at)
              case Ok((b, n)) =>
                var d := SetGroup(old(Value()), num, Blob(b));
                Value() == d.msg && r == (if d.err.Some? then Err(d.err.value) else Ok(n))
              case Err(e) => r == Err(e) && Value() == old(Value())
    {
      hide ReadBytes, SetGroup, Value;
      var d := DecodeBytes(input, at);
      if d.Err? { return Err(d.err); }
      var (b, n) := d.value;
      ReadBytesLength(input[at..], at);
      var err := SetBlob(num, b);
      return if err.Some? then Err(err.value) else Ok(n);
    }

    /** The `switch` cases that store a length-delimited field. */
    method SetBlob(num: int32, b: seq<byte>) returns (err: Option<Error>)
      requires |b| < TWO_63 && KindOf(GroupSchema, num) == BytesKind
      modifies this
      ensures |old(calls)| <= |calls| && calls[..|old(calls)|] == old(calls)
      ensures forall k :: |old(calls)| <= k < |calls| ==> fresh(calls[k])
      ensures Decoded(Value(), err) == SetGroup(old(Value()), num, Blob(b))
    {
      hide DecodeCall;
      err := None;
      match num {
        case 1 => callback := b;
        case 3 => callbackData := b;
        case 4 => identifier := b;
        case _ => err := UnmarshalCall(b);
      }
    }

    method UnmarshalNumber(input: seq<byte>, at: nat) returns (r: Result<nat>)
      requires at <= |input|
      modifies this`gasLocked
      ensures match ReadVarint(input[at..])
              case Read(v, n) => r == Ok(n) && Value() == SetGroup(old(Value()), 2, Number(v)).msg
              case Broken(e, p) => r == Err(e) && Value() == SetGroup(old(Value()), 2, Number(p)).msg
    {
      hide ReadVarint;
      var d := DecodeVarint(input, at);
      gasLocked := if d.Read? then d.value else d.partial;
      return if d.Read? then Ok(d.len) else Err(d.err);
    }

    /** `Unmarshal`: calls already present stay, new ones are appended in input order. */
    method Unmarshal(input: seq<byte>) returns (err: Option<Error>)
      requires |input| < TWO_63
      modifies this
      ensures |old(calls)| <= |calls| && calls[..|old(calls)|] == old(calls)
      ensures forall k :: |old(calls)| <= k < |calls| ==> fresh(calls[k])
      ensures Decoded(Value(), err) == DecodeGroup(input, 0, old(Value()))
    {
      hide DecodeGroup, ReadVarint, ReadTagged, SetGroup, ReadBytes, SkipFrom, FieldNumber, WireType, Value;
      ghost var start := Value();
      var i := 0;
      assert input[0..] == input;
      while i < |input|
        invariant 0 <= i <= |input|
        invariant |old(calls)| <= |calls| && calls[..|old(calls)|] == old(calls)
        invariant forall k :: |old(calls)| <= k < |calls| ==> fresh(calls[k])
        invariant DecodeGroup(input, 0, start) == DecodeGroup(input[i..], i, Value())
      {
        ghost var m := Value();
        GroupTurn(input, i, m);
        var tag := DecodeVarint(input, i);
        if tag.Broken? { return Some(tag.err); }
        var at, num, wireType := i + tag.len, FieldNumber(tag.value), WireType(tag.value);
        TaggedCases(GroupSchema, input, i, tag.value, tag.len);
        if wireType == 4 { return Some(EndGroupForNonGroup); }
        if num <= 0 { return Some(IllegalTag(num)); }
        match KindOf(GroupSchema, num) {
          case BytesKind =>
            if wireType != 2 { return Some(WrongWireType(num, wireType)); }
            var r := UnmarshalBlob(input, at, num);
            if r.Err? { return Some(r.err); }
            i := at + r.value;
          case NumberKind =>
            if wireType != 0 { return Some(WrongWireType(num, wireType)); }
            var r := UnmarshalNumber(input, at);
            NumberAlwaysSet(m, num);
            if r.Err? { return Some(r.err); }
            i := at + r.value;
          case UnknownKind =>
            var r := SkipUnknown(input, i);
            if r.Err? { return Some(r.err); }
            i := i + r.value;
        }
      }
      assert input[i..] == [];
      GroupEnd(i, Value());
      return None;
    }
  }

  lemma ReadBytesLength(s: seq<byte>, pos: nat)
    requires ReadBytes(s, pos).Ok?
    ensures |ReadBytes(s, pos).value.0| <= |s|
  {
    hide ReadVarint;
  }

  lemma NumberAlwaysSet(m: GroupValue, num: int32)
    ensures forall v: uint64 :: SetGroup(m, num, Number(v)).err == None
  {
  }

  lemma GroupEnd(pos: nat, m: GroupValue)
    ensures DecodeGroup([], pos, m) == Decoded(m, None)
  {
  }

  /** One turn of the group decoder. */
  lemma GroupTurn(input: seq<byte>, i: nat, m: GroupValue)
    requires i < |input|
    ensures var s := input[i..];
            DecodeGroup(s, i, m) ==
            match ReadField(GroupSchema, s, i)
            case Field(num, d, n) =>
              var next := SetGroup(m, num, d);
              if next.err.Some? then next else DecodeGroup(input[i + n..], i + n, next.msg)
            case Ignored(n) => DecodeGroup(input[i + n..], i + n, m)
            case NumberBroken(num, p, e) => Decoded(SetGroup(m, num, Number(p)).msg, Some(e))
            case Stopped(e) => Decoded(m, Some(e))
  {
    hide ReadField, SetGroup;
    var r := ReadField(GroupSchema, input[i..], i);
    if r.Consumed?() {
      assert input[i..][r.n..] == input[i + r.n..];
    }
  }

  ghost function GroupHead(m: GroupValue): seq<byte> {
    BytesPart(0x0a, m.callback)
    + (NumberPart(0x10, m.gasLocked)
    + (BytesPart(0x1a, m.callbackData)
    + BytesPart(0x22, m.identifier)))
  }

  lemma GroupSplit(m: GroupValue)
    ensures EncodeGroup(m) == GroupHead(m) + CallParts(m.calls)
  {
    hide BytesPart, NumberPart, CallParts;
  }

  lemma NoCallParts()
    ensures CallParts([]) == []
  {
  }

  /** One nested call with its length and tag, ending at `end`. */
  method MarshalCall(call: SerializableAsyncCall, buf: array<byte>, end: nat) returns (at: nat)
    requires |CallPart(call.Value())| <= end <= buf.Length < TWO_63
    modifies buf
    ensures at + |CallPart(call.Value())| == end
    ensures buf[..] == Patch(old(buf[..]), at, CallPart(call.Value()))
  {
    hide Patch, EncodeCall, Encoding;
    ghost var before := buf[..];
    ghost var b := EncodeCall(call.Value());
    var size := call.MarshalToSizedBuffer(buf, end);
    at := WritePrefix(buf, end - size, 0x2a, size);
    PatchBefore(before, at, [0x2a] + Encoding(size), end - size, b);
    assert [0x2a] + Encoding(size) + b == [0x2a] + (Encoding(size) + b);
  }
}
