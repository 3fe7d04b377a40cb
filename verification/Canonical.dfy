/**
  Encodings are canonical: every field of a message is written at most once, in the order of the
  numbers, with the shortest varints, and not at all if it is empty or zero.
 */
module Canonical {
  import opened MachineIntegers
  import opened Varint
  import opened Grammar
  import opened Messages
  import opened Codec

  /** Every varint of the field is the shortest one of its value. */
  predicate Shortest(f: RawField) {
    && f.tag == Encoding(ValueOf(f.tag))
    && (f.VarintField? ==> f.payload == Encoding(ValueOf(f.payload)))
    && (f.BytesField? ==> f.length == Encoding(|f.payload|))
  }

  predicate HoldsBlob(f: RawField, b: seq<byte>) {
    f.BytesField? && b != [] && f.payload == b
  }

  predicate HoldsNumber(f: RawField, v: int) {
    f.VarintField? && v != 0 && ValueOf(f.payload) == v
  }

  /** A negative enumeration value is written as a 64-bit number in two's complement. */
  function Extended(x: int32): int {
    if x < 0 then x + TWO_64 else x
  }

  /** The field holds what the call has under the field's number, and that is neither empty nor zero. */
  predicate OfCall(v: CallValue, f: RawField) {
    match NumberOf(f)
    case 1 => HoldsBlob(f, v.callID)
    case 2 => HoldsNumber(f, Extended(v.status))
    case 3 => HoldsNumber(f, Extended(v.executionMode))
    case 5 => HoldsBlob(f, v.destination)
    case 6 => HoldsBlob(f, v.data)
    case 7 => HoldsNumber(f, v.gasLimit)
    case 8 => HoldsNumber(f, v.gasLocked)
    case 9 => HoldsBlob(f, v.valueBytes)
    case 10 => HoldsBlob(f, v.successCallback)
    case 11 => HoldsBlob(f, v.errorCallback)
    case 12 => HoldsBlob(f, v.callbackClosure)
    case _ => false
  }

  /** The same for the fields of a group, except its calls. */
  predicate OfGroup(v: GroupValue, f: RawField) {
    match NumberOf(f)
    case 1 => HoldsBlob(f, v.callback)
    case 2 => HoldsNumber(f, v.gasLocked)
    case 3 => HoldsBlob(f, v.callbackData)
    case 4 => HoldsBlob(f, v.identifier)
    case _ => false
  }

  datatype Message = CallMessage(call: CallValue) | GroupMessage(group: GroupValue)

  predicate Holds(m: Message, f: RawField) {
    match m
    case CallMessage(v) => OfCall(v, f)
    case GroupMessage(v) => OfGroup(v, f)
  }

  ghost predicate Canonical(m: Message, fs: seq<RawField>, low: int) {
    && (forall i :: 0 <= i < |fs| ==> NumberOf(fs[i]) > low && Holds(m, fs[i]) && Shortest(fs[i]))
    && (forall i, j :: 0 <= i < j < |fs| ==> NumberOf(fs[i]) < NumberOf(fs[j]))
  }

  lemma ShortBlob(tag: byte, b: seq<byte>) returns (f: RawField)
    requires tag < 0x80 && tag as nat % 8 == 2 && 0 < |b| < TWO_63
    ensures Bytes(f) == BytesPart(tag, b) && NumberOf(f) == tag as nat / 8 && HoldsBlob(f, b) && Shortest(f)
  {
    hide Encoding;
    f := BytesField([tag], Encoding(|b|), b);
    OneByteTag(tag);
    ShortTag(tag);
  }

  lemma ShortNumber(tag: byte, v: uint64) returns (f: RawField)
    requires tag < 0x80 && tag as nat % 8 == 0 && v != 0
    ensures Bytes(f) == NumberPart(tag, v) && NumberOf(f) == tag as nat / 8 && HoldsNumber(f, v) && Shortest(f)
  {
    hide Encoding;
    f := VarintField([tag], Encoding(v));
    OneByteTag(tag);
    ShortTag(tag);
    EncodingHasValue(v);
  }

  lemma ShortTag(tag: byte)
    requires tag < 0x80
    ensures [tag] == Encoding(ValueOf([tag]))
  {
    assert [tag][1..] == [];
    assert ValueOf([tag]) == tag as nat;
  }

  lemma PrependField(m: Message, f: RawField, fs: seq<RawField>, low: int)
    requires Canonical(m, fs, NumberOf(f)) && Holds(m, f) && Shortest(f) && low < NumberOf(f)
    ensures Canonical(m, [f] + fs, low) && AllBytes([f] + fs) == Bytes(f) + AllBytes(fs)
  {
    hide NumberOf, Holds, Shortest, Bytes;
    assert ([f] + fs)[1..] == fs;
  }

  lemma Lower(m: Message, fs: seq<RawField>, low: int, lower: int)
    requires Canonical(m, fs, low) && lower <= low
    ensures Canonical(m, fs, lower)
  {
    hide NumberOf, Holds, Shortest;
  }

  lemma PrependBlob(m: Message, tag: byte, b: seq<byte>, fs: seq<RawField>, low: int) returns (r: seq<RawField>)
    requires tag < 0x80 && tag as nat % 8 == 2 && |b| < TWO_63 && low < tag as nat / 8
    requires forall f :: NumberOf(f) == tag as nat / 8 && HoldsBlob(f, b) ==> Holds(m, f)
    requires Canonical(m, fs, tag as nat / 8)
    ensures Canonical(m, r, low) && AllBytes(r) == BytesPart(tag, b) + AllBytes(fs)
  {
    hide NumberOf, Holds, Shortest, HoldsBlob, Canonical, AllBytes, Bytes, Encoding;
    if b == [] {
      r := fs;
      Lower(m, fs, tag as nat / 8, low);
      assert BytesPart(tag, b) + AllBytes(fs) == AllBytes(fs);
    } else {
      var f := ShortBlob(tag, b);
      r := [f] + fs;
      PrependField(m, f, fs, low);
    }
  }

  lemma PrependNumber(m: Message, tag: byte, x: uint64, fs: seq<RawField>, low: int) returns (r: seq<RawField>)
    requires tag < 0x80 && tag as nat % 8 == 0 && low < tag as nat / 8
    requires forall f :: NumberOf(f) == tag as nat / 8 && HoldsNumber(f, x) ==> Holds(m, f)
    requires Canonical(m, fs, tag as nat / 8)
    ensures Canonical(m, r, low) && AllBytes(r) == NumberPart(tag, x) + AllBytes(fs)
  {
    hide NumberOf, Holds, Shortest, HoldsNumber, Canonical, AllBytes, Bytes, Encoding;
    if x == 0 {
      r := fs;
      Lower(m, fs, tag as nat / 8, low);
      assert NumberPart(tag, x) + AllBytes(fs) == AllBytes(fs);
    } else {
      var f := ShortNumber(tag, x);
      r := [f] + fs;
      PrependField(m, f, fs, low);
    }
  }

  lemma ExtendedIsUnsigned(x: int32)
    ensures Extended(x) == Unsigned(x)
  {
  }

  lemma NoFields(m: Message, low: int)
    ensures Canonical(m, [], low) && AllBytes([]) == []
  {
  }

  /** The encoding of a call. */
  lemma CallIsCanonical(v: CallValue) returns (fs: seq<RawField>)
    requires |EncodeCall(v)| < TWO_63
    ensures Canonical(CallMessage(v), fs, 0) && AllBytes(fs) == EncodeCall(v)
  {
    hide NumberOf, HoldsBlob, HoldsNumber, Canonical, AllBytes, BytesPart, NumberPart, Extended, Unsigned;
    var m := CallMessage(v);
    PartsFit(v);
    ExtendedIsUnsigned(v.status);
    ExtendedIsUnsigned(v.executionMode);
    fs := TailIsCanonical(v);
    fs := PrependBlob(m, 0x32, v.data, fs, 5);
    fs := PrependBlob(m, 0x2a, v.destination, fs, 3);
    fs := PrependNumber(m, 0x18, Unsigned(v.executionMode), fs, 2);
    fs := PrependNumber(m, 0x10, Unsigned(v.status), fs, 1);
    fs := PrependBlob(m, 0x0a, v.callID, fs, 0);
  }

  lemma TailIsCanonical(v: CallValue) returns (fs: seq<RawField>)
    requires |EncodeCall(v)| < TWO_63
    ensures Canonical(CallMessage(v), fs, 6) && AllBytes(fs) == CallTail(v)
  {
    hide NumberOf, HoldsBlob, HoldsNumber, Canonical, AllBytes, BytesPart, NumberPart, EncodeCall;
    var m := CallMessage(v);
    PartsFit(v);
    fs := [];
    NoFields(m, 12);
    fs := PrependBlob(m, 0x62, v.callbackClosure, fs, 11);
    fs := PrependBlob(m, 0x5a, v.errorCallback, fs, 10);
    fs := PrependBlob(m, 0x52, v.successCallback, fs, 9);
    fs := PrependBlob(m, 0x4a, v.valueBytes, fs, 8);
    fs := PrependNumber(m, 0x40, v.gasLocked, fs, 7);
    fs := PrependNumber(m, 0x38, v.gasLimit, fs, 6);
    assert BytesPart(0x62, v.callbackClosure) + [] == BytesPart(0x62, v.callbackClosure);
  }

  // ----- Groups -----

  /** One length-delimited field 5 for every call, in order, with the call's encoding. */
  ghost predicate CallFields(calls: seq<CallValue>, fs: seq<RawField>) {
    && |fs| == |calls|
    && forall i :: 0 <= i < |fs| ==>
         NumberOf(fs[i]) == 5 && fs[i].BytesField? && fs[i].payload == EncodeCall(calls[i]) && Shortest(fs[i])
  }

  lemma CallField(c: CallValue) returns (f: RawField)
    requires |EncodeCall(c)| < TWO_63
    ensures NumberOf(f) == 5 && f.BytesField? && f.payload == EncodeCall(c) && Shortest(f) && Bytes(f) == CallPart(c)
  {
    hide Encoding, EncodeCall;
    f := BytesField([0x2a], Encoding(|EncodeCall(c)|), EncodeCall(c));
    OneByteTag(0x2a);
    ShortTag(0x2a);
  }

  lemma {:induction false} CallsAreWritten(calls: seq<CallValue>) returns (fs: seq<RawField>)
    requires |CallParts(calls)| < TWO_63
    ensures CallFields(calls, fs) && AllBytes(fs) == CallParts(calls)
  {
    hide NumberOf, Shortest, Bytes, EncodeCall, Encoding;
    if calls == [] {
      fs := [];
    } else {
      var f := CallField(calls[0]);
      var rest := CallsAreWritten(calls[1..]);
      fs := [f] + rest;
      assert fs[1..] == rest;
    }
  }

  /** The encoding of a group: its own fields as those of a call, then all its calls. */
  lemma GroupIsCanonical(v: GroupValue) returns (fs: seq<RawField>, calls: seq<RawField>)
    requires |EncodeGroup(v)| < TWO_63
    ensures Canonical(GroupMessage(v), fs, 0) && CallFields(v.calls, calls)
    ensures AllBytes(fs) + AllBytes(calls) == EncodeGroup(v)
  {
    hide NumberOf, HoldsBlob, HoldsNumber, Canonical, AllBytes, BytesPart, NumberPart, CallParts, CallFields;
    var m := GroupMessage(v);
    GroupBlobsFit(v);
    calls := CallsAreWritten(v.calls);
    fs := [];
    NoFields(m, 4);
    fs := PrependBlob(m, 0x22, v.identifier, fs, 3);
    fs := PrependBlob(m, 0x1a, v.callbackData, fs, 2);
    fs := PrependNumber(m, 0x10, v.gasLocked, fs, 1);
    fs := PrependBlob(m, 0x0a, v.callback, fs, 0);
    var a, b := BytesPart(0x0a, v.callback), NumberPart(0x10, v.gasLocked);
    var c, d := BytesPart(0x1a, v.callbackData), BytesPart(0x22, v.identifier);
    assert a + (b + (c + (d + []))) + CallParts(v.calls) == a + (b + (c + (d + CallParts(v.calls))));
  }

  lemma GroupBlobsFit(v: GroupValue)
    requires |EncodeGroup(v)| < TWO_63
    ensures |v.callback| < TWO_63 && |v.callbackData| < TWO_63 && |v.identifier| < TWO_63 && |CallParts(v.calls)| < TWO_63
  {
    hide BytesPart, NumberPart, CallParts;
    BytesPartHolds(0x0a, v.callback);
    BytesPartHolds(0x1a, v.callbackData);
    BytesPartHolds(0x22, v.identifier);
  }
}
