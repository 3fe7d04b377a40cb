/**
  Properties of the two decoders: they undo the encoders, accept an exact language, fold its fields
  in order, and pass over fields they do not know.
 */
module Codec {
  import opened MachineIntegers
  import opened Options
  import opened Varint
  import opened Wire
  import opened Grammar
  import opened Messages

  // ----- One field -----

  /** The number a raw field announces: its tag without the lowest three bits, as a signed 32-bit number. */
  function NumberOf(f: RawField): int32 {
    var low := ValueOf(f.tag) % TWO_64 / 8 % TWO_32;
    if low < TWO_31 then low else low - TWO_32
  }

  /** The length-delimited fields of a message. */
  predicate IsBlob(schema: Schema, num: int32) {
    match schema
    case CallSchema => num == 1 || num == 5 || num == 6 || num == 9 || num == 10 || num == 11 || num == 12
    case GroupSchema => num == 1 || num == 3 || num == 4 || num == 5
  }

  /** The varint fields of a message. */
  predicate IsScalar(schema: Schema, num: int32) {
    match schema
    case CallSchema => num == 2 || num == 3 || num == 7 || num == 8
    case GroupSchema => num == 2
  }

  predicate Known(schema: Schema, num: int32) {
    IsBlob(schema, num) || IsScalar(schema, num)
  }

  /** A field the decoder of the given message accepts. */
  predicate Accepted(schema: Schema, f: RawField) {
    && WellFormed(f)
    && NumberOf(f) > 0
    && (IsBlob(schema, NumberOf(f)) ==> f.BytesField?)
    && (IsScalar(schema, NumberOf(f)) ==> f.VarintField?)
  }

  /** What an accepted field tells the decoder. */
  function Content(schema: Schema, f: RawField): FieldRead {
    if !Known(schema, NumberOf(f)) then Ignored(|Bytes(f)|)
    else
      match f
      case BytesField(_, _, payload) => Field(NumberOf(f), Blob(payload), |Bytes(f)|)
      case VarintField(_, payload) => Field(NumberOf(f), Number(Wrap64(ValueOf(payload))), |Bytes(f)|)
      case _ => Ignored(|Bytes(f)|)
  }

  /** The `switch` of the decoders knows exactly the fields of the messages. */
  lemma KindIs(schema: Schema, num: int32)
    ensures KindOf(schema, num) ==
            if IsBlob(schema, num) then BytesKind else if IsScalar(schema, num) then NumberKind else UnknownKind
  {
  }

  lemma ReadBytesOf(length: seq<byte>, payload: seq<byte>, rest: seq<byte>, pos: nat)
    requires ShortVarint(length) && Wrap64(ValueOf(length)) == |payload|
    requires pos + |length| + |payload| < TWO_63
    ensures ReadBytes(length + payload + rest, pos) == Ok((payload, |length| + |payload|))
  {
    hide ReadVarint, ToInt64, RawVarint, ValueOf, Wrap64, ReadBytes;
    ReadVarintOfRaw(length, payload + rest);
    Middle(length, payload, rest);
    ReadBytesAt(length + payload + rest, pos, |length|, |payload|);
  }

  lemma ReadBytesAt(s: seq<byte>, pos: nat, k: nat, n: nat)
    requires n < TWO_63 && pos + k + n < TWO_63 && k + n <= |s| && ReadVarint(s) == Read(n, k)
    ensures ReadBytes(s, pos) == Ok((s[k..k + n], k + n))
  {
    hide ReadVarint, ToInt64;
    WrappedIndex(n);
  }

  lemma Middle(a: seq<byte>, b: seq<byte>, c: seq<byte>)
    ensures a + b + c == a + (b + c) && (a + b + c)[|a|..|a| + |b|] == b
  {
  }

  lemma ReadTaggedOf(schema: Schema, f: RawField, rest: seq<byte>, pos: nat)
    requires Accepted(schema, f) && pos + |Bytes(f)| < TWO_63
    ensures 1 <= |f.tag| <= |Bytes(f)|
    ensures ReadTagged(schema, Bytes(f) + rest, pos, Wrap64(ValueOf(f.tag)), |f.tag|) == Content(schema, f)
  {
    hide ReadVarint, ReadBytes, SkipFrom, ValueOf;
    var s, k := Bytes(f) + rest, |f.tag|;
    match KindOf(schema, NumberOf(f))
    case BytesKind =>
      assert s[k..] == f.length + f.payload + rest;
      ReadBytesOf(f.length, f.payload, rest, pos + k);
    case NumberKind =>
      assert s[k..] == f.payload + rest;
      ReadVarintOfRaw(f.payload, rest);
    case UnknownKind =>
      FieldIsSkipped(f, rest, 0, 0);
  }

  /** An accepted field is read in one turn, whatever follows it. */
  lemma ReadFieldOf(schema: Schema, f: RawField, rest: seq<byte>, pos: nat)
    requires Accepted(schema, f) && pos + |Bytes(f)| < TWO_63
    ensures ReadField(schema, Bytes(f) + rest, pos) == Content(schema, f)
  {
    hide ReadVarint, ReadTagged, Content, ValueOf;
    ReadTaggedOf(schema, f, rest, pos);
    var after := Bytes(f)[|f.tag|..] + rest;
    assert f.tag + after == Bytes(f) + rest;
    ReadVarintOfRaw(f.tag, after);
  }

  lemma ParseBytes(tag: seq<byte>, rest: seq<byte>, pos: nat) returns (f: RawField)
    requires IsTag(tag, 2) && ReadBytes(rest, pos).Ok?
    ensures var (payload, n) := ReadBytes(rest, pos).value;
            f.BytesField? && f.tag == tag && f.payload == payload && WellFormed(f) && Bytes(f) == tag + rest[..n]
  {
    hide ReadVarint, IsTag;
    TagOf(rest);
    var k := ReadVarint(rest).len;
    var (payload, n) := ReadBytes(rest, pos).value;
    WrappedLength(ReadVarint(rest).value);
    assert rest[..n] == rest[..k] + payload;
    f := BytesField(tag, rest[..k], payload);
  }

  lemma ParseNumber(tag: seq<byte>, rest: seq<byte>) returns (f: RawField)
    requires IsTag(tag, 0) && ReadVarint(rest).Read?
    ensures var r := ReadVarint(rest);
            f.VarintField? && f.tag == tag && WellFormed(f) && Bytes(f) == tag + rest[..r.len]
            && r.value == Wrap64(ValueOf(f.payload))
  {
    hide ReadVarint, IsTag;
    TagOf(rest);
    f := VarintField(tag, rest[..ReadVarint(rest).len]);
  }

  lemma ParseUnknown(s: seq<byte>, k: nat) returns (f: RawField)
    requires k <= |s| && ShortVarint(s[..k])
    requires SkipFrom(s, 0, 0).Ok? && SkipFrom(s, 0, 0).value <= |s|
    ensures WellFormed(f) && f.tag == s[..k] && Bytes(f) == s[..SkipFrom(s, 0, 0).value]
  {
    hide SkipFrom;
    f := SkippedIsField(s, 0);
    assert s[..|f.tag|] == Bytes(f)[..|f.tag|] == f.tag;
    RawPrefixesAgree(s, k, |f.tag|);
  }

  /** Whatever the decoder reads in one turn is an accepted field. */
  lemma ReadIsAccepted(schema: Schema, s: seq<byte>, pos: nat) returns (f: RawField)
    requires ReadField(schema, s, pos).Consumed?()
    ensures var r := ReadField(schema, s, pos);
            Accepted(schema, f) && Bytes(f) == s[..r.n] && Content(schema, f) == r
  {
    hide ReadVarint, ReadBytes, SkipFrom, ValueOf, Bytes, WellFormed;
    TagOf(s);
    var wire, k := ReadVarint(s).value, ReadVarint(s).len;
    var tag, rest := s[..k], s[k..];
    match KindOf(schema, FieldNumber(wire))
    case BytesKind =>
      f := ParseBytes(tag, rest, pos + k);
      Rejoin(s, k, ReadBytes(rest, pos + k).value.1);
    case NumberKind =>
      f := ParseNumber(tag, rest);
      Rejoin(s, k, ReadVarint(rest).len);
    case UnknownKind =>
      f := ParseUnknown(s, k);
  }

  // ----- Languages and their meaning -----

  ghost predicate AllAccepted(schema: Schema, fs: seq<RawField>) {
    forall i :: 0 <= i < |fs| ==> Accepted(schema, fs[i])
  }

  /** One field's effect on a message: the field it names is replaced, an unknown one is dropped. */
  function ApplyCall(m: CallValue, f: RawField): CallValue {
    match Content(CallSchema, f)
    case Field(num, d, _) => SetCall(m, num, d)
    case _ => m
  }

  function FoldCall(m: CallValue, fs: seq<RawField>): CallValue
    decreases |fs|
  {
    if fs == [] then m else FoldCall(ApplyCall(m, fs[0]), fs[1..])
  }

  lemma DecodeCallStep(f: RawField, rest: seq<byte>, pos: nat, m: CallValue)
    requires Accepted(CallSchema, f) && pos + |Bytes(f)| < TWO_63
    ensures DecodeCall(Bytes(f) + rest, pos, m) == DecodeCall(rest, pos + |Bytes(f)|, ApplyCall(m, f))
  {
    hide ReadField, SetCall, Bytes, Accepted;
    ReadFieldOf(CallSchema, f, rest, pos);
    assert (Bytes(f) + rest)[|Bytes(f)|..] == rest;
    assert |Bytes(f)| >= 1 by { BytesNonempty(CallSchema, f); }
  }

  lemma BytesNonempty(schema: Schema, f: RawField)
    requires Accepted(schema, f)
    ensures |Bytes(f)| >= 1
  {
  }

  /** Accepted fields at the front of the input are folded into the message, in order. */
  lemma {:induction false} DecodeCallFields(fs: seq<RawField>, rest: seq<byte>, pos: nat, m: CallValue)
    requires AllAccepted(CallSchema, fs) && pos + |AllBytes(fs)| < TWO_63
    ensures DecodeCall(AllBytes(fs) + rest, pos, m) == DecodeCall(rest, pos + |AllBytes(fs)|, FoldCall(m, fs))
  {
    hide DecodeCall, Accepted, ApplyCall, Bytes;
    if fs == [] {
      assert AllBytes(fs) + rest == rest;
    } else {
      var first, others := Bytes(fs[0]), AllBytes(fs[1..]);
      assert AllBytes(fs) + rest == first + (others + rest);
      DecodeCallStep(fs[0], others + rest, pos, m);
      DecodeCallFields(fs[1..], rest, pos + |first|, ApplyCall(m, fs[0]));
    }
  }

  lemma {:induction false} ParseCall(s: seq<byte>, pos: nat, m: CallValue) returns (fs: seq<RawField>)
    requires DecodeCall(s, pos, m).err.None?
    ensures AllAccepted(CallSchema, fs) && AllBytes(fs) == s
    decreases |s|
  {
    hide ReadField, SetCall, Bytes, Accepted;
    if s == [] {
      fs := [];
    } else {
      var f := ReadIsAccepted(CallSchema, s, pos);
      var n := ReadField(CallSchema, s, pos).n;
      var rest;
      match ReadField(CallSchema, s, pos) {
        case Field(num, d, _) => rest := ParseCall(s[n..], pos + n, SetCall(m, num, d));
        case Ignored(_) => rest := ParseCall(s[n..], pos + n, m);
      }
      fs := [f] + rest;
      assert fs[1..] == rest;
      assert s == s[..n] + s[n..];
    }
  }

  /**
    The call decoder succeeds exactly on concatenations of accepted fields, and its result is the
    fold of those fields.
   */
  lemma CallLanguage(s: seq<byte>, m: CallValue)
    requires |s| < TWO_63
    ensures DecodeCall(s, 0, m).err.None? <==> exists fs :: AllAccepted(CallSchema, fs) && AllBytes(fs) == s
    ensures forall fs :: AllAccepted(CallSchema, fs) && AllBytes(fs) == s ==>
      DecodeCall(s, 0, m) == Decoded(FoldCall(m, fs), None)
  {
    hide AllBytes, AllAccepted, FoldCall, ReadField;
    if DecodeCall(s, 0, m).err.None? {
      var fs := ParseCall(s, 0, m);
    }
    forall fs | AllAccepted(CallSchema, fs) && AllBytes(fs) == s
      ensures DecodeCall(s, 0, m) == Decoded(FoldCall(m, fs), None)
    {
      DecodeCallFields(fs, [], 0, m);
      assert s + [] == s;
    }
  }

  // The same for groups, whose fifth field must hold a call the call decoder accepts.

  predicate AcceptedByGroup(f: RawField) {
    && Accepted(GroupSchema, f)
    && (NumberOf(f) == 5 ==> DecodeCall(f.payload, 0, EMPTY_CALL).err.None?)
  }

  ghost predicate AllAcceptedByGroup(fs: seq<RawField>) {
    forall i :: 0 <= i < |fs| ==> AcceptedByGroup(fs[i])
  }

  function ApplyGroup(m: GroupValue, f: RawField): GroupValue {
    match Content(GroupSchema, f)
    case Field(num, d, _) => SetGroup(m, num, d).msg
    case _ => m
  }

  function FoldGroup(m: GroupValue, fs: seq<RawField>): GroupValue
    decreases |fs|
  {
    if fs == [] then m else FoldGroup(ApplyGroup(m, fs[0]), fs[1..])
  }

  lemma SetGroupSucceeds(f: RawField, m: GroupValue)
    requires Accepted(GroupSchema, f) && Content(GroupSchema, f).Field?
    ensures var r := Content(GroupSchema, f);
            SetGroup(m, r.num, r.data).err.None? <==> AcceptedByGroup(f)
  {
    hide DecodeCall, WellFormed, ValueOf;
  }

  lemma UnknownAccepted(f: RawField)
    requires Accepted(GroupSchema, f) && Content(GroupSchema, f).Ignored?
    ensures AcceptedByGroup(f)
  {
    hide DecodeCall, WellFormed, ValueOf;
  }

  lemma DecodeGroupStep(f: RawField, rest: seq<byte>, pos: nat, m: GroupValue)
    requires AcceptedByGroup(f) && pos + |Bytes(f)| < TWO_63
    ensures DecodeGroup(Bytes(f) + rest, pos, m) == DecodeGroup(rest, pos + |Bytes(f)|, ApplyGroup(m, f))
  {
    hide ReadField, SetGroup, Bytes, Accepted, Content, DecodeCall;
    ReadFieldOf(GroupSchema, f, rest, pos);
    assert (Bytes(f) + rest)[|Bytes(f)|..] == rest;
    BytesNonempty(GroupSchema, f);
    ContentLength(GroupSchema, f);
    if Content(GroupSchema, f).Field? {
      SetGroupSucceeds(f, m);
    }
  }

  lemma ContentLength(schema: Schema, f: RawField)
    ensures Content(schema, f).Consumed?() && Content(schema, f).n == |Bytes(f)|
  {
  }

  lemma {:induction false} DecodeGroupFields(fs: seq<RawField>, rest: seq<byte>, pos: nat, m: GroupValue)
    requires AllAcceptedByGroup(fs) && pos + |AllBytes(fs)| < TWO_63
    ensures DecodeGroup(AllBytes(fs) + rest, pos, m) == DecodeGroup(rest, pos + |AllBytes(fs)|, FoldGroup(m, fs))
  {
    hide DecodeGroup, AcceptedByGroup, ApplyGroup, Bytes;
    if fs == [] {
      assert AllBytes(fs) + rest == rest;
    } else {
      var first, others := Bytes(fs[0]), AllBytes(fs[1..]);
      assert AllBytes(fs) + rest == first + (others + rest);
      DecodeGroupStep(fs[0], others + rest, pos, m);
      DecodeGroupFields(fs[1..], rest, pos + |first|, ApplyGroup(m, fs[0]));
    }
  }

  lemma {:induction false} ParseGroup(s: seq<byte>, pos: nat, m: GroupValue) returns (fs: seq<RawField>)
    requires DecodeGroup(s, pos, m).err.None?
    ensures AllAcceptedByGroup(fs) && AllBytes(fs) == s
    decreases |s|
  {
    hide ReadField, SetGroup, Bytes, Accepted, AcceptedByGroup, Content;
    if s == [] {
      fs := [];
    } else {
      var f := ReadIsAccepted(GroupSchema, s, pos);
      var n := ReadField(GroupSchema, s, pos).n;
      var rest;
      match ReadField(GroupSchema, s, pos) {
        case Field(num, d, _) =>
          SetGroupSucceeds(f, m);
          rest := ParseGroup(s[n..], pos + n, SetGroup(m, num, d).msg);
        case Ignored(_) =>
          UnknownAccepted(f);
          rest := ParseGroup(s[n..], pos + n, m);
      }
      fs := [f] + rest;
      assert fs[1..] == rest;
      assert s == s[..n] + s[n..];
    }
  }

  /** The same characterisation for the group decoder. */
  lemma GroupLanguage(s: seq<byte>, m: GroupValue)
    requires |s| < TWO_63
    ensures DecodeGroup(s, 0, m).err.None? <==> exists fs :: AllAcceptedByGroup(fs) && AllBytes(fs) == s
    ensures forall fs :: AllAcceptedByGroup(fs) && AllBytes(fs) == s ==>
      DecodeGroup(s, 0, m) == Decoded(FoldGroup(m, fs), None)
  {
    hide AllBytes, AllAcceptedByGroup, FoldGroup, ReadField;
    if DecodeGroup(s, 0, m).err.None? {
      var fs := ParseGroup(s, 0, m);
    }
    forall fs | AllAcceptedByGroup(fs) && AllBytes(fs) == s
      ensures DecodeGroup(s, 0, m) == Decoded(FoldGroup(m, fs), None)
    {
      DecodeGroupFields(fs, [], 0, m);
      assert s + [] == s;
    }
  }

  // ----- Round trip -----

  /** The raw field the encoder writes for a byte string. */
  lemma BlobField(schema: Schema, tag: byte, b: seq<byte>) returns (f: RawField)
    requires tag < 0x80 && tag as nat % 8 == 2 && |b| < TWO_63
    requires KindOf(schema, tag as nat / 8) == BytesKind
    ensures Accepted(schema, f) && Bytes(f) == [tag] + (Encoding(|b|) + b)
    ensures f.BytesField? && f.payload == b && NumberOf(f) == tag as nat / 8
    ensures Content(schema, f) == Field(tag as nat / 8, Blob(b), |Bytes(f)|)
  {
    hide Encoding;
    f := BytesField([tag], Encoding(|b|), b);
    OneByteTag(tag);
    ShortEncoding(|b|);
  }

  lemma NumberField(schema: Schema, tag: byte, v: uint64) returns (f: RawField)
    requires tag < 0x80 && tag as nat % 8 == 0 && tag > 0
    requires KindOf(schema, tag as nat / 8) == NumberKind
    ensures Accepted(schema, f) && Bytes(f) == [tag] + Encoding(v)
    ensures f.VarintField? && NumberOf(f) == tag as nat / 8
    ensures Content(schema, f) == Field(tag as nat / 8, Number(v), |Bytes(f)|)
  {
    hide Encoding, KindOf;
    f := VarintField([tag], Encoding(v));
    KindIs(schema, tag as nat / 8);
    OneByteTag(tag);
    ShortEncoding(v);
  }

  lemma ShortEncoding(v: uint64)
    ensures ShortVarint(Encoding(v)) && Wrap64(ValueOf(Encoding(v))) == v
  {
    hide Encoding, ValueOf;
    SizeIsEncodingLength(v);
    EncodingHasValue(v);
    Wrap64Identity(v);
  }

  lemma OneByteTag(tag: byte)
    requires tag < 0x80
    ensures IsTag([tag], tag as nat % 8) && Wrap64(ValueOf([tag])) == tag as nat
    ensures FieldNumber(tag as nat) == tag as nat / 8
  {
    assert [tag][1..] == [];
    assert ValueOf([tag]) == tag as nat;
  }

  lemma DecodeCallBlob(tag: byte, b: seq<byte>, rest: seq<byte>, pos: nat, m: CallValue)
    requires tag < 0x80 && tag as nat % 8 == 2 && KindOf(CallSchema, tag as nat / 8) == BytesKind
    requires b == [] ==> SetCall(m, tag as nat / 8, Blob([])) == m
    requires pos + |BytesPart(tag, b)| < TWO_63
    ensures DecodeCall(BytesPart(tag, b) + rest, pos, m)
         == DecodeCall(rest, pos + |BytesPart(tag, b)|, SetCall(m, tag as nat / 8, Blob(b)))
  {
    hide DecodeCall, SetCall, KindOf, Encoding, Accepted, NumberOf, Bytes, Content;
    if b == [] {
      assert BytesPart(tag, b) + rest == rest;
    } else {
      var f := BlobField(CallSchema, tag, b);
      DecodeCallStep(f, rest, pos, m);
    }
  }

  lemma DecodeCallNumber(tag: byte, v: uint64, rest: seq<byte>, pos: nat, m: CallValue)
    requires 0 < tag < 0x80 && tag as nat % 8 == 0 && KindOf(CallSchema, tag as nat / 8) == NumberKind
    requires v == 0 ==> SetCall(m, tag as nat / 8, Number(0)) == m
    requires pos + |NumberPart(tag, v)| < TWO_63
    ensures DecodeCall(NumberPart(tag, v) + rest, pos, m)
         == DecodeCall(rest, pos + |NumberPart(tag, v)|, SetCall(m, tag as nat / 8, Number(v)))
  {
    hide DecodeCall, SetCall, KindOf, Encoding, Accepted, NumberOf, Bytes, Content;
    if v == 0 {
      assert NumberPart(tag, v) + rest == rest;
    } else {
      var f := NumberField(CallSchema, tag, v);
      DecodeCallStep(f, rest, pos, m);
    }
  }

  lemma EnumRoundTrip(x: int32)
    ensures ToInt32(Unsigned(x)) == x
  {
  }

  lemma DecodeCallEnd(pos: nat, m: CallValue)
    ensures DecodeCall([], pos, m) == Decoded(m, None)
  {
  }

  // The encoding of a call, split after its data field.
  function CallTail(m: CallValue): seq<byte> {
    NumberPart(0x38, m.gasLimit)
    + (NumberPart(0x40, m.gasLocked)
    + (BytesPart(0x4a, m.valueBytes)
    + (BytesPart(0x52, m.successCallback)
    + (BytesPart(0x5a, m.errorCallback)
    + BytesPart(0x62, m.callbackClosure)))))
  }

  lemma CallTailRoundTrip(v: CallValue, m: CallValue, pos: nat)
    requires pos + |CallTail(v)| < TWO_63
    requires m == EMPTY_CALL.(callID := v.callID, status := v.status, executionMode := v.executionMode,
                             destination := v.destination, data := v.data)
    ensures DecodeCall(CallTail(v), pos, m) == Decoded(v, None)
  {
    hide BytesPart, NumberPart, DecodeCall;
    var t6 := BytesPart(0x62, v.callbackClosure);
    var t5 := BytesPart(0x5a, v.errorCallback) + t6;
    var t4 := BytesPart(0x52, v.successCallback) + t5;
    var t3 := BytesPart(0x4a, v.valueBytes) + t4;
    var t2 := NumberPart(0x40, v.gasLocked) + t3;
    var n := pos + |CallTail(v)|;
    DecodeCallNumber(0x38, v.gasLimit, t2, pos, m);
    var m1 := m.(gasLimit := v.gasLimit);
    DecodeCallNumber(0x40, v.gasLocked, t3, n - |t2|, m1);
    var m2 := m1.(gasLocked := v.gasLocked);
    DecodeCallBlob(0x4a, v.valueBytes, t4, n - |t3|, m2);
    var m3 := m2.(valueBytes := v.valueBytes);
    DecodeCallBlob(0x52, v.successCallback, t5, n - |t4|, m3);
    var m4 := m3.(successCallback := v.successCallback);
    DecodeCallBlob(0x5a, v.errorCallback, t6, n - |t5|, m4);
    var m5 := m4.(errorCallback := v.errorCallback);
    DecodeCallBlob(0x62, v.callbackClosure, [], n - |t6|, m5);
    assert t6 + [] == t6;
    DecodeCallEnd(n, v);
  }

  /** Decoding a call's encoding into an empty call gives the call back, for all field values. */
  lemma CallRoundTrip(v: CallValue, pos: nat)
    requires pos + |EncodeCall(v)| < TWO_63
    ensures DecodeCall(EncodeCall(v), pos, EMPTY_CALL) == Decoded(v, None)
  {
    hide BytesPart, NumberPart, DecodeCall;
    var t5 := CallTail(v);
    var t4 := BytesPart(0x32, v.data) + t5;
    var t3 := BytesPart(0x2a, v.destination) + t4;
    var t2 := NumberPart(0x18, Unsigned(v.executionMode)) + t3;
    var t1 := NumberPart(0x10, Unsigned(v.status)) + t2;
    var n := pos + |EncodeCall(v)|;
    EnumRoundTrip(v.status);
    EnumRoundTrip(v.executionMode);
    DecodeCallBlob(0x0a, v.callID, t1, pos, EMPTY_CALL);
    var m1 := EMPTY_CALL.(callID := v.callID);
    DecodeCallNumber(0x10, Unsigned(v.status), t2, n - |t1|, m1);
    var m2 := m1.(status := v.status);
    DecodeCallNumber(0x18, Unsigned(v.executionMode), t3, n - |t2|, m2);
    var m3 := m2.(executionMode := v.executionMode);
    DecodeCallBlob(0x2a, v.destination, t4, n - |t3|, m3);
    var m4 := m3.(destination := v.destination);
    DecodeCallBlob(0x32, v.data, t5, n - |t4|, m4);
    CallTailRoundTrip(v, m4.(data := v.data), n - |t5|);
  }

  lemma DecodeGroupBlob(tag: byte, b: seq<byte>, rest: seq<byte>, pos: nat, m: GroupValue)
    requires tag == 0x0a || tag == 0x1a || tag == 0x22
    requires b == [] ==> SetGroup(m, tag as nat / 8, Blob([])).msg == m
    requires pos + |BytesPart(tag, b)| < TWO_63
    ensures DecodeGroup(BytesPart(tag, b) + rest, pos, m)
         == DecodeGroup(rest, pos + |BytesPart(tag, b)|, SetGroup(m, tag as nat / 8, Blob(b)).msg)
  {
    hide DecodeGroup, SetGroup, Encoding, DecodeCall, Accepted, NumberOf, Bytes, Content;
    if b == [] {
      assert BytesPart(tag, b) + rest == rest;
    } else {
      var f := BlobField(GroupSchema, tag, b);
      DecodeGroupStep(f, rest, pos, m);
    }
  }

  lemma DecodeGroupNumber(v: uint64, rest: seq<byte>, pos: nat, m: GroupValue)
    requires v == 0 ==> m.gasLocked == 0
    requires pos + |NumberPart(0x10, v)| < TWO_63
    ensures DecodeGroup(NumberPart(0x10, v) + rest, pos, m)
         == DecodeGroup(rest, pos + |NumberPart(0x10, v)|, m.(gasLocked := v))
  {
    hide DecodeGroup, Encoding, DecodeCall, Accepted, NumberOf, Bytes, Content;
    if v == 0 {
      assert NumberPart(0x10, v) + rest == rest;
    } else {
      var f := NumberField(GroupSchema, 0x10, v);
      DecodeGroupStep(f, rest, pos, m);
    }
  }

  lemma DecodeGroupCall(v: CallValue, rest: seq<byte>, pos: nat, m: GroupValue)
    requires pos + |CallPart(v)| < TWO_63
    ensures DecodeGroup(CallPart(v) + rest, pos, m)
         == DecodeGroup(rest, pos + |CallPart(v)|, m.(calls := m.calls + [v]))
  {
    hide DecodeGroup, DecodeCall, EncodeCall, Encoding, Accepted, NumberOf, Bytes, Content;
    var b := EncodeCall(v);
    CallRoundTrip(v, 0);
    var f := BlobField(GroupSchema, 0x2a, b);
    DecodeGroupStep(f, rest, pos, m);
  }

  /** Nested calls are read back in order. */
  lemma {:induction false} CallPartsRoundTrip(calls: seq<CallValue>, pos: nat, m: GroupValue)
    requires pos + |CallParts(calls)| < TWO_63
    ensures DecodeGroup(CallParts(calls), pos, m) == Decoded(m.(calls := m.calls + calls), None)
    decreases |calls|
  {
    hide ReadField, CallPart;
    if calls != [] {
      DecodeGroupCall(calls[0], CallParts(calls[1..]), pos, m);
      var m' := m.(calls := m.calls + [calls[0]]);
      CallPartsRoundTrip(calls[1..], pos + |CallPart(calls[0])|, m');
      assert m'.calls + calls[1..] == m.calls + calls;
    } else {
      assert m.calls + calls == m.calls;
    }
  }

  /** The main round trip: any group, its calls in the same order, is decoded from its encoding. */
  lemma GroupRoundTrip(v: GroupValue)
    requires |EncodeGroup(v)| < TWO_63
    ensures DecodeGroup(EncodeGroup(v), 0, EMPTY_GROUP) == Decoded(v, None)
  {
    hide BytesPart, NumberPart, DecodeGroup, CallParts, DecodeCall;
    var t4 := CallParts(v.calls);
    var t3 := BytesPart(0x22, v.identifier) + t4;
    var t2 := BytesPart(0x1a, v.callbackData) + t3;
    var t1 := NumberPart(0x10, v.gasLocked) + t2;
    var n := |EncodeGroup(v)|;
    DecodeGroupBlob(0x0a, v.callback, t1, 0, EMPTY_GROUP);
    var m1 := EMPTY_GROUP.(callback := v.callback);
    DecodeGroupNumber(v.gasLocked, t2, n - |t1|, m1);
    var m2 := m1.(gasLocked := v.gasLocked);
    DecodeGroupBlob(0x1a, v.callbackData, t3, n - |t2|, m2);
    var m3 := m2.(callbackData := v.callbackData);
    DecodeGroupBlob(0x22, v.identifier, t4, n - |t3|, m3);
    CallPartsRoundTrip(v.calls, n - |t4|, m3.(identifier := v.identifier));
    assert [] + v.calls == v.calls;
  }

  // ----- Merging -----

  predicate LengthError(e: Error) {
    e == InvalidLength || e == UnexpectedEOF
  }

  /**
    Equal results, except that a failing decoder may report a negative length where another,
    started elsewhere in its input, reports a truncation.
   */
  predicate SameOutcome<M(==)>(a: Decoded<M>, b: Decoded<M>) {
    a.msg == b.msg && (a.err == b.err || (a.err.Some? && b.err.Some? && LengthError(a.err.value) && LengthError(b.err.value)))
  }

  lemma SameOutcomeChain<M>(a: Decoded<M>, b: Decoded<M>, c: Decoded<M>)
    requires SameOutcome(a, b) && SameOutcome(c, b)
    ensures SameOutcome(a, c)
  {
  }

  lemma ReadBytesMoved(s: seq<byte>, p: nat, q: nat)
    requires p + |s| < TWO_63 && q + |s| < TWO_63
    ensures var a, b := ReadBytes(s, p), ReadBytes(s, q);
            a == b || (a.Err? && b.Err? && LengthError(a.err) && LengthError(b.err))
  {
    hide ReadVarint;
  }

  /** Where a field lies in the input matters only for the kind of error. */
  lemma ReadFieldMoved(schema: Schema, s: seq<byte>, p: nat, q: nat)
    requires p + |s| < TWO_63 && q + |s| < TWO_63
    ensures var a, b := ReadField(schema, s, p), ReadField(schema, s, q);
            a == b || (a.Stopped? && b.Stopped? && LengthError(a.err) && LengthError(b.err))
  {
    hide ReadVarint, ReadBytes, SkipFrom, KindOf;
    if ReadVarint(s).Read? {
      var k := ReadVarint(s).len;
      ReadBytesMoved(s[k..], p + k, q + k);
    }
  }

  lemma {:induction false} DecodeCallMoved(s: seq<byte>, p: nat, q: nat, m: CallValue)
    requires p + |s| < TWO_63 && q + |s| < TWO_63
    ensures SameOutcome(DecodeCall(s, p, m), DecodeCall(s, q, m))
    decreases |s|
  {
    hide ReadField, SetCall;
    if s != [] {
      ReadFieldMoved(CallSchema, s, p, q);
      match ReadField(CallSchema, s, p)
      case Field(num, d, n) => DecodeCallMoved(s[n..], p + n, q + n, SetCall(m, num, d));
      case Ignored(n) => DecodeCallMoved(s[n..], p + n, q + n, m);
      case _ =>
    }
  }

  lemma {:induction false} DecodeGroupMoved(s: seq<byte>, p: nat, q: nat, m: GroupValue)
    requires p + |s| < TWO_63 && q + |s| < TWO_63
    ensures SameOutcome(DecodeGroup(s, p, m), DecodeGroup(s, q, m))
    decreases |s|
  {
    hide ReadField, SetGroup;
    if s != [] {
      ReadFieldMoved(GroupSchema, s, p, q);
      match ReadField(GroupSchema, s, p)
      case Field(num, d, n) =>
        if SetGroup(m, num, d).err.None? {
          DecodeGroupMoved(s[n..], p + n, q + n, SetGroup(m, num, d).msg);
        }
      case Ignored(n) => DecodeGroupMoved(s[n..], p + n, q + n, m);
      case _ =>
    }
  }

  /** Decoding a concatenation is decoding the second half into the result of the first. */
  lemma CallMerge(a: seq<byte>, b: seq<byte>, m: CallValue)
    requires |a| + |b| < TWO_63 && DecodeCall(a, 0, m).err.None?
    ensures SameOutcome(DecodeCall(a + b, 0, m), DecodeCall(b, 0, DecodeCall(a, 0, m).msg))
  {
    hide DecodeCall, AllBytes, AllAccepted, FoldCall;
    var fs := ParseCall(a, 0, m);
    CallLanguage(a, m);
    DecodeCallFields(fs, b, 0, m);
    DecodeCallMoved(b, |a|, 0, FoldCall(m, fs));
  }

  lemma GroupMerge(a: seq<byte>, b: seq<byte>, m: GroupValue)
    requires |a| + |b| < TWO_63 && DecodeGroup(a, 0, m).err.None?
    ensures SameOutcome(DecodeGroup(a + b, 0, m), DecodeGroup(b, 0, DecodeGroup(a, 0, m).msg))
  {
    hide DecodeGroup, AllBytes, AllAcceptedByGroup, FoldGroup;
    var fs := ParseGroup(a, 0, m);
    GroupLanguage(a, m);
    DecodeGroupFields(fs, b, 0, m);
    DecodeGroupMoved(b, |a|, 0, FoldGroup(m, fs));
  }

  /** Decoding never looks at the calls already present: it appends to them. */
  lemma {:induction false} GroupCallsAppend(s: seq<byte>, pos: nat, m: GroupValue)
    ensures var r := DecodeGroup(s, pos, m.(calls := []));
            DecodeGroup(s, pos, m) == Decoded(r.msg.(calls := m.calls + r.msg.calls), r.err)
    decreases |s|
  {
    hide ReadField, DecodeCall;
    if s == [] {
      assert m.calls + [] == m.calls;
    } else {
      match ReadField(GroupSchema, s, pos)
      case Field(num, d, n) =>
        var with, without := SetGroup(m, num, d), SetGroup(m.(calls := []), num, d);
        assert m.calls + without.msg.calls == with.msg.calls;
        GroupCallsAppend(s[n..], pos + n, with.msg);
        GroupCallsAppend(s[n..], pos + n, without.msg);
        var r := DecodeGroup(s[n..], pos + n, with.msg.(calls := []));
        assert with.msg.calls + r.msg.calls == m.calls + (without.msg.calls + r.msg.calls);
      case Ignored(n) =>
        GroupCallsAppend(s[n..], pos + n, m);
      case NumberBroken(num, p, e) =>
        assert m.calls + [] == m.calls;
      case Stopped(e) =>
        assert m.calls + [] == m.calls;
    }
  }

  // ----- Last one wins -----

  lemma SetCallTwice(m: CallValue, num: int32, x: FieldData, y: FieldData)
    requires x.Blob? <==> y.Blob?
    ensures SetCall(SetCall(m, num, x), num, y) == SetCall(m, num, y)
  {
  }

  lemma SetCallCommutes(m: CallValue, i: int32, x: FieldData, j: int32, y: FieldData)
    requires i != j
    ensures SetCall(SetCall(m, i, x), j, y) == SetCall(SetCall(m, j, y), i, x)
  {
    hide SetCall;
    if x.Number? {
      SetNumberCommutes(m, i, x, j, y);
    } else if y.Number? {
      SetNumberCommutes(m, j, y, i, x);
    } else {
      SetBlobsCommute(m, i, x, j, y);
    }
  }

  lemma SetBlobsCommute(m: CallValue, i: int32, x: FieldData, j: int32, y: FieldData)
    requires i != j && x.Blob? && y.Blob?
    ensures SetCall(SetCall(m, i, x), j, y) == SetCall(SetCall(m, j, y), i, x)
  {
    hide ToInt32;
  }

  lemma SetNumberCommutes(m: CallValue, i: int32, x: FieldData, j: int32, y: FieldData)
    requires i != j && x.Number?
    ensures SetCall(SetCall(m, i, x), j, y) == SetCall(SetCall(m, j, y), i, x)
  {
    hide ToInt32;
  }

  /** Setting a field before decoding does not show once the field is set again afterwards. */
  lemma {:induction false} LaterFieldWins(fs: seq<RawField>, m: CallValue, num: int32, x: FieldData, y: FieldData)
    requires AllAccepted(CallSchema, fs)
    requires KindOf(CallSchema, num) == (if x.Blob? then BytesKind else NumberKind)
    requires x.Blob? <==> y.Blob?
    ensures SetCall(FoldCall(SetCall(m, num, x), fs), num, y) == SetCall(FoldCall(m, fs), num, y)
    decreases |fs|
  {
    hide SetCall, Accepted;
    if fs == [] {
      SetCallTwice(m, num, x, y);
    } else {
      ContentKind(CallSchema, fs[0]);
      var c := Content(CallSchema, fs[0]);
      if !c.Field? {
        LaterFieldWins(fs[1..], m, num, x, y);
      } else if c.num == num {
        SetCallTwice(m, num, x, c.data);
      } else {
        SetCallCommutes(m, num, x, c.num, c.data);
        LaterFieldWins(fs[1..], SetCall(m, c.num, c.data), num, x, y);
      }
    }
  }

  lemma ContentKind(schema: Schema, f: RawField)
    requires Accepted(schema, f)
    ensures var c := Content(schema, f);
            c.Field? ==> KindOf(schema, c.num) == (if c.data.Blob? then BytesKind else NumberKind)
  {
  }

  /** An earlier occurrence of a known field can be deleted if the field occurs again later. */
  lemma LastOneWins(f: RawField, fs: seq<RawField>, g: RawField, m: CallValue)
    requires Accepted(CallSchema, f) && Accepted(CallSchema, g) && AllAccepted(CallSchema, fs)
    requires NumberOf(f) == NumberOf(g) && Known(CallSchema, NumberOf(f))
    ensures FoldCall(m, [f] + fs + [g]) == FoldCall(m, fs + [g])
  {
    hide Accepted, SetCall, Content, KindOf, ApplyCall, FoldCall, NumberOf, Known;
    var num, x := KnownCallEffect(f);
    var num', y := KnownCallEffect(g);
    LaterFieldWins(fs, m, num, x, y);
    FoldCallSnoc(ApplyCall(m, f), fs, g);
    FoldCallSnoc(m, fs, g);
    FoldCallCons(m, f, fs + [g]);
    assert [f] + fs + [g] == [f] + (fs + [g]);
  }

  /** A known field sets the field with its number. */
  lemma KnownCallEffect(f: RawField) returns (num: int32, x: FieldData)
    requires Accepted(CallSchema, f) && Known(CallSchema, NumberOf(f))
    ensures num == NumberOf(f) && KindOf(CallSchema, num) == (if x.Blob? then BytesKind else NumberKind)
    ensures forall m :: ApplyCall(m, f) == SetCall(m, num, x)
  {
    hide Accepted, SetCall;
    KnownContent(CallSchema, f);
    ContentKind(CallSchema, f);
    num, x := NumberOf(f), Content(CallSchema, f).data;
  }

  lemma FoldCallCons(m: CallValue, f: RawField, fs: seq<RawField>)
    ensures FoldCall(m, [f] + fs) == FoldCall(ApplyCall(m, f), fs)
  {
    assert ([f] + fs)[1..] == fs;
  }

  lemma KnownContent(schema: Schema, f: RawField)
    requires Accepted(schema, f) && Known(schema, NumberOf(f))
    ensures Content(schema, f).Field? && Content(schema, f).num == NumberOf(f)
  {
  }

  lemma {:induction false} FoldCallSnoc(m: CallValue, fs: seq<RawField>, g: RawField)
    ensures FoldCall(m, fs + [g]) == ApplyCall(FoldCall(m, fs), g)
    decreases |fs|
  {
    hide ApplyCall;
    if fs == [] {
      assert (fs + [g])[1..] == [];
    } else {
      FoldCallSnoc(ApplyCall(m, fs[0]), fs[1..], g);
      assert (fs + [g])[1..] == fs[1..] + [g];
    }
  }

  // The same for the scalar fields of a group.

  lemma SetGroupTwice(m: GroupValue, num: int32, x: FieldData, y: FieldData)
    requires num != 5 && (x.Blob? <==> y.Blob?)
    ensures SetGroup(SetGroup(m, num, x).msg, num, y).msg == SetGroup(m, num, y).msg
  {
  }

  lemma SetGroupCommutes(m: GroupValue, i: int32, x: FieldData, j: int32, y: FieldData)
    requires i != j
    ensures SetGroup(SetGroup(m, i, x).msg, j, y).msg == SetGroup(SetGroup(m, j, y).msg, i, x).msg
  {
    hide DecodeCall;
  }

  lemma {:induction false} LaterGroupFieldWins(fs: seq<RawField>, m: GroupValue, num: int32, x: FieldData, y: FieldData)
    requires AllAccepted(GroupSchema, fs) && num != 5
    requires KindOf(GroupSchema, num) == (if x.Blob? then BytesKind else NumberKind)
    requires x.Blob? <==> y.Blob?
    ensures SetGroup(FoldGroup(SetGroup(m, num, x).msg, fs), num, y).msg == SetGroup(FoldGroup(m, fs), num, y).msg
    decreases |fs|
  {
    hide SetGroup, Accepted;
    if fs == [] {
      SetGroupTwice(m, num, x, y);
    } else {
      ContentKind(GroupSchema, fs[0]);
      var c := Content(GroupSchema, fs[0]);
      if !c.Field? {
        LaterGroupFieldWins(fs[1..], m, num, x, y);
      } else if c.num == num {
        SetGroupTwice(m, num, x, c.data);
      } else {
        SetGroupCommutes(m, num, x, c.num, c.data);
        LaterGroupFieldWins(fs[1..], SetGroup(m, c.num, c.data).msg, num, x, y);
      }
    }
  }

  lemma GroupLastOneWins(f: RawField, fs: seq<RawField>, g: RawField, m: GroupValue)
    requires Accepted(GroupSchema, f) && Accepted(GroupSchema, g) && AllAccepted(GroupSchema, fs)
    requires NumberOf(f) == NumberOf(g) != 5 && Known(GroupSchema, NumberOf(f))
    ensures FoldGroup(m, [f] + fs + [g]) == FoldGroup(m, fs + [g])
  {
    hide Accepted, SetGroup, Content, KindOf, ApplyGroup, FoldGroup, NumberOf;
    var num, x := KnownEffect(f);
    var num', y := KnownEffect(g);
    LaterGroupFieldWins(fs, m, num, x, y);
    FoldGroupSnoc(ApplyGroup(m, f), fs, g);
    FoldGroupSnoc(m, fs, g);
    FoldGroupCons(m, f, fs + [g]);
    assert [f] + fs + [g] == [f] + (fs + [g]);
  }

  /** A known field sets the field with its number. */
  lemma KnownEffect(f: RawField) returns (num: int32, x: FieldData)
    requires Accepted(GroupSchema, f) && Known(GroupSchema, NumberOf(f))
    ensures num == NumberOf(f) && KindOf(GroupSchema, num) == (if x.Blob? then BytesKind else NumberKind)
    ensures forall m :: ApplyGroup(m, f) == SetGroup(m, num, x).msg
  {
    hide Accepted, SetGroup;
    KnownContent(GroupSchema, f);
    ContentKind(GroupSchema, f);
    num, x := NumberOf(f), Content(GroupSchema, f).data;
  }

  lemma FoldGroupCons(m: GroupValue, f: RawField, fs: seq<RawField>)
    ensures FoldGroup(m, [f] + fs) == FoldGroup(ApplyGroup(m, f), fs)
  {
    assert ([f] + fs)[1..] == fs;
  }

  lemma {:induction false} FoldGroupSnoc(m: GroupValue, fs: seq<RawField>, g: RawField)
    ensures FoldGroup(m, fs + [g]) == ApplyGroup(FoldGroup(m, fs), g)
    decreases |fs|
  {
    hide ApplyGroup;
    if fs == [] {
      assert (fs + [g])[1..] == [];
    } else {
      FoldGroupSnoc(ApplyGroup(m, fs[0]), fs[1..], g);
      assert (fs + [g])[1..] == fs[1..] + [g];
    }
  }

  // ----- Unknown fields -----

  predicate Unknown(schema: Schema, f: RawField) {
    WellFormed(f) && NumberOf(f) > 0 && !Known(schema, NumberOf(f))
  }

  /** A well-formed field with an unknown number can be inserted at any field boundary. */
  lemma CallIgnoresUnknown(a: seq<byte>, f: RawField, b: seq<byte>, m: CallValue)
    requires Unknown(CallSchema, f) && |a| + |Bytes(f)| + |b| < TWO_63
    requires DecodeCall(a, 0, m).err.None?
    ensures SameOutcome(DecodeCall(a + (Bytes(f) + b), 0, m), DecodeCall(a + b, 0, m))
  {
    hide DecodeCall, Bytes, WellFormed, SameOutcome, KindOf, NumberOf;
    var m' := DecodeCall(a, 0, m).msg;
    CallMerge(a, Bytes(f) + b, m);
    CallMerge(a, b, m);
    UnknownCallStep(f, b, m');
    SameOutcomeChain(DecodeCall(a + b, 0, m), DecodeCall(b, 0, m'), DecodeCall(Bytes(f) + b, 0, m'));
    SameOutcomeChain(DecodeCall(a + (Bytes(f) + b), 0, m), DecodeCall(Bytes(f) + b, 0, m'), DecodeCall(a + b, 0, m));
  }

  lemma UnknownCallStep(f: RawField, b: seq<byte>, m: CallValue)
    requires Unknown(CallSchema, f) && |Bytes(f)| + |b| < TWO_63
    ensures SameOutcome(DecodeCall(Bytes(f) + b, 0, m), DecodeCall(b, 0, m))
  {
    hide DecodeCall, Bytes, WellFormed, SameOutcome, NumberOf;
    DecodeCallStep(f, b, 0, m);
    DecodeCallMoved(b, |Bytes(f)|, 0, m);
  }

  lemma GroupIgnoresUnknown(a: seq<byte>, f: RawField, b: seq<byte>, m: GroupValue)
    requires Unknown(GroupSchema, f) && |a| + |Bytes(f)| + |b| < TWO_63
    requires DecodeGroup(a, 0, m).err.None?
    ensures SameOutcome(DecodeGroup(a + (Bytes(f) + b), 0, m), DecodeGroup(a + b, 0, m))
  {
    hide DecodeGroup, Bytes, WellFormed, SameOutcome, KindOf, NumberOf;
    var m' := DecodeGroup(a, 0, m).msg;
    GroupMerge(a, Bytes(f) + b, m);
    GroupMerge(a, b, m);
    UnknownGroupStep(f, b, m');
    SameOutcomeChain(DecodeGroup(a + b, 0, m), DecodeGroup(b, 0, m'), DecodeGroup(Bytes(f) + b, 0, m'));
    SameOutcomeChain(DecodeGroup(a + (Bytes(f) + b), 0, m), DecodeGroup(Bytes(f) + b, 0, m'), DecodeGroup(a + b, 0, m));
  }

  lemma UnknownGroupStep(f: RawField, b: seq<byte>, m: GroupValue)
    requires Unknown(GroupSchema, f) && |Bytes(f)| + |b| < TWO_63
    ensures SameOutcome(DecodeGroup(Bytes(f) + b, 0, m), DecodeGroup(b, 0, m))
  {
    hide DecodeGroup, Bytes, WellFormed, DecodeCall, SameOutcome, NumberOf;
    DecodeGroupStep(f, b, 0, m);
    DecodeGroupMoved(b, |Bytes(f)|, 0, m);
  }
}
