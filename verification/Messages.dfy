/**
  The two protobuf messages as values: their field-by-field encoding and the decoder's meaning,
  including the state a failing decoder leaves behind.
 */
module Messages {
  import opened MachineIntegers
  import opened Options
  import opened Varint
  import opened Wire

  datatype CallValue = CallValue(
    callID: seq<byte>,
    status: int32,
    executionMode: int32,
    destination: seq<byte>,
    data: seq<byte>,
    gasLimit: uint64,
    gasLocked: uint64,
    valueBytes: seq<byte>,
    successCallback: seq<byte>,
    errorCallback: seq<byte>,
    callbackClosure: seq<byte>)

  datatype GroupValue = GroupValue(
    callback: seq<byte>,
    gasLocked: uint64,
    callbackData: seq<byte>,
    identifier: seq<byte>,
    calls: seq<CallValue>)

  const EMPTY_CALL := CallValue([], 0, 0, [], [], 0, 0, [], [], [], [])
  const EMPTY_GROUP := GroupValue([], 0, [], [], [])

  // ----- Encoding -----

  /** `uint64` of a signed enumeration value: negative numbers are sign-extended to ten bytes. */
  function Unsigned(x: int32): uint64 {
    Wrap64(x)
  }

  function BytesPart(tag: byte, b: seq<byte>): seq<byte> {
    if b == [] then [] else [tag] + (Encoding(|b|) + b)
  }

  function NumberPart(tag: byte, v: uint64): seq<byte> {
    if v == 0 then [] else [tag] + Encoding(v)
  }

  function EncodeCall(m: CallValue): seq<byte> {
    BytesPart(0x0a, m.callID)
    + (NumberPart(0x10, Unsigned(m.status))
    + (NumberPart(0x18, Unsigned(m.executionMode))
    + (BytesPart(0x2a, m.destination)
    + (BytesPart(0x32, m.data)
    + (NumberPart(0x38, m.gasLimit)
    + (NumberPart(0x40, m.gasLocked)
    + (BytesPart(0x4a, m.valueBytes)
    + (BytesPart(0x52, m.successCallback)
    + (BytesPart(0x5a, m.errorCallback)
    + BytesPart(0x62, m.callbackClosure))))))))))
  }

  /** A nested message is written even when it has no bytes. */
  function CallPart(m: CallValue): seq<byte> {
    [0x2a] + (Encoding(|EncodeCall(m)|) + EncodeCall(m))
  }

  function CallParts(calls: seq<CallValue>): seq<byte> {
    if calls == [] then [] else CallPart(calls[0]) + CallParts(calls[1..])
  }

  function EncodeGroup(m: GroupValue): seq<byte> {
    BytesPart(0x0a, m.callback)
    + (NumberPart(0x10, m.gasLocked)
    + (BytesPart(0x1a, m.callbackData)
    + (BytesPart(0x22, m.identifier)
    + CallParts(m.calls))))
  }

  // ----- Size -----

  function BytesSize(b: seq<byte>): nat {
    if b == [] then 0 else 1 + |b| + SizeOfVarint(Wrap64(|b|))
  }

  function NumberSize(v: uint64): nat {
    if v == 0 then 0 else 1 + SizeOfVarint(v)
  }

  /** `SerializableAsyncCall.Size`. */
  function SizeCall(m: CallValue): nat {
    BytesSize(m.callID)
    + NumberSize(Unsigned(m.status))
    + NumberSize(Unsigned(m.executionMode))
    + BytesSize(m.destination)
    + BytesSize(m.data)
    + NumberSize(m.gasLimit)
    + NumberSize(m.gasLocked)
    + BytesSize(m.valueBytes)
    + BytesSize(m.successCallback)
    + BytesSize(m.errorCallback)
    + BytesSize(m.callbackClosure)
  }

  function SizeCalls(calls: seq<CallValue>): nat {
    if calls == [] then 0
    else 1 + SizeCall(calls[0]) + SizeOfVarint(Wrap64(SizeCall(calls[0]))) + SizeCalls(calls[1..])
  }

  /** `SerializableAsyncCallGroup.Size`. */
  function SizeGroup(m: GroupValue): nat {
    BytesSize(m.callback) + NumberSize(m.gasLocked) + BytesSize(m.callbackData) + BytesSize(m.identifier)
    + SizeCalls(m.calls)
  }

  lemma BytesPartSize(tag: byte, b: seq<byte>)
    requires |b| < TWO_64
    ensures |BytesPart(tag, b)| == BytesSize(b)
  {
    hide SizeOfVarint, Encoding;
    Wrap64Identity(|b|);
    SizeIsEncodingLength(|b|);
  }

  lemma NumberPartSize(tag: byte, v: uint64)
    ensures |NumberPart(tag, v)| == NumberSize(v)
  {
    hide SizeOfVarint, Encoding;
    SizeIsEncodingLength(v);
  }

  /** The size of a call is the length of its encoding. */
  lemma SizeOfCall(m: CallValue)
    requires |EncodeCall(m)| < TWO_63
    ensures SizeCall(m) == |EncodeCall(m)|
  {
    hide BytesPart, NumberPart, BytesSize, NumberSize;
    PartsFit(m);
    BytesPartSize(0x0a, m.callID);
    NumberPartSize(0x10, Unsigned(m.status));
    NumberPartSize(0x18, Unsigned(m.executionMode));
    BytesPartSize(0x2a, m.destination);
    BytesPartSize(0x32, m.data);
    NumberPartSize(0x38, m.gasLimit);
    NumberPartSize(0x40, m.gasLocked);
    BytesPartSize(0x4a, m.valueBytes);
    BytesPartSize(0x52, m.successCallback);
    BytesPartSize(0x5a, m.errorCallback);
    BytesPartSize(0x62, m.callbackClosure);
  }

  lemma BytesPartHolds(tag: byte, b: seq<byte>)
    ensures |b| <= |BytesPart(tag, b)|
  {
  }

  lemma PartsFit(m: CallValue)
    requires |EncodeCall(m)| < TWO_63
    ensures |m.callID| < TWO_63 && |m.destination| < TWO_63 && |m.data| < TWO_63 && |m.valueBytes| < TWO_63
    ensures |m.successCallback| < TWO_63 && |m.errorCallback| < TWO_63 && |m.callbackClosure| < TWO_63
  {
    hide BytesPart, NumberPart;
    BytesPartHolds(0x0a, m.callID);
    BytesPartHolds(0x2a, m.destination);
    BytesPartHolds(0x32, m.data);
    BytesPartHolds(0x4a, m.valueBytes);
    BytesPartHolds(0x52, m.successCallback);
    BytesPartHolds(0x5a, m.errorCallback);
    BytesPartHolds(0x62, m.callbackClosure);
  }

  lemma {:induction false} SizeOfCalls(calls: seq<CallValue>)
    requires |CallParts(calls)| < TWO_63
    ensures SizeCalls(calls) == |CallParts(calls)|
    decreases |calls|
  {
    hide EncodeCall, SizeCall, SizeOfVarint, Encoding;
    if calls != [] {
      var n := |EncodeCall(calls[0])|;
      SizeOfCall(calls[0]);
      Wrap64Identity(n);
      SizeIsEncodingLength(n);
      SizeOfCalls(calls[1..]);
    }
  }

  /** The size of a group is the length of its encoding. */
  lemma SizeOfGroup(m: GroupValue)
    requires |EncodeGroup(m)| < TWO_63
    ensures SizeGroup(m) == |EncodeGroup(m)|
  {
    hide BytesPart, NumberPart, BytesSize, NumberSize, CallParts, SizeCalls;
    BytesPartHolds(0x0a, m.callback);
    BytesPartHolds(0x1a, m.callbackData);
    BytesPartHolds(0x22, m.identifier);
    BytesPartSize(0x0a, m.callback);
    NumberPartSize(0x10, m.gasLocked);
    BytesPartSize(0x1a, m.callbackData);
    BytesPartSize(0x22, m.identifier);
    SizeOfCalls(m.calls);
  }

  // ----- Reading one field -----

  datatype Schema = CallSchema | GroupSchema
  datatype Kind = BytesKind | NumberKind | UnknownKind

  function KindOf(schema: Schema, num: int32): Kind {
    match schema
    case CallSchema =>
      if num == 2 || num == 3 || num == 7 || num == 8 then NumberKind
      else if num == 1 || num == 5 || num == 6 || 9 <= num <= 12 then BytesKind
      else UnknownKind
    case GroupSchema =>
      if num == 2 then NumberKind
      else if num == 1 || 3 <= num <= 5 then BytesKind
      else UnknownKind
  }

  datatype FieldData = Blob(bytes: seq<byte>) | Number(value: uint64)

  /** Outcome of one turn of a decoder: what was read, and how many bytes it took. */
  datatype FieldRead =
    | Field(num: int32, data: FieldData, n: nat)
    | Ignored(n: nat)
    | NumberBroken(num: int32, partial: uint64, err: Error)
    | Stopped(err: Error)
  {
    predicate Consumed?() {
      Field? || Ignored?
    }
  }

  /** A length-delimited payload; `pos` is the cursor in the whole input. */
  function ReadBytes(s: seq<byte>, pos: nat): (r: Result<(seq<byte>, nat)>)
    ensures r.Ok? ==> r.value.1 <= |s|
  {
    match ReadVarint(s)
    case Broken(e, _) => Err(e)
    case Read(v, k) =>
      if ToInt64(v) < 0 then Err(InvalidLength)
      else if pos + k + ToInt64(v) >= TWO_63 then Err(InvalidLength)
      else if k + ToInt64(v) > |s| then Err(UnexpectedEOF)
      else Ok((s[k..k + ToInt64(v)], k + ToInt64(v)))
  }

  /** `s` starts at the tag, `k` is the tag's length. */
  function ReadTagged(schema: Schema, s: seq<byte>, pos: nat, wire: uint64, k: nat): (r: FieldRead)
    requires 1 <= k <= |s|
    ensures r.Consumed?() ==> 1 <= r.n <= |s|
  {
    var num, wireType := FieldNumber(wire), WireType(wire);
    if wireType == 4 then Stopped(EndGroupForNonGroup)
    else if num <= 0 then Stopped(IllegalTag(num))
    else
      match KindOf(schema, num)
      case BytesKind =>
        if wireType != 2 then Stopped(WrongWireType(num, wireType))
        else (match ReadBytes(s[k..], pos + k)
              case Ok((payload, n)) => Field(num, Blob(payload), k + n)
              case Err(e) => Stopped(e))
      case NumberKind =>
        if wireType != 0 then Stopped(WrongWireType(num, wireType))
        else (match ReadVarint(s[k..])
              case Read(v, n) => Field(num, Number(v), k + n)
              case Broken(e, p) => NumberBroken(num, p, e))
      case UnknownKind =>
        match SkipFrom(s, 0, 0)
        case Err(e) => Stopped(e)
        case Ok(n) =>
          if pos + n >= TWO_63 then Stopped(InvalidLength)
          else if n > |s| then Stopped(UnexpectedEOF)
          else Ignored(n)
  }

  function ReadField(schema: Schema, s: seq<byte>, pos: nat): (r: FieldRead)
    ensures r.Consumed?() ==> 1 <= r.n <= |s|
  {
    match ReadVarint(s)
    case Broken(e, _) => Stopped(e)
    case Read(wire, k) => ReadTagged(schema, s, pos, wire, k)
  }

  // ----- Decoding -----

  /** The message a decoder leaves behind, and its error if it stopped early. */
  datatype Decoded<M> = Decoded(msg: M, err: Option<Error>)

  function SetCall(m: CallValue, num: int32, d: FieldData): CallValue {
    match d
    case Blob(b) =>
      (match num
       case 1 => m.(callID := b)
       case 5 => m.(destination := b)
       case 6 => m.(data := b)
       case 9 => m.(valueBytes := b)
       case 10 => m.(successCallback := b)
       case 11 => m.(errorCallback := b)
       case 12 => m.(callbackClosure := b)
       case _ => m)
    case Number(v) =>
      (match num
       case 2 => m.(status := ToInt32(v))
       case 3 => m.(executionMode := ToInt32(v))
       case 7 => m.(gasLimit := v)
       case 8 => m.(gasLocked := v)
       case _ => m)
  }

  /** `SerializableAsyncCall.Unmarshal` on the rest of the input; `pos` is the cursor. */
  function DecodeCall(s: seq<byte>, pos: nat, m: CallValue): Decoded<CallValue>
    decreases |s|
  {
    if s == [] then Decoded(m, None)
    else
      match ReadField(CallSchema, s, pos)
      case Field(num, d, n) => DecodeCall(s[n..], pos + n, SetCall(m, num, d))
      case Ignored(n) => DecodeCall(s[n..], pos + n, m)
      case NumberBroken(num, p, e) => Decoded(SetCall(m, num, Number(p)), Some(e))
      case Stopped(e) => Decoded(m, Some(e))
  }

  /** Field 5 appends a fresh call and decodes into it; the call stays even if its bytes are bad. */
  function SetGroup(m: GroupValue, num: int32, d: FieldData): Decoded<GroupValue> {
    match d
    case Blob(b) =>
      (match num
       case 1 => Decoded(m.(callback := b), None)
       case 3 => Decoded(m.(callbackData := b), None)
       case 4 => Decoded(m.(identifier := b), None)
       case 5 =>
         var call := DecodeCall(b, 0, EMPTY_CALL);
         Decoded(m.(calls := m.calls + [call.msg]), call.err)
       case _ => Decoded(m, None))
    case Number(v) => Decoded(if num == 2 then m.(gasLocked := v) else m, None)
  }

  /** `SerializableAsyncCallGroup.Unmarshal` on the rest of the input. */
  function DecodeGroup(s: seq<byte>, pos: nat, m: GroupValue): Decoded<GroupValue>
    decreases |s|
  {
    if s == [] then Decoded(m, None)
    else
      match ReadField(GroupSchema, s, pos)
      case Field(num, d, n) =>
        var next := SetGroup(m, num, d);
        if next.err.Some? then next else DecodeGroup(s[n..], pos + n, next.msg)
      case Ignored(n) => DecodeGroup(s[n..], pos + n, m)
      case NumberBroken(num, p, e) => Decoded(SetGroup(m, num, Number(p)).msg, Some(e))
      case Stopped(e) => Decoded(m, Some(e))
  }
}
