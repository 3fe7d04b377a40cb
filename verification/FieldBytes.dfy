/**
  What the decoders do with one field, stated on its bytes: for every field number of the format,
  from one to the largest one, known to the message or not.
 */
module FieldBytes {
  import opened Options
  import opened MachineIntegers
  import opened Varint
  import opened Wire
  import opened Grammar
  import opened Messages
  import opened Codec

  const FIELD_NUMBERS: nat := 0x2000_0000
  const TWO_61: nat := 0x2000_0000_0000_0000

  /** The bytes of a length-delimited field. */
  function BlobBytes(n: nat, b: seq<byte>): seq<byte>
    requires n < FIELD_NUMBERS && |b| < TWO_63
  {
    Encoding(8 * n + 2) + Encoding(|b|) + b
  }

  /** The bytes of a varint field. */
  function ScalarBytes(n: nat, v: uint64): seq<byte>
    requires n < FIELD_NUMBERS
  {
    Encoding(8 * n) + Encoding(v)
  }

  lemma NumberedTag(n: nat, w: nat)
    requires n < TWO_61 && w < 8
    ensures IsTag(Encoding(8 * n + w), w) && ValueOf(Encoding(8 * n + w)) == 8 * n + w
  {
    hide Encoding, ValueOf, ShortVarint, Wrap64;
    var wire := 8 * n + w;
    ShortEncoding(wire);
    EncodingHasValue(wire);
    assert wire % TWO_64 == wire && wire % 8 == w by { TagParts(n, w); }
  }

  lemma TagParts(n: nat, w: nat)
    requires n < TWO_61 && w < 8
    ensures (8 * n + w) % TWO_64 == 8 * n + w && (8 * n + w) % 8 == w
  {
  }

  lemma BlobIs(n: nat, b: seq<byte>) returns (f: RawField)
    requires 1 <= n < FIELD_NUMBERS && |b| < TWO_63
    ensures f.BytesField? && f.payload == b && WellFormed(f) && NumberOf(f) == n && Bytes(f) == BlobBytes(n, b)
  {
    hide Encoding, ValueOf;
    f := BytesField(Encoding(8 * n + 2), Encoding(|b|), b);
    NumberedTag(n, 2);
    ShortEncoding(|b|);
  }

  lemma ScalarIs(n: nat, v: uint64) returns (f: RawField)
    requires 1 <= n < FIELD_NUMBERS
    ensures f.VarintField? && Wrap64(ValueOf(f.payload)) == v && WellFormed(f) && NumberOf(f) == n
    ensures Bytes(f) == ScalarBytes(n, v)
  {
    hide Encoding, ValueOf;
    f := VarintField(Encoding(8 * n), Encoding(v));
    NumberedTag(n, 0);
    ShortEncoding(v);
  }

  // ----- Calls -----

  lemma CallFieldStep(f: RawField, rest: seq<byte>, m: CallValue)
    requires Accepted(CallSchema, f) && |Bytes(f)| + |rest| < TWO_63
    ensures SameOutcome(DecodeCall(Bytes(f) + rest, 0, m), DecodeCall(rest, 0, ApplyCall(m, f)))
  {
    hide DecodeCall, Accepted, ApplyCall, Bytes;
    DecodeCallStep(f, rest, 0, m);
    DecodeCallMoved(rest, |Bytes(f)|, 0, ApplyCall(m, f));
  }

  /**
    A length-delimited field: number 1 sets the identifier, 5 the destination, 6 the data, 9 the value,
    10 and 11 the callbacks, 12 the closure, and every other number but 2, 3, 7 and 8 is passed over.
   */
  lemma CallReadsBlob(n: nat, b: seq<byte>, rest: seq<byte>, m: CallValue)
    requires 1 <= n < FIELD_NUMBERS && |b| < TWO_63 && |BlobBytes(n, b)| + |rest| < TWO_63
    requires n != 2 && n != 3 && n != 7 && n != 8
    ensures SameOutcome(DecodeCall(BlobBytes(n, b) + rest, 0, m),
                        DecodeCall(rest, 0, match n
                                            case 1 => m.(callID := b)
                                            case 5 => m.(destination := b)
                                            case 6 => m.(data := b)
                                            case 9 => m.(valueBytes := b)
                                            case 10 => m.(successCallback := b)
                                            case 11 => m.(errorCallback := b)
                                            case 12 => m.(callbackClosure := b)
                                            case _ => m))
  {
    hide DecodeCall, WellFormed, Bytes, BlobBytes, SameOutcome, NumberOf;
    var f := BlobIs(n, b);
    CallFieldStep(f, rest, m);
  }

  /** A varint field: 2 and 3 set the two enumerations, 7 and 8 the gas; unknown numbers are passed over. */
  lemma CallReadsScalar(n: nat, v: uint64, rest: seq<byte>, m: CallValue)
    requires 1 <= n < FIELD_NUMBERS && |ScalarBytes(n, v)| + |rest| < TWO_63
    requires n == 2 || n == 3 || n == 4 || n == 7 || n == 8 || n > 12
    ensures SameOutcome(DecodeCall(ScalarBytes(n, v) + rest, 0, m),
                        DecodeCall(rest, 0, match n
                                            case 2 => m.(status := SignedLow(v))
                                            case 3 => m.(executionMode := SignedLow(v))
                                            case 7 => m.(gasLimit := v)
                                            case 8 => m.(gasLocked := v)
                                            case _ => m))
  {
    hide DecodeCall, WellFormed, Bytes, ScalarBytes, SameOutcome, NumberOf, ValueOf;
    var f := ScalarIs(n, v);
    CallFieldStep(f, rest, m);
  }

  /** The number of 32 bits in two's complement that agrees with `v` modulo 2^32. */
  function SignedLow(v: uint64): (x: int32)
    ensures (v - x) % TWO_32 == 0
  {
    if v % TWO_32 < TWO_31 then v % TWO_32 else v % TWO_32 - TWO_32
  }

  // ----- Groups -----

  lemma GroupFieldStep(f: RawField, rest: seq<byte>, m: GroupValue)
    requires AcceptedByGroup(f) && |Bytes(f)| + |rest| < TWO_63
    ensures SameOutcome(DecodeGroup(Bytes(f) + rest, 0, m), DecodeGroup(rest, 0, ApplyGroup(m, f)))
  {
    hide DecodeGroup, AcceptedByGroup, ApplyGroup, Bytes;
    DecodeGroupStep(f, rest, 0, m);
    DecodeGroupMoved(rest, |Bytes(f)|, 0, ApplyGroup(m, f));
  }

  /**
    A length-delimited field of a group: 1 sets the callback, 3 its data, 4 the identifier, 5 appends the
    call its bytes hold, and every other number but 2 is passed over.
   */
  lemma GroupReadsBlob(n: nat, b: seq<byte>, rest: seq<byte>, m: GroupValue)
    requires 1 <= n < FIELD_NUMBERS && |b| < TWO_63 && |BlobBytes(n, b)| + |rest| < TWO_63 && n != 2
    requires n == 5 ==> DecodeCall(b, 0, EMPTY_CALL).err.None?
    ensures SameOutcome(DecodeGroup(BlobBytes(n, b) + rest, 0, m),
                        DecodeGroup(rest, 0, match n
                                             case 1 => m.(callback := b)
                                             case 3 => m.(callbackData := b)
                                             case 4 => m.(identifier := b)
                                             case 5 => m.(calls := m.calls + [DecodeCall(b, 0, EMPTY_CALL).msg])
                                             case _ => m))
  {
    hide DecodeGroup, DecodeCall, WellFormed, Bytes, BlobBytes, SameOutcome, NumberOf;
    var f := BlobIs(n, b);
    GroupFieldStep(f, rest, m);
  }

  /** A varint field of a group: 2 sets the gas, and the numbers above 5 are passed over. */
  lemma GroupReadsScalar(n: nat, v: uint64, rest: seq<byte>, m: GroupValue)
    requires 1 <= n < FIELD_NUMBERS && |ScalarBytes(n, v)| + |rest| < TWO_63
    requires n == 2 || n > 5
    ensures SameOutcome(DecodeGroup(ScalarBytes(n, v) + rest, 0, m),
                        DecodeGroup(rest, 0, if n == 2 then m.(gasLocked := v) else m))
  {
    hide DecodeGroup, DecodeCall, WellFormed, Bytes, ScalarBytes, SameOutcome, NumberOf, ValueOf;
    var f := ScalarIs(n, v);
    GroupFieldStep(f, rest, m);
  }

  // ----- Refusals -----

  /** The tag at the front of an input is read as its number and its type. */
  lemma ReadsTag(schema: Schema, n: nat, w: nat, rest: seq<byte>, pos: nat)
    requires n < TWO_61 && w < 8
    ensures var t := Encoding(8 * n + w);
            |t| >= 1 && ReadField(schema, t + rest, pos) == ReadTagged(schema, t + rest, pos, 8 * n + w, |t|)
  {
    hide Encoding, ValueOf, ReadTagged, ReadVarint, IsTag, Wrap64;
    var wire := 8 * n + w;
    ShortEncoding(wire);
    ReadVarintOfRaw(Encoding(wire), rest);
  }

  /** The number and the type behind each refusal; `n` is the tag without its type. */
  function Refusal(schema: Schema, n: nat, w: nat): Option<Error>
    requires n < TWO_61
  {
    var num := SignedLow(n);
    if w == 4 then Some(EndGroupForNonGroup)
    else if num <= 0 then Some(IllegalTag(num))
    else if (IsBlob(schema, num) && w != 2) || (IsScalar(schema, num) && w != 0) then Some(WrongWireType(num, w))
    else None
  }

  lemma ReadRefuses(schema: Schema, n: nat, w: nat, rest: seq<byte>, pos: nat)
    requires n < TWO_61 && w < 8 && Refusal(schema, n, w).Some?
    ensures ReadField(schema, Encoding(8 * n + w) + rest, pos) == Stopped(Refusal(schema, n, w).value)
  {
    hide Encoding, SkipFrom, ReadBytes, ReadVarint, KindOf, IsBlob, IsScalar;
    ReadsTag(schema, n, w, rest, pos);
    assert (8 * n + w) / 8 == n && (8 * n + w) % 8 == w;
    KindIs(schema, SignedLow(n));
    BothKinds(schema, SignedLow(n));
  }

  lemma BothKinds(schema: Schema, num: int32)
    ensures !(IsBlob(schema, num) && IsScalar(schema, num))
  {
  }

  /**
    A tag that ends a group, whose number is not positive, or whose type does not fit its number stops
    the decoder of calls at once, with the number and the type in the error.
   */
  lemma CallRefuses(n: nat, w: nat, rest: seq<byte>, pos: nat, m: CallValue)
    requires n < TWO_61 && w < 8 && Refusal(CallSchema, n, w).Some?
    ensures DecodeCall(Encoding(8 * n + w) + rest, pos, m) == Decoded(m, Refusal(CallSchema, n, w))
  {
    hide Encoding, Refusal, ReadField;
    ReadRefuses(CallSchema, n, w, rest, pos);
  }

  lemma GroupRefuses(n: nat, w: nat, rest: seq<byte>, pos: nat, m: GroupValue)
    requires n < TWO_61 && w < 8 && Refusal(GroupSchema, n, w).Some?
    ensures DecodeGroup(Encoding(8 * n + w) + rest, pos, m) == Decoded(m, Refusal(GroupSchema, n, w))
  {
    hide Encoding, Refusal, ReadField, DecodeCall;
    ReadRefuses(GroupSchema, n, w, rest, pos);
  }
}
