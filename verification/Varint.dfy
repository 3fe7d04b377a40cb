/**
  Base-128 varints: the two encoders (the protobuf writer that fills a buffer ending at a given
  offset, and the LEB128 printer used for WASM bytecode) and the decoder's shift loop.

  A byte string is a raw varint when its last byte, and no other, is below 0x80. Its value is read
  little-endian in base 128. Every encoder and decoder below is related to that definition.
 */
module Varint {
  import opened MachineIntegers

  datatype Error =
    | IntOverflow
    | UnexpectedEOF
    | InvalidLength
    | UnexpectedEndOfGroup
    | EndGroupForNonGroup
    | IllegalTag(fieldNum: int32)
    | WrongWireType(fieldNum: int32, wireType: nat)
    | IllegalWireType(wireType: nat)

  // ----- Definition -----

  predicate RawVarint(s: seq<byte>) {
    && s != []
    && s[|s| - 1] < 0x80
    && forall i :: 0 <= i < |s| - 1 ==> s[i] >= 0x80
  }

  function ValueOf(s: seq<byte>): nat {
    if s == [] then 0 else s[0] as nat % 0x80 + 0x80 * ValueOf(s[1..])
  }

  /** The shortest raw varint of a number. */
  function Encoding(v: nat): (s: seq<byte>)
    ensures RawVarint(s)
  {
    if v < 0x80 then [v as byte]
    else
      var rest := Encoding(v / 0x80);
      var s := [(v % 0x80 + 0x80) as byte] + rest;
      assert s[|s| - 1] == rest[|rest| - 1];
      assert forall i :: 1 <= i < |s| ==> s[i] == rest[i - 1];
      s
  }

  lemma {:induction false} EncodingHasValue(v: nat)
    ensures ValueOf(Encoding(v)) == v
  {
    if v >= 0x80 {
      EncodingHasValue(v / 0x80);
      assert Encoding(v)[1..] == Encoding(v / 0x80);
    } else {
      assert Encoding(v)[1..] == [];
    }
  }

  /** No raw varint of the same value is shorter, and none of the same length differs. */
  lemma {:induction false} EncodingIsMinimal(s: seq<byte>)
    requires RawVarint(s)
    ensures |Encoding(ValueOf(s))| <= |s|
    ensures |Encoding(ValueOf(s))| == |s| ==> Encoding(ValueOf(s)) == s
  {
    if |s| == 1 {
      assert s[1..] == [];
      assert s == [ValueOf(s) as byte];
    } else {
      var t := s[1..];
      assert t[|t| - 1] == s[|s| - 1];
      assert RawVarint(t);
      EncodingIsMinimal(t);
      MinimalStep(s[0], t, ValueOf(s));
      assert s == [s[0]] + t;
    }
  }

  lemma MinimalStep(b: byte, t: seq<byte>, v: nat)
    requires b >= 0x80 && v == b as nat % 0x80 + 0x80 * ValueOf(t)
    requires RawVarint(t) && |Encoding(ValueOf(t))| <= |t|
    requires |Encoding(ValueOf(t))| == |t| ==> Encoding(ValueOf(t)) == t
    ensures |Encoding(v)| <= 1 + |t|
    ensures |Encoding(v)| == 1 + |t| ==> Encoding(v) == [b] + t
  {
    hide ValueOf;
    assert v / 0x80 == ValueOf(t) && v % 0x80 == b as nat - 0x80;
  }

  // ----- Size -----

  /** The number of bits of `x`, as `bits.Len64`. */
  function BitLength(x: nat): nat {
    if x == 0 then 0 else 1 + BitLength(x / 2)
  }

  /** `x|1`. */
  function SetLowBit(x: nat): nat {
    if x % 2 == 0 then x + 1 else x
  }

  /** `sovAsyncCall`: `(bits.Len64(x|1) + 6) / 7`. */
  function SizeOfVarint(x: uint64): (n: nat) {
    (BitLength(SetLowBit(x)) + 6) / 7
  }

  lemma BitLengthDrop7(x: nat)
    requires x >= 0x80
    ensures BitLength(x) == 7 + BitLength(x / 0x80)
  {
    var a := x / 2;
    var b := a / 2;
    var c := b / 2;
    var d := c / 2;
    var e := d / 2;
    var f := e / 2;
    assert f / 2 == x / 0x80;
    assert BitLength(x) == 1 + BitLength(a);
    assert BitLength(a) == 1 + BitLength(b);
    assert BitLength(b) == 1 + BitLength(c);
    assert BitLength(c) == 1 + BitLength(d);
    assert BitLength(d) == 1 + BitLength(e);
    assert BitLength(e) == 1 + BitLength(f);
  }

  lemma {:induction false} BitLengthMonotone(x: nat, y: nat)
    requires x <= y
    ensures BitLength(x) <= BitLength(y)
  {
    if x > 0 {
      BitLengthMonotone(x / 2, y / 2);
    }
  }

  lemma {:induction false} EncodingLength(v: nat)
    ensures |Encoding(v)| == (BitLength(SetLowBit(v)) + 6) / 7
  {
    hide Encoding, BitLength, SetLowBit;
    EncodingStepLength(v);
    if v >= 0x80 {
      EncodingLength(v / 0x80);
      LowBitDrop7(v);
    } else {
      SmallBitLength(v);
    }
  }

  lemma EncodingStepLength(v: nat)
    ensures |Encoding(v)| == if v < 0x80 then 1 else 1 + |Encoding(v / 0x80)|
  {
  }

  lemma LowBitDrop7(v: nat)
    requires v >= 0x80
    ensures BitLength(SetLowBit(v)) == 7 + BitLength(SetLowBit(v / 0x80))
  {
    hide BitLength;
    BitLengthDrop7(SetLowBit(v));
    assert SetLowBit(v) / 0x80 == v / 0x80;
    LowBitKeepsLength(v / 0x80);
  }

  lemma SmallBitLength(v: nat)
    requires v < 0x80
    ensures 1 <= BitLength(SetLowBit(v)) <= 7
  {
    BitLengthMonotone(1, SetLowBit(v));
    BitLengthMonotone(SetLowBit(v), 0x7F);
    BitLengthOf127();
  }

  lemma LowBitKeepsLength(h: nat)
    requires h > 0
    ensures BitLength(SetLowBit(h)) == BitLength(h)
  {
    assert SetLowBit(h) / 2 == h / 2;
  }

  lemma BitLengthOf127()
    ensures BitLength(0x7F) == 7
  {
    assert BitLength(0x7) == 3;
    assert BitLength(0x3F) == 1 + BitLength(0x1F);
  }

  /** The size function counts exactly the bytes of the encoding: one to ten of them. */
  lemma SizeIsEncodingLength(v: uint64)
    ensures SizeOfVarint(v) == |Encoding(v)|
    ensures 1 <= SizeOfVarint(v) <= 10
  {
    EncodingLength(v);
    BitLengthMonotone(SetLowBit(v), MAX_UINT64);
    BitLengthOfMaxUint64();
  }

  lemma BitLengthOfMaxUint64()
    ensures BitLength(MAX_UINT64) == 64
  {
    BitLengthOfOnes(64);
    assert Pow2(64) == TWO_64 by { Pow2At64(); }
  }

  lemma {:induction false} BitLengthOfOnes(n: nat)
    ensures BitLength(Pow2(n) - 1) == n
  {
    if n > 0 {
      BitLengthOfOnes(n - 1);
      assert (Pow2(n) - 1) / 2 == Pow2(n - 1) - 1;
    }
  }

  lemma Pow2At64()
    ensures Pow2(32) == TWO_32 && Pow2(64) == TWO_64
  {
    assert Pow2(8) == 0x100;
    assert Pow2(16) == 0x1_0000 by { Pow2Add(8, 8); }
    Pow2Add(16, 16);
    Pow2Add(32, 32);
  }

  lemma DoubleProduct(p: nat, q: nat)
    ensures 2 * p * q == 2 * (p * q)
  {
  }

  lemma {:induction false} Pow2Add(a: nat, b: nat)
    ensures Pow2(a + b) == Pow2(a) * Pow2(b)
  {
    if a > 0 {
      Pow2Add(a - 1, b);
      DoubleProduct(Pow2(a - 1), Pow2(b));
    }
  }

  // ----- Encoders -----

  lemma EncodingStep(v: nat)
    requires v >= 0x80
    ensures |Encoding(v)| > 1
    ensures Encoding(v)[0] == (v % 0x80 + 0x80) as byte
    ensures Encoding(v)[1..] == Encoding(v / 0x80)
  {
  }

  /** A buffer whose bytes from `lo` on were overwritten by `piece`. */
  ghost function Patch(buf: seq<byte>, lo: nat, piece: seq<byte>): (r: seq<byte>)
    requires lo + |piece| <= |buf|
    ensures |r| == |buf|
  {
    buf[..lo] + piece + buf[lo + |piece|..]
  }

  lemma PatchNothing(buf: seq<byte>, lo: nat)
    requires lo <= |buf|
    ensures Patch(buf, lo, []) == buf
  {
  }

  lemma PatchNext(buf: seq<byte>, lo: nat, piece: seq<byte>, b: byte)
    requires lo + |piece| < |buf|
    ensures Patch(buf, lo, piece)[lo + |piece| := b] == Patch(buf, lo, piece + [b])
  {
  }

  /** `encodeVarintAsyncCall`: writes the varint so that it ends just before `offset`. */
  method EncodeVarint(buf: array<byte>, offset: nat, v: uint64) returns (base: nat)
    requires SizeOfVarint(v) <= offset <= buf.Length
    modifies buf
    ensures base + |Encoding(v)| == offset
    ensures buf[..] == Patch(old(buf[..]), base, Encoding(v))
  {
    hide SizeOfVarint, Encoding, Patch;
    ghost var all := Encoding(v);
    assert SizeOfVarint(v) == |all| by { SizeIsEncodingLength(v); }
    base := offset - SizeOfVarint(v);
    ghost var before := buf[..];
    var i, w: nat := base, v;
    PatchNothing(before, base);
    assert all[..0] == [] && all[0..] == all;
    while w >= 0x80
      invariant base <= i < offset
      invariant Encoding(w) == all[i - base..]
      invariant buf[..] == Patch(before, base, all[..i - base])
      decreases w
    {
      EncodeTurn(before, base, all, i, w);
      buf[i] := (w % 0x80 + 0x80) as byte;
      w := w / 0x80;
      i := i + 1;
    }
    EncodeLast(before, base, all, i, w);
    buf[i] := w as byte;
  }

  lemma EncodeTurn(before: seq<byte>, base: nat, all: seq<byte>, i: nat, w: nat)
    requires base <= i < base + |all| <= |before|
    requires w >= 0x80 && Encoding(w) == all[i - base..]
    ensures i + 1 < base + |all|
    ensures Encoding(w / 0x80) == all[i + 1 - base..]
    ensures Patch(before, base, all[..i - base])[i := (w % 0x80 + 0x80) as byte]
         == Patch(before, base, all[..i + 1 - base])
  {
    EncodingStep(w);
    assert all[i - base..][1..] == all[i + 1 - base..];
    PatchNext(before, base, all[..i - base], all[i - base]);
    assert all[..i + 1 - base] == all[..i - base] + [all[i - base]];
  }

  lemma EncodeLast(before: seq<byte>, base: nat, all: seq<byte>, i: nat, w: nat)
    requires base <= i < base + |all| <= |before|
    requires w < 0x80 && Encoding(w) == all[i - base..]
    ensures Patch(before, base, all[..i - base])[i := w as byte] == Patch(before, base, all)
  {
    assert all == all[..i - base] + all[i - base..];
    PatchNext(before, base, all[..i - base], w as byte);
  }

  /** `U64ToLEB128` prints exactly the same bytes. */
  method U64ToLEB128(n: uint64) returns (out: seq<byte>)
    ensures out == Encoding(n)
    ensures |out| == SizeOfVarint(n)
  {
    hide Encoding, SizeOfVarint;
    SizeIsEncodingLength(n);
    var m: nat := n;
    var more := true;
    out := [];
    while more
      invariant if more then out + Encoding(m) == Encoding(n) else out == Encoding(n)
      decreases more, m
    {
      LebTurn(out, m);
      var b := (m % 0x80) as byte;
      m := m / 0x80;
      if m == 0 {
        more := false;
      } else {
        b := b + 0x80;
      }
      out := out + [b];
    }
  }

  lemma LebTurn(out: seq<byte>, m: nat)
    ensures m / 0x80 == 0 ==> out + Encoding(m) == out + [(m % 0x80) as byte]
    ensures m / 0x80 > 0 ==> out + Encoding(m) == out + [(m % 0x80) as byte + 0x80] + Encoding(m / 0x80)
  {
    if m >= 0x80 {
      EncodingStep(m);
      assert Encoding(m) == [Encoding(m)[0]] + Encoding(m)[1..];
    }
  }

  // ----- Decoder -----

  datatype VarintRead =
    | Read(value: uint64, len: nat)
    | Broken(err: Error, partial: uint64)

  // Go's `|` and `<<` on unsigned integers, bit by bit.
  function BitOr(a: nat, b: nat): nat
    decreases a + b
  {
    if a == 0 && b == 0 then 0
    else 2 * BitOr(a / 2, b / 2) + (if a % 2 == 1 || b % 2 == 1 then 1 else 0)
  }

  function Shl64(x: nat, shift: nat): uint64 {
    x * Pow2(shift) % TWO_64
  }

  lemma {:induction false} OrBound(a: nat, b: nat, n: nat)
    requires a < Pow2(n) && b < Pow2(n)
    ensures BitOr(a, b) < Pow2(n)
  {
    if n > 0 {
      OrBound(a / 2, b / 2, n - 1);
    }
  }

  function Or64(a: uint64, b: uint64): uint64 {
    Pow2At64();
    OrBound(a, b, 64);
    BitOr(a, b)
  }

  /** Or-ing in bits above `shift` is adding them. */
  lemma {:induction false} OrIsAddition(acc: nat, x: nat, shift: nat)
    requires acc < Pow2(shift)
    ensures BitOr(acc, x * Pow2(shift)) == acc + x * Pow2(shift)
  {
    if shift == 0 {
      OrZero(x);
    } else {
      var half := x * Pow2(shift - 1);
      assert x * Pow2(shift) == 2 * half;
      OrIsAddition(acc / 2, x, shift - 1);
    }
  }

  lemma {:induction false} OrZero(x: nat)
    ensures BitOr(0, x) == x
  {
    if x > 0 {
      OrZero(x / 2);
    }
  }

  /** `ReadFrom` is the decoder's shift loop on the rest of the input. */
  function ReadFrom(s: seq<byte>, shift: nat, acc: uint64): (r: VarintRead)
    ensures r.Read? ==> 1 <= r.len <= |s|
    decreases |s|
  {
    if shift >= 64 then Broken(IntOverflow, acc)
    else if s == [] then Broken(UnexpectedEOF, acc)
    else
      var acc' := Or64(acc, Shl64(s[0] as nat % 0x80, shift));
      if s[0] < 0x80 then Read(acc', 1)
      else
        match ReadFrom(s[1..], shift + 7, acc')
        case Read(v, n) => Read(v, n + 1)
        case Broken(e, p) => Broken(e, p)
  }

  function ReadVarint(s: seq<byte>): (r: VarintRead)
    ensures r.Read? ==> 1 <= r.len <= |s|
  {
    ReadFrom(s, 0, 0)
  }

  /** Shifting drops the bits that leave the word. */
  lemma ShiftDropsHighBits(x: nat, shift: nat) returns (h: nat, y: nat)
    requires shift < 64
    ensures y <= x && x * Pow2(shift) == h * TWO_64 + y * Pow2(shift)
    ensures y * Pow2(shift) + Pow2(shift) <= TWO_64
  {
    Pow2Add(shift, 64 - shift);
    Pow2At64();
    h, y := SplitProduct(x, Pow2(shift), Pow2(64 - shift), TWO_64);
  }

  lemma SplitProduct(x: nat, p: nat, q: nat, m: nat) returns (h: nat, y: nat)
    requires p > 0 && q > 0 && p * q == m
    ensures y <= x && x * p == h * m + y * p && y * p + p <= m
  {
    h, y := x / q, x % q;
    SplitProductParts(x, h, y, p, q);
  }

  lemma SplitProductParts(x: nat, h: nat, y: nat, p: nat, q: nat)
    requires x == h * q + y && y < q
    ensures y <= x && x * p == h * (p * q) + y * p && y * p + p <= p * q
  {
    MulMonotone(y + 1, q, p);
    MulRegroup(h, q, y, p);
  }

  lemma MulMonotone(a: nat, b: nat, p: nat)
    requires a <= b
    ensures a * p <= b * p
  {
  }

  lemma MulRegroup(h: nat, q: nat, y: nat, p: nat)
    ensures (h * q + y) * p == h * (p * q) + y * p
  {
    assert (h * q) * p == h * (p * q);
  }

  /** One turn of the loop adds the next seven bits, modulo the width. */
  lemma AccumulateStep(acc: nat, x: nat, shift: nat)
    requires shift < 64 && x < 0x80 && acc < Pow2(shift)
    ensures BitOr(acc, Shl64(x, shift)) == Wrap64(acc + x * Pow2(shift))
    ensures BitOr(acc, Shl64(x, shift)) < Pow2(shift + 7)
  {
    var p := Pow2(shift);
    var h, y := ShiftDropsHighBits(x, shift);
    assert Shl64(x, shift) == y * p by { DivModUnique(x * p, h, y * p, TWO_64); }
    assert Wrap64(acc + x * p) == acc + y * p by { Wrap64Unique(acc + x * p, h, acc + y * p); }
    OrIsAddition(acc, y, shift);
    assert acc + y * p < Pow2(shift + 7) by { SevenMoreBits(acc, y, shift); }
  }

  lemma SevenMoreBits(acc: nat, y: nat, shift: nat)
    requires acc < Pow2(shift) && y < 0x80
    ensures acc + y * Pow2(shift) < Pow2(shift + 7)
  {
    Pow2Add(shift, 7);
    assert Pow2(7) == 0x80;
    assert y * Pow2(shift) <= 0x7F * Pow2(shift);
  }

  predicate AllContinue(s: seq<byte>) {
    forall i :: 0 <= i < |s| ==> s[i] >= 0x80
  }

  /** Everything the loop can do from any point: `k` bytes read so far, `acc` accumulated. */
  ghost predicate LoopOutcome(s: seq<byte>, k: nat, acc: nat, r: VarintRead) {
    match r
    case Read(v, n) =>
      && 1 <= n <= |s| && k + n <= 10
      && RawVarint(s[..n])
      && v == Wrap64(acc + ValueOf(s[..n]) * Pow2(7 * k))
    case Broken(IntOverflow, _) => k <= 10 <= k + |s| && AllContinue(s[..10 - k])
    case Broken(UnexpectedEOF, _) => k + |s| < 10 && AllContinue(s)
    case Broken(_, _) => false
  }

  lemma {:induction false} ReadFromOutcome(s: seq<byte>, k: nat, acc: nat)
    requires k <= 10 && acc < Pow2(7 * k) && acc < TWO_64
    ensures LoopOutcome(s, k, acc, ReadFrom(s, 7 * k, acc))
    decreases |s|
  {
    if k < 10 && s != [] {
      var acc' := NextAcc(s[0], k, acc);
      if s[0] < 0x80 {
        OutcomeLast(s, k, acc, acc');
      } else {
        ReadFromOutcome(s[1..], k + 1, acc');
        OutcomeStep(s, k, acc, acc', ReadFrom(s[1..], 7 * (k + 1), acc'));
      }
    }
  }

  lemma NextAcc(b: byte, k: nat, acc: nat) returns (acc': nat)
    requires k < 10 && acc < Pow2(7 * k) && acc < TWO_64
    ensures acc' == Or64(acc, Shl64(b as nat % 0x80, 7 * k))
    ensures acc' == Wrap64(acc + b as nat % 0x80 * Pow2(7 * k))
    ensures acc' < Pow2(7 * (k + 1)) && acc' < TWO_64
  {
    AccumulateStep(acc, b as nat % 0x80, 7 * k);
    acc' := BitOr(acc, Shl64(b as nat % 0x80, 7 * k));
    assert 7 * k + 7 == 7 * (k + 1);
  }

  lemma OutcomeLast(s: seq<byte>, k: nat, acc: nat, acc': nat)
    requires k < 10 && s != [] && s[0] < 0x80
    requires acc' == Wrap64(acc + s[0] as nat % 0x80 * Pow2(7 * k))
    ensures LoopOutcome(s, k, acc, Read(acc', 1))
  {
    assert s[..1][1..] == [];
    assert ValueOf(s[..1]) == s[0] as nat % 0x80;
  }

  lemma OutcomeStep(s: seq<byte>, k: nat, acc: nat, acc': nat, r: VarintRead)
    requires k < 10 && s != [] && s[0] >= 0x80
    requires acc' == Wrap64(acc + s[0] as nat % 0x80 * Pow2(7 * k))
    requires LoopOutcome(s[1..], k + 1, acc', r)
    ensures LoopOutcome(s, k, acc, match r case Read(v, n) => Read(v, n + 1) case Broken(e, p) => Broken(e, p))
  {
    match r
    case Read(v, n) =>
      var t := s[..n + 1];
      assert t[1..] == s[1..][..n];
      assert t[|t| - 1] == s[1..][..n][n - 1];
      assert RawVarint(t) by {
        forall i | 0 <= i < |t| - 1 ensures t[i] >= 0x80 {
          if i > 0 { assert t[i] == s[1..][..n][i - 1]; }
        }
      }
      ValueStep(acc, acc', s[0] as nat % 0x80, ValueOf(t[1..]), k);
    case Broken(e, p) =>
      assert s == [s[0]] + s[1..];
      if e == IntOverflow {
        assert s[..10 - k] == [s[0]] + s[1..][..9 - k];
      }
  }

  lemma ValueStep(acc: nat, acc': nat, x: nat, rest: nat, k: nat)
    requires acc' == Wrap64(acc + x * Pow2(7 * k))
    ensures Wrap64(acc' + rest * Pow2(7 * (k + 1))) == Wrap64(acc + (x + 0x80 * rest) * Pow2(7 * k))
  {
    var p := Pow2(7 * k);
    Pow2Add(7 * k, 7);
    assert Pow2(7) == 0x80;
    assert 7 * k + 7 == 7 * (k + 1);
    var y := acc + x * p;
    var z := rest * (p * 0x80);
    assert (x + 0x80 * rest) * p == x * p + z by {
      assert (x + 0x80 * rest) * p == x * p + 0x80 * rest * p;
      assert 0x80 * rest * p == rest * (p * 0x80);
    }
    assert y == y / TWO_64 * TWO_64 + acc';
    ResidueShift(acc' + z, y / TWO_64, TWO_64);
  }

  /**
    What the decoder reads from any input: the raw varint at its start, modulo 2^64; or an overflow
    when ten bytes all ask for more; or a truncation when the input ends first.
   */
  lemma ReadVarintOutcome(s: seq<byte>)
    ensures match ReadVarint(s)
            case Read(v, n) => 1 <= n <= |s| && n <= 10 && RawVarint(s[..n]) && v == Wrap64(ValueOf(s[..n]))
            case Broken(IntOverflow, _) => |s| >= 10 && AllContinue(s[..10])
            case Broken(UnexpectedEOF, _) => |s| < 10 && AllContinue(s)
            case Broken(_, _) => false
  {
    ReadFromOutcome(s, 0, 0);
  }

  /** Any raw varint of at most ten bytes is read back, minimal or not, whatever follows it. */
  lemma ReadVarintOfRaw(t: seq<byte>, rest: seq<byte>)
    requires RawVarint(t) && |t| <= 10
    ensures ReadVarint(t + rest) == Read(Wrap64(ValueOf(t)), |t|)
  {
    var s := t + rest;
    assert s[..|t|] == t;
    assert s[|t| - 1] < 0x80;
    assert |s| >= 10 ==> s[..10][|t| - 1] < 0x80;
    ReadVarintOutcome(s);
    assert ReadVarint(s).Read?;
    RawPrefixesAgree(s, ReadVarint(s).len, |t|);
  }

  lemma RawPrefixesAgree(s: seq<byte>, m: nat, n: nat)
    requires 1 <= m <= |s| && 1 <= n <= |s|
    requires RawVarint(s[..m]) && RawVarint(s[..n])
    ensures m == n
  {
    assert forall i :: 0 <= i < m ==> s[..m][i] == s[i];
    assert forall i :: 0 <= i < n ==> s[..n][i] == s[i];
  }

  /** The decoder undoes the encoder, and what follows the varint does not matter. */
  lemma VarintRoundTrip(v: uint64, rest: seq<byte>)
    ensures ReadVarint(Encoding(v) + rest) == Read(v, |Encoding(v)|)
    ensures 1 <= |Encoding(v)| <= 10
  {
    hide ReadVarint, SizeOfVarint;
    SizeIsEncodingLength(v);
    EncodingHasValue(v);
    ReadVarintOfValue(Encoding(v), v, rest);
  }

  lemma ReadVarintOfValue(t: seq<byte>, v: uint64, rest: seq<byte>)
    requires RawVarint(t) && |t| <= 10 && ValueOf(t) == v
    ensures ReadVarint(t + rest) == Read(v, |t|)
  {
    hide ReadVarint;
    Wrap64Identity(v);
    ReadVarintOfRaw(t, rest);
  }

  // ----- The decoding loops -----

  function Advance(r: VarintRead, n: nat): VarintRead {
    match r
    case Read(v, m) => Read(v, m + n)
    case Broken(e, p) => Broken(e, p)
  }

  /** The loop that fills a `uint64` or `int` variable, run from index `start`. */
  method DecodeVarint(data: seq<byte>, start: nat) returns (r: VarintRead)
    requires start <= |data|
    ensures r == ReadVarint(data[start..])
  {
    var i, shift := start, 0;
    var acc: uint64 := 0;
    while true
      invariant start <= i <= |data|
      invariant ReadVarint(data[start..]) == Advance(ReadFrom(data[i..], shift, acc), i - start)
      decreases |data| - i
    {
      if shift >= 64 { return Broken(IntOverflow, acc); }
      if i >= |data| { return Broken(UnexpectedEOF, acc); }
      var b := data[i];
      assert data[i..][0] == b && data[i..][1..] == data[i + 1..];
      i := i + 1;
      acc := Or64(acc, Shl64(b as nat % 0x80, shift));
      if b < 0x80 { return Read(acc, i - start); }
      shift := shift + 7;
    }
  }

  /** Truncation to the low bits commutes with `|`. */
  lemma {:induction false} OrTruncate(a: nat, b: nat, n: nat)
    ensures BitOr(a, b) % Pow2(n) == BitOr(a % Pow2(n), b % Pow2(n)) % Pow2(n)
  {
    if n > 0 {
      var m := Pow2(n - 1);
      ModDouble(a, m);
      ModDouble(b, m);
      OrTruncate(a / 2, b / 2, n - 1);
      OrHalves(a, b);
      OrHalves(a % Pow2(n), b % Pow2(n));
      ModDouble(BitOr(a, b), m);
      ModDouble(BitOr(a % Pow2(n), b % Pow2(n)), m);
    }
  }

  lemma OrHalves(a: nat, b: nat)
    ensures BitOr(a, b) / 2 == BitOr(a / 2, b / 2)
    ensures BitOr(a, b) % 2 == (if a % 2 == 1 || b % 2 == 1 then 1 else 0)
  {
  }

  lemma ModDouble(a: nat, m: nat)
    requires m > 0
    ensures a % (2 * m) == 2 * (a / 2 % m) + a % 2
    ensures a % (2 * m) / 2 == a / 2 % m
    ensures a % (2 * m) % 2 == a % 2
  {
    var q, r := a / 2 / m, a / 2 % m;
    assert a == 2 * (q * m + r) + a % 2;
    assert 2 * (q * m) == q * (2 * m);
    DivModUnique(a, q, 2 * r + a % 2, 2 * m);
  }

  // Enumeration fields are accumulated in a signed 32-bit variable instead.

  datatype EnumRead =
    | EnumValue(value: int32, len: nat)
    | EnumBroken(err: Error, partial: int32)

  function AsEnum(r: VarintRead): EnumRead {
    match r
    case Read(v, n) => EnumValue(ToInt32(v), n)
    case Broken(e, p) => EnumBroken(e, ToInt32(p))
  }

  function Shl32(x: nat, shift: nat): uint32 {
    x * Pow2(shift) % TWO_32
  }

  function Or32(a: int32, b: uint32): int32 {
    ToInt32(BitOr(ToUint32(a), b))
  }

  lemma LowBitsOfWrapped(y: int)
    ensures y % TWO_64 % TWO_32 == y % TWO_32
  {
  }

  lemma BitsOfInt32(z: int)
    ensures ToUint32(ToInt32(z)) == z % TWO_32
  {
  }

  lemma SameBitsSameInt32(y: int, z: int)
    requires y % TWO_32 == z % TWO_32
    ensures ToInt32(y) == ToInt32(z)
  {
  }

  /** The 32-bit accumulator always holds the low bits of the 64-bit one. */
  lemma Or32Tracks(acc: uint64, x: nat, shift: nat)
    ensures Or32(ToInt32(acc), Shl32(x, shift)) == ToInt32(Or64(acc, Shl64(x, shift)))
  {
    var bits := Shl64(x, shift);
    BitsOfInt32(acc);
    LowBitsOfWrapped(x * Pow2(shift));
    Pow2At64();
    OrTruncate(acc, bits, 32);
    SameBitsSameInt32(BitOr(acc % TWO_32, bits % TWO_32), BitOr(acc, bits));
  }

  /** The loop that fills an enumeration field: it yields the truncated 64-bit value. */
  method DecodeEnum(data: seq<byte>, start: nat) returns (r: EnumRead)
    requires start <= |data|
    ensures r == AsEnum(ReadVarint(data[start..]))
  {
    var i, shift, acc := start, 0, 0;
    ghost var wide: uint64 := 0;
    while true
      invariant start <= i <= |data|
      invariant acc == ToInt32(wide)
      invariant ReadVarint(data[start..]) == Advance(ReadFrom(data[i..], shift, wide), i - start)
      decreases |data| - i
    {
      if shift >= 64 { return EnumBroken(IntOverflow, acc); }
      if i >= |data| { return EnumBroken(UnexpectedEOF, acc); }
      var b := data[i];
      assert data[i..][0] == b && data[i..][1..] == data[i + 1..];
      i := i + 1;
      Or32Tracks(wide, b as nat % 0x80, shift);
      acc := Or32(acc, Shl32(b as nat % 0x80, shift));
      wide := Or64(wide, Shl64(b as nat % 0x80, shift));
      if b < 0x80 { return EnumValue(acc, i - start); }
      shift := shift + 7;
    }
  }
}
