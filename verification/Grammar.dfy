/**
  The grammar of skippable fields, and the proof that skipping accepts exactly its sentences:
  a depth counter suffices to recognise arbitrarily nested groups.
 */
module Grammar {
  import opened MachineIntegers
  import opened Varint
  import opened Wire

  datatype RawField =
    | VarintField(tag: seq<byte>, payload: seq<byte>)
    | Fixed64Field(tag: seq<byte>, payload: seq<byte>)
    | BytesField(tag: seq<byte>, length: seq<byte>, payload: seq<byte>)
    | GroupField(tag: seq<byte>, items: seq<RawField>, close: seq<byte>)
    | Fixed32Field(tag: seq<byte>, payload: seq<byte>)

  predicate ShortVarint(t: seq<byte>) {
    RawVarint(t) && |t| <= 10
  }

  predicate IsTag(t: seq<byte>, wireType: nat) {
    ShortVarint(t) && ValueOf(t) % TWO_64 % 8 == wireType
  }

  predicate WellFormed(f: RawField) {
    match f
    case VarintField(tag, payload) => IsTag(tag, 0) && ShortVarint(payload)
    case Fixed64Field(tag, payload) => IsTag(tag, 1) && |payload| == 8
    case BytesField(tag, length, payload) =>
      IsTag(tag, 2) && ShortVarint(length) && Wrap64(ValueOf(length)) == |payload|
    case GroupField(tag, items, close) =>
      IsTag(tag, 3) && AllWellFormed(items) && IsTag(close, 4)
    case Fixed32Field(tag, payload) => IsTag(tag, 5) && |payload| == 4
  }

  predicate AllWellFormed(items: seq<RawField>) {
    forall i :: 0 <= i < |items| ==> WellFormed(items[i])
  }

  function Bytes(f: RawField): seq<byte> {
    match f
    case VarintField(tag, payload) => tag + payload
    case Fixed64Field(tag, payload) => tag + payload
    case BytesField(tag, length, payload) => tag + (length + payload)
    case GroupField(tag, items, close) => tag + (AllBytes(items) + close)
    case Fixed32Field(tag, payload) => tag + payload
  }

  function AllBytes(items: seq<RawField>): seq<byte> {
    if items == [] then [] else Bytes(items[0]) + AllBytes(items[1..])
  }

  // ----- Every sentence is skipped -----

  /** A turn that starts with a tag of the given type passes the tag and then its payload. */
  lemma TurnAfterTag(tag: seq<byte>, wireType: nat, rest: seq<byte>, pos: nat, depth: nat)
    requires IsTag(tag, wireType)
    ensures SkipTurn(tag + rest, pos, depth) ==
            match SkipPayload(rest, wireType, depth)
            case Failed(e) => Failed(e)
            case Turn(n, d) => if pos + |tag| + n >= TWO_63 then Failed(InvalidLength) else Turn(|tag| + n, d)
  {
    hide ReadVarint, SkipPayload;
    ReadVarintOfRaw(tag, rest);
    assert (tag + rest)[|tag|..] == rest;
  }

  /** The bytes of a field that is not a group: its tag type and everything after the tag. */
  function Flat(f: RawField): (int, seq<byte>) {
    match f
    case VarintField(_, payload) => (0, payload)
    case Fixed64Field(_, payload) => (1, payload)
    case BytesField(_, length, payload) => (2, length + payload)
    case GroupField(_, items, close) => (3, AllBytes(items) + close)
    case Fixed32Field(_, payload) => (5, payload)
  }

  lemma FlatPayload(f: RawField, rest: seq<byte>, depth: nat)
    requires WellFormed(f) && !f.GroupField? && |Bytes(f)| < TWO_63
    ensures var (t, p) := Flat(f); SkipPayload(p + rest, t, depth) == Turn(|p|, depth)
  {
    hide ReadVarint;
    match f
    case VarintField(_, payload) => ReadVarintOfRaw(payload, rest);
    case BytesField(_, length, payload) =>
      ReadVarintOfRaw(length, payload + rest);
      assert length + (payload + rest) == (length + payload) + rest;
      WrappedIndex(|payload|);
    case _ =>
  }

  /** Skipping one turn that leaves the loop running. */
  lemma SkipOver(s: seq<byte>, rest: seq<byte>, pos: nat, depth: nat, d: nat)
    requires s != [] && SkipTurn(s + rest, pos, depth) == Turn(|s|, d)
    ensures SkipFrom(s + rest, pos, depth) == if d == 0 then Ok(|s|) else Plus(|s|, SkipFrom(rest, pos + |s|, d))
  {
    hide SkipTurn;
    assert (s + rest)[|s|..] == rest;
  }

  function Passed(n: nat, rest: seq<byte>, pos: nat, depth: nat): Result<nat> {
    if depth == 0 then Ok(n) else Plus(n, SkipFrom(rest, pos + n, depth))
  }

  lemma FlatIsSkipped(f: RawField, rest: seq<byte>, pos: nat, depth: nat)
    requires WellFormed(f) && !f.GroupField? && pos + |Bytes(f)| < TWO_63
    ensures SkipFrom(Bytes(f) + rest, pos, depth) == Passed(|Bytes(f)|, rest, pos, depth)
  {
    hide SkipFrom, SkipTurn, SkipPayload;
    var (t, p) := Flat(f);
    FlatPayload(f, rest, depth);
    TurnAfterTag(f.tag, t, p + rest, pos, depth);
    assert f.tag + (p + rest) == Bytes(f) + rest;
    SkipOver(Bytes(f), rest, pos, depth, depth);
  }

  /** A well-formed field is passed over exactly, at any nesting depth and whatever follows it. */
  lemma {:induction false} FieldIsSkipped(f: RawField, rest: seq<byte>, pos: nat, depth: nat)
    requires WellFormed(f) && pos + |Bytes(f)| < TWO_63
    ensures SkipFrom(Bytes(f) + rest, pos, depth) == Passed(|Bytes(f)|, rest, pos, depth)
    decreases f, 1
  {
    hide SkipFrom, SkipTurn;
    if f.GroupField? {
      var body := AllBytes(f.items);
      var tail := body + (f.close + rest);
      TurnAfterTag(f.tag, 3, tail, pos, depth);
      assert f.tag + tail == Bytes(f) + rest;
      SkipOver(f.tag, tail, pos, depth, depth + 1);
      ItemsAreSkipped(f.items, f.close + rest, pos + |f.tag|, depth + 1);
      CloseIsSkipped(f.close, rest, pos + |f.tag| + |body|, depth);
      assert |Bytes(f)| == |f.tag| + |body| + |f.close|;
    } else {
      FlatIsSkipped(f, rest, pos, depth);
    }
  }

  lemma CloseIsSkipped(close: seq<byte>, rest: seq<byte>, pos: nat, depth: nat)
    requires IsTag(close, 4) && pos + |close| < TWO_63
    ensures SkipFrom(close + rest, pos, depth + 1) == Passed(|close|, rest, pos, depth)
  {
    hide SkipFrom, SkipTurn;
    TurnAfterTag(close, 4, rest, pos, depth + 1);
    SkipOver(close, rest, pos, depth + 1, depth);
  }

  lemma {:induction false} ItemsAreSkipped(items: seq<RawField>, rest: seq<byte>, pos: nat, depth: nat)
    requires AllWellFormed(items) && pos + |AllBytes(items)| < TWO_63 && depth > 0
    ensures SkipFrom(AllBytes(items) + rest, pos, depth)
         == Plus(|AllBytes(items)|, SkipFrom(rest, pos + |AllBytes(items)|, depth))
    decreases items, 0
  {
    hide SkipFrom;
    if items == [] {
      assert AllBytes(items) + rest == rest;
    } else {
      var first, others := Bytes(items[0]), AllBytes(items[1..]);
      assert AllBytes(items) + rest == first + (others + rest);
      FieldIsSkipped(items[0], others + rest, pos, depth);
      ItemsAreSkipped(items[1..], rest, pos + |first|, depth);
    }
  }

  // ----- Everything that is skipped is a sentence -----

  /** What one turn of the loop has passed over. */
  datatype Piece = FlatPiece(f: RawField) | OpenPiece(tag: seq<byte>) | ClosePiece(tag: seq<byte>)

  predicate PieceFits(p: Piece, s: seq<byte>, depth: nat, d: nat) {
    match p
    case FlatPiece(f) => WellFormed(f) && !f.GroupField? && Bytes(f) == s && d == depth
    case OpenPiece(tag) => IsTag(tag, 3) && tag == s && d == depth + 1
    case ClosePiece(tag) => IsTag(tag, 4) && tag == s && depth > 0 && d == depth - 1
  }

  lemma TagOf(s: seq<byte>)
    requires ReadVarint(s).Read?
    ensures var r := ReadVarint(s);
            ShortVarint(s[..r.len]) && r.value == Wrap64(ValueOf(s[..r.len]))
  {
    hide ReadVarint;
    ReadVarintOutcome(s);
  }

  lemma Rejoin(s: seq<byte>, k: nat, n: nat)
    requires k <= |s| && n <= |s| - k
    ensures s[..k] + s[k..][..n] == s[..k + n]
  {
  }

  lemma TurnIsPiece(s: seq<byte>, pos: nat, depth: nat) returns (p: Piece)
    requires SkipTurn(s, pos, depth).Turn? && SkipTurn(s, pos, depth).n <= |s|
    ensures var t := SkipTurn(s, pos, depth); PieceFits(p, s[..t.n], depth, t.depth)
  {
    hide ReadVarint;
    TagOf(s);
    var t := SkipTurn(s, pos, depth);
    var k := ReadVarint(s).len;
    var tag, rest, w := s[..k], s[k..], WireType(ReadVarint(s).value);
    Rejoin(s, k, t.n - k);
    p := PayloadIsPiece(tag, w, rest, depth);
  }

  lemma PayloadIsPiece(tag: seq<byte>, w: nat, rest: seq<byte>, depth: nat) returns (p: Piece)
    requires IsTag(tag, w)
    requires SkipPayload(rest, w, depth).Turn? && SkipPayload(rest, w, depth).n <= |rest|
    ensures var t := SkipPayload(rest, w, depth); PieceFits(p, tag + rest[..t.n], depth, t.depth)
  {
    hide ReadVarint, IsTag;
    var n := SkipPayload(rest, w, depth).n;
    match w {
      case 0 =>
        TagOf(rest);
        p := FlatPiece(VarintField(tag, rest[..n]));
      case 1 => p := FlatPiece(Fixed64Field(tag, rest[..n]));
      case 2 =>
        TagOf(rest);
        var k := ReadVarint(rest).len;
        assert rest[..n] == rest[..k] + rest[k..n];
        WrappedLength(ReadVarint(rest).value);
        p := FlatPiece(BytesField(tag, rest[..k], rest[k..n]));
      case 3 =>
        assert tag + rest[..0] == tag;
        p := OpenPiece(tag);
      case 4 =>
        assert tag + rest[..0] == tag;
        p := ClosePiece(tag);
      case _ => p := FlatPiece(Fixed32Field(tag, rest[..n]));
    }
  }

  lemma WrappedLength(v: uint64)
    requires ToInt64(v) >= 0
    ensures ToInt64(v) == v
  {
  }

  /** The rest of an open group: the items still to come and the end tag. */
  datatype Level = Level(items: seq<RawField>, close: seq<byte>)

  predicate LevelsWellFormed(ls: seq<Level>) {
    forall i :: 0 <= i < |ls| ==> AllWellFormed(ls[i].items) && IsTag(ls[i].close, 4)
  }

  function LevelBytes(ls: seq<Level>): seq<byte> {
    if ls == [] then [] else AllBytes(ls[0].items) + (ls[0].close + LevelBytes(ls[1..]))
  }

  /** Puts one more item in front of the innermost open group. */
  function Prepend(f: RawField, ls: seq<Level>): seq<Level>
    requires ls != []
  {
    [Level([f] + ls[0].items, ls[0].close)] + ls[1..]
  }

  lemma PrependBytes(f: RawField, ls: seq<Level>)
    requires ls != [] && WellFormed(f) && LevelsWellFormed(ls)
    ensures LevelsWellFormed(Prepend(f, ls)) && LevelBytes(Prepend(f, ls)) == Bytes(f) + LevelBytes(ls)
  {
    hide WellFormed, IsTag, Bytes;
    var r := Prepend(f, ls);
    assert r[1..] == ls[1..];
    assert r[0].items[1..] == ls[0].items;
    assert AllBytes(r[0].items) == Bytes(f) + AllBytes(ls[0].items);
    forall i | 0 <= i < |r| ensures AllWellFormed(r[i].items) && IsTag(r[i].close, 4) {
      if i > 0 { assert r[i] == ls[i]; }
    }
  }

  /** The innermost open group, once its start tag is known, is an item of the group around it. */
  lemma WrapGroup(tag: seq<byte>, ls: seq<Level>) returns (g: RawField)
    requires |ls| >= 1 && IsTag(tag, 3) && LevelsWellFormed(ls)
    ensures WellFormed(g) && Bytes(g) + LevelBytes(ls[1..]) == tag + LevelBytes(ls)
  {
    hide IsTag, AllWellFormed, AllBytes;
    g := GroupField(tag, ls[0].items, ls[0].close);
    assert Bytes(g) == tag + (AllBytes(ls[0].items) + ls[0].close);
  }

  lemma CloseLevel(tag: seq<byte>, ls: seq<Level>) returns (r: seq<Level>)
    requires IsTag(tag, 4) && LevelsWellFormed(ls)
    ensures |r| == |ls| + 1 && LevelsWellFormed(r) && LevelBytes(r) == tag + LevelBytes(ls)
  {
    hide IsTag;
    r := [Level([], tag)] + ls;
    assert r[1..] == ls;
    assert AllBytes([]) + (tag + LevelBytes(ls)) == tag + LevelBytes(ls);
  }

  /** A first turn that leaves the loop running. */
  lemma SkipSplit(s: seq<byte>, pos: nat, depth: nat) returns (k: nat)
    requires SkipFrom(s, pos, depth).Ok? && SkipFrom(s, pos, depth).value <= |s|
    ensures SkipTurn(s, pos, depth).Turn? && k == SkipTurn(s, pos, depth).n && 1 <= k <= |s|
    ensures var n, d := SkipFrom(s, pos, depth).value, SkipTurn(s, pos, depth).depth;
            if d == 0 then n == k
            else k <= n && SkipFrom(s[k..], pos + k, d) == Ok(n - k) && s[..n] == s[..k] + s[k..][..n - k]
  {
    hide SkipTurn;
    k := SkipTurn(s, pos, depth).n;
  }

  lemma {:induction false} SkippedIsLevels(s: seq<byte>, pos: nat, depth: nat) returns (ls: seq<Level>)
    requires depth > 0 && SkipFrom(s, pos, depth).Ok? && SkipFrom(s, pos, depth).value <= |s|
    ensures |ls| == depth && LevelsWellFormed(ls)
    ensures LevelBytes(ls) == s[..SkipFrom(s, pos, depth).value]
    decreases |s|
  {
    hide SkipFrom, SkipTurn, WellFormed, IsTag, Bytes, LevelBytes, LevelsWellFormed;
    var k := SkipSplit(s, pos, depth);
    var piece := TurnIsPiece(s, pos, depth);
    var d := SkipTurn(s, pos, depth).depth;
    if d == 0 {
      NoLevels();
      ls := CloseLevel(piece.tag, []);
    } else {
      var inner := SkippedIsLevels(s[k..], pos + k, d);
      match piece
      case FlatPiece(f) =>
        PrependBytes(f, inner);
        ls := Prepend(f, inner);
      case ClosePiece(tag) =>
        ls := CloseLevel(tag, inner);
      case OpenPiece(tag) =>
        var g := WrapGroup(tag, inner);
        TailWellFormed(inner);
        PrependBytes(g, inner[1..]);
        ls := Prepend(g, inner[1..]);
    }
  }

  lemma NoLevels()
    ensures LevelsWellFormed([]) && LevelBytes([]) == []
  {
  }

  lemma TailWellFormed(ls: seq<Level>)
    requires ls != [] && LevelsWellFormed(ls)
    ensures LevelsWellFormed(ls[1..])
  {
    hide IsTag, AllWellFormed;
  }

  lemma SkippedIsField(s: seq<byte>, pos: nat) returns (f: RawField)
    requires SkipFrom(s, pos, 0).Ok? && SkipFrom(s, pos, 0).value <= |s|
    ensures WellFormed(f) && Bytes(f) == s[..SkipFrom(s, pos, 0).value]
  {
    hide SkipFrom, SkipTurn, WellFormed, IsTag, Bytes;
    var k := SkipSplit(s, pos, 0);
    var piece := TurnIsPiece(s, pos, 0);
    match piece
    case FlatPiece(g) => f := g;
    case OpenPiece(tag) =>
      var inner := SkippedIsLevels(s[k..], pos + k, 1);
      f := WrapGroup(tag, inner);
      assert inner[1..] == [];
      NoLevels();
      assert Bytes(f) + [] == Bytes(f);
  }

  /**
    Skipping stops inside the input after `n` bytes exactly when those bytes are one well-formed
    field, with groups nested to any depth.
   */
  lemma SkipAcceptsExactlyFields(s: seq<byte>, n: nat)
    requires n <= |s| < TWO_63
    ensures SkipFrom(s, 0, 0) == Ok(n) <==> exists f :: WellFormed(f) && Bytes(f) == s[..n]
  {
    hide SkipFrom, WellFormed, Bytes;
    if SkipFrom(s, 0, 0) == Ok(n) {
      var f := SkippedIsField(s, 0);
    }
    forall f | WellFormed(f) && Bytes(f) == s[..n] ensures SkipFrom(s, 0, 0) == Ok(n) {
      FieldIsSkipped(f, s[n..], 0, 0);
      assert s[..n] + s[n..] == s;
    }
  }
}
