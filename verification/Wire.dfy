/**
  Field structure of the wire format: tags, and how unknown fields are skipped, including nested
  groups.
 */
module Wire {
  import opened MachineIntegers
  import opened Varint

  datatype Result<T> = Ok(value: T) | Err(err: Error)

  function WireType(wire: nat): nat {
    wire % 8
  }

  function FieldNumber(wire: nat): int32 {
    ToInt32(wire / 8)
  }

  // ----- Skipping -----

  /** One turn of the skipping loop: bytes consumed and the group depth reached. */
  datatype Turn = Turn(n: nat, depth: nat) | Failed(err: Error)

  function SkipPayload(s: seq<byte>, wireType: nat, depth: nat): Turn {
    match wireType
    case 0 =>
      (match ReadVarint(s)
       case Read(_, k) => Turn(k, depth)
       case Broken(e, _) => Failed(e))
    case 1 => Turn(8, depth)
    case 2 =>
      (match ReadVarint(s)
       case Read(v, k) => if ToInt64(v) < 0 then Failed(InvalidLength) else Turn(k + ToInt64(v), depth)
       case Broken(e, _) => Failed(e))
    case 3 => Turn(0, depth + 1)
    case 4 => if depth == 0 then Failed(UnexpectedEndOfGroup) else Turn(0, depth - 1)
    case 5 => Turn(4, depth)
    case t => Failed(IllegalWireType(t))
  }

  /** `pos` is the cursor before the turn; a cursor past the largest `int` wraps to a negative one. */
  function SkipTurn(s: seq<byte>, pos: nat, depth: nat): (t: Turn)
    ensures t.Turn? ==> t.n >= 1 && pos + t.n < TWO_63
  {
    match ReadVarint(s)
    case Broken(e, _) => Failed(e)
    case Read(wire, k) =>
      match SkipPayload(s[k..], WireType(wire), depth)
      case Failed(e) => Failed(e)
      case Turn(n, d) => if pos + k + n >= TWO_63 then Failed(InvalidLength) else Turn(k + n, d)
  }

  /** The skipping loop on the rest of the input; the answer is the number of bytes it passes over. */
  function SkipFrom(s: seq<byte>, pos: nat, depth: nat): (r: Result<nat>)
    ensures r.Ok? ==> r.value >= 1 && pos + r.value < TWO_63
    decreases |s|
  {
    if s == [] then Err(UnexpectedEOF)
    else
      match SkipTurn(s, pos, depth)
      case Failed(e) => Err(e)
      case Turn(n, d) =>
        if d == 0 then Ok(n)
        else if n > |s| then Err(UnexpectedEOF)
        else Plus(n, SkipFrom(s[n..], pos + n, d))
  }

  /** The loop resumed at cursor `i`, which a length may have moved past the end. */
  function Resume(data: seq<byte>, i: nat, depth: nat): Result<nat> {
    if i > |data| then Err(UnexpectedEOF) else Plus(i, SkipFrom(data[i..], i, depth))
  }

  function Plus(n: nat, r: Result<nat>): Result<nat> {
    match r
    case Ok(m) => Ok(n + m)
    case Err(e) => Err(e)
  }

  lemma WrappedIndex(i: int)
    requires 0 <= i < TWO_64
    ensures ToInt64(i) < 0 <==> i >= TWO_63
    ensures i < TWO_63 ==> ToInt64(i) == i
  {
  }

  /** The `switch` of the skipping loop, on the cursor just after a tag. */
  method PassPayload(data: seq<byte>, start: nat, wireType: nat, depth: nat)
    returns (r: Result<(int64, nat)>)
    requires start <= |data| < TWO_63
    ensures match SkipPayload(data[start..], wireType, depth)
            case Failed(e) => r == Err(e)
            case Turn(n, d) => start + n < TWO_64 && r == Ok((ToInt64(start + n), d))
  {
    hide ReadVarint;
    WrappedIndex(start);
    match wireType {
      case 0 =>
        var v := DecodeVarint(data, start);
        if v.Broken? { return Err(v.err); }
        WrappedIndex(start + v.len);
        return Ok((start + v.len, depth));
      case 1 => return Ok((ToInt64(start + 8), depth));
      case 2 =>
        var v := DecodeVarint(data, start);
        if v.Broken? { return Err(v.err); }
        var length := ToInt64(v.value);
        if length < 0 { return Err(InvalidLength); }
        return Ok((ToInt64(start + v.len + length), depth));
      case 3 => return Ok((start, depth + 1));
      case 4 =>
        if depth == 0 { return Err(UnexpectedEndOfGroup); }
        return Ok((start, depth - 1));
      case 5 => return Ok((ToInt64(start + 4), depth));
      case t => return Err(IllegalWireType(t));
    }
  }

  lemma ResumeStep(data: seq<byte>, i: nat, depth: nat)
    requires i < |data| && SkipTurn(data[i..], i, depth).Turn?
    ensures var t := SkipTurn(data[i..], i, depth);
            Resume(data, i, depth) == if t.depth == 0 then Ok(i + t.n) else Resume(data, i + t.n, t.depth)
  {
    hide SkipTurn;
    var t := SkipTurn(data[i..], i, depth);
    if i + t.n <= |data| {
      assert data[i..][t.n..] == data[i + t.n..];
    }
  }

  /** `skipAsyncCall`. */
  method SkipAsyncCall(data: seq<byte>) returns (r: Result<nat>)
    requires |data| < TWO_63
    ensures r == SkipFrom(data, 0, 0)
  {
    hide ReadVarint, SkipPayload;
    var i, depth := 0, 0;
    while i < |data|
      invariant 0 <= i < TWO_63 && depth >= 0
      invariant SkipFrom(data, 0, 0) == Resume(data, i, depth)
      decreases |data| - i
    {
      var tag := DecodeVarint(data, i);
      if tag.Broken? { return Err(tag.err); }
      var next := PassPayload(data, i + tag.len, WireType(tag.value), depth);
      assert data[i..][tag.len..] == data[i + tag.len..];
      if next.Err? { return Err(next.err); }
      ghost var n := SkipPayload(data[i + tag.len..], WireType(tag.value), depth).n;
      WrappedIndex(i + tag.len + n);
      if next.value.0 < 0 { return Err(InvalidLength); }
      ResumeStep(data, i, depth);
      i, depth := next.value.0, next.value.1;
      if depth == 0 { return Ok(i); }
    }
    return Err(UnexpectedEOF);
  }
}
