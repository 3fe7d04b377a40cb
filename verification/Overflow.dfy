/**
  Bounded arithmetic: operations that detect overflow from their own wrapped result, and the
  handler whose first error sticks.
 */
module Overflow {
  import opened MachineIntegers
  import opened Options

  // ----- Stateless operations -----

  datatype ArithmeticError = AdditionOverflow | MultiplicationOverflow

  /** The wrapped sum is below an operand exactly when the addition overflowed. */
  function AddUint64WithErr(a: uint64, b: uint64): (r: (uint64, Option<ArithmeticError>))
    ensures r.1.None? <==> a + b <= MAX_UINT64
    ensures r.0 == if a + b <= MAX_UINT64 then a + b else MAX_UINT64
  {
    var s := Wrap64(a + b);
    if s >= a && s >= b then (s, None) else (MAX_UINT64, Some(AdditionOverflow))
  }

  /** Dividing the wrapped product gives back an operand exactly when nothing was lost. */
  function MulUint64WithErr(a: uint64, b: uint64): (r: (uint64, Option<ArithmeticError>)) {
    var res := Wrap64(a * b);
    if a == 0 || b == 0 || a == res / b then (res, None) else (MAX_UINT64, Some(MultiplicationOverflow))
  }

  function AddUint64(a: uint64, b: uint64): uint64 {
    AddUint64WithErr(a, b).0
  }

  /** Saturates upwards in both directions. */
  function AddInt32(a: int32, b: int32): (r: int32)
    ensures r == if -TWO_31 <= a + b <= MAX_INT32 then a + b else MAX_INT32
  {
    var s := ToInt32(a + b);
    if (s > a) == (b > 0) then s else MAX_INT32
  }

  lemma MulUint64Exact(a: uint64, b: uint64)
    ensures var r := MulUint64WithErr(a, b);
            && (r.1.None? <==> a * b <= MAX_UINT64)
            && r.0 == (if a * b <= MAX_UINT64 then a * b else MAX_UINT64)
  {
    ProductNonnegative(a, b);
    var res := Wrap64(a * b);
    if b > 0 {
      QuotientOfProduct(a, b);
      assert res == res / b * b + res % b;
    }
  }

  lemma ProductNonnegative(a: nat, b: nat)
    ensures a * b >= 0
  {
  }

  lemma QuotientOfProduct(a: int, b: int)
    requires b > 0
    ensures a * b / b == a
  {
    DivModUnique(a * b, a, 0, b);
  }

  // ----- The sticky handler -----

  datatype OverflowError = AddOverflow(a: int64, b: int64) | MulOverflow(a: int64, b: int64)

  /** Division as Go computes it on `int64`: towards zero, with MinInt64 / -1 wrapping. */
  function GoDiv(x: int64, y: int64): int64
    requires y != 0
  {
    ToInt64(Truncated(x, y))
  }

  function Truncated(x: int, y: int): int
    requires y != 0
  {
    if x >= 0 then (if y > 0 then x / y else -(x / -y))
    else (if y > 0 then -(-x / y) else -x / -y)
  }

  /** What `AddInt64` returns and leaves in the handler. */
  function AddStep(err: Option<OverflowError>, a: int64, b: int64): (int64, Option<OverflowError>) {
    if err.Some? then (MAX_INT64, err)
    else
      var s := ToInt64(a + b);
      if (s > a) == (b > 0) then (s, None) else (MAX_INT64, Some(AddOverflow(a, b)))
  }

  function MulStep(err: Option<OverflowError>, a: int64, b: int64): (int64, Option<OverflowError>) {
    if err.Some? then (MAX_INT64, err)
    else
      var res := ToInt64(a * b);
      if a == 0 || b == 0 || a == GoDiv(res, b) then (res, None) else (MAX_INT64, Some(MulOverflow(a, b)))
  }

  /** The exact result if it fits, otherwise the error. */
  function ExactOr(x: int, error: OverflowError): (int64, Option<OverflowError>) {
    if FitsInt64(x) then (x, None) else (MAX_INT64, Some(error))
  }

  lemma AddExact(a: int64, b: int64)
    ensures AddStep(None, a, b) == ExactOr(a + b, AddOverflow(a, b))
  {
  }

  lemma FitsUnchanged(x: int)
    requires FitsInt64(x)
    ensures ToInt64(x) == x
  {
  }

  /** A wrapped value differs from the true one by whole multiples of 2^64. */
  lemma WrapDistance(x: int) returns (k: int)
    ensures ToInt64(x) == x - k * TWO_64
    ensures k == 0 <==> FitsInt64(x)
  {
    k := if x % TWO_64 < TWO_63 then x / TWO_64 else x / TWO_64 + 1;
    if FitsInt64(x) { FitsUnchanged(x); }
  }

  lemma TruncatedMagnitude(x: int, y: int)
    requires y != 0
    ensures var d := Magnitude(x) / Magnitude(y);
            Truncated(x, y) == if (x >= 0) == (y > 0) then d else -d
  {
  }

  lemma TruncatedBounds(x: int, y: int)
    requires y != 0
    ensures -Magnitude(y) < x - Truncated(x, y) * y < Magnitude(y)
  {
    hide Truncated;
    TruncatedMagnitude(x, y);
    var u, v := Magnitude(x), Magnitude(y);
    var d := u / v;
    assert 0 <= u - d * v < v;
    SignedProduct(d, v, Truncated(x, y), y, (x >= 0) == (y > 0), y > 0);
  }

  lemma SignedProduct(d: int, v: int, q: int, y: int, same: bool, positive: bool)
    requires q == (if same then d else -d) && y == (if positive then v else -v)
    ensures q * y == (if same == positive then d * v else -(d * v))
  {
  }

  /** The first wrong answer of `MulInt64`: MinInt64 times -1 passes the check and wraps. */
  predicate Missed(a: int64, b: int64) {
    a == MIN_INT64 && b == -1
  }

  lemma MinTimesMinusOneIsMissed()
    ensures MulStep(None, MIN_INT64, -1) == (MIN_INT64, None) && !FitsInt64(MIN_INT64 * -1)
  {
    assert ToInt64(TWO_63) == MIN_INT64;
    assert Truncated(MIN_INT64, -1) == TWO_63;
  }

  /** `MulInt64` is exact or reports, on every pair of operands but that one. */
  lemma MulExact(a: int64, b: int64)
    ensures MulStep(None, a, b) == if Missed(a, b) then (MIN_INT64, None) else ExactOr(a * b, MulOverflow(a, b))
  {
    if Missed(a, b) {
      MinTimesMinusOneIsMissed();
    } else if a == 0 || b == 0 {
      assert a * b == 0;
    } else {
      CheckIsExact(a, b);
      if FitsInt64(a * b) { FitsUnchanged(a * b); }
    }
  }

  lemma CheckIsExact(a: int64, b: int64)
    requires a != 0 && b != 0 && !Missed(a, b)
    ensures a == GoDiv(ToInt64(a * b), b) <==> FitsInt64(a * b)
  {
    hide ToInt64, Truncated;
    var p := a * b;
    var res := ToInt64(p);
    var k := WrapDistance(p);
    var q := Truncated(res, b);
    TruncatedBounds(res, b);
    if k == 0 {
      TruncatedProduct(a, b);
      FitsUnchanged(a);
    } else {
      NoSmallMultiple(a, b, k, res);
      QuotientRange(res, b);
      if FitsInt64(q) { FitsUnchanged(q); } else { QuotientWraps(q); }
    }
  }

  lemma TruncatedProduct(a: int, b: int)
    requires a != 0 && b != 0
    ensures Truncated(a * b, b) == a
  {
    var u, v := Magnitude(a), Magnitude(b);
    PositiveProduct(u, v);
    SignedProduct(u, v, a, b, a > 0, b > 0);
    QuotientOfProduct(u, v);
  }

  function Magnitude(x: int): (m: int)
    ensures m >= 0 && (m == 0 <==> x == 0)
  {
    if x >= 0 then x else -x
  }

  lemma PositiveProduct(u: nat, v: nat)
    requires u > 0 && v > 0
    ensures u * v > 0
  {
  }

  lemma NoSmallMultiple(a: int64, b: int64, k: int, res: int64)
    requires b != 0 && k != 0 && res == a * b - k * TWO_64
    ensures !(-Magnitude(b) < res - a * b < Magnitude(b))
  {
  }

  lemma QuotientRange(x: int64, y: int64)
    requires y != 0
    ensures FitsInt64(Truncated(x, y)) || (x == MIN_INT64 && y == -1 && Truncated(x, y) == TWO_63)
  {
    hide Truncated;
    TruncatedMagnitude(x, y);
    QuotientAtMost(Magnitude(x), Magnitude(y));
  }

  lemma QuotientAtMost(u: nat, v: nat)
    requires v > 0
    ensures 0 <= u / v && (v == 1 ==> u / v == u) && (v > 1 ==> 2 * (u / v) <= u)
  {
    if v > 1 {
      HalvesAtLeast(u, v);
    }
  }

  lemma HalvesAtLeast(u: nat, v: nat)
    requires v >= 2
    ensures 0 <= u / v && 2 * (u / v) <= u
  {
    var d := u / v;
    MulAtLeastTwice(d, v);
  }

  lemma MulAtLeastTwice(d: nat, v: nat)
    requires v >= 2
    ensures d * v >= 2 * d
  {
  }

  lemma QuotientWraps(q: int)
    requires q == TWO_63
    ensures ToInt64(q) == MIN_INT64
  {
  }

  // ----- Expressions evaluated through one handler -----

  datatype Expr = Literal(v: int64) | Add(left: Expr, right: Expr) | Mul(left: Expr, right: Expr)

  /** The mathematical value. */
  function Meaning(e: Expr): int {
    match e
    case Literal(v) => v
    case Add(l, r) => Meaning(l) + Meaning(r)
    case Mul(l, r) => Meaning(l) * Meaning(r)
  }

  /** Every intermediate value is an `int64`. */
  predicate AllFit(e: Expr) {
    && FitsInt64(Meaning(e))
    && match e
       case Literal(_) => true
       case Add(l, r) => AllFit(l) && AllFit(r)
       case Mul(l, r) => AllFit(l) && AllFit(r)
  }

  /** The first operation, in evaluation order, whose mathematical result does not fit. */
  function FirstOverflow(e: Expr): (o: Option<OverflowError>)
    ensures o.None? <==> AllFit(e)
  {
    match e
    case Literal(_) => None
    case Add(l, r) =>
      if FirstOverflow(l).Some? then FirstOverflow(l)
      else if FirstOverflow(r).Some? then FirstOverflow(r)
      else if FitsInt64(Meaning(e)) then None else Some(AddOverflow(Meaning(l), Meaning(r)))
    case Mul(l, r) =>
      if FirstOverflow(l).Some? then FirstOverflow(l)
      else if FirstOverflow(r).Some? then FirstOverflow(r)
      else if FitsInt64(Meaning(e)) then None else Some(MulOverflow(Meaning(l), Meaning(r)))
  }

  /** Value and stored error after evaluating an expression, left operand first. */
  function Run(e: Expr, err: Option<OverflowError>): (int64, Option<OverflowError>) {
    match e
    case Literal(v) => (v, err)
    case Add(l, r) =>
      var (x, err1) := Run(l, err);
      var (y, err2) := Run(r, err1);
      AddStep(err2, x, y)
    case Mul(l, r) =>
      var (x, err1) := Run(l, err);
      var (y, err2) := Run(r, err1);
      MulStep(err2, x, y)
  }

  class OverflowHandler {
    var err: Option<OverflowError>

    constructor ()
      ensures err == None
    {
      err := None;
    }

    /** The exact sum or, if it does not fit, MaxInt64 and the error; a stored error stays. */
    method AddInt64(a: int64, b: int64) returns (r: int64)
      modifies this
      ensures old(err).None? ==> (r, err) == ExactOr(a + b, AddOverflow(a, b))
      ensures old(err).Some? ==> r == MAX_INT64 && err == old(err)
    {
      AddExact(a, b);
      if err != None { return MAX_INT64; }
      var s := ToInt64(a + b);
      if (s > a) == (b > 0) { return s; }
      err := Some(AddOverflow(a, b));
      return MAX_INT64;
    }

    /** The exact product or the error, except that MinInt64 times -1 is answered by MinInt64. */
    method MulInt64(a: int64, b: int64) returns (r: int64)
      modifies this
      ensures old(err).None? ==> (r, err) == if Missed(a, b) then (MIN_INT64, None) else ExactOr(a * b, MulOverflow(a, b))
      ensures old(err).Some? ==> r == MAX_INT64 && err == old(err)
    {
      MulExact(a, b);
      if err != None { return MAX_INT64; }
      var res := ToInt64(a * b);
      if a == 0 || b == 0 || a == GoDiv(res, b) { return res; }
      err := Some(MulOverflow(a, b));
      return MAX_INT64;
    }

    /**
      An expression computed through one handler: from a handler without error, the stored error is
      the first overflow of the mathematical evaluation and the result of an evaluation that fits is
      exact, precisely unless that overflow is the missed product.
     */
    method Evaluate(e: Expr) returns (r: int64)
      modifies this
      ensures old(err).None? ==> (Agrees(e, r, err) <==> FirstOverflow(e) != Some(MISSED))
      ensures old(err).Some? ==> err == old(err) && (e.Literal? || r == MAX_INT64)
    {
      hide Run;
      if err.None? {
        FaithfulUnlessMissed(e);
      } else {
        ErrorsStick(e, err.value);
      }
      r := Compute(e);
    }

    method Compute(e: Expr) returns (r: int64)
      modifies this
      ensures (r, err) == Run(e, old(err))
      decreases e
    {
      match e
      case Literal(v) => r := v;
      case Add(left, right) =>
        var x := Compute(left);
        var y := Compute(right);
        AddExact(x, y);
        r := AddInt64(x, y);
      case Mul(left, right) =>
        var x := Compute(left);
        var y := Compute(right);
        MulExact(x, y);
        r := MulInt64(x, y);
    }
  }

  /** Once stored, an error never changes, and every later operation answers MaxInt64. */
  lemma {:induction false} ErrorsStick(e: Expr, first: OverflowError)
    ensures Run(e, Some(first)).1 == Some(first)
    ensures !e.Literal? ==> Run(e, Some(first)).0 == MAX_INT64
  {
    match e
    case Literal(_) =>
    case Add(l, r) =>
      ErrorsStick(l, first);
      ErrorsStick(r, first);
    case Mul(l, r) =>
      ErrorsStick(l, first);
      ErrorsStick(r, first);
  }

  const MISSED: OverflowError := MulOverflow(MIN_INT64, -1)

  lemma {:induction false} MissedIsNeverStored(e: Expr, err: Option<OverflowError>)
    requires err != Some(MISSED)
    ensures Run(e, err).1 != Some(MISSED)
  {
    match e
    case Literal(_) =>
    case Add(l, r) =>
      MissedIsNeverStored(l, err);
      MissedIsNeverStored(r, Run(l, err).1);
    case Mul(l, r) =>
      MissedIsNeverStored(l, err);
      MissedIsNeverStored(r, Run(l, err).1);
      var (x, err1) := Run(l, err);
      var (y, err2) := Run(r, err1);
      MulExact(x, y);
  }

  /** Agreement of the handler with mathematical integers. */
  predicate Agrees(e: Expr, r: int64, err: Option<OverflowError>) {
    err == FirstOverflow(e) && (AllFit(e) ==> r == Meaning(e))
  }

  predicate Faithful(e: Expr) {
    Agrees(e, Run(e, None).0, Run(e, None).1)
  }

  lemma {:induction false} RefinesIntegers(e: Expr)
    requires FirstOverflow(e) != Some(MISSED)
    ensures Faithful(e)
  {
    hide AddStep, MulStep;
    if !e.Literal? {
      var l, r := e.left, e.right;
      RefinesIntegers(l);
      if FirstOverflow(l).Some? {
        ErrorsStick(r, FirstOverflow(l).value);
      } else {
        RefinesIntegers(r);
      }
      LastOperation(e);
    }
  }

  lemma LastOperation(e: Expr)
    requires !e.Literal?
    ensures forall err: OverflowError, x: int64, y: int64 ::
      AddStep(Some(err), x, y).1 == Some(err) && MulStep(Some(err), x, y).1 == Some(err)
    ensures var x, y := Meaning(e.left), Meaning(e.right);
            FitsInt64(x) && FitsInt64(y) && !(e.Mul? && Missed(x, y)) ==>
              && (e.Add? ==> AddStep(None, x, y) == ExactOr(x + y, AddOverflow(x, y)))
              && (e.Mul? ==> MulStep(None, x, y) == ExactOr(x * y, MulOverflow(x, y)))
  {
    var x, y := Meaning(e.left), Meaning(e.right);
    if FitsInt64(x) && FitsInt64(y) {
      AddExact(x, y);
      MulExact(x, y);
    }
  }

  /**
    The handler agrees with mathematical integers - no error exactly when every intermediate value
    fits, then the exact value, otherwise the first overflow - precisely for the expressions whose
    first overflow is not the product of MinInt64 by -1.
   */
  lemma FaithfulUnlessMissed(e: Expr)
    ensures Faithful(e) <==> FirstOverflow(e) != Some(MISSED)
  {
    if FirstOverflow(e) == Some(MISSED) {
      MissedIsNeverStored(e, None);
    } else {
      RefinesIntegers(e);
    }
  }
}
