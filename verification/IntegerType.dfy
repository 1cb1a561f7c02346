/** Mixed-width integer arithmetic with overflow detection after the fact. */
module IntegerType {

  datatype Width = TinyInt | SmallInt | Integer | BigInt

  /** 2^(bits - 1). */
  function Half(w: Width): int {
    match w
    case TinyInt => 0x80
    case SmallInt => 0x8000
    case Integer => 0x8000_0000
    case BigInt => 0x8000_0000_0000_0000
  }

  predicate Fits(v: int, w: Width) { -Half(w) <= v < Half(w) }

  /** The type minimum stands for NULL. */
  predicate IsValue(v: int, w: Width) { -Half(w) < v < Half(w) }

  /** Conversion to a signed integer of that width, in two's complement. */
  function Wrap(v: int, w: Width): int { (v + Half(w)) % (2 * Half(w)) - Half(w) }

  function Wider(a: Width, b: Width): Width { if Half(a) >= Half(b) then a else b }

  /** The width C++ computes in: at least 32 bits. */
  function Promoted(a: Width, b: Width): Width { Wider(Wider(a, b), Integer) }

  /** Division that truncates towards zero. */
  function TruncDiv(a: int, b: int): int
    requires b != 0
  {
    if a >= 0 then a / b else -(-a / b)
  }

  datatype Outcome = Ok(w: Width, value: int) | OutOfRange

  function AddValue(w1: Width, w2: Width, x: int, y: int): Outcome {
    var sum := Wrap(x + y, Promoted(w1, w2));
    var sum1, sum2 := Wrap(sum, w1), Wrap(sum, w2);
    if sum != sum1 && sum != sum2 then OutOfRange
    else if Half(w1) >= Half(w2) then
      if (x > 0 && y > 0 && sum1 < 0) || (x < 0 && y < 0 && sum1 > 0) then OutOfRange else Ok(w1, sum1)
    else
      if (x > 0 && y > 0 && sum2 < 0) || (x < 0 && y < 0 && sum2 > 0) then OutOfRange else Ok(w2, sum2)
  }

  function SubtractValue(w1: Width, w2: Width, x: int, y: int): Outcome {
    var diff := Wrap(x - y, Promoted(w1, w2));
    var diff1, diff2 := Wrap(diff, w1), Wrap(diff, w2);
    if diff != diff1 && diff != diff2 then OutOfRange
    else if Half(w1) >= Half(w2) then
      if (x > 0 && y < 0 && diff1 < 0) || (x < 0 && y > 0 && diff1 > 0) then OutOfRange else Ok(w1, diff1)
    else
      if (x > 0 && y < 0 && diff2 < 0) || (x < 0 && y > 0 && diff2 > 0) then OutOfRange else Ok(w2, diff2)
  }

  function MultiplyValue(w1: Width, w2: Width, x: int, y: int): Outcome {
    var prod := Wrap(x * y, Promoted(w1, w2));
    var prod1, prod2 := Wrap(prod, w1), Wrap(prod, w2);
    if prod != prod1 && prod != prod2 then OutOfRange
    else if Half(w1) >= Half(w2) then
      if y != 0 && TruncDiv(prod1, y) != x then OutOfRange else Ok(w1, prod1)
    else
      if y != 0 && TruncDiv(prod2, y) != x then OutOfRange else Ok(w2, prod2)
  }

  /** The mathematical result in the wider type, or an error when it does not fit. */
  function Exactly(v: int, w: Width): Outcome { if Fits(v, w) then Ok(w, v) else OutOfRange }

  /** Wrapping keeps what fits, and moves the rest by a multiple of 2^bits into range. */
  lemma WrapIs(v: int, w: Width)
    ensures Fits(Wrap(v, w), w)
    ensures Wrap(v, w) == v <==> Fits(v, w)
    ensures -3 * Half(w) <= v < -Half(w) ==> Wrap(v, w) == v + 2 * Half(w)
    ensures Half(w) <= v < 3 * Half(w) ==> Wrap(v, w) == v - 2 * Half(w)
    ensures exists k :: Wrap(v, w) == v - k * (2 * Half(w))
  {
    var n := 2 * Half(w);
    assert Wrap(v, w) == v - ((v + Half(w)) / n) * n by { DivMod(v + Half(w), n); }
    match w {
      case TinyInt =>
      case SmallInt =>
      case Integer =>
      case BigInt =>
    }
  }

  lemma DivMod(a: int, n: int)
    requires n > 0
    ensures a == (a / n) * n + a % n && 0 <= a % n < n
  {}

  /** The first check, common to the three operations: below 32 bits it alone decides, from 32 bits
      on it lets everything through. */
  lemma FirstCheck(v: int, w1: Width, w2: Width)
    ensures var c, m := Wrap(v, Promoted(w1, w2)), Wider(w1, w2);
            && (Fits(c, m) <==> c == Wrap(c, w1) || c == Wrap(c, w2))
            && (Promoted(w1, w2) == m ==> Fits(c, m))
  {
    var c := Wrap(v, Promoted(w1, w2));
    WrapIs(v, Promoted(w1, w2));
    WrapIs(c, w1);
    WrapIs(c, w2);
    hide Wrap;
  }

  /** Addition throws exactly when the sum does not fit the wider type, and is exact otherwise. */
  lemma AddIsExact(w1: Width, w2: Width, x: int, y: int)
    requires IsValue(x, w1) && IsValue(y, w2)
    ensures AddValue(w1, w2, x, y) == Exactly(x + y, Wider(w1, w2))
  {
    FirstCheck(x + y, w1, w2);
    WrapIs(x + y, Promoted(w1, w2));
    WrapIs(Wrap(x + y, Promoted(w1, w2)), Wider(w1, w2));
    hide Wrap;
  }

  lemma SubtractIsExact(w1: Width, w2: Width, x: int, y: int)
    requires IsValue(x, w1) && IsValue(y, w2)
    ensures SubtractValue(w1, w2, x, y) == Exactly(x - y, Wider(w1, w2))
  {
    FirstCheck(x - y, w1, w2);
    WrapIs(x - y, Promoted(w1, w2));
    WrapIs(Wrap(x - y, Promoted(w1, w2)), Wider(w1, w2));
    hide Wrap;
  }

  lemma TruncDivIs(a: int, b: int)
    requires b != 0
    ensures var q := TruncDiv(a, b); -Abs(b) < a - q * b < Abs(b)
  {
    if a >= 0 {
      assert a == (a / b) * b + a % b;
    } else {
      assert -a == ((-a) / b) * b + (-a) % b;
      assert (-((-a) / b)) * b == -(((-a) / b) * b);
    }
  }

  function Abs(x: int): int { if x < 0 then -x else x }

  lemma ExactQuotient(x: int, y: int)
    requires y != 0
    ensures TruncDiv(x * y, y) == x
  {
    var q := TruncDiv(x * y, y);
    TruncDivIs(x * y, y);
    assert x * y - q * y == (x - q) * y;
    SmallMultiple(x - q, y, Abs(y));
  }

  /** A multiple of y below n >= |y| in size is zero only for the factor zero. */
  lemma SmallMultiple(d: int, y: int, n: int)
    requires 0 < n <= Abs(y) && -n < d * y < n
    ensures d == 0
  {
    if d != 0 { MultipleGrows(d, y); }
  }

  lemma MultipleGrows(d: int, y: int)
    requires d != 0
    ensures Abs(d * y) >= Abs(y)
  {
    assert Abs(d * y) == Abs(d) * Abs(y);
    assert (Abs(d) - 1) * Abs(y) >= 0;
  }

  /** If the wrapped product divides back to x, nothing was lost. */
  lemma QuotientTellsWrap(x: int, y: int, w: Width)
    requires y != 0 && IsValue(y, w)
    requires TruncDiv(Wrap(x * y, w), y) == x
    ensures Wrap(x * y, w) == x * y
  {
    var p := Wrap(x * y, w);
    WrapIs(x * y, w);
    TruncDivIs(p, y);
    var k :| p == x * y - k * (2 * Half(w));
    hide Wrap;
    assert -Half(w) < k * (2 * Half(w)) < Half(w);
    match w {
      case TinyInt =>
      case SmallInt =>
      case Integer =>
      case BigInt =>
    }
  }

  lemma MultiplyIsExact(w1: Width, w2: Width, x: int, y: int)
    requires IsValue(x, w1) && IsValue(y, w2)
    ensures MultiplyValue(w1, w2, x, y) == Exactly(x * y, Wider(w1, w2))
  {
    var m := Wider(w1, w2);
    var c := Wrap(x * y, Promoted(w1, w2));
    FirstCheck(x * y, w1, w2);
    WrapIs(x * y, Promoted(w1, w2));
    WrapIs(c, m);
    if Promoted(w1, w2) == m {
      if y != 0 {
        ExactQuotient(x, y);
        if TruncDiv(c, y) == x { QuotientTellsWrap(x, y, m); }
      }
    } else {
      SmallProduct(x, y, w1, w2);
      if y != 0 { ExactQuotient(x, y); }
    }
    hide Wrap, TruncDiv;
  }

  /** Products of operands below 32 bits are computed without wrapping. */
  lemma SmallProduct(x: int, y: int, w1: Width, w2: Width)
    requires IsValue(x, w1) && IsValue(y, w2) && Half(Wider(w1, w2)) <= 0x8000
    ensures Fits(x * y, Integer)
  {
    assert -0x8000 < x < 0x8000 && -0x8000 < y < 0x8000;
    ProductBound(x, y, 0x8000);
  }

  lemma ProductBound(x: int, y: int, n: int)
    requires -n < x < n && -n < y < n
    ensures -n * n <= x * y <= n * n
  {
    assert (n - x) * (n + y) >= 0 && (n + x) * (n - y) >= 0;
    assert (n - x) * (n - y) >= 0 && (n + x) * (n + y) >= 0;
  }

  // ---------------------------------------------------------------- the operators, NULLs included

  datatype Operator = Plus | Minus | Times

  function Result(op: Operator, x: int, y: int): int {
    match op
    case Plus => x + y
    case Minus => x - y
    case Times => x * y
  }

  predicate IsNull(v: int, w: Width) { v == -Half(w) }

  /** The NULL an operator of the left operand's type returns, by the type of the right one. */
  function OperateNull(left: Width, right: Width): Outcome {
    var w := match left
      case TinyInt => right
      case SmallInt => if right.TinyInt? then SmallInt else right
      case Integer => if right.BigInt? then BigInt else Integer
      case BigInt => BigInt;
    Ok(w, -Half(w))
  }

  /** `Add`, `Subtract` and `Multiply` of the four integer types. */
  function Operate(op: Operator, w1: Width, w2: Width, x: int, y: int): Outcome {
    if IsNull(x, w1) || IsNull(y, w2) then OperateNull(w1, w2)
    else
      match op
      case Plus => AddValue(w1, w2, x, y)
      case Minus => SubtractValue(w1, w2, x, y)
      case Times => MultiplyValue(w1, w2, x, y)
  }

  /** For every operand of every width: NULL in the wider type if an operand is NULL, otherwise the
      exact result in the wider type, or an error exactly when it does not fit. The one exact result
      that is then read as NULL is the minimum of the wider type. */
  lemma OperateIsExact(op: Operator, w1: Width, w2: Width, x: int, y: int)
    requires Fits(x, w1) && Fits(y, w2)
    ensures Operate(op, w1, w2, x, y) ==
      if IsNull(x, w1) || IsNull(y, w2) then Ok(Wider(w1, w2), -Half(Wider(w1, w2)))
      else Exactly(Result(op, x, y), Wider(w1, w2))
  {
    hide AddValue, SubtractValue, MultiplyValue;
    if !IsNull(x, w1) && !IsNull(y, w2) {
      match op {
        case Plus => AddIsExact(w1, w2, x, y);
        case Minus => SubtractIsExact(w1, w2, x, y);
        case Times => MultiplyIsExact(w1, w2, x, y);
      }
    }
  }

  /** What that NULL check keeps out: two type minimums would add up to zero, undetected. */
  lemma MinimumsAddToZero(w: Width)
    requires w.Integer? || w.BigInt?
    ensures AddValue(w, w, -Half(w), -Half(w)) == Ok(w, 0)
  {}
}
