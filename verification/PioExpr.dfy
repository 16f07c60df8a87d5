/** Operand expressions of the PIO assembler, and the arithmetic on their values. */
module PioExpr {
  import opened Bits

  type int32 = x: int | -0x8000_0000 <= x < 0x8000_0000

  datatype UnaryOp = Negate | Reverse
  datatype BinaryOp = Add | Subtract | Multiply | Divide | And | Or | Xor

  datatype Expr =
    | IntValue(value: int32)
    | NameRef(name: string)
    | Unary(op: UnaryOp, arg: Expr)
    | Binary(bop: BinaryOp, left: Expr, right: Expr)

  datatype Error = Undefined(name: string) | Circular(name: string)

  /** A value, a syntax error, or a C++ operation whose behaviour is undefined. */
  datatype Outcome = Value(v: int32) | Failed(error: Error) | Trap

  function Checked(x: int): Outcome {
    if -0x8000_0000 <= x < 0x8000_0000 then Value(x) else Trap
  }

  const WORD_BITS: nat := 32

  /** The 32 bits of a number in two's complement, most significant first. */
  function Word(v: int32): (bits: seq<bool>)
    ensures |bits| == 32
  {
    Low(v, WORD_BITS)
  }

  lemma Pow2Of32()
    ensures Pow2(32) == 0x1_0000_0000 && Pow2(31) == 0x8000_0000
  {
    assert Pow2(8) == 256;
    assert Pow2(16) == 65536;
    assert Pow2(24) == 0x100_0000;
  }

  /** The number whose two's complement bits are these. */
  function Signed(bits: seq<bool>): int32
    requires |bits| == 32
  {
    LowValue(bits);
    Pow2Of32();
    ToSigned(Bits.Value(bits))
  }

  /** Conversion from unsigned to signed 32-bit. */
  function ToSigned(u: nat): int32
    requires u < 0x1_0000_0000
  {
    if u < 0x8000_0000 then u else u - 0x1_0000_0000
  }

  lemma {:induction false} LowOfShifted(v: int, k: int, n: nat)
    ensures Low(v + k * Pow2(n), n) == Low(v, n)
    decreases n
  {
    if n > 0 {
      var p := Pow2(n - 1);
      assert k * Pow2(n) == 2 * (k * p) by {
        Double(k, p);
      }
      assert (v + 2 * (k * p)) / 2 == v / 2 + k * p && (v + 2 * (k * p)) % 2 == v % 2;
      LowOfShifted(v / 2, k, n - 1);
    }
  }

  lemma SignedOfWord(v: int32)
    ensures Signed(Word(v)) == v
  {
    Pow2Of32();
    if v < 0 {
      LowOfShifted(v, 1, WORD_BITS);
      ValueLow(v + 0x1_0000_0000, WORD_BITS);
    } else {
      ValueLow(v, WORD_BITS);
    }
  }

  lemma WordOfSigned(bits: seq<bool>)
    requires |bits| == 32
    ensures Word(Signed(bits)) == bits
  {
    LowValue(bits);
    Pow2Of32();
    if Bits.Value(bits) >= 0x8000_0000 {
      LowOfShifted(Signed(bits), 1, WORD_BITS);
    }
  }

  function Reversed(bits: seq<bool>): (r: seq<bool>)
    ensures |r| == |bits| && forall i | 0 <= i < |bits| :: r[i] == bits[|bits| - 1 - i]
  {
    seq(|bits|, i requires 0 <= i < |bits| => bits[|bits| - 1 - i])
  }

  /** The value with its 32 bits in the opposite order. */
  function ReverseBits(v: int32): int32 {
    Signed(Reversed(Word(v)))
  }

  /** Reversing the bits twice gives the value back. */
  lemma ReverseTwice(v: int32)
    ensures ReverseBits(ReverseBits(v)) == v
  {
    WordOfSigned(Reversed(Word(v)));
    assert Reversed(Reversed(Word(v))) == Word(v);
    SignedOfWord(v);
  }

  lemma {:induction false} LowReversed(v: int, n: nat)
    requires n > 0
    ensures Reversed(Low(v, n)) == [v % 2 == 1] + Reversed(Low(v / 2, n - 1))
  {
  }

  /** `result` holds the bits taken; those still to come are the low bits of `value`, lowest first. */
  predicate Taking(result: int, taken: seq<bool>, value: int, left: nat, all: seq<bool>) {
    result == Bits.Value(taken) && taken + Reversed(Low(value, left)) == all
  }

  lemma TakeOne(result: int, taken: seq<bool>, value: int, left: nat, all: seq<bool>)
    requires 0 < left && Taking(result, taken, value, left, all)
    ensures Taking(2 * result + value % 2, taken + [value % 2 == 1], value / 2, left - 1, all)
  {
    var b := value % 2 == 1;
    LowReversed(value, left);
    ValueSnoc(taken, b);
    assert taken + ([b] + Reversed(Low(value / 2, left - 1))) == (taken + [b]) + Reversed(Low(value / 2, left - 1));
  }

  lemma TakenAll(result: int, taken: seq<bool>, value: int, all: seq<bool>)
    requires Taking(result, taken, value, 0, all)
    ensures result == Bits.Value(all)
  {
    assert taken + [] == taken;
  }

  /** The loop of the reverse operator, for `n` bits. */
  method ReverseLow(v: int, n: nat) returns (result: nat)
    ensures result == Bits.Value(Reversed(Low(v, n)))
  {
    var value := v;
    result := 0;
    ghost var taken, all := [], Reversed(Low(v, n));
    for i := 0 to n
      invariant Taking(result, taken, value, n - i, all)
    {
      TakeOne(result, taken, value, n - i, all);
      taken := taken + [value % 2 == 1];
      result := 2 * result;
      if value % 2 == 1 {
        result := result + 1;
      }
      value := value / 2;
    }
    TakenAll(result, taken, value, all);
  }

  method Reverse32(v: int32) returns (r: int32)
    ensures r == ReverseBits(v)
  {
    var u := ReverseLow(v, WORD_BITS);
    LowValue(Reversed(Word(v)));
    Pow2Of32();
    r := ToSigned(u);
  }

  // ------------------------------------------------------------------
  // Operators
  // ------------------------------------------------------------------

  function Abs(x: int): nat {
    if x < 0 then -x else x
  }

  /** C++ integer division: toward zero. */
  function TruncDiv(l: int, r: int): int
    requires r != 0
  {
    if (l < 0) == (r < 0) then Abs(l) / Abs(r) else -(Abs(l) / Abs(r))
  }

  /** Division leaves a remainder smaller than the divisor and of the dividend's sign. */
  lemma TruncDivRemainder(l: int, r: int)
    requires r != 0
    ensures var rem := l - TruncDiv(l, r) * r;
            Abs(rem) < Abs(r) && (rem == 0 || (rem < 0 <==> l < 0))
  {
    var q, a, b := Abs(l) / Abs(r), Abs(l), Abs(r);
    assert a == q * b + a % b;
    SignsOfProduct(q, r);
  }

  lemma SignsOfProduct(q: int, r: int)
    ensures (-q) * r == -(q * r) && q * Abs(r) == if r < 0 then -(q * r) else q * r
  {
  }

  function Zip(op: BinaryOp, a: seq<bool>, b: seq<bool>): (r: seq<bool>)
    requires |a| == |b|
    ensures |r| == |a|
  {
    seq(|a|, i requires 0 <= i < |a| =>
      match op
      case And => a[i] && b[i]
      case Or => a[i] || b[i]
      case _ => a[i] != b[i])
  }

  function ApplyUnary(op: UnaryOp, v: int32): Outcome {
    match op
    case Negate => Checked(-(v as int))
    case Reverse => Value(ReverseBits(v))
  }

  /** Errors of the operand come first. */
  function UnaryOf(op: UnaryOp, o: Outcome): Outcome {
    if o.Value? then ApplyUnary(op, o.v) else o
  }

  /** The left operand is resolved before the right one. */
  function BinaryOf(op: BinaryOp, l: Outcome, r: Outcome): Outcome {
    if !l.Value? then l else if !r.Value? then r else ApplyBinary(op, l.v, r.v)
  }

  function ApplyBinary(op: BinaryOp, l: int32, r: int32): Outcome {
    match op
    case Add => Checked(l + r)
    case Subtract => Checked(l - r)
    case Multiply => Checked(l * r)
    case Divide => if r == 0 then Trap else Checked(TruncDiv(l, r))
    case _ => Value(Signed(Zip(op, Word(l), Word(r))))
  }

  // ------------------------------------------------------------------
  // What the operators compute
  // ------------------------------------------------------------------

  predicate InRange(x: int) {
    -0x8000_0000 <= x <= 0x7fff_ffff
  }

  /** Addition is counting on; it traps exactly where the sum leaves 32 bits. */
  lemma AddLaws(l: int32, r: int32)
    ensures ApplyBinary(Add, l, 0) == Value(l)
    ensures InRange(r + 1) && InRange(l + r) && InRange(l + r + 1) ==>
              ApplyBinary(Add, l, r).Value? && ApplyBinary(Add, l, r + 1) == Value(ApplyBinary(Add, l, r).v + 1)
    ensures ApplyBinary(Add, l, r) == Trap <==> !InRange(l + r)
  {
  }

  /** Subtraction undoes addition. */
  lemma SubtractLaws(l: int32, r: int32)
    ensures ApplyBinary(Subtract, l, r).Value? ==> ApplyBinary(Add, ApplyBinary(Subtract, l, r).v, r) == Value(l)
    ensures ApplyBinary(Add, l, r).Value? ==> ApplyBinary(Subtract, ApplyBinary(Add, l, r).v, r) == Value(l)
    ensures ApplyBinary(Subtract, l, r) == Trap <==> !InRange(l - r)
  {
  }

  /** Multiplication is repeated addition. */
  lemma MultiplyLaws(l: int32, r: int32)
    ensures ApplyBinary(Multiply, l, 0) == Value(0)
    ensures InRange(r + 1) && InRange(l * r) && InRange(l * r + l) ==>
              ApplyBinary(Multiply, l, r).Value?
              && ApplyBinary(Multiply, l, r + 1) == ApplyBinary(Add, ApplyBinary(Multiply, l, r).v, l)
    ensures ApplyBinary(Multiply, l, r) == Trap <==> !InRange(l * r)
  {
    if InRange(r + 1) {
      OneMoreTimes(l, r);
    }
  }

  lemma OneMoreTimes(l: int, r: int)
    ensures l * (r + 1) == l * r + l
  {
  }

  /** A value and its negation add up to 0; only the least value has none. */
  lemma NegateLaws(v: int32)
    ensures ApplyUnary(Negate, v).Value? ==> ApplyBinary(Add, v, ApplyUnary(Negate, v).v) == Value(0)
    ensures ApplyUnary(Negate, v) == Trap <==> v == -0x8000_0000
  {
  }

  /** Division leaves a remainder smaller than the divisor and of the dividend's sign. */
  lemma DivideLaws(l: int32, r: int32)
    ensures ApplyBinary(Divide, l, r) == Trap <==> r == 0 || (l == -0x8000_0000 && r == -1)
    ensures ApplyBinary(Divide, l, r).Value? ==>
              var rem := l - ApplyBinary(Divide, l, r).v * r;
              Abs(rem) < Abs(r) && (rem == 0 || (rem < 0 <==> l < 0))
  {
    if r != 0 {
      TruncDivRemainder(l, r);
      QuotientBound(Abs(l), Abs(r));
    }
  }

  lemma QuotientBound(a: nat, b: nat)
    requires b > 0
    ensures a / b <= a && (b > 1 ==> 2 * (a / b) <= a) && (b == 1 ==> a / b == a)
  {
    var q, rem := a / b, a % b;
    assert a == q * b + rem;
    AtLeastTimes(q, b, 1);
    if b > 1 {
      AtLeastTimes(q, b, 2);
    } else {
      assert q * b == q && rem == 0;
    }
  }

  lemma AtLeastTimes(q: nat, b: nat, k: nat)
    requires b >= k
    ensures q * b >= q * k
  {
    assert q * b == q * k + q * (b - k);
  }

  /** The bitwise operators work on each of the 32 bits. */
  lemma BitwiseLaws(l: int32, r: int32)
    ensures var o := ApplyBinary(And, l, r);
            o.Value? && forall i | 0 <= i < 32 :: Word(o.v)[i] == (Word(l)[i] && Word(r)[i])
    ensures var o := ApplyBinary(Or, l, r);
            o.Value? && forall i | 0 <= i < 32 :: Word(o.v)[i] == (Word(l)[i] || Word(r)[i])
    ensures var o := ApplyBinary(Xor, l, r);
            o.Value? && forall i | 0 <= i < 32 :: Word(o.v)[i] == (Word(l)[i] != Word(r)[i])
  {
    WordOfSigned(Zip(And, Word(l), Word(r)));
    WordOfSigned(Zip(Or, Word(l), Word(r)));
    WordOfSigned(Zip(Xor, Word(l), Word(r)));
  }

  lemma ReverseLaws(v: int32, i: nat)
    requires i < 32
    ensures ApplyUnary(Reverse, v).Value? && Word(ApplyUnary(Reverse, v).v)[i] == Word(v)[31 - i]
  {
    var bits := Word(v);
    ReversedAt(bits, i);
    WordOfSigned(Reversed(bits));
  }

  lemma ReversedAt(bits: seq<bool>, i: nat)
    requires |bits| == 32 && i < 32
    ensures |Reversed(bits)| == 32 && Reversed(bits)[i] == bits[31 - i]
  {
  }

  /** The outcome that the operator has in arithmetic; `Trap` where C++ leaves it undefined. */
  ghost predicate Computes(op: BinaryOp, l: int32, r: int32, o: Outcome) {
    match op
    case Add => if InRange(l + r) then o == Value(l + r) else o == Trap
    case Subtract => if InRange(l - r) then o.Value? && o.v + r == l else o == Trap
    case Multiply => if InRange(l * r) then o == Value(l * r) else o == Trap
    case Divide =>
      if r == 0 || (l == -0x8000_0000 && r == -1) then o == Trap
      else o.Value? && Abs(l - o.v * r) < Abs(r) && (l - o.v * r == 0 || (l - o.v * r < 0 <==> l < 0))
    case And => o.Value? && forall i | 0 <= i < 32 :: Word(o.v)[i] == (Word(l)[i] && Word(r)[i])
    case Or => o.Value? && forall i | 0 <= i < 32 :: Word(o.v)[i] == (Word(l)[i] || Word(r)[i])
    case Xor => o.Value? && forall i | 0 <= i < 32 :: Word(o.v)[i] == (Word(l)[i] != Word(r)[i])
  }

  lemma ApplyComputes(op: BinaryOp, l: int32, r: int32)
    ensures Computes(op, l, r, ApplyBinary(op, l, r))
  {
    match op
    case Add =>
    case Subtract =>
    case Multiply =>
    case Divide => DivideLaws(l, r);
    case And => BitwiseLaws(l, r);
    case Or => BitwiseLaws(l, r);
    case Xor => BitwiseLaws(l, r);
  }
}
