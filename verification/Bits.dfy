/** Bit strings, most significant bit first. */
module Bits {

  function Bit(b: bool): int {
    if b then 1 else 0
  }

  /** The number a bit string denotes. */
  function Value(bits: seq<bool>): nat {
    if bits == [] then 0 else 2 * Value(bits[..|bits| - 1]) + Bit(bits[|bits| - 1])
  }

  function Pow2(n: nat): (p: nat)
    ensures p >= 1
  {
    if n == 0 then 1 else 2 * Pow2(n - 1)
  }

  lemma Double(x: int, p: int)
    ensures x * (2 * p) == 2 * (x * p)
  {
  }

  lemma {:induction false} ValueConcat(a: seq<bool>, b: seq<bool>)
    ensures Value(a + b) == Value(a) * Pow2(|b|) + Value(b)
  {
    if b == [] {
      assert a + b == a;
    } else {
      var k := |b| - 1;
      assert (a + b)[..|a + b| - 1] == a + b[..k];
      ValueConcat(a, b[..k]);
      Double(Value(a), Pow2(k));
    }
  }

  /** The `n` low bits of `v`, most significant first. */
  function Low(v: int, n: nat): (bits: seq<bool>)
    ensures |bits| == n
    decreases n
  {
    if n == 0 then [] else Low(v / 2, n - 1) + [v % 2 == 1]
  }

  lemma ValueSnoc(bits: seq<bool>, b: bool)
    ensures Value(bits + [b]) == 2 * Value(bits) + Bit(b)
  {
    assert (bits + [b])[..|bits|] == bits;
  }

  lemma {:induction false} ValueLow(v: nat, n: nat)
    requires v < Pow2(n)
    ensures Value(Low(v, n)) == v
  {
    if n > 0 {
      var front, b := Low(v / 2, n - 1), v % 2 == 1;
      ValueLow(v / 2, n - 1);
      ValueSnoc(front, b);
      assert Low(v, n) == front + [b];
    } else {
      assert v == 0;
    }
  }

  lemma {:induction false} LowValue(bits: seq<bool>)
    ensures Value(bits) < Pow2(|bits|) && Low(Value(bits), |bits|) == bits
  {
    if bits != [] {
      LowValue(bits[..|bits| - 1]);
    }
  }
}
