/** Fixed-width machine words and the small datatypes the modules share. */
module Words {

  type byte = x: int | 0 <= x < 256
  type u32 = x: int | 0 <= x < 0x1_0000_0000

  const TWO32: int := 0x1_0000_0000

  datatype Option<+T> = None | Some(value: T)

  /** 32-bit unsigned addition, wrapping. */
  function Add32(a: u32, b: u32): u32 {
    if a + b < TWO32 then a + b else a + b - TWO32
  }

  /** 32-bit unsigned subtraction, wrapping. */
  function Sub32(a: u32, b: u32): u32 {
    if b <= a then a - b else a - b + TWO32
  }

  function Flag(b: bool, value: nat): nat {
    if b then value else 0
  }

  lemma SmallModulo(x: nat, m: nat)
    requires x < m
    ensures x % m == x
  {
  }

  lemma Distribute(x: int, y: int, q: int)
    ensures (x + y) * q == x * q + y * q
  {
  }

  function Min(a: int, b: int): int {
    if a <= b then a else b
  }
}
