/** Fixed-width unsigned words and the bit operations on them. */
module Words {
  datatype Option<+T> = None | Some(value: T)

  type u8 = x: nat | x < 0x100
  type u16 = x: nat | x < 0x1_0000
  type u32 = x: nat | x < 0x1_0000_0000

  const TWO32: nat := 0x1_0000_0000

  function Min(a: nat, b: nat): nat { if a < b then a else b }

  /** `s` with `part` in the place of what is at `at`. */
  function Splice(s: seq<u8>, at: nat, part: seq<u8>): seq<u8>
    requires at + |part| <= |s|
  {
    s[..at] + part + s[at + |part|..]
  }

  function Pow2(n: nat): (r: nat)
    ensures r >= 1
  {
    if n == 0 then 1 else 2 * Pow2(n - 1)
  }

  lemma Pow2Of32()
    ensures Pow2(32) == TWO32
  {
    assert Pow2(8) == 0x100;
    assert Pow2(16) == 0x1_0000;
    assert Pow2(24) == 0x100_0000;
  }

  /** Bitwise AND, one bit at a time. */
  function And(a: nat, b: nat): (r: nat)
    ensures r <= a && r <= b
  {
    if a == 0 || b == 0 then 0
    else (if a % 2 == 1 && b % 2 == 1 then 1 else 0) + 2 * And(a / 2, b / 2)
  }

  /** A bitwise OR of two n-bit words has n bits: a|b == a + b - (a&b). */
  lemma {:induction false} OrFits(a: nat, b: nat, n: nat)
    requires a < Pow2(n) && b < Pow2(n)
    ensures a + b - And(a, b) < Pow2(n)
  {
    if n > 0 {
      OrFits(a / 2, b / 2, n - 1);
    }
  }

  function Or32(a: u32, b: u32): u32 {
    Pow2Of32();
    OrFits(a, b, 32);
    a + b - And(a, b)
  }

  function Xor32(a: u32, b: u32): u32 {
    Or32(a, b) - And(a, b)
  }
}
