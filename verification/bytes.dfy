/** Byte-level vocabulary shared by every part of the Peach model: C's
    `byte` and `uint32_t` as bounded integers, the wrap-around arithmetic the
    C code relies on written out explicitly, bitwise XOR bit by bit on
    naturals (`XorBits`), and the little-endian word reads (`*(uint32_t*)&p[n]`). */
module Bytes {

  /** An unsigned 8-bit value (C `byte`). */
  type byte = x: int | 0 <= x < 256

  /** An unsigned 32-bit value (C `uint32_t` / `word32`). */
  type u32 = x: int | 0 <= x < 0x1_0000_0000

  /** Length of a SHA-256 digest and of one tile row (`HASHLEN`). */
  const HASHLEN: nat := 32

  /** A 32-byte SHA-256 digest. */
  type Digest = s: seq<byte> | |s| == 32 witness seq(32, _ => 0)

  /** A 4-byte float slot of a tile row. */
  type Slot = s: seq<byte> | |s| == 4 witness [0, 0, 0, 0]

  function Pow2(n: nat): (r: nat)
    ensures r > 0
  {
    if n == 0 then 1 else 2 * Pow2(n - 1)
  }

  lemma {:induction false} Pow2Add(a: nat, b: nat)
    ensures Pow2(a + b) == Pow2(a) * Pow2(b)
  {
    if a > 0 {
      Pow2Add(a - 1, b);
      assert Pow2(a + b) == 2 * Pow2(a - 1 + b);
    }
  }

  lemma {:induction false} Pow2Monotone(a: nat, b: nat)
    requires a <= b
    ensures Pow2(a) <= Pow2(b)
  {
    if a < b {
      Pow2Monotone(a, b - 1);
    }
  }

  /** Bitwise XOR of the low `n` bits of `a` and `b`, least significant bit
      first. */
  function XorBits(a: nat, b: nat, n: nat): (r: nat)
    ensures r < Pow2(n)
  {
    if n == 0 then 0
    else (if a % 2 == b % 2 then 0 else 1) + 2 * XorBits(a / 2, b / 2, n - 1)
  }

  /** C `byte ^ byte`. */
  function Xor8(a: byte, b: byte): byte
  {
    Pow2Byte();
    XorBits(a, b, 8)
  }

  /** C `uint32_t ^ uint32_t`. */
  function Xor32(a: u32, b: u32): u32
  {
    Pow2Word();
    XorBits(a, b, 32)
  }

  /** C `uint32_t + uint32_t`, wrapping modulo 2^32. */
  function Add32(a: u32, b: u32): u32
  {
    (a + b) % 0x1_0000_0000
  }

  /** C `uint32_t * uint32_t`, wrapping modulo 2^32. */
  function Mul32(a: u32, b: u32): u32
  {
    (a * b) % 0x1_0000_0000
  }

  /** C `byte += int`: the sum converted back to `byte`, i.e. taken modulo 256
      (Dafny's `%` is Euclidean, so a negative sum wraps as the C conversion does). */
  function AddByte(a: byte, delta: int): byte
  {
    (a + delta) % 256
  }

  /** Little-endian read of 4 bytes as a `uint32_t` (`*(uint32_t*)&p[0]`). */
  function LE32(s: seq<byte>): (r: u32)
    requires |s| == 4
  {
    s[0] as int + 0x100 * (s[1] as int) + 0x1_0000 * (s[2] as int) + 0x100_0000 * (s[3] as int)
  }

  /** A little-endian word modulo 32 is its low byte modulo 32. */
  lemma LE32Low(s: seq<byte>)
    requires |s| == 4
    ensures LE32(s) % 32 == s[0] % 32
  {
    var hi: int := 8 * (s[1] as int) + 0x800 * (s[2] as int) + 0x8_0000 * (s[3] as int);
    assert LE32(s) == s[0] as int + 32 * hi;
  }

  /** The 4 little-endian bytes of a `uint32_t` in memory (`(byte*)&index`). */
  function U32Bytes(x: u32): (r: Slot)
    ensures LE32(r) == x
  {
    var r := [x % 0x100, (x / 0x100) % 0x100, (x / 0x1_0000) % 0x100, x / 0x100_0000];
    assert x == x % 0x100 + 0x100 * (x / 0x100);
    assert x / 0x100 == (x / 0x100) % 0x100 + 0x100 * (x / 0x1_0000);
    assert x / 0x1_0000 == (x / 0x1_0000) % 0x100 + 0x100 * (x / 0x100_0000);
    r
  }

  lemma Pow2Byte()
    ensures Pow2(8) == 0x100
  {
  }

  lemma Pow2Word()
    ensures Pow2(32) == 0x1_0000_0000
  {
    Pow2Byte();
    Pow2Add(8, 8);
    assert Pow2(16) == 0x1_0000;
    Pow2Add(16, 16);
  }

  lemma {:induction false} XorBitsZero(a: nat, n: nat)
    requires a < Pow2(n)
    ensures XorBits(a, 0, n) == a
  {
    if n > 0 {
      XorBitsZero(a / 2, n - 1);
    }
  }

  lemma {:induction false} XorBitsSelf(a: nat, n: nat)
    ensures XorBits(a, a, n) == 0
  {
    if n > 0 {
      XorBitsSelf(a / 2, n - 1);
    }
  }

  lemma {:induction false} XorBitsTwice(a: nat, c: nat, n: nat)
    requires a < Pow2(n)
    ensures XorBits(XorBits(a, c, n), c, n) == a
  {
    if n > 0 {
      var r := XorBits(a, c, n);
      assert r / 2 == XorBits(a / 2, c / 2, n - 1);
      XorBitsTwice(a / 2, c / 2, n - 1);
    }
  }

  lemma {:induction false} XorBitsChanges(a: nat, c: nat, n: nat)
    requires 0 < c < Pow2(n)
    ensures XorBits(a, c, n) != a
  {
    assert n > 0;
    if c % 2 == 0 {
      var r := XorBits(a, c, n);
      assert r / 2 == XorBits(a / 2, c / 2, n - 1);
      XorBitsChanges(a / 2, c / 2, n - 1);
    }
  }

  lemma Xor8Zero(a: byte)
    ensures Xor8(a, 0) == a
  {
    Pow2Byte();
    XorBitsZero(a, 8);
  }

  lemma Xor8Self(a: byte)
    ensures Xor8(a, a) == 0
  {
    XorBitsSelf(a, 8);
  }

  /** XOR with a fixed mask undoes itself. */
  lemma Xor8Twice(a: byte, c: byte)
    ensures Xor8(Xor8(a, c), c) == a
  {
    Pow2Byte();
    XorBitsTwice(a, c, 8);
  }

  /** XOR with a non-zero mask always changes the byte. */
  lemma Xor8Changes(a: byte, c: byte)
    requires c != 0
    ensures Xor8(a, c) != a
  {
    Pow2Byte();
    XorBitsChanges(a, c, 8);
  }

  /** Flipping the top bit of a byte leaves its lowest bit alone. */
  lemma Xor8SignBitParity(a: byte)
    ensures Xor8(a, 0x80) % 2 == a % 2
  {
  }

  /** Multiplying by the same factor keeps the order. */
  lemma MulMonotone(a: nat, b: nat, p: nat)
    requires a <= b
    ensures a * p <= b * p
  {
  }
}
