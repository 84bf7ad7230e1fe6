/**
 * The shared vocabulary of sm3.h: the byte and 32-bit word types, the
 * block, digest and hex-string sizes, and the ROTLEFT rotation.
 */
module Sm3Header {

  /** `unsigned char` */
  type byte = bv8
  /** `uint32_t` */
  type word = bv32

  /** SM3_BLOCK_SIZE: bytes per message block. */
  const BLOCK_SIZE: nat := 64
  /** SM3_DIGEST_SIZE: bytes in a digest. */
  const DIGEST_SIZE: nat := 32
  /** SM3_HASH_SIZE: the hex string buffer, 64 characters and a terminator. */
  const HASH_SIZE: nat := 65

  /**
   * The longest input, in bytes, that the model accepts. Below it the bit
   * count 8 * length fits the 64-bit `bitlen` counter and the `size_t`
   * product `len * 8`, so neither wraps.
   */
  const MAX_INPUT: nat := 0x2000_0000_0000_0000

  /** A whole number of blocks followed by one more block is again a whole number of blocks. */
  lemma NextBlockAligned(n: int)
    requires n % BLOCK_SIZE == 0
    ensures (n + BLOCK_SIZE) % BLOCK_SIZE == 0
  {
  }

  /**
   * ROTLEFT(x, n) = (x << n) | (x >> (32 - n)). The amount is a 5-bit
   * value, so every amount is taken modulo 32 before it reaches the
   * shifts; for n = 0 the right shift is by the full width and yields 0,
   * which makes the rotation total where C leaves it undefined.
   */
  function Rotl(x: word, n: bv5): word
  {
    (x << n) | (x >> (32 - n as bv6))
  }

  /** The `^` of two words, as one named operation on whole words. */
  function Xor(x: word, y: word): word
  {
    x ^ y
  }

  /** Bit `i` of `x`, as 0 or 1. */
  function Bit(x: word, i: bv5): word
  {
    (x >> i) & 1
  }

  /** Bit i of x is bit i - 1 of x shifted right once. */
  lemma BitStep(x: word, i: bv5)
    requires i > 0
    ensures Bit(x, i) == Bit(x >> 1, i - 1)
  {
    assert (x >> i) & 1 == ((x >> 1) >> (i - 1)) & 1;
  }

  /** Away from the wrap point, bit i of the rotated word is bit i - n of the original. */
  lemma RotlBitHigh(x: word, n: bv5, i: bv5)
    requires n <= i
    ensures Bit(Rotl(x, n), i) == Bit(x, i - n)
  {
    assert (((x << n) | (x >> (32 - n as bv6))) >> i) & 1 == (x >> (i - n)) & 1;
  }

  /** Below the amount, bit i of the rotated word comes from the top: bit 32 + i - n. */
  lemma RotlBitLow(x: word, n: bv5, i: bv5)
    requires i < n
    ensures Bit(Rotl(x, n), i) == Bit(x, i - n)
  {
    assert (((x << n) | (x >> (32 - n as bv6))) >> i) & 1 == (x >> (i - n)) & 1;
  }

  /**
   * Bits shifted out at the top reappear at the bottom: bit i of the
   * rotated word is bit (i - n) mod 32 of the original (bv5 arithmetic
   * wraps modulo 32), so no bit is lost.
   */
  lemma RotlBit(x: word, n: bv5, i: bv5)
    ensures Bit(Rotl(x, n), i) == Bit(x, i - n)
  {
    if n <= i {
      RotlBitHigh(x, n, i);
    } else {
      RotlBitLow(x, n, i);
    }
  }

  /** Bit i of a three-way exclusive-or is the exclusive-or of the three bits i. */
  lemma BitXor3(a: word, b: word, c: word, i: bv5)
    ensures Bit(a ^ b ^ c, i) == Bit(a, i) ^ Bit(b, i) ^ Bit(c, i)
  {
    assert ((a ^ b ^ c) >> i) & 1 == ((a >> i) & 1) ^ ((b >> i) & 1) ^ ((c >> i) & 1);
  }

  /**
   * The shape of p0 and p1, a word XORed with two of its rotations: bit i
   * is the XOR of bits i, i - m and i - n of the word, indices mod 32.
   */
  lemma XorRotationsBit(x: word, m: bv5, n: bv5, i: bv5)
    ensures Bit(x ^ Rotl(x, m) ^ Rotl(x, n), i) == Bit(x, i) ^ Bit(x, i - m) ^ Bit(x, i - n)
  {
    BitXor3(x, Rotl(x, m), Rotl(x, n), i);
    RotlBit(x, m, i);
    RotlBit(x, n, i);
  }

  /** A rotation by 0 leaves the word unchanged (the C macro would shift by 32 here). */
  lemma RotlZero(x: word)
    ensures Rotl(x, 0) == x
  {
  }
}
