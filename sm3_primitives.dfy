/**
 * The fixed constants and word functions of sm3.c (GM/T 0004-2012,
 * sections 4.1 to 4.4): the initial value, the round constants, the
 * boolean functions FF_j and GG_j and the permutations P0 and P1.
 */
module Sm3Primitives {
  import opened Sm3Header

  /** SM3_IV: the initial chaining value. */
  const IV: seq<word> := [
    0x7380166f, 0x4914b2b9, 0x172442d7, 0xda8a0600,
    0xa96f30bc, 0x163138aa, 0xe38dee4d, 0xb0fb0e4e
  ]

  /**
   * SM3_T: one round constant per round, written as four literal rows of
   * sixteen entries (rounds 0..15, 16..31, 32..47 and 48..63).
   */
  const T: seq<word> :=
  [
    0x79cc4519, 0x79cc4519, 0x79cc4519, 0x79cc4519,
    0x79cc4519, 0x79cc4519, 0x79cc4519, 0x79cc4519,
    0x79cc4519, 0x79cc4519, 0x79cc4519, 0x79cc4519,
    0x79cc4519, 0x79cc4519, 0x79cc4519, 0x79cc4519
  ] + [
    0x7a879d8a, 0x7a879d8a, 0x7a879d8a, 0x7a879d8a,
    0x7a879d8a, 0x7a879d8a, 0x7a879d8a, 0x7a879d8a,
    0x7a879d8a, 0x7a879d8a, 0x7a879d8a, 0x7a879d8a,
    0x7a879d8a, 0x7a879d8a, 0x7a879d8a, 0x7a879d8a
  ] + [
    0x7a879d8a, 0x7a879d8a, 0x7a879d8a, 0x7a879d8a,
    0x7a879d8a, 0x7a879d8a, 0x7a879d8a, 0x7a879d8a,
    0x7a879d8a, 0x7a879d8a, 0x7a879d8a, 0x7a879d8a,
    0x7a879d8a, 0x7a879d8a, 0x7a879d8a, 0x7a879d8a
  ] + [
    0x7a879d8a, 0x7a879d8a, 0x7a879d8a, 0x7a879d8a,
    0x7a879d8a, 0x7a879d8a, 0x7a879d8a, 0x7a879d8a,
    0x7a879d8a, 0x7a879d8a, 0x7a879d8a, 0x7a879d8a,
    0x7a879d8a, 0x7a879d8a, 0x7a879d8a, 0x7a879d8a
  ]

  /** The two constants of section 4.2 of GM/T 0004-2012. */
  const T_LOW: word := 0x79cc4519
  const T_HIGH: word := 0x7a879d8a

  /** The table holds 64 constants: T_LOW for rounds 0..15 and T_HIGH for rounds 16..63. */
  lemma TableShape()
    ensures |T| == 64
    ensures forall j :: 0 <= j < 16 ==> T[j] == T_LOW
    ensures forall j :: 16 <= j < 64 ==> T[j] == T_HIGH
  {
  }

  /**
   * The rotation applied to T_j in round j: `ROTLEFT(SM3_T[j], j)` is
   * called with j up to 63, and the rotation is by j mod 32.
   */
  function RoundAmount(j: nat): bv5
  {
    (j % 32) as bv5
  }

  /** Rounds j and j + 32 rotate their constant alike, and rounds 0 and 32 do not rotate it. */
  lemma RoundAmountPeriodic(j: nat)
    ensures RoundAmount(j + 32) == RoundAmount(j)
    ensures RoundAmount(0) == 0 && RoundAmount(32) == 0
  {
    assert (j + 32) % 32 == j % 32;
  }

  /** ff: exclusive-or in rounds 0..15, bitwise majority otherwise. */
  function FF(x: word, y: word, z: word, j: int): word
  {
    if 0 <= j <= 15 then x ^ y ^ z else (x & y) | (x & z) | (y & z)
  }

  /** gg: exclusive-or in rounds 0..15, bitwise choice otherwise. */
  function GG(x: word, y: word, z: word, j: int): word
  {
    if 0 <= j <= 15 then x ^ y ^ z else (x & y) | (!x & z)
  }

  /** p0: the permutation applied to TT2 in the compression function. */
  function P0(x: word): word
  {
    x ^ Rotl(x, 9) ^ Rotl(x, 17)
  }

  /** p1: the permutation used by message expansion. */
  function P1(x: word): word
  {
    x ^ Rotl(x, 15) ^ Rotl(x, 23)
  }

  /** p0 unfolded under Bit. */
  lemma P0Unfold(x: word, i: bv5)
    ensures Bit(P0(x), i) == Bit(x ^ Rotl(x, 9) ^ Rotl(x, 17), i)
  {
  }

  /** Bit i of p0(x) is the exclusive-or of bits i, i - 9 and i - 17 of x, the indices taken mod 32. */
  lemma P0Bit(x: word, i: bv5)
    ensures Bit(P0(x), i) == Bit(x, i) ^ Bit(x, i - 9) ^ Bit(x, i - 17)
  {
    P0Unfold(x, i);
    XorRotationsBit(x, 9, 17, i);
  }

  /** p1 unfolded under Bit. */
  lemma P1Unfold(x: word, i: bv5)
    ensures Bit(P1(x), i) == Bit(x ^ Rotl(x, 15) ^ Rotl(x, 23), i)
  {
  }

  /** Bit i of p1(x) is the exclusive-or of bits i, i - 15 and i - 23 of x, the indices taken mod 32. */
  lemma P1Bit(x: word, i: bv5)
    ensures Bit(P1(x), i) == Bit(x, i) ^ Bit(x, i - 15) ^ Bit(x, i - 23)
  {
    P1Unfold(x, i);
    XorRotationsBit(x, 15, 23, i);
  }

  /** Majority, written the other common way, as the exclusive-or of the pairwise conjunctions. */
  function Majority(x: word, y: word, z: word): word
  {
    (x & y) ^ (x & z) ^ (y & z)
  }

  /** Choice, written the other common way: where x has a 1 take y, elsewhere z. */
  function Choice(x: word, y: word, z: word): word
  {
    z ^ (x & (y ^ z))
  }

  /** In rounds 0..15 both boolean functions are the exclusive-or of their three inputs. */
  lemma EarlyRoundsXor(x: word, y: word, z: word, j: int)
    requires 0 <= j < 16
    ensures FF(x, y, z, j) == x ^ y ^ z && GG(x, y, z, j) == x ^ y ^ z
  {
  }

  /**
   * In rounds 16..63 FF is the bitwise majority and agrees with its
   * exclusive-or formulation.
   */
  lemma LateRoundsMajority(x: word, y: word, z: word, j: int)
    requires 16 <= j < 64
    ensures FF(x, y, z, j) == Majority(x, y, z)
  {
    assert (x & y) | (x & z) | (y & z) == (x & y) ^ (x & z) ^ (y & z);
  }

  /** In rounds 16..63 GG agrees with the exclusive-or form of the choice. */
  lemma LateRoundsChoice(x: word, y: word, z: word, j: int)
    requires 16 <= j < 64
    ensures GG(x, y, z, j) == Choice(x, y, z)
  {
    assert (x & y) | (!x & z) == z ^ (x & (y ^ z));
  }

  /** Bit i of r is bit i of y where bit i of x is 1, and bit i of z where it is 0. */
  predicate SelectsBit(r: word, x: word, y: word, z: word, i: bv5)
  {
    Bit(r, i) == if Bit(x, i) == 1 then Bit(y, i) else Bit(z, i)
  }

  /** Selecting bit i - 1 after a shift right by one is selecting bit i before it. */
  lemma SelectsBitStep(r: word, x: word, y: word, z: word, i: bv5)
    requires i > 0 && SelectsBit(r >> 1, x >> 1, y >> 1, z >> 1, i - 1)
    ensures SelectsBit(r, x, y, z, i)
  {
    BitStep(r, i);
    BitStep(x, i);
    BitStep(y, i);
    BitStep(z, i);
  }

  /** The choice commutes with a shift right by one. */
  lemma ChoiceHalves(x: word, y: word, z: word)
    ensures Choice(x, y, z) >> 1 == Choice(x >> 1, y >> 1, z >> 1)
  {
    assert (z ^ (x & (y ^ z))) >> 1 == (z >> 1) ^ ((x >> 1) & ((y >> 1) ^ (z >> 1)));
  }

  /** The choice selects the lowest bit. */
  lemma ChoiceLowBit(x: word, y: word, z: word)
    ensures SelectsBit(Choice(x, y, z), x, y, z, 0)
  {
    assert (z ^ (x & (y ^ z))) & 1 == if x & 1 == 1 then y & 1 else z & 1;
  }

  /** If the choice selects bit i - 1 of the shifted words, it selects bit i of the words. */
  lemma ChoiceBitStep(x: word, y: word, z: word, i: bv5)
    requires i > 0 && SelectsBit(Choice(x >> 1, y >> 1, z >> 1), x >> 1, y >> 1, z >> 1, i - 1)
    ensures SelectsBit(Choice(x, y, z), x, y, z, i)
  {
    ChoiceHalves(x, y, z);
    SelectsBitStep(Choice(x, y, z), x, y, z, i);
  }

  /**
   * Bit by bit, the choice takes y's bit where x has a 1 and z's bit where
   * x has a 0: by induction on i, shifting all three words right by one.
   */
  lemma {:induction false} ChoiceBit(x: word, y: word, z: word, i: bv5)
    ensures SelectsBit(Choice(x, y, z), x, y, z, i)
    decreases i
  {
    if i == 0 {
      ChoiceLowBit(x, y, z);
    } else {
      ChoiceBit(x >> 1, y >> 1, z >> 1, i - 1);
      ChoiceBitStep(x, y, z, i);
    }
  }

  /** Majority does not depend on the order of its arguments. */
  lemma MajoritySymmetric(x: word, y: word, z: word)
    ensures Majority(x, y, z) == Majority(y, x, z) == Majority(x, z, y)
  {
  }

  /** Choice selects y where x is all ones and z where x is all zeros. */
  lemma ChoiceSelects(y: word, z: word)
    ensures Choice(0xffff_ffff, y, z) == y && Choice(0, y, z) == z
  {
  }
}
