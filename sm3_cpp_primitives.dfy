/**
 * The constants and word functions of sm3.cpp, which keeps its own copies
 * of those in sm3.c. They are proved equal to sm3.c's on every round index
 * 0..63.
 */
module Sm3CppPrimitives {
  import opened Sm3Header
  import Sm3Primitives

  /** T: the 64 round constants, here written as four literal groups of sixteen rounds. */
  const T: seq<word> :=
  [
    0x79CC4519, 0x79CC4519, 0x79CC4519, 0x79CC4519,
    0x79CC4519, 0x79CC4519, 0x79CC4519, 0x79CC4519,
    0x79CC4519, 0x79CC4519, 0x79CC4519, 0x79CC4519,
    0x79CC4519, 0x79CC4519, 0x79CC4519, 0x79CC4519
  ] + [
    0x7A879D8A, 0x7A879D8A, 0x7A879D8A, 0x7A879D8A,
    0x7A879D8A, 0x7A879D8A, 0x7A879D8A, 0x7A879D8A,
    0x7A879D8A, 0x7A879D8A, 0x7A879D8A, 0x7A879D8A,
    0x7A879D8A, 0x7A879D8A, 0x7A879D8A, 0x7A879D8A
  ] + [
    0x7A879D8A, 0x7A879D8A, 0x7A879D8A, 0x7A879D8A,
    0x7A879D8A, 0x7A879D8A, 0x7A879D8A, 0x7A879D8A,
    0x7A879D8A, 0x7A879D8A, 0x7A879D8A, 0x7A879D8A,
    0x7A879D8A, 0x7A879D8A, 0x7A879D8A, 0x7A879D8A
  ] + [
    0x7A879D8A, 0x7A879D8A, 0x7A879D8A, 0x7A879D8A,
    0x7A879D8A, 0x7A879D8A, 0x7A879D8A, 0x7A879D8A,
    0x7A879D8A, 0x7A879D8A, 0x7A879D8A, 0x7A879D8A,
    0x7A879D8A, 0x7A879D8A, 0x7A879D8A, 0x7A879D8A
  ]

  /** IV: the initial value. */
  const IV: seq<word> := [
    0x7380166F, 0x4914B2B9, 0x172442D7, 0xDA8A0600,
    0xA96F30BC, 0x163138AA, 0xE38DEE4D, 0xB0FB0E4E
  ]

  /** The two files carry the same 64 round constants and the same initial value. */
  lemma TablesAgree()
    ensures |T| == |Sm3Primitives.T| == 64 && T == Sm3Primitives.T
    ensures |IV| == 8 && IV == Sm3Primitives.IV
  {
    Sm3Primitives.TableShape();
    RowsAgree();
  }

  /** sm3.cpp's table, row by row: T_LOW for rounds 0..15, T_HIGH for rounds 16..63. */
  lemma RowsAgree()
    ensures |T| == 64
    ensures forall j :: 0 <= j < 16 ==> T[j] == Sm3Primitives.T_LOW
    ensures forall j :: 16 <= j < 64 ==> T[j] == Sm3Primitives.T_HIGH
  {
  }

  /** FF: x ^ y ^ z when j < 16, majority otherwise. Unlike sm3.c, a negative j also takes the first branch. */
  function FF(x: word, y: word, z: word, j: int): word
  {
    if j < 16 then x ^ y ^ z else (x & y) | (x & z) | (y & z)
  }

  /** GG: x ^ y ^ z when j < 16, choice otherwise. */
  function GG(x: word, y: word, z: word, j: int): word
  {
    if j < 16 then x ^ y ^ z else (x & y) | (!x & z)
  }

  /**
   * On every round index the two files use, their boolean functions
   * agree, although sm3.c tests 0 <= j <= 15 and sm3.cpp only j < 16.
   * (sm3.cpp's P0, P1 and ROL are written exactly as sm3.c's P0, P1 and
   * ROTLEFT, and the model shares those definitions.)
   */
  lemma FunctionsAgree(x: word, y: word, z: word, j: int)
    requires 0 <= j < 64
    ensures FF(x, y, z, j) == Sm3Primitives.FF(x, y, z, j)
    ensures GG(x, y, z, j) == Sm3Primitives.GG(x, y, z, j)
  {
    if j < 16 {
      assert FF(x, y, z, j) == x ^ y ^ z == Sm3Primitives.FF(x, y, z, j);
      assert GG(x, y, z, j) == x ^ y ^ z == Sm3Primitives.GG(x, y, z, j);
    } else {
      assert FF(x, y, z, j) == (x & y) | (x & z) | (y & z) == Sm3Primitives.FF(x, y, z, j);
      assert GG(x, y, z, j) == Sm3Primitives.GG(x, y, z, j);
    }
  }

  /**
   * Below 0 the two guards differ: sm3.cpp's `j < 16` still holds, so its
   * FF and GG take the XOR, while sm3.c's `0 <= j <= 15` fails, so its ff
   * and gg take the majority and the choice.
   */
  lemma NegativeRoundsDiffer(x: word, y: word, z: word, j: int)
    requires j < 0
    ensures FF(x, y, z, j) == x ^ y ^ z && GG(x, y, z, j) == x ^ y ^ z
    ensures Sm3Primitives.FF(x, y, z, j) == (x & y) | (x & z) | (y & z)
    ensures Sm3Primitives.GG(x, y, z, j) == (x & y) | (!x & z)
  {
  }

  /** One negative index where the two FF really give different words: j = -1 on (1, 1, 0). */
  lemma NegativeRoundDiffers()
    ensures FF(1, 1, 0, -1) == 0 && Sm3Primitives.FF(1, 1, 0, -1) == 1
  {
  }

  /** From 64 on both guards fail, so both files take the majority and the choice, and agree again. */
  lemma HighRoundsAgree(x: word, y: word, z: word, j: int)
    requires 64 <= j
    ensures FF(x, y, z, j) == Sm3Primitives.FF(x, y, z, j)
    ensures GG(x, y, z, j) == Sm3Primitives.GG(x, y, z, j)
  {
  }
}
