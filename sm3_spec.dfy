/**
 * The SM3 hash as a function of the whole message (section 5 of
 * GM/T 0004-2012): message expansion, the 64-round compression function
 * CF with its feed-forward, the iteration of CF over the 64-byte blocks
 * of the padded message from the IV, and the big-endian digest. The
 * imperative code in sm3.c and sm3.cpp is proved against these functions.
 */
module Sm3Spec {
  import opened Sm3Header
  import opened Sm3Primitives
  import opened Sm3Encoding
  import opened Sm3Padding

  /** One step of the expansion recurrence, from W[j-16], W[j-9], W[j-3], W[j-13] and W[j-6]. */
  function ExpandStep(w16: word, w9: word, w3: word, w13: word, w6: word): word
  {
    P1(w16 ^ w9 ^ Rotl(w3, 15)) ^ Rotl(w13, 7) ^ w6
  }

  /** W[0..15]: the block read four bytes at a time, big-endian. */
  function BlockWords(block: seq<byte>): (w: seq<word>)
    requires |block| == BLOCK_SIZE
    ensures |w| == 16
  {
    seq(16, j requires 0 <= j < 16 => BigEndianWord(block[4 * j], block[4 * j + 1], block[4 * j + 2], block[4 * j + 3]))
  }

  /** The word that follows the expansion words computed so far. */
  function NextWord(w: seq<word>): word
    requires 16 <= |w|
  {
    var j := |w|;
    ExpandStep(w[j - 16], w[j - 9], w[j - 3], w[j - 13], w[j - 6])
  }

  /** Extends expansion words up to W[67], one NextWord at a time. */
  function ExpandFrom(w: seq<word>): (r: seq<word>)
    requires 16 <= |w| <= 68
    ensures |r| == 68
    decreases 68 - |w|
  {
    if |w| == 68 then w else ExpandFrom(w + [NextWord(w)])
  }

  /** W[0..67] of a block. */
  function ExpandW(block: seq<byte>): (w: seq<word>)
    requires |block| == BLOCK_SIZE
    ensures |w| == 68
  {
    ExpandFrom(BlockWords(block))
  }

  /** Extending keeps the words given and puts after them, at every index, the next word of the prefix before it. */
  lemma {:induction false} ExpandFromExtends(w: seq<word>)
    requires 16 <= |w| <= 68
    ensures ExpandFrom(w)[..|w|] == w
    ensures forall j :: |w| <= j < 68 ==> ExpandFrom(w)[j] == NextWord(ExpandFrom(w)[..j])
    decreases 68 - |w|
  {
    if |w| < 68 {
      var w' := w + [NextWord(w)];
      ExpandFromExtends(w');
      var r := ExpandFrom(w);
      assert r == ExpandFrom(w');
      assert r[..|w'|] == w';
      assert r[..|w|] == w'[..|w|] == w;
      assert r[|w|] == w'[|w|] == NextWord(w);
    }
  }

  /** The expansion as the standard writes it, first half: W[j] for j < 16 is the block's j-th big-endian word. */
  lemma ExpandWLoad(block: seq<byte>, j: nat)
    requires |block| == BLOCK_SIZE && j < 16
    ensures ExpandW(block)[j] == BigEndianWord(block[4 * j], block[4 * j + 1], block[4 * j + 2], block[4 * j + 3])
  {
    var b := BlockWords(block);
    ExpandFromExtends(b);
    var w := ExpandFrom(b);
    assert w[j] == w[..16][j] == b[j];
  }

  /**
   * Second half: for 16 <= j < 68,
   * W[j] = P1(W[j-16] ^ W[j-9] ^ (W[j-3] <<< 15)) ^ (W[j-13] <<< 7) ^ W[j-6].
   */
  lemma ExpandWStep(block: seq<byte>, j: nat)
    requires |block| == BLOCK_SIZE && 16 <= j < 68
    ensures ExpandW(block)[j] == ExpandStep(ExpandW(block)[j - 16], ExpandW(block)[j - 9], ExpandW(block)[j - 3], ExpandW(block)[j - 13], ExpandW(block)[j - 6])
  {
    var b := BlockWords(block);
    ExpandFromExtends(b);
    var w := ExpandFrom(b);
    var p := w[..j];
    assert w[j] == NextWord(p);
    assert p[j - 16] == w[j - 16] && p[j - 9] == w[j - 9] && p[j - 3] == w[j - 3];
    assert p[j - 13] == w[j - 13] && p[j - 6] == w[j - 6];
  }

  /** W1[j] = W[j] ^ W[j + 4] for j in 0..63. */
  function ExpandW1(w: seq<word>): (w1: seq<word>)
    requires |w| == 68
    ensures |w1| == 64
  {
    seq(64, j requires 0 <= j < 64 => Xor(w[j], w[j + 4]))
  }

  /** The expansion starts with the block itself, read four bytes at a time, big-endian. */
  lemma ExpandWPrefix(block: seq<byte>, j: nat)
    requires |block| == BLOCK_SIZE && j < 16
    ensures WordByte(ExpandW(block)[j], 0) == block[4 * j]
    ensures WordByte(ExpandW(block)[j], 1) == block[4 * j + 1]
    ensures WordByte(ExpandW(block)[j], 2) == block[4 * j + 2]
    ensures WordByte(ExpandW(block)[j], 3) == block[4 * j + 3]
  {
    var b0, b1, b2, b3 := block[4 * j], block[4 * j + 1], block[4 * j + 2], block[4 * j + 3];
    ExpandWLoad(block, j);
    BigEndianWordByte0(b0, b1, b2, b3);
    BigEndianWordByte1(b0, b1, b2, b3);
    BigEndianWordByte2(b0, b1, b2, b3);
    BigEndianWordByte3(b0, b1, b2, b3);
  }

  /** The eight working registers A..H of the compression function. */
  datatype Registers = Registers(a: word, b: word, c: word, d: word, e: word, f: word, g: word, h: word)
  {
    /** The registers in order A..H. */
    function Words(): (s: seq<word>)
      ensures |s| == 8
    {
      [a, b, c, d, e, f, g, h]
    }
  }

  /** Registers loaded from a chaining value, A from word 0 through H from word 7. */
  function Load(v: seq<word>): (r: Registers)
    requires |v| == 8
    ensures r.Words() == v
  {
    Registers(v[0], v[1], v[2], v[3], v[4], v[5], v[6], v[7])
  }

  /** SS1 of round j: ((A <<< 12) + E + (T_j <<< j)) <<< 7. */
  function Ss1(a: word, e: word, j: nat): word
    requires j < 64
  {
    Rotl(Rotl(a, 12) + e + Rotl(T[j], RoundAmount(j)), 7)
  }

  /** SS2 of a round: SS1 ^ (A <<< 12). */
  function Ss2(a: word, ss1: word): word
  {
    ss1 ^ Rotl(a, 12)
  }

  /** TT1 of round j: FF_j(A, B, C) + D + SS2 + W1[j]. */
  function Tt1(a: word, b: word, c: word, d: word, ss2: word, w1j: word, j: nat): word
  {
    FF(a, b, c, j) + d + ss2 + w1j
  }

  /** TT2 of round j: GG_j(E, F, G) + H + SS1 + W[j]. */
  function Tt2(e: word, f: word, g: word, h: word, ss1: word, wj: word, j: nat): word
  {
    GG(e, f, g, j) + h + ss1 + wj
  }

  /**
   * Round j of the compression function (section 5.3.3 of GM/T 0004-2012),
   * with all four new values of the round computed from the old registers
   * and then assigned at once. Word additions wrap modulo 2^32, as on
   * `uint32_t`.
   */
  function Round(r: Registers, j: nat, wj: word, w1j: word): Registers
    requires j < 64
  {
    var ss1 := Ss1(r.a, r.e, j);
    var ss2 := Ss2(r.a, ss1);
    Registers(Tt1(r.a, r.b, r.c, r.d, ss2, w1j, j), r.a, Rotl(r.b, 9), r.c,
              P0(Tt2(r.e, r.f, r.g, r.h, ss1, wj, j)), r.e, Rotl(r.f, 19), r.g)
  }

  /** The registers after the first n rounds. */
  function Rounds(r: Registers, w: seq<word>, w1: seq<word>, n: nat): Registers
    requires |w| == 68 && |w1| == 64 && n <= 64
  {
    if n == 0 then r else Round(Rounds(r, w, w1, n - 1), n - 1, w[n - 1], w1[n - 1])
  }

  /**
   * Within one round B, C, D and F, G, H are shift registers: each takes
   * the old value of the register before it, C and G rotated.
   */
  lemma RoundShifts(r: Registers, j: nat, wj: word, w1j: word)
    requires j < 64
    ensures Round(r, j, wj, w1j).b == r.a && Round(r, j, wj, w1j).c == Rotl(r.b, 9) && Round(r, j, wj, w1j).d == r.c
    ensures Round(r, j, wj, w1j).f == r.e && Round(r, j, wj, w1j).g == Rotl(r.f, 19) && Round(r, j, wj, w1j).h == r.g
  {
  }

  /**
   * A round moves B, C, D and F, G, H down the two register pipelines:
   * three rounds after a value is in A it reaches D rotated by 9, and three
   * rounds after a value is in E it reaches H rotated by 19.
   */
  lemma RoundsPipeline(r: Registers, w: seq<word>, w1: seq<word>, n: nat)
    requires |w| == 68 && |w1| == 64 && n + 3 <= 64
    ensures Rounds(r, w, w1, n + 3).d == Rotl(Rounds(r, w, w1, n).a, 9)
    ensures Rounds(r, w, w1, n + 3).h == Rotl(Rounds(r, w, w1, n).e, 19)
  {
    var r0 := Rounds(r, w, w1, n);
    var r1 := Rounds(r, w, w1, n + 1);
    var r2 := Rounds(r, w, w1, n + 2);
    assert r1 == Round(r0, n, w[n], w1[n]);
    assert r2 == Round(r1, n + 1, w[n + 1], w1[n + 1]);
    assert Rounds(r, w, w1, n + 3) == Round(r2, n + 2, w[n + 2], w1[n + 2]);
    RoundShifts(r0, n, w[n], w1[n]);
    RoundShifts(r1, n + 1, w[n + 1], w1[n + 1]);
    RoundShifts(r2, n + 2, w[n + 2], w1[n + 2]);
  }

  /** The new chaining value: the registers after 64 rounds, XORed into the old value word by word. */
  function FeedForward(v: seq<word>, r: Registers): (v': seq<word>)
    requires |v| == 8
    ensures |v'| == 8
  {
    seq(8, i requires 0 <= i < 8 => Xor(v[i], r.Words()[i]))
  }

  /** The compression function CF(V, B). */
  function CF(v: seq<word>, block: seq<byte>): (v': seq<word>)
    requires |v| == 8 && |block| == BLOCK_SIZE
    ensures |v'| == 8
  {
    var w := ExpandW(block);
    FeedForward(v, Rounds(Load(v), w, ExpandW1(w), 64))
  }

  /**
   * CF(v, block) reached through `delay` levels of recursion. Iterate
   * calls it with delay 1, so that unfolding Iterate in a proof does not
   * also unfold the 64 rounds of CF; DeferredIsCF recovers CF where a
   * proof needs it.
   */
  function DeferredCF(v: seq<word>, block: seq<byte>, delay: nat): (v': seq<word>)
    requires |v| == 8 && |block| == BLOCK_SIZE
    ensures |v'| == 8
    decreases delay
  {
    if delay == 0 then CF(v, block) else DeferredCF(v, block, delay - 1)
  }

  /** Deferred by one level, the compression is CF itself. */
  lemma DeferredIsCF(v: seq<word>, block: seq<byte>)
    requires |v| == 8 && |block| == BLOCK_SIZE
    ensures DeferredCF(v, block, 1) == CF(v, block)
  {
  }

  /**
   * CF iterated over the 64-byte blocks of m, in order, starting from v:
   * no block leaves v, one block is one CF, and a longer message is the
   * iteration over its last block from the value reached before it. The
   * one-block case is written DeferredCF(v, m, 1), which is the same
   * function as CF(v, m) (DeferredIsCF); the extra level only keeps the
   * verifier from unfolding the 64 rounds whenever Iterate is unfolded.
   */
  function Iterate(v: seq<word>, m: seq<byte>): (v': seq<word>)
    requires |v| == 8 && |m| % BLOCK_SIZE == 0
    ensures |v'| == 8
    decreases |m|
  {
    if |m| == 0 then v
    else if |m| == BLOCK_SIZE then DeferredCF(v, m, 1)
    else Iterate(Iterate(v, m[..|m| - BLOCK_SIZE]), m[|m| - BLOCK_SIZE..])
  }

  /** Appending one block to what has been iterated costs exactly one more CF. */
  lemma IterateBlock(v: seq<word>, m: seq<byte>, block: seq<byte>)
    requires |v| == 8 && |m| % BLOCK_SIZE == 0 && |block| == BLOCK_SIZE
    ensures |m + block| % BLOCK_SIZE == 0
    ensures Iterate(v, m + block) == CF(Iterate(v, m), block)
  {
    var mb := m + block;
    NextBlockAligned(|m|);
    if |m| == 0 {
      assert mb == block;
      DeferredIsCF(v, block);
    } else {
      assert mb[..|mb| - BLOCK_SIZE] == m;
      assert mb[|mb| - BLOCK_SIZE..] == block;
      DeferredIsCF(Iterate(v, m), block);
    }
  }

  /** Splitting the last block off b commutes with putting a in front. */
  lemma SplitLastBlock(a: seq<byte>, b: seq<byte>)
    requires |a| % BLOCK_SIZE == 0 && |b| % BLOCK_SIZE == 0 && |b| > 0
    ensures |b| >= BLOCK_SIZE && |b[..|b| - BLOCK_SIZE]| % BLOCK_SIZE == 0
    ensures |a + b[..|b| - BLOCK_SIZE]| % BLOCK_SIZE == 0
    ensures b == b[..|b| - BLOCK_SIZE] + b[|b| - BLOCK_SIZE..]
    ensures a + b == (a + b[..|b| - BLOCK_SIZE]) + b[|b| - BLOCK_SIZE..]
  {
  }

  /**
   * The Merkle–Damgård chaining: iterating over a + b is iterating over b
   * from the chaining value reached after a.
   */
  lemma {:induction false} IterateConcat(v: seq<word>, a: seq<byte>, b: seq<byte>)
    requires |v| == 8 && |a| % BLOCK_SIZE == 0 && |b| % BLOCK_SIZE == 0
    ensures Iterate(v, a + b) == Iterate(Iterate(v, a), b)
    decreases |b|
  {
    if |b| == 0 {
      assert a + b == a;
    } else {
      SplitLastBlock(a, b);
      var b0, last := b[..|b| - BLOCK_SIZE], b[|b| - BLOCK_SIZE..];
      var u := Iterate(v, a);
      IterateConcat(v, a, b0);
      IterateBlock(v, a + b0, last);
      IterateBlock(u, b0, last);
    }
  }

  /** SM3(m): iterate CF over the padded message from the IV and write the result out big-endian. */
  function Hash(m: seq<byte>): (digest: seq<byte>)
    requires |m| < MAX_INPUT
    ensures |digest| == DIGEST_SIZE
  {
    PadLength(m);
    Serialize(Iterate(IV, Pad(m)))
  }

  /** The digest is the final chaining value: reading it back as words gives CF's last output. */
  lemma HashWords(m: seq<byte>)
    requires |m| < MAX_INPUT
    ensures |Pad(m)| % BLOCK_SIZE == 0
    ensures Deserialize(Hash(m)) == Iterate(IV, Pad(m))
  {
    PadLength(m);
    DeserializeSerialize(Iterate(IV, Pad(m)));
  }
}
