/**
 * Message expansion as both source files write it (the loops at the head
 * of sm3_compress in sm3.c and `message_expansion` in sm3.cpp): three
 * loops filling the caller's W[68] and W1[64], proved against ExpandW and
 * ExpandW1 of Sm3Spec.
 */
module Sm3Expansion {
  import opened Sm3Header
  import opened Sm3Encoding
  import opened Sm3Spec

  /** Loop 1: W[0..15] are the block's bytes taken four at a time, big-endian. */
  method LoadWords(block: array<byte>, W: array<word>)
    requires block.Length == BLOCK_SIZE && W.Length == 68
    modifies W
    ensures W[..16] == BlockWords(block[..])
  {
    ghost var b := block[..];
    var j := 0;
    while j < 16
      invariant 0 <= j <= 16
      invariant W[..j] == BlockWords(b)[..j]
    {
      W[j] := BigEndianWord(block[j * 4], block[j * 4 + 1], block[j * 4 + 2], block[j * 4 + 3]);
      assert W[..j + 1] == W[..j] + [W[j]];
      j := j + 1;
    }
  }

  /** Loop 2: W[16..67] by the P1 recurrence, each word from five earlier ones. */
  method ExtendWords(W: array<word>)
    requires W.Length == 68
    modifies W
    ensures W[..] == ExpandFrom(old(W[..16]))
  {
    ghost var target := ExpandFrom(W[..16]);
    var j := 16;
    while j < 68
      invariant 16 <= j <= 68
      invariant ExpandFrom(W[..j]) == target
    {
      ghost var prev := W[..j];
      assert prev[j - 16] == W[j - 16] && prev[j - 9] == W[j - 9] && prev[j - 3] == W[j - 3];
      assert prev[j - 13] == W[j - 13] && prev[j - 6] == W[j - 6];
      W[j] := ExpandStep(W[j - 16], W[j - 9], W[j - 3], W[j - 13], W[j - 6]);
      assert W[j] == NextWord(prev);
      assert W[..j + 1] == prev + [W[j]];
      j := j + 1;
    }
    assert W[..] == W[..68];
  }

  /** Loop 3: W1[j] = W[j] ^ W[j + 4]. */
  method DeriveW1(W: array<word>, W1: array<word>)
    requires W.Length == 68 && W1.Length == 64 && W != W1
    modifies W1
    ensures W1[..] == ExpandW1(W[..])
  {
    ghost var w := W[..];
    var j := 0;
    while j < 64
      invariant 0 <= j <= 64
      invariant W1[..j] == ExpandW1(w)[..j]
    {
      assert W[j] == w[j] && W[j + 4] == w[j + 4];
      W1[j] := Xor(W[j], W[j + 4]);
      assert W1[..j + 1] == W1[..j] + [W1[j]];
      j := j + 1;
    }
    assert W1[..] == W1[..64];
  }

  /** The whole expansion: afterwards W and W1 hold exactly the standard's W and W' for the block. */
  method Expand(block: array<byte>, W: array<word>, W1: array<word>)
    requires block.Length == BLOCK_SIZE && W.Length == 68 && W1.Length == 64 && W != W1
    modifies W, W1
    ensures W[..] == ExpandW(block[..]) && W1[..] == ExpandW1(W[..])
  {
    LoadWords(block, W);
    ExtendWords(W);
    DeriveW1(W, W1);
  }
}
