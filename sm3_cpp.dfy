/**
 * The message handling of sm3.cpp: the one-shot whole-buffer
 * `sm3_padding`, proved to build exactly Sm3Padding.Pad, the padding the
 * incremental sm3_final of sm3.c produces, and the stand-alone
 * `message_expansion`, proved to fill W and W1 exactly as the expansion
 * inlined in sm3_compress does.
 */
module Sm3Cpp {
  import opened Sm3Header
  import opened Sm3Padding
  import opened Sm3Spec
  import opened Sm3Expansion
  import Sm3
  import Sm3Primitives

  /**
   * What `sm3_padding` leaves behind for its caller: nothing written (one
   * of the pointers was NULL), `*out_len = 0` with a NULL buffer (malloc
   * failed), or a new buffer holding `bytes`, with `*out_len = |bytes|`.
   */
  datatype PaddingResult = Untouched | AllocationFailed | Padded(bytes: seq<byte>)

  /**
   * sm3_padding(input, len, output, out_len). The NULL tests are on
   * `input` (null here) and on the two out-pointers (`hasOutput`,
   * `hasOutLen`); `allocates` is whether malloc succeeds. The buffer is
   * zeroed, the message copied in, the marker written after it, and the
   * last eight bytes set to the bit length, most significant first.
   */
  method Padding(input: array?<byte>, len: nat, hasOutput: bool, hasOutLen: bool, allocates: bool)
    returns (r: PaddingResult)
    requires input != null ==> len <= input.Length && len < MAX_INPUT
    ensures input == null || !hasOutput || !hasOutLen ==> r == Untouched
    ensures input != null && hasOutput && hasOutLen && !allocates ==> r == AllocationFailed
    ensures input != null && hasOutput && hasOutLen && allocates ==> r == Padded(Pad(input[..len]))
  {
    if input == null || !hasOutput || !hasOutLen {
      return Untouched;
    }
    var bitLen := BitLength(len);
    var padMinLen := len + 1 + 8;
    var outLen := ((padMinLen + BLOCK_SIZE - 1) / BLOCK_SIZE) * BLOCK_SIZE;
    if !allocates {
      return AllocationFailed;
    }
    ghost var m := input[..len];
    PadLength(m);
    var output := Assemble(input, len, outLen, bitLen);
    PaddingIsPad(m, output[..], bitLen);
    r := Padded(output[..]);
  }

  /**
   * The body of sm3_padding once the buffer is allocated: a zeroed buffer
   * of `outLen` bytes, the message copied to its front, the marker after
   * the message and the length field in the last eight bytes.
   */
  method Assemble(input: array<byte>, len: nat, outLen: nat, bits: bv64) returns (output: array<byte>)
    requires len <= input.Length && len + 9 <= outLen
    ensures fresh(output) && output.Length == outLen
    ensures output[..len] == input[..len] && output[len] == 0x80
    ensures forall i :: len < i < outLen - 8 ==> output[i] == 0
    ensures output[outLen - 8..] == LengthField(bits)
  {
    output := new byte[outLen];
    forall i | 0 <= i < outLen {
      output[i] := 0;
    }
    forall i | 0 <= i < len {
      output[i] := input[i];
    }
    output[len] := 0x80;
    ghost var before := output[..outLen - 8];
    WriteBitLength(output, bits);
    assert output[..outLen - 8] == before;
    assert forall i :: 0 <= i < outLen - 8 ==> output[i] == before[i];
  }

  /** The length loop of sm3_padding: the last eight bytes become `bits`, most significant first. */
  method WriteBitLength(output: array<byte>, bits: bv64)
    requires output.Length >= 8
    modifies output
    ensures output[..output.Length - 8] == old(output[..output.Length - 8])
    ensures output[output.Length - 8..] == LengthField(bits)
  {
    var n := output.Length;
    for i := 0 to 8
      invariant output[..n - 8] == old(output[..n - 8])
      invariant forall k :: 0 <= k < i ==> output[n - 8 + k] == LengthByte(bits, k)
    {
      output[n - 8 + i] := LengthByte(bits, i);
    }
  }

  /**
   * The buffer sm3_padding builds, zeros with the message copied to the
   * front, 0x80 after it and the length field last, is the padded message.
   */
  lemma PaddingIsPad(m: seq<byte>, out: seq<byte>, bits: bv64)
    requires |m| < MAX_INPUT && |out| == |Pad(m)| && bits == BitLength(|m|)
    requires out[..|m|] == m && out[|m|] == 0x80
    requires forall i :: |m| < i < |out| - 8 ==> out[i] == 0
    requires out[|out| - 8..] == LengthField(bits)
    ensures out == Pad(m)
  {
    var p := Pad(m);
    PadLength(m);
    PadContents(m);
    forall i | 0 <= i < |out|
      ensures out[i] == p[i]
    {
      if i < |m| {
        assert out[i] == out[..|m|][i] && p[i] == p[..|m|][i];
      } else if i >= |out| - 8 {
        assert out[i] == out[|out| - 8..][i - (|out| - 8)];
        assert p[i] == p[|p| - 8..][i - (|p| - 8)];
      }
    }
  }

  /**
   * message_expansion(block, W, W1): returns at once if any of the three
   * pointers is NULL; otherwise the same three loops as in sm3_compress,
   * so W and W1 end up as the standard's W and W' for the block.
   */
  method MessageExpansion(block: array?<byte>, W: array?<word>, W1: array?<word>)
    requires block != null ==> block.Length == BLOCK_SIZE
    requires W != null ==> W.Length == 68
    requires W1 != null ==> W1.Length == 64
    requires W != null && W1 != null ==> W != W1
    modifies W, W1
    ensures block == null || W == null || W1 == null ==> (W != null ==> unchanged(W)) && (W1 != null ==> unchanged(W1))
    ensures block != null && W != null && W1 != null ==> W[..] == ExpandW(block[..]) && W1[..] == ExpandW1(W[..])
  {
    if block == null || W == null || W1 == null {
      return;
    }
    Expand(block, W, W1);
  }

  /**
   * The two files pad alike: however a message was fed to sm3.c's context
   * by sm3_update calls, the bytes that sm3_final and the updates before it
   * hand to sm3_compress, in order, are exactly the buffer sm3_padding
   * builds for the same message, and the state they leave is CF chained
   * over that buffer's blocks.
   */
  method PaddingMatchesFinal(ctx: Sm3.Context, input: array<byte>, digest: array<byte>) returns (r: PaddingResult)
    requires ctx.Valid() && ctx.absorbed == input[..]
    requires digest.Length == DIGEST_SIZE && input != ctx.buffer && input != digest
    modifies ctx`fed, ctx.state, ctx.buffer, digest
    ensures r.Padded? && r.bytes == ctx.fed && r.bytes == Pad(input[..])
    ensures |r.bytes| % BLOCK_SIZE == 0 && ctx.state[..] == Iterate(Sm3Primitives.IV, r.bytes)
    ensures digest[..] == Hash(input[..])
  {
    ctx.Final(digest);
    assert input[..input.Length] == input[..];
    r := Padding(input, input.Length, true, true, true);
  }
}
