/**
 * The streaming SM3 context of sm3.c (SM3_CTX in sm3.h) with sm3_init,
 * sm3_compress, sm3_update and sm3_final, and the one-shot drivers built
 * on it: sm3_hash, sm3_hash_string, sm3_string_hash and the read loop of
 * sm3_file_hash. Every operation is proved against the functions of
 * Sm3Spec.
 */
module Sm3 {
  import opened Sm3Header
  import opened Sm3Primitives
  import opened Sm3Encoding
  import opened Sm3Padding
  import opened Sm3Spec
  import opened Sm3Expansion

  /**
   * SM3_CTX: eight chaining words, the 64-bit count of message bits taken
   * in so far, and the block buffer. There is no stored cursor: the number
   * of bytes waiting in the buffer is always recomputed as bitlen / 8 mod 64.
   * Two ghost fields record the message taken in (`absorbed`) and every
   * byte handed to the compression function, in order (`fed`).
   */
  class Context {
    const state: array<word>
    var bitlen: nat
    const buffer: array<byte>
    ghost var absorbed: seq<byte>
    ghost var fed: seq<byte>

    /** `ctx->bitlen / 8 % SM3_BLOCK_SIZE`: where the next byte goes in the buffer. */
    function Cursor(): (idx: nat)
      reads this
      ensures idx < BLOCK_SIZE
    {
      bitlen / 8 % BLOCK_SIZE
    }

    /**
     * The context invariant: the bit count matches the message; the message
     * is a whole number of blocks, compressed into `state` starting from
     * the IV, followed by the buffer's first Cursor() bytes.
     */
    ghost predicate Valid()
      reads this, state, buffer
    {
      && state.Length == 8
      && buffer.Length == BLOCK_SIZE
      && |absorbed| < MAX_INPUT
      && bitlen == 8 * |absorbed|
      && |fed| % BLOCK_SIZE == 0
      && absorbed == fed + buffer[..Cursor()]
      && state[..] == Iterate(IV, fed)
    }

    /** Storage for a context, not yet initialized (the uninitialized `SM3_CTX ctx;`). */
    constructor ()
      ensures state.Length == 8 && buffer.Length == BLOCK_SIZE
      ensures fresh(state) && fresh(buffer)
    {
      state := new word[8];
      buffer := new byte[BLOCK_SIZE];
    }

    /** sm3_init: state := IV, bitlen := 0, buffer := 64 zero bytes. */
    method Init()
      requires state.Length == 8 && buffer.Length == BLOCK_SIZE
      modifies this, state, buffer
      ensures Valid() && absorbed == [] && fed == []
      ensures state[..] == IV && bitlen == 0 && buffer[..] == Zeros(BLOCK_SIZE)
    {
      forall i | 0 <= i < 8 {
        state[i] := IV[i];
      }
      bitlen := 0;
      forall i | 0 <= i < BLOCK_SIZE {
        buffer[i] := 0;
      }
      absorbed := [];
      fed := [];
      assert state[..] == IV;
    }

    /**
     * A valid context is determined by the message alone: the state is CF
     * iterated over the message's complete blocks, and the live buffer
     * prefix is what follows them.
     */
    lemma ValidDetermined()
      requires Valid()
      ensures Cursor() == |absorbed| % BLOCK_SIZE
      ensures state[..] == Iterate(IV, absorbed[..|absorbed| - |absorbed| % BLOCK_SIZE])
      ensures buffer[..Cursor()] == absorbed[|absorbed| - |absorbed| % BLOCK_SIZE..]
    {
      CursorOfLength(|absorbed|);
      RemainderOfBlocks(|fed|, Cursor());
      assert absorbed[..|fed|] == fed;
    }

    /**
     * sm3_update: the cursor is recomputed from `bitlen`, `bitlen` grows by
     * 8 * len, and every byte goes into the buffer at the cursor; each time
     * the buffer fills it is compressed and the cursor returns to 0.
     */
    method Update(data: seq<byte>)
      requires Valid() && |absorbed| + |data| < MAX_INPUT
      modifies this, state, buffer
      ensures Valid()
      ensures absorbed == old(absorbed) + data
      ensures bitlen == old(bitlen) + 8 * |data|
      ensures |fed| == |old(fed)| + BLOCK_SIZE * ((old(Cursor()) + |data|) / BLOCK_SIZE)
      ensures |data| == 0 ==> state[..] == old(state[..]) && buffer[..] == old(buffer[..]) && fed == old(fed)
    {
      ghost var start := absorbed;
      var idx: nat := Cursor();
      ValidIsPartial();
      bitlen := bitlen + |data| * 8;
      ghost var blocks := (idx + |data|) / BLOCK_SIZE;
      assert blocks == (old(Cursor()) + |data|) / BLOCK_SIZE;
      idx := AbsorbAll(data, idx, start);
      absorbed := start + data;
      PartialIsValid(idx);
    }

    /** The loop of sm3_update: `Absorb` every byte of data, in order, starting at cursor idx. */
    method AbsorbAll(data: seq<byte>, idx: nat, ghost msg: seq<byte>) returns (idx': nat)
      requires Partial(msg, idx)
      modifies this`fed, state, buffer
      ensures Partial(msg + data, idx')
      ensures |fed| == |old(fed)| + BLOCK_SIZE * ((idx + |data|) / BLOCK_SIZE)
      ensures |data| == 0 ==> state[..] == old(state[..]) && buffer[..] == old(buffer[..]) && fed == old(fed)
    {
      idx' := idx;
      var i := 0;
      while i < |data|
        invariant 0 <= i <= |data|
        invariant Partial(msg + data[..i], idx')
        invariant |fed| + idx' == |old(fed)| + idx + i
        invariant i == 0 ==> state[..] == old(state[..]) && buffer[..] == old(buffer[..]) && fed == old(fed)
      {
        assert msg + data[..i + 1] == (msg + data[..i]) + [data[i]];
        idx' := Absorb(data[i], idx', msg + data[..i]);
        i := i + 1;
      }
      assert msg + data[..|data|] == msg + data;
      CountBlocks(|old(fed)|, idx, |data|, |fed|, idx');
    }

    /** A valid context is the partial state of sm3_update before its first byte, at the cursor. */
    lemma ValidIsPartial()
      requires Valid()
      ensures Cursor() == |absorbed| % BLOCK_SIZE
      ensures Partial(absorbed, Cursor())
    {
      CursorOfLength(|absorbed|);
    }

    /**
     * Once the bit count matches `absorbed` again, the partial state of
     * sm3_update after all of `absorbed`, with local cursor idx, is a valid
     * context whose cursor is idx.
     */
    lemma PartialIsValid(idx: nat)
      requires Partial(absorbed, idx) && |absorbed| < MAX_INPUT && bitlen == 8 * |absorbed|
      ensures Valid() && Cursor() == idx
    {
      CursorOfLength(|absorbed|);
      RemainderOfBlocks(|fed|, idx);
    }

    /**
     * The context in the middle of sm3_update, after the bytes `msg` and
     * with the local cursor `idx`: msg is a whole number of compressed
     * blocks followed by the buffer's first idx bytes.
     */
    ghost predicate Partial(msg: seq<byte>, idx: nat)
      reads this, state, buffer
    {
      && state.Length == 8
      && buffer.Length == BLOCK_SIZE
      && idx < BLOCK_SIZE
      && |fed| % BLOCK_SIZE == 0
      && msg == fed + buffer[..idx]
      && state[..] == Iterate(IV, fed)
    }

    /**
     * One iteration of sm3_update's loop: `ctx->buffer[idx++] = data[i]`,
     * and when that fills the buffer, compress it and reset idx to 0.
     */
    method Absorb(x: byte, idx: nat, ghost msg: seq<byte>) returns (idx': nat)
      requires Partial(msg, idx)
      modifies this`fed, state, buffer
      ensures Partial(msg + [x], idx')
      ensures idx + 1 < BLOCK_SIZE ==> idx' == idx + 1 && fed == old(fed)
      ensures idx + 1 == BLOCK_SIZE ==> idx' == 0 && fed == old(fed) + old(buffer[..idx]) + [x]
    {
      ghost var before := buffer[..idx];
      buffer[idx] := x;
      idx' := idx + 1;
      assert buffer[..idx'] == before + [x];
      assert msg + [x] == fed + buffer[..idx'];
      if idx' == BLOCK_SIZE {
        assert buffer[..] == buffer[..idx'];
        CompressBuffer();
        idx' := 0;
        assert msg + [x] == fed + buffer[..idx'];
      }
    }

    /**
     * sm3_final: pads and compresses the last block or blocks, then writes
     * the state out big-endian as the digest. Everything compressed, in
     * order, is then exactly the padded message, so the digest is SM3 of
     * the message. The context is not reset.
     */
    method Final(digest: array<byte>)
      requires Valid() && digest.Length == DIGEST_SIZE
      modifies this`fed, state, buffer, digest
      ensures |fed| % BLOCK_SIZE == 0 && fed == Pad(absorbed) && state[..] == Iterate(IV, fed)
      ensures digest[..] == Hash(absorbed)
    {
      PadFinal();
      WriteDigest(digest);
    }

    /**
     * The padding phase of sm3_final: the 0x80 marker goes at the cursor;
     * when fewer than eight bytes are left after it, the block is
     * zero-filled and compressed and a fresh one begun; then the last
     * block is finished with zeros and the bit count and compressed.
     */
    method PadFinal()
      requires Valid()
      modifies this`fed, state, buffer
      ensures |fed| % BLOCK_SIZE == 0 && fed == Pad(absorbed) && state[..] == Iterate(IV, fed)
    {
      var idx := Cursor();
      ValidIsPartial();
      ghost var m, r := absorbed, idx;
      BitCount(bitlen, |m|);
      var bits := bitlen as bv64;
      ghost var marked := m + [0x80];
      idx := PutMarker(idx, m);
      ghost var z;
      idx, z := MakeRoomForLength(idx, marked);
      LastBlock(idx, bits, marked + Zeros(z));
      PadAssembly(m, r, z, idx, bits);
    }

    /**
     * The context during the padding of sm3_final, up to and including a
     * full buffer: p is a whole number of compressed blocks followed by
     * the buffer's first idx bytes.
     */
    ghost predicate Pending(p: seq<byte>, idx: nat)
      reads this, state, buffer
    {
      && state.Length == 8
      && buffer.Length == BLOCK_SIZE
      && idx <= BLOCK_SIZE
      && |fed| % BLOCK_SIZE == 0
      && fed + buffer[..idx] == p
      && state[..] == Iterate(IV, fed)
    }

    /** `ctx->buffer[idx++] = 0x80`: the one bit that follows the message. */
    method PutMarker(idx: nat, ghost msg: seq<byte>) returns (idx': nat)
      requires Partial(msg, idx)
      modifies buffer
      ensures idx' == idx + 1 && Pending(msg + [0x80], idx')
    {
      ghost var tail := buffer[..idx];
      buffer[idx] := 0x80;
      idx' := idx + 1;
      assert buffer[..idx'] == tail + [0x80];
      ExtendBoth(fed, tail, msg, [0x80]);
    }

    /**
     * `if (idx > 56)`: with no room for the length after the marker, the
     * block is zero-filled (z zeros), compressed, and a new one begun;
     * otherwise nothing happens (z = 0).
     */
    method MakeRoomForLength(idx: nat, ghost p: seq<byte>) returns (idx': nat, ghost z: nat)
      requires Pending(p, idx)
      modifies this`fed, state, buffer
      ensures idx' <= 56 && Pending(p + Zeros(z), idx')
      ensures idx <= 56 ==> idx' == idx && z == 0 && fed == old(fed) && state[..] == old(state[..]) && buffer[..] == old(buffer[..])
      ensures idx > 56 ==> idx' == 0 && z == BLOCK_SIZE - idx
    {
      idx' := idx;
      z := 0;
      assert p + Zeros(0) == p;
      if idx' > 56 {
        ghost var head := buffer[..idx'];
        idx' := ZeroFill(idx', BLOCK_SIZE);
        z := BLOCK_SIZE - idx;
        assert buffer[..] == head + Zeros(z);
        ExtendBoth(fed, head, p, Zeros(z));
        CompressBuffer();
        idx' := 0;
        assert fed + buffer[..idx'] == fed;
      }
    }

    /** The last block: zeros up to byte 56, the bit count `bits` in bytes 56..63, and its compression. */
    method LastBlock(idx: nat, bits: bv64, ghost p: seq<byte>)
      requires Pending(p, idx) && idx <= 56
      modifies this`fed, state, buffer
      ensures |fed| % BLOCK_SIZE == 0 && fed == p + Zeros(56 - idx) + LengthField(bits)
      ensures state[..] == Iterate(IV, fed)
    {
      ghost var head := buffer[..idx];
      var end := ZeroFill(idx, 56);
      ghost var zeroed := buffer[..56];
      assert zeroed == head + Zeros(56 - idx);
      ExtendBoth(fed, head, p, Zeros(56 - idx));
      WriteLength(bits);
      assert buffer[..] == zeroed + LengthField(bits);
      ExtendBoth(fed, zeroed, p + Zeros(56 - idx), LengthField(bits));
      CompressBuffer();
    }

    /** `while (idx < to) ctx->buffer[idx++] = 0x00;`: the bytes from..to - 1 become zero. */
    method ZeroFill(from: nat, to: nat) returns (idx: nat)
      requires buffer.Length == BLOCK_SIZE && from <= to <= BLOCK_SIZE
      modifies buffer
      ensures idx == to
      ensures buffer[..to] == old(buffer[..from]) + Zeros(to - from)
    {
      idx := from;
      while idx < to
        invariant from <= idx <= to
        invariant buffer[..idx] == old(buffer[..from]) + Zeros(idx - from)
      {
        buffer[idx] := 0;
        assert buffer[..idx + 1] == buffer[..idx] + [0];
        idx := idx + 1;
      }
    }

    /** The length loop of sm3_final: bytes 56..63 become the 64-bit bit count `bits`, most significant first. */
    method WriteLength(bits: bv64)
      requires buffer.Length == BLOCK_SIZE
      modifies buffer
      ensures buffer[..] == old(buffer[..56]) + LengthField(bits)
    {
      ghost var field := LengthField(bits);
      for i := 0 to 8
        invariant buffer[..56] == old(buffer[..56])
        invariant forall k :: 0 <= k < i ==> buffer[56 + k] == field[k]
      {
        buffer[56 + i] := LengthByte(bits, i);
      }
      assert buffer[..] == old(buffer[..56]) + field;
    }

    /** The output loop of sm3_final: state word i becomes digest bytes 4i..4i+3, big-endian. */
    method WriteDigest(digest: array<byte>)
      requires state.Length == 8 && digest.Length == DIGEST_SIZE
      modifies digest
      ensures digest[..] == Serialize(state[..])
    {
      for i := 0 to 8
        invariant digest[..4 * i] == Serialize(state[..i])
      {
        WriteWord(digest, i, state[i]);
        assert state[..i + 1][..i] == state[..i];
      }
      assert digest[..] == digest[..32] && state[..] == state[..8];
    }

    /**
     * `sm3_compress(ctx, ctx->buffer)` on a full buffer, with the ghost
     * record of what has been compressed extended by that block.
     */
    method CompressBuffer()
      requires state.Length == 8 && buffer.Length == BLOCK_SIZE
      requires |fed| % BLOCK_SIZE == 0 && state[..] == Iterate(IV, fed)
      modifies this`fed, state
      ensures |fed| % BLOCK_SIZE == 0 && fed == old(fed) + buffer[..]
      ensures state[..] == Iterate(IV, fed)
    {
      ghost var s0 := state[..];
      Compress(buffer);
      ChainStep(fed, s0, buffer[..]);
      fed := fed + buffer[..];
    }

    /**
     * sm3_compress: expands the block into W and W1, runs the 64 rounds on
     * registers A..H loaded from `state`, and XORs the registers back into
     * `state`.
     */
    method Compress(block: array<byte>)
      requires state.Length == 8 && block.Length == BLOCK_SIZE
      modifies state
      ensures state[..] == CF(old(state[..]), block[..])
    {
      var W := new word[68];
      var W1 := new word[64];
      Expand(block, W, W1);
      CompressExpanded(W, W1);
    }

    /** The rounds and the feed-forward of sm3_compress, on the expanded words W and W1. */
    method CompressExpanded(W: array<word>, W1: array<word>)
      requires state.Length == 8 && W.Length == 68 && W1.Length == 64
      modifies state
      ensures state[..] == FeedForward(old(state[..]), Rounds(Load(old(state[..])), W[..], W1[..], 64))
    {
      var A, B, C, D, E, F, G, H := CompressRounds(W, W1, state[..]);
      FeedForwardState(A, B, C, D, E, F, G, H);
    }

    /** The last phase of sm3_compress: `ctx->state[i] ^=` register i, for A..H, as one simultaneous update. */
    method FeedForwardState(A: word, B: word, C: word, D: word, E: word, F: word, G: word, H: word)
      requires state.Length == 8
      modifies state
      ensures state[..] == FeedForward(old(state[..]), Registers(A, B, C, D, E, F, G, H))
    {
      var registers := Registers(A, B, C, D, E, F, G, H).Words();
      forall i | 0 <= i < 8 {
        state[i] := Xor(state[i], registers[i]);
      }
    }
  }

  /**
   * The round loop of sm3_compress. The source writes the eight registers
   * one after another in the order D, C, B, A, H, G, F, E, each from values
   * not yet overwritten, which is the simultaneous update of Round.
   */
  method CompressRounds(W: array<word>, W1: array<word>, v: seq<word>)
    returns (A: word, B: word, C: word, D: word, E: word, F: word, G: word, H: word)
    requires W.Length == 68 && W1.Length == 64 && |v| == 8
    ensures Registers(A, B, C, D, E, F, G, H) == Rounds(Load(v), W[..], W1[..], 64)
  {
    ghost var start := Load(v);
    A, B, C, D, E, F, G, H := v[0], v[1], v[2], v[3], v[4], v[5], v[6], v[7];
    var j := 0;
    while j < 64
      invariant 0 <= j <= 64
      invariant Registers(A, B, C, D, E, F, G, H) == Rounds(start, W[..], W1[..], j)
    {
      var SS1 := Ss1(A, E, j);
      var SS2 := Ss2(A, SS1);
      var TT1 := Tt1(A, B, C, D, SS2, W1[j], j);
      var TT2 := Tt2(E, F, G, H, SS1, W[j], j);
      D := C;
      C := Rotl(B, 9);
      B := A;
      A := TT1;
      H := G;
      G := Rotl(F, 19);
      F := E;
      E := P0(TT2);
      j := j + 1;
    }
  }

  /** Compressing one more block into the chaining value of `fed` gives the chaining value of `fed + block`. */
  lemma ChainStep(fed: seq<byte>, s: seq<word>, block: seq<byte>)
    requires |fed| % BLOCK_SIZE == 0 && |block| == BLOCK_SIZE && s == Iterate(IV, fed)
    ensures |fed + block| % BLOCK_SIZE == 0
    ensures CF(s, block) == Iterate(IV, fed + block)
  {
    IterateBlock(IV, fed, block);
  }

  /** With the marker at cursor r, the zeros of the padding run to byte 56 of that block or of the next. */
  lemma ZeroCountOfCursor(n: nat, r: nat)
    requires r == n % BLOCK_SIZE
    ensures r < 56 ==> ZeroCount(n) == 55 - r
    ensures r >= 56 ==> ZeroCount(n) == 119 - r
  {
  }

  /** `ctx->bitlen`, which is 8n and below 2^64, is the 64-bit bit length of an n-byte message. */
  lemma BitCount(bitlen: nat, n: nat)
    requires bitlen == 8 * n && n < MAX_INPUT
    ensures bitlen < 0x1_0000_0000_0000_0000 && bitlen as bv64 == BitLength(n)
  {
  }

  /**
   * The bytes sm3_final compresses after the message, with the marker at
   * cursor r: z zeros in a flushed block (none when r < 56, else the 63 - r
   * left in the marker's block) and 56 - i zeros before the length field
   * in the last block, where i is the cursor after the marker or after the
   * flush. Together they are exactly the padding.
   */
  lemma PadAssembly(m: seq<byte>, r: nat, z: nat, i: nat, bits: bv64)
    requires |m| < MAX_INPUT && r == |m| % BLOCK_SIZE && i <= 56 && bits == BitLength(|m|)
    requires r + 1 <= 56 ==> z == 0 && i == r + 1
    requires r + 1 > 56 ==> z == BLOCK_SIZE - r - 1 && i == 0
    ensures m + [0x80] + Zeros(z) + Zeros(56 - i) + LengthField(bits) == Pad(m)
  {
    ZeroCountOfCursor(|m|, r);
    ZerosAppend(m + [0x80], z, 56 - i);
  }

  /**
   * A context is a function of the message it has taken in: two valid
   * contexts that took in the same bytes, however those were split into
   * sm3_update calls, agree on the state, the bit count and the live part
   * of the buffer.
   */
  lemma SameMessageSameContext(c1: Context, c2: Context)
    requires c1.Valid() && c2.Valid() && c1.absorbed == c2.absorbed
    ensures c1.state[..] == c2.state[..] && c1.bitlen == c2.bitlen
    ensures c1.Cursor() == c2.Cursor() && c1.buffer[..c1.Cursor()] == c2.buffer[..c2.Cursor()]
  {
    c1.ValidDetermined();
    c2.ValidDetermined();
  }

  /** sm3_hash: init, one update with the whole input, final. */
  method HashBuffer(input: seq<byte>, output: array<byte>)
    requires |input| < MAX_INPUT && output.Length == DIGEST_SIZE
    modifies output
    ensures output[..] == Hash(input)
  {
    var ctx := new Context();
    ctx.Init();
    ctx.Update(input);
    assert ctx.absorbed == input;
    ctx.Final(output);
  }

  /**
   * sm3_hash_string: the digest as text, "%02x" per byte into a 65-char
   * buffer. Each snprintf writes two digits and a NUL after them, which
   * the next one overwrites; the last NUL is written again at index 64.
   * The result is a fresh array where the source returns a static buffer.
   */
  method HashString(input: seq<byte>) returns (text: array<char>)
    requires |input| < MAX_INPUT
    ensures fresh(text) && text.Length == HASH_SIZE
    ensures text[..2 * DIGEST_SIZE] == ToHex(Hash(input)) && text[2 * DIGEST_SIZE] == '\0'
  {
    var digest := new byte[DIGEST_SIZE];
    HashBuffer(input, digest);
    text := new char[HASH_SIZE];
    WriteHex(digest, text);
  }

  /** The conversion loop of sm3_hash_string and its closing `hash_str[SM3_HASH_SIZE - 1] = '\0'`. */
  method WriteHex(digest: array<byte>, text: array<char>)
    requires digest.Length == DIGEST_SIZE && text.Length == HASH_SIZE
    modifies text
    ensures text[..2 * DIGEST_SIZE] == ToHex(digest[..]) && text[2 * DIGEST_SIZE] == '\0'
  {
    for i := 0 to DIGEST_SIZE
      invariant text[..2 * i] == ToHex(digest[..i])
      invariant 0 < i ==> text[2 * i] == '\0'
    {
      WriteByteHex(text, i, digest[i]);
      assert digest[..i + 1][..i] == digest[..i];
    }
    assert digest[..] == digest[..DIGEST_SIZE];
    ghost var hex := text[..2 * DIGEST_SIZE];
    text[HASH_SIZE - 1] := '\0';
    assert text[..2 * DIGEST_SIZE] == hex;
  }

  /** One `snprintf(hash_str + i * 2, 3, "%02x", b)`: two lowercase digits at 2i and 2i + 1, then a NUL. */
  method WriteByteHex(text: array<char>, i: nat, b: byte)
    requires 2 * i + 3 <= text.Length
    modifies text
    ensures text[..2 * i + 2] == old(text[..2 * i]) + ByteHex(b) && text[2 * i + 2] == '\0'
  {
    text[i * 2] := HexDigit(b as int / 16);
    text[i * 2 + 1] := HexDigit(b as int % 16);
    text[i * 2 + 2] := '\0';
  }

  /** The text of sm3_hash_string is 64 lowercase hex digits that read back as the digest. */
  lemma HashStringDecodes(input: seq<byte>, text: seq<char>)
    requires |input| < MAX_INPUT && text == ToHex(Hash(input))
    ensures |text| == 2 * DIGEST_SIZE
    ensures forall k :: 0 <= k < |text| ==> IsHexDigit(text[k])
    ensures FromHex(text) == Hash(input)
  {
    FromHexToHex(Hash(input));
  }

  /** strlen: the number of bytes before the first NUL. */
  function CStringLength(s: seq<byte>): (n: nat)
    requires 0 in s
    ensures n < |s| && s[n] == 0
    ensures forall i :: 0 <= i < n ==> s[i] != 0
  {
    if s[0] == 0 then 0 else 1 + CStringLength(s[1..])
  }

  /** sm3_string_hash: the digest of the bytes before the string's terminator; always returns 0. */
  method StringHash(input: seq<byte>, output: array<byte>) returns (status: int)
    requires 0 in input && CStringLength(input) < MAX_INPUT && output.Length == DIGEST_SIZE
    modifies output
    ensures status == 0 && output[..] == Hash(input[..CStringLength(input)])
  {
    HashBuffer(input[..CStringLength(input)], output);
    status := 0;
  }

  /**
   * A file as sm3_file_hash sees it: fopen fails, or it opens and fread
   * returns these non-empty chunks of at most 4096 bytes, in order, before
   * it returns 0.
   */
  datatype FileSource = Unopenable | Opened(chunks: seq<seq<byte>>)

  /** The bytes of the chunks, in order. */
  function Concat(chunks: seq<seq<byte>>): (bytes: seq<byte>)
  {
    if |chunks| == 0 then [] else Concat(chunks[..|chunks| - 1]) + chunks[|chunks| - 1]
  }

  /** The bytes of a prefix of the chunks are a prefix of all the bytes. */
  lemma {:induction false} ConcatPrefix(chunks: seq<seq<byte>>, k: nat)
    requires k <= |chunks|
    ensures |Concat(chunks[..k])| <= |Concat(chunks)|
    decreases |chunks|
  {
    if k < |chunks| {
      var n := |chunks| - 1;
      ConcatPrefix(chunks[..n], k);
      assert chunks[..n][..k] == chunks[..k];
    } else {
      assert chunks[..k] == chunks;
    }
  }

  /**
   * sm3_file_hash: -1 with the output untouched when the file cannot be
   * opened; otherwise one sm3_update per chunk read, then sm3_final, and
   * 0. The digest is that of the whole contents, as sm3_hash computes it.
   */
  method FileHash(file: FileSource, output: array<byte>) returns (status: int)
    requires output.Length == DIGEST_SIZE
    requires file.Opened? ==> |Concat(file.chunks)| < MAX_INPUT
    requires file.Opened? ==> forall k :: 0 <= k < |file.chunks| ==> 0 < |file.chunks[k]| <= 4096
    modifies output
    ensures file.Unopenable? ==> status == -1 && output[..] == old(output[..])
    ensures file.Opened? ==> status == 0 && output[..] == Hash(Concat(file.chunks))
  {
    if file.Unopenable? {
      return -1;
    }
    var chunks := file.chunks;
    var ctx := new Context();
    ctx.Init();
    for k := 0 to |chunks|
      invariant ctx.Valid() && ctx.absorbed == Concat(chunks[..k])
      invariant fresh(ctx.state) && fresh(ctx.buffer)
    {
      ConcatPrefix(chunks, k + 1);
      assert chunks[..k + 1][..k] == chunks[..k];
      ctx.Update(chunks[k]);
    }
    assert chunks[..|chunks|] == chunks;
    ctx.Final(output);
    status := 0;
  }

  /** One iteration of the output loop of sm3_final: word w becomes bytes 4i..4i+3 of the digest, big-endian. */
  method WriteWord(digest: array<byte>, i: nat, w: word)
    requires 4 * i + 4 <= digest.Length
    modifies digest
    ensures digest[..4 * i + 4] == old(digest[..4 * i]) + WordBytes(w)
  {
    digest[i * 4] := WordByte(w, 0);
    digest[i * 4 + 1] := WordByte(w, 1);
    digest[i * 4 + 2] := WordByte(w, 2);
    digest[i * 4 + 3] := WordByte(w, 3);
  }

  /** Appending the same bytes to two equal concatenations keeps them equal. */
  lemma ExtendBoth(f: seq<byte>, b: seq<byte>, m: seq<byte>, e: seq<byte>)
    requires f + b == m
    ensures f + (b + e) == m + e
  {
    assert f + (b + e) == (f + b) + e;
  }

  /** Two runs of zeros after the same bytes make one run. */
  lemma ZerosAppend(m: seq<byte>, a: nat, b: nat)
    ensures (m + Zeros(a)) + Zeros(b) == m + Zeros(a + b)
  {
    assert Zeros(a) + Zeros(b) == Zeros(a + b);
    assert (m + Zeros(a)) + Zeros(b) == m + (Zeros(a) + Zeros(b));
  }

  /** The cursor of a context that has taken in n bytes is n mod 64. */
  lemma CursorOfLength(n: nat)
    ensures 8 * n / 8 % BLOCK_SIZE == n % BLOCK_SIZE
  {
    assert 8 * n / 8 == n;
  }

  /** A whole number of blocks followed by fewer than 64 bytes leaves those bytes as the remainder. */
  lemma RemainderOfBlocks(f: nat, r: nat)
    requires f % BLOCK_SIZE == 0 && r < BLOCK_SIZE
    ensures (f + r) % BLOCK_SIZE == r
  {
    assert f == BLOCK_SIZE * (f / BLOCK_SIZE);
  }

  /**
   * If f0 + i0 bytes, f0 of them in whole blocks and i0 < 64 waiting, grow
   * by k to f1 + i1 with f1 again whole blocks and i1 < 64, then exactly
   * (i0 + k) / 64 blocks were added.
   */
  lemma CountBlocks(f0: nat, i0: nat, k: nat, f1: nat, i1: nat)
    requires f0 % BLOCK_SIZE == 0 && f1 % BLOCK_SIZE == 0 && i0 < BLOCK_SIZE && i1 < BLOCK_SIZE
    requires f1 + i1 == f0 + i0 + k
    ensures f1 == f0 + BLOCK_SIZE * ((i0 + k) / BLOCK_SIZE)
  {
    var q := (i0 + k) / BLOCK_SIZE;
    assert i0 + k == BLOCK_SIZE * q + (i0 + k) % BLOCK_SIZE;
    assert f1 - f0 == i0 + k - i1;
    assert (f1 - f0) % BLOCK_SIZE == 0 by {
      assert f0 == BLOCK_SIZE * (f0 / BLOCK_SIZE) && f1 == BLOCK_SIZE * (f1 / BLOCK_SIZE);
      assert f1 - f0 == BLOCK_SIZE * (f1 / BLOCK_SIZE - f0 / BLOCK_SIZE);
    }
  }
}
