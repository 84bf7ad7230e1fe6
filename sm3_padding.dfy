/**
 * Message padding (section 5.2 of GM/T 0004-2012): a 1 bit (the byte
 * 0x80), as many 0 bits as bring the length to 448 mod 512, and the
 * message length in bits as a 64-bit big-endian integer. This is the
 * transform that sm3_padding in sm3.cpp performs on a whole buffer and
 * that sm3_final in sm3.c performs on the last buffered block.
 */
module Sm3Padding {
  import opened Sm3Header

  /**
   * Byte i (0 = most significant) of the 64-bit bit length, as
   * `(bit_len >> ((7 - i) * 8)) & 0xFF`, with the eight shift amounts
   * 56, 48, ..., 0 written out.
   */
  function LengthByte(bits: bv64, i: nat): byte
    requires i < 8
  {
    var shifted :=
      if i == 0 then bits >> 56 else if i == 1 then bits >> 48
      else if i == 2 then bits >> 40 else if i == 3 then bits >> 32
      else if i == 4 then bits >> 24 else if i == 5 then bits >> 16
      else if i == 6 then bits >> 8 else bits;
    (shifted & 0xFF) as byte
  }

  /** The eight length bytes, most significant first. */
  function LengthField(bits: bv64): (field: seq<byte>)
    ensures |field| == 8
  {
    seq(8, i requires 0 <= i < 8 => LengthByte(bits, i))
  }

  /** Eight bytes read back as a big-endian 64-bit value. */
  function DecodeLength(field: seq<byte>): bv64
    requires |field| == 8
  {
    (field[0] as bv64 << 56) | (field[1] as bv64 << 48) | (field[2] as bv64 << 40)
    | (field[3] as bv64 << 32) | (field[4] as bv64 << 24) | (field[5] as bv64 << 16)
    | (field[6] as bv64 << 8) | field[7] as bv64
  }

  /** The length field holds the bit length exactly: reading it back gives the length. */
  lemma DecodeLengthField(bits: bv64)
    ensures DecodeLength(LengthField(bits)) == bits
  {
    var b := bits;
    assert (((b >> 56) & 0xFF) as byte as bv64 << 56) | (((b >> 48) & 0xFF) as byte as bv64 << 48)
      | (((b >> 40) & 0xFF) as byte as bv64 << 40) | (((b >> 32) & 0xFF) as byte as bv64 << 32)
      | (((b >> 24) & 0xFF) as byte as bv64 << 24) | (((b >> 16) & 0xFF) as byte as bv64 << 16)
      | (((b >> 8) & 0xFF) as byte as bv64 << 8) | (b & 0xFF) as byte as bv64 == b;
  }

  /**
   * How many zero bytes follow the 0x80 marker, for a message of n bytes:
   * with r = n mod 64, the marker lands at r, and the zeros run up to
   * byte 56 of the same block when r < 56, else up to byte 56 of the next.
   */
  function ZeroCount(n: nat): nat
  {
    if n % 64 < 56 then 55 - n % 64 else 119 - n % 64
  }

  /** A run of k zero bytes. */
  function Zeros(k: nat): (z: seq<byte>)
    ensures |z| == k
    ensures forall i :: 0 <= i < k ==> z[i] == 0
  {
    seq(k, _ => 0)
  }

  /** The bit length of an n-byte message as the 64-bit `len * 8`. */
  function BitLength(n: nat): bv64
    requires n < MAX_INPUT
  {
    (8 * n) as bv64
  }

  /** The padded message. */
  function Pad(m: seq<byte>): (p: seq<byte>)
    requires |m| < MAX_INPUT
  {
    m + [0x80] + Zeros(ZeroCount(|m|)) + LengthField(BitLength(|m|))
  }

  /** The padded message is the message, the marker, the zeros and eight length bytes. */
  lemma PadSize(m: seq<byte>)
    requires |m| < MAX_INPUT
    ensures |Pad(m)| == |m| + 1 + ZeroCount(|m|) + 8
  {
  }

  /**
   * For a message of n bytes, n + 9 + ZeroCount(n) is the smallest
   * multiple of 64 that is at least n + 9, which is the rounding up
   * `((n + 9 + 63) / 64) * 64`.
   */
  lemma PaddedLengthArithmetic(n: nat)
    ensures (n + 9 + ZeroCount(n)) % BLOCK_SIZE == 0
    ensures n + 9 <= n + 9 + ZeroCount(n) < n + 9 + BLOCK_SIZE
    ensures n + 9 + ZeroCount(n) == ((n + 9 + BLOCK_SIZE - 1) / BLOCK_SIZE) * BLOCK_SIZE
  {
    var q, r := n / 64, n % 64;
    assert n == 64 * q + r;
    if r < 56 {
      assert n + 9 + ZeroCount(n) == 64 * (q + 1);
      assert (n + 72) / 64 == q + 1;
    } else {
      assert n + 9 + ZeroCount(n) == 64 * (q + 2);
      assert (n + 72) / 64 == q + 2;
    }
  }

  /**
   * The padded length is the smallest multiple of the block size that has
   * room for the message, the marker and the length field, and it is the
   * value `((len + 9 + 63) / 64) * 64` that sm3_padding allocates.
   */
  lemma PadLength(m: seq<byte>)
    requires |m| < MAX_INPUT
    ensures |Pad(m)| % BLOCK_SIZE == 0
    ensures |m| + 9 <= |Pad(m)| < |m| + 9 + BLOCK_SIZE
    ensures |Pad(m)| == ((|m| + 9 + BLOCK_SIZE - 1) / BLOCK_SIZE) * BLOCK_SIZE
  {
    PadSize(m);
    PaddedLengthArithmetic(|m|);
  }

  /** The worked lengths: 0 and 55 bytes pad to one block, 56, 57 and 64 bytes to two. */
  lemma PadLengthExamples(m: seq<byte>)
    requires |m| in {0, 55, 56, 57, 64}
    ensures |m| <= 55 ==> |Pad(m)| == 64
    ensures |m| >= 56 ==> |Pad(m)| == 128
  {
    PadSize(m);
  }

  /** The empty message pads to one block: the marker and 63 zero bytes, the length field being all zero. */
  lemma EmptyPad()
    ensures Pad([]) == [0x80] + Zeros(63)
  {
    var p := Pad([]);
    assert LengthField(BitLength(0)) == Zeros(8);
    assert p == [0x80] + (Zeros(55) + Zeros(8));
    assert Zeros(55) + Zeros(8) == Zeros(63);
  }

  /**
   * The padded message starts with the message, has 0x80 right after it,
   * zeros up to the last eight bytes, and ends with the length field.
   */
  lemma PadContents(m: seq<byte>)
    requires |m| < MAX_INPUT
    ensures Pad(m)[..|m|] == m
    ensures Pad(m)[|m|] == 0x80
    ensures forall i :: |m| < i < |Pad(m)| - 8 ==> Pad(m)[i] == 0
    ensures Pad(m)[|Pad(m)| - 8..] == LengthField(BitLength(|m|))
  {
    var p := Pad(m);
    var z := ZeroCount(|m|);
    assert p[|m| + 1 + z..] == LengthField(BitLength(|m|));
    forall i | |m| < i < |p| - 8
      ensures p[i] == 0
    {
      assert p[i] == Zeros(z)[i - |m| - 1];
    }
  }

  /** The message with its trailing zero bytes removed. */
  function TrimZeros(s: seq<byte>): (t: seq<byte>)
    ensures |t| <= |s| && t == s[..|t|]
    ensures |t| > 0 ==> t[|t| - 1] != 0
  {
    if |s| == 0 || s[|s| - 1] != 0 then s else TrimZeros(s[..|s| - 1])
  }

  /**
   * Recovers a message from its padding: drop the length field, then the
   * zeros, then the marker. None when the input is not a padded message.
   */
  function Unpad(p: seq<byte>): (m: Option<seq<byte>>)
  {
    if |p| < 9 then None
    else
      var body := TrimZeros(p[..|p| - 8]);
      if |body| == 0 || body[|body| - 1] != 0x80 then None
      else Some(body[..|body| - 1])
  }

  /** Trailing zeros come off a sequence that ends in a nonzero byte followed by zeros. */
  lemma {:induction false} TrimZerosAfterMarker(s: seq<byte>, k: nat)
    requires |s| > 0 && s[|s| - 1] != 0
    ensures TrimZeros(s + Zeros(k)) == s
  {
    if k > 0 {
      assert (s + Zeros(k))[..|s| + k - 1] == s + Zeros(k - 1);
      TrimZerosAfterMarker(s, k - 1);
    } else {
      assert s + Zeros(0) == s;
    }
  }

  /** Padding is reversible, so different messages never pad alike. */
  lemma UnpadPad(m: seq<byte>)
    requires |m| < MAX_INPUT
    ensures Unpad(Pad(m)) == Some(m)
  {
    var p := Pad(m);
    var marked := m + [0x80];
    assert p[..|p| - 8] == marked + Zeros(ZeroCount(|m|));
    TrimZerosAfterMarker(marked, ZeroCount(|m|));
    assert marked[..|m|] == m;
  }

  /** Optional values. */
  datatype Option<T> = None | Some(value: T)
}
