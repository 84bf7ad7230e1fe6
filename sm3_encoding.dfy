/**
 * Byte order and text form of SM3 values: the big-endian reading of four
 * message bytes as a word (sm3.c, sm3_compress), the big-endian writing
 * of the eight state words as the 32-byte digest (sm3.c, sm3_final), and
 * the lowercase "%02x" hex text of a digest (sm3.c, sm3_hash_string).
 */
module Sm3Encoding {
  import opened Sm3Header

  /** Four bytes read most significant first, as at the start of message expansion. */
  function BigEndianWord(b0: byte, b1: byte, b2: byte, b3: byte): word
  {
    (b0 as word << 24) | (b1 as word << 16) | (b2 as word << 8) | b3 as word
  }

  /** Byte p (0 = most significant) of a word, as `(w >> (24 - 8 * p)) & 0xFF`. */
  function WordByte(w: word, p: nat): byte
    requires p < 4
  {
    if p == 0 then ((w >> 24) & 0xFF) as byte
    else if p == 1 then ((w >> 16) & 0xFF) as byte
    else if p == 2 then ((w >> 8) & 0xFF) as byte
    else (w & 0xFF) as byte
  }

  /** Writing a word's bytes out and reading them back gives the word. */
  lemma WordBytesRoundTrip(w: word)
    ensures BigEndianWord(WordByte(w, 0), WordByte(w, 1), WordByte(w, 2), WordByte(w, 3)) == w
  {
    assert (((w >> 24) & 0xFF) as byte as word << 24) | (((w >> 16) & 0xFF) as byte as word << 16)
      | (((w >> 8) & 0xFF) as byte as word << 8) | (w & 0xFF) as byte as word == w;
  }

  /** Reading four bytes as a word and writing it out gives the most significant byte back first. */
  lemma BigEndianWordByte0(b0: byte, b1: byte, b2: byte, b3: byte)
    ensures WordByte(BigEndianWord(b0, b1, b2, b3), 0) == b0
  {
    var w := (b0 as word << 24) | (b1 as word << 16) | (b2 as word << 8) | b3 as word;
    assert ((w >> 24) & 0xFF) as byte == b0;
  }

  /** The second byte comes back second. */
  lemma BigEndianWordByte1(b0: byte, b1: byte, b2: byte, b3: byte)
    ensures WordByte(BigEndianWord(b0, b1, b2, b3), 1) == b1
  {
    var w := (b0 as word << 24) | (b1 as word << 16) | (b2 as word << 8) | b3 as word;
    assert ((w >> 16) & 0xFF) as byte == b1;
  }

  /** The third byte comes back third. */
  lemma BigEndianWordByte2(b0: byte, b1: byte, b2: byte, b3: byte)
    ensures WordByte(BigEndianWord(b0, b1, b2, b3), 2) == b2
  {
    var w := (b0 as word << 24) | (b1 as word << 16) | (b2 as word << 8) | b3 as word;
    assert ((w >> 8) & 0xFF) as byte == b2;
  }

  /** The least significant byte comes back last. */
  lemma BigEndianWordByte3(b0: byte, b1: byte, b2: byte, b3: byte)
    ensures WordByte(BigEndianWord(b0, b1, b2, b3), 3) == b3
  {
    var w := (b0 as word << 24) | (b1 as word << 16) | (b2 as word << 8) | b3 as word;
    assert (w & 0xFF) as byte == b3;
  }

  /** A word's four bytes, most significant first. */
  function WordBytes(w: word): (bytes: seq<byte>)
    ensures |bytes| == 4
  {
    [WordByte(w, 0), WordByte(w, 1), WordByte(w, 2), WordByte(w, 3)]
  }

  /** State words written out big-endian, word i filling bytes 4i..4i+3. */
  function Serialize(state: seq<word>): (digest: seq<byte>)
    ensures |digest| == 4 * |state|
  {
    if |state| == 0 then [] else Serialize(state[..|state| - 1]) + WordBytes(state[|state| - 1])
  }

  /** A 32-byte digest read back as eight big-endian words. */
  function Deserialize(digest: seq<byte>): (state: seq<word>)
    requires |digest| == DIGEST_SIZE
    ensures |state| == 8
  {
    seq(8, i requires 0 <= i < 8 =>
      BigEndianWord(digest[4 * i], digest[4 * i + 1], digest[4 * i + 2], digest[4 * i + 3]))
  }

  /** Byte 4i + p of the output is byte p of word i. */
  lemma {:induction false} SerializeAt(state: seq<word>, i: nat, p: nat)
    requires i < |state| && p < 4
    ensures Serialize(state)[4 * i + p] == WordByte(state[i], p)
  {
    var n := |state| - 1;
    if i < n {
      SerializeAt(state[..n], i, p);
      assert Serialize(state) == Serialize(state[..n]) + WordBytes(state[n]);
    }
  }

  /** The digest determines the state: reading it back recovers all eight words. */
  lemma DeserializeSerialize(state: seq<word>)
    requires |state| == 8
    ensures Deserialize(Serialize(state)) == state
  {
    var d := Serialize(state);
    forall i | 0 <= i < 8
      ensures Deserialize(d)[i] == state[i]
    {
      SerializeAt(state, i, 0);
      SerializeAt(state, i, 1);
      SerializeAt(state, i, 2);
      SerializeAt(state, i, 3);
      WordBytesRoundTrip(state[i]);
    }
  }

  /** Every 32-byte string is the serialization of the words it reads as. */
  lemma SerializeDeserialize(digest: seq<byte>)
    requires |digest| == DIGEST_SIZE
    ensures Serialize(Deserialize(digest)) == digest
  {
    var st := Deserialize(digest);
    forall k | 0 <= k < 32
      ensures Serialize(st)[k] == digest[k]
    {
      var i := k / 4;
      SerializeAt(st, i, k % 4);
      assert k == 4 * i + k % 4;
      assert st[i] == BigEndianWord(digest[4 * i], digest[4 * i + 1], digest[4 * i + 2], digest[4 * i + 3]);
      if k % 4 == 0 {
        BigEndianWordByte0(digest[4 * i], digest[4 * i + 1], digest[4 * i + 2], digest[4 * i + 3]);
      } else if k % 4 == 1 {
        BigEndianWordByte1(digest[4 * i], digest[4 * i + 1], digest[4 * i + 2], digest[4 * i + 3]);
      } else if k % 4 == 2 {
        BigEndianWordByte2(digest[4 * i], digest[4 * i + 1], digest[4 * i + 2], digest[4 * i + 3]);
      } else {
        BigEndianWordByte3(digest[4 * i], digest[4 * i + 1], digest[4 * i + 2], digest[4 * i + 3]);
      }
    }
  }

  /** The digits "%02x" prints, in order of value: lowercase. */
  const HEX_DIGITS: seq<char> := "0123456789abcdef"

  /** A character "%02x" can print. */
  predicate IsHexDigit(c: char)
  {
    '0' <= c <= '9' || 'a' <= c <= 'f'
  }

  /** The digit of a nibble value 0..15: '0'..'9', then 'a'..'f'. */
  function HexDigit(n: nat): (c: char)
    requires n < 16
    ensures IsHexDigit(c)
  {
    if n < 10 then ('0' as int + n) as char else ('a' as int + n - 10) as char
  }

  /** The digits are exactly the lowercase table, in order of value. */
  lemma HexDigitsTable()
    ensures |HEX_DIGITS| == 16
    ensures forall n :: 0 <= n < 16 ==> HexDigit(n) == HEX_DIGITS[n]
    ensures forall k :: 0 <= k < 16 ==> IsHexDigit(HEX_DIGITS[k])
  {
  }

  /** The value of a lowercase hex digit. */
  function HexValue(c: char): (n: nat)
    requires IsHexDigit(c)
    ensures n < 16 && HexDigit(n) == c
  {
    if '0' <= c <= '9' then c as int - '0' as int else c as int - 'a' as int + 10
  }

  /** Reading a digit back gives its value. */
  lemma HexValueDigit(n: nat)
    requires n < 16
    ensures HexValue(HexDigit(n)) == n
  {
  }

  /** "%02x" of one byte: the digit of the high nibble, then that of the low nibble. */
  function ByteHex(b: byte): (s: seq<char>)
  {
    [HexDigit(b as int / 16), HexDigit(b as int % 16)]
  }

  /** The hex text of a byte string: two digits per byte, in byte order. */
  function ToHex(bytes: seq<byte>): (text: seq<char>)
    ensures |text| == 2 * |bytes|
  {
    if |bytes| == 0 then [] else ToHex(bytes[..|bytes| - 1]) + ByteHex(bytes[|bytes| - 1])
  }

  /** Two hex digits, most significant first, as a byte. */
  function HexPairValue(hi: char, lo: char): byte
    requires IsHexDigit(hi) && IsHexDigit(lo)
  {
    (16 * HexValue(hi) + HexValue(lo)) as byte
  }

  /** A hex text of even length read back as bytes. */
  function FromHex(text: seq<char>): (bytes: seq<byte>)
    requires |text| % 2 == 0
    requires forall k :: 0 <= k < |text| ==> IsHexDigit(text[k])
    ensures |bytes| == |text| / 2
  {
    seq(|text| / 2, i requires 0 <= i < |text| / 2 => HexPairValue(text[2 * i], text[2 * i + 1]))
  }

  /** The two nibbles of a byte put back together give the byte. */
  lemma NibblesRecombine(b: byte)
    ensures (16 * (b as int / 16) + b as int % 16) as byte == b
  {
    assert 16 * (b as int / 16) + b as int % 16 == b as int;
  }

  /** Byte i of the input is spelled by characters 2i and 2i + 1 of its hex text. */
  lemma {:induction false} ToHexAt(bytes: seq<byte>, i: nat)
    requires i < |bytes|
    ensures ToHex(bytes)[2 * i] == HexDigit(bytes[i] as int / 16)
    ensures ToHex(bytes)[2 * i + 1] == HexDigit(bytes[i] as int % 16)
  {
    var n := |bytes| - 1;
    if i < n {
      ToHexAt(bytes[..n], i);
      assert ToHex(bytes) == ToHex(bytes[..n]) + ByteHex(bytes[n]);
    }
  }

  /** Every character of a hex text is a lowercase hex digit. */
  lemma ToHexLowercase(bytes: seq<byte>)
    ensures forall k :: 0 <= k < |ToHex(bytes)| ==> IsHexDigit(ToHex(bytes)[k])
  {
    forall k | 0 <= k < |ToHex(bytes)|
      ensures IsHexDigit(ToHex(bytes)[k])
    {
      ToHexAt(bytes, k / 2);
    }
  }

  /** The two digits of a byte read back as a pair give the byte. */
  lemma ByteHexRoundTrip(b: byte)
    ensures HexPairValue(HexDigit(b as int / 16), HexDigit(b as int % 16)) == b
  {
    var hi, lo := b as int / 16, b as int % 16;
    HexValueDigit(hi);
    HexValueDigit(lo);
    assert HexPairValue(HexDigit(hi), HexDigit(lo)) == (16 * hi + lo) as byte;
    NibblesRecombine(b);
  }

  /** The hex text loses nothing: reading it back gives the bytes. */
  lemma FromHexToHex(bytes: seq<byte>)
    ensures forall k :: 0 <= k < |ToHex(bytes)| ==> IsHexDigit(ToHex(bytes)[k])
    ensures FromHex(ToHex(bytes)) == bytes
  {
    ToHexLowercase(bytes);
    var text := ToHex(bytes);
    var back := FromHex(text);
    forall i | 0 <= i < |bytes|
      ensures back[i] == bytes[i]
    {
      ToHexAt(bytes, i);
      assert back[i] == HexPairValue(text[2 * i], text[2 * i + 1]);
      ByteHexRoundTrip(bytes[i]);
    }
  }
}
