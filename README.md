# SM3 in Dafny

A Dafny model of a C implementation of the SM3 cryptographic hash
(GM/T 0004-2012), with proofs. The repository has two implementations
that share the header sm3.h:

- **sm3.c** is the streaming library:
  - the constants `SM3_IV` and `SM3_T`, and the word functions `ff`, `gg`, `p0` and `p1`;
  - the `SM3_CTX` context with `sm3_init`, `sm3_compress`, `sm3_update` and `sm3_final`;
  - the one-shot drivers `sm3_hash`, `sm3_hash_string` and `sm3_string_hash`, and the read loop of `sm3_file_hash`.
- **sm3.cpp** keeps its own copies of the constants and word functions. It adds the whole-buffer `sm3_padding` and a stand-alone `message_expansion`.

The model starts from a functional statement of the standard, in `Sm3Spec`
and `Sm3Padding`:

- `Pad(m)` is the padded message.
- `ExpandW` and `ExpandW1` are the expanded words of a block.
- `Round` and `Rounds` give the 64-round register update.
- `CF(V, B)` is the compression function, including the feed-forward.
- `Iterate(V, m)` iterates CF over the blocks of m.
- `Hash(m) = Serialize(Iterate(IV, Pad(m)))` is the digest.

The C code is then modelled in its own form and proved against those functions:

- `SM3_CTX` is the class `Sm3.Context`. It has the 8-word `state` array, the bit counter `bitlen` and the 64-byte `buffer` array. Like the C struct, it stores no cursor: `Cursor()` is always `bitlen / 8 % 64`.
- The class has two ghost fields. `absorbed` is the message taken in so far. `fed` is every byte handed to `sm3_compress`, in order.
- The invariant `Valid()` says three things:
  - `bitlen` is 8 times the length of `absorbed`;
  - `absorbed` is `fed` (whole blocks) followed by the buffer's first `Cursor()` bytes;
  - `state` is CF iterated over `fed` from the IV.
- The main theorem is the contract of `Sm3.Context.Final`. When `sm3_final` is done, `fed == Pad(absorbed)` holds and the digest is `Hash(absorbed)`.
- The three expansion loops are modelled once, in `Sm3Expansion`. Both `sm3_compress` and `message_expansion` use that model, so the two files are proved to expand alike.
- `sm3_padding` is proved to build exactly `Pad(m)`. `Sm3Cpp.PaddingMatchesFinal` runs `sm3_final` on a context that has absorbed a message and `sm3_padding` on the same message. It proves that the bytes sm3.c compresses, in order, are sm3.cpp's padded buffer.

Modules and files:

| file | module | covers |
|---|---|---|
| sm3_header.dfy | Sm3Header | sm3.h: byte and word types, the sizes, `ROTLEFT` |
| sm3_primitives.dfy | Sm3Primitives | sm3.c: `SM3_IV`, `SM3_T`, `ff`, `gg`, `p0`, `p1` |
| sm3_encoding.dfy | Sm3Encoding | big-endian words, the digest bytes, `%02x` hex text |
| sm3_padding.dfy | Sm3Padding | the padding rule as a function, and its inverse |
| sm3_spec.dfy | Sm3Spec | expansion, rounds, CF, iteration, `Hash` |
| sm3_expansion.dfy | Sm3Expansion | the three expansion loops, shared by both files |
| sm3_context.dfy | Sm3 | `SM3_CTX` and the sm3.c operations and drivers |
| sm3_cpp_primitives.dfy | Sm3CppPrimitives | sm3.cpp: `T`, `IV`, `FF`, `GG` |
| sm3_cpp.dfy | Sm3Cpp | sm3.cpp: `sm3_padding`, `message_expansion` |

Modelling choices:

- **Rotation.** `ROTLEFT` and `ROL` become `Rotl(x, n)`, whose amount `n` is a 5-bit value, so every amount is taken mod 32. sm3.c calls `ROTLEFT(SM3_T[j], j)` with j up to 63. The call is modelled as a rotation by `j mod 32` (`RoundAmount`), which is the standard's rotation.
- **Shared definitions.** sm3.cpp's `P0`, `P1` and `ROL` are written exactly as sm3.c's `p0`, `p1` and `ROTLEFT`, so the model uses one definition of each.
- **The boolean functions.** sm3.cpp's `FF` and `GG` test only `j < 16`, whereas sm3.c tests `0 <= j <= 15`. So they get their own definitions, and agreement is proved for j in 0..63.
- **The round updates.** The source writes the eight registers one after another, in the order D, C, B, A, H, G, F, E. Each is written from registers not yet overwritten. `CompressRounds` writes them in that order, and its invariant ties them to `Round`, which computes all eight from the old values. The eight feed-forward `^=` statements are a single simultaneous `forall` update, which is equivalent because each writes a different word.
- **Byte order.** The length field is written with the source's shift amounts, `bitlen >> (56 - 8i)`. The digest bytes are written as `(state[i] >> 24) & 0xFF` and so on.
- **Pointers and allocation.** The C pointers `input`, `output` and `out_len` of `sm3_padding` are modelled as follows:
  - the input is a nullable array;
  - the two out pointers are flags that say whether they are NULL;
  - whether `malloc` succeeds is a parameter;
  - the result is a `PaddingResult`, which holds nothing, an allocation failure, or the new buffer.
- **Files.** A file for `sm3_file_hash` is `Unopenable`, or the sequence of chunks `fread` returns.
- **Following the code.** The model does what the code does:
  - `SM3_CTX` keeps no cursor field, and the cursor is recomputed from `bitlen`;
  - `sm3_final` does not reset the context;
  - `sm3_hash_string` hashes the input message;
  - `sm3_file_hash` returns -1 only when `fopen` fails, and a read error ends the read loop like the end of the file.

## Model

| member | source | states |
|---|---|---|
| Sm3Header.RotlBit | sm3.h:21 | Bit i of the rotated word is bit (i - n) mod 32 of the input, so the rotation is a left rotation that loses no bit. |
| Sm3Header.RotlZero | sm3.h:21 | A rotation by 0, as in round 0 of `ROTLEFT(SM3_T[j], j)`, leaves the word unchanged. |
| Sm3Primitives.TableShape | sm3.c:21-38 | `SM3_T` has 64 entries: 0x79cc4519 for rounds 0..15 and 0x7a879d8a for rounds 16..63. |
| Sm3Primitives.RoundAmountPeriodic | sm3.c:169 | The constant of round j is rotated by j mod 32, so rounds j and j + 32 rotate alike, and rounds 0 and 32 do not rotate. |
| Sm3Primitives.EarlyRoundsXor | sm3.c:51-74 | In rounds 0..15 both `ff` and `gg` are the XOR of their three inputs. |
| Sm3Primitives.LateRoundsMajority | sm3.c:51-56 | In rounds 16..63 `ff` is the bitwise majority, equal to its XOR-of-conjunctions form. |
| Sm3Primitives.LateRoundsChoice | sm3.c:69-74 | In rounds 16..63 `gg` is the bitwise choice "where x, take y, else z", equal to `z ^ (x & (y ^ z))`. |
| Sm3Primitives.MajoritySymmetric | sm3.c:55 | The majority of rounds 16..63 does not depend on the order of its inputs. |
| Sm3Primitives.ChoiceSelects | sm3.c:73 | The choice takes all of y when x is all ones and all of z when x is zero. |
| Sm3Primitives.ChoiceBit | sm3.c:73 | At every bit position i, the choice has y's bit where x has a 1 and z's bit where x has a 0. |
| Sm3Primitives.P0Bit | sm3.c:85-87 | Bit i of `p0(x)` is the XOR of bits i, i - 9 and i - 17 of x, indices mod 32, for every word and bit position. sm3.cpp's `P0` (sm3.cpp:51-53) is the same function. |
| Sm3Primitives.P1Bit | sm3.c:98-100 | Bit i of `p1(x)` is the XOR of bits i, i - 15 and i - 23 of x, indices mod 32, for every word and bit position. sm3.cpp's `P1` (sm3.cpp:56-58) is the same function. |
| Sm3Encoding.WordBytesRoundTrip | sm3.c:275-278 | Reading a word's four output bytes back big-endian, as the expansion reads a block, gives the word. |
| Sm3Encoding.SerializeAt | sm3.c:274-279 | Digest byte 4i + p is byte p of state word i, most significant first. |
| Sm3Encoding.DeserializeSerialize | sm3.c:274-279 | The digest determines the final state: reading its 32 bytes back as words gives all eight words. |
| Sm3Encoding.SerializeDeserialize | sm3.c:274-279 | Every 32-byte string is the digest of exactly the state it reads as, so the digest encoding is a bijection. |
| Sm3Encoding.HexDigitsTable | sm3.c:317 | The digits `%02x` prints are "0123456789abcdef", in order of value, all lowercase. |
| Sm3Encoding.HexValue | sm3.c:317 | The value of a lowercase hex digit is below 16, and the digit of that value is the digit itself. |
| Sm3Encoding.ToHexAt | sm3.c:316-318 | Characters 2i and 2i + 1 of the text are the digits of byte i's high and low nibble. |
| Sm3Encoding.ToHexLowercase | sm3.c:316-318 | Every character of the hex text is a lowercase hex digit. |
| Sm3Encoding.FromHexToHex | sm3.c:316-318 | The hex text loses nothing: decoding it gives back the bytes. |
| Sm3Padding.DecodeLengthField | sm3.c:262-264 | The eight length bytes, read back big-endian, are the 64-bit bit count. |
| Sm3Padding.PadLength | sm3.cpp:79-82 | The padded length is a multiple of 64, at least len + 9 and below len + 73, and equals `((len + 9 + 63) / 64) * 64`. |
| Sm3Padding.PadLengthExamples | sm3.cpp:79-82 | Messages of 0 and 55 bytes pad to 64 bytes, and messages of 56, 57 and 64 bytes pad to 128. |
| Sm3Padding.EmptyPad | sm3.cpp:72-103 | The empty message pads to one block: 0x80 and 63 zero bytes. |
| Sm3Padding.PadContents | sm3.cpp:93-102 | The padded message starts with the message and has 0x80 right after it. The bytes after that are zero up to the last eight, which are the bit length, big-endian. |
| Sm3Padding.UnpadPad | sm3.cpp:72-103 | Padding is reversible (`Unpad(Pad(m)) == Some(m)`), so two different messages never pad to the same bytes. |
| Sm3Spec.ExpandWLoad | sm3.c:135-141 | W[j] for j < 16 is block bytes 4j..4j+3 read big-endian. |
| Sm3Spec.ExpandWStep | sm3.c:144-147 | W[j] for 16 <= j < 68 is `P1(W[j-16] ^ W[j-9] ^ (W[j-3] <<< 15)) ^ (W[j-13] <<< 7) ^ W[j-6]`. |
| Sm3Spec.ExpandWPrefix | sm3.c:137-140 | Writing W[0..15] out big-endian recovers the block's bytes. |
| Sm3Spec.RoundShifts | sm3.c:178-185 | In each round, B, C, D take the old A, B <<< 9 and C, and F, G, H take the old E, F <<< 19 and G. |
| Sm3Spec.RoundsPipeline | sm3.c:167-186 | A value in A reaches D three rounds later, rotated by 9. A value in E reaches H three rounds later, rotated by 19. |
| Sm3Spec.IterateBlock | sm3.c:223-226 | Compressing one more full block into the chaining value of m gives the chaining value of m and the block. |
| Sm3Spec.IterateConcat | sm3.c:219-227 | Merkle–Damgård chaining: iterating CF over a + b is iterating over b from the value reached after a. |
| Sm3Spec.Hash | sm3.h:55-63 | The digest is 32 bytes for every message below 2^61 bytes. |
| Sm3Spec.HashWords | sm3.c:274-279 | The digest read back as words is the state after the last compression of the padded message. |
| Sm3Expansion.LoadWords | sm3.c:135-141 | The first loop fills W[0..15] with the block's big-endian words. |
| Sm3Expansion.ExtendWords | sm3.c:144-147 | The second loop fills W[16..67] with the expansion recurrence applied to W[0..15]. |
| Sm3Expansion.DeriveW1 | sm3.c:150-152 | The third loop sets W1[j] to `W[j] ^ W[j + 4]` for every j in 0..63. |
| Sm3Expansion.Expand | sm3.c:135-152 | After the three loops, W and W1 are the standard's W and W' of the block. |
| Sm3.Context.Cursor | sm3.c:213 | The cursor `bitlen / 8 % 64` always lies in [0, 64). |
| Sm3.Context.constructor | sm3.h:28-32 | The context has exactly 8 state words and a 64-byte buffer. |
| Sm3.Context.Init | sm3.c:109-113 | The state is the eight IV words, `bitlen` is 0, and all 64 buffer bytes are zero. The context is valid and has taken in nothing. |
| Sm3.Context.ValidDetermined | sm3.c:211-228 | The state is CF iterated over the whole blocks of the message so far, and the live buffer prefix is the `len % 64` bytes that follow them. |
| Sm3.Context.Update | sm3.c:211-228 | `bitlen` grows by 8 * len and the message grows by the data. Exactly floor((cursor + len) / 64) blocks are compressed, and the context stays valid. A zero-length update changes nothing. |
| Sm3.Context.AbsorbAll | sm3.c:219-227 | The byte loop takes every byte in order and compresses floor((idx + len) / 64) blocks. |
| Sm3.Context.Absorb | sm3.c:220-226 | One byte goes into the buffer at the cursor. The buffer is compressed and the cursor reset exactly when the byte fills the block. |
| Sm3.Context.Final | sm3.c:239-280 | Everything compressed, in order, is exactly `Pad(message)`, and the digest written is `Hash(message)`. |
| Sm3.Context.PadFinal | sm3.c:240-269 | After the padding steps of `sm3_final`, the blocks compressed are exactly the padded message. |
| Sm3.Context.PutMarker | sm3.c:245 | 0x80 is written at the cursor and the cursor advances by one. |
| Sm3.Context.MakeRoomForLength | sm3.c:248-254 | If the cursor is past 56 after the marker, the block is zero-filled and compressed, and the cursor returns to 0. Otherwise nothing changes. |
| Sm3.Context.LastBlock | sm3.c:257-269 | The last block is zeros up to byte 56, then the bit count, and is compressed. |
| Sm3.Context.ZeroFill | sm3.c:257-258 | The bytes from the cursor to the bound become zero, and the bytes before it are kept. |
| Sm3.Context.WriteLength | sm3.c:262-264 | Buffer bytes 56..63 become the 64-bit bit count, most significant first, and bytes 0..55 are kept. |
| Sm3.Context.WriteDigest | sm3.c:274-279 | The digest is the state written out big-endian, word by word. |
| Sm3.Context.CompressBuffer | sm3.c:224 | Compressing the full buffer extends the record of compressed bytes by that block and keeps the state equal to CF iterated over it. |
| Sm3.Context.Compress | sm3.c:126-199 | The new state is `CF(old state, block)`. Only `state` changes, so `bitlen` and `buffer` are untouched. |
| Sm3.Context.CompressExpanded | sm3.c:157-198 | The new state is the old state XORed with the registers after 64 rounds over W and W1. |
| Sm3.Context.FeedForwardState | sm3.c:191-198 | The new `state[i]` is the old `state[i]` XOR register i, for A..H. |
| Sm3.CompressRounds | sm3.c:157-186 | The sequential register writes of the 64 rounds give exactly the registers of 64 simultaneous `Round` updates from the loaded state. |
| Sm3.PadAssembly | sm3.c:245-264 | In both cases of the `idx > 56` branch, the marker, the zeros and the length field form exactly the padding of the message. |
| Sm3.SameMessageSameContext | sm3.c:213-227 | Chunking invariance: two valid contexts that took in the same bytes, split into any update calls, have the same state, `bitlen`, cursor and live buffer prefix. |
| Sm3.HashBuffer | sm3.c:291-296 | Init, one update and final write `Hash(input)`. |
| Sm3.HashString | sm3.c:307-322 | The 65-char text holds the 64 hex digits of `Hash(input)` and then a NUL. |
| Sm3.WriteHex | sm3.c:316-319 | The conversion loop leaves the digest's hex text in characters 0..63 and a NUL at index 64. |
| Sm3.WriteByteHex | sm3.c:317 | One `snprintf` writes a byte's two digits at 2i and 2i + 1, keeps the text before them, and writes a NUL after them. |
| Sm3.HashStringDecodes | sm3.c:307-322 | The hex text is 64 lowercase hex digits that decode to the digest. |
| Sm3.CStringLength | sm3.c:390 | `strlen` is the index of the first NUL: that byte is 0 and no byte before it is. |
| Sm3.StringHash | sm3.c:388-392 | The result is 0, and the output is the digest of the bytes before the terminator. |
| Sm3.FileHash | sm3.c:348-377 | An unopenable file gives -1 and leaves the output untouched. Otherwise the result is 0 and the output is `Hash` of the concatenated chunks, the same digest `sm3_hash` gives for those bytes. |
| Sm3.WriteWord | sm3.c:275-278 | One output step writes word i as digest bytes 4i..4i+3, big-endian, and keeps the bytes before them. |
| Sm3CppPrimitives.TablesAgree | sm3.cpp:13-36 | sm3.cpp's `T` and `IV` are the same 64 round constants and 8 initial words as sm3.c's. |
| Sm3CppPrimitives.RowsAgree | sm3.cpp:13-30 | sm3.cpp's `T` is 0x79CC4519 for rounds 0..15 and 0x7A879D8A for rounds 16..63. |
| Sm3CppPrimitives.FunctionsAgree | sm3.cpp:41-48 | sm3.cpp's `FF` and `GG` equal sm3.c's `ff` and `gg` for every round index 0..63. |
| Sm3CppPrimitives.NegativeRoundsDiffer | sm3.cpp:41-48 | Below 0 the two guards differ, for all inputs: sm3.cpp's `FF` and `GG` take the XOR, while sm3.c's `ff` and `gg` take the majority and the choice. |
| Sm3CppPrimitives.NegativeRoundDiffers | sm3.cpp:41-43 | One input where the difference shows: at j = -1, sm3.cpp's `FF(1, 1, 0)` is 0 and sm3.c's `ff` is 1. |
| Sm3CppPrimitives.HighRoundsAgree | sm3.cpp:41-48 | From 64 on both guards fail, so both files take the majority and the choice, and they agree again. |
| Sm3Cpp.Padding | sm3.cpp:72-103 | A NULL argument leaves everything untouched, and a failed allocation reports failure. Otherwise the new buffer is exactly `Pad(input[..len])`. |
| Sm3Cpp.Assemble | sm3.cpp:93-102 | The allocated buffer holds the message at the front, 0x80 after it, zeros, and then the length field. |
| Sm3Cpp.WriteBitLength | sm3.cpp:100-102 | The last 8 bytes become `len * 8`, big-endian, and the bytes before them are kept. |
| Sm3Cpp.PaddingIsPad | sm3.cpp:93-102 | A buffer of the padded length with those four parts is the padded message. |
| Sm3Cpp.MessageExpansion | sm3.cpp:111-132 | A NULL argument leaves W and W1 untouched. Otherwise W and W1 become the same words as sm3.c's inlined expansion. |
| Sm3Cpp.PaddingMatchesFinal | sm3.cpp:72-103 | For a context that has absorbed the message through any sequence of updates, `sm3_final` compresses, in order, exactly the buffer `sm3_padding` builds for that message, which is `Pad` of it. The final state is CF chained over that buffer and the digest is `Hash` of the message. |

## Left out

- `print_hash`, the `fprintf(stderr, …)` message `sm3_padding` prints when `malloc` fails, and the `fopen`/`fopen_s`/`fread`/`fclose` calls of `sm3_file_hash`: I/O. A file is modelled as what `fread` returns. The 4096-byte chunk size is a precondition on the chunks.
- `malloc`: allocation is a boolean parameter of `Sm3Cpp.Padding`. The heap pointer and the caller's `free` are not modelled.
- Sm3Header.Rotl: does not model the C undefined behaviour of `ROTLEFT`/`ROL` at amounts 0 and 32..63. Amounts are taken mod 32, which is the rotation the standard means.
- Sm3.Context.Update: requires the total message to stay below 2^61 bytes. So the wrap-around of `len * 8` in `size_t` and of the 64-bit `bitlen` is not modelled.
- Sm3Cpp.Padding: requires `len` below 2^61 for the same reason, so the `size_t` product `len * 8` never wraps.
- Sm3.HashString: returns a fresh array, where the source returns a pointer to one static buffer shared by every call. The overwriting of an earlier result is therefore not modelled.
- Aliasing between arguments, such as an output digest that overlaps the input, is not modelled: every array argument is a separate array.
- `memset`, `memcpy` and the state copy of `sm3_init` are modelled as whole-array `forall` updates, not byte loops.
- The test vector SM3("abc") = 66c7f0f4...8f4ba8e0 of Appendix A of GM/T 0004-2012 is not proved. Evaluating 64 rounds on 32-bit words in the verifier is too expensive for this model.
- `p0` and `p1` are characterised bit by bit (`P0Bit`, `P1Bit`). That they are invertible is not proved.
- Collision resistance and length sensitivity are not modelled. Only the padding is proved injective (`UnpadPad`) and the digest encoding bijective (`SerializeDeserialize`).
- test_performance.c (timing, random data, reports) is not part of this model.
