# MD5 engine of `md5.py`, modelled and verified in Dafny

This project models the MD5 engine of `md5.py`. It covers class `MD5` and its factories `new` and `md5`. The class implements RFC 1321 on Python strings of '0'/'1' characters and on Python's unbounded integers. The model keeps both representations:

- A bit string is a `seq<bool>`, with `true` standing for '1' (`BitStrings`).
- Python's `&`, `|`, `^` and `~` on unbounded integers are written out bit by bit in `PyInt`. This includes negative values, which `_I` produces.
- A 32-bit register is a `Word`, an `int` below 2^32. Every reduction modulo 2^32 is explicit.

Each operation of the class is written in the form it has in the source:

- `_pad`, `_createWords`, `_toBinString`, `_addMod32`, the loops of `_hash`, `digest` and `hexdigest` are methods with loops.
  - Each is proved against a specification function: `Padded`, `ChunkWords`, `MessageBits`, `Sum`, `Process`, `DigestBytes` and `Hex`.
- `_F`..`_I`, `_rotateLeft`, `_round` and `_split` are functions.
  - `_F`..`_I` and `_rotateLeft` work on unbounded Python integers, so `_I` can be negative and a rotation can exceed 2^32. Reduced modulo 2^32, they are proved to agree with the 32-bit F, G, H, I and left rotation of RFC 1321, section 3.4.
  - `_round` reduces its result itself and is proved equal to the round step of section 3.4.
  - `_split` has no counterpart in the RFC. It is proved lossless: joining its pieces gives the string back.
- `MD5` is a class with the fields `msg`, `parsedMsg` and `_resA`..`_resD`.
  - Its invariant `Valid()` says that the chunks and the registers belong to the message held. The constructor and `update` establish it; `digest` and `hexdigest` read it.

Modules, in dependency order:

| file | module | contents |
|---|---|---|
| arith.dfy | `Arith` | words, bytes, powers of two, division facts, `_addMod32` |
| pyint.dfy | `PyInt` | Python's bitwise operators on unbounded integers |
| bitstrings.dfy | `BitStrings` | `_split`, `''.join`, `[::-1]`, `bin`, `int(s, 2)`, `"{:08b}"` |
| functions.dfy | `Md5Functions` | `_F`..`_I`, `_rotateLeft`, `_round` and their RFC 1321 counterparts |
| tables.dfy | `Md5Tables` | initial registers, shift table, constant table, round schedule |
| compress.dfy | `Md5Compress` | registers, one round step, 64 rounds, the fold over blocks |
| words.dfy | `Md5Words` | `_createWords` |
| padding.dfy | `Md5Padding` | `_pad` |
| message.dfy | `Md5Message` | `_toBinString` on an already-encoded message |
| digest.dfy | `Md5Digest` | the byte and hex forms of the registers |
| engine.dfy | `Md5Engine` | class `MD5`, the loops of `_hash`, `new`, `md5` |

## Model

| member | source | states |
|---|---|---|
| Arith.AddMod32 | md5.py:87-93 | The result is the sum of all arguments reduced modulo 2^32 with Python's floor `%`. It is a word congruent to the sum, even when an argument is negative. |
| PyInt.DisjointOr | md5.py:268-270 | `(a << s) \| b` equals `(a << s) + b` when `b` fits in the s bits that the shift cleared. |
| Md5Functions.PyAuxLow | md5.py:243-257 | Read modulo 2^n, Python's `_F`, `_G`, `_H` or `_I` equals RFC 1321's F, G, H or I applied bit by bit to the low n bits. |
| Md5Functions.AuxAgrees | md5.py:243-257 | Reduced modulo 2^32, `_F`..`_I` on words are RFC 1321's 32-bit auxiliary functions. |
| Md5Functions.INegative | md5.py:255-257 | `_I` can return a negative Python integer: it gives -1 on zero inputs. |
| Md5Functions.RotateAgrees | md5.py:268-270 | `(x << s) \| (x >> (32 - s))` reduced modulo 2^32 is the 32-bit left rotation of x by s places. |
| Md5Functions.RotateLeftArith | md5.py:268-270 | The rotation is `(x mod 2^(32-s)) * 2^s + x div 2^(32-s)`. |
| Md5Functions.RotateLeftNumeral | md5.py:268-270 | The rotation moves the first s characters of x's 32-character numeral to its end. |
| Md5Functions.RotateInverse | md5.py:268-270 | Rotating by s and then by 32 - s gives x back. |
| Md5Functions.PyRound | md5.py:259-266 | `_round` equals RFC 1321's step `b + ((a + F(b,c,d) + X[k] + T[i]) <<< s)`, with every `+` taken modulo 2^32. |
| Md5Functions.RoundInverse | md5.py:259-266 | For fixed b, c, d, table entries and message word, `UnRound` recovers `a` from the round's result. |
| Md5Functions.UnRoundInverse | md5.py:259-266 | Every word is the round's result for exactly the `a` that `UnRound` gives, so a round is a bijection on `a`. |
| Md5Tables.WordIndex | md5.py:142-158 | The message word chosen for round i (i, (5i+1)%16, (3i+5)%16 or 7i%16 by quadrant) is always below 16, so `words[pos]` is in range. |
| Md5Tables.EveryWordOncePerGroup | md5.py:142-158 | Within each group of sixteen rounds, each of the sixteen message words is read by exactly one round, in both directions. |
| Md5Tables.TablesWellFormed | md5.py:31-39 | There are 64 shifts and 64 constants, and every shift lies between 1 and 31. |
| Md5Compress.StepInverse | md5.py:164-172 | One round followed by the shuffle (a,b,c,d) ← (d,newB,b,c) is a bijection on the four registers. |
| Md5Compress.RoundsInverse | md5.py:142-172 | The first n rounds of a block can be undone, so no register state is lost inside a chunk. |
| Md5Compress.ProcessAppend | md5.py:133-178 | Chunk processing is a left fold: processing `xs + ys` equals processing `ys` from the registers reached after `xs`. |
| Md5Compress.ProcessSnoc | md5.py:175-178 | One more chunk adds its 64-round result into the running registers, modulo 2^32, register by register. |
| BitStrings.JoinSplit | md5.py:229-231 | Joining the pieces of `_split(s, size)` gives back s. |
| BitStrings.SplitPiece | md5.py:229-231 | With a whole number k of pieces, `_split` yields k pieces and piece i is `s[i*size:(i+1)*size]`. |
| BitStrings.BinValue | md5.py:57 | `bin(n)[2:]` is a numeral whose value is n, with no leading zero except for n = 0. |
| BitStrings.ValueFixed | md5.py:237 | For 0 ≤ n < 2^w, as for every byte that `"{:08b}"` formats here, `Fixed(n, w)` is the w-character numeral `"{:0wb}".format(n)` and its value is n. For other n it keeps only the low w bits, where Python would print more characters. |
| BitStrings.SplitReversed | md5.py:57-59 | Splitting a w-byte numeral into bytes and reversing the list gives its little-endian bytes. |
| Md5Message.ToBinString | md5.py:233-239 | The loop produces the eight-character `{:08b}` form of every byte, in order. |
| Md5Message.MessageBitsInverse | md5.py:233-239 | The bit string has length 8n, and its bytes read back give the message. |
| Md5Message.MessageBytesInverse | md5.py:233-239 | Every bit string of whole bytes is the bit string of exactly one message. |
| Md5Message.MessageBitsAppend | md5.py:81 | The bit string of a concatenation is the concatenation of the bit strings. |
| Md5Padding.Pad | md5.py:191-227 | The loops of `_pad` yield the message, one '1', '0's up to 448 modulo 512, then the length field. |
| Md5Padding.ZeroCountReaches | md5.py:202-204 | The count of '0's is the first count at which the length reaches 448 modulo 512, so the while loop stops there. |
| Md5Padding.PaddedLayout | md5.py:199-225 | The message is a prefix, then a single '1', then only '0's, then the 64-character length field. |
| Md5Padding.PaddedLength | md5.py:199-225 | The length before the field is 448 mod 512, the total is a multiple of 512, and padding adds between 65 and 576 characters. |
| Md5Padding.LongLength | md5.py:207-215 | The byte-widened `bin(msgLen)` is longer than 64 characters exactly when msgLen ≥ 2^64. |
| Md5Padding.LengthHalves | md5.py:219-223 | For msgLen < 2^64, the two byte-reversed 32-bit halves (low half first) are the length as eight little-endian bytes. |
| Md5Padding.LengthFieldValue | md5.py:207-225 | For msgLen < 2^64, the 64 characters read as eight little-endian bytes give msgLen. |
| Md5Padding.LongLengthField | md5.py:213-217 | For a bit length of 2^64, the field is the fixed '0' and 63 '1's, not the low-order 64 bits of the length. |
| Md5Words.CreateWords | md5.py:95-119 | A 512-character chunk gives exactly 16 words in a fresh array, and word j is the little-endian value of bytes 4j..4j+3. |
| Md5Words.ReversedBytesValue | md5.py:108-116 | Prepending the bytes of a 32-character piece one by one and reading the result in binary gives its little-endian value. |
| Md5Words.LittleEndianWordValue | md5.py:108-116 | The word read from a 32-character piece is the general little-endian decoding (`LittleEndianValue`) of the piece's four bytes, the same decoding that reads back the length field of `_pad`. |
| Md5Words.ChunkWordsInverse | md5.py:95-119 | Writing the 16 words back out as little-endian bytes gives the chunk, so parsing loses nothing. |
| Md5Words.WordBitsInverse | md5.py:108-116 | Each 32-character piece is recovered from its word. |
| Md5Digest.WordBytesInverse | md5.py:53-62 | The four little-endian bytes of a register read back give the register. |
| Md5Digest.BytesWordInverse | md5.py:53-62 | Every four bytes are the little-endian bytes of exactly one register value. |
| Md5Digest.DigestLayout | md5.py:53-62 | The digest is 16 bytes: A, B, C, D in that order, each low-order byte first. |
| Md5Digest.DigestInverse | md5.py:51-64 | The registers can be read back from the digest. |
| Md5Digest.DigestRegsInverse | md5.py:51-64 | Every 16 bytes are the digest of exactly one register state. |
| Md5Digest.RegisterPieces | md5.py:57-59 | `bin(part)[2:]` widened with '0's to 32 characters, split into bytes and reversed, gives the register's little-endian bytes. |
| Md5Digest.PieceByte | md5.py:61-62 | `int(byte, 2)` of the j-th of those pieces is byte j of the register. |
| Md5Digest.HexLength | md5.py:66-72 | The hex form has two characters per byte. |
| Md5Digest.HexDigitsOnly | md5.py:66-72 | Every character of the hex form is a lower-case hex digit. |
| Md5Digest.HexInverse | md5.py:66-72 | Reading the hex form two digits at a time gives the bytes back. |
| Md5Digest.HexDigestShape | md5.py:66-72 | `hexdigest` is 32 lower-case hex digits that spell the digest. |
| Md5Engine.Chunks | md5.py:131 | The parsed message is whole 512-character chunks whose concatenation is the padded bit string of the message. |
| Md5Engine.ChunksKeepMessage | md5.py:131 | The chunks begin with the message's bits, followed by at least 65 characters of padding, in whole chunks. |
| Md5Engine.DigestOf | md5.py:51-64 | The MD5 digest of a message is 16 bytes from which its final registers can be read back. |
| Md5Engine.HashLoops | md5.py:124-178 | The loops of `_hash` produce the message's chunks and the fold of the 64-round compression over their blocks, from the initial registers. |
| Md5Engine.CompressChunk | md5.py:138-178 | The 64 rounds over one chunk's words, followed by `_addMod32` of each register, compress that block into the running registers. |
| Md5Engine.MD5.constructor | md5.py:20-47 | A missing message is hashed as the empty one. Afterwards the object holds the message together with its chunks and registers. |
| Md5Engine.MD5.Hash | md5.py:121-181 | `_hash` leaves the message alone and stores its chunks and final registers. |
| Md5Engine.MD5.Update | md5.py:74-83 | `update` appends to the message and rehashes, so the registers are those of the whole new message. |
| Md5Engine.MD5.Digest | md5.py:51-64 | `digest` gives the sixteen little-endian bytes of `_resA`..`_resD` and changes nothing. On a valid object this is the message's MD5 digest. |
| Md5Engine.MD5.HexDigest | md5.py:66-72 | `hexdigest` gives 32 lower-case hex digits of those bytes and changes nothing. On a valid object they spell the message's digest. |
| Md5Engine.UpdateMatchesFresh | md5.py:74-83 | Constructing on m, calling `update(more)` and then `digest` gives the same digest as a fresh object on `m + more`. |
| Md5Engine.New | md5.py:273-275 | `new` returns a fresh object that holds the message and is valid. |
| Md5Engine.Md5 | md5.py:277-279 | `md5` returns a fresh object that holds the message and is valid. |

## Left out

- The `hex_` flag and `_hexToBinString` (md5.py:128-129, 183-189) are not modelled. Their behaviour depends on Python's `int(s, 16)` parser, which accepts prefixes, underscores and whitespace and drops leading zero bytes. The constructor, `new` and `md5` therefore take only the message.
- The UTF-8 encoding in `_toBinString` (md5.py:236) is a library call. The message is modelled as its already-encoded bytes. Appending text in `update` appends the encodings, because UTF-8 encodes a concatenation as the concatenation of the encodings.
- The round constants are computed with floating-point `sin` (md5.py:37-39). The model uses the literal table of RFC 1321, section 3.4.
- `self.bit32`, `self.bit64`, `self._A`..`self._D`, `self.shift` and `self.constant` are never changed after `__init__`. They are module constants (`Two32`, `Two64`, `InitA`..`InitD`, `Shift`, `Constant`) rather than fields.
- The "went horribly wrong" branch of `_hash` (md5.py:160-162) is unreachable. The model proves this and does not model its `print` and early return.
- `main` and its `print` (md5.py:281-298) are out of scope.
- The message argument is an `Option`, to model `None`. Other falsy Python values that `if not self.msg` also turns into `""` are not modelled.
- Known-answer digests (such as that of "abc") are not proved, because they need all 64 rounds evaluated.
- Md5Engine.MD5.Hash: the loops of `_hash` sit in the module-level methods `HashLoops` and `CompressChunk`, and the final field assignments go through the helper `Keep`. This keeps each proof small. The order of field updates inside `_hash` is therefore not modelled statement by statement.
- Md5Engine.MD5.Digest: the contract gives the result for any register values, and relates it to the message only when `Valid()` holds. Every constructor and `update` establish `Valid()`.
- Md5Engine.MD5.HexDigest: same as `Digest`, the message's digest is stated under `Valid()`.
- Md5Padding.Pad: for bit lengths of 2^64 or more, the model keeps the source's fixed tail of '0' and 63 '1's (md5.py:215-217). Section 3.2 of RFC 1321 would use the low-order 64 bits of the length instead; `LongLengthField` shows that the two differ.
