/**
 * The output of `digest` and `hexdigest` as values: registers A, B, C, D in
 * that order, each as four bytes with the low-order byte first (RFC 1321,
 * section 3.5), and the same sixteen bytes as 32 lower-case hex digits.
 */
module Md5Digest {
  import opened Arith
  import opened BitStrings
  import opened Md5Compress
  import opened Md5Words

  /** The four bytes of a word, low-order byte first. */
  function WordBytes(w: Word): seq<Byte>
  {
    [w % 0x100, w / 0x100 % 0x100, w / 0x1_0000 % 0x100, w / 0x100_0000]
  }

  /** The word whose bytes, low-order first, are `bytes`. */
  function BytesWord(bytes: seq<Byte>): Word
    requires |bytes| == 4
  {
    var b0: int, b1: int, b2: int, b3: int := bytes[0], bytes[1], bytes[2], bytes[3];
    b0 + 0x100 * b1 + 0x1_0000 * b2 + 0x100_0000 * b3
  }

  /** Reading the bytes of a word back gives the word. */
  lemma WordBytesInverse(w: Word)
    ensures |WordBytes(w)| == 4 && BytesWord(WordBytes(w)) == w
  {
    var b := WordBytes(w);
    var b1: int, b2: int, b3: int := b[1], b[2], b[3];
    assert w / 0x100 == b1 + 0x100 * (w / 0x1_0000) by {
      DivDiv(w, 0x100, 0x100);
    }
    assert w / 0x1_0000 == b2 + 0x100 * b3 by {
      DivDiv(w, 0x1_0000, 0x100);
    }
  }

  /** Writing the word of four bytes out gives the bytes. */
  lemma BytesWordInverse(bytes: seq<Byte>)
    requires |bytes| == 4
    ensures WordBytes(BytesWord(bytes)) == bytes
  {
    var w := BytesWord(bytes);
    var b0: int, b1: int, b2: int, b3: int := bytes[0], bytes[1], bytes[2], bytes[3];
    var w2 := b2 + 0x100 * b3;
    var w1 := b1 + 0x100 * w2;
    assert w % 0x100 == b0 && w / 0x100 == w1 by {
      DivModUnique(w, 0x100, w1, b0);
    }
    assert w / 0x100 % 0x100 == b1 by {
      DivModUnique(w1, 0x100, w2, b1);
    }
    assert w / 0x1_0000 == w2 by {
      DivModUnique(w, 0x1_0000, w2, b0 + 0x100 * b1);
    }
    assert w / 0x1_0000 % 0x100 == b2 by {
      DivModUnique(w2, 0x100, b3, b2);
    }
    assert w / 0x100_0000 == b3 by {
      DivModUnique(w, 0x100_0000, b3, b0 + 0x100 * b1 + 0x1_0000 * b2);
    }
  }

  /** The bytes of each word in turn. */
  function WordsBytes(words: seq<Word>): seq<Byte>
  {
    if words == [] then [] else WordsBytes(words[..|words| - 1]) + WordBytes(words[|words| - 1])
  }

  /** The sixteen bytes of the digest. */
  function DigestBytes(r: Regs): seq<Byte>
  {
    WordsBytes([r.a, r.b, r.c, r.d])
  }

  /** The registers a 16-byte digest was made from. */
  function DigestRegs(digest: seq<Byte>): Regs
    requires |digest| == 16
  {
    Regs(BytesWord(digest[0..4]), BytesWord(digest[4..8]), BytesWord(digest[8..12]), BytesWord(digest[12..16]))
  }

  /** The digest is A, B, C, D in that order, four bytes each. */
  lemma DigestLayout(r: Regs)
    ensures DigestBytes(r) == WordBytes(r.a) + WordBytes(r.b) + WordBytes(r.c) + WordBytes(r.d)
    ensures |DigestBytes(r)| == 16
  {
    var ws := [r.a, r.b, r.c, r.d];
    assert WordsBytes([r.a]) == WordBytes(r.a) by {
      assert [r.a][..0] == [];
    }
    assert WordsBytes([r.a, r.b]) == WordBytes(r.a) + WordBytes(r.b) by {
      assert [r.a, r.b][..1] == [r.a];
    }
    assert WordsBytes([r.a, r.b, r.c]) == WordBytes(r.a) + WordBytes(r.b) + WordBytes(r.c) by {
      assert [r.a, r.b, r.c][..2] == [r.a, r.b];
    }
    assert ws[..3] == [r.a, r.b, r.c];
  }

  /** The digest loses nothing: the registers can be read back from it. */
  lemma DigestInverse(r: Regs)
    ensures |DigestBytes(r)| == 16 && DigestRegs(DigestBytes(r)) == r
  {
    DigestLayout(r);
    var d := DigestBytes(r);
    assert d[0..4] == WordBytes(r.a) && d[4..8] == WordBytes(r.b);
    assert d[8..12] == WordBytes(r.c) && d[12..16] == WordBytes(r.d);
    WordBytesInverse(r.a);
    WordBytesInverse(r.b);
    WordBytesInverse(r.c);
    WordBytesInverse(r.d);
  }

  /** Every sixteen bytes are the digest of exactly one register state. */
  lemma DigestRegsInverse(digest: seq<Byte>)
    requires |digest| == 16
    ensures DigestBytes(DigestRegs(digest)) == digest
  {
    var r := DigestRegs(digest);
    DigestLayout(r);
    BytesWordInverse(digest[0..4]);
    BytesWordInverse(digest[4..8]);
    BytesWordInverse(digest[8..12]);
    BytesWordInverse(digest[12..16]);
    assert digest == digest[0..4] + digest[4..8] + digest[8..12] + digest[12..16];
  }

  /** One more register is four more bytes. */
  lemma WordsBytesSnoc(words: seq<Word>, k: nat)
    requires k < |words|
    ensures WordsBytes(words[..k + 1]) == WordsBytes(words[..k]) + WordBytes(words[k])
  {
    assert words[..k + 1][..k] == words[..k];
  }

  /**
   * The pieces `digest` takes from a register: its binary form widened with
   * '0's to 32 characters, split into bytes, in reverse order.
   */
  lemma RegisterPieces(w: Word)
    ensures |Bin(w)| <= 32
    ensures Reverse(Split(Zeros(32 - |Bin(w)|) + Bin(w), 8)) == LittleEndianBytes(w, 4)
  {
    Pow2Word();
    BinFits(w, 32);
    BinWiden(w, 32);
    SplitReversed(w, 4);
  }

  /** The `j`-th of those pieces read as binary is the `j`-th byte of the word. */
  lemma PieceByte(w: Word, j: nat)
    requires j < 4
    ensures |LittleEndianBytes(w, 4)[j]| == 8 && ByteOf(LittleEndianBytes(w, 4)[j]) == WordBytes(w)[j]
  {
    var b := WordBytes(w);
    WordBytesInverse(w);
    LittleEndianBytesOf(w, b[0], b[1], b[2], b[3]);
    ByteBitsValue(b[j]);
  }

  // ---------------------------------------------------------------------
  // hexdigest

  const HexDigits: string := "0123456789abcdef"

  /** `"{:02x}".format(b)`: two lower-case hex digits, high nibble first. */
  function HexByte(b: Byte): string
  {
    [HexDigits[b / 16], HexDigits[b % 16]]
  }

  /** The hex form of each byte in turn. */
  function Hex(bytes: seq<Byte>): string
  {
    if bytes == [] then [] else Hex(bytes[..|bytes| - 1]) + HexByte(bytes[|bytes| - 1])
  }

  predicate IsHexDigit(c: char)
  {
    '0' <= c <= '9' || 'a' <= c <= 'f'
  }

  /** The value of a lower-case hex digit (0 for any other character). */
  function DigitValue(c: char): (v: nat)
    ensures v < 16
    ensures IsHexDigit(c) <==> HexDigits[v] == c
  {
    if '0' <= c <= '9' then c as int - '0' as int
    else if 'a' <= c <= 'f' then c as int - 'a' as int + 10
    else 0
  }

  /** Reading two hex digits at a time back into bytes. */
  function ParseHex(s: string): seq<Byte>
    requires |s| % 2 == 0
  {
    if s == [] then []
    else ParseHex(s[..|s| - 2]) + [16 * DigitValue(s[|s| - 2]) + DigitValue(s[|s| - 1])]
  }

  lemma HexDigitValue(v: nat)
    requires v < 16
    ensures IsHexDigit(HexDigits[v]) && DigitValue(HexDigits[v]) == v
  {
  }

  /** Two characters per byte. */
  lemma {:induction false} HexLength(bytes: seq<Byte>)
    ensures |Hex(bytes)| == 2 * |bytes|
  {
    if bytes != [] {
      HexLength(bytes[..|bytes| - 1]);
    }
  }

  /** So the hex string is whole pairs of digits. */
  lemma HexEven(bytes: seq<Byte>)
    ensures |Hex(bytes)| % 2 == 0
  {
    HexLength(bytes);
    DivModUnique(|Hex(bytes)|, 2, |bytes|, 0);
  }

  /** Every character is a lower-case hex digit. */
  lemma {:induction false} HexDigitsOnly(bytes: seq<Byte>)
    ensures forall i :: 0 <= i < |Hex(bytes)| ==> IsHexDigit(Hex(bytes)[i])
  {
    if bytes != [] {
      var last := bytes[|bytes| - 1];
      HexDigitsOnly(bytes[..|bytes| - 1]);
      HexDigitValue(last / 16);
      HexDigitValue(last % 16);
    }
  }

  /** The hex string loses nothing: the bytes can be read back from it. */
  lemma {:induction false} HexInverse(bytes: seq<Byte>)
    ensures |Hex(bytes)| % 2 == 0
    ensures ParseHex(Hex(bytes)) == bytes
  {
    HexEven(bytes);
    if bytes != [] {
      var init, last := bytes[..|bytes| - 1], bytes[|bytes| - 1];
      assert ParseHex(Hex(bytes)) == ParseHex(Hex(init)) + [last] by {
        HexEven(init);
        ParseHexSnoc(Hex(init), last);
      }
      assert ParseHex(Hex(init)) == init by {
        HexInverse(init);
      }
      assert init + [last] == bytes;
    }
  }

  /** Two more hex digits are one more byte. */
  lemma ParseHexSnoc(s: string, b: Byte)
    requires |s| % 2 == 0
    ensures |s + HexByte(b)| % 2 == 0
    ensures ParseHex(s + HexByte(b)) == ParseHex(s) + [b]
  {
    HexDigitValue(b / 16);
    HexDigitValue(b % 16);
    var t := s + HexByte(b);
    assert t[..|t| - 2] == s && t[|t| - 2..] == HexByte(b) by {
      Parts(s, HexByte(b));
    }
  }

  /** `hexdigest` is 32 lower-case hex digits, and they spell the digest. */
  lemma HexDigestShape(r: Regs)
    ensures |Hex(DigestBytes(r))| == 32
    ensures forall i :: 0 <= i < 32 ==> IsHexDigit(Hex(DigestBytes(r))[i])
    ensures ParseHex(Hex(DigestBytes(r))) == DigestBytes(r)
  {
    DigestLayout(r);
    HexLength(DigestBytes(r));
    HexDigitsOnly(DigestBytes(r));
    HexInverse(DigestBytes(r));
  }
}
