/**
 * `_createWords`: a 512-character block becomes sixteen 32-bit words, each
 * read from four 8-character bytes with the first byte least significant
 * (RFC 1321, section 2: "a sequence of bytes can be interpreted as a
 * sequence of 32-bit words, where each consecutive group of four bytes is
 * interpreted as a word with the low-order byte given first").
 */
module Md5Words {
  import opened Arith
  import opened BitStrings
  import opened Md5Compress

  /** `int(s, 2)` of the `b`-th 8-character byte of `piece`. */
  function ByteValue(piece: Bits, b: nat): Byte
    requires 8 * b + 8 <= |piece|
  {
    ByteOf(piece[8 * b..8 * b + 8])
  }

  /**
   * The word whose bytes, low-order first, are the four bytes of `piece`
   * (`LittleEndianValue` of its bytes, by `LittleEndianWordValue`).
   */
  function LittleEndianWord(piece: Bits): Word
    requires |piece| == 32
  {
    ByteValue(piece, 0) + 0x100 * ByteValue(piece, 1) + 0x1_0000 * ByteValue(piece, 2) + 0x100_0000 * ByteValue(piece, 3)
  }

  /** The sixteen words of a 512-character block, in order. */
  function ChunkWords(chunk: Bits): Block
    requires |chunk| == 512
  {
    seq(16, j requires 0 <= j < 16 => LittleEndianWord(chunk[32 * j..32 * j + 32]))
  }

  /**
   * `_createWords`: split the block into 32-character pieces, reverse the
   * order of each piece's four bytes and read the result as a binary number.
   */
  method CreateWords(chunk: Bits) returns (wordArray: array<Word>)
    requires |chunk| == 512
    ensures fresh(wordArray)
    ensures wordArray[..] == ChunkWords(chunk)
  {
    wordArray := new Word[16](_ => 0);
    var wordChunks := Split(chunk, 32);
    SplitFull(chunk, 32, 16);
    var currentWord := 0;
    while currentWord < |wordChunks|
      invariant 0 <= currentWord <= 16 == |wordChunks|
      invariant forall j :: 0 <= j < currentWord ==> wordArray[j] == LittleEndianWord(chunk[32 * j..32 * j + 32])
    {
      var wordChunk := wordChunks[currentWord];
      var bytes_ := Split(wordChunk, 8);
      var reversed: Bits := [];
      var t := 0;
      while t < |bytes_|
        invariant 0 <= t <= |bytes_|
        invariant reversed == Join(Reverse(bytes_[..t]))
        modifies {}
      {
        PrependReversed(bytes_, t);
        reversed := bytes_[t] + reversed;
        t := t + 1;
      }
      assert bytes_[..t] == bytes_;
      PieceWord(chunk, currentWord, reversed);
      wordArray[currentWord] := Value(reversed);
      currentWord := currentWord + 1;
    }
    assert wordArray[..] == ChunkWords(chunk);
  }

  /** The reversed bytes of the `i`-th 32-character piece, read as binary: that piece's word. */
  lemma PieceWord(chunk: Bits, i: nat, reversed: Bits)
    requires |chunk| == 512 && i < 16
    requires |Split(chunk, 32)| == 16
    requires reversed == Join(Reverse(Split(Split(chunk, 32)[i], 8)))
    ensures Value(reversed) == LittleEndianWord(chunk[32 * i..32 * i + 32])
  {
    var piece := Split(chunk, 32)[i];
    assert piece == chunk[32 * i..32 * i + 32] by {
      SplitPiece(chunk, 32, 16, i);
    }
    ReversedBytesValue(piece);
  }

  /** Putting the next piece in front extends the reversed join by one piece. */
  lemma PrependReversed(pieces: seq<Bits>, t: nat)
    requires t < |pieces|
    ensures Join(Reverse(pieces[..t + 1])) == pieces[t] + Join(Reverse(pieces[..t]))
  {
    assert pieces[..t + 1][..t] == pieces[..t];
    var r := Reverse(pieces[..t + 1]);
    assert r[1..] == Reverse(pieces[..t]);
  }

  /** The four bytes of a piece, reversed and joined, read as binary: the little-endian word. */
  lemma ReversedBytesValue(piece: Bits)
    requires |piece| == 32
    ensures Value(Join(Reverse(Split(piece, 8)))) == LittleEndianWord(piece)
  {
    var p0, p1, p2, p3 := piece[0..8], piece[8..16], piece[16..24], piece[24..32];
    assert Split(piece, 8) == [p0, p1, p2, p3] by {
      SplitPiece(piece, 8, 4, 0);
      SplitPiece(piece, 8, 4, 1);
      SplitPiece(piece, 8, 4, 2);
      SplitPiece(piece, 8, 4, 3);
    }
    assert Join(Reverse([p0, p1, p2, p3])) == p3 + p2 + p1 + p0 by {
      ReverseFour(p0, p1, p2, p3);
      JoinFour([p3, p2, p1, p0]);
    }
    ValueAppend(p3, p2);
    ValueAppend(p3 + p2, p1);
    ValueAppend(p3 + p2 + p1, p0);
    Pow2Byte();
  }

  /** `LittleEndianWord` is the general little-endian decoding on the piece's four bytes. */
  lemma LittleEndianWordValue(piece: Bits)
    requires |piece| == 32
    ensures LittleEndianWord(piece) == LittleEndianValue(Split(piece, 8))
  {
    var p0, p1, p2, p3 := piece[0..8], piece[8..16], piece[16..24], piece[24..32];
    var bytes := [p0, p1, p2, p3];
    assert Split(piece, 8) == bytes by {
      SplitPiece(piece, 8, 4, 0);
      SplitPiece(piece, 8, 4, 1);
      SplitPiece(piece, 8, 4, 2);
      SplitPiece(piece, 8, 4, 3);
    }
    assert LittleEndianValue([p3]) == Value(p3) by {
      assert [p3][1..] == [];
    }
    assert LittleEndianValue([p2, p3]) == Value(p2) + 256 * Value(p3) by {
      assert [p2, p3][1..] == [p3];
    }
    assert LittleEndianValue([p1, p2, p3]) == Value(p1) + 256 * (Value(p2) + 256 * Value(p3)) by {
      assert [p1, p2, p3][1..] == [p2, p3];
    }
    assert bytes[1..] == [p1, p2, p3];
  }

  lemma ReverseFour<T>(p0: T, p1: T, p2: T, p3: T)
    ensures Reverse([p0, p1, p2, p3]) == [p3, p2, p1, p0]
  {
    assert Reverse([p0]) == [p0] by {
      assert [p0][..0] == [];
    }
    assert Reverse([p0, p1]) == [p1, p0] by {
      assert [p0, p1][..1] == [p0];
    }
    assert Reverse([p0, p1, p2]) == [p2, p1, p0] by {
      assert [p0, p1, p2][..2] == [p0, p1];
    }
    assert [p0, p1, p2, p3][..3] == [p0, p1, p2];
  }

  lemma JoinFour(pieces: seq<Bits>)
    requires |pieces| == 4
    ensures Join(pieces) == pieces[0] + pieces[1] + pieces[2] + pieces[3]
  {
    assert Join(pieces[3..]) == pieces[3] by {
      assert pieces[3..][1..] == [];
    }
    assert pieces[2..][1..] == pieces[3..];
    assert pieces[1..][1..] == pieces[2..];
    assert Join(pieces[2..]) == pieces[2] + pieces[3];
    assert Join(pieces[1..]) == pieces[1] + pieces[2] + pieces[3];
  }

  // ---------------------------------------------------------------------
  // Nothing of the block is lost

  /** The four bytes of `w`, low-order first, as 32 characters. */
  function WordBits(w: Word): Bits
  {
    Join(LittleEndianBytes(w, 4))
  }

  /** The words written back out, each as its little-endian bytes. */
  function WordsBits(ws: seq<Word>): Bits
  {
    if ws == [] then [] else WordsBits(ws[..|ws| - 1]) + WordBits(ws[|ws| - 1])
  }

  /** Writing a piece's word back out gives the piece. */
  lemma WordBitsInverse(piece: Bits)
    requires |piece| == 32
    ensures WordBits(LittleEndianWord(piece)) == piece
  {
    var p0, p1, p2, p3 := piece[0..8], piece[8..16], piece[16..24], piece[24..32];
    assert WordBits(LittleEndianWord(piece)) == ByteBits(Value(p0)) + ByteBits(Value(p1)) + ByteBits(Value(p2)) + ByteBits(Value(p3)) by {
      LittleEndianBytesOf(LittleEndianWord(piece), ByteValue(piece, 0), ByteValue(piece, 1), ByteValue(piece, 2), ByteValue(piece, 3));
      JoinFour(LittleEndianBytes(LittleEndianWord(piece), 4));
    }
    FixedValue(p0);
    FixedValue(p1);
    FixedValue(p2);
    FixedValue(p3);
    SliceFour(piece, 8);
  }

  /** A sequence of four equal-sized pieces is their concatenation. */
  lemma SliceFour<T>(s: seq<T>, n: nat)
    requires |s| == 4 * n
    ensures s == s[0..n] + s[n..2 * n] + s[2 * n..3 * n] + s[3 * n..4 * n]
  {
    assert s[0..2 * n] == s[0..n] + s[n..2 * n];
    assert s[0..3 * n] == s[0..2 * n] + s[2 * n..3 * n];
    assert s == s[0..3 * n] + s[3 * n..4 * n];
  }

  /** The four little-endian bytes of the word built from bytes `b0`..`b3` are those bytes. */
  lemma LittleEndianBytesOf(w: nat, b0: Byte, b1: Byte, b2: Byte, b3: Byte)
    requires w == b0 + 0x100 * b1 + 0x1_0000 * b2 + 0x100_0000 * b3
    ensures LittleEndianBytes(w, 4) == [ByteBits(b0), ByteBits(b1), ByteBits(b2), ByteBits(b3)]
  {
    var w2: nat := b2 + 0x100 * b3;
    var w1: nat := b1 + 0x100 * w2;
    assert LittleEndianBytes(b3, 1) == [ByteBits(b3)] by {
      DivModUnique(b3, 256, 0, b3);
    }
    assert LittleEndianBytes(w2, 2) == [ByteBits(b2)] + LittleEndianBytes(b3, 1) by {
      DivModUnique(w2, 256, b3, b2);
    }
    assert LittleEndianBytes(w1, 3) == [ByteBits(b1)] + LittleEndianBytes(w2, 2) by {
      DivModUnique(w1, 256, w2, b1);
    }
    assert LittleEndianBytes(w, 4) == [ByteBits(b0)] + LittleEndianBytes(w1, 3) by {
      DivModUnique(w, 256, w1, b0);
    }
    ConsFour(ByteBits(b0), ByteBits(b1), ByteBits(b2), ByteBits(b3));
  }

  lemma ConsFour<T>(x0: T, x1: T, x2: T, x3: T)
    ensures [x0] + ([x1] + ([x2] + [x3])) == [x0, x1, x2, x3]
  {
  }

  /** Writing the sixteen words of a block back out gives the block: `_createWords` loses nothing. */
  lemma ChunkWordsInverse(chunk: Bits)
    requires |chunk| == 512
    ensures WordsBits(ChunkWords(chunk)) == chunk
  {
    ChunkWordsPrefix(chunk, 16);
    assert ChunkWords(chunk)[..16] == ChunkWords(chunk);
  }

  lemma {:induction false} ChunkWordsPrefix(chunk: Bits, n: nat)
    requires |chunk| == 512 && n <= 16
    ensures WordsBits(ChunkWords(chunk)[..n]) == chunk[..32 * n]
  {
    if n > 0 {
      var ws := ChunkWords(chunk)[..n];
      var piece := chunk[32 * (n - 1)..32 * n];
      assert WordsBits(ws[..n - 1]) == chunk[..32 * (n - 1)] by {
        assert ws[..n - 1] == ChunkWords(chunk)[..n - 1];
        ChunkWordsPrefix(chunk, n - 1);
      }
      assert WordBits(ws[n - 1]) == piece by {
        assert ws[n - 1] == LittleEndianWord(piece);
        WordBitsInverse(piece);
      }
      assert chunk[..32 * (n - 1)] + piece == chunk[..32 * n];
    }
  }
}
