/**
 * `_pad`: the message bits, a single '1', '0's up to 448 modulo 512, then a
 * 64-character length field (RFC 1321, sections 3.1 and 3.2).
 *
 * The length field is the one `_pad` writes: for a bit length below 2^64 it
 * is the length as eight little-endian bytes, low-order 32-bit half first;
 * for a longer message `_pad` writes a fixed '0' followed by 63 '1's, where
 * section 3.2 of RFC 1321 would use the low-order 64 bits of the length.
 */
module Md5Padding {
  import opened Arith
  import opened BitStrings

  /** How many '0's follow the '1': the fewest that reach 448 modulo 512. */
  function ZeroCount(msgLen: nat): (z: nat)
    ensures z < 512
  {
    (447 - msgLen) % 512
  }

  /** The 64 characters `_pad` appends for a message of `msgLen` bits. */
  function LengthField(msgLen: nat): (r: Bits)
    ensures |r| == 64
  {
    if msgLen < Two64 then
      LittleEndianBytesWidth(msgLen, 8);
      JoinLength(LittleEndianBytes(msgLen, 8));
      Join(LittleEndianBytes(msgLen, 8))
    else
      [false] + Ones(63)
  }

  /** Whole bytes joined: eight characters each. */
  lemma {:induction false} JoinLength(bytes: seq<Bits>)
    requires forall i :: 0 <= i < |bytes| ==> |bytes[i]| == 8
    ensures |Join(bytes)| == 8 * |bytes|
    decreases |bytes|
  {
    if bytes != [] {
      JoinLength(bytes[1..]);
    }
  }

  /** The padded message. */
  function Padded(bits: Bits): Bits
  {
    bits + [true] + Zeros(ZeroCount(|bits|)) + LengthField(|bits|)
  }

  /** `ZeroCount` is the unique count in range that lands on 448 modulo 512. */
  lemma ZeroCountReaches(msgLen: nat, k: nat)
    requires k <= ZeroCount(msgLen)
    ensures (msgLen + 1 + k) % 512 == 448 <==> k == ZeroCount(msgLen)
  {
    var z := ZeroCount(msgLen);
    var q := (447 - msgLen) / 512;
    assert 447 - msgLen == 512 * q + z;
    var gap := z - k;
    assert msgLen + 1 + k == 512 * (-q) + (448 - gap);
    if gap <= 448 {
      DivModUnique(msgLen + 1 + k, 512, -q, 448 - gap);
    } else {
      DivModUnique(msgLen + 1 + k, 512, -q - 1, 960 - gap);
    }
  }

  /**
   * `_pad` (md5.py): append '1', append '0' until the length is 448 modulo
   * 512, write the length in binary and widen it to whole bytes, then
   * either give up on lengths longer than 64 characters or lay the 64-bit
   * length out as two byte-reversed 32-bit halves, low half first.
   */
  method Pad(bitString: Bits) returns (padded: Bits)
    ensures padded == Padded(bitString)
  {
    var msgLen := |bitString|;
    padded := bitString + [true];
    while |padded| % 512 != 448
      invariant msgLen + 1 <= |padded| <= msgLen + 1 + ZeroCount(msgLen)
      invariant padded == bitString + [true] + Zeros(|padded| - msgLen - 1)
      decreases msgLen + 1 + ZeroCount(msgLen) - |padded|
    {
      assert |padded| - msgLen - 1 < ZeroCount(msgLen) by {
        ZeroCountReaches(msgLen, |padded| - msgLen - 1);
      }
      ZerosSnoc(bitString + [true], |padded| - msgLen - 1);
      padded := padded + [false];
    }
    assert padded == bitString + [true] + Zeros(ZeroCount(msgLen)) by {
      ZeroCountReaches(msgLen, |padded| - msgLen - 1);
    }
    ghost var body := padded;

    var binLen := Bin(msgLen);
    ghost var width := ByteWidth(|binLen|);
    while |binLen| % 8 != 0
      invariant |Bin(msgLen)| <= |binLen| <= width
      invariant binLen == Zeros(|binLen| - |Bin(msgLen)|) + Bin(msgLen)
      decreases width - |binLen|
    {
      assert |binLen| < width by {
        WidenStep(|Bin(msgLen)|, |binLen|);
      }
      ZerosCons(|binLen| - |Bin(msgLen)|, Bin(msgLen));
      binLen := [false] + binLen;
    }

    if |binLen| > 64 {
      assert [false] + Ones(63) == LengthField(msgLen) by {
        LongLength(msgLen, |binLen|);
      }
      padded := padded + ([false] + Ones(63));
      Assemble(bitString, body, [false] + Ones(63));
      return;
    }

    var padding := Zeros(64 - |binLen|) + binLen;
    var halves := Split(padding, 32);
    assert |halves| == 2 && Join(Reverse(Split(halves[1], 8))) + Join(Reverse(Split(halves[0], 8))) == LengthField(msgLen) by {
      ShortLengthLayout(msgLen, binLen);
    }
    padding := Join(Reverse(Split(halves[1], 8))) + Join(Reverse(Split(halves[0], 8)));
    padded := padded + padding;
    Assemble(bitString, body, padding);
  }

  /** The zero-filled message followed by the length field is the padded message. */
  lemma Assemble(bits: Bits, body: Bits, field: Bits)
    requires body == bits + [true] + Zeros(ZeroCount(|bits|))
    requires field == LengthField(|bits|)
    ensures body + field == Padded(bits)
  {
  }

  /** The layout `_pad` gives a length of at most 64 characters is the length field. */
  lemma ShortLengthLayout(msgLen: nat, binLen: Bits)
    requires |Bin(msgLen)| <= |binLen| < |Bin(msgLen)| + 8 && |binLen| % 8 == 0 && |binLen| <= 64
    requires binLen == Zeros(|binLen| - |Bin(msgLen)|) + Bin(msgLen)
    ensures var halves := Split(Zeros(64 - |binLen|) + binLen, 32);
      |halves| == 2 && Join(Reverse(Split(halves[1], 8))) + Join(Reverse(Split(halves[0], 8))) == LengthField(msgLen)
  {
    LongLength(msgLen, |binLen|);
    ShortLength(msgLen, |binLen|);
    LengthHalves(msgLen, Split(Zeros(64 - |binLen|) + binLen, 32));
  }

  /** The first multiple of 8 at or above `n`. */
  function ByteWidth(n: nat): (w: nat)
    ensures w % 8 == 0 && n <= w < n + 8
  {
    n + (8 - n % 8) % 8
  }

  lemma WidenStep(n: nat, w: nat)
    requires n <= w <= ByteWidth(n) && w % 8 != 0
    ensures w < ByteWidth(n)
  {
  }

  lemma ZerosSnoc(prefix: Bits, k: nat)
    ensures prefix + Zeros(k) + [false] == prefix + Zeros(k + 1)
  {
    assert Zeros(k) + [false] == Zeros(k + 1);
  }

  lemma ZerosCons(k: nat, s: Bits)
    ensures [false] + (Zeros(k) + s) == Zeros(k + 1) + s
  {
    assert [false] + Zeros(k) == Zeros(k + 1);
  }

  /** A binary length widened to whole bytes exceeds 64 characters only for lengths of 2^64 or more. */
  lemma LongLength(msgLen: nat, width: nat)
    requires width % 8 == 0 && |Bin(msgLen)| <= width < |Bin(msgLen)| + 8
    ensures width > 64 <==> msgLen >= Two64
  {
    Pow2Values();
    BinFits(msgLen, 64);
  }

  /** Otherwise the widened length, zero-filled to 64 characters, is the 64-bit numeral. */
  lemma ShortLength(msgLen: nat, width: nat)
    requires width % 8 == 0 && |Bin(msgLen)| <= width < |Bin(msgLen)| + 8 && width <= 64
    ensures Zeros(64 - width) + (Zeros(width - |Bin(msgLen)|) + Bin(msgLen)) == Fixed(msgLen, 64)
  {
    var bin := Bin(msgLen);
    assert Zeros(64 - width) + (Zeros(width - |bin|) + bin) == Zeros(64 - |bin|) + bin by {
      assert Zeros(64 - width) + Zeros(width - |bin|) == Zeros(64 - |bin|);
    }
    assert msgLen < Pow2(64) by {
      LongLength(msgLen, width);
      Pow2Values();
    }
    BinWiden(msgLen, 64);
  }

  /** The two byte-reversed halves, low half first, are the eight little-endian bytes. */
  lemma LengthHalves(msgLen: nat, halves: seq<Bits>)
    requires msgLen < Two64
    requires halves == Split(Fixed(msgLen, 64), 32)
    ensures |halves| == 2
    ensures Join(Reverse(Split(halves[1], 8))) + Join(Reverse(Split(halves[0], 8))) == LengthField(msgLen)
  {
    var hi := msgLen / Two32;
    var high, low := Fixed(hi, 32), Fixed(msgLen, 32);
    assert halves == [high, low] by {
      assert Fixed(msgLen, 64) == high + low by {
        FixedSplit(msgLen, 32, 32);
        Pow2Word();
      }
      SplitTwo(high, low);
    }
    assert Join(Reverse(Split(low, 8))) == Join(LittleEndianBytes(msgLen, 4)) by {
      SplitReversed(msgLen, 4);
    }
    assert Join(Reverse(Split(high, 8))) == Join(LittleEndianBytes(hi, 4)) by {
      SplitReversed(hi, 4);
    }
    EightBytes(msgLen);
    JoinAppend(LittleEndianBytes(msgLen, 4), LittleEndianBytes(hi, 4));
  }

  lemma SplitTwo(x: Bits, y: Bits)
    requires |x| == 32 && |y| == 32
    ensures Split(x + y, 32) == [x, y]
  {
    SplitFront(x + y, 32);
    assert (x + y)[..32] == x && (x + y)[32..] == y;
    SplitFront(y, 32);
    assert y[..32] == y && y[32..] == [];
  }

  /** Eight little-endian bytes are the four of the low half, then the four of the high half. */
  lemma EightBytes(n: nat)
    ensures LittleEndianBytes(n, 8) == LittleEndianBytes(n, 4) + LittleEndianBytes(n / Two32, 4)
  {
    var high, low := Fixed(n / Two32, 32), Fixed(n, 32);
    assert Fixed(n, 8 * 8) == high + low by {
      FixedSplit(n, 32, 32);
      Pow2Word();
    }
    assert Split(high + low, 8) == Split(high, 8) + Split(low, 8) by {
      SplitAppend(high, low, 8, 4);
    }
    ReverseAppend(Split(high, 8), Split(low, 8));
    SplitReversed(n, 8);
    SplitReversed(n, 4);
    SplitReversed(n / Two32, 4);
  }

  lemma {:induction false} ReverseAppend<T>(x: seq<T>, y: seq<T>)
    ensures Reverse(x + y) == Reverse(y) + Reverse(x)
    decreases |y|
  {
    if y == [] {
      assert x + y == x;
    } else {
      var y' := y[..|y| - 1];
      assert (x + y)[..|x + y| - 1] == x + y';
      ReverseAppend(x, y');
    }
  }

  // ---------------------------------------------------------------------
  // What padding guarantees

  /** The message is kept as a prefix, followed by one '1' and then only '0's up to the length field. */
  lemma PaddedLayout(bits: Bits)
    ensures |Padded(bits)| == |bits| + 1 + ZeroCount(|bits|) + 64
    ensures Padded(bits)[..|bits|] == bits
    ensures Padded(bits)[|bits|]
    ensures forall i :: |bits| < i <= |bits| + ZeroCount(|bits|) ==> !Padded(bits)[i]
    ensures Padded(bits)[|bits| + 1 + ZeroCount(|bits|)..] == LengthField(|bits|)
  {
  }

  /**
   * Before the length field the padded length is 448 modulo 512, the whole
   * is a multiple of 512, and padding always adds between 65 and 576 bits.
   */
  lemma PaddedLength(bits: Bits)
    ensures (|bits| + 1 + ZeroCount(|bits|)) % 512 == 448
    ensures |Padded(bits)| % 512 == 0
    ensures 65 <= |Padded(bits)| - |bits| <= 576
  {
    ZeroCountReaches(|bits|, ZeroCount(|bits|));
    var before := |bits| + 1 + ZeroCount(|bits|);
    DivModUnique(before + 64, 512, before / 512 + 1, 0);
  }

  /** Below 2^64 bits, the length field read as eight little-endian bytes is the message length. */
  lemma LengthFieldValue(msgLen: nat)
    requires msgLen < Two64
    ensures LittleEndianValue(Split(LengthField(msgLen), 8)) == msgLen
  {
    var bytes := LittleEndianBytes(msgLen, 8);
    assert Split(Join(bytes), 8) == bytes by {
      LittleEndianBytesWidth(msgLen, 8);
      SplitJoinBytes(bytes);
    }
    assert LittleEndianValue(bytes) == msgLen by {
      LittleEndianBytesValue(msgLen, 8);
      Pow2Values();
      DivModUnique(msgLen, Two64, 0, msgLen);
    }
  }

  /** Splitting joined whole bytes into bytes gives them back. */
  lemma {:induction false} SplitJoinBytes(bytes: seq<Bits>)
    requires forall i :: 0 <= i < |bytes| ==> |bytes[i]| == 8
    ensures Split(Join(bytes), 8) == bytes
    decreases |bytes|
  {
    if bytes != [] {
      SplitJoinBytes(bytes[1..]);
      SplitFront(Join(bytes), 8);
      assert Join(bytes)[..8] == bytes[0] && Join(bytes)[8..] == Join(bytes[1..]);
    }
  }

  lemma {:induction false} FixedZero(w: nat)
    ensures Fixed(0, w) == Zeros(w)
  {
    if w > 0 {
      FixedZero(w - 1);
      assert Zeros(w - 1) + [false] == Zeros(w);
    }
  }

  /**
   * For a message of exactly 2^64 bits `_pad` writes '0' and 63 '1's where
   * the low-order 64 bits of the length, all zero, are called for.
   */
  lemma LongLengthField()
    ensures LengthField(Two64) != Join(LittleEndianBytes(Two64 % Two64, 8))
  {
    assert LengthField(Two64)[1] by {
      assert LengthField(Two64) == [false] + Ones(63);
    }
    var zero := LittleEndianBytes(0, 8);
    assert Join(zero)[1] == zero[0][1] by {
      assert Join(zero) == zero[0] + Join(zero[1..]);
      assert |zero[0]| == 8;
    }
    assert zero[0] == Zeros(8) by {
      FixedZero(8);
    }
  }
}
