/**
 * md5.py carries the message as a Python string of '0' and '1' characters.
 * Here such a string is a `seq<bool>`, `true` standing for '1'. This module
 * holds the string helpers the engine uses (`_split`, `''.join`, `[::-1]`,
 * `bin(n)[2:]`, `int(s, 2)`) and the facts that connect them.
 */
module BitStrings {
  import opened Arith

  type Bits = seq<bool>

  function Zeros(n: nat): (r: Bits)
    ensures |r| == n
  {
    seq(n, _ => false)
  }

  function Ones(n: nat): (r: Bits)
    ensures |r| == n
  {
    seq(n, _ => true)
  }

  /**
   * `_split(bitString, size)`: consecutive pieces of `size` characters, the
   * last one shorter when `size` does not divide the length.
   */
  function Split(s: Bits, size: nat): seq<Bits>
    requires size > 0
    decreases |s|
  {
    if s == [] then []
    else if |s| <= size then [s]
    else [s[..size]] + Split(s[size..], size)
  }

  /** `''.join(pieces)`. */
  function Join(pieces: seq<Bits>): Bits
  {
    if pieces == [] then [] else pieces[0] + Join(pieces[1..])
  }

  /** `pieces[::-1]`. */
  function Reverse<T>(pieces: seq<T>): (r: seq<T>)
    ensures |r| == |pieces|
  {
    if pieces == [] then [] else [pieces[|pieces| - 1]] + Reverse(pieces[..|pieces| - 1])
  }

  /** A sequence cut in two and put back together. */
  lemma Rejoin<T>(s: seq<T>, i: nat)
    requires i <= |s|
    ensures s[..i] + s[i..] == s
  {
  }

  /** The two parts of a concatenation. */
  lemma Parts<T>(x: seq<T>, y: seq<T>)
    ensures (x + y)[..|x|] == x && (x + y)[|x|..] == y
  {
  }

  /** `int(s, 2)`: the value of a big-endian binary string. */
  function Value(s: Bits): nat
  {
    if s == [] then 0 else 2 * Value(s[..|s| - 1]) + (if s[|s| - 1] then 1 else 0)
  }

  /** `bin(n)[2:]`: the shortest binary numeral of `n` ("0" for zero). */
  function Bin(n: nat): Bits
  {
    if n < 2 then [n == 1] else Bin(n / 2) + [n % 2 == 1]
  }

  /**
   * The `w`-bit big-endian numeral of `n` modulo 2^w. For 0 <= n < 2^w this
   * is `"{:0wb}".format(n)`; Python's width is only a minimum, so the two
   * part ways above 2^w, which `_toBinString` never formats.
   */
  function Fixed(n: int, w: nat): (r: Bits)
    ensures |r| == w
    decreases w, n
  {
    if w == 0 then [] else Fixed(n / 2, w - 1) + [n % 2 == 1]
  }

  /** "{:08b}".format(b). */
  function ByteBits(b: Byte): Bits
  {
    Fixed(b, 8)
  }

  /** `int(s, 2)` of an 8-character byte. */
  function ByteOf(byte: Bits): Byte
    requires |byte| == 8
  {
    ValueBound(byte);
    Pow2Byte();
    Value(byte)
  }

  // ---------------------------------------------------------------------
  // _split and join

  /** One step of `_split`: the first piece, then the pieces of the rest. */
  lemma SplitUnfold(s: Bits, size: nat)
    requires size > 0 && |s| > size
    ensures Split(s, size) == [s[..size]] + Split(s[size..], size)
  {
  }

  /** Joining the pieces gives back the string. */
  lemma {:induction false} JoinSplit(s: Bits, size: nat)
    requires size > 0
    ensures Join(Split(s, size)) == s
    decreases |s|
  {
    if |s| > size {
      SplitUnfold(s, size);
      JoinSplit(s[size..], size);
      assert s[..size] + s[size..] == s;
    }
  }

  /** When the first part fills whole pieces, splitting distributes over `+`. */
  lemma {:induction false} SplitAppend(x: Bits, y: Bits, size: nat, k: nat)
    requires size > 0 && |x| == k * size
    ensures Split(x + y, size) == Split(x, size) + Split(y, size)
    decreases k
  {
    if k == 0 {
      assert x + y == y;
    } else if y == [] {
      assert x + y == x;
    } else {
      MulPred(k, size);
      var rest := x[size..];
      assert |rest| == (k - 1) * size;
      SplitUnfold(x + y, size);
      assert (x + y)[..size] == x[..size];
      assert (x + y)[size..] == rest + y;
      SplitAppend(rest, y, size, k - 1);
      SplitFront(x, size);
    }
  }

  /** A non-empty split starts with the first piece. */
  lemma SplitFront(s: Bits, size: nat)
    requires 0 < size <= |s|
    ensures Split(s, size) == [s[..size]] + Split(s[size..], size)
  {
    if |s| == size {
      assert s[..size] == s;
      assert s[size..] == [];
    }
  }

  /** With a whole number of pieces, every piece is full. */
  lemma {:induction false} SplitFull(s: Bits, size: nat, k: nat)
    requires size > 0 && |s| == k * size
    ensures |Split(s, size)| == k
    ensures forall i :: 0 <= i < k ==> |Split(s, size)[i]| == size
    decreases k
  {
    if k > 0 {
      MulPred(k, size);
      if k > 1 {
        SplitUnfold(s, size);
        SplitFull(s[size..], size, k - 1);
      }
    }
  }

  /** With a whole number of pieces, piece `i` is the `i`-th slice of `size` characters. */
  lemma {:induction false} SplitPiece(s: Bits, size: nat, k: nat, i: nat)
    requires size > 0 && |s| == k * size && i < k
    ensures |Split(s, size)| == k
    ensures (i + 1) * size <= |s|
    ensures Split(s, size)[i] == s[i * size..(i + 1) * size]
    decreases i
  {
    SplitFull(s, size, k);
    MulAtMost(i + 1, k, size);
    if i == 0 {
      if k == 1 {
        assert s[..size] == s;
      } else {
        SplitUnfold(s, size);
      }
    } else {
      MulPred(k, size);
      var rest := s[size..];
      SplitUnfold(s, size);
      SplitPiece(rest, size, k - 1, i - 1);
      MulPred(i, size);
      MulPred(i + 1, size);
      assert rest[(i - 1) * size..i * size] == s[i * size..(i + 1) * size];
    }
  }

  lemma {:induction false} JoinAppend(a: seq<Bits>, b: seq<Bits>)
    ensures Join(a + b) == Join(a) + Join(b)
    decreases |a|
  {
    if a == [] {
      assert a + b == b;
    } else {
      assert (a + b)[1..] == a[1..] + b;
      JoinAppend(a[1..], b);
    }
  }

  // ---------------------------------------------------------------------
  // Binary numerals

  lemma {:induction false} ValueAppend(a: Bits, b: Bits)
    ensures Value(a + b) == Value(a) * Pow2(|b|) + Value(b)
    decreases |b|
  {
    if b != [] {
      var b', last := b[..|b| - 1], if b[|b| - 1] then 1 else 0;
      assert (a + b)[..|a + b| - 1] == a + b';
      assert (a + b)[|a + b| - 1] == b[|b| - 1];
      assert Value(a + b) == 2 * Value(a + b') + last;
      ValueAppend(a, b');
      assert Value(b) == 2 * Value(b') + last;
      DistributeDouble(Value(a), Pow2(|b'|), Pow2(|b|), Value(b'), last);
    } else {
      assert a + b == a;
    }
  }

  lemma {:induction false} ValueBound(s: Bits)
    ensures Value(s) < Pow2(|s|)
    decreases |s|
  {
    if s != [] {
      ValueBound(s[..|s| - 1]);
    }
  }

  lemma {:induction false} ValueZeros(k: nat, s: Bits)
    ensures Value(Zeros(k) + s) == Value(s)
  {
    ValueAppend(Zeros(k), s);
    ValueOfZeros(k);
  }

  lemma {:induction false} ValueOfZeros(k: nat)
    ensures Value(Zeros(k)) == 0
  {
    if k > 0 {
      assert Zeros(k)[..k - 1] == Zeros(k - 1);
      ValueOfZeros(k - 1);
    }
  }

  /** A fixed-width numeral denotes its number reduced modulo 2^width. */
  lemma {:induction false} ValueFixed(n: int, w: nat)
    ensures |Fixed(n, w)| == w
    ensures Value(Fixed(n, w)) == n % Pow2(w)
    decreases w
  {
    if w > 0 {
      ValueFixed(n / 2, w - 1);
      assert Fixed(n, w)[..w - 1] == Fixed(n / 2, w - 1);
      ModDiv(n, 2, Pow2(w - 1));
      DivModUnique(n % Pow2(w), 2, (n / 2) % Pow2(w - 1), n % 2);
    }
  }

  /** A string of width `w` is the fixed-width numeral of its own value. */
  lemma {:induction false} FixedValue(s: Bits)
    ensures Fixed(Value(s), |s|) == s
    decreases |s|
  {
    if s != [] {
      var s' := s[..|s| - 1];
      FixedValue(s');
      assert Value(s) / 2 == Value(s');
      assert s == s' + [s[|s| - 1]];
    }
  }

  /** Two strings of one width with one value are equal. */
  lemma FixedUnique(s: Bits, n: int)
    requires Value(s) == n % Pow2(|s|)
    ensures s == Fixed(n, |s|)
  {
    FixedValue(s);
    ValueFixed(n, |s|);
    ValueBound(s);
    FixedMod(n, |s|);
  }

  /** Only the low `w` bits of `n` matter to its `w`-bit numeral. */
  lemma {:induction false} FixedMod(n: int, w: nat)
    ensures Fixed(n % Pow2(w), w) == Fixed(n, w)
    decreases w
  {
    if w > 0 {
      ModDiv(n, 2, Pow2(w - 1));
      FixedMod(n / 2, w - 1);
      assert (n % (2 * Pow2(w - 1))) / 2 == (n / 2) % Pow2(w - 1);
    }
  }

  /** Cutting a numeral into a high and a low part. */
  lemma FixedSplit(n: int, a: nat, b: nat)
    ensures Fixed(n, a + b) == Fixed(n / Pow2(b), a) + Fixed(n, b)
  {
    var hi, lo := Fixed(n / Pow2(b), a), Fixed(n, b);
    var joined := hi + lo;
    assert |joined| == a + b && Value(joined) == n % Pow2(a + b) by {
      var pa, pb := Pow2(a), Pow2(b);
      ValueFixed(n / pb, a);
      ValueFixed(n, b);
      ValueAppend(hi, lo);
      Recombine(n, pb, pa);
      Pow2Add(b, a);
    }
    FixedUnique(joined, n);
  }

  /** `bin(n)[2:]` has the value `n`, and its length is the bit length of `n`. */
  lemma {:induction false} BinValue(n: nat)
    ensures Value(Bin(n)) == n
    ensures |Bin(n)| >= 1 && n < Pow2(|Bin(n)|)
    ensures |Bin(n)| > 1 ==> Pow2(|Bin(n)| - 1) <= n
  {
    if n >= 2 {
      BinValue(n / 2);
      var b := Bin(n / 2);
      assert Bin(n)[..|Bin(n)| - 1] == b;
    }
  }

  /** Left-padding `bin(n)[2:]` with zeros to width `w` gives the `w`-bit numeral. */
  lemma BinWiden(n: nat, w: nat)
    requires n < Pow2(w) && |Bin(n)| <= w
    ensures Zeros(w - |Bin(n)|) + Bin(n) == Fixed(n, w)
  {
    var s := Zeros(w - |Bin(n)|) + Bin(n);
    assert |s| == w && Value(s) == n % Pow2(w) by {
      ValueZeros(w - |Bin(n)|, Bin(n));
      BinValue(n);
      DivModUnique(n, Pow2(w), 0, n);
    }
    FixedUnique(s, n);
  }

  /** The numeral `bin(n)[2:]` fits `w` bits exactly when `n < 2^w`. */
  lemma BinFits(n: nat, w: nat)
    requires w >= 1
    ensures |Bin(n)| <= w <==> n < Pow2(w)
  {
    BinValue(n);
    if |Bin(n)| <= w {
      Pow2Monotone(|Bin(n)|, w);
    } else {
      Pow2Monotone(w, |Bin(n)| - 1);
    }
  }

  lemma {:induction false} Pow2Monotone(a: nat, b: nat)
    requires a <= b
    ensures Pow2(a) <= Pow2(b)
    decreases b
  {
    if a < b {
      Pow2Monotone(a, b - 1);
    }
  }

  // ---------------------------------------------------------------------
  // Bytes of a numeral

  /** The `k` low bytes of `n`, least significant first, each as an 8-character string. */
  function LittleEndianBytes(n: nat, k: nat): (r: seq<Bits>)
    ensures |r| == k
  {
    if k == 0 then [] else [ByteBits(n % 256)] + LittleEndianBytes(n / 256, k - 1)
  }

  /**
   * The number whose bytes, low-order first, are `bytes`: the one decoding
   * of little-endian bytes, the inverse of `LittleEndianBytes`.
   */
  function LittleEndianValue(bytes: seq<Bits>): nat
  {
    if bytes == [] then 0 else Value(bytes[0]) + 256 * LittleEndianValue(bytes[1..])
  }

  lemma {:induction false} LittleEndianBytesValue(n: nat, k: nat)
    ensures LittleEndianValue(LittleEndianBytes(n, k)) == n % Pow2(8 * k)
    decreases k
  {
    if k == 0 {
      assert n % Pow2(0) == 0;
    } else {
      LittleEndianValueStep(n, k);
      LittleEndianBytesValue(n / 256, k - 1);
      ModStep(n, k);
    }
  }

  lemma LittleEndianValueStep(n: nat, k: nat)
    requires k > 0
    ensures LittleEndianValue(LittleEndianBytes(n, k)) == n % 256 + 256 * LittleEndianValue(LittleEndianBytes(n / 256, k - 1))
  {
    var bytes := LittleEndianBytes(n, k);
    assert bytes[0] == ByteBits(n % 256);
    assert bytes[1..] == LittleEndianBytes(n / 256, k - 1);
    ByteBitsValue(n % 256);
  }

  lemma ModStep(n: nat, k: nat)
    requires k > 0
    ensures n % Pow2(8 * k) == n % 256 + 256 * (n / 256 % Pow2(8 * (k - 1)))
  {
    var m := Pow2(8 * (k - 1));
    assert Pow2(8 * k) == 256 * m by {
      Pow2Add(8, 8 * (k - 1));
      Pow2Byte();
    }
    Recombine(n, 256, m);
  }

  /** Each little-endian byte is 8 characters. */
  lemma {:induction false} LittleEndianBytesWidth(n: nat, k: nat)
    ensures forall i :: 0 <= i < k ==> |LittleEndianBytes(n, k)[i]| == 8
    decreases k
  {
    if k > 0 {
      LittleEndianBytesWidth(n / 256, k - 1);
    }
  }

  /** The last 8 characters of a `8k`-bit numeral spell its low byte. */
  lemma FixedLowByte(n: nat, k: nat)
    requires k > 0
    ensures Fixed(n, 8 * k) == Fixed(n / 256, 8 * (k - 1)) + ByteBits(n % 256)
  {
    Pow2Byte();
    assert 8 * (k - 1) + 8 == 8 * k;
    FixedSplit(n, 8 * (k - 1), 8);
    assert n / Pow2(8) == n / 256;
    FixedMod(n, 8);
    assert Fixed(n, 8) == ByteBits(n % 256);
  }

  /** The last 8-bit piece of a `8k`-bit numeral is its low byte. */
  lemma SplitLowByte(n: nat, k: nat)
    requires k > 0
    ensures Split(Fixed(n, 8 * k), 8) == Split(Fixed(n / 256, 8 * (k - 1)), 8) + [ByteBits(n % 256)]
  {
    var hi, lo := Fixed(n / 256, 8 * (k - 1)), ByteBits(n % 256);
    FixedLowByte(n, k);
    ValueFixed(n / 256, 8 * (k - 1));
    SplitAppend(hi, lo, 8, k - 1);
    assert Split(lo, 8) == [lo] by {
      ValueFixed(n % 256, 8);
    }
  }

  /**
   * Splitting the `8k`-bit numeral of `n` into 8-bit pieces and reversing
   * them lists the bytes of `n` least significant first.
   */
  lemma {:induction false} SplitReversed(n: nat, k: nat)
    ensures Reverse(Split(Fixed(n, 8 * k), 8)) == LittleEndianBytes(n, k)
  {
    if k > 0 {
      var pieces := Split(Fixed(n / 256, 8 * (k - 1)), 8);
      SplitLowByte(n, k);
      assert (pieces + [ByteBits(n % 256)])[..|pieces|] == pieces;
      SplitReversed(n / 256, k - 1);
    }
  }

  lemma Pow2Byte()
    ensures Pow2(8) == 256
  {
  }

  /** A byte's binary string read back with `int(_, 2)`. */
  lemma ByteBitsValue(b: Byte)
    ensures |ByteBits(b)| == 8 && Value(ByteBits(b)) == b
  {
    ValueFixed(b, 8);
    Pow2Byte();
    DivModUnique(b, 256, 0, b);
  }
}
