/**
 * The `MD5` object: the message it holds, the 512-character chunks of the
 * padded message, and the four result registers that `digest` and
 * `hexdigest` read. Every public operation leaves the registers equal to
 * the MD5 of the message held, as defined here by `HashRegs`.
 */
module Md5Engine {
  import opened Arith
  import opened BitStrings
  import opened Md5Functions
  import opened Md5Tables
  import opened Md5Compress
  import opened Md5Words
  import opened Md5Padding
  import opened Md5Message
  import opened Md5Digest

  datatype Option<T> = None | Some(value: T)

  /** Every chunk is 512 characters long. */
  predicate WholeChunks(chunks: seq<Bits>)
  {
    forall i :: 0 <= i < |chunks| ==> |chunks[i]| == 512
  }

  /** The padded bit string of the message, cut into 512-character chunks. */
  function Chunks(message: seq<Byte>): (chunks: seq<Bits>)
    ensures WholeChunks(chunks)
    ensures Join(chunks) == Padded(MessageBits(message))
  {
    var padded := Padded(MessageBits(message));
    PaddedLength(MessageBits(message));
    DivModUnique(|padded|, 512, |padded| / 512, 0);
    SplitFull(padded, 512, |padded| / 512);
    JoinSplit(padded, 512);
    Split(padded, 512)
  }

  /**
   * The chunks lose nothing: their first `8 * |message|` characters read back
   * as bytes are the message, and a whole number of 512-character chunks
   * follows the message with at least 65 characters of padding.
   */
  lemma ChunksKeepMessage(message: seq<Byte>)
    ensures 8 * |message| + 65 <= |Join(Chunks(message))|
    ensures |Join(Chunks(message))| == 512 * |Chunks(message)|
    ensures MessageBytes(Join(Chunks(message))[..8 * |message|]) == message
  {
    var bits := MessageBits(message);
    MessageBitsLength(message);
    PaddedLayout(bits);
    PaddedLength(bits);
    MessageBitsInverse(message);
    JoinWhole(Chunks(message));
  }

  /** Whole chunks joined: 512 characters each. */
  lemma {:induction false} JoinWhole(chunks: seq<Bits>)
    requires WholeChunks(chunks)
    ensures |Join(chunks)| == 512 * |chunks|
  {
    if chunks != [] {
      JoinWhole(chunks[1..]);
    }
  }

  /** The sixteen words of each chunk, in order. */
  function Blocks(chunks: seq<Bits>): (blocks: seq<Block>)
    requires WholeChunks(chunks)
    ensures |blocks| == |chunks|
  {
    if chunks == [] then [] else Blocks(chunks[..|chunks| - 1]) + [ChunkWords(chunks[|chunks| - 1])]
  }

  /** The registers after all blocks of the message: the MD5 state of `message`. */
  function HashRegs(message: seq<Byte>): Regs
  {
    Process(Initial, Blocks(Chunks(message)))
  }

  /** The 16-byte MD5 digest of `message`. */
  function DigestOf(message: seq<Byte>): (d: seq<Byte>)
    ensures |d| == 16
    ensures DigestRegs(d) == HashRegs(message)
  {
    DigestInverse(HashRegs(message));
    DigestBytes(HashRegs(message))
  }

  /** One more chunk is one more block. */
  lemma BlocksSnoc(chunks: seq<Bits>, k: nat)
    requires WholeChunks(chunks) && k < |chunks|
    ensures WholeChunks(chunks[..k]) && WholeChunks(chunks[..k + 1])
    ensures Blocks(chunks[..k + 1]) == Blocks(chunks[..k]) + [ChunkWords(chunks[k])]
  {
    assert chunks[..k + 1][..k] == chunks[..k];
  }

  class MD5 {
    /** The message hashed so far (`self.msg`), as bytes. */
    var msg: seq<Byte>
    /** `self.parsedMsg`: the padded message in 512-character chunks. */
    var parsedMsg: seq<Bits>
    var resA: Word
    var resB: Word
    var resC: Word
    var resD: Word

    /** The chunks and the registers are those of the message held. */
    ghost predicate Valid()
      reads this
    {
      parsedMsg == Chunks(msg) && Regs(resA, resB, resC, resD) == HashRegs(msg)
    }

    /** `MD5(message)`: a missing or empty message is the empty message; then hash it. */
    constructor (message: Option<seq<Byte>>)
      ensures msg == (if message.Some? then message.value else [])
      ensures Valid()
    {
      msg := if message.Some? then message.value else [];
      new;
      Hash();
    }

    /** `_hash`: hash the message held and keep its chunks and final registers. */
    method Hash()
      modifies this
      ensures msg == old(msg)
      ensures Valid()
    {
      var chunks, regs := HashLoops(msg);
      Keep(chunks, regs);
    }

    /** Keep the chunks and the final registers. */
    method Keep(chunks: seq<Bits>, regs: Regs)
      modifies this
      ensures msg == old(msg) && parsedMsg == chunks
      ensures Regs(resA, resB, resC, resD) == regs
    {
      parsedMsg := chunks;
      resA, resB, resC, resD := regs.a, regs.b, regs.c, regs.d;
    }

    /** `update`: append to the message and hash the whole message again. */
    method Update(message: seq<Byte>)
      modifies this
      ensures msg == old(msg) + message
      ensures Valid()
    {
      msg := msg + message;
      Hash();
    }

    /** `digest`: the four registers, each as four bytes with the low-order byte first. */
    method Digest() returns (result: seq<Byte>)
      ensures result == DigestBytes(Regs(resA, resB, resC, resD))
      ensures Valid() ==> result == DigestOf(msg)
    {
      var parts := [resA, resB, resC, resD];
      result := [];
      for p := 0 to 4
        invariant result == WordsBytes(parts[..p])
      {
        var part := parts[p];
        var tmp := Bin(part);
        RegisterPieces(part);
        tmp := Zeros(32 - |tmp|) + tmp;
        var pieces := Reverse(Split(tmp, 8));
        ghost var before, word := result, WordBytes(part);
        for j := 0 to |pieces|
          invariant result == before + word[..j]
        {
          PieceByte(part, j);
          PrefixSnoc(word, j);
          result := result + [ByteOf(pieces[j])];
        }
        assert word[..4] == word;
        WordsBytesSnoc(parts, p);
      }
      assert parts[..4] == parts;
    }

    /** `hexdigest`: the digest as two lower-case hex digits per byte. */
    method HexDigest() returns (result: string)
      ensures result == Hex(DigestBytes(Regs(resA, resB, resC, resD)))
      ensures Valid() ==> result == Hex(DigestOf(msg))
      ensures |result| == 32 && forall i :: 0 <= i < 32 ==> IsHexDigit(result[i])
    {
      var bytes := Digest();
      result := [];
      for k := 0 to |bytes|
        invariant result == Hex(bytes[..k])
      {
        assert bytes[..k + 1][..k] == bytes[..k];
        result := result + HexByte(bytes[k]);
      }
      assert bytes[..|bytes|] == bytes;
      HexDigestShape(Regs(resA, resB, resC, resD));
    }
  }

  /**
   * The loops of `_hash`: pad the message, cut it into chunks, run the 64
   * rounds over each chunk's words from the running registers and add the
   * result in.
   */
  method HashLoops(message: seq<Byte>) returns (chunks: seq<Bits>, regs: Regs)
    ensures chunks == Chunks(message)
    ensures regs == HashRegs(message)
  {
    var A: Word, B: Word, C: Word, D: Word := InitA, InitB, InitC, InitD;
    var bits := ToBinString(message);
    var padded := Pad(bits);
    chunks := Split(padded, 512);
    assert WholeChunks(chunks) by {
      PaddedLength(bits);
      SplitWhole(padded);
    }
    var k := 0;
    while k < |chunks|
      invariant 0 <= k <= |chunks|
      invariant Regs(A, B, C, D) == Process(Initial, Blocks(chunks[..k]))
    {
      var words := CreateWords(chunks[k]);
      var after := CompressChunk(A, B, C, D, words);
      A, B, C, D := after.a, after.b, after.c, after.d;
      ChunkDone(chunks, k);
      k := k + 1;
    }
    assert chunks[..k] == chunks;
    regs := Regs(A, B, C, D);
    ChunksOf(message, bits, padded);
  }

  /**
   * The body of `_hash`'s chunk loop: the 64 rounds over the chunk's words,
   * starting from the running registers, then each register added in
   * modulo 2^32.
   */
  method CompressChunk(A: Word, B: Word, C: Word, D: Word, words: array<Word>) returns (after: Regs)
    requires words.Length == 16
    ensures after == Compress(Regs(A, B, C, D), words[..])
  {
    var a, b, c, d := A, B, C, D;
    var func, pos := F, 0;
    for i := 0 to 64
      invariant Regs(a, b, c, d) == Rounds(Regs(A, B, C, D), words[..], i)
    {
      if 0 <= i <= 15 {
        func, pos := F, i;
      } else if 16 <= i <= 31 {
        func, pos := G, (5 * i + 1) % 16;
      } else if 32 <= i <= 47 {
        func, pos := H, (3 * i + 5) % 16;
      } else if 48 <= i <= 63 {
        func, pos := I, (7 * i) % 16;
      } else {
        assert false;
      }
      assert func == RoundFunc(i) && pos == WordIndex(i);
      TableEntry(i);
      var tmpB := PyRound(func, a, b, c, d, Constant[i], words[pos], Shift[i]);
      var tmpD := d;
      d := c;
      c := b;
      b := tmpB;
      a := tmpD;
    }
    var sumA := AddMod32([A, a]);
    var sumB := AddMod32([B, b]);
    var sumC := AddMod32([C, c]);
    var sumD := AddMod32([D, d]);
    after := Regs(sumA, sumB, sumC, sumD);
    assert after == AddRegs(Regs(A, B, C, D), Regs(a, b, c, d)) by {
      AddPair(A, a);
      AddPair(B, b);
      AddPair(C, c);
      AddPair(D, d);
    }
  }

  /** A bit string of whole blocks splits into 512-character chunks. */
  lemma SplitWhole(padded: Bits)
    requires |padded| % 512 == 0
    ensures WholeChunks(Split(padded, 512))
  {
    DivModUnique(|padded|, 512, |padded| / 512, 0);
    SplitFull(padded, 512, |padded| / 512);
  }

  /** `_split(_pad(_toBinString(msg)), 512)` are the chunks of the message. */
  lemma ChunksOf(message: seq<Byte>, bits: Bits, padded: Bits)
    requires bits == MessageBits(message) && padded == Padded(bits)
    ensures Split(padded, 512) == Chunks(message) && WholeChunks(Split(padded, 512))
  {
  }

  /** The table entries round `i` reads exist, and its shift is below 32. */
  lemma TableEntry(i: nat)
    requires i < 64
    ensures |Shift| == 64 && |Constant| == 64 && 0 < Shift[i] < 32
  {
    TablesWellFormed();
  }

  /** The registers after chunk `k`: the chunk's block compressed into the registers before it. */
  lemma ChunkDone(chunks: seq<Bits>, k: nat)
    requires WholeChunks(chunks) && k < |chunks|
    ensures Compress(Process(Initial, Blocks(chunks[..k])), ChunkWords(chunks[k]))
            == Process(Initial, Blocks(chunks[..k + 1]))
  {
    BlocksSnoc(chunks, k);
    ProcessSnoc(Initial, Blocks(chunks[..k]), ChunkWords(chunks[k]));
  }

  lemma PrefixSnoc<T>(s: seq<T>, j: nat)
    requires j < |s|
    ensures s[..j + 1] == s[..j] + [s[j]]
  {
  }

  /** `new(string)`: a fresh hasher for the message. */
  method New(message: Option<seq<Byte>>) returns (h: MD5)
    ensures fresh(h) && h.Valid()
    ensures h.msg == (if message.Some? then message.value else [])
  {
    h := new MD5(message);
  }

  /** `md5(string)`: the same as `new`. */
  method Md5(message: Option<seq<Byte>>) returns (h: MD5)
    ensures fresh(h) && h.Valid()
    ensures h.msg == (if message.Some? then message.value else [])
  {
    h := new MD5(message);
  }

  /**
   * `update` then `digest` gives the digest a fresh hasher computes for the
   * whole message: the registers are always recomputed from the initial
   * values, never carried over from the earlier message.
   */
  method UpdateMatchesFresh(first: seq<Byte>, more: seq<Byte>) returns (updated: seq<Byte>, direct: seq<Byte>)
    ensures updated == direct == DigestOf(first + more)
  {
    var h := new MD5(Some(first));
    h.Update(more);
    updated := h.Digest();
    var g := new MD5(Some(first + more));
    direct := g.Digest();
  }
}
