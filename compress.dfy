/**
 * The body of `_hash`'s chunk loop as values: the registers, one round
 * step, the 64 steps over a block of sixteen words, the final additions
 * into the running registers, and the fold over all blocks.
 */
module Md5Compress {
  import opened Arith
  import opened Md5Functions
  import opened Md5Tables

  /** The four 32-bit registers A, B, C, D. */
  datatype Regs = Regs(a: Word, b: Word, c: Word, d: Word)

  /** A 512-bit block as sixteen message words. */
  type Block = x: seq<Word> | |x| == 16 witness seq(16, _ => 0)

  const Initial: Regs := Regs(InitA, InitB, InitC, InitD)

  /** Round `i`: the new B from the round function, the others move one place along. */
  function Step(r: Regs, i: nat, x: Block): Regs
    requires i < 64
  {
    TablesWellFormed();
    Regs(r.d, Round(RoundFunc(i), r.a, r.b, r.c, r.d, Constant[i], x[WordIndex(i)], Shift[i]), r.b, r.c)
  }

  /** Round `i` undone. */
  function UnStep(r: Regs, i: nat, x: Block): Regs
    requires i < 64
  {
    TablesWellFormed();
    Regs(UnRound(RoundFunc(i), r.b, r.c, r.d, r.a, Constant[i], x[WordIndex(i)], Shift[i]), r.c, r.d, r.a)
  }

  /** A step is a bijection on the registers: `UnStep` undoes it and it undoes `UnStep`. */
  lemma StepInverse(r: Regs, i: nat, x: Block)
    requires i < 64
    ensures UnStep(Step(r, i, x), i, x) == r
    ensures Step(UnStep(r, i, x), i, x) == r
  {
    TablesWellFormed();
    var f, k, m, s := RoundFunc(i), Constant[i], x[WordIndex(i)], Shift[i];
    RoundInverse(f, r.a, r.b, r.c, r.d, k, m, s);
    UnRoundInverse(f, r.b, r.c, r.d, r.a, k, m, s);
  }

  /** The first `n` rounds of a block, starting from `r`. */
  function Rounds(r: Regs, x: Block, n: nat): Regs
    requires n <= 64
  {
    if n == 0 then r else Step(Rounds(r, x, n - 1), n - 1, x)
  }

  /** The first `n` rounds undone, last round first. */
  function UnRounds(r: Regs, x: Block, n: nat): Regs
    requires n <= 64
    decreases n
  {
    if n == 0 then r else UnRounds(UnStep(r, n - 1, x), x, n - 1)
  }

  /** The 64 rounds over a block are a permutation of the register values. */
  lemma {:induction false} RoundsInverse(r: Regs, x: Block, n: nat)
    requires n <= 64
    ensures UnRounds(Rounds(r, x, n), x, n) == r
  {
    if n > 0 {
      var prev := Rounds(r, x, n - 1);
      assert UnStep(Rounds(r, x, n), n - 1, x) == prev by {
        StepInverse(prev, n - 1, x);
      }
      RoundsInverse(r, x, n - 1);
    }
  }

  /** Component-wise addition modulo 2^32 (`A = self._addMod32(A, a)` and so on). */
  function AddRegs(h: Regs, r: Regs): Regs
  {
    Regs(Add32(h.a, r.a), Add32(h.b, r.b), Add32(h.c, r.c), Add32(h.d, r.d))
  }

  /** One block: 64 rounds from the running registers, then added into them. */
  function Compress(h: Regs, x: Block): Regs
  {
    AddRegs(h, Rounds(h, x, 64))
  }

  /** The registers after every block in order, starting from `h`. */
  function Process(h: Regs, blocks: seq<Block>): Regs
  {
    if blocks == [] then h else Compress(Process(h, blocks[..|blocks| - 1]), blocks[|blocks| - 1])
  }

  /**
   * Processing is a left fold: the registers after `xs + ys` are those after
   * `ys` started from the registers after `xs`. The state after a prefix is
   * all that later blocks depend on.
   */
  lemma {:induction false} ProcessAppend(h: Regs, xs: seq<Block>, ys: seq<Block>)
    ensures Process(h, xs + ys) == Process(Process(h, xs), ys)
    decreases |ys|
  {
    if ys == [] {
      assert xs + ys == xs;
    } else {
      var ys' := ys[..|ys| - 1];
      assert (xs + ys)[..|xs + ys| - 1] == xs + ys';
      assert (xs + ys)[|xs + ys| - 1] == ys[|ys| - 1];
      ProcessAppend(h, xs, ys');
    }
  }

  /** One more block is one more compression. */
  lemma ProcessSnoc(h: Regs, xs: seq<Block>, x: Block)
    ensures Process(h, xs + [x]) == Compress(Process(h, xs), x)
  {
    assert (xs + [x])[..|xs|] == xs;
  }
}
