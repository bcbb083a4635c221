/**
 * Python's bitwise operators on its unbounded integers. Python treats an int
 * as an infinite two's-complement bit string: `~v == -v - 1`, and `&`, `|`,
 * `^` act bit by bit, the sign bit repeating forever to the left. The model
 * peels off the lowest bit with floor `/ 2` and `% 2` (which Dafny's Euclidean
 * operators give for the divisor 2) until both operands are all-zeros (0) or
 * all-ones (-1).
 */
module PyInt {
  import opened Arith

  datatype BitOp = And | Or | Xor

  function Apply(op: BitOp, p: bool, q: bool): bool
  {
    match op
    case And => p && q
    case Or => p || q
    case Xor => p != q
  }

  /** Distance from the nearest of 0 and -1; halving shrinks it. */
  function Size(v: int): nat
  {
    if v < 0 then -v - 1 else v
  }

  /** Python's `~v`. */
  function Not(v: int): int
  {
    -v - 1
  }

  /** The lowest bit of `u op v`, as 0 or 1. */
  function LowBit(op: BitOp, u: int, v: int): int
  {
    if Apply(op, u % 2 == 1, v % 2 == 1) then 1 else 0
  }

  /** Python's `u & v`, `u | v` or `u ^ v`. */
  function Bitwise(op: BitOp, u: int, v: int): int
    decreases Size(u) + Size(v)
  {
    if Size(u) == 0 && Size(v) == 0 then -LowBit(op, u, v)
    else
      assert Size(u / 2) + Size(v / 2) < Size(u) + Size(v);
      2 * Bitwise(op, u / 2, v / 2) + LowBit(op, u, v)
  }

  /** Every result is the halved operands' result shifted left, plus its low bit. */
  lemma Unfold(op: BitOp, u: int, v: int)
    ensures Bitwise(op, u, v) == 2 * Bitwise(op, u / 2, v / 2) + LowBit(op, u, v)
  {
  }

  /** Halving a result halves the operands; the remainder is the low bit. */
  lemma Halve(op: BitOp, u: int, v: int)
    ensures Bitwise(op, u, v) / 2 == Bitwise(op, u / 2, v / 2)
    ensures Bitwise(op, u, v) % 2 == LowBit(op, u, v)
  {
    Unfold(op, u, v);
    DivModUnique(Bitwise(op, u, v), 2, Bitwise(op, u / 2, v / 2), LowBit(op, u, v));
  }

  /** `~v` flips every bit: halving commutes with it and the low bit is inverted. */
  lemma NotHalve(v: int)
    ensures Not(v) / 2 == Not(v / 2)
    ensures Not(v) % 2 == 1 - v % 2
  {
    DivModUnique(Not(v), 2, Not(v / 2), 1 - v % 2);
  }

  /** `(a << s) | b` is `(a << s) + b` when `b` fits in the `s` bits the shift cleared. */
  lemma {:induction false} DisjointOr(a: nat, b: nat, s: nat)
    requires b < Pow2(s)
    ensures Bitwise(Or, a * Pow2(s), b) == a * Pow2(s) + b
  {
    if s == 0 {
      OrZero(a);
    } else {
      var p := Pow2(s - 1);
      assert a * Pow2(s) == 2 * (a * p);
      Unfold(Or, a * Pow2(s), b);
      assert (a * Pow2(s)) / 2 == a * p;
      DisjointOr(a, b / 2, s - 1);
    }
  }

  lemma {:induction false} OrZero(a: nat)
    ensures Bitwise(Or, a, 0) == a
    decreases a
  {
    if a > 0 {
      Unfold(Or, a, 0);
      OrZero(a / 2);
    }
  }
}
