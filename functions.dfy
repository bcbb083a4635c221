/**
 * The four auxiliary functions F, G, H, I, the left rotation and one MD5
 * round, as md5.py computes them with Python's unbounded integers, next to
 * the 32-bit definitions of RFC 1321 (section 3.4) that they are meant to
 * implement.
 */
module Md5Functions {
  import opened Arith
  import opened PyInt
  import opened BitStrings

  datatype Func = F | G | H | I

  /** RFC 1321's auxiliary functions on a single bit position. */
  function BitFunc(f: Func, x: bool, y: bool, z: bool): bool
  {
    match f
    case F => (x && y) || (!x && z)
    case G => (x && z) || (y && !z)
    case H => (x != y) != z
    case I => y != (x || !z)
  }

  function BitValue(p: bool): int
  {
    if p then 1 else 0
  }

  /**
   * The auxiliary function applied position by position to the low `n` bits.
   * The `decreases` names every parameter: with `n` alone, a call whose width
   * is a literal such as 32 would be unfolded all the way by the verifier.
   */
  function Lifted(f: Func, x: int, y: int, z: int, n: nat): (r: int)
    ensures 0 <= r < Pow2(n)
    decreases n, f, x, y, z
  {
    if n == 0 then 0
    else 2 * Lifted(f, x / 2, y / 2, z / 2, n - 1) + BitValue(BitFunc(f, x % 2 == 1, y % 2 == 1, z % 2 == 1))
  }

  /** F, G, H or I on 32-bit words: each output bit from the three input bits in the same position. */
  function Aux(f: Func, x: Word, y: Word, z: Word): Word
  {
    Pow2Word();
    Lifted(f, x, y, z, 32)
  }

  /** md5.py's `_F`, `_G`, `_H` and `_I`, on Python integers. */
  function PyAux(f: Func, x: int, y: int, z: int): int
  {
    match f
    case F => Bitwise(Or, Bitwise(And, x, y), Bitwise(And, Not(x), z))
    case G => Bitwise(Or, Bitwise(And, x, z), Bitwise(And, y, Not(z)))
    case H => Bitwise(Xor, Bitwise(Xor, x, y), z)
    case I => Bitwise(Xor, y, Bitwise(Or, x, Not(z)))
  }

  /** `_I` on words can be negative: `~z` is negative and `|` keeps the sign. */
  lemma INegative()
    ensures PyAux(I, 0, 0, 0) == -1
  {
    assert Not(0) == -1;
    assert Bitwise(Or, 0, -1) == -1;
    assert Bitwise(Xor, 0, -1) == -1;
  }

  /** Every Python expression above peels off bit by bit like its RFC counterpart. */
  lemma PyAuxUnfold(f: Func, x: int, y: int, z: int)
    ensures PyAux(f, x, y, z)
         == 2 * PyAux(f, x / 2, y / 2, z / 2) + BitValue(BitFunc(f, x % 2 == 1, y % 2 == 1, z % 2 == 1))
  {
    match f
    case F =>
      var p, q := Bitwise(And, x, y), Bitwise(And, Not(x), z);
      Unfold(Or, p, q);
      Halve(And, x, y);
      Halve(And, Not(x), z);
      NotHalve(x);
    case G =>
      var p, q := Bitwise(And, x, z), Bitwise(And, y, Not(z));
      Unfold(Or, p, q);
      Halve(And, x, z);
      Halve(And, y, Not(z));
      NotHalve(z);
    case H =>
      var p := Bitwise(Xor, x, y);
      Unfold(Xor, p, z);
      Halve(Xor, x, y);
    case I =>
      var q := Bitwise(Or, x, Not(z));
      Unfold(Xor, y, q);
      Halve(Or, x, Not(z));
      NotHalve(z);
  }

  /** Read modulo 2^n, the Python expression is the `n`-bit RFC function. */
  lemma {:induction false} PyAuxLow(f: Func, x: int, y: int, z: int, n: nat)
    ensures PyAux(f, x, y, z) % Pow2(n) == Lifted(f, x, y, z, n)
    decreases n
  {
    if n > 0 {
      var bit := BitValue(BitFunc(f, x % 2 == 1, y % 2 == 1, z % 2 == 1));
      PyAuxUnfold(f, x, y, z);
      PyAuxLow(f, x / 2, y / 2, z / 2, n - 1);
      ModDouble(PyAux(f, x / 2, y / 2, z / 2), bit, Pow2(n - 1));
    }
  }

  /** `_F`..`_I` reduced modulo 2^32 (as `_addMod32` does) are RFC 1321's F..I. */
  lemma AuxAgrees(f: Func, x: Word, y: Word, z: Word)
    ensures PyAux(f, x, y, z) % Two32 == Aux(f, x, y, z)
  {
    Pow2Word();
    PyAuxLow(f, x, y, z, 32);
  }

  // ---------------------------------------------------------------------
  // Rotation

  /** `(x << s) | (x >> (32 - s))` on Python integers. */
  function PyRotateLeft(x: int, s: nat): int
    requires s <= 32
  {
    Bitwise(Or, x * Pow2(s), x / Pow2(32 - s))
  }

  /**
   * RFC 1321's `x <<< s`: the value of the 32-character numeral of `x`
   * rotated left by `s` places.
   */
  function RotateLeft(x: Word, s: nat): Word
    requires s <= 32
  {
    var bits := Fixed(x, 32);
    var rotated := bits[s..] + bits[..s];
    ValueBound(rotated);
    Pow2Word();
    Value(rotated)
  }

  /** The arithmetic form: the low `32 - s` bits move up, the high `s` bits come around. */
  lemma RotateLeftArith(x: Word, s: nat)
    requires s <= 32
    ensures RotateLeft(x, s) == (x % Pow2(32 - s)) * Pow2(s) + x / Pow2(32 - s)
  {
    var r := (x % Pow2(32 - s)) * Pow2(s) + x / Pow2(32 - s);
    RotateParts(x, s);
    RotateNumeral(x, s, r);
    WordNumeral(r);
  }

  /** A word is the value of its 32-character numeral. */
  lemma WordNumeral(x: Word)
    ensures Value(Fixed(x, 32)) == x
  {
    Pow2Word();
    ValueFixed(x, 32);
    DivModUnique(x, Two32, 0, x);
  }

  lemma RotateParts(x: Word, s: nat)
    requires s <= 32
    ensures x / Pow2(32 - s) < Pow2(s)
    ensures 0 <= (x % Pow2(32 - s)) * Pow2(s) + x / Pow2(32 - s) < Two32
    ensures ((x % Pow2(32 - s)) * Pow2(s) + x / Pow2(32 - s)) / Pow2(s) == x % Pow2(32 - s)
    ensures ((x % Pow2(32 - s)) * Pow2(s) + x / Pow2(32 - s)) % Pow2(s) == x / Pow2(32 - s)
  {
    Pow2Add(32 - s, s);
    Pow2Word();
    SwapHalves(x, Pow2(32 - s), Pow2(s));
  }

  /** Moving the quotient by `p` below the remainder, for `x < p * q`. */
  lemma SwapHalves(x: int, p: int, q: int)
    requires p > 0 && q > 0 && 0 <= x < p * q
    ensures x / p < q
    ensures 0 <= (x % p) * q + x / p < p * q
    ensures ((x % p) * q + x / p) / q == x % p
    ensures ((x % p) * q + x / p) % q == x / p
  {
    QuotientBound(x, p, q);
    Interleave(x % p, x / p, p, q);
  }

  lemma QuotientBound(x: int, p: int, q: int)
    requires p > 0 && q > 0 && 0 <= x < p * q
    ensures 0 <= x / p < q
  {
    var d := x / p;
    assert d * p <= x;
    if d >= q {
      MulAtMost(q, d, p);
    }
  }

  lemma Interleave(r: int, d: int, p: int, q: int)
    requires 0 <= r < p && 0 <= d < q
    ensures 0 <= r * q + d < p * q
    ensures (r * q + d) / q == r && (r * q + d) % q == d
  {
    MulAtMost(r, p - 1, q);
    MulPred(p, q);
    DivModUnique(r * q + d, q, r, d);
  }

  lemma RotateNumeral(x: Word, s: nat, r: int)
    requires s <= 32
    requires r == (x % Pow2(32 - s)) * Pow2(s) + x / Pow2(32 - s)
    ensures Fixed(r, 32) == Fixed(x, 32)[s..] + Fixed(x, 32)[..s]
  {
    var p, q := Pow2(32 - s), Pow2(s);
    RotateParts(x, s);
    assert r / q == x % p && r % q == x / p;
    var hi, lo := Fixed(x / p, s), Fixed(x, 32 - s);
    FixedSplit(x, s, 32 - s);
    assert Fixed(x, 32) == hi + lo;
    FixedSplit(r, 32 - s, s);
    assert Fixed(r, 32) == Fixed(r / q, 32 - s) + Fixed(r, s);
    FixedMod(x, 32 - s);
    FixedMod(r, s);
    assert Fixed(x, 32)[..s] == hi;
    assert Fixed(x, 32)[s..] == lo;
  }

  /** Rotating the word rotates its 32-character numeral. */
  lemma RotateLeftNumeral(x: Word, s: nat)
    requires s <= 32
    ensures Fixed(RotateLeft(x, s), 32) == Fixed(x, 32)[s..] + Fixed(x, 32)[..s]
  {
    var bits := Fixed(x, 32);
    FixedValue(bits[s..] + bits[..s]);
  }

  /** Rotating by `s` and then by `32 - s` gives the word back. */
  lemma RotateInverse(x: Word, s: nat)
    requires s <= 32
    ensures RotateLeft(RotateLeft(x, s), 32 - s) == x
  {
    var bits := Fixed(x, 32);
    var once := RotateLeft(x, s);
    RotateLeftNumeral(x, s);
    RotateValue(once, 32 - s, bits[s..] + bits[..s]);
    RotateTwice(bits, s);
    WordNumeral(x);
  }

  lemma RotateValue(y: Word, s: nat, t: Bits)
    requires s <= 32 && Fixed(y, 32) == t
    ensures RotateLeft(y, s) == Value(t[s..] + t[..s])
  {
  }

  lemma RotateTwice(t: Bits, s: nat)
    requires s <= |t|
    ensures (t[s..] + t[..s])[|t| - s..] + (t[s..] + t[..s])[..|t| - s] == t
  {
  }

  /** `_rotateLeft` followed by `% 2**32`, as `_round` uses it, is RFC 1321's rotation. */
  lemma RotateAgrees(x: Word, s: nat)
    requires s <= 32
    ensures PyRotateLeft(x, s) % Two32 == RotateLeft(x, s)
  {
    var p, q := Pow2(32 - s), Pow2(s);
    assert PyRotateLeft(x, s) == x * q + x / p by {
      RotateParts(x, s);
      DisjointOr(x, x / p, s);
    }
    assert p * q == Two32 by {
      Pow2Add(32 - s, s);
      Pow2Word();
    }
    ShiftedMod(x, p, q);
    RotateLeftArith(x, s);
  }

  /** `(x * q + x / p) % (p * q)` keeps the low part of `x * q` and adds the carried-out high part. */
  lemma ShiftedMod(x: int, p: int, q: int)
    requires p > 0 && q > 0 && 0 <= x < p * q
    ensures (x * q + x / p) % (p * q) == (x % p) * q + x / p
  {
    var d, r := x / p, x % p;
    QuotientBound(x, p, q);
    Interleave(r, d, p, q);
    assert x * q == d * (p * q) + r * q by {
      assert x == d * p + r;
      Distribute(d * p, r, q);
      assert (d * p) * q == d * (p * q);
    }
    DivModUnique(x * q + d, p * q, d, r * q + d);
  }

  // ---------------------------------------------------------------------
  // One round

  /** RFC 1321's step `a = b + ((a + F(b,c,d) + X[k] + T[i]) <<< s)`, every `+` modulo 2^32. */
  function Round(f: Func, a: Word, b: Word, c: Word, d: Word, constant: Word, chunk: Word, shift: nat): Word
    requires shift <= 32
  {
    Add32(b, RotateLeft(Add32(Add32(Add32(a, Aux(f, b, c, d)), chunk), constant), shift))
  }

  /**
   * `_round`: add `a`, `func(b, c, d)`, the round constant and the message
   * word modulo 2^32, rotate, reduce, and add `b` modulo 2^32, all on Python
   * integers. The result is RFC 1321's step.
   */
  function PyRound(f: Func, a: Word, b: Word, c: Word, d: Word, constant: Word, chunk: Word, shift: nat): (r: Word)
    requires shift <= 32
    ensures r == Round(f, a, b, c, d, constant, chunk, shift)
  {
    var sum := Sum([a, PyAux(f, b, c, d), constant, chunk]) % Two32;
    var rotated := PyRotateLeft(sum, shift) % Two32;
    RoundAgrees(f, a, b, c, d, constant, chunk, shift);
    Sum([rotated, b]) % Two32
  }

  lemma RoundAgrees(f: Func, a: Word, b: Word, c: Word, d: Word, constant: Word, chunk: Word, shift: nat)
    requires shift <= 32
    ensures var sum := Sum([a, PyAux(f, b, c, d), constant, chunk]) % Two32;
            Sum([PyRotateLeft(sum, shift) % Two32, b]) % Two32 == Round(f, a, b, c, d, constant, chunk, shift)
  {
    var sum := Sum([a, PyAux(f, b, c, d), constant, chunk]) % Two32;
    var rotated := PyRotateLeft(sum, shift) % Two32;
    var added := Add32(Add32(Add32(a, Aux(f, b, c, d)), chunk), constant);
    assert sum == added by {
      AddAgrees(f, a, b, c, d, constant, chunk);
    }
    assert rotated == RotateLeft(added, shift) by {
      RotateAgrees(added, shift);
    }
    LastAdd(rotated, b);
  }

  /** `_addMod32` of two words is addition modulo 2^32. */
  lemma AddPair(x: Word, y: Word)
    ensures Sum([x, y]) % Two32 == Add32(x, y)
  {
    SumOfTwo(x, y);
  }

  /** The second `_addMod32` of `_round`. */
  lemma LastAdd(rotated: Word, b: Word)
    ensures Sum([rotated, b]) % Two32 == Add32(b, rotated)
  {
    SumOfTwo(rotated, b);
    AddCommutes(rotated, b);
  }

  /** The first `_addMod32` of `_round`, with `func(b, c, d)` still a Python integer. */
  lemma AddAgrees(f: Func, a: Word, b: Word, c: Word, d: Word, constant: Word, chunk: Word)
    ensures Sum([a, PyAux(f, b, c, d), constant, chunk]) % Two32
         == Add32(Add32(Add32(a, Aux(f, b, c, d)), chunk), constant)
  {
    var v := PyAux(f, b, c, d);
    AuxAgrees(f, b, c, d);
    SumOfFour(a, v, constant, chunk);
    AddInOrder(a, v, constant, chunk);
  }

  /** Adding four integers and reducing once is adding them modulo 2^32 one at a time. */
  lemma AddInOrder(a: Word, v: int, k: Word, m: Word)
    ensures (a + v + k + m) % Two32 == Add32(Add32(Add32(a, v % Two32), m), k)
  {
    var w1 := Add32(a, v % Two32);
    var w2 := Add32(w1, m);
    var w3 := Add32(w2, k);
    var q0, q1, q2, q3 := v / Two32, (a + v % Two32) / Two32, (w1 + m) / Two32, (w2 + k) / Two32;
    assert a + v + k + m == (q0 + q1 + q2 + q3) * Two32 + w3;
    DivModUnique(a + v + k + m, Two32, q0 + q1 + q2 + q3, w3);
  }

  lemma SumOfFour(a: int, b: int, c: int, d: int)
    ensures Sum([a, b, c, d]) == a + b + c + d
  {
    assert [a, b, c, d][..3] == [a, b, c];
    SumOfThree(a, b, c);
  }

  lemma SumOfThree(a: int, b: int, c: int)
    ensures Sum([a, b, c]) == a + b + c
  {
    assert [a, b, c][..2] == [a, b];
    SumOfTwo(a, b);
  }

  lemma SumOfTwo(a: int, b: int)
    ensures Sum([a, b]) == a + b
  {
    assert [a, b][..1] == [a];
    assert [a][..0] == [];
    assert Sum([a]) == a;
  }

  /**
   * The round undone: from its result and `b, c, d`, the word `a` it was
   * computed from (subtract `b`, rotate back by `32 - shift`, subtract the
   * constant, the message word and `F(b,c,d)`, all modulo 2^32).
   */
  function UnRound(f: Func, r: Word, b: Word, c: Word, d: Word, constant: Word, chunk: Word, shift: nat): Word
    requires shift <= 32
  {
    Sub32(Sub32(Sub32(RotateLeft(Sub32(r, b), 32 - shift), constant), chunk), Aux(f, b, c, d))
  }

  /** Each round is invertible in `a`: no two values of `a` give the same result... */
  lemma RoundInverse(f: Func, a: Word, b: Word, c: Word, d: Word, constant: Word, chunk: Word, shift: nat)
    requires shift <= 32
    ensures UnRound(f, Round(f, a, b, c, d, constant, chunk, shift), b, c, d, constant, chunk, shift) == a
  {
    var s1 := Add32(a, Aux(f, b, c, d));
    var s2 := Add32(s1, chunk);
    var s3 := Add32(s2, constant);
    var rotated := RotateLeft(s3, shift);
    AddCommutes(b, rotated);
    AddSub(rotated, b);
    RotateInverse(s3, shift);
    AddSub(s2, constant);
    AddSub(s1, chunk);
    AddSub(a, Aux(f, b, c, d));
  }

  /** ... and every result is reached: the round is a bijection on `a`. */
  lemma UnRoundInverse(f: Func, r: Word, b: Word, c: Word, d: Word, constant: Word, chunk: Word, shift: nat)
    requires shift <= 32
    ensures Round(f, UnRound(f, r, b, c, d, constant, chunk, shift), b, c, d, constant, chunk, shift) == r
  {
    var t1 := Sub32(r, b);
    var t2 := RotateLeft(t1, 32 - shift);
    var t3 := Sub32(t2, constant);
    var t4 := Sub32(t3, chunk);
    var a := Sub32(t4, Aux(f, b, c, d));
    SubAdd(t4, Aux(f, b, c, d));
    SubAdd(t3, chunk);
    SubAdd(t2, constant);
    RotateInverse(t1, 32 - shift);
    assert 32 - (32 - shift) == shift;
    SubAdd(r, b);
    AddCommutes(t1, b);
  }
}
