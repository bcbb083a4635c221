/**
 * Integer arithmetic shared by the MD5 model: powers of two, the word and
 * byte ranges, and the division/modulo facts the other modules rely on.
 * Dafny's `/` and `%` are Euclidean; for a positive divisor they agree with
 * Python's floor division and modulo, which is what md5.py uses.
 */
module Arith {

  const Two32: int := 0x1_0000_0000
  const Two64: int := 0x1_0000_0000_0000_0000

  /** A 32-bit unsigned value, as held in md5.py's registers A..D. */
  type Word = x: int | 0 <= x < 0x1_0000_0000

  /** An 8-bit unsigned value. */
  type Byte = x: int | 0 <= x < 256

  function Pow2(n: nat): (r: nat)
    ensures r > 0
  {
    if n == 0 then 1 else 2 * Pow2(n - 1)
  }

  lemma {:induction false} Pow2Add(a: nat, b: nat)
    ensures Pow2(a + b) == Pow2(a) * Pow2(b)
  {
    if b > 0 {
      Pow2Add(a, b - 1);
      assert Pow2(a + b) == 2 * Pow2(a + b - 1);
    }
  }

  lemma Pow2Values()
    ensures Pow2(8) == 256 && Pow2(16) == 0x1_0000 && Pow2(24) == 0x100_0000
    ensures Pow2(32) == Two32 && Pow2(64) == Two64
  {
    assert Pow2(8) == 256;
    Pow2Add(8, 8);
    assert Pow2(16) == 0x1_0000;
    Pow2Add(16, 8);
    Pow2Add(16, 16);
    assert Pow2(32) == Two32;
    Pow2Add(32, 32);
  }

  lemma Pow2Word()
    ensures Pow2(32) == Two32
  {
    Pow2Values();
  }

  lemma MulPred(k: int, d: int)
    ensures (k - 1) * d + d == k * d
  {
  }

  lemma DistributeDouble(x: int, p: int, doubled: int, y: int, bit: int)
    requires doubled == 2 * p
    ensures 2 * (x * p + y) + bit == x * doubled + (2 * y + bit)
  {
  }

  lemma Distribute(a: int, b: int, c: int)
    ensures (a + b) * c == a * c + b * c
  {
  }

  /** Division is determined by any quotient/remainder pair in range. */
  lemma DivModUnique(n: int, d: int, q: int, r: int)
    requires d > 0 && 0 <= r < d && n == q * d + r
    ensures n / d == q && n % d == r
  {
    var q', r' := n / d, n % d;
    assert q' * d + r' == q * d + r;
    assert (q' - q) * d == r - r' by {
      assert (q' - q) * d == q' * d - q * d;
    }
    if q' - q >= 1 {
      MulAtLeast(q' - q, d);
    } else if q - q' >= 1 {
      MulAtLeast(q - q', d);
    }
  }

  lemma MulAtLeast(k: int, d: int)
    requires k >= 1 && d > 0
    ensures k * d >= d
  {
    assert k * d == (k - 1) * d + d;
  }

  lemma MulAtMost(k: int, j: int, a: int)
    requires 0 <= k <= j && a > 0
    ensures k * a <= j * a
  {
    assert j * a - k * a == (j - k) * a;
  }

  /** `n == q2 * (a*b) + (r2*a + r1)` for the two-step division of `n` by `a`, then `b`. */
  lemma TwoStepDivision(n: int, a: int, b: int)
    requires a > 0 && b > 0
    ensures n == (n / a / b) * (a * b) + ((n / a) % b * a + n % a)
    ensures 0 <= (n / a) % b * a + n % a < a * b
  {
    var q1, r1 := n / a, n % a;
    var q2, r2 := q1 / b, q1 % b;
    assert q1 * a == (q2 * b + r2) * a;
    assert (q2 * b + r2) * a == q2 * (a * b) + r2 * a;
    MulAtMost(r2, b - 1, a);
    assert (b - 1) * a == a * b - a;
  }

  lemma DivDiv(n: int, a: int, b: int)
    requires a > 0 && b > 0
    ensures n / a / b == n / (a * b)
  {
    TwoStepDivision(n, a, b);
    DivModUnique(n, a * b, n / a / b, (n / a) % b * a + n % a);
  }

  /** The bits of `n` above position `a` but below `a*b` survive a `% (a*b)`. */
  lemma ModDiv(n: int, a: int, b: int)
    requires a > 0 && b > 0
    ensures (n % (a * b)) / a == (n / a) % b
    ensures (n % (a * b)) % a == n % a
  {
    TwoStepDivision(n, a, b);
    var r := (n / a) % b * a + n % a;
    DivModUnique(n, a * b, n / a / b, r);
    DivModUnique(r, a, (n / a) % b, n % a);
  }

  /** The quotient by `a` reduced modulo `b`, recombined with the remainder by `a`. */
  lemma Recombine(n: int, a: int, b: int)
    requires a > 0 && b > 0
    ensures ((n / a) % b) * a + n % a == n % (a * b)
  {
    ModDiv(n, a, b);
    var m := n % (a * b);
    assert m == (m / a) * a + m % a;
  }

  /** Shifting left by one and adding a bit, then reducing, is the same as
      reducing first. */
  lemma ModDouble(q: int, bit: int, m: int)
    requires m > 0 && 0 <= bit < 2
    ensures (2 * q + bit) % (2 * m) == 2 * (q % m) + bit
  {
    DivModUnique(2 * q + bit, 2 * m, q / m, 2 * (q % m) + bit);
  }

  /** Addition of words modulo 2^32. */
  function Add32(x: Word, y: Word): Word
  {
    (x + y) % Two32
  }

  /** Subtraction of words modulo 2^32. */
  function Sub32(x: Word, y: Word): Word
  {
    (x - y) % Two32
  }

  /** Subtracting what was added gives the word back. */
  lemma AddSub(x: Word, y: Word)
    ensures Sub32(Add32(x, y), y) == x
  {
    var k := (x + y) / Two32;
    assert (x + y) % Two32 - y == x - k * Two32;
    DivModUnique(x - k * Two32, Two32, -k, x);
  }

  /** Adding what was subtracted gives the word back. */
  lemma SubAdd(x: Word, y: Word)
    ensures Add32(Sub32(x, y), y) == x
  {
    var k := (x - y) / Two32;
    assert (x - y) % Two32 + y == x - k * Two32;
    DivModUnique(x - k * Two32, Two32, -k, x);
  }

  lemma AddCommutes(x: Word, y: Word)
    ensures Add32(x, y) == Add32(y, x)
  {
    assert x + y == y + x;
  }

  /** Sum of a sequence, accumulated from the left as `_addMod32` does. */
  function Sum(args: seq<int>): int
  {
    if args == [] then 0 else Sum(args[..|args| - 1]) + args[|args| - 1]
  }

  /**
   * `_addMod32`: add every argument, then reduce modulo 2^32 with Python's
   * (floor) `%`, so a negative argument is brought back into range too.
   */
  method AddMod32(args: seq<int>) returns (r: Word)
    ensures r == Sum(args) % Two32
    ensures (r - Sum(args)) % Two32 == 0
  {
    var result := 0;
    var k := 0;
    while k < |args|
      invariant 0 <= k <= |args|
      invariant result == Sum(args[..k])
    {
      assert args[..k + 1][..k] == args[..k];
      result := result + args[k];
      k := k + 1;
    }
    assert args[..|args|] == args;
    r := result % Two32;
  }
}
