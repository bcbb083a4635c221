/**
 * The fixed data of md5.py's `MD5.__init__`: the initial register values,
 * the per-round shift amounts and the 64 additive constants, together with
 * the choice of auxiliary function and message word for each round that
 * `_hash` makes in its main loop.
 */
module Md5Tables {
  import opened Arith
  import opened Md5Functions

  /** `self._A` .. `self._D`. */
  const InitA: Word := 0x67452301
  const InitB: Word := 0xEFCDAB89
  const InitC: Word := 0x98BADCFE
  const InitD: Word := 0x10325476

  function Repeat4(s: seq<nat>): seq<nat>
  {
    s + s + s + s
  }

  /** `self.shift`: four groups of four amounts, each group repeated four times. */
  const Shift: seq<nat> := Repeat4([7, 12, 17, 22]) + Repeat4([5, 9, 14, 20]) + Repeat4([4, 11, 16, 23]) + Repeat4([6, 10, 15, 21])

  /**
   * `self.constant`: `floor(2**32 * abs(sin(i + 1)))` for `i` in `0..63`,
   * written out as the table of RFC 1321, section 3.4.
   */
  const Constant: seq<Word> := [
    0xd76aa478, 0xe8c7b756, 0x242070db, 0xc1bdceee,
    0xf57c0faf, 0x4787c62a, 0xa8304613, 0xfd469501,
    0x698098d8, 0x8b44f7af, 0xffff5bb1, 0x895cd7be,
    0x6b901122, 0xfd987193, 0xa679438e, 0x49b40821,
    0xf61e2562, 0xc040b340, 0x265e5a51, 0xe9b6c7aa,
    0xd62f105d, 0x02441453, 0xd8a1e681, 0xe7d3fbc8,
    0x21e1cde6, 0xc33707d6, 0xf4d50d87, 0x455a14ed,
    0xa9e3e905, 0xfcefa3f8, 0x676f02d9, 0x8d2a4c8a,
    0xfffa3942, 0x8771f681, 0x6d9d6122, 0xfde5380c,
    0xa4beea44, 0x4bdecfa9, 0xf6bb4b60, 0xbebfbc70,
    0x289b7ec6, 0xeaa127fa, 0xd4ef3085, 0x04881d05,
    0xd9d4d039, 0xe6db99e5, 0x1fa27cf8, 0xc4ac5665,
    0xf4292244, 0x432aff97, 0xab9423a7, 0xfc93a039,
    0x655b59c3, 0x8f0ccc92, 0xffeff47d, 0x85845dd1,
    0x6fa87e4f, 0xfe2ce6e0, 0xa3014314, 0x4e0811a1,
    0xf7537e82, 0xbd3af235, 0x2ad7d2bb, 0xeb86d391
  ]

  /** The auxiliary function of round `i`: F, G, H, I for the four groups of sixteen. */
  function RoundFunc(i: nat): Func
    requires i < 64
  {
    if i < 16 then F else if i < 32 then G else if i < 48 then H else I
  }

  /** The message word round `i` reads (`pos` in `_hash`). */
  function WordIndex(i: nat): (k: nat)
    requires i < 64
    ensures k < 16
  {
    if i <= 15 then i
    else if i <= 31 then (5 * i + 1) % 16
    else if i <= 47 then (3 * i + 5) % 16
    else (7 * i) % 16
  }

  /** Which round of group `g` reads message word `k`: the inverse of `WordIndex` within the group. */
  function RoundReading(g: nat, k: nat): (j: nat)
    requires g < 4 && k < 16
    ensures j < 16
  {
    if g == 0 then k
    else if g == 1 then (13 * (k + 15)) % 16
    else if g == 2 then (11 * (k + 11)) % 16
    else (7 * k) % 16
  }

  /**
   * Each group of sixteen rounds reads every message word exactly once: the
   * round found by `RoundReading` reads word `k`, and it is the only one.
   */
  lemma EveryWordOncePerGroup(g: nat, j: nat, k: nat)
    requires g < 4 && j < 16 && k < 16
    ensures WordIndex(16 * g + j) == k <==> RoundReading(g, k) == j
  {
    if g == 1 {
      SecondGroup(j, k);
    } else if g == 2 {
      ThirdGroup(j, k);
    } else if g == 3 {
      FourthGroup(j, k);
    }
  }

  lemma SecondGroup(j: nat, k: nat)
    requires j < 16 && k < 16
    ensures (5 * (16 + j) + 1) % 16 == k <==> (13 * (k + 15)) % 16 == j
  {
    DivModUnique(5 * (16 + j) + 1, 16, (5 * (16 + j) + 1) / 16, (5 * (16 + j) + 1) % 16);
  }

  lemma ThirdGroup(j: nat, k: nat)
    requires j < 16 && k < 16
    ensures (3 * (32 + j) + 5) % 16 == k <==> (11 * (k + 11)) % 16 == j
  {
  }

  lemma FourthGroup(j: nat, k: nat)
    requires j < 16 && k < 16
    ensures (7 * (48 + j)) % 16 == k <==> (7 * k) % 16 == j
  {
  }

  /** The table sizes and ranges `_hash` relies on. */
  lemma TablesWellFormed()
    ensures |Shift| == 64 && |Constant| == 64
    ensures forall i :: 0 <= i < 64 ==> 0 < Shift[i] < 32
  {
    forall i | 0 <= i < 64
      ensures 0 < Shift[i] < 32
    {
      assert Shift[i] in Shift;
    }
  }
}
