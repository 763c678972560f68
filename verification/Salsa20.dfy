/**
 The Salsa20 core, HSalsa20 and the Salsa20 and XSalsa20 streams, against Bernstein's
 "Salsa20 specification". The C type u32 is 64 bits wide here, so the code's registers hold
 64-bit integers of which only the low 32 bits are meant.
 */
module Salsa20 {
  import opened Bits
  import opened Limbs

  // ----- Salsa20 specification: words (section 2) -----

  const WORD: int := 0x1_0000_0000

  /** u <<< c on a 32-bit word. */
  ghost function Rotl(u: int, c: nat): int
    requires c <= 32
  {
    (u * Pow(2, c)) % WORD + u / Pow(2, 32 - c)
  }

  /** Section 2: the unique word congruent to 2^c u modulo 2^32 - 1 that is 0 only for u = 0. */
  lemma RotlIsMultiplication(u: u32, c: nat)
    requires c <= 32
    ensures 0 <= Rotl(u, c) < WORD && (Rotl(u, c) == 0 <==> u == 0)
    ensures Rotl(u, c) % (WORD - 1) == (u * Pow(2, c)) % (WORD - 1)
  {
    hide *;
    RotationParts(u, c);
    RotlParts(u, c);
    RotatedWord(u, Pow(2, c), Pow(2, 32 - c), u * Pow(2, c), Rotl(u, c));
  }

  lemma RotatedWord(u: u32, p: int, q: int, v: int, r: int)
    requires p > 0 && q > 0
    requires r == v % 0x1_0000_0000 + u / q && v / 0x1_0000_0000 == u / q < p
    requires v % 0x1_0000_0000 == p * (u % q) <= 0x1_0000_0000 - p
    ensures 0 <= r < 0x1_0000_0000 && (r == 0 <==> u == 0)
    ensures r % 0xffff_ffff == v % 0xffff_ffff
  {
    RoundTheTop(v, u / q);
    ZeroWord(u, p, q);
  }

  /** Bits that leave at the top of a word and come back at the bottom, modulo 2^32 - 1. */
  lemma RoundTheTop(v: int, high: int)
    requires high == v / 0x1_0000_0000
    ensures (v % 0x1_0000_0000 + high) % 0xffff_ffff == v % 0xffff_ffff
  {
    assert v == (v % 0x1_0000_0000 + high) + 0xffff_ffff * high;
    ModShift(v % 0x1_0000_0000 + high, high, 0xffff_ffff);
  }

  /** The two parts of a rotated word: the kept bits, shifted up, and the bits that go round. */
  lemma RotationParts(u: u32, c: nat)
    requires c <= 32
    ensures (u * Pow(2, c)) % WORD == Pow(2, c) * (u % Pow(2, 32 - c))
    ensures (u * Pow(2, c)) / WORD == u / Pow(2, 32 - c)
    ensures 0 <= u / Pow(2, 32 - c) < Pow(2, c)
    ensures 0 <= Pow(2, c) * (u % Pow(2, 32 - c)) <= WORD - Pow(2, c)
  {
    var p, q := Pow(2, c), Pow(2, 32 - c);
    PowAdd(2, c, 32 - c);
    assert p * q == WORD by { WordIsPower(); }
    hide Pow;
    SplitProduct(u, p, q);
  }

  // ----- Salsa20 specification: rounds (sections 3 to 6) -----

  ghost function Sum(a: int, b: int): int {
    (a + b) % WORD
  }

  ghost function QuarterRound(y: seq<int>): (z: seq<int>)
    requires |y| == 4
    ensures |z| == 4
  {
    var z1 := Xor(y[1], Rotl(Sum(y[0], y[3]), 7));
    var z2 := Xor(y[2], Rotl(Sum(z1, y[0]), 9));
    var z3 := Xor(y[3], Rotl(Sum(z2, z1), 13));
    var z0 := Xor(y[0], Rotl(Sum(z3, z2), 18));
    [z0, z1, z2, z3]
  }

  ghost function RowRound(y: seq<int>): (z: seq<int>)
    requires |y| == 16
    ensures |z| == 16
  {
    var a := QuarterRound([y[0], y[1], y[2], y[3]]);
    var b := QuarterRound([y[5], y[6], y[7], y[4]]);
    var c := QuarterRound([y[10], y[11], y[8], y[9]]);
    var d := QuarterRound([y[15], y[12], y[13], y[14]]);
    [a[0], a[1], a[2], a[3], b[3], b[0], b[1], b[2], c[2], c[3], c[0], c[1], d[1], d[2], d[3], d[0]]
  }

  ghost function ColumnRound(y: seq<int>): (z: seq<int>)
    requires |y| == 16
    ensures |z| == 16
  {
    var a := QuarterRound([y[0], y[4], y[8], y[12]]);
    var b := QuarterRound([y[5], y[9], y[13], y[1]]);
    var c := QuarterRound([y[10], y[14], y[2], y[6]]);
    var d := QuarterRound([y[15], y[3], y[7], y[11]]);
    [a[0], b[3], c[2], d[1], a[1], b[0], c[3], d[2], a[2], b[1], c[0], d[3], a[3], b[2], c[1], d[0]]
  }

  ghost function DoubleRound(y: seq<int>): (z: seq<int>)
    requires |y| == 16
    ensures |z| == 16
  {
    RowRound(ColumnRound(y))
  }

  ghost function DoubleRounds(y: seq<int>, n: nat): (z: seq<int>)
    requires |y| == 16
    ensures |z| == 16
  {
    if n == 0 then y else DoubleRound(DoubleRounds(y, n - 1))
  }

  // ----- Salsa20 specification: hash and expansion (sections 7 to 9) -----

  const DOUBLE_ROUNDS: nat := 10

  ghost function WordAt(s: seq<int>, i: nat): int
    requires 4 * i + 4 <= |s|
  {
    Value(0x100, s[4 * i..4 * i + 4])
  }

  ghost function WordBytes(w: seq<int>): (s: seq<int>)
    ensures |s| == 4 * |w|
  {
    if |w| == 0 then [] else WordBytes(w[..|w| - 1]) + ToDigits(0x100, w[|w| - 1], 4)
  }

  /** The 16 words made of constant, key and input; section 9. */
  ghost function Expanded(k: seq<int>, n: seq<int>, c: seq<int>): (x: seq<int>)
    requires |k| == 32 && |n| == 16 && |c| == 16
    ensures |x| == 16
  {
    [WordAt(c, 0), WordAt(k, 0), WordAt(k, 1), WordAt(k, 2),
     WordAt(k, 3), WordAt(c, 1), WordAt(n, 0), WordAt(n, 1),
     WordAt(n, 2), WordAt(n, 3), WordAt(c, 2), WordAt(k, 4),
     WordAt(k, 5), WordAt(k, 6), WordAt(k, 7), WordAt(c, 3)]
  }

  ghost function SumWords(x: seq<int>, y: seq<int>): (z: seq<int>)
    requires |x| == |y|
    ensures |z| == |x|
  {
    seq(|x|, i requires 0 <= i < |x| => Sum(x[i], y[i]))
  }

  /** Section 8: x + doubleround^10(x), as 64 bytes. */
  ghost function Salsa(k: seq<int>, n: seq<int>, c: seq<int>): (s: seq<int>)
    requires |k| == 32 && |n| == 16 && |c| == 16
    ensures |s| == 64
  {
    var x := Expanded(k, n, c);
    WordBytes(SumWords(DoubleRounds(x, DOUBLE_ROUNDS), x))
  }

  /** The words of HSalsa20. */
  ghost function Diagonal(z: seq<int>): seq<int>
    requires |z| == 16
  {
    [z[0], z[5], z[10], z[15]]
  }

  ghost function InputWords(z: seq<int>): seq<int>
    requires |z| == 16
  {
    [z[6], z[7], z[8], z[9]]
  }

  /** HSalsa20: diagonal and input words of doubleround^10(x), with no feed-forward. */
  ghost function HSalsa(k: seq<int>, n: seq<int>, c: seq<int>): (s: seq<int>)
    requires |k| == 32 && |n| == 16 && |c| == 16
    ensures |s| == 32
  {
    var z := DoubleRounds(Expanded(k, n, c), DOUBLE_ROUNDS);
    WordBytes(Diagonal(z) + InputWords(z))
  }

  // ----- the code: 64-bit registers -----

  /** L32 on a 64-bit register. */
  function L32(x: u64, c: nat): (r: u64)
    requires c <= 32
  {
    hide Or, Pow, Cut;
    ShiftRange(x % 0x1_0000_0000, Pow(2, 32 - c));
    OrOfRegisters(Cut(x * Pow(2, c)), (x % 0x1_0000_0000) / Pow(2, 32 - c));
    Or(Cut(x * Pow(2, c)), (x % 0x1_0000_0000) / Pow(2, 32 - c))
  }

  lemma ShiftRange(x: int, p: int)
    requires x >= 0 && p > 0
    ensures 0 <= x / p <= x
  {
    QuotientRange(x, p, x / p, x % p);
  }

  lemma QuotientRange(x: int, p: int, q: int, r: int)
    requires 0 <= r < p && x >= 0 && x == p * q + r
    ensures 0 <= q <= x
  {
    MulBound(p, q);
    if q >= 0 {
      assert p * q == q + (p - 1) * q && (p - 1) * q >= 0;
    }
  }

  lemma OrOfRegisters(x: u64, y: u64)
    ensures 0 <= Or(x, y) < 0x1_0000_0000_0000_0000
  {
    hide Or, Pow;
    WordIsPower();
    OrRange(x, y, 64);
  }

  /** The 32-bit words that registers hold. */
  ghost function Low(s: seq<int>): (t: seq<int>)
    ensures |t| == |s| && forall i :: 0 <= i < |s| ==> t[i] == s[i] % WORD
  {
    seq(|s|, i requires 0 <= i < |s| => s[i] % WORD)
  }

  /** The low 32 bits of L32 are the rotation of the low 32 bits. */
  lemma L32Rotates(x: u64, c: nat)
    requires c <= 32
    ensures L32(x, c) % WORD == Rotl(x % WORD, c)
  {
    var u, p := x % 0x1_0000_0000, Pow(2, c);
    var low := u / Pow(2, 32 - c);
    RotationParts(u, c);
    var a := ShiftedRegister(x, c);
    assert L32(x, c) == Or(a * p, low);
    hide *;
    OrDisjoint(a, low, c);
    LowOfShift(x, p, a * p);
    RotationSum(a * p, u * p, low);
    assert L32(x, c) % 0x1_0000_0000 == (u * p) % 0x1_0000_0000 + low;
    RotlParts(u, c);
  }

  lemma RotlParts(u: int, c: nat)
    requires c <= 32
    ensures Rotl(u, c) == (u * Pow(2, c)) % 0x1_0000_0000 + u / Pow(2, 32 - c)
    ensures WORD == 0x1_0000_0000
  {
  }

  /** Shifting a register left keeps its low bits and clears the vacated ones. */
  lemma ShiftedRegister(x: u64, c: nat) returns (a: int)
    requires c <= 32
    ensures Cut(x * Pow(2, c)) == a * Pow(2, c)
  {
    var p, q := Pow(2, c), Pow(2, 64 - c);
    PowAdd(2, c, 64 - c);
    WordIsPower();
    hide Pow;
    SplitProduct(x, p, q);
    a := x % q;
  }

  lemma LowOfShift(x: int, p: int, v: int)
    requires v == Cut(x * p)
    ensures v % 0x1_0000_0000 == (x % 0x1_0000_0000 * p) % 0x1_0000_0000
  {
    var k, u := x / 0x1_0000_0000, x % 0x1_0000_0000;
    assert x * p == u * p + 0x1_0000_0000 * (k * p) by {
      assert x == u + 0x1_0000_0000 * k;
    }
    ModShift(u * p, k * p, 0x1_0000_0000);
    CutLow(x * p);
  }

  lemma CutLow(x: int)
    ensures Cut(x) % 0x1_0000_0000 == x % 0x1_0000_0000
  {
    var k := x / 0x1_0000_0000_0000_0000;
    assert x == Cut(x) + 0x1_0000_0000 * (0x1_0000_0000 * k);
    ModShift(Cut(x), 0x1_0000_0000 * k, 0x1_0000_0000);
  }

  lemma RotationSum(v: int, w: int, low: int)
    requires v % 0x1_0000_0000 == w % 0x1_0000_0000
    requires 0 <= low && w % 0x1_0000_0000 + low < 0x1_0000_0000
    ensures (v + low) % 0x1_0000_0000 == w % 0x1_0000_0000 + low
  {
  }

  /** One line of the quarter round: t ^= L32(a + b, c), on the low words. */
  function Mix(t: u64, a: u64, b: u64, c: nat): (r: u64)
    requires c <= 32
  {
    var s := L32(Cut(a as int + b as int), c);
    WordIsPower();
    XorRange(t, s, 64);
    Xor(t, s)
  }

  lemma MixLow(t: u64, a: u64, b: u64, c: nat)
    requires c <= 32
    ensures Mix(t, a, b, c) % WORD == Xor(t % WORD, Rotl(Sum(a % WORD, b % WORD), c))
  {
    var v := Cut(a as int + b as int);
    var s := L32(v, c);
    assert Mix(t, a, b, c) == Xor(t, s);
    assert WORD == 0x1_0000_0000;
    assert Sum(a % WORD, b % WORD) == v % WORD by {
      CutLow(a as int + b as int);
      ModAdd(a, b, 0x1_0000_0000);
    }
    hide *;
    L32Rotates(v, c);
    WordIsPower();
    XorMod(t, s, 32);
  }

  /** The place in the square of word m of column j, counted from the diagonal. */
  function Slot(j: nat, m: nat): (p: nat)
    ensures p < 16
  {
    (5 * j + 4 * m) % 16
  }

  /** A column of the square, from its diagonal word down. */
  ghost function Column(x: seq<int>, j: nat): (t: seq<int>)
    requires |x| == 16 && j < 4
    ensures |t| == 4
  {
    [x[Slot(j, 0)], x[Slot(j, 1)], x[Slot(j, 2)], x[Slot(j, 3)]]
  }

  /** Word m of t moved to place (j + m) mod 4. */
  ghost function Turned(t: seq<int>, j: nat): (r: seq<int>)
    requires |t| == 4 && j < 4
    ensures |r| == 4
  {
    seq(4, i requires 0 <= i < 4 => t[(i + 4 - j) % 4])
  }

  /** Lines 103-106: the four registers through the quarter round. */
  method QuarterRoundInPlace(t: array<u64>)
    requires t.Length == 4
    modifies t
    ensures Low(t[..]) == QuarterRound(Low(old(t[..])))
  {
    hide Mix, Rotl, Xor, Sum;
    ghost var s := t[..];
    MixLow(t[1], t[0], t[3], 7);
    t[1] := Mix(t[1], t[0], t[3], 7);
    MixLow(t[2], t[1], t[0], 9);
    t[2] := Mix(t[2], t[1], t[0], 9);
    MixLow(t[3], t[2], t[1], 13);
    t[3] := Mix(t[3], t[2], t[1], 13);
    MixLow(t[0], t[3], t[2], 18);
    t[0] := Mix(t[0], t[3], t[2], 18);
  }

  /** The place in a row that word m of column j goes to. */
  function Place(j: nat, m: nat): (p: nat)
    ensures p < 4
  {
    (j + m) % 4
  }

  lemma PlaceOnce(j: nat, m: nat)
    requires j < 4 && m < 4
    ensures forall i :: 0 <= i < m ==> Place(j, i) != Place(j, m)
    ensures Place(j, (m + 4 - j) % 4) == m
  {
  }

  /** Line 107: the registers go to row j, starting at the diagonal. */
  method WriteRow(t: array<u64>, w: array<u64>, j: nat)
    requires t.Length == 4 && w.Length == 16 && t != w && j < 4
    modifies w
    ensures w[4 * j..4 * j + 4] == Turned(t[..], j)
    ensures w[..4 * j] == old(w[..4 * j]) && w[4 * j + 4..] == old(w[4 * j + 4..])
  {
    hide Place;
    ghost var w0 := w[..];
    for m := 0 to 4
      invariant forall i :: 0 <= i < m ==> w[4 * j + Place(j, i)] == t[i]
      invariant forall i :: 0 <= i < 16 && !(4 * j <= i < 4 * j + 4) ==> w[i] == w0[i]
    {
      PlaceOnce(j, m);
      w[4 * j + Place(j, m)] := t[m];
    }
    ghost var r := w[4 * j..4 * j + 4];
    forall i | 0 <= i < 4
      ensures r[i] == t[(i + 4 - j) % 4]
    {
      PlaceOnce(j, i);
      assert r[i] == w[4 * j + Place(j, (i + 4 - j) % 4)];
    }
  }

  lemma TurnedLow(t: seq<int>, j: nat)
    requires |t| == 4 && j < 4
    ensures Low(Turned(t, j)) == Turned(Low(t), j)
  {
  }

  /** Line 102: column j of x into registers. */
  method LoadColumn(x: array<u64>, j: nat) returns (t: array<u64>)
    requires x.Length == 16 && j < 4
    ensures fresh(t) && t.Length == 4 && Low(t[..]) == Column(Low(x[..]), j)
  {
    hide Slot;
    t := new u64[4];
    for m := 0 to 4
      invariant forall i :: 0 <= i < m ==> t[i] == x[Slot(j, i)]
    {
      t[m] := x[Slot(j, m)];
    }
  }

  /** Lines 102-107: column j of x becomes row j of w. */
  method ColumnToRow(x: array<u64>, w: array<u64>, j: nat)
    requires x.Length == w.Length == 16 && x != w && j < 4
    modifies w
    ensures Low(w[4 * j..4 * j + 4]) == Turned(QuarterRound(Column(Low(x[..]), j)), j)
    ensures w[..4 * j] == old(w[..4 * j]) && w[4 * j + 4..] == old(w[4 * j + 4..])
  {
    hide QuarterRound, Turned, Column;
    var t := LoadColumn(x, j);
    QuarterRoundInPlace(t);
    WriteRow(t, w, j);
    TurnedLow(t[..], j);
  }

  // ----- the code: rounds -----

  ghost function Transpose(y: seq<int>): (z: seq<int>)
    requires |y| == 16
    ensures |z| == 16
  {
    [y[0], y[4], y[8], y[12], y[1], y[5], y[9], y[13], y[2], y[6], y[10], y[14], y[3], y[7], y[11], y[15]]
  }

  /** One iteration of the code's loop: a column round, stored transposed. */
  ghost function Iteration(y: seq<int>): (z: seq<int>)
    requires |y| == 16
    ensures |z| == 16
  {
    Transpose(ColumnRound(y))
  }

  /** A row round is a column round between two transpositions. */
  lemma RowIsTransposedColumn(y: seq<int>)
    requires |y| == 16
    ensures RowRound(y) == Transpose(ColumnRound(Transpose(y)))
  {
    hide QuarterRound;
  }

  ghost function Iterations(y: seq<int>, n: nat): (z: seq<int>)
    requires |y| == 16
    ensures |z| == 16
  {
    if n == 0 then y else Iteration(Iterations(y, n - 1))
  }

  lemma TwoIterations(y: seq<int>)
    requires |y| == 16
    ensures Iteration(Iteration(y)) == DoubleRound(y)
  {
    hide ColumnRound, RowRound, Transpose;
    RowIsTransposedColumn(ColumnRound(y));
  }

  lemma IterationsStep(y: seq<int>, n: nat)
    requires |y| == 16
    ensures Iterations(y, 0) == y == DoubleRounds(y, 0)
    ensures Iterations(y, n + 1) == Iteration(Iterations(y, n))
    ensures DoubleRounds(y, n + 1) == DoubleRound(DoubleRounds(y, n))
  {
    hide Iteration, DoubleRound;
  }

  /** Each pair of iterations is one double round. */
  lemma {:induction false} IterationsInPairs(y: seq<int>, n: nat)
    requires |y| == 16
    ensures Iterations(y, 2 * n) == DoubleRounds(y, n)
    decreases n
  {
    hide *;
    if n == 0 {
      IterationsStep(y, 0);
    } else {
      IterationsInPairs(y, n - 1);
      IterationsStep(y, 2 * n - 2);
      IterationsStep(y, 2 * n - 1);
      IterationsStep(y, n - 1);
      TwoIterations(DoubleRounds(y, n - 1));
    }
  }

  /** The four rows that the columns of y turn into are the iteration's result. */
  lemma RowsOfIteration(y: seq<int>)
    requires |y| == 16
    ensures Iteration(y) == Turned(QuarterRound(Column(y, 0)), 0) + Turned(QuarterRound(Column(y, 1)), 1)
                          + Turned(QuarterRound(Column(y, 2)), 2) + Turned(QuarterRound(Column(y, 3)), 3)
  {
    hide QuarterRound;
  }

  lemma LowAppend(s: seq<int>, t: seq<int>)
    ensures Low(s + t) == Low(s) + Low(t)
  {
  }

  /** The rows below `n` that the columns of y turn into. */
  ghost function Rows(y: seq<int>, n: nat): (r: seq<int>)
    requires |y| == 16 && n <= 4
    ensures |r| == 4 * n
  {
    if n == 0 then [] else Rows(y, n - 1) + Turned(QuarterRound(Column(y, n - 1)), n - 1)
  }

  lemma RowsStep(y: seq<int>, n: nat)
    requires |y| == 16 && n < 4
    ensures Rows(y, 0) == [] && Rows(y, n + 1) == Rows(y, n) + Turned(QuarterRound(Column(y, n)), n)
  {
  }

  lemma AllRows(y: seq<int>)
    requires |y| == 16
    ensures Rows(y, 4) == Iteration(y)
  {
    hide QuarterRound, Turned, Column, Iteration, Rows;
    RowsOfIteration(y);
    RowsStep(y, 0);
    RowsStep(y, 1);
    RowsStep(y, 2);
    RowsStep(y, 3);
  }

  /** Lines 100-109: one of the twenty iterations. */
  method IterateInPlace(x: array<u64>)
    requires x.Length == 16
    modifies x
    ensures Low(x[..]) == Iteration(Low(old(x[..])))
  {
    hide QuarterRound, Turned, Column, Iteration, Rows;
    ghost var y := x[..];
    var w := new u64[16];
    RowsStep(Low(y), 0);
    for j := 0 to 4
      invariant x[..] == y && Low(w[..4 * j]) == Rows(Low(y), j)
    {
      ghost var above := w[..4 * j];
      ColumnToRow(x, w, j);
      RowsStep(Low(y), j);
      assert w[..4 * j + 4] == above + w[4 * j..4 * j + 4];
      LowAppend(above, w[4 * j..4 * j + 4]);
    }
    AllRows(Low(y));
    ghost var v := w[..];
    assert w[..16] == v;
    for m := 0 to 16
      invariant w[..] == v && forall i :: 0 <= i < m ==> x[i] == v[i]
    {
      x[m] := w[m];
    }
    assert x[..] == v;
  }

  /** Lines 98-110: twenty iterations. */
  method TwentyIterations(x: array<u64>)
    requires x.Length == 16
    modifies x
    ensures DOUBLE_ROUNDS == 10 && Low(x[..]) == DoubleRounds(Low(old(x[..])), DOUBLE_ROUNDS)
  {
    hide Iteration, DoubleRounds;
    ghost var y := Low(x[..]);
    for i := 0 to 20
      invariant Low(x[..]) == Iterations(y, i)
    {
      IterateInPlace(x);
    }
    IterationsInPairs(y, DOUBLE_ROUNDS);
  }

  // ----- the code: bytes -----

  /** Shifting a byte in at the bottom of a register with room for it. */
  function ShiftIn(u: u32, b: u8): (r: u64)
    ensures r == u * 0x100 + b
  {
    hide Or;
    OrByte(u, b);
    Or(Cut(u * 0x100), b)
  }

  /** ld32 reads four bytes, least significant first. */
  method Ld32(x: array<u8>, pos: nat) returns (u: u64)
    requires pos + 4 <= x.Length
    ensures u == Value(0x100, x[pos..pos + 4]) && u < 0x1_0000_0000
  {
    hide Value, ShiftIn;
    u := x[pos + 3];
    u := ShiftIn(u, x[pos + 2]);
    u := ShiftIn(u, x[pos + 1]);
    u := ShiftIn(u, x[pos]);
    ValueOfFour(0x100, x[pos..pos + 4]);
  }

  /** st32 writes the low four bytes of a register, least significant first. */
  method St32(x: array<u8>, pos: nat, v: u64)
    requires pos + 4 <= x.Length
    modifies x
    ensures x[pos..pos + 4] == ToDigits(0x100, v, 4)
    ensures x[..pos] == old(x[..pos]) && x[pos + 4..] == old(x[pos + 4..])
  {
    hide Pow, ToDigits;
    ghost var x0 := x[..];
    var u := v;
    PowZero(0x100);
    DigitsStep(v, 0);
    for i := 0 to 4
      invariant u == v / Pow(0x100, i)
      invariant x[pos..pos + i] == ToDigits(0x100, v, i)
      invariant forall k :: 0 <= k < x.Length && !(pos <= k < pos + i) ==> x[k] == x0[k]
    {
      DigitsStep(v, i);
      ghost var done := x[pos..pos + i];
      x[pos + i] := u % 0x100;
      u := u / 0x100;
      assert x[pos..pos + i + 1] == done + [x[pos + i]];
    }
  }

  lemma DigitsStep(v: int, i: nat)
    ensures ToDigits(0x100, v, 0) == []
    ensures ToDigits(0x100, v, i + 1) == ToDigits(0x100, v, i) + [v / Pow(0x100, i) % 0x100]
    ensures v / Pow(0x100, i + 1) == v / Pow(0x100, i) / 0x100
  {
    DivDiv(v, Pow(0x100, i), 0x100);
    PowStep(0x100, i);
  }

  /** The bytes of a word are those of its low 32 bits. */
  lemma DigitsOfLow(v: int)
    ensures ToDigits(0x100, v % WORD, 4) == ToDigits(0x100, v, 4)
  {
    hide ToDigits, Value;
    assert Pow(0x100, 4) == WORD;
    ValueToDigits(0x100, v, 4);
    ValueToDigits(0x100, v % WORD, 4);
    ValueInjective(0x100, ToDigits(0x100, v % WORD, 4), ToDigits(0x100, v, 4));
  }

  lemma WordBytesStep(w: seq<int>, i: nat)
    requires i < |w|
    ensures WordBytes(w[..0]) == []
    ensures WordBytes(w[..i + 1]) == WordBytes(w[..i]) + ToDigits(0x100, w[i], 4)
  {
    assert w[..i + 1][..i] == w[..i];
  }

  lemma {:induction false} WordBytesAppend(v: seq<int>, w: seq<int>)
    ensures WordBytes(v + w) == WordBytes(v) + WordBytes(w)
    decreases |w|
  {
    hide *;
    if |w| == 0 {
      WordBytesEmpty(w);
      assert v + w == v;
    } else {
      var n := |w| - 1;
      WordBytesAppend(v, w[..n]);
      WordBytesStep(v + w, |v| + n);
      WordBytesStep(w, n);
      assert (v + w)[..|v| + n] == v + w[..n];
      assert (v + w)[..|v| + n + 1] == v + w && w[..n + 1] == w;
    }
  }

  lemma WordBytesEmpty(w: seq<int>)
    requires |w| == 0
    ensures WordBytes(w) == []
  {
  }

  // ----- the code: core -----

  /** ld32(x + 4 * i), as word i of the bytes s at x. */
  method LoadWord(x: array<u8>, i: nat, ghost s: seq<int>) returns (u: u64)
    requires 4 * i + 4 <= |s| <= x.Length && s == x[..|s|]
    ensures u == WordAt(s, i) && u < 0x1_0000_0000
  {
    hide Value;
    assert s[4 * i..4 * i + 4] == x[4 * i..4 * i + 4];
    u := Ld32(x, 4 * i);
  }

  /** Where the words of constant, key and input stand in the square. */
  lemma SquareWords(k: seq<int>, n: seq<int>, c: seq<int>, i: nat)
    requires |k| == 32 && |n| == 16 && |c| == 16 && i < 4
    ensures Expanded(k, n, c)[5 * i] == WordAt(c, i)
    ensures Expanded(k, n, c)[1 + i] == WordAt(k, i)
    ensures Expanded(k, n, c)[6 + i] == WordAt(n, i)
    ensures Expanded(k, n, c)[11 + i] == WordAt(k, 4 + i)
  {
    hide WordAt;
    assert i == 0 || i == 1 || i == 2 || i == 3;
  }

  lemma WordRange(s: seq<u8>, i: nat)
    requires 4 * i + 4 <= |s|
    ensures 0 <= WordAt(s, i) < WORD
  {
    hide Value;
    assert Pow(0x100, 4) == WORD;
    ValueBounds(0x100, s[4 * i..4 * i + 4]);
  }

  lemma SquareOfWords(k: seq<u8>, n: seq<u8>, c: seq<u8>)
    requires |k| == 32 && |n| == 16 && |c| == 16
    ensures Low(Expanded(k, n, c)) == Expanded(k, n, c)
  {
    hide WordAt;
    forall i | 0 <= i < 4
      ensures 0 <= WordAt(c, i) < WORD && 0 <= WordAt(n, i) < WORD
    {
      WordRange(c, i);
      WordRange(n, i);
    }
    forall i | 0 <= i < 8
      ensures 0 <= WordAt(k, i) < WORD
    {
      WordRange(k, i);
    }
  }

  /** The places of the square that the first i passes of the loop have filled. */
  ghost predicate Filled(i: nat, j: nat) {
    (j % 5 == 0 && j < 5 * i) || 1 <= j <= i || 6 <= j < 6 + i || 11 <= j < 11 + i
  }

  lemma FilledStep(i: nat, j: nat)
    requires i < 4 && j < 16
    ensures !Filled(0, j) && Filled(4, j)
    ensures Filled(i + 1, j) <==> Filled(i, j) || j == 5 * i || j == 1 + i || j == 6 + i || j == 11 + i
  {
  }

  /** Lines 88-94: the square of constant, key and input words. */
  method LoadSquare(n: array<u8>, k: array<u8>, c: array<u8>) returns (x: array<u64>)
    requires n.Length >= 16 && k.Length >= 32 && c.Length >= 16
    ensures fresh(x) && x.Length == 16 && Low(x[..]) == x[..]
    ensures x[..] == Expanded(k[..32], n[..16], c[..16])
  {
    hide WordAt, Expanded, Filled;
    ghost var sk: seq<int>, sn: seq<int>, sc: seq<int> := k[..32], n[..16], c[..16];
    ghost var square := Expanded(sk, sn, sc);
    x := new u64[16](_ => 0);
    forall j | 0 <= j < 16 ensures !Filled(0, j) && Filled(4, j) {
      FilledStep(0, j);
    }
    for i := 0 to 4
      invariant forall j :: 0 <= j < 16 && Filled(i, j) ==> x[j] == square[j]
    {
      SquareWords(sk, sn, sc, i);
      forall j | 0 <= j < 16 && Filled(i + 1, j)
        ensures Filled(i, j) || j == 5 * i || j == 1 + i || j == 6 + i || j == 11 + i
      {
        FilledStep(i, j);
      }
      x[5 * i] := LoadWord(c, i, sc);
      x[1 + i] := LoadWord(k, i, sk);
      x[6 + i] := LoadWord(n, i, sn);
      x[11 + i] := LoadWord(k, 4 + i, sk);
    }
    SquareOfWords(sk, sn, sc);
  }

  lemma SumOfRegisters(x: u64, y: u64)
    ensures ToDigits(0x100, Cut(x as int + y as int), 4) == ToDigits(0x100, Sum(x % WORD, y % WORD), 4)
  {
    hide ToDigits;
    CutLow(x as int + y as int);
    ModAdd(x, y, WORD);
    DigitsOfLow(Cut(x as int + y as int));
  }

  /** Line 127: the feed-forward sum, as bytes. */
  method StoreSum(out: array<u8>, x: array<u64>, y: array<u64>)
    requires out.Length == 64 && x.Length == y.Length == 16
    modifies out
    ensures out[..] == WordBytes(SumWords(Low(x[..]), Low(y[..])))
  {
    hide WordBytes, ToDigits, Sum;
    ghost var s := SumWords(Low(x[..]), Low(y[..]));
    WordBytesStep(s, 0);
    for i := 0 to 16
      invariant out[..4 * i] == WordBytes(s[..i])
    {
      ghost var done := out[..4 * i];
      SumOfRegisters(x[i], y[i]);
      St32(out, 4 * i, Cut(x[i] as int + y[i] as int));
      WordBytesStep(s, i);
      assert out[..4 * i + 4] == done + out[4 * i..4 * i + 4];
    }
    assert s[..16] == s && out[..64] == out[..];
  }

  /** Taking the feed-forward back off a register. */
  lemma TakeBack(x: u64, y: u64)
    ensures Cut(Cut(x as int + y as int) as int - y as int) == x
  {
  }

  /** The places whose feed-forward the first i passes of the loop have taken off. */
  ghost predicate Undone(i: nat, j: nat) {
    (j % 5 == 0 && j < 5 * i) || 6 <= j < 6 + i
  }

  lemma UndoneStep(i: nat, j: nat)
    requires i < 4 && j < 16
    ensures !Undone(0, j)
    ensures Undone(i + 1, j) <==> Undone(i, j) || j == 5 * i || j == 6 + i
    ensures !Undone(i, 5 * i) && !Undone(i, 6 + i) && 5 * i != 6 + i
  {
  }

  /** Lines 114-119: the words that HSalsa20 returns get the feed-forward added and taken off. */
  method UndoFeedForward(x: array<u64>, y: array<u64>, n: array<u8>, ghost k: seq<int>, c: array<u8>)
    requires x.Length == y.Length == 16 && x != y && n.Length >= 16 && |k| == 32 && c.Length >= 16
    requires y[..] == Expanded(k, n[..16], c[..16])
    modifies x
    ensures forall j :: 0 <= j < 16 && Undone(4, j) ==> x[j] == old(x[j])
  {
    hide WordAt, Cut, Undone, Expanded;
    ghost var z, s := x[..], y[..];
    ghost var sum := seq(16, j requires 0 <= j < 16 => Cut(z[j] as int + s[j] as int));
    for i := 0 to 16
      invariant forall j :: 0 <= j < i ==> x[j] == sum[j]
      invariant forall j :: i <= j < 16 ==> x[j] == z[j]
    {
      x[i] := Cut(x[i] as int + y[i] as int);
    }
    forall j | 0 <= j < 16 ensures !Undone(0, j) {
      UndoneStep(0, j);
    }
    for i := 0 to 4
      invariant forall j :: 0 <= j < 16 ==> x[j] == if Undone(i, j) then z[j] else sum[j]
    {
      SquareWords(k, n[..16], c[..16], i);
      forall j | 0 <= j < 16
        ensures Undone(i + 1, j) <==> Undone(i, j) || j == 5 * i || j == 6 + i
      {
        UndoneStep(i, j);
      }
      UndoneStep(i, 0);
      TakeBack(z[5 * i], y[5 * i]);
      TakeBack(z[6 + i], y[6 + i]);
      var u := LoadWord(c, i, c[..16]);
      assert u == y[..][5 * i];
      x[5 * i] := Cut(x[5 * i] as int - u as int);
      u := LoadWord(n, i, n[..16]);
      assert u == y[..][6 + i];
      x[6 + i] := Cut(x[6 + i] as int - u as int);
    }
  }

  /** Lines 122-123: one word in each half of the output. */
  method StorePair(out: array<u8>, i: nat, u: u64, v: u64)
    requires out.Length == 32 && i < 4
    modifies out
    ensures out[..4 * i + 4] == old(out[..4 * i]) + ToDigits(0x100, u % WORD, 4)
    ensures out[16..16 + 4 * i + 4] == old(out[16..16 + 4 * i]) + ToDigits(0x100, v % WORD, 4)
  {
    hide ToDigits;
    ghost var s := out[..];
    DigitsOfLow(u);
    DigitsOfLow(v);
    St32(out, 4 * i, u);
    ghost var t := out[..];
    assert t[..4 * i] == s[..4 * i] && t[4 * i..4 * i + 4] == ToDigits(0x100, u, 4) && t[4 * i + 4..] == s[4 * i + 4..];
    St32(out, 16 + 4 * i, v);
    PairLayout(s, t, out[..], i);
    assert out[..][..4 * i + 4] == out[..4 * i + 4];
    assert out[..][16..16 + 4 * i + 4] == out[16..16 + 4 * i + 4];
  }

  lemma PairLayout(s: seq<int>, t: seq<int>, out: seq<int>, i: nat)
    requires |s| == |t| == |out| == 32 && i < 4
    requires t[..4 * i] == s[..4 * i] && t[4 * i + 4..] == s[4 * i + 4..] && out[..16 + 4 * i] == t[..16 + 4 * i]
    ensures out[..4 * i + 4] == s[..4 * i] + t[4 * i..4 * i + 4]
    ensures out[16..16 + 4 * i + 4] == s[16..16 + 4 * i] + out[16 + 4 * i..16 + 4 * i + 4]
  {
    assert out[..4 * i + 4] == out[..16 + 4 * i][..4 * i + 4] == t[..4 * i + 4];
    assert out[16..16 + 4 * i] == out[..16 + 4 * i][16..] == t[16..16 + 4 * i];
    assert t[16..16 + 4 * i] == t[4 * i + 4..][12 - 4 * i..12] == s[4 * i + 4..][12 - 4 * i..12] == s[16..16 + 4 * i];
  }

  /** Lines 120-124: four diagonal words, then the four words where the input was. */
  method StoreKey(out: array<u8>, x: array<u64>)
    requires out.Length == 32 && x.Length == 16
    modifies out
    ensures out[..] == WordBytes(Diagonal(Low(x[..])) + InputWords(Low(x[..])))
  {
    hide WordBytes, ToDigits;
    ghost var z := Low(x[..]);
    ghost var d, e := Diagonal(z), InputWords(z);
    WordBytesStep(d, 0);
    WordBytesStep(e, 0);
    for i := 0 to 4
      invariant out[..4 * i] == WordBytes(d[..i])
      invariant out[16..16 + 4 * i] == WordBytes(e[..i])
    {
      WordBytesStep(d, i);
      WordBytesStep(e, i);
      StorePair(out, i, x[5 * i], x[6 + i]);
    }
    assert d[..4] == d && e[..4] == e && out[..] == out[..16] + out[16..32];
    WordBytesAppend(d, e);
  }

  /**
   core: the Salsa20 block function, or HSalsa20 when h is set. The output may be one of the
   inputs: all reads precede the stores.
   */
  method Core(out: array<u8>, n: array<u8>, k: array<u8>, c: array<u8>, h: bool)
    requires out.Length == (if h then 32 else 64)
    requires n.Length >= 16 && k.Length >= 32 && c.Length >= 16
    modifies out
    ensures out[..] == if h then HSalsa(old(k[..32]), old(n[..16]), old(c[..16]))
                       else Salsa(old(k[..32]), old(n[..16]), old(c[..16]))
  {
    hide WordBytes, DoubleRounds, WordAt, SumWords, Expanded;
    ghost var key, input, con := k[..32], n[..16], c[..16];
    var x := LoadSquare(n, k, c);
    ghost var s: seq<int> := x[..];
    var y := new u64[16];
    for i := 0 to 16
      invariant k[..32] == key && n[..16] == input && c[..16] == con
      invariant x[..] == s && forall j :: 0 <= j < i ==> y[j] == s[j]
    {
      y[i] := x[i];
    }
    assert y[..] == s;
    TwentyIterations(x);
    if h {
      ghost var z := x[..];
      UndoFeedForward(x, y, n, key, c);
      StoreKey(out, x);
      assert Diagonal(Low(x[..])) + InputWords(Low(x[..])) == Diagonal(Low(z)) + InputWords(Low(z));
    } else {
      StoreSum(out, x, y);
    }
  }
}
