/** What the functions of the "Salsa20 specification" compute. */
module Salsa20Laws {
  import opened Bits
  import opened Limbs
  import opened Salsa20

  // ----- section 3 -----

  /** w is u rotated left by c: the word congruent to 2^c u modulo 2^32 - 1 that is 0 only for 0. */
  ghost predicate Rotated(w: int, u: int, factor: int) {
    0 <= w < 0x1_0000_0000 && (w == 0 <==> u == 0) && w % 0xffff_ffff == (u * factor) % 0xffff_ffff
  }

  /** What a line of the quarter round xors into its word. */
  lemma Line(y: u32, a: u32, b: u32, c: nat)
    requires c <= 32
    ensures Rotated(Xor(y, Xor(y, Rotl(Sum(a, b), c))), (a as int + b as int) % 0x1_0000_0000, Pow(2, c))
  {
    hide Xor, Rotl, Pow;
    XorTwice(y, Rotl(Sum(a, b), c));
    RotlIsMultiplication(Sum(a, b), c);
  }

  lemma WordXor(y: u32, a: u32, b: u32, c: nat)
    requires c <= 32
    ensures 0 <= Xor(y, Rotl(Sum(a, b), c)) < 0x1_0000_0000
  {
    hide Xor, Rotl, Pow;
    RotlIsMultiplication(Sum(a, b), c);
    WordIsPower();
    XorRange(y, Rotl(Sum(a, b), c), 32);
  }

  lemma Factors()
    ensures Pow(2, 7) == 128 && Pow(2, 9) == 512 && Pow(2, 13) == 8192 && Pow(2, 18) == 262144
  {
    assert Pow(2, 9) == 512;
    PowAdd(2, 9, 9);
    PowAdd(2, 9, 4);
    assert Pow(2, 4) == 16;
  }

  /** The quarter round, line by line: sums modulo 2^32, rotations by 7, 9, 13 and 18. */
  lemma QuarterRoundLines(y: seq<u32>)
    requires |y| == 4
    ensures var z := QuarterRound(y);
      && (forall i :: 0 <= i < 4 ==> 0 <= z[i] < 0x1_0000_0000)
      && Rotated(Xor(y[1], z[1]), (y[0] as int + y[3] as int) % 0x1_0000_0000, 128)
      && Rotated(Xor(y[2], z[2]), (z[1] as int + y[0] as int) % 0x1_0000_0000, 512)
      && Rotated(Xor(y[3], z[3]), (z[2] as int + z[1] as int) % 0x1_0000_0000, 8192)
      && Rotated(Xor(y[0], z[0]), (z[3] as int + z[2] as int) % 0x1_0000_0000, 262144)
  {
    hide Xor, Rotl, Sum, Rotated, Pow;
    var z := QuarterRound(y);
    Factors();
    WordXor(y[1], y[0], y[3], 7);
    WordXor(y[2], z[1], y[0], 9);
    WordXor(y[3], z[2], z[1], 13);
    WordXor(y[0], z[3], z[2], 18);
    Line(y[1], y[0], y[3], 7);
    Line(y[2], z[1], y[0], 9);
    Line(y[3], z[2], z[1], 13);
    Line(y[0], z[3], z[2], 18);
  }

  // ----- sections 4 and 5 -----

  /** Column j, read from the diagonal downwards and round, goes through the quarter round in its place. */
  lemma ColumnPlaces(y: seq<int>, j: nat, m: nat)
    requires |y| == 16 && j < 4 && m < 4
    ensures ColumnRound(y)[(5 * j + 4 * m) % 16]
         == QuarterRound([y[5 * j], y[(5 * j + 4) % 16], y[(5 * j + 8) % 16], y[(5 * j + 12) % 16]])[m]
  {
    hide QuarterRound;
    assert j == 0 || j == 1 || j == 2 || j == 3;
    assert m == 0 || m == 1 || m == 2 || m == 3;
  }

  /** Row j, read from the diagonal to the right and round, goes through the quarter round in its place. */
  lemma RowPlaces(y: seq<int>, j: nat, m: nat)
    requires |y| == 16 && j < 4 && m < 4
    ensures RowRound(y)[4 * j + (j + m) % 4]
         == QuarterRound([y[5 * j], y[4 * j + (j + 1) % 4], y[4 * j + (j + 2) % 4], y[4 * j + (j + 3) % 4]])[m]
  {
    hide QuarterRound;
    assert j == 0 || j == 1 || j == 2 || j == 3;
    assert m == 0 || m == 1 || m == 2 || m == 3;
  }

  // ----- sections 6 to 9 -----

  /** A column round followed by a row round, n times. */
  lemma DoubleRoundsStep(y: seq<int>, n: nat)
    requires |y| == 16
    ensures DoubleRounds(y, 0) == y && DoubleRounds(y, n + 1) == RowRound(ColumnRound(DoubleRounds(y, n)))
  {
    hide RowRound, ColumnRound;
  }

  /** Word i of written words is at bytes 4i to 4i + 3. */
  lemma {:induction false} BytesOfWord(w: seq<int>, i: nat)
    requires i < |w|
    ensures WordBytes(w)[4 * i..4 * i + 4] == ToDigits(0x100, w[i], 4)
    decreases |w|
  {
    hide *;
    var n := |w| - 1;
    WordBytesStep(w, n);
    assert w[..n + 1] == w;
    var head := WordBytes(w[..n]);
    if i < n {
      BytesOfWord(w[..n], i);
      assert WordBytes(w)[4 * i..4 * i + 4] == head[4 * i..4 * i + 4];
    } else {
      assert WordBytes(w)[4 * n..] == ToDigits(0x100, w[n], 4);
    }
  }

  lemma WordOfWords(w: seq<int>, i: nat)
    requires i < |w|
    ensures WordAt(WordBytes(w), i) == w[i] % 0x1_0000_0000
  {
    hide WordBytes, ToDigits, Value;
    BytesOfWord(w, i);
    FourDigits(w[i]);
  }

  lemma FourDigits(v: int)
    ensures Value(0x100, ToDigits(0x100, v, 4)) == v % 0x1_0000_0000
  {
    assert Pow(0x100, 4) == 0x1_0000_0000;
    hide ToDigits, Value;
    ValueToDigits(0x100, v, 4);
  }

  /** A Salsa20 block: every word of the square after ten double rounds, plus the word before, modulo 2^32. */
  lemma SalsaWords(k: seq<int>, n: seq<int>, c: seq<int>, i: nat)
    requires |k| == 32 && |n| == 16 && |c| == 16 && i < 16
    ensures WordAt(Salsa(k, n, c), i)
         == (DoubleRounds(Expanded(k, n, c), DOUBLE_ROUNDS)[i] + Expanded(k, n, c)[i]) % 0x1_0000_0000
  {
    hide *;
    var x := Expanded(k, n, c);
    var z := DoubleRounds(x, DOUBLE_ROUNDS);
    SalsaDef(k, n, c);
    WordOfWords(SumWords(z, x), i);
    SumWord(z, x, i);
  }

  lemma SalsaDef(k: seq<int>, n: seq<int>, c: seq<int>)
    requires |k| == 32 && |n| == 16 && |c| == 16
    ensures Salsa(k, n, c) == WordBytes(SumWords(DoubleRounds(Expanded(k, n, c), DOUBLE_ROUNDS), Expanded(k, n, c)))
  {
    hide WordBytes, SumWords, DoubleRounds, Expanded;
  }

  lemma SumWord(z: seq<int>, x: seq<int>, i: nat)
    requires |z| == |x| && i < |x|
    ensures SumWords(z, x)[i] % 0x1_0000_0000 == (z[i] + x[i]) % 0x1_0000_0000
  {
  }

  /** HSalsa20: words 0, 5, 10, 15, 6, 7, 8, 9 after ten double rounds, nothing added. */
  lemma HSalsaWords(k: seq<int>, n: seq<int>, c: seq<int>, i: nat)
    requires |k| == 32 && |n| == 16 && |c| == 16 && i < 8
    ensures WordAt(HSalsa(k, n, c), i)
         == DoubleRounds(Expanded(k, n, c), DOUBLE_ROUNDS)[if i < 4 then 5 * i else i + 2] % 0x1_0000_0000
  {
    hide *;
    var z := DoubleRounds(Expanded(k, n, c), DOUBLE_ROUNDS);
    HSalsaDef(k, n, c);
    KeyWord(z, i);
    WordOfWords(Diagonal(z) + InputWords(z), i);
  }

  lemma HSalsaDef(k: seq<int>, n: seq<int>, c: seq<int>)
    requires |k| == 32 && |n| == 16 && |c| == 16
    ensures var z := DoubleRounds(Expanded(k, n, c), DOUBLE_ROUNDS);
      HSalsa(k, n, c) == WordBytes(Diagonal(z) + InputWords(z))
  {
    hide WordBytes, DoubleRounds, Expanded, Diagonal, InputWords;
  }

  lemma KeyWord(z: seq<int>, i: nat)
    requires |z| == 16 && i < 8
    ensures |Diagonal(z) + InputWords(z)| == 8
    ensures (Diagonal(z) + InputWords(z))[i] == z[if i < 4 then 5 * i else i + 2]
  {
  }
}
