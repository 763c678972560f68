/**
 Little-endian numbers held in sequences of limbs. Limbs may be negative or exceed the
 base: only `Digits` sequences are canonical.
 */
module Limbs {
  import opened Bits

  /** The C integer types; storing into one of these is checked not to overflow. */
  type u8 = x: int | 0 <= x < 0x100
  type u32 = x: int | 0 <= x < 0x1_0000_0000
  type u64 = x: int | 0 <= x < 0x1_0000_0000_0000_0000
  type i64 = x: int | -0x8000_0000_0000_0000 <= x < 0x8000_0000_0000_0000

  /** Arithmetic on u64 wraps around. */
  function Cut(x: int): (r: u64) {
    x % 0x1_0000_0000_0000_0000
  }

  /** A product, named so that proofs need not look inside it. */
  function Times(x: int, y: int): int {
    x * y
  }

  /** The integer that `s` stands for: limb k weighs b^k. */
  ghost function Value(b: int, s: seq<int>): int {
    if |s| == 0 then 0
    else Value(b, s[..|s| - 1]) + s[|s| - 1] * Pow(b, |s| - 1)
  }

  /** Every limb is a digit of base `b`. */
  ghost predicate Digits(b: int, s: seq<int>) {
    forall k :: 0 <= k < |s| ==> 0 <= s[k] < b
  }

  lemma DigitsTake(b: int, s: seq<int>, n: nat)
    requires Digits(b, s) && n <= |s|
    ensures Digits(b, s[..n])
  {
  }

  /** Congruence: the difference is a multiple of `m`. */
  ghost predicate Congruent(x: int, y: int, m: int) {
    exists q :: x - y == m * q
  }

  lemma ValueTake(b: int, s: seq<int>, n: nat)
    requires n < |s|
    ensures Value(b, s[..n + 1]) == Value(b, s[..n]) + s[n] * Pow(b, n)
  {
    assert s[..n + 1][..n] == s[..n];
  }

  lemma ValueSnoc(b: int, s: seq<int>, x: int)
    ensures Value(b, s + [x]) == Value(b, s) + x * Pow(b, |s|)
  {
    assert (s + [x])[..|s|] == s;
  }

  /** The last limb split off, as a quotient by its weight. */
  lemma ValueLast(b: int, s: seq<int>)
    requires |s| > 0
    ensures Value(b, s) == Pow(b, |s| - 1) * s[|s| - 1] + Value(b, s[..|s| - 1])
  {
    hide Pow;
  }

  lemma {:induction false} ValueUpdate(b: int, s: seq<int>, k: nat, v: int)
    requires k < |s|
    ensures Value(b, s[k := v]) == Value(b, s) + (v - s[k]) * Pow(b, k)
    decreases |s|
  {
    var n := |s| - 1;
    var t := s[k := v];
    if k == n {
      assert t[..n] == s[..n];
      assert v * Pow(b, k) == s[k] * Pow(b, k) + (v - s[k]) * Pow(b, k);
    } else {
      assert t[..n] == s[..n][k := v];
      ValueUpdate(b, s[..n], k, v);
    }
  }

  lemma Distribute(p: int, v: int, x: int, w: int)
    ensures p * (v + x * w) == p * v + x * (p * w)
  {
  }

  lemma {:induction false} ValueSplit(b: int, s: seq<int>, n: nat)
    requires n <= |s|
    ensures Value(b, s) == Value(b, s[..n]) + Pow(b, n) * Value(b, s[n..])
    decreases |s|
  {
    var m := |s| - 1;
    if n == |s| {
      assert s[..n] == s;
    } else {
      assert s[..m][..n] == s[..n] && s[..m][n..] == s[n..m];
      assert s[n..][..m - n] == s[n..m];
      var p, w, v, x := Pow(b, n), Pow(b, m - n), Value(b, s[n..m]), s[m];
      assert Value(b, s) == Value(b, s[..m]) + x * Pow(b, m);
      assert Value(b, s[n..]) == v + x * w;
      hide *;
      ValueSplit(b, s[..m], n);
      PowAdd(b, n, m - n);
      Distribute(p, v, x, w);
    }
  }

  lemma {:induction false} ValueZero(b: int, s: seq<int>)
    requires forall k :: 0 <= k < |s| ==> s[k] == 0
    ensures Value(b, s) == 0
    decreases |s|
  {
    if |s| > 0 {
      ValueZero(b, s[..|s| - 1]);
    }
  }

  lemma {:induction false} ValueBounds(b: int, s: seq<int>)
    requires b > 0 && Digits(b, s)
    ensures 0 <= Value(b, s) < Pow(b, |s|)
    decreases |s|
  {
    if |s| > 0 {
      var n := |s| - 1;
      hide Value, Pow;
      ValueLast(b, s);
      PowStep(b, n);
      ValueBounds(b, s[..n]);
      DigitRoom(b, Pow(b, n), s[n]);
    }
  }

  lemma DigitRoom(b: int, p: int, x: int)
    requires 0 <= x < b && 0 < p
    ensures 0 <= p * x && p * x + p <= b * p
  {
    var d := b - 1 - x;
    assert p * d >= 0;
    assert b * p == (d + 1 + x) * p == p * d + p + p * x;
  }

  /** Two canonical numbers of one length with one value are the same limbs. */
  lemma {:induction false} ValueInjective(b: int, s: seq<int>, t: seq<int>)
    requires b > 0 && |s| == |t| && Digits(b, s) && Digits(b, t)
    requires Value(b, s) == Value(b, t)
    ensures s == t
    decreases |s|
  {
    if |s| > 0 {
      var n, p := |s| - 1, Pow(b, |s| - 1);
      hide Value, Pow;
      ValueLast(b, s);
      ValueLast(b, t);
      ValueBounds(b, s[..n]);
      ValueBounds(b, t[..n]);
      ModUnique(Value(b, s), p, s[n], Value(b, s[..n]));
      ModUnique(Value(b, t), p, t[n], Value(b, t[..n]));
      ValueInjective(b, s[..n], t[..n]);
      assert s == s[..n] + [s[n]] && t == t[..n] + [t[n]];
    }
  }

  /** Limbwise `u = s + c * t` adds and scales values. */
  lemma {:induction false} ValueLinear(b: int, u: seq<int>, s: seq<int>, c: int, t: seq<int>)
    requires |u| == |s| == |t|
    requires forall k :: 0 <= k < |u| ==> u[k] == s[k] + c * t[k]
    ensures Value(b, u) == Value(b, s) + c * Value(b, t)
    decreases |u|
  {
    if |u| == 0 {
      ValueZero(b, u);
      ValueZero(b, s);
      ValueZero(b, t);
    } else {
      hide *;
      var n := |u| - 1;
      ValueLinear(b, u[..n], s[..n], c, t[..n]);
      ValueLast(b, u);
      ValueLast(b, s);
      ValueLast(b, t);
      LinearTerm(Pow(b, n), s[n], c, t[n], Value(b, t[..n]));
    }
  }

  lemma LinearTerm(p: int, x: int, c: int, y: int, v: int)
    ensures p * (x + c * y) == p * x + c * (p * y)
    ensures c * (p * y + v) == c * (p * y) + c * v
  {
  }

  /** The `n` low digits of `v`, least significant first. */
  ghost function ToDigits(b: int, v: int, n: nat): (s: seq<int>)
    requires b > 0
    ensures |s| == n && Digits(b, s)
    decreases n
  {
    if n == 0 then [] else ToDigits(b, v, n - 1) + [(v / Pow(b, n - 1)) % b]
  }

  lemma DivModSplit(v: int, p: int, b: int)
    requires p > 0 && b > 0
    ensures b * p > 0 && v % (b * p) == v % p + ((v / p) % b) * p
  {
    var q, r := v / p, v % p;
    var k, d := q / b, q % b;
    assert v == (b * p) * k + (d * p + r) by {
      assert v == p * q + r && q == b * k + d;
      assert p * (b * k + d) == (b * p) * k + d * p;
    }
    assert 0 <= d * p <= (b - 1) * p == b * p - p;
    ModUnique(v, b * p, k, d * p + r);
  }

  /** `ToDigits` is the right inverse of `Value`, up to the dropped high digits. */
  lemma {:induction false} ValueToDigits(b: int, v: int, n: nat)
    requires b > 0
    ensures Value(b, ToDigits(b, v, n)) == v % Pow(b, n)
    decreases n
  {
    if n > 0 {
      hide Value, Pow;
      ValueToDigits(b, v, n - 1);
      ValueSnoc(b, ToDigits(b, v, n - 1), (v / Pow(b, n - 1)) % b);
      PowStep(b, n - 1);
      DivModSplit(v, Pow(b, n - 1), b);
    }
  }

  /** `ToDigits` is the left inverse of `Value` on canonical limbs. */
  lemma ToDigitsValue(b: int, s: seq<int>)
    requires b > 0 && Digits(b, s)
    ensures ToDigits(b, Value(b, s), |s|) == s
  {
    ValueBounds(b, s);
    ValueToDigits(b, Value(b, s), |s|);
    ModUnique(Value(b, s), Pow(b, |s|), 0, Value(b, s));
    ValueInjective(b, ToDigits(b, Value(b, s), |s|), s);
  }

  /** Joining limbs in pairs squares the base. */
  lemma {:induction false} ValueOfPairs(b: int, s: seq<int>, t: seq<int>)
    requires |s| == 2 * |t|
    requires forall k :: 0 <= k < |t| ==> t[k] == s[2 * k] + b * s[2 * k + 1]
    ensures Value(b * b, t) == Value(b, s)
    decreases |t|
  {
    if |t| > 0 {
      var n := |t| - 1;
      assert s[..2 * n + 2] == s;
      hide Value, Pow;
      ValueOfPairs(b, s[..2 * n], t[..n]);
      ValueTake(b, s, 2 * n);
      ValueTake(b, s, 2 * n + 1);
      ValueLast(b * b, t);
      PowStep(b, 2 * n);
      SquareWeight(b, n);
      PairTerm(b, Pow(b, 2 * n), s[2 * n], s[2 * n + 1]);
    }
  }

  lemma PairTerm(b: int, q: int, x: int, y: int)
    ensures q * (x + b * y) == x * q + y * (b * q)
  {
  }

  lemma SquareWeight(b: int, n: nat)
    ensures Pow(b * b, n) == Pow(b, 2 * n)
  {
    PowMul(b, 2, n);
    assert Pow(b, 2) == b * Pow(b, 1) == b * b;
  }

  lemma CongruentMod(x: int, y: int, m: int)
    requires m > 0
    ensures Congruent(x, y, m) <==> x % m == y % m
  {
    if x % m == y % m {
      assert x - y == m * (x / m - y / m) by {
        assert x == m * (x / m) + x % m && y == m * (y / m) + y % m;
      }
    }
    if Congruent(x, y, m) {
      var q :| x - y == m * q;
      var r := y % m;
      assert x == m * (q + y / m) + r by {
        assert y == m * (y / m) + r;
      }
      ModUnique(x, m, q + y / m, r);
    }
  }

  /** The magnitude of a product is at most the product of the magnitudes. */
  lemma MulRange(x: int, y: int, m: int, n: int)
    requires -m <= x <= m && -n <= y <= n
    ensures -(m * n) <= x * y <= m * n
  {
    if x >= 0 {
      assert x * (n - y) >= 0 && x * (n + y) >= 0 && (m - x) * n >= 0;
    } else {
      assert (-x) * (n - y) >= 0 && (-x) * (n + y) >= 0 && (m + x) * n >= 0;
    }
  }

  lemma TimesRange(x: int, y: int, m: int, n: int)
    requires -m <= x <= m && -n <= y <= n
    ensures -(m * n) <= Times(x, y) <= m * n
    ensures x >= 0 && y >= 0 ==> Times(x, y) >= 0
  {
    MulRange(x, y, m, n);
  }

  /** Residues multiply. */
  lemma ModMul(x: int, y: int, m: int)
    requires m > 0
    ensures (x * y) % m == ((x % m) * (y % m)) % m
  {
    var q, r, s, t := x / m, x % m, y / m, y % m;
    assert x * y - r * t == m * (q * y + r * s) by {
      assert x == m * q + r && y == m * s + t;
      calc {
        x * y;
        (m * q + r) * y;
        m * q * y + r * y;
        m * q * y + r * (m * s + t);
        m * (q * y + r * s) + r * t;
      }
    }
    CongruentMod(x * y, r * t, m);
  }

  /** A factor may be reduced before it is multiplied and added to. */
  lemma ModHorner(x: int, r: int, s: int, m: int)
    requires m > 0
    ensures (x % m * r + s) % m == (x * r + s) % m
  {
    var q, y := Division(x, m);
    assert x * r == y * r + m * (q * r);
    ModShift(y * r + s, q * r, m);
  }

  lemma ModMulRight(x: int, y: int, m: int)
    requires m > 0
    ensures (x * (y % m)) % m == (x * y) % m
  {
    ModMul(x, y, m);
    ModMul(x, y % m, m);
    ModUnique(y % m, m, 0, y % m);
  }

  /** Residues add and subtract. */
  lemma ModAdd(x: int, y: int, m: int)
    requires m > 0
    ensures (x + y) % m == (x % m + y % m) % m
    ensures (x - y) % m == (x % m - y % m) % m
  {
    var q, r, s, t := x / m, x % m, y / m, y % m;
    assert x == m * q + r && y == m * s + t;
    assert x + y - (r + t) == m * (q + s);
    assert x - y - (r - t) == m * (q - s);
    CongruentMod(x + y, r + t, m);
    CongruentMod(x - y, r - t, m);
  }

  /** Adding a multiple of the modulus changes no residue. */
  lemma ModShift(x: int, q: int, m: int)
    requires m > 0
    ensures (x + m * q) % m == x % m
  {
    assert x + m * q - x == m * q;
    CongruentMod(x + m * q, x, m);
  }

  /** x times v at weight i. */
  ghost function Scaled(b: int, x: int, i: nat, v: int): int {
    x * (Pow(b, i) * v)
  }

  /**
   One step of the schoolbook product: adding x * y at weight i + j extends a row
   from the value `vy` of the limbs done so far to `vy + y * b^j`.
   */
  lemma ProductStep(b: int, t: seq<int>, i: nat, j: nat, x: int, s: seq<int>, done: int, xy: int)
    requires i + j < |t| && j < |s| && xy == Times(x, s[j])
    requires Value(b, t) == done + Scaled(b, x, i, Value(b, s[..j]))
    ensures Value(b, t[i + j := t[i + j] + xy]) == done + Scaled(b, x, i, Value(b, s[..j + 1]))
  {
    var p, q, v := Pow(b, i), Pow(b, j), Value(b, s[..j]);
    hide Value, Pow;
    ValueUpdate(b, t, i + j, t[i + j] + xy);
    ValueTake(b, s, j);
    PowAdd(b, i, j);
    ProductTerm(x, s[j], p, q, v);
  }

  lemma ProductTerm(x: int, y: int, p: int, q: int, v: int)
    ensures x * (p * (v + y * q)) == x * (p * v) + (x * y) * (p * q)
  {
    assert p * (v + y * q) == p * v + y * (p * q);
    assert x * (p * v + y * (p * q)) == x * (p * v) + (x * y) * (p * q);
  }

  lemma ScaledStart(b: int, x: int, i: nat)
    ensures Value(b, []) == 0 && Scaled(b, x, i, 0) == 0
  {
  }

  /** A finished row extends the product by one limb of the left factor. */
  lemma RowDone(b: int, s: seq<int>, i: nat, v: int)
    requires i < |s|
    ensures Value(b, s[..i]) * v + Scaled(b, s[i], i, v) == Value(b, s[..i + 1]) * v
  {
    var p, va, x := Pow(b, i), Value(b, s[..i]), s[i];
    hide Value, Pow;
    ValueTake(b, s, i);
    assert (va + x * p) * v == va * v + x * (p * v);
  }

  /** A carry chain in progress: the digits written so far and the carry still to place. */
  ghost function Pending(b: int, done: seq<int>, carry: int): int {
    Value(b, done) + carry * Pow(b, |done|)
  }

  /** Writing one digit of carry + x adds x at the next weight and loses nothing. */
  lemma PendingStep(b: int, done: seq<int>, carry: int, x: int)
    requires b > 0
    ensures Pending(b, done + [(carry + x) % b], (carry + x) / b) == Pending(b, done, carry) + x * Pow(b, |done|)
  {
    var w := carry + x;
    hide Value, Pow;
    ValueSnoc(b, done, w % b);
    PowStep(b, |done|);
    PendingTerm(b, w, Pow(b, |done|), carry, x);
  }

  lemma PendingTerm(b: int, w: int, p: int, carry: int, x: int)
    requires b > 0 && w == carry + x
    ensures (w % b) * p + (w / b) * (b * p) == carry * p + x * p
  {
    DigitOut(b, w, p);
  }

  lemma DigitOut(b: int, u: int, p: int)
    requires b > 0
    ensures u * p == (u % b) * p + (u / b) * (b * p)
  {
    assert u == b * (u / b) + u % b;
    assert (b * (u / b) + u % b) * p == (u % b) * p + (u / b) * (b * p);
  }

  lemma PendingDef(b: int, done: seq<int>, carry: int)
    ensures Pending(b, done, carry) == Value(b, done) + carry * Pow(b, |done|)
  {
  }

  lemma PendingStart(b: int, carry: int)
    ensures Value(b, []) == 0
    ensures Pending(b, [], carry) == carry
  {
  }

  /** At the end of a chain of digits the value is kept modulo the weight of the carry. */
  lemma PendingEnd(b: int, done: seq<int>, carry: int)
    requires b > 0 && Digits(b, done)
    ensures Pending(b, done, carry) % Pow(b, |done|) == Value(b, done)
    ensures Pending(b, done, carry) / Pow(b, |done|) == carry
    ensures 0 <= Value(b, done) < Pow(b, |done|)
  {
    hide Value, Pow;
    ValueBounds(b, done);
    ModUnique(Pending(b, done, carry), Pow(b, |done|), carry, Value(b, done));
  }

  /** Zero limbs on top change nothing. */
  lemma ValuePadded(b: int, s: seq<int>, n: nat)
    requires n <= |s| && forall k :: n <= k < |s| ==> s[k] == 0
    ensures Value(b, s) == Value(b, s[..n])
  {
    hide Value, Pow;
    ValueSplit(b, s, n);
    ValueZero(b, s[n..]);
  }

  lemma ValueOfFour(b: int, s: seq<int>)
    requires |s| == 4
    ensures Value(b, s) == s[0] + b * (s[1] + b * (s[2] + b * s[3]))
  {
    assert s[..0] == [] && s[..4] == s;
    assert Value(b, []) == 0;
    assert Pow(b, 0) == 1;
    assert Pow(b, 1) == b;
    assert Pow(b, 2) == b * b;
    assert Pow(b, 3) == b * (b * b);
    hide *;
    ValueTake(b, s, 0);
    ValueTake(b, s, 1);
    ValueTake(b, s, 2);
    ValueTake(b, s, 3);
    FourTerms(b, s[1], s[2], s[3]);
  }

  lemma FourBytes(s: seq<int>)
    requires |s| >= 4
    ensures Value(0x100, s) == Value(0x100, s[..4]) + 0x1_0000_0000 * Value(0x100, s[4..])
  {
    assert Pow(0x100, 4) == 0x1_0000_0000;
    hide *;
    ValueSplit(0x100, s, 4);
  }

  lemma FourTerms(b: int, x: int, y: int, z: int)
    ensures b * (x + b * (y + b * z)) == x * b + y * (b * b) + z * (b * (b * b))
  {
  }

  /** And of numbers is And of their bytes. */
  lemma {:induction false} AndOfBytes(s: seq<int>, t: seq<int>, u: seq<int>)
    requires |s| == |t| == |u| && Digits(0x100, s) && Digits(0x100, t)
    requires forall k :: 0 <= k < |s| ==> u[k] == And(s[k], t[k])
    ensures And(Value(0x100, s), Value(0x100, t)) == Value(0x100, u)
    decreases |s|
  {
    if |s| > 0 {
      var n := |s| - 1;
      DigitsTake(0x100, s, n);
      DigitsTake(0x100, t, n);
      hide *;
      AndOfBytes(s[..n], t[..n], u[..n]);
      ValueLast(0x100, s);
      ValueLast(0x100, t);
      ValueLast(0x100, u);
      ValueBounds(0x100, s[..n]);
      ValueBounds(0x100, t[..n]);
      ByteWeight(n);
      AndSplit(Value(0x100, s[..n]), s[n], Value(0x100, t[..n]), t[n], 8 * n);
    }
  }

  lemma ByteWeight(j: nat)
    ensures Pow(2, 8 * j) == Pow(0x100, j)
  {
    PowMul(2, 8, j);
    assert Pow(2, 8) == 0x100;
  }
}
