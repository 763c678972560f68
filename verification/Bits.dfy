/**
 Bitwise operators on unbounded integers in two's complement, as C applies them to
 in-range values, together with exact powers and the laws that relate the two.
 */
module Bits {

  /** `b` multiplied with itself `n` times. */
  function Pow(b: int, n: nat): (r: int)
    ensures b > 0 ==> r > 0
    decreases n
  {
    if n == 0 then 1 else b * Pow(b, n - 1)
  }

  lemma PowZero(b: int)
    ensures Pow(b, 0) == 1 && Pow(b, 1) == b
  {
  }

  lemma PowStep(b: int, n: nat)
    ensures Pow(b, n + 1) == b * Pow(b, n)
  {
  }

  lemma MulAssociates(x: int, y: int, z: int)
    ensures x * (y * z) == (x * y) * z
  {
  }

  lemma {:induction false} PowAdd(b: int, m: nat, n: nat)
    ensures Pow(b, m + n) == Pow(b, m) * Pow(b, n)
    decreases m
  {
    if m > 0 {
      PowStep(b, m - 1);
      PowStep(b, m - 1 + n);
      hide *;
      PowAdd(b, m - 1, n);
      MulAssociates(b, Pow(b, m - 1), Pow(b, n));
    }
  }

  lemma {:induction false} PowMul(b: int, m: nat, n: nat)
    ensures Pow(b, m * n) == Pow(Pow(b, m), n)
    decreases n
  {
    if n == 0 {
      assert m * n == 0;
    } else {
      assert m * n == m + m * (n - 1) && 0 <= m * (n - 1);
      PowMul(b, m, n - 1);
      PowAdd(b, m, m * (n - 1));
    }
  }

  /** How far `x` is from the two fixed points 0 and -1 of halving. */
  ghost function Spread(x: int): (r: nat) {
    if x >= 0 then x else -x - 1
  }

  function And(x: int, y: int): int
    decreases Spread(x)
  {
    if x == 0 then 0
    else if x == -1 then y
    else 2 * And(x / 2, y / 2) + (x % 2) * (y % 2)
  }

  function Or(x: int, y: int): int
    decreases Spread(x)
  {
    if x == 0 then y
    else if x == -1 then -1
    else 2 * Or(x / 2, y / 2) + (if x % 2 == 1 then 1 else y % 2)
  }

  function Xor(x: int, y: int): int
    decreases Spread(x)
  {
    if x == 0 then y
    else if x == -1 then -1 - y
    else 2 * Xor(x / 2, y / 2) + (x % 2 + y % 2) % 2
  }

  function Not(x: int): int {
    -1 - x
  }

  /** The low bit and the remaining bits of a xor, with no special case for 0 and -1. */
  lemma XorUnfold(x: int, y: int)
    ensures Xor(x, y) == 2 * Xor(x / 2, y / 2) + (x % 2 + y % 2) % 2
    ensures Xor(x, y) / 2 == Xor(x / 2, y / 2)
    ensures Xor(x, y) % 2 == (x % 2 + y % 2) % 2
  {
  }

  lemma AndUnfold(x: int, y: int)
    ensures And(x, y) == 2 * And(x / 2, y / 2) + (x % 2) * (y % 2)
  {
  }

  lemma {:induction false} XorCommutes(x: int, y: int)
    ensures Xor(x, y) == Xor(y, x)
    decreases Spread(x) + Spread(y)
  {
    if Spread(x) + Spread(y) > 0 {
      XorUnfold(x, y);
      XorUnfold(y, x);
      XorCommutes(x / 2, y / 2);
    }
  }

  /** Xor with the same value twice gives the original back. */
  lemma {:induction false} XorTwice(x: int, y: int)
    ensures Xor(x, Xor(x, y)) == y
    decreases Spread(x)
  {
    if Spread(x) > 0 {
      hide *;
      XorTwice(x / 2, y / 2);
      XorUnfold(x, y);
      XorUnfold(x, Xor(x, y));
      ParityTwice(x % 2, y % 2);
    }
  }

  lemma ParityTwice(a: int, b: int)
    requires 0 <= a <= 1 && 0 <= b <= 1
    ensures (a + (a + b) % 2) % 2 == b
  {
  }

  /** The three forms in which callers cancel a xor. */
  lemma XorCancels(x: int, y: int)
    ensures Xor(x, Xor(x, y)) == y
    ensures Xor(Xor(y, x), x) == y
    ensures Xor(y, Xor(x, y)) == x
  {
    hide Xor;
    XorTwice(x, y);
    XorTwice(y, x);
    XorCommutes(x, y);
    XorCommutes(x, Xor(x, y));
  }

  lemma {:induction false} XorRange(x: int, y: int, k: nat)
    requires 0 <= x < Pow(2, k) && 0 <= y < Pow(2, k)
    ensures 0 <= Xor(x, y) < Pow(2, k)
    decreases k
  {
    if k > 0 {
      PowStep(2, k - 1);
      hide *;
      XorUnfold(x, y);
      XorRange(x / 2, y / 2, k - 1);
    }
  }

  lemma BitProduct(a: int, b: int)
    requires 0 <= a <= 1 && 0 <= b <= 1
    ensures 0 <= a * b <= 1
  {
  }

  lemma {:induction false} AndRange(x: int, y: int, k: nat)
    requires 0 <= x < Pow(2, k)
    ensures 0 <= And(x, y) < Pow(2, k)
    decreases k
  {
    if k > 0 {
      PowStep(2, k - 1);
      hide *;
      AndUnfold(x, y);
      AndRange(x / 2, y / 2, k - 1);
      BitProduct(x % 2, y % 2);
    }
  }

  lemma {:induction false} OrRange(x: int, y: int, k: nat)
    requires 0 <= x < Pow(2, k) && 0 <= y < Pow(2, k)
    ensures 0 <= Or(x, y) < Pow(2, k)
    decreases k
  {
    if k > 0 {
      PowStep(2, k - 1);
      OrRange(x / 2, y / 2, k - 1);
    }
  }

  /** Masking with k one bits is reduction modulo 2^k, for negative operands too. */
  lemma {:induction false} AndLowMask(x: int, k: nat)
    ensures And(x, Pow(2, k) - 1) == x % Pow(2, k)
    decreases k
  {
    if k == 0 {
      AndZero(x);
    } else {
      var m := Pow(2, k - 1);
      PowStep(2, k - 1);
      hide *;
      AndLowMask(x / 2, k - 1);
      AndUnfold(x, 2 * m - 1);
      assert (2 * m - 1) / 2 == m - 1 && (2 * m - 1) % 2 == 1;
      var q, r := Division(x / 2, m);
      HalfMod(x, m, q, r);
    }
  }

  lemma {:induction false} AndZero(x: int)
    ensures And(x, 0) == 0
    decreases Spread(x)
  {
    if Spread(x) > 0 {
      AndZero(x / 2);
    }
  }

  /** Quotient and remainder, named. */
  lemma Division(y: int, m: int) returns (q: int, r: int)
    requires m > 0
    ensures q == y / m && r == y % m && 0 <= r < m && y == m * q + r
  {
    q, r := y / m, y % m;
  }

  lemma HalfMod(x: int, m: int, q: int, r: int)
    requires 0 <= r < m && x / 2 == m * q + r
    ensures x % (2 * m) == 2 * r + x % 2
  {
    assert 2 * (m * q) == (2 * m) * q;
    ModUnique(x, 2 * m, q, 2 * r + x % 2);
  }

  lemma MulBound(m: int, d: int)
    requires m > 0
    ensures d >= 1 ==> m * d >= m
    ensures d <= -1 ==> m * d <= -m
  {
  }

  /** A remainder in range is the remainder. */
  lemma ModUnique(x: int, m: int, q: int, r: int)
    requires m > 0 && 0 <= r < m && x == m * q + r
    ensures x % m == r && x / m == q
  {
    var q', r' := x / m, x % m;
    assert x == m * q' + r';
    assert m * (q - q') == r' - r;
    MulBound(m, q - q');
  }

  /** Dividing twice is dividing by the product. */
  lemma DivDiv(v: int, p: int, q: int)
    requires p > 0 && q > 0
    ensures p * q > 0 && v / (p * q) == (v / p) / q
  {
    var y, low := v / p, v % p;
    var d, r := y / q, y % q;
    assert v == p * y + low && y == q * d + r;
    NestedQuotient(p, q, d, r);
    ModUnique(v, p * q, d, p * r + low);
  }

  lemma NestedQuotient(p: int, q: int, d: int, r: int)
    requires p > 0 && 0 <= r < q
    ensures p * (q * d + r) == (p * q) * d + p * r
    ensures 0 <= p * r && p * r + p <= p * q
  {
    var z := q - 1 - r;
    assert p * z >= 0;
    assert p * q == p * (z + 1 + r) == p * z + p + p * r;
  }

  /** Low bits of a xor depend on the low bits of its operands only. */
  lemma {:induction false} XorMod(x: int, y: int, k: nat)
    ensures Xor(x, y) % Pow(2, k) == Xor(x % Pow(2, k), y % Pow(2, k))
    decreases k
  {
    if k > 0 {
      PowStep(2, k - 1);
      hide *;
      XorMod(x / 2, y / 2, k - 1);
      XorModStep(x, y, Pow(2, k - 1));
    }
  }

  lemma XorModStep(x: int, y: int, h: int)
    requires h > 0 && Xor(x / 2, y / 2) % h == Xor((x / 2) % h, (y / 2) % h)
    ensures Xor(x, y) % (2 * h) == Xor(x % (2 * h), y % (2 * h))
  {
    hide *;
    HalvesOfMod(x, h);
    HalvesOfMod(y, h);
    HalvesOfMod(Xor(x, y), h);
    XorUnfold(x, y);
    XorUnfold(x % (2 * h), y % (2 * h));
  }

  /** Or of values with no bit in common is their sum. */
  lemma {:induction false} OrDisjoint(a: int, b: int, k: nat)
    requires 0 <= b < Pow(2, k)
    ensures Or(a * Pow(2, k), b) == a * Pow(2, k) + b
    decreases k
  {
    if k == 0 {
      OrZero(a);
    } else {
      var h := Pow(2, k - 1);
      assert a * Pow(2, k) == 2 * (a * h);
      OrDisjoint(a, b / 2, k - 1);
      assert (2 * (a * h)) / 2 == a * h;
      assert (2 * (a * h)) % 2 == 0;
    }
  }

  lemma OrByte(a: int, b: int)
    requires 0 <= b < 0x100
    ensures Or(a * 0x100, b) == a * 0x100 + b
  {
    hide Or;
    assert Pow(2, 8) == 0x100;
    OrDisjoint(a, b, 8);
  }

  lemma {:induction false} OrZero(x: int)
    ensures Or(x, 0) == x
    decreases Spread(x)
  {
    if Spread(x) > 0 {
      OrZero(x / 2);
    }
  }

  /** And acts on low and high halves separately. */
  lemma {:induction false} AndSplit(a: int, b: int, c: int, d: int, k: nat)
    requires 0 <= a < Pow(2, k) && 0 <= c < Pow(2, k)
    ensures And(a + b * Pow(2, k), c + d * Pow(2, k)) == And(a, c) + And(b, d) * Pow(2, k)
    decreases k
  {
    if k > 0 {
      var p, h := Pow(2, k), Pow(2, k - 1);
      assert p == 2 * h;
      hide *;
      AndSplit(a / 2, b, c / 2, d, k - 1);
      Double(b, p, h);
      Double(d, p, h);
      Double(And(b, d), p, h);
      AndSplitStep(a, b * h, c, d * h, And(b, d) * h);
    }
  }

  lemma Double(x: int, p: int, h: int)
    requires p == 2 * h
    ensures x * p == 2 * (x * h)
  {
  }

  lemma AndSplitStep(a: int, x: int, c: int, y: int, z: int)
    requires And(a / 2 + x, c / 2 + y) == And(a / 2, c / 2) + z
    ensures And(a + 2 * x, c + 2 * y) == And(a, c) + 2 * z
  {
    hide *;
    AndUnfold(a + 2 * x, c + 2 * y);
    AndUnfold(a, c);
    HalfShift(a, x);
    HalfShift(c, y);
  }

  lemma HalfShift(x: int, y: int)
    ensures (x + 2 * y) / 2 == x / 2 + y && (x + 2 * y) % 2 == x % 2
  {
  }

  /** Setting bit k of a number below 2^(k + 1). */
  lemma {:induction false} OrTopBit(y: int, k: nat)
    requires 0 <= y < 2 * Pow(2, k)
    ensures Or(y, Pow(2, k)) == Pow(2, k) + y % Pow(2, k)
    decreases k
  {
    if k > 0 {
      var h := Pow(2, k - 1);
      PowStep(2, k - 1);
      hide *;
      OrTopBit(y / 2, k - 1);
      var q, r := Division(y / 2, h);
      HalfMod(y, h, q, r);
      OrUnfold(y, 2 * h);
      assert (2 * h) / 2 == h && (2 * h) % 2 == 0;
    }
  }

  lemma OrUnfold(x: int, y: int)
    ensures Or(x, y) == 2 * Or(x / 2, y / 2) + (if x % 2 == 1 then 1 else y % 2)
  {
  }

  lemma WordIsPower()
    ensures Pow(2, 32) == 0x1_0000_0000
    ensures Pow(2, 64) == 0x1_0000_0000_0000_0000
  {
    assert Pow(2, 8) == 0x100;
    PowAdd(2, 8, 8);
    PowAdd(2, 16, 16);
    PowAdd(2, 32, 32);
  }

  lemma FactorBound(q: int, d: int, p: int)
    requires q > 0 && q * d < q * p
    ensures d < p
  {
    assert q * (d - p + 1) == q * d - q * p + q;
    MulBound(q, d - p + 1);
  }

  lemma SplitProduct(u: int, p: int, q: int)
    requires p > 0 && q > 0 && 0 <= u < p * q
    ensures (u * p) % (p * q) == p * (u % q) && (u * p) / (p * q) == u / q
    ensures 0 <= u / q < p
    ensures 0 <= p * (u % q) <= p * q - p
  {
    var d, r := u / q, u % q;
    assert u == q * d + r;
    NestedQuotient(p, q, d, r);
    assert u * p == (p * q) * d + p * r;
    ModUnique(u * p, p * q, d, p * r);
    FactorBound(q, d, p);
  }

  lemma ZeroWord(u: int, p: int, q: int)
    requires p > 0 && q > 0 && u >= 0
    ensures p * (u % q) + u / q == 0 <==> u == 0
  {
    assert u == q * (u / q) + u % q;
  }

  lemma {:induction false} OrCommutes(x: int, y: int)
    ensures Or(x, y) == Or(y, x)
    decreases Spread(x) + Spread(y)
  {
    if Spread(x) + Spread(y) > 0 {
      OrUnfold(x, y);
      OrUnfold(y, x);
      OrCommutes(x / 2, y / 2);
    }
  }

  // ----- single bits -----

  /** Bit t of x, counted from the lowest. */
  ghost function Bit(x: int, t: nat): (b: int)
    ensures 0 <= b <= 1
  {
    (x / Pow(2, t)) % 2
  }

  lemma BitDef(x: int, t: nat)
    ensures Bit(x, t) == (x / Pow(2, t)) % 2
  {
  }

  /** The lowest bit is the parity, and halving moves the others down. */
  lemma BitStep(x: int, t: nat)
    ensures Bit(x, 0) == x % 2
    ensures Bit(x, t + 1) == Bit(x / 2, t)
  {
    assert Pow(2, 0) == 1 && x / 1 == x;
    PowStep(2, t);
    DivDiv(x, 2, Pow(2, t));
  }

  /** Bits of a shifted number. */
  lemma BitOfShift(x: int, c: nat, t: nat)
    ensures Bit(x / Pow(2, c), t) == Bit(x, t + c)
  {
    PowAdd(2, c, t);
    DivDiv(x, Pow(2, c), Pow(2, t));
  }

  lemma {:induction false} BitOfAnd(x: int, y: int, t: nat)
    ensures Bit(And(x, y), t) == if Bit(x, t) == 1 then Bit(y, t) else 0
    decreases t
  {
    hide Bit, And;
    AndHalves(x, y);
    if t == 0 {
      BitStep(x, 0);
      BitStep(y, 0);
      BitStep(And(x, y), 0);
    } else {
      BitStep(x, t - 1);
      BitStep(y, t - 1);
      BitStep(And(x, y), t - 1);
      BitOfAnd(x / 2, y / 2, t - 1);
    }
  }

  lemma AndHalves(x: int, y: int)
    ensures And(x, y) / 2 == And(x / 2, y / 2)
    ensures And(x, y) % 2 == if x % 2 == 1 then y % 2 else 0
  {
    hide And;
    AndUnfold(x, y);
    BitProduct(x % 2, y % 2);
  }

  lemma {:induction false} BitOfXor(x: int, y: int, t: nat)
    ensures Bit(Xor(x, y), t) == (Bit(x, t) + Bit(y, t)) % 2
    decreases t
  {
    hide Bit, Xor;
    XorUnfold(x, y);
    if t == 0 {
      BitStep(x, 0);
      BitStep(y, 0);
      BitStep(Xor(x, y), 0);
    } else {
      BitStep(x, t - 1);
      BitStep(y, t - 1);
      BitStep(Xor(x, y), t - 1);
      BitOfXor(x / 2, y / 2, t - 1);
    }
  }

  lemma {:induction false} BitOfOr(x: int, y: int, t: nat)
    ensures Bit(Or(x, y), t) == if Bit(x, t) == 1 then 1 else Bit(y, t)
    decreases t
  {
    hide Bit, Or;
    OrUnfold(x, y);
    if t == 0 {
      BitStep(x, 0);
      BitStep(y, 0);
      BitStep(Or(x, y), 0);
    } else {
      BitStep(x, t - 1);
      BitStep(y, t - 1);
      BitStep(Or(x, y), t - 1);
      BitOfOr(x / 2, y / 2, t - 1);
    }
  }

  lemma {:induction false} BitOfNot(x: int, t: nat)
    ensures Bit(Not(x), t) == 1 - Bit(x, t)
    decreases t
  {
    hide Bit;
    if t == 0 {
      BitStep(x, 0);
      BitStep(Not(x), 0);
    } else {
      BitStep(x, t - 1);
      BitStep(Not(x), t - 1);
      assert Not(x) / 2 == Not(x / 2);
      BitOfNot(x / 2, t - 1);
    }
  }

  /** Below its length a number has the bits of its remainder. */
  lemma {:induction false} BitOfMod(x: int, k: nat, t: nat)
    requires t < k
    ensures Bit(x % Pow(2, k), t) == Bit(x, t)
    decreases k
  {
    hide *;
    PowStep(2, k - 1);
    HalvesOfMod(x, Pow(2, k - 1));
    if t == 0 {
      BitStep(x, 0);
      BitStep(x % Pow(2, k), 0);
    } else {
      BitStep(x, t - 1);
      BitStep(x % Pow(2, k), t - 1);
      BitOfMod(x / 2, k - 1, t - 1);
    }
  }

  lemma HalvesOfMod(x: int, h: int)
    requires h > 0
    ensures x % (2 * h) / 2 == x / 2 % h && x % (2 * h) % 2 == x % 2
  {
    hide *;
    var q, r := Division(x / 2, h);
    HalfMod(x, h, q, r);
    HalfShift(x % 2, r);
  }

  /** Bits of a number shifted up. */
  lemma {:induction false} BitOfScaled(x: int, k: nat, t: nat)
    ensures Bit(x * Pow(2, k), t) == if t < k then 0 else Bit(x, t - k)
    decreases k
  {
    if k == 0 {
      assert Pow(2, 0) == 1 && x * 1 == x;
    } else {
      var h := Pow(2, k - 1);
      PowStep(2, k - 1);
      hide *;
      Double(x, 2 * h, h);
      HalfShift(0, x * h);
      if t == 0 {
        BitStep(2 * (x * h), 0);
      } else {
        BitStep(2 * (x * h), t - 1);
        BitOfScaled(x, k - 1, t - 1);
      }
    }
  }

  /** Above its length a number has no bits. */
  lemma BitBeyond(x: int, k: nat, t: nat)
    requires 0 <= x < Pow(2, k) && k <= t
    ensures Bit(x, t) == 0
  {
    PowAdd(2, k, t - k);
    MulBound(Pow(2, k), Pow(2, t - k));
    ModUnique(x, Pow(2, t), 0, x);
  }
}
