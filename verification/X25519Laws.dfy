/**
 What the ladder of RFC 7748 computes: doubling and differential addition on the curve
 v^2 = u^3 + 486662 u^2 + u, and with them the multiple of a point that a scalar names.
 Everything is modulo P, in terms of ordinary sums and products.
 */
module X25519Laws {
  import opened Bits
  import opened Limbs
  import opened Field25519
  import opened X25519

  // ----- field operations are sums and products modulo P -----

  ghost predicate Same(x: int, y: int) {
    Congruent(x, y, P)
  }

  lemma SumIs(x: int, y: int, a: int, b: int)
    requires Same(x, a) && Same(y, b)
    ensures Same(FAdd(x, y), a + b) && Same(FSub(x, y), a - b)
  {
    var q :| x - a == P * q;
    var r :| y - b == P * r;
    var s, t := (x + y) / P, (x - y) / P;
    assert FAdd(x, y) - (a + b) == P * (q + r - s);
    assert FSub(x, y) - (a - b) == P * (q - r - t);
  }

  lemma ProductIs(x: int, y: int, a: int, b: int)
    requires Same(x, a) && Same(y, b)
    ensures Same(FMul(x, y), a * b)
  {
    var q :| x - a == P * q;
    var r :| y - b == P * r;
    var s := (x * y) / P;
    ProductShift(x, y, a, b, q, r);
    assert FMul(x, y) - a * b == P * (a * r + b * q + P * (q * r) - s);
  }

  lemma ProductShift(x: int, y: int, a: int, b: int, q: int, r: int)
    requires x - a == P * q && y - b == P * r
    ensures x * y == a * b + P * (a * r + b * q + P * (q * r))
  {
    assert x * y == (a + P * q) * (b + P * r);
  }

  lemma SameSelf(x: int)
    ensures Same(x, x)
  {
    assert x - x == P * 0;
  }

  lemma IsResidue(x: int, a: int)
    requires Same(x, a) && 0 <= x < P
    ensures x == a % P
  {
    CongruentMod(x, a, P);
  }

  // ----- one step -----

  /** The x of the first point after a step: it is that of the double. */
  ghost function DoubledX(x1: int, s: Ladder): (r: int)
    ensures r == ((s.x2 * s.x2 - s.z2 * s.z2) * (s.x2 * s.x2 - s.z2 * s.z2)) % P
  {
    var x, z := s.x2, s.z2;
    var a, b := FAdd(x, z), FSub(x, z);
    var aa, bb := FMul(a, a), FMul(b, b);
    assert FMul(aa, bb) == ((x * x - z * z) * (x * x - z * z)) % P by {
      hide *;
      var d := x * x - z * z;
      SameSelf(x);
      SameSelf(z);
      SumIs(x, z, x, z);
      ProductIs(a, a, x + z, x + z);
      ProductIs(b, b, x - z, x - z);
      ProductIs(aa, bb, (x + z) * (x + z), (x - z) * (x - z));
      SquareOfProduct(x, z, d);
      IsResidue(FMul(aa, bb), d * d);
    }
    Step(x1, s).x2
  }

  /** The z of the first point after a step: 486662 is the constant of the curve. */
  ghost function DoubledZ(x1: int, s: Ladder): (r: int)
    ensures r == (4 * (s.x2 * s.z2) * (s.x2 * s.x2 + 486662 * (s.x2 * s.z2) + s.z2 * s.z2)) % P
  {
    var x, z := s.x2, s.z2;
    var a, b := FAdd(x, z), FSub(x, z);
    var aa, bb := FMul(a, a), FMul(b, b);
    var e := FSub(aa, bb);
    var e24 := FMul(121665, e);
    assert FMul(e, FAdd(aa, e24)) == (4 * (x * z) * (x * x + 486662 * (x * z) + z * z)) % P by {
      hide *;
      var w, d := x * z, x * x + 486662 * (x * z) + z * z;
      SameSelf(x);
      SameSelf(z);
      SameSelf(121665);
      SumIs(x, z, x, z);
      ProductIs(a, a, x + z, x + z);
      ProductIs(b, b, x - z, x - z);
      SumIs(aa, bb, (x + z) * (x + z), (x - z) * (x - z));
      FourTimes(x, z, w);
      ProductIs(121665, e, 121665, 4 * w);
      SumIs(aa, e24, (x + z) * (x + z), 121665 * (4 * w));
      CurveConstant(x, z, w);
      ProductIs(e, FAdd(aa, e24), 4 * w, d);
      IsResidue(FMul(e, FAdd(aa, e24)), 4 * w * d);
    }
    Step(x1, s).z2
  }

  lemma FourTimes(x: int, z: int, w: int)
    requires w == x * z
    ensures (x + z) * (x + z) - (x - z) * (x - z) == 4 * w
  {
  }

  lemma SquareOfProduct(x: int, z: int, d: int)
    requires d == x * x - z * z
    ensures (x + z) * (x + z) * ((x - z) * (x - z)) == d * d
  {
    assert (x + z) * (x - z) == d;
    assert (x + z) * (x + z) * ((x - z) * (x - z)) == ((x + z) * (x - z)) * ((x + z) * (x - z));
  }

  lemma CurveConstant(x: int, z: int, w: int)
    requires w == x * z
    ensures (x + z) * (x + z) + 121665 * (4 * w) == x * x + 486662 * w + z * z
  {
  }

  /** The x of the second point after a step: that of the sum of the two. */
  ghost function SummedX(x1: int, s: Ladder): (r: int)
    ensures var m := s.x2 * s.x3 - s.z2 * s.z3; r == (4 * (m * m)) % P
  {
    var a, b, c, d := FAdd(s.x2, s.z2), FSub(s.x2, s.z2), FAdd(s.x3, s.z3), FSub(s.x3, s.z3);
    var da, cb := FMul(d, a), FMul(c, b);
    var u := FAdd(da, cb);
    var m := s.x2 * s.x3 - s.z2 * s.z3;
    assert FMul(u, u) == (4 * (m * m)) % P by {
      hide *;
      SameSelf(s.x2);
      SameSelf(s.z2);
      SameSelf(s.x3);
      SameSelf(s.z3);
      SumIs(s.x2, s.z2, s.x2, s.z2);
      SumIs(s.x3, s.z3, s.x3, s.z3);
      ProductIs(d, a, s.x3 - s.z3, s.x2 + s.z2);
      ProductIs(c, b, s.x3 + s.z3, s.x2 - s.z2);
      SumIs(da, cb, (s.x3 - s.z3) * (s.x2 + s.z2), (s.x3 + s.z3) * (s.x2 - s.z2));
      CrossTerms(s.x2, s.z2, s.x3, s.z3, s.x2 * s.x3 - s.z2 * s.z3, s.x3 * s.z2 - s.x2 * s.z3);
      ProductIs(u, u, 2 * m, 2 * m);
      Doubled(m, 1);
      IsResidue(FMul(u, u), 4 * (m * m));
    }
    Step(x1, s).x3
  }

  /** The z of the second point after a step; x1 is the difference of the two. */
  ghost function SummedZ(x1: int, s: Ladder): (r: int)
    ensures var n := s.x3 * s.z2 - s.x2 * s.z3; r == (4 * x1 * (n * n)) % P
  {
    var a, b, c, d := FAdd(s.x2, s.z2), FSub(s.x2, s.z2), FAdd(s.x3, s.z3), FSub(s.x3, s.z3);
    var da, cb := FMul(d, a), FMul(c, b);
    var u := FSub(da, cb);
    var n := s.x3 * s.z2 - s.x2 * s.z3;
    assert FMul(x1, FMul(u, u)) == (4 * x1 * (n * n)) % P by {
      hide *;
      SameSelf(s.x2);
      SameSelf(s.z2);
      SameSelf(s.x3);
      SameSelf(s.z3);
      SumIs(s.x2, s.z2, s.x2, s.z2);
      SumIs(s.x3, s.z3, s.x3, s.z3);
      ProductIs(d, a, s.x3 - s.z3, s.x2 + s.z2);
      ProductIs(c, b, s.x3 + s.z3, s.x2 - s.z2);
      SumIs(da, cb, (s.x3 - s.z3) * (s.x2 + s.z2), (s.x3 + s.z3) * (s.x2 - s.z2));
      CrossTerms(s.x2, s.z2, s.x3, s.z3, s.x2 * s.x3 - s.z2 * s.z3, s.x3 * s.z2 - s.x2 * s.z3);
      ProductIs(u, u, 2 * n, 2 * n);
      SameSelf(x1);
      ProductIs(x1, FMul(u, u), x1, 2 * n * (2 * n));
      Doubled(n, x1);
      IsResidue(FMul(x1, FMul(u, u)), 4 * x1 * (n * n));
    }
    Step(x1, s).z3
  }

  /** A step is these four: the double of the first point and the sum of both. */
  lemma StepIsDoubleAndAdd(x1: int, s: Ladder)
    ensures Step(x1, s) == Ladder(DoubledX(x1, s), DoubledZ(x1, s), SummedX(x1, s), SummedZ(x1, s))
  {
  }

  lemma Doubled(m: int, x: int)
    ensures x * (2 * m * (2 * m)) == 4 * x * (m * m) && 2 * m * (2 * m) == 4 * (m * m)
  {
  }

  lemma CrossTerms(x2: int, z2: int, x3: int, z3: int, m: int, n: int)
    requires m == x2 * x3 - z2 * z3 && n == x3 * z2 - x2 * z3
    ensures (x3 - z3) * (x2 + z2) + (x3 + z3) * (x2 - z2) == 2 * m
    ensures (x3 - z3) * (x2 + z2) - (x3 + z3) * (x2 - z2) == 2 * n
  {
  }

  // ----- the ladder -----

  /** The points n P and (n + 1) P, by halving n; x1 is the u-coordinate of P. */
  ghost function Multiples(x1: int, n: nat): Ladder {
    if n == 0 then Ladder(1, 0, x1, 1)
    else CondSwap(n % 2, Step(x1, CondSwap(n % 2, Multiples(x1, n / 2))))
  }

  /**
   From no multiple and the point itself, doubling n takes one step, and so does doubling n and
   adding one, with the points changing places.
   */
  lemma MultiplesStep(x1: int, n: nat)
    ensures Multiples(x1, 0) == Ladder(1, 0, x1, 1)
    ensures n > 0 ==> Multiples(x1, 2 * n) == Step(x1, Multiples(x1, n))
    ensures Multiples(x1, 2 * n + 1) == CondSwap(1, Step(x1, CondSwap(1, Multiples(x1, n))))
  {
    hide Step;
    assert (2 * n + 1) / 2 == n && (2 * n + 1) % 2 == 1;
  }

  /** After the bits from 254 down to t the ladder holds the multiples of k div 2^t. */
  lemma {:induction false} LadderIsMultiples(k: int, x1: int, t: nat)
    requires Pow(2, 254) <= k < Pow(2, 255) && t <= 255
    ensures k / Pow(2, t) >= 0 && Settled(LadderFrom(k, x1, t)) == Multiples(x1, k / Pow(2, t))
    decreases 255 - t
  {
    hide Step, LadderFrom, Pow;
    if t == 255 {
      ModUnique(k, Pow(2, 255), 0, k);
      LadderStart(k, x1);
    } else {
      LadderIsMultiples(k, x1, t + 1);
      EagerSwap(k, x1, t);
      PowStep(2, t);
      DivDiv(k, Pow(2, t), 2);
      BitDef(k, t);
      LeadingBit(k, t);
    }
  }

  /** No step is taken before the leading bit. */
  lemma LeadingBit(k: int, t: nat)
    requires Pow(2, 254) <= k && t <= 254
    ensures k / Pow(2, t) > 0
  {
    hide *;
    PowAdd(2, t, 254 - t);
    MulBound(Pow(2, t), Pow(2, 254 - t));
    var q, r := Division(k, Pow(2, t));
    PositiveQuotient(k, Pow(2, t), q, r);
  }

  lemma PositiveQuotient(k: int, p: int, q: int, r: int)
    requires 0 < p <= k && k == p * q + r && r < p
    ensures q > 0
  {
    MulBound(p, q);
  }

  /**
   crypto_scalarmult, said without the ladder: the multiple of the point with u-coordinate u
   that the clamped scalar names, as x times the inverse of z, in canonical bytes.
   */
  lemma ScalarTimesPoint(k: seq<u8>, u: seq<u8>)
    requires |k| == |u| == 32
    ensures var n := Pow(2, 254) + 8 * (Value(0x100, k) % Pow(2, 254) / 8);
      && n >= 0
      && var q := Multiples(Value(0x100, u) % Pow(2, 255) % P, n);
         Value(0x100, Rfc7748(k, u)) == (q.x2 * Pow(q.z2, P - 2)) % P
  {
    var x1 := Value(0x100, u) % Pow(2, 255) % P;
    var n := DecodeScalar(k);
    hide *;
    ClampedScalar(k);
    ValueBounds(0x100, k);
    ScalarSize(Value(0x100, k));
    LadderIsMultiples(n, x1, 0);
    PowZero(2);
    var q := Multiples(x1, n);
    assert n / 1 == n;
    EncodedQuotient(k, u, q);
  }

  lemma ScalarSize(v: int)
    requires v >= 0
    ensures Pow(2, 255) == 2 * Pow(2, 254) && 0 <= 8 * (v % Pow(2, 254) / 8) < Pow(2, 254)
  {
    PowStep(2, 254);
    hide Pow;
    var w := v % Pow(2, 254);
    assert w == 8 * (w / 8) + w % 8;
  }

  lemma EncodedQuotient(k: seq<u8>, u: seq<u8>, q: Ladder)
    requires |k| == |u| == 32
    requires q == Settled(LadderFrom(DecodeScalar(k), Value(0x100, u) % Pow(2, 255) % P, 0))
    ensures Value(0x100, Rfc7748(k, u)) == (q.x2 * Pow(q.z2, P - 2)) % P
  {
    var v := FMul(q.x2, FPow(q.z2, P - 2));
    EncodedDef(k, u, q);
    assert v == (q.x2 * (Pow(q.z2, P - 2) % P)) % P;
    hide *;
    ModMulRight(q.x2, Pow(q.z2, P - 2), P);
    EncodedValue(v);
  }

  lemma EncodedDef(k: seq<u8>, u: seq<u8>, q: Ladder)
    requires |k| == |u| == 32
    requires q == Settled(LadderFrom(DecodeScalar(k), Value(0x100, u) % Pow(2, 255) % P, 0))
    ensures Rfc7748(k, u) == ToDigits(0x100, FMul(q.x2, FPow(q.z2, P - 2)), 32)
  {
    hide ToDigits, LadderFrom, DecodeScalar, Settled, FMul, FPow, Value;
  }

  lemma EncodedValue(v: int)
    requires 0 <= v < P
    ensures Value(0x100, ToDigits(0x100, v, 32)) == v
  {
    hide ToDigits, Value, Pow;
    ValueToDigits(0x100, v, 32);
    FieldBelowBytes();
    ModUnique(v, Pow(0x100, 32), 0, v);
  }

  lemma FieldBelowBytes()
    ensures P < Pow(0x100, 32)
  {
    ByteWeight(32);
    PowAdd(2, 255, 1);
    PrimeShape();
  }
}
