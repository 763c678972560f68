/**
 crypto_scalarmult against the X25519 function of section 5 of RFC 7748.
 */
module X25519 {
  import opened Bits
  import opened Limbs
  import opened Field25519

  // ----- RFC 7748 -----

  /** (x2 : z2) and (x3 : z3) of the Montgomery ladder. */
  datatype Ladder = Ladder(x2: int, z2: int, x3: int, z3: int)

  ghost function CondSwap(swap: int, s: Ladder): Ladder {
    if swap == 1 then Ladder(s.x3, s.z3, s.x2, s.z2) else s
  }

  /** One ladder step, operation by operation as the RFC lists them; a24 is 121665. */
  ghost function Step(x1: int, s: Ladder): Ladder {
    var a := FAdd(s.x2, s.z2);
    var aa := FMul(a, a);
    var b := FSub(s.x2, s.z2);
    var bb := FMul(b, b);
    var e := FSub(aa, bb);
    var c := FAdd(s.x3, s.z3);
    var d := FSub(s.x3, s.z3);
    var da := FMul(d, a);
    var cb := FMul(c, b);
    Ladder(FMul(aa, bb),
           FMul(e, FAdd(aa, FMul(121665, e))),
           FMul(FAdd(da, cb), FAdd(da, cb)),
           FMul(x1, FMul(FSub(da, cb), FSub(da, cb))))
  }

  /** The RFC delays each swap to the next iteration and remembers it in `swap`. */
  datatype LadderState = LadderState(ladder: Ladder, swap: int)

  /** State of the RFC loop once bits 254 down to t of the scalar k are consumed. */
  ghost function LadderFrom(k: int, x1: int, t: nat): (r: LadderState)
    requires t <= 255
    ensures 0 <= r.swap <= 1
    decreases 255 - t
  {
    if t == 255 then LadderState(Ladder(1, 0, x1, 1), 0)
    else
      var prev := LadderFrom(k, x1, t + 1);
      var kt := Bit(k, t);
      LadderState(Step(x1, CondSwap(Xor(prev.swap, kt), prev.ladder)), kt)
  }

  /** The ladder with its pending swap carried out. */
  ghost function Settled(s: LadderState): Ladder {
    CondSwap(s.swap, s.ladder)
  }

  lemma LadderStart(k: int, x1: int)
    ensures Settled(LadderFrom(k, x1, 255)) == Ladder(1, 0, x1, 1)
  {
  }

  /** decodeScalar25519: three low bits off, top bit off, bit 254 on. */
  function Clamp(k: seq<int>): (z: seq<int>)
    requires |k| == 32
  {
    k[0 := And(k[0], 248)][31 := Or(And(k[31], 127), 64)]
  }

  ghost function DecodeScalar(k: seq<int>): int
    requires |k| == 32
  {
    Value(0x100, Clamp(k))
  }

  lemma ClearLowBits(x: u8)
    ensures And(x, 248) == x - x % 8
  {
    hide And;
    assert Pow(2, 3) == 8 && Pow(2, 5) == 32;
    AndSplit(x % 8, x / 8, 0, 31, 3);
    AndZero(x % 8);
    AndLowMask(x / 8, 5);
  }

  lemma SetTopBits(x: u8)
    ensures Or(And(x, 127), 64) == 64 + x % 64
  {
    hide And, Or;
    assert Pow(2, 6) == 64 && Pow(2, 7) == 128;
    AndLowMask(x, 7);
    OrTopBit(x % 128, 6);
  }

  lemma TwoUpdates(k: seq<int>, a: int, b: int)
    requires |k| == 32
    ensures Value(0x100, k[0 := a][31 := b]) == Value(0x100, k) + (a - k[0]) + (b - k[31]) * Pow(0x100, 31)
  {
    hide Value, Pow;
    ValueUpdate(0x100, k, 0, a);
    ValueUpdate(0x100, k[0 := a], 31, b);
    PowZero(0x100);
  }

  lemma ClampBytewise(k: seq<u8>)
    requires |k| == 32
    ensures Clamp(k) == k[0 := k[0] - k[0] % 8][31 := 64 + k[31] % 64]
  {
    hide And, Or;
    ClearLowBits(k[0]);
    SetTopBits(k[31]);
  }

  /** A clamped scalar is 2^254 plus eight times a number: bits 3 to 253 of the key are kept. */
  lemma ClampedScalar(k: seq<u8>)
    requires |k| == 32
    ensures DecodeScalar(k) == Pow(2, 254) + 8 * (Value(0x100, k) % Pow(2, 254) / 8)
  {
    hide Value, Pow, Clamp;
    ClampBytewise(k);
    TwoUpdates(k, k[0] - k[0] % 8, 64 + k[31] % 64);
    ValueLast(0x100, k);
    ValueBounds(0x100, k[..31]);
    FirstLimb(k);
    TopWeight();
    ClampedSum(Value(0x100, k), Value(0x100, k[..31]), Pow(0x100, 31), Pow(2, 254),
               k[0], k[31], Value(0x100, k[1..]), DecodeScalar(k));
  }

  lemma TopWeight()
    ensures Pow(0x100, 31) > 0 && Pow(2, 254) == Pow(0x100, 31) * 64
  {
    hide Pow;
    ByteWeight(31);
    PowAdd(2, 248, 6);
    SixBits();
  }

  lemma FirstLimb(s: seq<int>)
    requires |s| > 0
    ensures Value(0x100, s) == s[0] + 0x100 * Value(0x100, s[1..])
  {
    hide Value, Pow;
    ValueSplit(0x100, s, 1);
    SingleLimb(s[..1]);
    PowZero(0x100);
  }

  lemma SixBits()
    ensures Pow(2, 6) == 64
  {
  }

  lemma SingleLimb(s: seq<int>)
    requires |s| == 1
    ensures Value(0x100, s) == s[0]
  {
    assert s[..0] == [];
  }

  lemma ClampedSum(v: int, low: int, p: int, w: int, x: u8, y: u8, rest: int, z: int)
    requires 0 <= low < p && w == p * 64 && v == p * y + low && v == x + 0x100 * rest
    requires z == v + (x - x % 8 - x) + (64 + y % 64 - y) * p
    ensures z == w + 8 * (v % w / 8)
  {
    var m := p * (y % 64) + low;
    TopPart(v, low, p, w, y);
    assert z == w + m - x % 8 by {
      TopTerm(p, y, y % 64);
    }
    LowThree(v, m, x, rest, p * (y / 64));
  }

  lemma TopTerm(p: int, y: int, r: int)
    ensures p * y + (64 + r - y) * p == p * 64 + p * r
  {
  }

  lemma TopPart(v: int, low: int, p: int, w: int, y: u8)
    requires 0 <= low < p && w == p * 64 && v == p * y + low
    ensures v % w == p * (y % 64) + low
    ensures v == p * (y % 64) + low + 64 * (p * (y / 64))
  {
    var q, r := y / 64, y % 64;
    NestedQuotient(p, 64, q, r);
    assert y == 64 * q + r;
    assert (p * 64) * q == 64 * (p * q);
    ModUnique(v, w, q, p * r + low);
  }

  lemma LowThree(v: int, m: int, x: u8, rest: int, t: int)
    requires v == m + 64 * t && v == x + 0x100 * rest
    ensures m - x % 8 == 8 * (m / 8)
  {
    ModUnique(m, 8, x / 8 + 32 * rest - 8 * t, x % 8);
  }

  /** decodeUCoordinate: little-endian, top bit ignored; non-canonical values are accepted. */
  ghost function DecodeU(u: seq<int>): int {
    Value(0x100, u) % Pow(2, 255)
  }

  /** The 32 bytes X25519(k, u). */
  ghost function Rfc7748(k: seq<int>, u: seq<int>): seq<int>
    requires |k| == |u| == 32
  {
    var s := Settled(LadderFrom(DecodeScalar(k), DecodeU(u) % P, 0));
    ToDigits(0x100, FMul(s.x2, FPow(s.z2, P - 2)), 32)
  }

  // ----- field facts the code relies on where it reorders the RFC -----

  lemma Commute(x: int, y: int)
    ensures FAdd(x, y) == FAdd(y, x)
    ensures FMul(x, y) == FMul(y, x)
  {
  }

  lemma OppositeDifference(x: int, y: int)
    ensures FSub(y, x) == if FSub(x, y) == 0 then 0 else P - FSub(x, y)
  {
    var d := FSub(x, y);
    if d > 0 {
      ModUnique(y - x, P, -((x - y) / P) - 1, P - d);
    } else {
      ModUnique(y - x, P, -((x - y) / P), 0);
    }
  }

  lemma OppositeSquare(a: int)
    requires 0 < a < P
    ensures FMul(a, a) == FMul(P - a, P - a)
  {
    assert (P - a) * (P - a) == a * a + P * (P - 2 * a);
    ModShift(a * a, P - 2 * a, P);
  }

  /** The residues the four ladder arrays stand for: a, c, b, d hold x2, z2, x3, z3. */
  ghost function Residues(a: seq<int>, b: seq<int>, c: seq<int>, d: seq<int>): Ladder {
    Ladder(Fe(a), Fe(c), Fe(b), Fe(d))
  }

  /** Lines 461-468: d, f, a, c become AA, BB, CB and DA. */
  method LadderSquares(a: array<i64>, b: array<i64>, c: array<i64>, d: array<i64>, e: array<i64>, f: array<i64>)
    requires a.Length == b.Length == c.Length == d.Length == e.Length == f.Length == 16
    requires a !in {b, c, d, e, f} && b !in {c, d, e, f} && c !in {d, e, f} && d !in {e, f} && e != f
    requires Reduced(a[..]) && Reduced(b[..]) && Reduced(c[..]) && Reduced(d[..])
    modifies a, b, c, d, e, f
    ensures Reduced(a[..]) && Reduced(c[..]) && Reduced(d[..]) && Reduced(f[..])
    ensures var s := old(Residues(a[..], b[..], c[..], d[..]));
      && Fe(d[..]) == FMul(FAdd(s.x2, s.z2), FAdd(s.x2, s.z2))
      && Fe(f[..]) == FMul(FSub(s.x2, s.z2), FSub(s.x2, s.z2))
      && Fe(a[..]) == FMul(FAdd(s.x3, s.z3), FSub(s.x2, s.z2))
      && Fe(c[..]) == FMul(FSub(s.x3, s.z3), FAdd(s.x2, s.z2))
  {
    hide Fe, FAdd, FSub, FMul, Reduced, Factor, Addend;
    ReducedFits();
    Add(e, a, c);
    Sub(a, a, c);
    Add(c, b, d);
    Sub(b, b, d);
    Mul(d, e, e);
    Mul(f, a, a);
    Mul(a, c, a);
    Mul(c, b, e);
  }

  /** Lines 461-478: the sums, squares and products of one step, all in the work arrays. */
  method LadderStep(a: array<i64>, b: array<i64>, c: array<i64>, d: array<i64>,
                    e: array<i64>, f: array<i64>, x: array<i64>, k121665: array<i64>)
    requires a.Length == b.Length == c.Length == d.Length == e.Length == f.Length == 16
    requires a !in {b, c, d, e, f} && b !in {c, d, e, f} && c !in {d, e, f} && d !in {e, f} && e != f
    requires x.Length == k121665.Length == 16
    requires x !in {a, b, c, d, e, f} && k121665 !in {a, b, c, d, e, f}
    requires Reduced(a[..]) && Reduced(b[..]) && Reduced(c[..]) && Reduced(d[..])
    requires Reduced(x[..]) && Reduced(k121665[..]) && Fe(k121665[..]) == 121665
    modifies a, b, c, d, e, f
    ensures Reduced(a[..]) && Reduced(b[..]) && Reduced(c[..]) && Reduced(d[..])
    ensures Residues(a[..], b[..], c[..], d[..])
         == Step(Fe(x[..]), old(Residues(a[..], b[..], c[..], d[..])))
  {
    hide Fe, FAdd, FSub, FMul, Reduced, Factor, Addend;
    ReducedFits();
    LadderSquares(a, b, c, d, e, f);
    Commute(Fe(a[..]), Fe(c[..]));
    OppositeDifference(Fe(a[..]), Fe(c[..]));
    ghost var diff := FSub(Fe(a[..]), Fe(c[..]));
    if diff > 0 {
      OppositeSquare(diff);
    }
    Add(e, a, c);
    Sub(a, a, c);
    Mul(b, a, a);
    Sub(c, d, f);
    Commute(Fe(c[..]), 121665);
    Mul(a, c, k121665);
    Commute(Fe(a[..]), Fe(d[..]));
    Add(a, a, d);
    Mul(c, c, a);
    Mul(a, d, f);
    Commute(Fe(b[..]), Fe(x[..]));
    Mul(d, b, x);
    Mul(b, e, e);
  }

  /** Bit t of a little-endian byte string is bit t % 8 of byte t / 8. */
  lemma BitOfBytes(z: seq<int>, t: nat)
    requires Digits(0x100, z) && t < 8 * |z|
    ensures Bit(Value(0x100, z), t) == (z[t / 8] / Pow(2, t % 8)) % 2
  {
    hide *;
    var j, m := t / 8, t % 8;
    var p, q, rest := Pow(0x100, j), Pow(2, m), Value(0x100, z[j + 1..]);
    assert p > 0 && q > 0;
    assert Value(0x100, z) / p == z[j] + 0x100 * rest by {
      DropBytes(z, j);
    }
    assert Pow(2, t) == p * q by {
      ByteWeight(j);
      PowAdd(2, 8 * j, m);
    }
    assert Bit(Value(0x100, z), t) == (Value(0x100, z) / (p * q)) % 2 by {
      BitDef(Value(0x100, z), t);
    }
    DivDiv(Value(0x100, z), p, q);
    SmallPowers(m);
    HighBitsOut(z[j], q, Pow(2, 7 - m), rest);
  }

  lemma DropTerm(p: int, w: int, x: int, rest: int)
    requires w == 0x100 * p
    ensures x * p + w * rest == p * (x + 0x100 * rest)
  {
    assert (0x100 * p) * rest == p * (0x100 * rest);
    assert p * (x + 0x100 * rest) == x * p + p * (0x100 * rest);
  }

  lemma SplitAtByte(z: seq<int>, j: nat)
    requires j < |z|
    ensures Value(0x100, z) == Pow(0x100, j) * (z[j] + 0x100 * Value(0x100, z[j + 1..])) + Value(0x100, z[..j])
  {
    hide *;
    ValueSplit(0x100, z, j + 1);
    ValueTake(0x100, z, j);
    PowStep(0x100, j);
    DropTerm(Pow(0x100, j), Pow(0x100, j + 1), z[j], Value(0x100, z[j + 1..]));
  }

  lemma DropBytes(z: seq<int>, j: nat)
    requires Digits(0x100, z) && j < |z|
    ensures Value(0x100, z) / Pow(0x100, j) == z[j] + 0x100 * Value(0x100, z[j + 1..])
  {
    hide *;
    DigitsTake(0x100, z, j);
    ValueBounds(0x100, z[..j]);
    SplitAtByte(z, j);
    ModUnique(Value(0x100, z), Pow(0x100, j), z[j] + 0x100 * Value(0x100, z[j + 1..]), Value(0x100, z[..j]));
  }

  lemma SmallPowers(m: nat)
    requires m <= 7
    ensures 0x100 == Pow(2, m) * (2 * Pow(2, 7 - m))
  {
    PowAdd(2, m, 7 - m);
    assert Pow(2, 7) == 128;
  }

  /** Bits of later bytes do not reach bit m of this one. */
  lemma HighBitsOut(x: int, q: int, w: int, rest: int)
    requires q > 0 && 0x100 == q * (2 * w)
    ensures ((x + 0x100 * rest) / q) % 2 == (x / q) % 2
  {
    var d, r := x / q, x % q;
    assert x == q * d + r;
    HighTerm(q, w, rest, d);
    ModUnique(x + 0x100 * rest, q, d + 2 * (w * rest), r);
    HalfShift(d, w * rest);
  }

  lemma HighTerm(q: int, w: int, rest: int, d: int)
    requires 0x100 == q * (2 * w)
    ensures q * (d + 2 * (w * rest)) == q * d + 0x100 * rest
  {
    assert (q * (2 * w)) * rest == q * (2 * (w * rest));
  }

  /** Clamping as the code does it, byte by byte. */
  method ClampBytes(n: array<u8>) returns (z: array<u8>)
    requires n.Length == 32
    ensures fresh(z) && z.Length == 32
    ensures z[..] == Clamp(n[..])
  {
    z := new u8[32];
    for i := 0 to 31
      invariant forall k :: 0 <= k < i ==> z[k] == n[k]
    {
      z[i] := n[i];
    }
    assert Pow(2, 8) == 0x100;
    AndRange(n[31], 127, 8);
    OrRange(And(n[31], 127), 64, 8);
    AndRange(n[0], 248, 8);
    z[31] := Or(And(n[31], 127), 64);
    z[0] := And(z[0], 248);
  }

  /** The limbs of a small constant: `lo` and `hi` in limbs 0 and 1, the rest zero. */
  method Constant(lo: i64, hi: i64) returns (c: array<i64>)
    requires 0 <= lo <= 0xffff && 0 <= hi <= 0xffff
    ensures fresh(c) && c.Length == 16 && Reduced(c[..])
    ensures Fe(c[..]) == lo + 0x1_0000 * hi
  {
    c := new i64[16](_ => 0);
    c[0], c[1] := lo, hi;
    ConstantValue(c[..]);
  }

  lemma ConstantValue(s: seq<int>)
    requires |s| == 16 && 0 <= s[0] <= 0xffff && 0 <= s[1] <= 0xffff && forall k :: 2 <= k < 16 ==> s[k] == 0
    ensures Fe(s) == s[0] + 0x1_0000 * s[1]
  {
    hide Value, Pow;
    assert s[..0] == [];
    PendingStart(0x1_0000, 0);
    ValueTake(0x1_0000, s, 0);
    ValueTake(0x1_0000, s, 1);
    PowZero(0x1_0000);
    ValuePadded(0x1_0000, s, 2);
  }

  /** Consuming bit t: swap in, step, swap out equals the delayed swaps of the RFC. */
  lemma EagerSwap(k: int, x1: int, t: nat)
    requires t < 255
    ensures Settled(LadderFrom(k, x1, t))
         == CondSwap(Bit(k, t), Step(x1, CondSwap(Bit(k, t), Settled(LadderFrom(k, x1, t + 1)))))
  {
    hide Step;
    assert Xor(0, 0) == 0 && Xor(0, 1) == 1 && Xor(1, 0) == 1 && Xor(1, 1) == 0;
  }

  /** sel25519 on the two pairs swaps the two points of the ladder. */
  method SwapPoints(a: array<i64>, b: array<i64>, c: array<i64>, d: array<i64>, r: int)
    requires a.Length == b.Length == c.Length == d.Length == 16
    requires a !in {b, c, d} && b !in {c, d} && c != d && 0 <= r <= 1
    requires Reduced(a[..]) && Reduced(b[..]) && Reduced(c[..]) && Reduced(d[..])
    modifies a, b, c, d
    ensures Reduced(a[..]) && Reduced(b[..]) && Reduced(c[..]) && Reduced(d[..])
    ensures Residues(a[..], b[..], c[..], d[..]) == CondSwap(r, old(Residues(a[..], b[..], c[..], d[..])))
  {
    hide Fe, Reduced;
    Sel25519(a, b, r);
    Sel25519(c, d, r);
  }

  /** One iteration of the loop: swap in, step, swap out. */
  method LadderIteration(a: array<i64>, b: array<i64>, c: array<i64>, d: array<i64>,
                         e: array<i64>, f: array<i64>, x: array<i64>, k121665: array<i64>, r: int)
    requires 0 <= r <= 1
    requires a.Length == b.Length == c.Length == d.Length == e.Length == f.Length == 16
    requires a !in {b, c, d, e, f} && b !in {c, d, e, f} && c !in {d, e, f} && d !in {e, f} && e != f
    requires x.Length == k121665.Length == 16
    requires x !in {a, b, c, d, e, f} && k121665 !in {a, b, c, d, e, f}
    requires Reduced(a[..]) && Reduced(b[..]) && Reduced(c[..]) && Reduced(d[..])
    requires Reduced(x[..]) && Reduced(k121665[..]) && Fe(k121665[..]) == 121665
    modifies a, b, c, d, e, f
    ensures Reduced(a[..]) && Reduced(b[..]) && Reduced(c[..]) && Reduced(d[..])
    ensures Residues(a[..], b[..], c[..], d[..])
         == CondSwap(r, Step(Fe(x[..]), CondSwap(r, old(Residues(a[..], b[..], c[..], d[..])))))
  {
    hide Fe, Reduced, Step;
    SwapPoints(a, b, c, d, r);
    LadderStep(a, b, c, d, e, f, x, k121665);
    SwapPoints(a, b, c, d, r);
  }

  /** The 255 iterations: bit by bit, the arrays hold the settled ladder of the RFC. */
  method RunLadder(z: array<u8>, x: array<i64>) returns (a: array<i64>, c: array<i64>)
    requires z.Length == 32 && x.Length == 16 && Digits(0x1_0000, x[..])
    ensures fresh(a) && fresh(c) && a != c && a.Length == c.Length == 16 && Reduced(a[..]) && Reduced(c[..])
    ensures var s := Settled(LadderFrom(Value(0x100, z[..]), Fe(x[..]), 0));
      Fe(a[..]) == s.x2 && Fe(c[..]) == s.z2
  {
    hide *;
    a := Constant(1, 0);
    c := Constant(0, 0);
    var b := new i64[16];
    Set25519(b, x);
    var d := Constant(1, 0);
    var e, f := new i64[16], new i64[16];
    var k121665 := Constant(0xdb41, 1);
    ghost var k, x1, xs, zs := Value(0x100, z[..]), Fe(x[..]), x[..], z[..];
    DigitsReduced(xs);
    LadderStart(k, x1);
    assert Residues(a[..], b[..], c[..], d[..]) == Ladder(1, 0, x1, 1) by {
      ResiduesDef(a[..], b[..], c[..], d[..]);
    }
    for i := 255 downto 0
      invariant x[..] == xs && z[..] == zs
      invariant Reduced(k121665[..]) && Fe(k121665[..]) == 121665
      invariant Reduced(a[..]) && Reduced(b[..]) && Reduced(c[..]) && Reduced(d[..])
      invariant Residues(a[..], b[..], c[..], d[..]) == Settled(LadderFrom(k, x1, i))
    {
      var r := ScalarBit(z[..], i);
      EagerSwap(k, x1, i);
      LadderIteration(a, b, c, d, e, f, x, k121665, r);
    }
    ResiduesDef(a[..], b[..], c[..], d[..]);
  }

  lemma DigitsReduced(s: seq<int>)
    requires |s| == 16 && Digits(0x1_0000, s)
    ensures Reduced(s)
  {
  }

  lemma ResiduesDef(a: seq<int>, b: seq<int>, c: seq<int>, d: seq<int>)
    ensures Residues(a, b, c, d) == Ladder(Fe(a), Fe(c), Fe(b), Fe(d))
  {
  }

  /** The bit of line 458, read out of the byte that holds it. */
  function ScalarBit(z: seq<u8>, i: nat): (r: int)
    requires |z| == 32 && i < 256
    ensures r == Bit(Value(0x100, z), i)
  {
    BitOfBytes(z, i);
    ((z[i / 8] as int) / PowerOfTwo(i % 8)) % 2
  }

  /** The shift amount of a byte as a divisor. */
  function PowerOfTwo(n: nat): (r: int)
    requires n < 8
    ensures r == Pow(2, n)
  {
    assert Pow(2, 0) == 1 && Pow(2, 1) == 2 && Pow(2, 2) == 4 && Pow(2, 3) == 8;
    assert Pow(2, 4) == 16 && Pow(2, 5) == 32 && Pow(2, 6) == 64 && Pow(2, 7) == 128;
    [1, 2, 4, 8, 16, 32, 64, 128][n]
  }

  /** crypto_scalarmult(q, n, p) writes X25519(n, p) for every scalar and every u-coordinate. */
  method CryptoScalarmult(q: array<u8>, n: array<u8>, p: array<u8>)
    requires q.Length == n.Length == p.Length == 32
    modifies q
    ensures q[..] == Rfc7748(old(n[..]), old(p[..]))
  {
    hide Fe, Value, Pow, Reduced, FPow, FMul, Clamp, LadderFrom;
    ghost var ks: seq<int>, us: seq<int> := n[..], p[..];
    var z := ClampBytes(n);
    var x := new i64[16];
    Unpack25519(x, p);
    FeDef(x[..]);
    var a, c := RunLadder(z, x);
    ReducedFits();
    Inv25519(c, c);
    Mul(a, a, c);
    Pack25519(q, a);
    ghost var r := Fe(a[..]);
    ToDigitsValue(0x100, q[..]);
  }

  lemma FeDef(s: seq<int>)
    ensures Fe(s) == Value(0x1_0000, s) % P
  {
  }
}
