/**
 Arithmetic modulo 2^255 - 19 on sixteen signed limbs of base 2^16, as tweetnacl.c does
 it: products are reduced lazily and only packing produces the canonical residue.
 */
module Field25519 {
  import opened Bits
  import opened Limbs

  /** The field prime 2^255 - 19 (primality plays no role here). */
  const P: int := 0x7fff_ffff_ffff_ffff_ffff_ffff_ffff_ffff_ffff_ffff_ffff_ffff_ffff_ffff_ffff_ffed

  lemma PrimeShape()
    ensures P == Pow(2, 255) - 19
    ensures Pow(0x1_0000, 16) == 2 * P + 38
  {
    hide Pow;
    PowZero(0x1_0000);
    PowAdd(0x1_0000, 1, 1);
    PowAdd(0x1_0000, 2, 2);
    PowAdd(0x1_0000, 4, 4);
    PowAdd(0x1_0000, 8, 8);
    PowZero(2);
    PowAdd(2, 1, 1);
    PowAdd(2, 2, 2);
    PowAdd(2, 4, 4);
    PowAdd(2, 8, 8);
    PowMul(2, 16, 16);
    PowStep(2, 255);
  }

  /** The residue that sixteen limbs stand for. */
  ghost function Fe(s: seq<int>): (r: int)
    ensures 0 <= r < P
  {
    Value(0x1_0000, s) % P
  }

  /** Field operations on residues. */
  ghost function FAdd(x: int, y: int): (r: int)
    ensures 0 <= r < P
  {
    (x + y) % P
  }

  ghost function FSub(x: int, y: int): (r: int)
    ensures 0 <= r < P
  {
    (x - y) % P
  }

  ghost function FMul(x: int, y: int): (r: int)
    ensures 0 <= r < P
  {
    (x * y) % P
  }

  ghost function FPow(x: int, n: nat): (r: int)
    ensures 0 <= r < P
  {
    Pow(x, n) % P
  }

  ghost predicate Bounded(s: seq<int>, m: int) {
    |s| == 16 && forall k :: 0 <= k < 16 ==> -m <= s[k] <= m
  }

  /** What a product leaves behind: fully carried except for the last wrap into limb 0. */
  ghost predicate Reduced(s: seq<int>) {
    |s| == 16 && -38 <= s[0] <= 0xffff + 38 && forall k :: 1 <= k < 16 ==> 0 <= s[k] <= 0xffff
  }

  /** Operands a product accepts: magnitude below 2^26. */
  ghost predicate Factor(s: seq<int>) {
    Bounded(s, 0x3ff_ffff)
  }

  /** Operands a sum or difference accepts: magnitude below 2^62. */
  ghost predicate Addend(s: seq<int>) {
    Bounded(s, 0x3fff_ffff_ffff_ffff)
  }

  /** A product can be used as an operand of anything. */
  lemma ReducedFits()
    ensures forall s :: Reduced(s) ==> Factor(s) && Addend(s)
  {
  }

  // ----- carrying -----

  /** The carry that arrives at limb n when limbs 0 .. n-1 are reduced modulo the base. */
  ghost function CarryIn(s: seq<int>, n: nat): int
    requires n <= |s|
  {
    if n == 0 then 0 else (s[n - 1] + CarryIn(s, n - 1)) / 0x1_0000
  }

  lemma CarryInStep(s: seq<int>, n: nat)
    requires n < |s|
    ensures CarryIn(s, 0) == 0
    ensures CarryIn(s, n + 1) == (s[n] + CarryIn(s, n)) / 0x1_0000
  {
  }

  /** `t` is `s` after one carry pass; what leaves limb 15 returns 38-fold at limb 0. */
  ghost predicate Carried(s: seq<int>, t: seq<int>) {
    && |s| == |t| == 16
    && t[0] == s[0] % 0x1_0000 + 38 * CarryIn(s, 16)
    && forall k :: 1 <= k < 16 ==> t[k] == (s[k] + CarryIn(s, k)) % 0x1_0000
  }

  lemma {:induction false} CarryBound(s: seq<int>, n: nat)
    requires n <= 16 && Bounded(s, 0x4000_0000_0000_0000)
    ensures -0x8000_0000_0000 <= CarryIn(s, n) <= 0x8000_0000_0000
  {
    if n > 0 {
      CarryBound(s, n - 1);
    }
  }

  lemma CarryTerm(p: int, x: int, carry: int, vs: int, vt: int)
    requires vt + carry * p == vs
    ensures vt + ((x + carry) % 0x1_0000) * p + ((x + carry) / 0x1_0000) * (0x1_0000 * p) == vs + x * p
  {
    var q, r := (x + carry) / 0x1_0000, (x + carry) % 0x1_0000;
    assert x + carry == 0x1_0000 * q + r;
    assert (0x1_0000 * q + r) * p == q * (0x1_0000 * p) + r * p;
    assert (x + carry) * p == x * p + carry * p;
  }

  /** Reducing the first n limbs moves the carry out of them and nothing else. */
  lemma {:induction false} CarryPrefix(s: seq<int>, t: seq<int>, n: nat)
    requires n <= |s| && n <= |t|
    requires forall k :: 0 <= k < n ==> t[k] == (s[k] + CarryIn(s, k)) % 0x1_0000
    ensures Value(0x1_0000, t[..n]) + CarryIn(s, n) * Pow(0x1_0000, n) == Value(0x1_0000, s[..n])
    decreases n
  {
    if n > 0 {
      var m := n - 1;
      var p := Pow(0x1_0000, m);
      assert Pow(0x1_0000, n) == 0x1_0000 * p;
      assert CarryIn(s, n) == (s[m] + CarryIn(s, m)) / 0x1_0000;
      hide Value, CarryIn, Pow;
      CarryPrefix(s, t, m);
      ValueTake(0x1_0000, s, m);
      ValueTake(0x1_0000, t, m);
      CarryTerm(p, s[m], CarryIn(s, m), Value(0x1_0000, s[..m]), Value(0x1_0000, t[..m]));
    }
  }

  /** A carry pass subtracts an even multiple of the prime. */
  lemma CarryValue(s: seq<int>, t: seq<int>)
    requires Carried(s, t)
    ensures Value(0x1_0000, t) == Value(0x1_0000, s) - 2 * P * CarryIn(s, 16)
  {
    hide Value, CarryIn, Pow;
    var u := t[0 := s[0] % 0x1_0000];
    CarryInStep(s, 0);
    assert Value(0x1_0000, u) + CarryIn(s, 16) * Pow(0x1_0000, 16) == Value(0x1_0000, s) by {
      assert s[..16] == s && u[..16] == u;
      CarryPrefix(s, u, 16);
    }
    assert Value(0x1_0000, t) == Value(0x1_0000, u) + 38 * CarryIn(s, 16) by {
      assert t == u[0 := t[0]];
      PowZero(0x1_0000);
      ValueUpdate(0x1_0000, u, 0, t[0]);
    }
    PrimeShape();
    WrapMultiple(CarryIn(s, 16), Value(0x1_0000, u), Value(0x1_0000, s), Value(0x1_0000, t), Pow(0x1_0000, 16));
  }

  /** A carry pass keeps the residue. */
  lemma CarryResidue(s: seq<int>, t: seq<int>)
    requires Carried(s, t)
    ensures Fe(t) == Fe(s)
  {
    hide Value, CarryIn;
    CarryValue(s, t);
    ModShift(Value(0x1_0000, s), -2 * CarryIn(s, 16), P);
  }

  lemma WrapMultiple(c: int, vu: int, vs: int, vt: int, w: int)
    requires w == 2 * P + 38 && vu + c * w == vs && vt == vu + 38 * c
    ensures vt == vs - 2 * P * c == vs + P * (-2 * c)
  {
    assert c * (2 * P + 38) == 2 * P * c + 38 * c;
  }

  /** First pass, from limbs below 2^62: only limb 0 may stay large. */
  lemma FirstPass(s: seq<int>, t: seq<int>)
    requires Carried(s, t) && Bounded(s, 0x4000_0000_0000_0000)
    ensures -0x20_0000_0000_0000 <= t[0] <= 0x20_0000_0000_0000
    ensures forall k :: 1 <= k < 16 ==> 0 <= t[k] <= 0xffff
  {
    hide CarryIn;
    CarryBound(s, 16);
  }

  /** After a first pass the carries shrink by the base until they are -1, 0 or 1. */
  lemma {:induction false} CarryShrinks(s: seq<int>, n: nat)
    requires |s| == 16 && 1 <= n <= 16
    requires -0x20_0000_0000_0000 <= s[0] <= 0x20_0000_0000_0000
    requires forall k :: 1 <= k < 16 ==> 0 <= s[k] <= 0xffff
    ensures var m := if n == 1 then 0x20_0000_0000 else if n == 2 then 0x20_0001 else if n == 3 then 0x22 else 1;
            -m <= CarryIn(s, n) <= m
    decreases n
  {
    if n > 1 {
      CarryShrinks(s, n - 1);
    }
  }

  /** Second pass: the wrap into limb 0 is at most 38 either way. */
  lemma SecondPass(s: seq<int>, t: seq<int>)
    requires Carried(s, t)
    requires -0x20_0000_0000_0000 <= s[0] <= 0x20_0000_0000_0000
    requires forall k :: 1 <= k < 16 ==> 0 <= s[k] <= 0xffff
    ensures Reduced(t)
  {
    hide CarryIn;
    CarryShrinks(s, 16);
  }

  /** The carry chain of a reduced number keeps the sign of its first carry. */
  lemma {:induction false} CarrySign(s: seq<int>, n: nat)
    requires Reduced(s) && 1 <= n <= 16
    ensures s[0] < 0 ==> -1 <= CarryIn(s, n) <= 0
    ensures 0 <= s[0] <= 0xffff ==> CarryIn(s, n) == 0
    ensures s[0] > 0xffff ==> 0 <= CarryIn(s, n) <= 1
    decreases n
  {
    if n > 1 {
      CarrySign(s, n - 1);
    }
  }

  /** Third pass: every limb becomes a digit. */
  lemma ThirdPass(s: seq<int>, t: seq<int>)
    requires Carried(s, t) && Reduced(s)
    ensures Digits(0x1_0000, t)
  {
    hide CarryIn;
    CarrySign(s, 16);
  }

  /** The code biases a limb by the base before shifting and takes the bias off the carry. */
  lemma BiasedCarry(x: int)
    ensures (x + 0x1_0000) / 0x1_0000 - 1 == x / 0x1_0000
    ensures x + 0x1_0000 - ((x + 0x1_0000) / 0x1_0000) * 0x1_0000 == x % 0x1_0000
  {
  }

  method Car25519(o: array<i64>)
    requires o.Length == 16 && Bounded(o[..], 0x4000_0000_0000_0000)
    modifies o
    ensures Carried(old(o[..]), o[..])
  {
    hide CarryIn;
    ghost var s: seq<int> := o[..];
    CarryInStep(s, 0);
    for i := 0 to 16
      invariant forall k :: 1 <= k < i ==> o[k] == (s[k] + CarryIn(s, k)) % 0x1_0000
      invariant 0 < i < 16 ==> o[0] == s[0] % 0x1_0000
      invariant i == 16 ==> o[0] == s[0] % 0x1_0000 + 38 * CarryIn(s, 16)
      invariant i < 16 ==> o[i] == s[i] + CarryIn(s, i)
      invariant forall k :: i < k < 16 ==> o[k] == s[k]
    {
      ghost var x, c' := o[i], CarryIn(s, i + 1);
      CarryInStep(s, i);
      CarryBound(s, i);
      CarryBound(s, i + 1);
      BiasedCarry(x);
      o[i] := o[i] + 0x1_0000;
      var c: i64 := o[i] / 0x1_0000;
      assert c - 1 == c';
      var up: i64 := c - 1 + (if i == 15 then 37 * (c - 1) else 0);
      var next := if i < 15 then i + 1 else 0;
      o[next] := o[next] + up;
      o[i] := o[i] - c * 0x1_0000;
      assert o[i] == x % 0x1_0000;
    }
  }

  // ----- copies, additions and selection -----

  /** set25519, and the copying loops that spell it out. */
  method Set25519(r: array<i64>, a: array<i64>)
    requires r.Length == a.Length == 16
    modifies r
    ensures r[..] == old(a[..])
  {
    ghost var s := a[..];
    for i := 0 to 16
      invariant forall k :: 0 <= k < i ==> r[k] == s[k]
      invariant forall k :: i <= k < 16 ==> a[k] == s[k]
    {
      r[i] := a[i];
    }
  }

  /** A(o, a, b); the output may be one of the inputs. */
  method Add(o: array<i64>, a: array<i64>, b: array<i64>)
    requires o.Length == a.Length == b.Length == 16
    requires Addend(a[..]) && Addend(b[..])
    modifies o
    ensures forall k :: 0 <= k < 16 ==> o[k] == old(a[k]) + old(b[k])
    ensures Fe(o[..]) == FAdd(old(Fe(a[..])), old(Fe(b[..])))
    ensures old(Reduced(a[..])) && old(Reduced(b[..])) ==> Factor(o[..])
  {
    ghost var s, t := a[..], b[..];
    for i := 0 to 16
      invariant forall k :: 0 <= k < i ==> o[k] == s[k] + t[k]
      invariant forall k :: i <= k < 16 ==> a[k] == s[k] && b[k] == t[k]
    {
      o[i] := a[i] + b[i];
    }
    ValueLinear(0x1_0000, o[..], s, 1, t);
    ModAdd(Value(0x1_0000, s), Value(0x1_0000, t), P);
  }

  /** Z(o, a, b); the output may be one of the inputs. */
  method Sub(o: array<i64>, a: array<i64>, b: array<i64>)
    requires o.Length == a.Length == b.Length == 16
    requires Addend(a[..]) && Addend(b[..])
    modifies o
    ensures forall k :: 0 <= k < 16 ==> o[k] == old(a[k]) - old(b[k])
    ensures Fe(o[..]) == FSub(old(Fe(a[..])), old(Fe(b[..])))
    ensures old(Reduced(a[..])) && old(Reduced(b[..])) ==> Factor(o[..])
  {
    ghost var s, t := a[..], b[..];
    for i := 0 to 16
      invariant forall k :: 0 <= k < i ==> o[k] == s[k] - t[k]
      invariant forall k :: i <= k < 16 ==> a[k] == s[k] && b[k] == t[k]
    {
      o[i] := a[i] - b[i];
    }
    ValueLinear(0x1_0000, o[..], s, -1, t);
    ModAdd(Value(0x1_0000, s), Value(0x1_0000, t), P);
  }

  /** sel25519: swaps p and q when b is 1, leaves them when b is 0, without branching on b. */
  method Sel25519(p: array<i64>, q: array<i64>, b: int)
    requires p.Length == q.Length == 16 && p != q && 0 <= b <= 1
    modifies p, q
    ensures p[..] == old(if b == 1 then q[..] else p[..])
    ensures q[..] == old(if b == 1 then p[..] else q[..])
  {
    ghost var s, t := p[..], q[..];
    var c: i64 := Not(b - 1);
    assert c == if b == 1 then -1 else 0;
    for i := 0 to 16
      invariant forall k :: 0 <= k < i ==> p[k] == (if b == 1 then t[k] else s[k])
      invariant forall k :: 0 <= k < i ==> q[k] == (if b == 1 then s[k] else t[k])
      invariant forall k :: i <= k < 16 ==> p[k] == s[k] && q[k] == t[k]
    {
      XorCancels(p[i], q[i]);
      XorCommutes(p[i], 0);
      XorCommutes(q[i], 0);
      var x := And(c, Xor(p[i], q[i]));
      assert x == if b == 1 then Xor(s[i], t[i]) else 0;
      p[i] := Xor(p[i], x);
      q[i] := Xor(q[i], x);
    }
  }

  // ----- multiplication -----

  /** The high half of a product weighs 2^256, which is 38 modulo the prime. */
  lemma FoldValue(t: seq<int>, o: seq<int>)
    requires |t| == 31 && |o| == 16
    requires forall k :: 0 <= k < 15 ==> o[k] == t[k] + 38 * t[k + 16]
    requires o[15] == t[15]
    ensures Fe(o) == Fe(t)
  {
    var lo, hi := t[..16], t[16..] + [0];
    assert hi[..15] == t[16..];
    assert Value(0x1_0000, hi) == Value(0x1_0000, t[16..]) + 0 * Pow(0x1_0000, 15);
    hide Value, Pow;
    ValueSplit(0x1_0000, t, 16);
    ValueLinear(0x1_0000, o, lo, 38, hi);
    PrimeShape();
    FoldMultiple(Value(0x1_0000, lo), Value(0x1_0000, hi), Pow(0x1_0000, 16));
    ModShift(Value(0x1_0000, o), 2 * Value(0x1_0000, hi), P);
  }

  lemma FoldMultiple(lo: int, hi: int, w: int)
    requires w == 2 * P + 38
    ensures lo + w * hi == lo + 38 * hi + P * (2 * hi)
  {
    assert (2 * P + 38) * hi == 2 * P * hi + 38 * hi;
  }

  /** Row i of the double loop of M: t gains a[i] * b at weight i. */
  method AddRow(t: array<i64>, a: array<i64>, b: array<i64>, i: nat)
    requires t.Length == 31 && a.Length == b.Length == 16 && t != a && t != b && i < 16
    requires Factor(a[..]) && Factor(b[..])
    requires forall k :: 0 <= k < 31 ==> -0x10_0000_0000_0000 * i <= t[k] <= 0x10_0000_0000_0000 * i
    modifies t
    ensures forall k :: 0 <= k < 31 ==> -0x10_0000_0000_0000 * (i + 1) <= t[k] <= 0x10_0000_0000_0000 * (i + 1)
    ensures Value(0x1_0000, t[..]) == old(Value(0x1_0000, t[..])) + Scaled(0x1_0000, a[i], i, Value(0x1_0000, b[..]))
  {
    ghost var sb: seq<int> := b[..];
    hide Value, Pow, Scaled, Times;
    assert sb[..0] == [];
    ScaledStart(0x1_0000, a[i], i);
    ghost var done := Value(0x1_0000, t[..]);
    for j := 0 to 16
      invariant Value(0x1_0000, t[..]) == done + Scaled(0x1_0000, a[i], i, Value(0x1_0000, sb[..j]))
      invariant forall k :: i + j <= k < 31 ==> -0x10_0000_0000_0000 * i <= t[k] <= 0x10_0000_0000_0000 * i
      invariant forall k :: 0 <= k < 31 ==> -0x10_0000_0000_0000 * (i + 1) <= t[k] <= 0x10_0000_0000_0000 * (i + 1)
    {
      ghost var before: seq<int> := t[..];
      TimesRange(a[i], b[j], 0x3ff_ffff, 0x3ff_ffff);
      var x: i64 := Times(a[i], b[j]);
      ProductStep(0x1_0000, before, i, j, a[i], sb, done, x);
      t[i + j] := t[i + j] + x;
      assert t[..] == before[i + j := before[i + j] + x];
    }
    assert sb[..16] == sb;
  }

  /** The double loop of M: a plain product, with every partial sum inside 64 bits. */
  method Product(a: array<i64>, b: array<i64>) returns (t: array<i64>)
    requires a.Length == b.Length == 16 && Factor(a[..]) && Factor(b[..])
    ensures fresh(t) && t.Length == 31
    ensures Value(0x1_0000, t[..]) == Value(0x1_0000, a[..]) * Value(0x1_0000, b[..])
    ensures forall k :: 0 <= k < 31 ==> -0x100_0000_0000_0000 <= t[k] <= 0x100_0000_0000_0000
  {
    t := new i64[31](_ => 0);
    ghost var sa: seq<int>, vb := a[..], Value(0x1_0000, b[..]);
    assert Value(0x1_0000, sa[..0]) == 0;
    hide Value, Pow, Scaled;
    ValueZero(0x1_0000, t[..]);
    for i := 0 to 16
      invariant Value(0x1_0000, t[..]) == Value(0x1_0000, sa[..i]) * vb
      invariant forall k :: 0 <= k < 31 ==> -0x10_0000_0000_0000 * i <= t[k] <= 0x10_0000_0000_0000 * i
    {
      AddRow(t, a, b, i);
      RowDone(0x1_0000, sa, i, vb);
    }
    assert sa[..16] == sa;
  }

  /** The folding loop of M: the high limbs return 38-fold. */
  method Fold(o: array<i64>, t: array<i64>)
    requires o.Length == 16 && t.Length == 31 && o != t
    requires forall k :: 0 <= k < 31 ==> -0x100_0000_0000_0000 <= t[k] <= 0x100_0000_0000_0000
    modifies o, t
    ensures Bounded(o[..], 0x4000_0000_0000_0000)
    ensures Fe(o[..]) == old(Fe(t[..]))
  {
    ghost var full: seq<int> := t[..];
    assert forall k :: 0 <= k < 31 ==> -0x100_0000_0000_0000 <= full[k] <= 0x100_0000_0000_0000;
    for i := 0 to 15
      invariant forall k :: 0 <= k < i ==> t[k] == full[k] + 38 * full[k + 16]
      invariant forall k :: i <= k < 31 ==> t[k] == full[k]
    {
      var x: i64 := 38 * t[i + 16];
      t[i] := t[i] + x;
    }
    for i := 0 to 16
      invariant forall k :: 0 <= k < i ==> o[k] == t[k]
      invariant forall k :: 0 <= k < 15 ==> t[k] == full[k] + 38 * full[k + 16]
      invariant t[15] == full[15]
    {
      o[i] := t[i];
    }
    ghost var folded: seq<int> := o[..];
    assert forall k :: 0 <= k < 15 ==> folded[k] == full[k] + 38 * full[k + 16];
    assert folded[15] == full[15];
    forall k | 0 <= k < 16
      ensures -0x4000_0000_0000_0000 <= folded[k] <= 0x4000_0000_0000_0000
    {
      if k < 15 {
        assert folded[k] == full[k] + 38 * full[k + 16];
      }
    }
    FoldValue(full, folded);
  }

  /** M(o, a, b), also when o is a or b or both. */
  method Mul(o: array<i64>, a: array<i64>, b: array<i64>)
    requires o.Length == a.Length == b.Length == 16
    requires Factor(a[..]) && Factor(b[..])
    modifies o
    ensures Reduced(o[..])
    ensures Fe(o[..]) == FMul(old(Fe(a[..])), old(Fe(b[..])))
  {
    ModMul(Value(0x1_0000, a[..]), Value(0x1_0000, b[..]), P);
    var t := Product(a, b);
    assert Fe(t[..]) == FMul(Fe(a[..]), Fe(b[..]));
    hide Fe, Value, CarryIn;
    Fold(o, t);
    ghost var s0 := o[..];
    Car25519(o);
    ghost var s1 := o[..];
    CarryResidue(s0, s1);
    FirstPass(s0, s1);
    Car25519(o);
    CarryResidue(s1, o[..]);
    SecondPass(s1, o[..]);
  }

  // ----- packing -----

  /** Limb k of the prime. */
  ghost function PrimeLimb(k: nat): int {
    if k == 0 then 0xffed else if k < 15 then 0xffff else 0x7fff
  }

  ghost const PRIME_LIMBS: seq<int> := seq(16, k requires 0 <= k => PrimeLimb(k))

  lemma PrimeLimbs()
    ensures |PRIME_LIMBS| == 16 && forall k :: 0 <= k < 16 ==> PRIME_LIMBS[k] == PrimeLimb(k)
    ensures Value(0x1_0000, PRIME_LIMBS) == P
  {
    var all := seq(16, k => 0xffff);
    var d := PRIME_LIMBS[15 := 0xffff];
    assert d[0 := 0xffff] == all;
    assert PRIME_LIMBS == d[15 := 0x7fff];
    hide Value, Pow;
    MaxDigits(16);
    ValueUpdate(0x1_0000, d, 15, 0x7fff);
    ValueUpdate(0x1_0000, d, 0, 0xffff);
    PrimeShape();
    PowAdd(0x1_0000, 15, 1);
    PowZero(0x1_0000);
  }

  lemma {:induction false} MaxDigits(n: nat)
    ensures Value(0x1_0000, seq(n, k => 0xffff)) == Pow(0x1_0000, n) - 1
  {
    if n > 0 {
      var s := seq(n, k => 0xffff);
      assert s[..n - 1] == seq(n - 1, k => 0xffff);
      MaxDigits(n - 1);
    }
  }

  /** Subtracting the prime limb by limb, before any borrow. */
  ghost function MinusPrime(s: seq<int>): (d: seq<int>)
    requires |s| == 16
    ensures |d| == 16 && forall k :: 0 <= k < 16 ==> d[k] == s[k] - PrimeLimb(k)
  {
    seq(16, k requires 0 <= k < 16 => s[k] - PrimeLimb(k))
  }

  /** A borrow is a carry of -1. */
  lemma {:induction false} BorrowBound(s: seq<int>, n: nat)
    requires |s| == 16 && Digits(0x1_0000, s) && n <= 15
    ensures -1 <= CarryIn(MinusPrime(s), n) <= 0
    ensures -0x1_0000 <= MinusPrime(s)[n] + CarryIn(MinusPrime(s), n) <= 0xffff
  {
    if n > 0 {
      BorrowBound(s, n - 1);
      CarryInStep(MinusPrime(s), n - 1);
    }
  }

  /** With digits below it, limb 15 carries the sign. */
  lemma LowLimbsBelow(m: seq<int>)
    requires |m| == 16 && forall k :: 0 <= k < 15 ==> 0 <= m[k] < 0x1_0000
    ensures m[15] < 0 <==> Value(0x1_0000, m[..15]) + m[15] * Pow(0x1_0000, 15) < 0
  {
    hide Value, Pow;
    ValueBounds(0x1_0000, m[..15]);
    MulBound(Pow(0x1_0000, 15), m[15]);
  }

  /** The difference with all borrows settled but the last one, which is its sign. */
  lemma DifferenceValue(s: seq<int>, m: seq<int>)
    requires |s| == |m| == 16 && Digits(0x1_0000, s)
    requires forall k :: 0 <= k < 15 ==> m[k] == (MinusPrime(s)[k] + CarryIn(MinusPrime(s), k)) % 0x1_0000
    requires m[15] == MinusPrime(s)[15] + CarryIn(MinusPrime(s), 15)
    ensures Value(0x1_0000, m) == Value(0x1_0000, s) - P
    ensures m[15] < 0 <==> Value(0x1_0000, s) < P
  {
    hide *;
    var d := MinusPrime(s);
    var p, c := Pow(0x1_0000, 15), CarryIn(d, 15);
    assert Value(0x1_0000, d) == Value(0x1_0000, s) - P by {
      PrimeLimbs();
      ValueLinear(0x1_0000, d, s, -1, PRIME_LIMBS);
    }
    assert Value(0x1_0000, d) == Value(0x1_0000, d[..15]) + d[15] * p by {
      assert d[..16] == d;
      ValueTake(0x1_0000, d, 15);
    }
    assert Value(0x1_0000, m) == Value(0x1_0000, m[..15]) + m[15] * p by {
      assert m[..16] == m;
      ValueTake(0x1_0000, m, 15);
    }
    CarryPrefix(d, m, 15);
    assert (d[15] + c) * p == d[15] * p + c * p;
    LowLimbsBelow(m);
  }

  /** The bit above a 16-bit limb is its borrow. */
  lemma BorrowBit(x: int)
    requires -0x1_0000 <= x <= 0xffff
    ensures (x / 0x1_0000) % 2 == -(x / 0x1_0000) == if x < 0 then 1 else 0
  {
  }

  /**
   One subtraction pass of pack25519: `m` receives t - p limb by limb, borrows are the
   bit above each limb, and the result is the borrow out of limb 15.
   */
  method SubtractPrime(m: array<i64>, t: array<i64>) returns (b: int)
    requires m.Length == t.Length == 16 && m != t && Digits(0x1_0000, t[..])
    modifies m
    ensures Value(0x1_0000, m[..]) == Value(0x1_0000, t[..]) - P
    ensures b == if Value(0x1_0000, t[..]) < P then 1 else 0
    ensures b == 0 ==> Digits(0x1_0000, m[..])
  {
    hide CarryIn, Value, Pow, MinusPrime;
    ghost var s: seq<int> := t[..];
    ghost var d := MinusPrime(s);
    CarryInStep(d, 0);
    m[0] := t[0] - 0xffed;
    for i := 1 to 15
      invariant t[..] == s
      invariant forall k :: 0 <= k < i - 1 ==> m[k] == (d[k] + CarryIn(d, k)) % 0x1_0000
      invariant m[i - 1] == d[i - 1] + CarryIn(d, i - 1)
    {
      CarryInStep(d, i - 1);
      BorrowBound(s, i - 1);
      BorrowBit(m[i - 1]);
      m[i] := t[i] - 0xffff - (m[i - 1] / 0x1_0000) % 2;
      m[i - 1] := m[i - 1] % 0x1_0000;
    }
    CarryInStep(d, 14);
    BorrowBound(s, 14);
    BorrowBit(m[14]);
    m[15] := t[15] - 0x7fff - (m[14] / 0x1_0000) % 2;
    BorrowBound(s, 15);
    BorrowBit(m[15]);
    b := (m[15] / 0x1_0000) % 2;
    m[14] := m[14] % 0x1_0000;
    DifferenceValue(s, m[..]);
  }

  /** The three carry passes of pack25519 leave sixteen digits. */
  method CarryThrice(t: array<i64>)
    requires t.Length == 16 && Bounded(t[..], 0x4000_0000_0000_0000)
    modifies t
    ensures Digits(0x1_0000, t[..])
    ensures Fe(t[..]) == old(Fe(t[..]))
  {
    hide Fe, CarryIn, Value;
    ghost var s0 := t[..];
    Car25519(t);
    ghost var s1 := t[..];
    FirstPass(s0, s1);
    CarryResidue(s0, s1);
    Car25519(t);
    ghost var s2 := t[..];
    SecondPass(s1, s2);
    CarryResidue(s1, s2);
    Car25519(t);
    ThirdPass(s2, t[..]);
    CarryResidue(s2, t[..]);
  }

  /** The two conditional subtractions of pack25519 reach the canonical residue. */
  method Canonicalize(t: array<i64>)
    requires t.Length == 16 && Digits(0x1_0000, t[..])
    modifies t
    ensures Digits(0x1_0000, t[..])
    ensures Value(0x1_0000, t[..]) == old(Fe(t[..]))
  {
    hide Value, Pow;
    ghost var v := Value(0x1_0000, t[..]);
    ValueBounds(0x1_0000, t[..]);
    PrimeShape();
    var m := new i64[16];
    for j := 0 to 2
      invariant Digits(0x1_0000, t[..])
      invariant Value(0x1_0000, t[..]) % P == v % P
      invariant 0 <= Value(0x1_0000, t[..]) < if j == 0 then 2 * P + 38 else if j == 1 then P + 38 else P
    {
      ghost var w := Value(0x1_0000, t[..]);
      var b := SubtractPrime(m, t);
      Sel25519(t, m, 1 - b);
      ModShift(w, -1, P);
    }
  }

  /** pack25519: the canonical residue as 32 little-endian bytes. */
  method Pack25519(o: array<u8>, n: array<i64>)
    requires o.Length == 32 && n.Length == 16
    requires Bounded(n[..], 0x4000_0000_0000_0000)
    modifies o
    ensures Value(0x100, o[..]) == Fe(n[..])
  {
    hide Value, Pow;
    var t := new i64[16];
    Set25519(t, n);
    CarryThrice(t);
    Canonicalize(t);
    ghost var s: seq<int> := t[..];
    assert Value(0x1_0000, s) == Fe(n[..]);
    for i := 0 to 16
      invariant t[..] == s
      invariant forall k :: 0 <= k < i ==> s[k] == (o[2 * k] as int) + 0x100 * (o[2 * k + 1] as int)
    {
      assert 0 <= s[i] <= 0xffff;
      o[2 * i] := t[i] % 0x100;
      o[2 * i + 1] := t[i] / 0x100;
    }
    ValueOfPairs(0x100, o[..], s);
  }

  /** Clearing bit 15 of limb 15 is reduction modulo 2^255. */
  lemma TopBit(s: seq<int>)
    requires |s| == 16 && Digits(0x1_0000, s)
    ensures Value(0x1_0000, s[15 := s[15] % 0x8000]) == Value(0x1_0000, s) % Pow(2, 255)
  {
    var t := s[15 := s[15] % 0x8000];
    var p, v := Pow(0x1_0000, 15), Value(0x1_0000, t);
    var x := s[15];
    hide Value, Pow;
    PrimeShape();
    PowAdd(0x1_0000, 15, 1);
    PowZero(0x1_0000);
    assert p * 0x8000 == Pow(2, 255);
    ValueUpdate(0x1_0000, s, 15, x % 0x8000);
    assert x % 0x8000 - x == -0x8000 * (x / 0x8000);
    assert Value(0x1_0000, s) == Pow(2, 255) * (x / 0x8000) + v by {
      assert (x / 0x8000) * (0x8000 * p) == (0x8000 * (x / 0x8000)) * p;
    }
    ValueTake(0x1_0000, t, 15);
    assert t[..16] == t;
    ValueBounds(0x1_0000, t[..15]);
    assert 0 <= t[15] * p && t[15] * p + p <= 0x8000 * p;
    ModUnique(Value(0x1_0000, s), Pow(2, 255), x / 0x8000, v);
  }

  /** unpack25519: decodes 32 bytes and ignores the top bit. */
  method Unpack25519(o: array<i64>, n: array<u8>)
    requires o.Length == 16 && n.Length == 32
    modifies o
    ensures Digits(0x1_0000, o[..])
    ensures Value(0x1_0000, o[..]) == Value(0x100, n[..]) % Pow(2, 255)
  {
    hide Value, Pow;
    for i := 0 to 16
      invariant forall k :: 0 <= k < i ==> o[k] == (n[2 * k] as int) + 0x100 * (n[2 * k + 1] as int)
    {
      o[i] := (n[2 * i] as int) + 0x100 * (n[2 * i + 1] as int);
    }
    ghost var s := o[..];
    ValueOfPairs(0x100, n[..], s);
    TopBit(s);
    o[15] := o[15] % 0x8000;
    assert o[..] == s[15 := s[15] % 0x8000];
  }

  /** Decoding what pack25519 wrote gives the residue back, already canonical. */
  method PackUnpack(n: array<i64>) returns (o: array<i64>)
    requires n.Length == 16 && Bounded(n[..], 0x4000_0000_0000_0000)
    ensures o.Length == 16 && Digits(0x1_0000, o[..])
    ensures Value(0x1_0000, o[..]) == Fe(n[..]) == Fe(o[..])
  {
    hide Value, Pow;
    var bytes := new u8[32];
    Pack25519(bytes, n);
    o := new i64[16];
    Unpack25519(o, bytes);
    PrimeShape();
    assert Fe(n[..]) < Pow(2, 255);
  }

  // ----- powers -----

  /** What bits 0 .. a-1 of 2^255 - 21 contribute: all ones but bits 2 and 4. */
  ghost function InvertBits(a: nat): int {
    Pow(2, a) - 1 - (if a > 2 then 4 else 0) - (if a > 4 then 16 else 0)
  }

  /** Squaring and, except at bits 2 and 4, multiplying consumes one bit of the exponent. */
  lemma InvertStep(e: nat, a: nat)
    ensures var e' := 2 * e + if a != 2 && a != 4 then 1 else 0;
            e' * Pow(2, a) + InvertBits(a) == e * Pow(2, a + 1) + InvertBits(a + 1)
  {
    var p := Pow(2, a);
    assert Pow(2, a + 1) == 2 * p;
    assert (2 * e + 1) * p == e * (2 * p) + p;
    assert (2 * e) * p == e * (2 * p);
    assert Pow(2, 2) == 4 && Pow(2, 4) == 16;
  }

  /** inv25519: raises to the power p - 2; the output may be the input. */
  method Inv25519(o: array<i64>, i: array<i64>)
    requires o.Length == i.Length == 16 && Factor(i[..])
    modifies o
    ensures Reduced(o[..])
    ensures Fe(o[..]) == FPow(old(Fe(i[..])), P - 2)
  {
    hide Pow, Fe;
    ghost var x, s := Fe(i[..]), i[..];
    var c := new i64[16];
    Set25519(c, i);
    ghost var e: nat := 1;
    PowZero(x);
    PrimeShape();
    PowAdd(2, 254, 1);
    PowZero(2);
    for a := 254 downto 0
      invariant Factor(c[..]) && (a < 254 ==> Reduced(c[..])) && i[..] == s
      invariant Fe(c[..]) == FPow(x, e)
      invariant e * Pow(2, a) + InvertBits(a) == P - 2
    {
      InvertStep(e, a);
      PowAdd(x, e, e);
      ModMul(Pow(x, e), Pow(x, e), P);
      Mul(c, c, c);
      e := 2 * e;
      if a != 2 && a != 4 {
        PowAdd(x, e, 1);
        ModMul(Pow(x, e), Pow(x, 1), P);
        Mul(c, c, i);
        e := e + 1;
      }
    }
    Set25519(o, c);
  }

  /** What bits 0 .. a-1 of 2^252 - 3 contribute: all ones but bit 1. */
  ghost function RootBits(a: nat): int {
    Pow(2, a) - 1 - (if a > 1 then 2 else 0)
  }

  lemma RootStep(e: nat, a: nat)
    ensures var e' := 2 * e + if a != 1 then 1 else 0;
            e' * Pow(2, a) + RootBits(a) == e * Pow(2, a + 1) + RootBits(a + 1)
  {
    var p := Pow(2, a);
    assert Pow(2, a + 1) == 2 * p;
    assert (2 * e + 1) * p == e * (2 * p) + p;
    assert (2 * e) * p == e * (2 * p);
    assert Pow(2, 1) == 2;
  }

  /** pow2523: raises to the power 2^252 - 3; the output may be the input. */
  method Pow2523(o: array<i64>, i: array<i64>)
    requires o.Length == i.Length == 16 && Factor(i[..])
    modifies o
    ensures Reduced(o[..])
    ensures Pow(2, 252) >= 3
    ensures Fe(o[..]) == FPow(old(Fe(i[..])), Pow(2, 252) - 3)
  {
    hide Pow, Fe;
    ghost var x, s := Fe(i[..]), i[..];
    var c := new i64[16];
    Set25519(c, i);
    ghost var e: nat := 1;
    PowZero(x);
    PowAdd(2, 251, 1);
    PowAdd(2, 2, 249);
    PowAdd(2, 1, 1);
    PowZero(2);
    for a := 251 downto 0
      invariant Factor(c[..]) && (a < 251 ==> Reduced(c[..])) && i[..] == s
      invariant Fe(c[..]) == FPow(x, e)
      invariant e * Pow(2, a) + RootBits(a) == Pow(2, 252) - 3
    {
      RootStep(e, a);
      PowAdd(x, e, e);
      ModMul(Pow(x, e), Pow(x, e), P);
      Mul(c, c, c);
      e := 2 * e;
      if a != 1 {
        PowAdd(x, e, 1);
        ModMul(Pow(x, e), Pow(x, 1), P);
        Mul(c, c, i);
        e := e + 1;
      }
    }
    Set25519(o, c);
  }
}
