/**
 crypto_onetimeauth against Poly1305 of section 2.5 of RFC 8439. The code keeps the
 accumulator in seventeen 8-bit limbs, lazily reduced; every value it stores is a u32,
 so no sum reaches 2^32 although the C type is wider.
 */
module Poly1305 {
  import opened Bits
  import opened Limbs

  /** 2^130 - 5. */
  const P: int := 0x3_ffff_ffff_ffff_ffff_ffff_ffff_ffff_fffb

  // ----- RFC 8439 -----

  const CLAMP: int := 0x0fff_fffc_0fff_fffc_0fff_fffc_0fff_ffff

  ghost function ClampedR(key: seq<int>): int
    requires |key| == 32
  {
    And(Value(0x100, key[..16]), CLAMP)
  }

  /** A block of at most 16 bytes read as a number with one more byte 0x01 on top. */
  ghost function Block(block: seq<int>): int {
    Value(0x100, block + [1])
  }

  /** The accumulator after the remaining message has been absorbed. */
  ghost function Absorb(r: int, a: int, msg: seq<int>): int
    decreases |msg|
  {
    if |msg| == 0 then a
    else
      var n := if |msg| < 16 then |msg| else 16;
      Absorb(r, ((a + Block(msg[..n])) * r) % P, msg[n..])
  }

  /** The 16-byte tag. */
  ghost function Tag(msg: seq<int>, key: seq<int>): (tag: seq<int>)
    requires |key| == 32
    ensures |tag| == 16
  {
    ToDigits(0x100, Absorb(ClampedR(key), 0, msg) + Value(0x100, key[16..]), 16)
  }

  // ----- limb arithmetic -----

  lemma Powers()
    ensures Pow(0x100, 16) == 0x1_0000_0000_0000_0000_0000_0000_0000_0000
    ensures Pow(0x100, 17) == 0x100_0000_0000_0000_0000_0000_0000_0000_0000
    ensures Pow(0x100, 16) * 4 == P + 5
    ensures Pow(0x100, 17) == 64 * P + 320
  {
    assert Pow(0x100, 1) == 0x100;
    PowAdd(0x100, 1, 1);
    PowAdd(0x100, 2, 2);
    PowAdd(0x100, 4, 4);
    PowAdd(0x100, 8, 8);
    PowAdd(0x100, 16, 1);
  }

  /** add1305: h += c modulo 2^136. */
  method Add1305(h: array<u32>, c: array<u32>)
    requires h.Length == c.Length == 17 && h != c
    requires Digits(0x100, h[..]) && Digits(0x100, c[..])
    modifies h
    ensures Digits(0x100, h[..])
    ensures Value(0x100, h[..]) == (old(Value(0x100, h[..])) + Value(0x100, c[..])) % Pow(0x100, 17)
  {
    hide Value, Pow, Pending;
    ghost var s: seq<int>, t: seq<int> := h[..], c[..];
    var u: u32 := 0;
    PendingStart(0x100, 0);
    assert h[..0] == [] && s[..0] == [] && t[..0] == [];
    for j := 0 to 17
      invariant c[..] == t && u <= 1
      invariant forall k :: 0 <= k < j ==> 0 <= h[k] < 0x100
      invariant forall k :: j <= k < 17 ==> h[k] == s[k]
      invariant Pending(0x100, h[..j], u) == Value(0x100, s[..j]) + Value(0x100, t[..j])
    {
      ghost var before: seq<int> := h[..j];
      AddStep(before, s, t, j, u);
      u := u + (h[j] + c[j]);
      h[j] := u % 0x100;
      assert h[..j + 1] == before + [u % 0x100];
      u := u / 0x100;
    }
    assert h[..17] == h[..] && s[..17] == s && t[..17] == t;
    PendingEnd(0x100, h[..], u);
  }

  lemma AddStep(done: seq<int>, s: seq<int>, t: seq<int>, j: nat, u: int)
    requires |done| == j < |s| && j < |t|
    requires Pending(0x100, done, u) == Value(0x100, s[..j]) + Value(0x100, t[..j])
    ensures Pending(0x100, done + [(u + (s[j] + t[j])) % 0x100], (u + (s[j] + t[j])) / 0x100)
         == Value(0x100, s[..j + 1]) + Value(0x100, t[..j + 1])
  {
    hide *;
    PendingStep(0x100, done, u, s[j] + t[j]);
    ValueTake(0x100, s, j);
    ValueTake(0x100, t, j);
    assert (s[j] + t[j]) * Pow(0x100, j) == s[j] * Pow(0x100, j) + t[j] * Pow(0x100, j);
  }

  // ----- multiplication by r -----

  /** What limb j of h contributes to limb i: 2^136 is 320 modulo p, so weights wrap 320-fold. */
  ghost function Coef(r: seq<int>, i: nat, j: nat): int
    requires |r| == 17 && i < 17 && j < 17
  {
    if j <= i then r[i - j] else 320 * r[i + 17 - j]
  }

  /** Limb i of the product, summed over the first n limbs of h. */
  ghost function Dot(h: seq<int>, r: seq<int>, i: nat, n: nat): int
    requires |h| == |r| == 17 && i < 17 && n <= 17
  {
    if n == 0 then 0 else Dot(h, r, i, n - 1) + Times(h[n - 1], Coef(r, i, n - 1))
  }

  lemma DotStep(h: seq<int>, r: seq<int>, i: nat, n: nat)
    requires |h| == |r| == 17 && i < 17 && n < 17
    ensures Dot(h, r, i, 0) == 0
    ensures Dot(h, r, i, n + 1) == Dot(h, r, i, n) + Times(h[n], Coef(r, i, n))
  {
  }

  lemma TermRange(h: seq<int>, r: seq<int>, i: nat, j: nat)
    requires |h| == |r| == 17 && i < 17 && j < 17 && Digits(0x100, h) && Digits(0x100, r)
    ensures 0 <= Coef(r, i, j) <= 81600 && 0 <= Times(h[j], Coef(r, i, j)) <= 20808000
  {
    TimesRange(h[j], Coef(r, i, j), 255, 81600);
  }

  ghost function Row(h: seq<int>, r: seq<int>, n: nat): (x: seq<int>)
    requires |h| == |r| == 17 && n <= 17
    ensures |x| == 17 && forall i :: 0 <= i < 17 ==> x[i] == Dot(h, r, i, n)
  {
    seq(17, i requires 0 <= i < 17 => Dot(h, r, i, n))
  }

  ghost function Column(r: seq<int>, j: nat): (x: seq<int>)
    requires |r| == 17 && j < 17
    ensures |x| == 17 && forall i :: 0 <= i < 17 ==> x[i] == Coef(r, i, j)
  {
    seq(17, i requires 0 <= i < 17 => Coef(r, i, j))
  }

  /** A column is r moved up by j limbs, with what leaves the top wrapped around. */
  lemma ColumnValue(r: seq<int>, j: nat)
    requires |r| == 17 && j < 17
    ensures Value(0x100, Column(r, j)) == Pow(0x100, j) * Value(0x100, r) - 64 * P * Value(0x100, r[17 - j..])
  {
    var c, top, low := Column(r, j), r[17 - j..], r[..17 - j];
    var q, vt, vl := Pow(0x100, j), Value(0x100, top), Value(0x100, low);
    assert c[j..] == low;
    hide Value, Pow, Column, Coef;
    assert Value(0x100, c) == 320 * vt + q * vl by {
      ValueSplit(0x100, c, j);
      WrappedLimbs(r, j);
    }
    ValueSplit(0x100, r, 17 - j);
    PowAdd(0x100, j, 17 - j);
    Powers();
    WrapTerm(q, Pow(0x100, 17 - j), vl, vt);
  }

  lemma WrapTerm(q: int, w: int, vl: int, vt: int)
    requires q * w == 64 * P + 320
    ensures 320 * vt + q * vl == q * (vl + w * vt) - 64 * P * vt
  {
    assert q * (vl + w * vt) == q * vl + (q * w) * vt;
  }

  lemma WrappedLimbs(r: seq<int>, j: nat)
    requires |r| == 17 && j < 17
    ensures Value(0x100, Column(r, j)[..j]) == 320 * Value(0x100, r[17 - j..])
  {
    var zeros := seq(j, _ => 0);
    hide Value;
    ValueZero(0x100, zeros);
    ValueLinear(0x100, Column(r, j)[..j], zeros, 320, r[17 - j..]);
  }

  /** How many multiples of 64 p the wrapped product falls short of the true one. */
  ghost function Wrapped(h: seq<int>, r: seq<int>, n: nat): int
    requires |h| == |r| == 17 && n <= 17
  {
    if n == 0 then 0 else Wrapped(h, r, n - 1) + h[n - 1] * Value(0x100, r[17 - (n - 1)..])
  }

  lemma {:induction false} RowValue(h: seq<int>, r: seq<int>, n: nat)
    requires |h| == |r| == 17 && n <= 17
    ensures Value(0x100, Row(h, r, n)) == Value(0x100, h[..n]) * Value(0x100, r) - 64 * P * Wrapped(h, r, n)
    decreases n
  {
    if n == 0 {
      ValueZero(0x100, Row(h, r, 0));
      assert Value(0x100, h[..0]) == 0;
    } else {
      var j := n - 1;
      var x, q, vr, vt := h[j], Pow(0x100, j), Value(0x100, r), Value(0x100, r[17 - j..]);
      assert Wrapped(h, r, n) == Wrapped(h, r, j) + x * vt;
      assert forall i :: 0 <= i < 17 ==> Row(h, r, n)[i] == Row(h, r, j)[i] + x * Column(r, j)[i];
      hide *;
      RowValue(h, r, j);
      ValueLinear(0x100, Row(h, r, n), Row(h, r, j), x, Column(r, j));
      ColumnValue(r, j);
      ValueTake(0x100, h, j);
      RowTerm(Value(0x100, h[..j]), x, q, vr, vt, Wrapped(h, r, j));
    }
  }

  lemma RowTerm(vh: int, x: int, q: int, vr: int, vt: int, w: int)
    ensures vh * vr - 64 * P * w + x * (q * vr - 64 * P * vt) == (vh + x * q) * vr - 64 * P * (w + x * vt)
  {
  }

  /** Lines 233-238: the wrapped product, exact in 32 bits. */
  method MulR(x: array<u32>, h: array<u32>, r: array<u32>)
    requires x.Length == h.Length == r.Length == 17 && x != h && x != r
    requires Digits(0x100, h[..]) && Digits(0x100, r[..])
    modifies x
    ensures forall i :: 0 <= i < 17 ==> x[i] <= 353736000
    ensures Value(0x100, x[..]) % P == (Value(0x100, h[..]) * Value(0x100, r[..])) % P
  {
    hide Dot, Times;
    ghost var hs: seq<int>, rs: seq<int> := h[..], r[..];
    for i := 0 to 17
      invariant h[..] == hs && r[..] == rs
      invariant forall k :: 0 <= k < i ==> x[k] == Dot(hs, rs, k, 17) <= 353736000
    {
      x[i] := 0;
      DotStep(hs, rs, i, 0);
      for j := 0 to 17
        invariant h[..] == hs && r[..] == rs
        invariant forall k :: 0 <= k < i ==> x[k] == Dot(hs, rs, k, 17) <= 353736000
        invariant x[i] == Dot(hs, rs, i, j) <= 20808000 * j
      {
        var c: u32 := if j <= i then r[i - j] else 320 * (r[i + 17 - j] as int);
        assert c == Coef(rs, i, j);
        DotStep(hs, rs, i, j);
        TermRange(hs, rs, i, j);
        var t: u32 := Times(h[j], c);
        x[i] := x[i] + t;
      }
    }
    assert x[..] == Row(hs, rs, 17);
    assert hs[..17] == hs;
    hide *;
    RowValue(hs, rs, 17);
    ModShift(Value(0x100, hs) * Value(0x100, rs), -64 * Wrapped(hs, rs, 17), P);
  }

  // ----- reduction -----

  /** Lines 241-246 and 250-255: u and the low sixteen limbs become digits and a carry. */
  method Carry16(h: array<u32>, u0: u32) returns (u: u32)
    requires h.Length == 17 && u0 <= 0x2fff_ffff
    requires forall k :: 0 <= k < 17 ==> h[k] <= 353736000
    modifies h
    ensures Digits(0x100, h[..16]) && h[16] == old(h[16])
    ensures u <= 0x20_0000
    ensures Pending(0x100, h[..16], u) == old(Value(0x100, h[..16])) + u0
  {
    hide Value, Pow, Pending;
    ghost var s: seq<int> := h[..];
    u := u0;
    PendingStart(0x100, u0);
    assert h[..0] == [] && s[..0] == [];
    for j := 0 to 16
      invariant u <= (if j == 0 then 0x2fff_ffff else 0x50_0000)
      invariant j >= 2 ==> u <= 0x20_0000
      invariant forall k :: 0 <= k < j ==> 0 <= h[k] < 0x100
      invariant forall k :: j <= k < 17 ==> h[k] == s[k]
      invariant Pending(0x100, h[..j], u) == Value(0x100, s[..j]) + u0
    {
      ghost var before: seq<int> := h[..j];
      PendingStep(0x100, before, u, s[j]);
      ValueTake(0x100, s, j);
      u := u + h[j];
      h[j] := u % 0x100;
      assert h[..j + 1] == before + [u % 0x100];
      u := u / 0x100;
    }
  }

  /** Lines 241-257: 2^130 is 5 modulo p; the accumulator ends below 2p with limb 16 at most 4. */
  method Reduce(h: array<u32>)
    requires h.Length == 17
    requires forall k :: 0 <= k < 17 ==> h[k] <= 353736000
    modifies h
    ensures Accumulator(h[..])
    ensures Value(0x100, h[..]) % P == old(Value(0x100, h[..])) % P
  {
    hide Value, Pow, Pending;
    ghost var s: seq<int> := h[..];
    var u := Carry16(h, 0);
    ghost var low := h[..16];
    u := u + h[16];
    h[16] := u % 4;
    assert h[..16] == low;
    var v: u32 := 5 * ((u / 4) as int);
    ghost var t: seq<int> := h[..];
    FoldTop(s, t, u);
    var w := Carry16(h, v);
    ghost var low' := h[..16];
    w := w + h[16];
    h[16] := w;
    assert h[..16] == low';
    SecondCarry(t, h[..], v);
  }

  /** Between blocks: digits, except that limb 16 holds two bits and possibly a carry. */
  ghost predicate Accumulator(h: seq<int>) {
    |h| == 17 && Digits(0x100, h[..16]) && 0 <= h[16] <= 4 && 0 <= Value(0x100, h) < 2 * P
  }

  /** Splitting the top limb at bit 130 and bringing the excess back 5-fold. */
  lemma FoldTop(s: seq<int>, t: seq<int>, u: int)
    requires |s| == |t| == 17 && t[16] == u % 4
    requires Pending(0x100, t[..16], u - s[16]) == Value(0x100, s[..16])
    ensures (Value(0x100, t) + 5 * (u / 4)) % P == Value(0x100, s) % P
  {
    hide *;
    var w, low := Pow(0x100, 16), Value(0x100, t[..16]);
    assert Value(0x100, s) == low + (u - s[16]) * w + s[16] * w by {
      assert s[..17] == s;
      PendingDef(0x100, t[..16], u - s[16]);
      ValueTake(0x100, s, 16);
    }
    assert Value(0x100, t) == low + (u % 4) * w by {
      assert t[..17] == t;
      ValueTake(0x100, t, 16);
    }
    Powers();
    FoldTerm(low, u, w);
    SubThenAdd(u, s[16], w);
  }

  lemma SubThenAdd(u: int, x: int, w: int)
    ensures (u - x) * w + x * w == u * w
  {
  }

  lemma FoldTerm(low: int, u: int, w: int)
    requires w * 4 == P + 5
    ensures (low + (u % 4) * w + 5 * (u / 4)) % P == (low + u * w) % P
  {
    var q, r := u / 4, u % 4;
    assert low + u * w == low + r * w + 5 * q + P * q by {
      assert u == 4 * q + r;
      assert (4 * q + r) * w == q * (w * 4) + r * w;
      assert q * (P + 5) == P * q + 5 * q;
    }
    ModShift(low + r * w + 5 * q, q, P);
  }

  /** A short number added to sixteen digits carries at most one. */
  lemma CarryBit(vt: int, v: int, vh: int, c: int, w: int)
    requires 0 <= vt < w && 0 <= v < w && 0 <= vh < w && vh + c * w == vt + v
    ensures 0 <= c <= 1
  {
    MulBound(w, c);
    MulBound(w, c - 1);
    assert w * (c - 1) == w * c - w;
  }

  lemma SecondCarry(t: seq<int>, h: seq<int>, v: int)
    requires |t| == |h| == 17 && 0 <= t[16] < 4 && 0 <= v <= 0x2fff_ffff
    requires Digits(0x100, t[..16]) && Digits(0x100, h[..16])
    requires Pending(0x100, h[..16], h[16] - t[16]) == Value(0x100, t[..16]) + v
    ensures Accumulator(h)
    ensures Value(0x100, h) == Value(0x100, t) + v
  {
    hide Value, Pow, Pending;
    var w, c := Pow(0x100, 16), h[16] - t[16];
    PendingDef(0x100, h[..16], c);
    Powers();
    ValueBounds(0x100, t[..16]);
    ValueBounds(0x100, h[..16]);
    CarryBit(Value(0x100, t[..16]), v, Value(0x100, h[..16]), c, w);
    assert Value(0x100, h) == Value(0x100, h[..16]) + h[16] * w by {
      assert h[..17] == h;
      ValueTake(0x100, h, 16);
    }
    assert Value(0x100, t) == Value(0x100, t[..16]) + t[16] * w by {
      assert t[..17] == t;
      ValueTake(0x100, t, 16);
    }
  }

  // ----- one block -----

  /** Lines 226-229: the block with a byte 1 on top, padded with zeros. */
  method LoadBlock(m: array<u8>, pos: nat, len: nat) returns (c: array<u32>)
    requires pos + len <= m.Length && len <= 16
    ensures fresh(c) && c.Length == 17 && Digits(0x100, c[..]) && c[16] <= 1
    ensures Value(0x100, c[..]) == Block(m[pos..pos + len])
  {
    hide Value, Pow;
    c := new u32[17](_ => 0);
    for j := 0 to len
      invariant forall k :: 0 <= k < j ==> c[k] == m[pos + k]
      invariant forall k :: j <= k < 17 ==> c[k] == 0
    {
      c[j] := m[pos + j];
    }
    c[len] := 1;
    ValuePadded(0x100, c[..], len + 1);
    assert c[..len + 1] == m[pos..pos + len] + [1];
  }

  /** Lines 233-257: h becomes h * r, reduced. */
  method MulReduce(h: array<u32>, r: array<u32>)
    requires h.Length == r.Length == 17 && h != r
    requires Digits(0x100, h[..]) && Digits(0x100, r[..])
    modifies h
    ensures Accumulator(h[..])
    ensures Value(0x100, h[..]) % P == (old(Value(0x100, h[..])) * Value(0x100, r[..])) % P
  {
    hide Value, Accumulator;
    var x := new u32[17];
    MulR(x, h, r);
    ghost var xs := x[..];
    for i := 0 to 17
      invariant forall k :: 0 <= k < i ==> h[k] == x[k]
      invariant x[..] == xs
    {
      h[i] := x[i];
    }
    assert h[..] == xs;
    Reduce(h);
  }

  lemma AccumulatorDigits(h: seq<int>)
    requires Accumulator(h)
    ensures Digits(0x100, h)
  {
    hide Value;
    forall k | 0 <= k < |h|
      ensures 0 <= h[k] < 0x100
    {
      if k < 16 {
        assert h[..16][k] == h[k];
      }
    }
  }

  /** Lines 226-257: absorbs one block. */
  method AbsorbBlock(h: array<u32>, r: array<u32>, m: array<u8>, pos: nat, len: nat)
    requires h.Length == r.Length == 17 && h != r
    requires pos + len <= m.Length && len <= 16
    requires Accumulator(h[..]) && Digits(0x100, r[..])
    modifies h
    ensures Accumulator(h[..])
    ensures Value(0x100, h[..]) % P
         == ((old(Value(0x100, h[..])) % P + Block(m[pos..pos + len])) * Value(0x100, r[..])) % P
  {
    hide Value, Pow, Block;
    var c := LoadBlock(m, pos, len);
    ghost var v, blk := Value(0x100, h[..]), Block(m[pos..pos + len]);
    AccumulatorDigits(h[..]);
    SmallSum(v, c[..]);
    Add1305(h, c);
    ShiftedFactor(v % P, blk, v / P, Value(0x100, r[..]));
    ModShift((v % P + blk) * Value(0x100, r[..]), v / P * Value(0x100, r[..]), P);
    MulReduce(h, r);
  }

  /** Adding a block never reaches 2^136. */
  lemma SmallSum(v: int, c: seq<int>)
    requires 0 <= v < 2 * P && |c| == 17 && Digits(0x100, c) && c[16] <= 1
    ensures (v + Value(0x100, c)) % Pow(0x100, 17) == v + Value(0x100, c)
  {
    hide Value, Pow;
    Powers();
    assert c[..17] == c;
    ValueTake(0x100, c, 16);
    ValueBounds(0x100, c[..16]);
  }

  /** A multiple of p in one factor is a multiple of p in the product. */
  lemma ShiftedFactor(w: int, blk: int, q: int, r: int)
    ensures (w + P * q + blk) * r == (w + blk) * r + P * (q * r)
  {
    assert (w + P * q + blk) * r == (w + blk) * r + (P * q) * r;
  }

  // ----- finishing -----

  lemma MinusPValue(c: seq<int>)
    requires |c| == 17 && c[0] == 5 && c[16] == 252 && forall k :: 1 <= k < 16 ==> c[k] == 0
    ensures Value(0x100, c) == Pow(0x100, 17) - P
  {
    hide Value, Pow;
    Powers();
    assert c[..17] == c && c[..16][..1] == [5];
    ValueTake(0x100, c, 16);
    ValuePadded(0x100, c[..16], 1);
    ValueSnoc(0x100, [], 5);
    assert [] + [5] == [5];
    PendingStart(0x100, 0);
    PowZero(0x100);
  }

  /** Bit 7 of limb 16 after adding 2^136 - p tells whether the accumulator was below p. */
  lemma BelowP(v: int, h: seq<int>)
    requires 0 <= v < 2 * P && |h| == 17 && Digits(0x100, h)
    requires Value(0x100, h) == (v + (Pow(0x100, 17) - P)) % Pow(0x100, 17)
    ensures v < P ==> h[16] / 128 == 1
    ensures v >= P ==> h[16] / 128 == 0 && Value(0x100, h) == v - P
  {
    hide Value, Pow;
    Powers();
    assert h[..17] == h;
    ValueTake(0x100, h, 16);
    ValueBounds(0x100, h[..16]);
    if v >= P {
      ModUnique(v + (Pow(0x100, 17) - P), Pow(0x100, 17), 1, v - P);
    } else {
      ModUnique(v + (Pow(0x100, 17) - P), Pow(0x100, 17), 0, v + (Pow(0x100, 17) - P));
    }
  }

  /** Lines 260-263: the masked subtraction of p yields the canonical residue. */
  method FinalSubtract(h: array<u32>)
    requires h.Length == 17 && Accumulator(h[..])
    modifies h
    ensures Digits(0x100, h[..])
    ensures Value(0x100, h[..]) == old(Value(0x100, h[..])) % P
  {
    hide Value, Pow;
    ghost var g0: seq<int> := h[..];
    ghost var v := Value(0x100, g0);
    AccumulatorDigits(g0);
    var g := new u32[17](i requires 0 <= i < 17 reads h => h[i]);
    assert g[..] == g0;
    var minusp := new u32[17](i => if i == 0 then 5 else if i == 16 then 252 else 0);
    MinusPValue(minusp[..]);
    Add1305(h, minusp);
    ghost var h0: seq<int> := h[..];
    BelowP(v, h0);
    var s: int := -((h[16] / 128) as int);
    for j := 0 to 17
      invariant g[..] == g0
      invariant forall k :: j <= k < 17 ==> h[k] == h0[k]
      invariant forall k :: 0 <= k < j ==> h[k] == if s == -1 then g0[k] else h0[k]
    {
      MaskSelect(s, g[j], h[j]);
      h[j] := Xor(h[j], And(s, Xor(g[j], h[j])));
    }
    assert h[..] == if v < P then g0 else h0;
    ModShift(v, -1, P);
  }

  lemma MaskSelect(s: int, x: int, y: int)
    requires s == 0 || s == -1
    ensures Xor(y, And(s, Xor(x, y))) == if s == -1 then x else y
  {
    XorCancels(x, y);
    XorCommutes(y, 0);
  }

  // ----- the key -----

  /** The byte masks of lines 216-222. */
  function ClampMask(j: nat): u8 {
    if j % 4 == 3 then 15 else if j % 4 == 0 && j > 0 then 252 else 255
  }

  /** Masking byte by byte is masking with the 128-bit constant of the RFC. */
  lemma ClampMasks()
    ensures Value(0x100, seq(16, j requires 0 <= j => ClampMask(j))) == CLAMP
  {
    var m := seq(16, j requires 0 <= j => ClampMask(j));
    var a, b := [0xff, 0xff, 0xff, 0x0f], [0xfc, 0xff, 0xff, 0x0f];
    var m1, m2 := m[4..], m[8..];
    assert m[..4] == a && m1[..4] == b && m2[..4] == b && m2[4..] == b && m1[4..] == m2;
    hide *;
    FourBytes(m);
    FourBytes(m1);
    FourBytes(m2);
    ValueOfFour(0x100, a);
    ValueOfFour(0x100, b);
    assert CLAMP == 0x0fff_ffff + 0x1_0000_0000 * (0x0fff_fffc + 0x1_0000_0000
                      * (0x0fff_fffc + 0x1_0000_0000 * 0x0fff_fffc)) by {
      ClampConstant();
    }
  }

  lemma ClampConstant()
    ensures CLAMP == 0x0fff_fffc_0fff_fffc_0fff_fffc_0fff_ffff
  {
  }

  /** Lines 214-222: the clamped multiplier in limbs. */
  method LoadR(k: array<u8>, pos: nat) returns (r: array<u32>)
    requires pos + 32 <= k.Length
    ensures fresh(r) && r.Length == 17 && Digits(0x100, r[..])
    ensures Value(0x100, r[..]) == ClampedR(k[pos..pos + 32])
  {
    hide Value, And;
    r := new u32[17](_ => 0);
    for j := 0 to 16
      invariant forall i :: 0 <= i < j ==> r[i] == k[pos + i]
      invariant r[16] == 0
    {
      r[j] := k[pos + j];
    }
    ClampLimbs(r);
    ClampValue(k[pos..pos + 32], r[..]);
  }

  /** Lines 216-222. */
  method ClampLimbs(r: array<u32>)
    requires r.Length == 17 && Digits(0x100, r[..])
    modifies r
    ensures r[16] == old(r[16])
    ensures forall j :: 0 <= j < 16 ==> r[j] == And(old(r[j]), ClampMask(j))
  {
    hide And;
    ghost var s := r[..];
    assert forall j :: 0 <= j < 17 ==> 0 <= s[j] < 0x100;
    ByteMasks();
    r[3] := And(r[3], 15);
    r[4] := And(r[4], 252);
    r[7] := And(r[7], 15);
    r[8] := And(r[8], 252);
    r[11] := And(r[11], 15);
    r[12] := And(r[12], 252);
    r[15] := And(r[15], 15);
  }

  lemma ByteMasks()
    ensures forall x: u8 :: And(x, 255) == x
    ensures forall x: u8, m: int {:trigger And(x, m)} :: 0 <= And(x, m) < 0x100
  {
    hide And, Pow;
    forall x: u8
      ensures And(x, 255) == x
    {
      ByteMask(x, 0);
    }
    forall x: u8, m: int
      ensures 0 <= And(x, m) < 0x100
    {
      ByteMask(x, m);
    }
  }

  lemma ByteMask(x: u8, m: int)
    ensures And(x, 255) == x && 0 <= And(x, m) < 0x100
  {
    hide And;
    assert Pow(2, 8) == 0x100;
    AndLowMask(x, 8);
    AndRange(x, m, 8);
  }

  lemma ClampValue(key: seq<u8>, r: seq<int>)
    requires |key| == 32 && |r| == 17 && r[16] == 0
    requires forall j :: 0 <= j < 16 ==> r[j] == And(key[j], ClampMask(j))
    ensures Digits(0x100, r) && Value(0x100, r) == ClampedR(key)
  {
    var masks: seq<int> := seq(16, j requires 0 <= j => ClampMask(j));
    hide Value, And;
    ByteMasks();
    ClampMasks();
    AndOfBytes(key[..16], masks, r[..16]);
    ValuePadded(0x100, r, 16);
  }

  // ----- the whole -----

  lemma AbsorbStep(r: int, a: int, msg: seq<int>)
    requires |msg| > 0
    ensures var n := if |msg| < 16 then |msg| else 16;
      Absorb(r, a, msg) == Absorb(r, ((a + Block(msg[..n])) * r) % P, msg[n..])
  {
  }

  lemma ZeroAccumulator(h: seq<int>)
    requires |h| == 17 && forall k :: 0 <= k < 17 ==> h[k] == 0
    ensures Accumulator(h) && Value(0x100, h) == 0
  {
    hide Value;
    ValueZero(0x100, h);
  }

  /** Lines 265-268: the tag is accumulator plus s, cut to 16 bytes. */
  lemma TagBytes(a: int, s: seq<int>, h: seq<int>)
    requires |h| == 17 && Digits(0x100, h)
    requires Value(0x100, h) == (a + Value(0x100, s)) % Pow(0x100, 17)
    ensures h[..16] == ToDigits(0x100, a + Value(0x100, s), 16)
  {
    hide *;
    var v := a + Value(0x100, s);
    assert Value(0x100, h[..16]) == v % Pow(0x100, 16) by {
      TakeSixteen(v, h);
    }
    ValueToDigits(0x100, v, 16);
    assert Digits(0x100, h[..16]) by {
      DigitsTake(0x100, h, 16);
    }
    ValueInjective(0x100, h[..16], ToDigits(0x100, v, 16));
  }

  lemma TakeSixteen(v: int, h: seq<int>)
    requires |h| == 17 && Digits(0x100, h) && Value(0x100, h) == v % Pow(0x100, 17)
    ensures Value(0x100, h[..16]) == v % Pow(0x100, 16)
  {
    hide *;
    DigitsTake(0x100, h, 16);
    ValueBounds(0x100, h[..16]);
    assert h[..17] == h;
    ValueTake(0x100, h, 16);
    PowStep(0x100, 16);
    CutLimb(v, Pow(0x100, 16), Value(0x100, h[..16]), h[16]);
  }

  lemma CutLimb(v: int, w: int, low: int, x: int)
    requires 0 <= low < w && v % (0x100 * w) == low + x * w
    ensures v % w == low
  {
    var q := v / (0x100 * w);
    assert v == w * (0x100 * q + x) + low by {
      assert v == (0x100 * w) * q + (low + x * w);
      assert w * (0x100 * q + x) == (0x100 * w) * q + x * w;
    }
    ModUnique(v, w, 0x100 * q + x, low);
  }

  /**
   crypto_onetimeauth. Pointers are an array and a position; the output may overlap the
   message and the key, which are read to the end before the tag is written.
   */
  method CryptoOnetimeauth(out: array<u8>, o: nat, m: array<u8>, pos: nat, n: nat, k: array<u8>, kp: nat)
    requires o + 16 <= out.Length && pos + n <= m.Length && kp + 32 <= k.Length
    modifies out
    ensures out[..] == old(out[..o]) + Tag(old(m[pos..pos + n]), old(k[kp..kp + 32])) + old(out[o + 16..])
  {
    hide Value, Pow, Absorb, Block, Accumulator, ClampedR, ToDigits;
    ghost var msg: seq<int>, key: seq<int>, before := m[pos..pos + n], k[kp..kp + 32], out[..];
    ghost var rv := ClampedR(key);
    var r := LoadR(k, kp);
    var h := AbsorbAll(r, m, pos, n);
    FinalSubtract(h);
    ghost var a := Value(0x100, h[..]);
    var c := LoadS(k, kp);
    Add1305(h, c);
    TagBytes(a, key[16..], h[..]);
    ghost var tag: seq<int> := h[..16];
    for j := 0 to 16
      invariant h[..16] == tag
      invariant forall i :: 0 <= i < j ==> out[o + i] == tag[i]
      invariant forall i :: 0 <= i < out.Length && !(o <= i < o + j) ==> out[i] == before[i]
    {
      assert h[j] == tag[j];
      out[o + j] := h[j];
    }
  }

  /** Lines 224-258: the accumulator over the whole message. */
  method AbsorbAll(r: array<u32>, m: array<u8>, pos: nat, n: nat) returns (h: array<u32>)
    requires r.Length == 17 && Digits(0x100, r[..]) && pos + n <= m.Length
    ensures fresh(h) && h.Length == 17 && Accumulator(h[..])
    ensures Value(0x100, h[..]) % P == Absorb(Value(0x100, r[..]), 0, m[pos..pos + n])
  {
    hide Value, Pow, Absorb, Block, Accumulator;
    ghost var msg: seq<int>, rv := m[pos..pos + n], Value(0x100, r[..]);
    h := new u32[17](_ => 0);
    ZeroAccumulator(h[..]);
    var i := 0;
    assert msg[0..] == msg;
    while i < n
      invariant 0 <= i <= n && Accumulator(h[..])
      invariant Absorb(rv, Value(0x100, h[..]) % P, msg[i..]) == Absorb(rv, 0, msg)
    {
      var len := if n - i < 16 then n - i else 16;
      AbsorbStep(rv, Value(0x100, h[..]) % P, msg[i..]);
      assert msg[i..][..len] == m[pos + i..pos + i + len];
      assert msg[i..][len..] == msg[i + len..];
      AbsorbBlock(h, r, m, pos + i, len);
      i := i + len;
    }
    assert msg[i..] == [];
    AbsorbEnd(rv, Value(0x100, h[..]) % P);
  }

  lemma AbsorbEnd(r: int, a: int)
    ensures Absorb(r, a, []) == a
  {
  }

  /** Lines 265-266: the second half of the key. */
  method LoadS(k: array<u8>, pos: nat) returns (c: array<u32>)
    requires pos + 32 <= k.Length
    ensures fresh(c) && c.Length == 17 && Digits(0x100, c[..])
    ensures Value(0x100, c[..]) == Value(0x100, k[pos..pos + 32][16..])
  {
    hide Value;
    c := new u32[17](_ => 0);
    for j := 0 to 16
      invariant forall i :: 0 <= i < j ==> c[i] == k[pos + 16 + i]
      invariant c[16] == 0
    {
      c[j] := k[pos + 16 + j];
    }
    ValuePadded(0x100, c[..], 16);
    assert c[..16] == k[pos..pos + 32][16..];
  }
}
