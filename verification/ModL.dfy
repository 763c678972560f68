/**
 Scalars of Ed25519: modL, reduce and the scalar computed by crypto_sign, reduced modulo
 the group order L of section 5.1 of RFC 8032.
 */
module ModL {
  import opened Bits
  import opened Limbs

  /** 2^252 + 27742317777372353535851937790883648493. */
  const ORDER: int := 0x1000_0000_0000_0000_0000_0000_0000_0000_14de_f9de_a2f7_9cd6_5812_631a_5cf5_d3ed

  /** The low half of the order, all that lies below bit 252. */
  const DELTA: int := 0x14de_f9de_a2f7_9cd6_5812_631a_5cf5_d3ed

  /** The table L of the code. */
  const L: seq<int> :=
    [0xed, 0xd3, 0xf5, 0x5c, 0x1a, 0x63, 0x12, 0x58, 0xd6, 0x9c, 0xf7, 0xa2, 0xde, 0xf9, 0xde, 0x14,
     0, 0, 0, 0, 0, 0, 0, 0, 0, 0, 0, 0, 0, 0, 0, 0x10]

  lemma OrderShape()
    ensures ORDER == Pow(2, 252) + 27742317777372353535851937790883648493
  {
    Weights();
    ByteWeight(32);
    PowAdd(2, 252, 4);
    assert Pow(2, 4) == 16;
  }

  // ----- the table -----

  lemma Weights()
    ensures Pow(0x100, 31) * 256 == Pow(0x100, 32) == 16 * (ORDER - DELTA)
    ensures Pow(0x100, 32) == 0x1_0000_0000_0000_0000_0000_0000_0000_0000_0000_0000_0000_0000_0000_0000_0000_0000
  {
    hide Pow;
    PowZero(0x100);
    PowAdd(0x100, 1, 1);
    PowAdd(0x100, 2, 2);
    PowAdd(0x100, 4, 4);
    PowAdd(0x100, 8, 8);
    PowAdd(0x100, 16, 16);
    PowStep(0x100, 31);
  }

  lemma LowTable()
    ensures Value(0x100, L[..16]) == DELTA
  {
    var t := L[..16];
    var a, b := [0xed, 0xd3, 0xf5, 0x5c], [0x1a, 0x63, 0x12, 0x58];
    var c, d := [0xd6, 0x9c, 0xf7, 0xa2], [0xde, 0xf9, 0xde, 0x14];
    assert t == a + b + c + d;
    assert t[..4] == a && t[4..][..4] == b && t[4..][4..][..4] == c && t[4..][4..][4..] == d;
    hide Value;
    FourBytes(t);
    FourBytes(t[4..]);
    FourBytes(t[4..][4..]);
    ValueOfFour(0x100, a);
    ValueOfFour(0x100, b);
    ValueOfFour(0x100, c);
    ValueOfFour(0x100, d);
  }

  /** Bytes 16 to 30 of the table are zero, byte 31 is 16. */
  lemma Table()
    ensures Value(0x100, L[..20]) == DELTA
    ensures Value(0x100, L) == ORDER
  {
    assert L[..20][..16] == L[..16] && L[..31][..16] == L[..16] && L[..32] == L;
    assert forall k :: 16 <= k < 31 ==> L[k] == 0;
    assert L[31] == 16;
    hide Value, Pow, L;
    LowTable();
    ValuePadded(0x100, L[..20], 16);
    ValuePadded(0x100, L[..31], 16);
    ValueTake(0x100, L, 31);
    Weights();
  }

  lemma TableBytes()
    ensures |L| == 32 && Digits(0x100, L)
    ensures forall k :: 16 <= k < 20 ==> L[k] == 0
  {
  }

  // ----- clearing the high limbs -----

  /**
   What holds before limb i is cleared: limbs up to i - 32 are as supplied, the next
   twenty are balanced digits, limbs above that up to 50 are one carry away from that.
   */
  ghost predicate Window(x: seq<int>, i: int) {
    && |x| == 64 && 31 <= i <= 63
    && (forall k :: 0 <= k <= i ==> -0x400_0000 <= x[k] <= 0x400_0000)
    && (forall k :: 0 <= k <= i - 32 ==> -0x200_0000 <= x[k] <= 0x200_0000)
    && (i == 63 ==> forall k :: 0 <= k < 64 ==> -0x200_0000 <= x[k] <= 0x200_0000)
    && (i < 63 ==> forall k :: i - 31 <= k <= i - 12 ==> -128 <= x[k] <= 127)
    && (i < 63 ==> forall k :: i - 12 < k <= i && k <= 50 ==> -129 <= x[k] <= 129)
    && (forall k :: i < k < 64 ==> x[k] == 0)
  }

  /** What line 774 subtracts: a table entry times sixteen times the limb being cleared. */
  function Multiple(xi: int, l: int): int {
    16 * xi * l
  }

  /** Bound on the carry after n of the twenty inner steps. */
  ghost function CarryRoom(i: int, n: int): int {
    if n <= 16 then 0x4800_0000
    else if i == 63 then 0x4b_0000
    else if n == 17 then 0x48_0001
    else if n == 18 then 0x4801
    else if n == 19 then 0x4a
    else 1
  }

  /** The rounding carry of line 775 leaves a balanced digit. */
  lemma BalancedDigit(y: int)
    ensures -128 <= y - 0x100 * ((y + 128) / 0x100) <= 127
  {
  }

  lemma CarryShrinks(i: int, n: int, x: int, carry: int, xi: int, l: int)
    requires 0 <= n < 20 && 32 <= i <= 63
    requires -0x400_0000 <= xi <= 0x400_0000 && 0 <= l <= 0xff && (n >= 16 ==> l == 0)
    requires -CarryRoom(i, n) <= carry <= CarryRoom(i, n)
    requires -0x200_0000 <= x <= 0x200_0000
    requires i < 63 && n > 0 ==> -128 <= x <= 127
    ensures -0x40_0000_0000 <= Multiple(xi, l) <= 0x40_0000_0000
    ensures var y := x + carry - Multiple(xi, l);
      && -0x80_0000_0000 <= y <= 0x80_0000_0000
      && -CarryRoom(i, n + 1) <= (y + 128) / 0x100 <= CarryRoom(i, n + 1)
  {
    if n < 16 {
      MulRange(16 * xi, l, 0x4000_0000, 0xff);
    } else {
      assert 16 * xi * l == 0;
    }
  }

  /** The value of x with a carry still to be added at limb j. */
  ghost function Owed(x: seq<int>, j: nat, carry: int): int {
    Value(0x100, x) + carry * Pow(0x100, j)
  }

  /** The value that clearing aims at once n table entries are subtracted 16 xi times from limb b up. */
  ghost function Cleared(v: int, xi: int, b: nat, n: nat): int
    requires n <= 32
  {
    v - (16 * xi) * (Pow(0x100, b) * Value(0x100, L[..n]))
  }

  lemma ClearStart(x: seq<int>, xi: int, b: nat)
    ensures Owed(x, b, 0) == Value(0x100, x) == Cleared(Value(0x100, x), xi, b, 0)
  {
    assert L[..0] == [];
    hide L;
    assert Value(0x100, []) == 0;
  }

  lemma ClearedStep(v: int, xi: int, b: nat, n: nat)
    requires n < 32
    ensures Cleared(v, xi, b, n + 1) == Cleared(v, xi, b, n) - Multiple(xi, L[n]) * Pow(0x100, b + n)
  {
    hide Value, Pow, L;
    TableBytes();
    ValueTake(0x100, L, n);
    PowAdd(0x100, b, n);
    ClearedTerm(16 * xi, L[n], Pow(0x100, b), Pow(0x100, n), Value(0x100, L[..n]));
  }

  lemma ClearedTerm(z: int, l: int, p: int, q: int, v: int)
    ensures z * (p * (v + l * q)) == z * (p * v) + (z * l) * (p * q)
  {
    assert p * (v + l * q) == p * v + l * (p * q);
    assert z * (p * v + l * (p * q)) == z * (p * v) + (z * l) * (p * q);
  }

  /** One inner step as an equation between values. */
  lemma ClearStep(x: seq<int>, j: nat, y: int, carry: int, sub: int)
    requires j < |x| && y == x[j] + carry - sub
    ensures Owed(x[j := y - 0x100 * ((y + 128) / 0x100)], j + 1, (y + 128) / 0x100)
        == Owed(x, j, carry) - sub * Pow(0x100, j)
  {
    var c, p := (y + 128) / 0x100, Pow(0x100, j);
    hide Value, Pow;
    ValueUpdate(0x100, x, j, y - 0x100 * c);
    PowStep(0x100, j);
    ClearTerm(x[j], y, c, carry, sub, p);
  }

  lemma ClearTerm(x: int, y: int, c: int, carry: int, sub: int, p: int)
    requires y == x + carry - sub
    ensures (y - 0x100 * c - x) * p + c * (0x100 * p) == carry * p - sub * p
  {
    assert (carry - sub - 0x100 * c) * p == carry * p - sub * p - (0x100 * c) * p;
  }

  /** Lines 772-777: the twenty inner steps. */
  method ClearInner(x: array<i64>, i: int) returns (carry: i64)
    requires x.Length == 64 && 32 <= i <= 63 && Window(x[..], i)
    modifies x
    ensures -CarryRoom(i, 20) <= carry <= CarryRoom(i, 20)
    ensures forall k :: i - 32 <= k < i - 12 ==> -128 <= x[k] <= 127
    ensures forall k :: 0 <= k < 64 && !(i - 32 <= k < i - 12) ==> x[k] == old(x[k])
    ensures Owed(x[..], i - 12, carry) == Cleared(old(Value(0x100, x[..])), old(x[i]), i - 32, 20)
  {
    hide Value, Pow, Owed, Cleared, CarryRoom, Multiple, L;
    ghost var x0: seq<int> := x[..];
    ghost var v, xi := Value(0x100, x0), x0[i];
    TableBytes();
    ClearStart(x0, xi, i - 32);
    FirstRoom(i);
    carry := 0;
    for j := i - 32 to i - 12
      invariant -CarryRoom(i, j - (i - 32)) <= carry <= CarryRoom(i, j - (i - 32))
      invariant forall k :: i - 32 <= k < j ==> -128 <= x[k] <= 127
      invariant forall k :: 0 <= k < 64 && !(i - 32 <= k < j) ==> x[k] == x0[k]
      invariant Owed(x[..], j, carry) == Cleared(v, xi, i - 32, j - (i - 32))
    {
      ghost var n, before: seq<int> := j - (i - 32), x[..];
      CarryShrinks(i, n, x[j], carry, xi, L[n]);
      ClearedStep(v, xi, i - 32, n);
      var sub: i64 := Multiple(x[i], L[j - (i - 32)]);
      ghost var y := x[j] + carry - sub;
      ClearStep(before, j, y, carry, sub);
      BalancedDigit(y);
      x[j] := x[j] + (carry - sub);
      carry := (x[j] + 128) / 0x100;
      x[j] := x[j] - carry * 0x100;
      assert x[..] == before[j := y - 0x100 * ((y + 128) / 0x100)];
    }
  }

  lemma FirstRoom(i: int)
    ensures CarryRoom(i, 0) >= 0
  {
  }

  /** Clearing limb i subtracted 16 x[i] L at weight i - 32. */
  lemma ClearedValue(x: seq<int>, t: seq<int>, i: nat, carry: int, v: int)
    requires 32 <= i < 64 && |x| == 64
    requires Owed(x, i - 12, carry) == Cleared(v, x[i], i - 32, 20)
    requires t == x[i - 12 := x[i - 12] + carry][i := 0]
    ensures Value(0x100, t) == v - ORDER * (16 * x[i] * Pow(0x100, i - 32))
  {
    hide Value, Pow, L;
    var u := x[i - 12 := x[i - 12] + carry];
    ValueUpdate(0x100, x, i - 12, x[i - 12] + carry);
    ValueUpdate(0x100, u, i, 0);
    Table();
    TableBytes();
    PowAdd(0x100, i - 32, 32);
    Weights();
    OrderTerm(x[i], Pow(0x100, i - 32), Pow(0x100, 32));
  }

  lemma OrderTerm(x: int, p: int, w: int)
    requires w == 16 * (ORDER - DELTA)
    ensures (0 - x) * (p * w) - (16 * x) * (p * DELTA) == -(ORDER * (16 * x * p))
  {
    var z := 16 * x * p;
    assert x * (p * w) == (ORDER - DELTA) * z;
    assert (16 * x) * (p * DELTA) == DELTA * z;
  }

  /** Lines 771-779. */
  method ClearLimb(x: array<i64>, i: int)
    requires x.Length == 64 && 32 <= i <= 63 && Window(x[..], i)
    modifies x
    ensures Window(x[..], i - 1)
    ensures Value(0x100, x[..]) % ORDER == old(Value(0x100, x[..])) % ORDER
  {
    hide Value, Pow, Owed, Cleared, L;
    ghost var v, xi := Value(0x100, x[..]), x[i];
    var carry := ClearInner(x, i);
    ghost var mid: seq<int> := x[..];
    x[i - 12] := x[i - 12] + carry;
    x[i] := 0;
    ClearedValue(mid, x[..], i, carry, v);
    ModShift(v, -(16 * xi * Pow(0x100, i - 32)), ORDER);
  }

  // ----- the last 256 bits -----

  lemma {:induction false} BalancedValue(s: seq<int>)
    requires forall k :: 0 <= k < |s| ==> -129 <= s[k] <= 129
    ensures -129 * (Pow(0x100, |s|) - 1) <= 255 * Value(0x100, s) <= 129 * (Pow(0x100, |s|) - 1)
    decreases |s|
  {
    if |s| > 0 {
      var n := |s| - 1;
      hide Value, Pow;
      BalancedValue(s[..n]);
      ValueLast(0x100, s);
      PowStep(0x100, n);
      MulRange(s[n], Pow(0x100, n), 129, Pow(0x100, n));
    } else {
      assert Value(0x100, s) == 0;
    }
  }

  /** Taking off the order as often as the top bits say lands within one order of zero. */
  lemma QuotientEnough(s: seq<int>)
    requires |s| == 32 && forall k :: 0 <= k < 32 ==> -129 <= s[k] <= 129
    ensures -ORDER <= Value(0x100, s) - (s[31] / 16) * ORDER < ORDER
  {
    hide Value, Pow;
    var low, w := Value(0x100, s[..31]), Pow(0x100, 31);
    BalancedValue(s[..31]);
    assert s[..32] == s;
    ValueTake(0x100, s, 31);
    Weights();
    var q, r := s[31] / 16, s[31] % 16;
    assert s[31] == 16 * q + r && -9 <= q <= 8;
  }

  /** Lines 781-787. */
  method SubtractQuotient(x: array<i64>) returns (carry: i64)
    requires x.Length == 64 && forall k :: 0 <= k < 32 ==> -129 <= x[k] <= 129
    modifies x
    ensures Digits(0x100, x[..32]) && -12 <= carry <= 12
    ensures forall k :: 32 <= k < 64 ==> x[k] == old(x[k])
    ensures Pending(0x100, x[..32], carry) == old(Value(0x100, x[..32]) - (x[31] / 16) * ORDER)
  {
    hide Value, Pow, Pending, L;
    TableBytes();
    ghost var x0: seq<int> := x[..];
    ghost var q := x0[31] / 16;
    carry := 0;
    PendingStart(0x100, 0);
    assert x[..0] == [] && x0[..0] == [] && L[..0] == [];
    for j := 0 to 32
      invariant -12 <= carry <= 12
      invariant forall k :: 0 <= k < j ==> 0 <= x[k] < 0x100
      invariant forall k :: j <= k < 64 ==> x[k] == x0[k]
      invariant Pending(0x100, x[..j], carry) == Value(0x100, x0[..j]) - q * Value(0x100, L[..j])
    {
      ghost var before: seq<int> := x[..j];
      MulRange(q, L[j], 9, 255);
      QuotientStep(before, carry, x0, q, j);
      var sub: i64 := (x[31] / 16) * L[j];
      x[j] := x[j] + (carry - sub);
      carry := x[j] / 0x100;
      x[j] := x[j] % 0x100;
      assert x[..j + 1] == before + [x[j]];
    }
    assert L[..32] == L;
    Table();
  }

  lemma QuotientStep(done: seq<int>, carry: int, x: seq<int>, q: int, j: nat)
    requires |done| == j < 32 && |x| == 64 && |L| == 32
    requires Pending(0x100, done, carry) == Value(0x100, x[..j]) - q * Value(0x100, L[..j])
    ensures var y := carry + (x[j] - q * L[j]);
      Pending(0x100, done + [y % 0x100], y / 0x100) == Value(0x100, x[..j + 1]) - q * Value(0x100, L[..j + 1])
  {
    hide *;
    PendingStep(0x100, done, carry, x[j] - q * L[j]);
    ValueTake(0x100, x, j);
    ValueTake(0x100, L, j);
    QuotientTerm(x[j], q, L[j], Pow(0x100, j), Value(0x100, L[..j]));
  }

  lemma QuotientTerm(x: int, q: int, l: int, p: int, v: int)
    ensures (x - q * l) * p == x * p - q * (l * p)
    ensures q * (v + l * p) == q * v + q * (l * p)
  {
  }

  lemma ScaledTable(s: seq<int>, d: seq<int>, c: int)
    requires |s| == |d| == |L| && forall k :: 0 <= k < |s| ==> s[k] == d[k] - Times(c, L[k])
    ensures Value(0x100, s) == Value(0x100, d) - c * ORDER
  {
    hide Value, L;
    Table();
    ValueLinear(0x100, s, d, -c, L);
  }

  /** Lines 788-793: adds the order back if the carry says so and writes 32 bytes. */
  method WriteScalar(r: array<u8>, pos: nat, x: array<i64>, carry: i64)
    requires pos + 32 <= r.Length && x.Length == 64 && -12 <= carry <= 12
    requires Digits(0x100, x[..32])
    requires forall k :: 32 <= k < 64 ==> x[k] == 0
    modifies r, x
    ensures Value(0x100, r[pos..pos + 32]) == old(Value(0x100, x[..32]) - carry * ORDER) % Pow(0x100, 32)
    ensures r[..pos] == old(r[..pos]) && r[pos + 32..] == old(r[pos + 32..])
  {
    hide Value, Pow, Pending, Times, L;
    TableBytes();
    ghost var d: seq<int>, r0 := x[..32], r[..];
    for j := 0 to 32
      invariant r[..] == r0
      invariant forall k :: 0 <= k < j ==> x[k] == d[k] - Times(carry, L[k]) && -4000 <= x[k] <= 4000
      invariant forall k :: j <= k < 32 ==> x[k] == d[k]
      invariant forall k :: 32 <= k < 64 ==> x[k] == 0
    {
      TimesRange(carry, L[j], 12, 255);
      var sub: i64 := Times(carry, L[j]);
      x[j] := x[j] - sub;
    }
    ghost var s: seq<int> := x[..32];
    assert Value(0x100, s) == Value(0x100, d) - carry * ORDER by {
      ScaledTable(s, d, carry);
    }
    NormalizeBytes(r, pos, x);
  }

  /** Lines 789-793. */
  method NormalizeBytes(r: array<u8>, pos: nat, x: array<i64>)
    requires pos + 32 <= r.Length && x.Length == 64
    requires forall k :: 0 <= k <= 32 ==> -4000 <= x[k] <= 4000
    modifies r, x
    ensures Value(0x100, r[pos..pos + 32]) == old(Value(0x100, x[..32])) % Pow(0x100, 32)
    ensures r[..pos] == old(r[..pos]) && r[pos + 32..] == old(r[pos + 32..])
  {
    hide Value, Pow, Pending;
    ghost var s: seq<int>, c, r0 := x[..], 0, r[..];
    PendingStart(0x100, 0);
    assert r[pos..pos] == [] && s[..0] == [];
    for i := 0 to 32
      invariant -20 <= c <= 20
      invariant x[i] == s[i] + c
      invariant forall k :: i < k < 64 ==> x[k] == s[k]
      invariant forall k :: 0 <= k < r.Length && !(pos <= k < pos + i) ==> r[k] == r0[k]
      invariant Pending(0x100, r[pos..pos + i], c) == Value(0x100, s[..i])
    {
      ghost var before: seq<int> := r[pos..pos + i];
      PendingStep(0x100, before, c, s[i]);
      ValueTake(0x100, s, i);
      c := x[i] / 0x100;
      x[i + 1] := x[i + 1] + x[i] / 0x100;
      r[pos + i] := x[i] % 0x100;
      assert r[pos..pos + i + 1] == before + [r[pos + i]];
    }
    PendingEnd(0x100, r[pos..pos + 32], c);
  }

  /** 256^32. */
  const WEIGHT: int := 0x1_0000_0000_0000_0000_0000_0000_0000_0000_0000_0000_0000_0000_0000_0000_0000_0000

  /** The final carry is the sign of the difference, so the bytes are the canonical residue. */
  lemma CanonicalScalar(v: int, q: int, digits: int, carry: int)
    requires 0 <= digits < WEIGHT && digits + carry * WEIGHT == v - q * ORDER
    requires -ORDER <= v - q * ORDER < ORDER
    ensures (digits - carry * ORDER) % WEIGHT == v % ORDER
  {
    var y := v - q * ORDER;
    ModShift(v, -q, ORDER);
    if y >= 0 {
      assert carry == 0;
      ModUnique(y, ORDER, 0, y);
    } else {
      assert carry == -1;
      ModUnique(y, ORDER, -1, y + ORDER);
    }
  }

  /** modL(r + pos, x): the residue modulo the order as 32 canonical bytes. */
  method ReduceLimbs(r: array<u8>, pos: nat, x: array<i64>)
    requires pos + 32 <= r.Length && x.Length == 64
    requires forall k :: 0 <= k < 64 ==> -0x200_0000 <= x[k] <= 0x200_0000
    modifies r, x
    ensures Value(0x100, r[pos..pos + 32]) == old(Value(0x100, x[..])) % ORDER
    ensures r[..pos] == old(r[..pos]) && r[pos + 32..] == old(r[pos + 32..])
  {
    hide Value, Pow, Pending, L;
    ghost var v, r0 := Value(0x100, x[..]), r[..];
    for i := 64 downto 32
      invariant Window(x[..], i - 1) && r[..] == r0
      invariant Value(0x100, x[..]) % ORDER == v % ORDER
    {
      ClearLimb(x, i);
    }
    ghost var s: seq<int> := x[..32];
    ValuePadded(0x100, x[..], 32);
    QuotientEnough(s);
    var carry := SubtractQuotient(x);
    ghost var d: seq<int> := x[..32];
    PendingDef(0x100, d, carry);
    ValueBounds(0x100, d);
    Weights();
    CanonicalScalar(Value(0x100, s), s[31] / 16, Value(0x100, d), carry);
    WriteScalar(r, pos, x, carry);
  }

  /** reduce: 64 bytes in place become 32 bytes of residue and 32 zeros. */
  method ReduceBytes(r: array<u8>)
    requires r.Length == 64
    modifies r
    ensures Value(0x100, r[..32]) == old(Value(0x100, r[..])) % ORDER
    ensures forall k :: 32 <= k < 64 ==> r[k] == 0
  {
    hide Value;
    ghost var s := r[..];
    var x := new i64[64];
    for i := 0 to 64
      invariant r[..] == s
      invariant forall k :: 0 <= k < i ==> x[k] == s[k]
    {
      x[i] := r[i];
    }
    assert x[..] == s;
    for i := 0 to 64
      invariant x[..] == s
      invariant forall k :: 0 <= k < i ==> r[k] == 0
    {
      r[i] := 0;
    }
    ReduceLimbs(r, 0, x);
    assert r[0..32] == r[..32];
  }

  // ----- the scalar of a signature -----

  /** Row i of line 830: x gains h[i] * d at weight i. */
  method AddScalarRow(x: array<i64>, h: array<u8>, d: array<u8>, i: nat)
    requires x.Length == 64 && h.Length == d.Length == 64 && i < 32
    requires forall k :: 0 <= k < 64 ==> 0 <= x[k] <= 255 + 65025 * i
    modifies x
    ensures forall k :: 0 <= k < 64 ==> 0 <= x[k] <= 255 + 65025 * (i + 1)
    ensures Value(0x100, x[..]) == old(Value(0x100, x[..])) + Scaled(0x100, h[i], i, Value(0x100, d[..32]))
  {
    ghost var sd: seq<int> := d[..32];
    ghost var hi: int := h[i];
    hide Value, Pow, Scaled, Times;
    assert sd[..0] == [];
    ScaledStart(0x100, hi, i);
    ghost var done := Value(0x100, x[..]);
    for j := 0 to 32
      invariant Value(0x100, x[..]) == done + Scaled(0x100, hi, i, Value(0x100, sd[..j]))
      invariant forall k :: i + j <= k < 64 ==> 0 <= x[k] <= 255 + 65025 * i
      invariant forall k :: 0 <= k < 64 ==> 0 <= x[k] <= 255 + 65025 * (i + 1)
    {
      ghost var before: seq<int> := x[..];
      TimesRange(h[i], d[j], 255, 255);
      var t: i64 := Times(h[i], d[j]);
      ProductStep(0x100, before, i, j, hi, sd, done, t);
      x[i + j] := x[i + j] + t;
      assert x[..] == before[i + j := before[i + j] + t];
    }
    assert sd[..32] == sd;
  }

  /** Lines 828-830: r + h * d, unreduced, in 64 limbs. */
  method MulAdd(r: array<u8>, h: array<u8>, d: array<u8>) returns (x: array<i64>)
    requires r.Length == h.Length == d.Length == 64
    ensures fresh(x) && x.Length == 64
    ensures forall k :: 0 <= k < 64 ==> -0x200_0000 <= x[k] <= 0x200_0000
    ensures Value(0x100, x[..]) == Value(0x100, r[..32]) + Value(0x100, h[..32]) * Value(0x100, d[..32])
  {
    x := new i64[64](_ => 0);
    ghost var sh: seq<int>, vd, vr := h[..32], Value(0x100, d[..32]), Value(0x100, r[..32]);
    assert Value(0x100, sh[..0]) == 0;
    hide Value, Pow, Scaled;
    for i := 0 to 32
      invariant forall k :: 0 <= k < i ==> x[k] == r[k]
      invariant forall k :: i <= k < 64 ==> x[k] == 0
    {
      x[i] := r[i];
    }
    ValuePadded(0x100, x[..], 32);
    assert x[..32] == r[..32];
    for i := 0 to 32
      invariant Value(0x100, x[..]) == vr + Value(0x100, sh[..i]) * vd
      invariant forall k :: 0 <= k < 64 ==> 0 <= x[k] <= 255 + 65025 * i
    {
      AddScalarRow(x, h, d, i);
      RowDone(0x100, sh, i, vd);
    }
    assert sh[..32] == sh;
  }

  /** Lines 828-831: the scalar s = (r + h * d) mod L of section 5.1.6 of RFC 8032, at sm + 32. */
  method SignScalar(sm: array<u8>, r: array<u8>, h: array<u8>, d: array<u8>)
    requires sm.Length >= 64 && r.Length == h.Length == d.Length == 64
    modifies sm
    ensures Value(0x100, sm[32..64])
         == (old(Value(0x100, r[..32])) + old(Value(0x100, h[..32])) * old(Value(0x100, d[..32]))) % ORDER
    ensures sm[..32] == old(sm[..32]) && sm[64..] == old(sm[64..])
  {
    hide Value;
    var x := MulAdd(r, h, d);
    ReduceLimbs(sm, 32, x);
  }
}
