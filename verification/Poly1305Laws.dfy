/** Poly1305 in closed form: section 2.5 of RFC 8439 as one polynomial in r. */
module Poly1305Laws {
  import opened Bits
  import opened Limbs
  import opened Poly1305
  import X25519

  lemma ModulusShape()
    ensures P == Pow(2, 130) - 5
  {
    ByteWeight(16);
    Powers();
    PowAdd(2, 128, 2);
    assert Pow(2, 2) == 4;
  }

  /** A block is its number with a one bit behind its last byte. */
  lemma BlockValue(b: seq<int>)
    ensures Block(b) == Value(0x100, b) + Pow(2, 8 * |b|)
  {
    hide Value, Pow;
    ValueSnoc(0x100, b, 1);
    ByteWeight(|b|);
  }

  // ----- the polynomial -----

  ghost function BlockCount(n: nat): nat {
    (n + 15) / 16
  }

  /** Block i of a message: sixteen bytes, the last one what is left. */
  ghost function Chunk(msg: seq<int>, i: nat): (b: seq<int>)
    requires 16 * i < |msg|
    ensures b == if 16 * i + 16 <= |msg| then msg[16 * i..16 * i + 16] else msg[16 * i..]
  {
    if 16 * i + 16 <= |msg| then msg[16 * i..16 * i + 16] else msg[16 * i..]
  }

  /** Block i with its one bit, times r to the number of blocks not before it. */
  ghost function Term(r: int, msg: seq<int>, i: nat): (v: int)
    requires 16 * i < |msg|
    ensures v == (Value(0x100, Chunk(msg, i)) + Pow(2, 8 * |Chunk(msg, i)|)) * Pow(r, BlockCount(|msg|) - i)
  {
    (Value(0x100, Chunk(msg, i)) + Pow(2, 8 * |Chunk(msg, i)|)) * Pow(r, BlockCount(|msg|) - i)
  }

  /** The terms from block i on. */
  ghost function Polynomial(r: int, msg: seq<int>, i: nat): int
    decreases |msg| - 16 * i
  {
    if 16 * i >= |msg| then 0 else Term(r, msg, i) + Polynomial(r, msg, i + 1)
  }

  lemma PolynomialStep(r: int, msg: seq<int>, i: nat)
    ensures 16 * i >= |msg| ==> Polynomial(r, msg, i) == 0
    ensures 16 * i < |msg| ==> Polynomial(r, msg, i) == Term(r, msg, i) + Polynomial(r, msg, i + 1)
  {
    hide Term;
  }

  lemma NextTerm(r: int, msg: seq<int>, i: nat)
    requires 16 * (i + 1) < |msg|
    ensures Term(r, msg, i + 1) == Term(r, msg[16..], i)
  {
    assert BlockCount(|msg|) == BlockCount(|msg[16..]|) + 1;
    assert Chunk(msg, i + 1) == Chunk(msg[16..], i);
    hide Value, Pow, Chunk, BlockCount;
  }

  /** Dropping the first block shifts the others by one. */
  lemma {:induction false} PolynomialShift(r: int, msg: seq<int>, i: nat)
    requires |msg| >= 16
    ensures Polynomial(r, msg, i + 1) == Polynomial(r, msg[16..], i)
    decreases |msg| - 16 * i
  {
    hide *;
    PolynomialStep(r, msg, i + 1);
    PolynomialStep(r, msg[16..], i);
    if 16 * (i + 1) < |msg| {
      NextTerm(r, msg, i);
      PolynomialShift(r, msg, i + 1);
    }
  }

  lemma FirstTerm(r: int, msg: seq<int>)
    requires |msg| > 0
    ensures var n := if |msg| < 16 then |msg| else 16;
      Polynomial(r, msg, 0) == Block(msg[..n]) * Pow(r, BlockCount(|msg|)) + Polynomial(r, msg[n..], 0)
  {
    hide *;
    var n := if |msg| < 16 then |msg| else 16;
    TermZero(r, msg, n);
    PolynomialStep(r, msg, 0);
    PolynomialStep(r, msg, 1);
    PolynomialStep(r, msg[n..], 0);
    if |msg| >= 16 {
      PolynomialShift(r, msg, 0);
    }
  }

  lemma TermZero(r: int, msg: seq<int>, n: nat)
    requires |msg| > 0 && n == if |msg| < 16 then |msg| else 16
    ensures Term(r, msg, 0) == Block(msg[..n]) * Pow(r, BlockCount(|msg|))
  {
    assert Chunk(msg, 0) == msg[..n];
    hide Value, Pow, Block, Chunk;
    BlockValue(msg[..n]);
  }

  /** Horner's rule, started at any accumulator. */
  lemma {:induction false} AbsorbIsPolynomial(r: int, a: int, msg: seq<int>)
    requires 0 <= a < P
    ensures Absorb(r, a, msg) == (a * Pow(r, BlockCount(|msg|)) + Polynomial(r, msg, 0)) % P
    decreases |msg|
  {
    if |msg| == 0 {
      NoBlocks(r, a, msg);
    } else {
      var n := if |msg| < 16 then |msg| else 16;
      var q := BlockCount(|msg|);
      assert q == BlockCount(|msg[n..]|) + 1;
      hide *;
      var b, x := Block(msg[..n]), (a + Block(msg[..n])) * r;
      AbsorbStep(r, a, msg);
      FirstTerm(r, msg);
      Remainder(x);
      AbsorbIsPolynomial(r, x % P, msg[n..]);
      PowStep(r, q - 1);
      ModulusPositive();
      ModHorner(x, Pow(r, q - 1), Polynomial(r, msg[n..], 0), P);
      HornerTerm(a, b, r, Pow(r, q - 1), Pow(r, q), x);
    }
  }

  lemma NoBlocks(r: int, a: int, msg: seq<int>)
    requires 0 <= a < P && |msg| == 0
    ensures Absorb(r, a, msg) == (a * Pow(r, BlockCount(|msg|)) + Polynomial(r, msg, 0)) % P
  {
    assert Pow(r, 0) == 1;
  }

  lemma Remainder(x: int)
    ensures 0 <= x % P < P
  {
  }

  lemma ModulusPositive()
    ensures P > 0
  {
  }

  lemma HornerTerm(a: int, b: int, r: int, p: int, rp: int, x: int)
    requires rp == r * p && x == (a + b) * r
    ensures x * p == a * rp + b * rp
  {
    assert (a + b) * r * p == a * (r * p) + b * (r * p);
  }

  lemma AbsorbedMessage(r: int, msg: seq<int>)
    ensures Absorb(r, 0, msg) == Polynomial(r, msg, 0) % P
  {
    hide Absorb, Polynomial, Pow, BlockCount;
    AbsorbIsPolynomial(r, 0, msg);
  }

  /** Section 2.5 of RFC 8439: the polynomial in the clamped r, reduced, plus s, modulo 2^128. */
  lemma TagIsPolynomial(msg: seq<int>, key: seq<int>)
    requires |key| == 32
    ensures var r := And(Value(0x100, key[..16]), 0x0fff_fffc_0fff_fffc_0fff_fffc_0fff_ffff);
      Value(0x100, Tag(msg, key)) == (Polynomial(r, msg, 0) % P + Value(0x100, key[16..])) % Pow(2, 128)
  {
    hide *;
    var r := ClampedR(key);
    TagDef(msg, key);
    AbsorbedMessage(r, msg);
    SixteenBytes(Absorb(r, 0, msg) + Value(0x100, key[16..]));
  }

  lemma SixteenBytes(x: int)
    ensures Value(0x100, ToDigits(0x100, x, 16)) == x % Pow(2, 128)
  {
    hide Value, ToDigits, Pow;
    ValueToDigits(0x100, x, 16);
    ByteWeight(16);
  }

  lemma TagDef(msg: seq<int>, key: seq<int>)
    requires |key| == 32
    ensures ClampedR(key) == And(Value(0x100, key[..16]), 0x0fff_fffc_0fff_fffc_0fff_fffc_0fff_ffff)
    ensures Tag(msg, key) == ToDigits(0x100, Absorb(ClampedR(key), 0, msg) + Value(0x100, key[16..]), 16)
  {
    hide And, Value, ToDigits, Absorb;
  }

  /** A message of one block: its number with a one bit on top, times r. */
  lemma OneBlock(r: int, msg: seq<int>)
    requires 0 < |msg| <= 16
    ensures Absorb(r, 0, msg) == (Value(0x100, msg) + Pow(2, 8 * |msg|)) * r % P
  {
    assert msg[..|msg|] == msg && msg[|msg|..] == [];
    BlockValue(msg);
    hide Value, Pow, Block;
    AbsorbStep(r, 0, msg);
    AbsorbEnd(r, (0 + Block(msg)) * r % P);
  }

  // ----- the clamped multiplier -----

  /** Bits 4 to 7 of bytes 3, 7, 11, 15 and bits 0 and 1 of bytes 4, 8, 12. */
  predicate ClearedBit(t: nat) {
    t >= 128 || t % 32 >= 28 || (t >= 32 && t % 32 < 2)
  }

  /** Clamping clears these bits and keeps all others. */
  lemma ClampBits(key: seq<u8>, t: nat)
    requires |key| == 32
    ensures Bit(ClampedR(key), t) == if ClearedBit(t) then 0 else Bit(Value(0x100, key[..16]), t)
  {
    var masks := seq(16, j requires 0 <= j => ClampMask(j));
    var v := Value(0x100, key[..16]);
    assert ClampedR(key) == And(v, CLAMP);
    hide Bit, And, Value;
    BitOfAnd(v, CLAMP, t);
    ClampMasks();
    if t < 128 {
      X25519.BitOfBytes(masks, t);
      MaskBit(t / 8, t % 8);
      assert t == 8 * (t / 8) + t % 8;
    } else {
      ClampSize();
      BitBeyond(CLAMP, 128, t);
    }
  }

  lemma ClampSize()
    ensures 0 <= CLAMP < Pow(2, 128)
  {
    ByteWeight(16);
    Powers();
  }

  lemma MaskBit(j: nat, b: nat)
    requires j < 16 && b < 8
    ensures (ClampMask(j) / Pow(2, b)) % 2 == if ClearedBit(8 * j + b) then 0 else 1
  {
    hide Pow;
    ByteBits(b);
    MaskPlace(j, b);
  }

  lemma ByteBits(b: nat)
    requires b < 8
    ensures (15 / Pow(2, b)) % 2 == (if b < 4 then 1 else 0) && (255 / Pow(2, b)) % 2 == 1
    ensures (252 / Pow(2, b)) % 2 == (if b < 2 then 0 else 1)
  {
    assert b == 0 || b == 1 || b == 2 || b == 3 || b == 4 || b == 5 || b == 6 || b == 7;
    assert Pow(2, 0) == 1 && Pow(2, 1) == 2 && Pow(2, 2) == 4 && Pow(2, 3) == 8;
    assert Pow(2, 4) == 16 && Pow(2, 5) == 32 && Pow(2, 6) == 64 && Pow(2, 7) == 128;
  }

  lemma MaskPlace(j: nat, b: nat)
    requires j < 16 && b < 8
    ensures ClampMask(j) == 15 ==> (ClearedBit(8 * j + b) <==> b >= 4)
    ensures ClampMask(j) == 252 ==> (ClearedBit(8 * j + b) <==> b < 2)
    ensures ClampMask(j) == 255 ==> !ClearedBit(8 * j + b)
    ensures ClampMask(j) in {15, 252, 255}
  {
    ModUnique(8 * j + b, 32, j / 4, 8 * (j % 4) + b);
  }
}
