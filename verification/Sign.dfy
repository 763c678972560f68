/**
 crypto_sign against section 5.1.6 of RFC 8032. The encoded point [r]B, which scalarbase and
 pack compute, is a parameter: a function of the 32 bytes of r.
 */
module Sign {
  import opened Bits
  import opened Limbs
  import opened ModL
  import opened Sha512
  import opened X25519

  type Point = s: seq<u8> | |s| == 32 witness seq(32, _ => 0)

  // ----- RFC 8032 -----

  const SCALAR_SIZE: nat := 32

  /** The secret scalar: the clamped first half of the hashed key. */
  ghost function SecretScalar(sk: seq<u8>): int
    requires |sk| == 64
  {
    DecodeScalar(Digest(sk[..32])[..32])
  }

  /** A digest as a scalar. */
  ghost function HashScalar(m: seq<u8>): int {
    Value(0x100, Digest(m)) % ORDER
  }

  /** The nonce r, from the second half of the hashed key and the message. */
  ghost function Nonce(sk: seq<u8>, m: seq<u8>): int
    requires |sk| == 64
  {
    HashScalar(Digest(sk[..32])[32..] + m)
  }

  ghost function NoncePoint(sk: seq<u8>, m: seq<u8>, multiple: seq<u8> -> Point): Point
    requires |sk| == 64
  {
    multiple(ToDigits(0x100, Nonce(sk, m), SCALAR_SIZE))
  }

  /** R and S; the second half of sk is the public key. */
  ghost function Signature(sk: seq<u8>, m: seq<u8>, multiple: seq<u8> -> Point): (s: seq<int>)
    requires |sk| == 64
    ensures |s| == 64
  {
    var r := NoncePoint(sk, m, multiple);
    var k := HashScalar(r + sk[32..] + m);
    r + ToDigits(0x100, (Nonce(sk, m) + k * SecretScalar(sk)) % ORDER, SCALAR_SIZE)
  }

  // ----- the code -----

  /** A copying loop between different buffers. */
  method CopyBytes(dst: array<u8>, at: nat, src: array<u8>, from: nat, n: nat)
    requires at + n <= dst.Length && from + n <= src.Length && dst != src
    modifies dst
    ensures dst[..] == old(dst[..at]) + src[from..from + n] + old(dst[at + n..])
  {
    ghost var before := dst[..];
    for i := 0 to n
      invariant forall k :: at <= k < at + i ==> dst[k] == src[k - at + from]
      invariant forall k :: 0 <= k < dst.Length && !(at <= k < at + i) ==> dst[k] == before[k]
    {
      dst[at + i] := src[from + i];
    }
  }

  /** Lines 810-813: the hashed key, its first half clamped. */
  method HashKey(sk: array<u8>) returns (d: array<u8>)
    requires sk.Length >= 64
    ensures fresh(d) && d.Length == 64
    ensures Value(0x100, d[..32]) == SecretScalar(sk[..64]) == DecodeScalar(Digest(sk[..64][..32])[..32])
    ensures d[32..] == Digest(sk[..64][..32])[32..]
  {
    hide Value, Digest, And, Or;
    d := new u8[64];
    CryptoHash(d, sk, 0, 32);
    ghost var digest := d[..];
    assert sk[0..32] == sk[..64][..32];
    ClampedRange(digest[0], digest[31]);
    d[0] := And(d[0], 248);
    var top := And(d[31], 127);
    d[31] := Or(top, 64);
    assert d[..32] == Clamp(digest[..32]);
    assert d[32..] == digest[32..];
  }

  lemma ClampedRange(x: u8, y: u8)
    ensures 0 <= And(x, 248) < 0x100 && 0 <= And(y, 127) < 0x100 && 0 <= Or(And(y, 127), 64) < 0x100
  {
    hide And, Or;
    assert Pow(2, 8) == 0x100;
    AndRange(x, 248, 8);
    AndRange(y, 127, 8);
    OrRange(And(y, 127), 64, 8);
  }

  /** crypto_hash and reduce: a digest as 32 canonical scalar bytes. */
  method HashToScalar(m: array<u8>, pos: nat, n: nat) returns (r: array<u8>)
    requires pos + n <= m.Length && n < 0x1_0000_0000_0000_0000
    ensures fresh(r) && r.Length == 64
    ensures Value(0x100, r[..32]) == HashScalar(m[pos..pos + n]) == Value(0x100, Digest(m[pos..pos + n])) % ORDER
    ensures r[..32] == ToDigits(0x100, HashScalar(m[pos..pos + n]), SCALAR_SIZE)
  {
    hide Value, Digest, ToDigits;
    r := new u8[64];
    CryptoHash(r, m, pos, n);
    ReduceBytes(r);
    ToDigitsValue(0x100, r[..32]);
  }

  /**
   crypto_sign: the message behind its signature. The message and the key are in buffers of
   their own.
   */
  method CryptoSign(sm: array<u8>, m: array<u8>, n: nat, sk: array<u8>, multiple: seq<u8> -> Point)
    returns (smlen: nat)
    requires n <= m.Length && n + 64 <= sm.Length && n + 64 < 0x1_0000_0000_0000_0000
    requires sk.Length >= 64 && sm != m && sm != sk
    modifies sm
    ensures smlen == n + 64
    ensures sm[..smlen] == Signature(sk[..64], m[..n], multiple) + m[..n]
    ensures sm[smlen..] == old(sm[smlen..])
  {
    hide *;
    ghost var key, msg := sk[..64], m[..n];
    var d := HashKey(sk);
    smlen := n + 64;
    var r := PlacePoint(sm, m, n, d, multiple, key);
    PlaceScalar(sm, n, sk, r, d, multiple(r[..32]), msg);
    SignatureDef(key, msg, multiple, sm[32..64]);
  }

  /** Lines 816-822: the nonce r, and the point R in front of the message. */
  method PlacePoint(sm: array<u8>, m: array<u8>, n: nat, d: array<u8>, multiple: seq<u8> -> Point, ghost key: seq<u8>)
    returns (r: array<u8>)
    requires n <= m.Length && n + 64 <= sm.Length && n + 64 < 0x1_0000_0000_0000_0000
    requires d.Length == 64 && |key| == 64 && d[32..] == Digest(key[..32])[32..] && sm != m && sm != d
    modifies sm
    ensures fresh(r) && r.Length == 64 && Value(0x100, r[..32]) == Nonce(key, m[..n])
    ensures sm[..32] == multiple(r[..32]) == NoncePoint(key, m[..n], multiple)
    ensures sm[64..64 + n] == m[..n] && sm[64 + n..] == old(sm[64 + n..])
  {
    hide *;
    ghost var msg, s0 := m[..n], sm[..];
    assert m[0..n] == msg && d[32..64] == d[32..];
    CopyBytes(sm, 64, m, 0, n);
    ghost var s1 := sm[..];
    CopyBytes(sm, 32, d, 32, 32);
    ghost var s2 := sm[..];
    HashedMessage(s0, s1, s2, d[32..], msg);
    assert sm[32..32 + (n + 32)] == s2[32..64 + n];
    r := HashToScalar(sm, 32, n + 32);
    NonceDef(key, msg, multiple, r[..32]);
    WritePoint(sm, multiple(r[..32]));
    PointPlaced(s2, sm[..], multiple(r[..32]), n);
  }

  lemma PointPlaced(s2: seq<u8>, s3: seq<u8>, point: seq<u8>, n: nat)
    requires |point| == 32 && 64 + n <= |s2| && s3 == point + s2[32..]
    ensures |s3| == |s2| && s3[..32] == point && s3[64..64 + n] == s2[64..64 + n] && s3[64 + n..] == s2[64 + n..]
  {
  }

  /** Lines 824-831: the challenge h, and the scalar S behind R. */
  method PlaceScalar(sm: array<u8>, n: nat, sk: array<u8>, r: array<u8>, d: array<u8>,
                     ghost point: seq<u8>, ghost msg: seq<u8>)
    requires n + 64 <= sm.Length && n + 64 < 0x1_0000_0000_0000_0000 && sk.Length >= 64
    requires r.Length == d.Length == 64 && sm != sk && sm != r && sm != d
    requires |point| == 32 && sm[..32] == point && sm[64..64 + n] == msg
    modifies sm
    ensures sm[32..64] == ToDigits(0x100, (Value(0x100, r[..32]) + HashScalar(point + sk[..64][32..] + msg)
                                           * Value(0x100, d[..32])) % ORDER, SCALAR_SIZE)
    ensures sm[..64 + n] == point + sm[32..64] + msg && sm[64 + n..] == old(sm[64 + n..])
  {
    hide *;
    ghost var pk, s3 := sk[..64][32..], sm[..];
    assert sk[32..64] == pk;
    CopyBytes(sm, 32, sk, 32, 32);
    ghost var s4 := sm[..];
    Challenge(s3, s4, point, pk, msg);
    assert sm[0..n + 64] == s4[..64 + n];
    var h := HashToScalar(sm, 0, n + 64);
    SignScalar(sm, r, h, d);
    ToDigitsValue(0x100, sm[32..64]);
    Signed(s4, sm[..], point, pk, msg);
  }

  /** Lines 816-817 lay out what the nonce is hashed from. */
  lemma HashedMessage(s0: seq<u8>, s1: seq<u8>, s2: seq<u8>, prefix: seq<u8>, msg: seq<u8>)
    requires |prefix| == 32 && 64 + |msg| <= |s0|
    requires s1 == s0[..64] + msg + s0[64 + |msg|..] && s2 == s1[..32] + prefix + s1[64..]
    ensures |s2| == |s0| && s2[32..64 + |msg|] == prefix + msg && s2[64..64 + |msg|] == msg
    ensures s2[64 + |msg|..] == s0[64 + |msg|..]
  {
    assert s1[64..] == msg + s0[64 + |msg|..];
  }

  /** Line 824 lays out what the challenge is hashed from. */
  lemma Challenge(s3: seq<u8>, s4: seq<u8>, point: seq<u8>, pk: seq<u8>, msg: seq<u8>)
    requires |point| == |pk| == 32 && 64 + |msg| <= |s3| && s3[..32] == point && s3[64..64 + |msg|] == msg
    requires s4 == s3[..32] + pk + s3[64..]
    ensures |s4| == |s3| && s4[..64 + |msg|] == point + pk + msg && s4[64 + |msg|..] == s3[64 + |msg|..]
  {
  }

  lemma Signed(s4: seq<u8>, s5: seq<u8>, point: seq<u8>, pk: seq<u8>, msg: seq<u8>)
    requires |point| == |pk| == 32 && 64 + |msg| <= |s4| == |s5| && s4[..64 + |msg|] == point + pk + msg
    requires s5[..32] == s4[..32] && s5[64..] == s4[64..]
    ensures s5[..64 + |msg|] == point + s5[32..64] + msg && s5[64 + |msg|..] == s4[64 + |msg|..]
  {
    assert s5[..32] == s4[..64 + |msg|][..32] == point;
    assert s5[64..64 + |msg|] == s5[64..][..|msg|] == s4[..64 + |msg|][64..] == msg;
    assert s5[64 + |msg|..] == s5[64..][|msg|..];
  }

  lemma NonceDef(sk: seq<u8>, m: seq<u8>, multiple: seq<u8> -> Point, r: seq<u8>)
    requires |sk| == 64 && r == ToDigits(0x100, HashScalar(Digest(sk[..32])[32..] + m), SCALAR_SIZE)
    ensures multiple(r) == NoncePoint(sk, m, multiple)
    ensures Nonce(sk, m) == HashScalar(Digest(sk[..32])[32..] + m)
  {
    hide ToDigits, HashScalar, Digest;
  }

  lemma SignatureDef(sk: seq<u8>, m: seq<u8>, multiple: seq<u8> -> Point, s: seq<int>)
    requires |sk| == 64
    requires s == ToDigits(0x100, (Nonce(sk, m) + HashScalar(NoncePoint(sk, m, multiple) + sk[32..] + m)
                                   * SecretScalar(sk)) % ORDER, SCALAR_SIZE)
    ensures Signature(sk, m, multiple) == NoncePoint(sk, m, multiple) + s
  {
    hide ToDigits, HashScalar, SecretScalar, Nonce, NoncePoint;
  }

  /** Line 822. */
  method WritePoint(sm: array<u8>, p: Point)
    requires sm.Length >= 32
    modifies sm
    ensures sm[..] == p + old(sm[32..])
  {
    ghost var rest := sm[32..];
    for i := 0 to 32
      invariant sm[32..] == rest && forall k :: 0 <= k < i ==> sm[k] == p[k]
    {
      sm[i] := p[i];
    }
  }
}
