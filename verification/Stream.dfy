/**
 crypto_stream_salsa20_xor and its callers: Salsa20 encryption (section 10 of the "Salsa20
 specification") is counter mode with a 64-bit little-endian block counter, and XSalsa20
 derives the key of a Salsa20 stream with HSalsa20.
 */
module Stream {
  import opened Bits
  import opened Limbs
  import opened Salsa20

  // ----- the streams as functions -----

  /** "expand 32-byte k". */
  const SIGMA: seq<u8> :=
    [0x65, 0x78, 0x70, 0x61, 0x6e, 0x64, 0x20, 0x33,
     0x32, 0x2d, 0x62, 0x79, 0x74, 0x65, 0x20, 0x6b]

  const COUNTER_SIZE: nat := 8

  /** Block number `counter` of the stream. */
  ghost function StreamBlock(k: seq<int>, n: seq<int>, counter: nat): (s: seq<int>)
    requires |k| == 32 && |n| == 8
    ensures |s| == 64
  {
    Salsa(k, n + ToDigits(0x100, counter, COUNTER_SIZE), SIGMA)
  }

  ghost function Keystream(k: seq<int>, n: seq<int>, len: nat): (s: seq<int>)
    requires |k| == 32 && |n| == 8
    ensures |s| == len && forall i :: 0 <= i < len ==> s[i] == StreamBlock(k, n, i / 64)[i % 64]
  {
    seq(len, i requires 0 <= i < len => StreamBlock(k, n, i / 64)[i % 64])
  }

  /** The XSalsa20 stream under a 24-byte nonce. */
  ghost function XKeystream(k: seq<int>, n: seq<int>, len: nat): (s: seq<int>)
    requires |k| == 32 && |n| == 24
    ensures |s| == len
  {
    Keystream(HSalsa(k, n[..16], SIGMA), n[16..], len)
  }

  ghost function XorBytes(m: seq<int>, s: seq<int>): (r: seq<int>)
    requires |m| == |s|
    ensures |r| == |m| && forall i :: 0 <= i < |m| ==> r[i] == Xor(m[i], s[i])
  {
    seq(|m|, i requires 0 <= i < |m| => Xor(m[i], s[i]))
  }

  function Zeros(n: nat): (s: seq<int>)
    ensures |s| == n && forall i :: 0 <= i < n ==> s[i] == 0
  {
    seq(n, _ => 0)
  }

  // ----- what counter mode promises -----

  /** Encrypting twice under one key and nonce gives the message back. */
  lemma StreamUndoesItself(m: seq<int>, s: seq<int>)
    requires |m| == |s|
    ensures XorBytes(XorBytes(m, s), s) == m
  {
    hide Xor;
    forall i | 0 <= i < |m|
      ensures XorBytes(XorBytes(m, s), s)[i] == m[i]
    {
      XorCancels(s[i], m[i]);
    }
  }

  /** With no message the output is the stream itself. */
  lemma StreamOfZeros(s: seq<int>)
    ensures XorBytes(Zeros(|s|), s) == s
  {
  }

  /** Encrypting a prefix gives a prefix of the encryption. */
  lemma StreamPrefix(k: seq<int>, n: seq<int>, m: seq<int>, len: nat)
    requires |k| == 32 && |n| == 8 && len <= |m|
    ensures Keystream(k, n, len) == Keystream(k, n, |m|)[..len]
    ensures XorBytes(m[..len], Keystream(k, n, len)) == XorBytes(m, Keystream(k, n, |m|))[..len]
  {
    hide StreamBlock, Xor;
    assert Keystream(k, n, len) == Keystream(k, n, |m|)[..len];
  }

  // ----- the code -----

  /** Lines 157-163: a byte-wise carry adds one to the counter modulo 2^64. */
  method BumpCounter(z: array<u8>, ghost counter: nat)
    requires z.Length == 16 && z[8..16] == ToDigits(0x100, counter, COUNTER_SIZE)
    modifies z
    ensures z[..8] == old(z[..8])
    ensures z[8..16] == ToDigits(0x100, counter + 1, COUNTER_SIZE)
  {
    hide Value, Pow, Pending, ToDigits;
    ghost var n, s: seq<int> := z[..8], z[8..16];
    var u: u64 := 1;
    PendingStart(0x100, 1);
    assert z[8..8] == [] && s[..0] == [];
    for i := 8 to 16
      invariant z[..8] == n && 0 <= u <= 1 && z[i..16] == s[i - 8..]
      invariant Pending(0x100, z[8..i], u) == 1 + Value(0x100, s[..i - 8])
    {
      ghost var done: seq<int>, rest := z[8..i], z[i + 1..16];
      PendingStep(0x100, done, u, z[i]);
      ValueTake(0x100, s, i - 8);
      assert z[i] == z[i..16][0] == s[i - 8];
      u := u as int + z[i] as int;
      z[i] := u % 0x100;
      u := u / 0x100;
      assert z[8..i + 1] == done + [z[i]] && z[i + 1..16] == rest;
    }
    assert s[..8] == s;
    CounterBytes(z[8..16], u, counter);
  }

  /** Eight digits left by the carry chain are those of the next counter. */
  lemma CounterBytes(z: seq<u8>, u: int, counter: nat)
    requires |z| == COUNTER_SIZE
    requires Pending(0x100, z, u) == 1 + Value(0x100, ToDigits(0x100, counter, COUNTER_SIZE))
    ensures z == ToDigits(0x100, counter + 1, COUNTER_SIZE)
  {
    hide Value, Pow, Pending, ToDigits;
    var p := Pow(0x100, COUNTER_SIZE);
    PendingEnd(0x100, z, u);
    ValueToDigits(0x100, counter, COUNTER_SIZE);
    ValueToDigits(0x100, counter + 1, COUNTER_SIZE);
    NextResidue(counter, p);
    ValueInjective(0x100, z, ToDigits(0x100, counter + 1, COUNTER_SIZE));
  }

  lemma NextResidue(x: int, p: int)
    requires p > 0
    ensures (1 + x % p) % p == (x + 1) % p
  {
    ModShift(1 + x % p, x / p, p);
    assert x == p * (x / p) + x % p;
  }

  lemma ByteXor(x: u8, y: u8)
    ensures 0 <= Xor(x, y) < 0x100
  {
    hide Xor;
    assert Pow(2, 8) == 0x100;
    XorRange(x, y, 8);
  }

  /** Lines 156 and 172: c[at + i] = (m ? m[at + i] : 0) ^ x[i]; c and m may be one buffer. */
  method XorChunk(c: array<u8>, m: array?<u8>, at: nat, len: nat, x: array<u8>)
    requires at + len <= c.Length && (m != null ==> at + len <= m.Length)
    requires len <= x.Length && x != c
    modifies c
    ensures forall i :: at <= i < at + len ==> c[i] == Xor(if m == null then 0 else old(m[i]), x[i - at])
    ensures forall i :: 0 <= i < c.Length && !(at <= i < at + len) ==> c[i] == old(c[i])
  {
    hide Xor;
    for j := 0 to len
      invariant forall i :: at <= i < at + j ==> c[i] == Xor(if m == null then 0 else old(m[i]), x[i - at])
      invariant forall i :: 0 <= i < c.Length && !(at <= i < at + j) ==> c[i] == old(c[i])
    {
      var b: u8 := if m == null then 0 else m[at + j];
      ByteXor(b, x[j]);
      c[at + j] := Xor(b, x[j]);
    }
  }

  /** One block is 64 stream bytes from a multiple of 64 on. */
  lemma BlockOfStream(k: seq<int>, n: seq<int>, len: nat, at: nat, i: nat)
    requires |k| == 32 && |n| == 8 && at % 64 == 0 && at <= i < at + 64 && i < len
    ensures Keystream(k, n, len)[i] == StreamBlock(k, n, at / 64)[i - at]
  {
    hide StreamBlock;
    ModUnique(i, 64, at / 64, i - at);
  }

  /** Lines 151-152: the nonce and a zero counter. */
  method StartCounter(n: array<u8>, np: nat) returns (z: array<u8>)
    requires np + 8 <= n.Length
    ensures fresh(z) && z.Length == 16 && z[..8] == n[np..np + 8]
    ensures z[8..16] == ToDigits(0x100, 0, COUNTER_SIZE)
  {
    z := new u8[16](_ => 0);
    for i := 0 to 8
      invariant forall j :: 0 <= j < i ==> z[j] == n[np + j]
      invariant forall j :: 8 <= j < 16 ==> z[j] == 0
    {
      z[i] := n[np + i];
    }
    ZeroCounter(z[8..16]);
  }

  lemma ZeroCounter(z: seq<u8>)
    requires |z| == COUNTER_SIZE && forall j :: 0 <= j < |z| ==> z[j] == 0
    ensures z == ToDigits(0x100, 0, COUNTER_SIZE)
  {
    hide ToDigits, Value;
    ValueZero(0x100, z);
    ToDigitsValue(0x100, z);
  }

  /** sigma, as the array that core reads. */
  method Sigma() returns (c: array<u8>)
    ensures fresh(c) && c[..] == SIGMA
  {
    c := new u8[16](i requires 0 <= i < 16 => SigmaByte(i));
  }

  lemma SigmaLength()
    ensures |SIGMA| == 16
  {
  }

  lemma SigmaText()
    ensures |SIGMA| == |"expand 32-byte k"| && forall i :: 0 <= i < |SIGMA| ==> SIGMA[i] == "expand 32-byte k"[i] as int
  {
  }

  function SigmaByte(i: nat): (b: u8)
    requires i < 16
    ensures |SIGMA| == 16 && b == SIGMA[i]
  {
    SIGMA[i]
  }

  /** The next block of the stream, from nonce and counter in z. */
  method NextBlock(x: array<u8>, z: array<u8>, k: array<u8>, ghost n: seq<int>, ghost counter: nat)
    requires x.Length == 64 && z.Length == 16 && k.Length >= 32 && x != z && x != k
    requires z[..8] == n && z[8..16] == ToDigits(0x100, counter, COUNTER_SIZE)
    modifies x
    ensures x[..] == StreamBlock(k[..32], n, counter)
  {
    hide Salsa, ToDigits;
    var sigma := Sigma();
    Core(x, z, k, sigma, false);
    assert z[..16] == n + ToDigits(0x100, counter, COUNTER_SIZE);
    assert sigma[..16] == sigma[..];
  }

  /** The buffer c with its first `at` bytes encrypted. */
  ghost predicate Encrypted(c: seq<int>, before: seq<int>, src: seq<int>, ks: seq<int>, at: nat) {
    && |c| == |before| && at <= |src| == |ks| <= |c|
    && (forall i :: 0 <= i < at ==> c[i] == Xor(src[i], ks[i]))
    && (forall i :: at <= i < |c| ==> c[i] == before[i])
  }

  /** What is still to be read of the message is as it was at the start. */
  ghost predicate Unread(m: array?<u8>, src: seq<int>, at: nat)
    reads m
  {
    forall i :: at <= i < |src| ==> if m == null then src[i] == 0 else |src| <= m.Length && src[i] == m[i]
  }

  lemma EncryptedStart(before: seq<int>, src: seq<int>, ks: seq<int>)
    requires |src| == |ks| <= |before|
    ensures Encrypted(before, before, src, ks, 0)
  {
  }

  lemma UnreadStart(m: array?<u8>, b: nat)
    requires m != null ==> b <= m.Length
    ensures Unread(m, if m == null then Zeros(b) else m[..b], 0)
  {
  }

  lemma EncryptedEnd(c: seq<int>, before: seq<int>, src: seq<int>, ks: seq<int>)
    requires Encrypted(c, before, src, ks, |src|)
    ensures c[..|src|] == XorBytes(src, ks) && c[|src|..] == before[|src|..]
  {
    hide Xor;
  }

  /** Lines 155-156 and 171-172: the next block, or part of it, is encrypted. */
  method EncryptChunk(c: array<u8>, m: array?<u8>, at: nat, len: nat, x: array<u8>, z: array<u8>, k: array<u8>,
                      ghost before: seq<int>, ghost src: seq<int>, ghost n: seq<int>)
    requires x.Length == 64 && z.Length == 16 && k.Length >= 32 && len <= 64 && at + len <= |src|
    requires x != z && x != k && x != c && x != m && c != z && c != k && m != z
    requires m != null ==> |src| <= m.Length
    requires at % 64 == 0 && z[..8] == n && z[8..16] == ToDigits(0x100, at / 64, COUNTER_SIZE)
    requires Encrypted(c[..], before, src, Keystream(k[..32], n, |src|), at) && Unread(m, src, at)
    modifies c, x
    ensures Encrypted(c[..], before, src, Keystream(k[..32], n, |src|), at + len) && Unread(m, src, at + len)
  {
    hide Xor, StreamBlock, ToDigits;
    ghost var ks := Keystream(k[..32], n, |src|);
    NextBlock(x, z, k, n, at / 64);
    forall i | at <= i < at + len ensures ks[i] == x[i - at] {
      BlockOfStream(k[..32], n, |src|, at, i);
    }
    XorChunk(c, m, at, len, x);
  }

  /** crypto_stream_salsa20_xor: counter mode; c may be the buffer m. */
  method CryptoStreamSalsa20Xor(c: array<u8>, m: array?<u8>, b: nat, n: array<u8>, np: nat, k: array<u8>)
    requires b <= c.Length && (m != null ==> b <= m.Length)
    requires np + 8 <= n.Length && k.Length >= 32 && k != c
    modifies c
    ensures c[..b] == XorBytes(if m == null then Zeros(b) else old(m[..b]), Keystream(k[..32], old(n[np..np + 8]), b))
    ensures c[b..] == old(c[b..])
  {
    hide Xor, StreamBlock, ToDigits, Keystream, Encrypted, Unread, XorBytes, Zeros;
    ghost var key, nonce, before := k[..32], n[np..np + 8], c[..];
    ghost var src := if m == null then Zeros(b) else m[..b];
    ghost var ks := Keystream(key, nonce, b);
    EncryptedStart(before, src, ks);
    UnreadStart(m, b);
    if b == 0 {
      EncryptedEnd(c[..], before, src, ks);
      return;
    }
    var x := new u8[64];
    var z := StartCounter(n, np);
    var at := 0;
    while b - at >= 64
      invariant 0 <= at <= b && at % 64 == 0
      invariant z[..8] == nonce && z[8..16] == ToDigits(0x100, at / 64, COUNTER_SIZE)
      invariant Encrypted(c[..], before, src, ks, at) && Unread(m, src, at)
      invariant k[..32] == key
    {
      EncryptChunk(c, m, at, 64, x, z, k, before, src, nonce);
      BumpCounter(z, at / 64);
      at := at + 64;
    }
    if b > at {
      EncryptChunk(c, m, at, b - at, x, z, k, before, src, nonce);
    }
    EncryptedEnd(c[..], before, src, ks);
  }

  /** crypto_stream_xor: XSalsa20. The nonce and key may overlap the output. */
  method CryptoStreamXor(c: array<u8>, m: array?<u8>, d: nat, n: array<u8>, k: array<u8>)
    requires d <= c.Length && (m != null ==> d <= m.Length) && n.Length >= 24 && k.Length >= 32
    modifies c
    ensures c[..d] == XorBytes(if m == null then Zeros(d) else old(m[..d]), XKeystream(old(k[..32]), old(n[..24]), d))
    ensures c[d..] == old(c[d..])
  {
    hide *;
    ghost var key, nonce := k[..32], n[..24];
    var s := new u8[32];
    Subkey(s, n, k);
    assert nonce[16..] == n[16..24];
    SubkeyStream(s[..], key, nonce, d);
    CryptoStreamSalsa20Xor(c, m, d, n, 16, s);
  }

  lemma SubkeyStream(s: seq<int>, k: seq<int>, n: seq<int>, len: nat)
    requires |k| == 32 && |n| == 24 && |SIGMA| == 16 && s == HSalsa(k, n[..16], SIGMA)
    ensures |s| == 32 && XKeystream(k, n, len) == Keystream(s, n[16..], len)
  {
    hide HSalsa, Keystream;
  }

  /** Lines 185 and 192: the key of the Salsa20 stream. */
  method Subkey(s: array<u8>, n: array<u8>, k: array<u8>)
    requires s.Length == 32 && n.Length >= 24 && k.Length >= 32
    modifies s
    ensures |SIGMA| == 16 && s[..] == s[..32] == HSalsa(old(k[..32]), old(n[..24])[..16], SIGMA)
  {
    hide HSalsa, SIGMA;
    SigmaLength();
    var sigma := Sigma();
    assert n[..24][..16] == n[..16] && sigma[..16] == sigma[..];
    Core(s, n, k, sigma, true);
  }

  /** crypto_stream: the XSalsa20 stream itself. */
  method CryptoStream(c: array<u8>, d: nat, n: array<u8>, k: array<u8>)
    requires d <= c.Length && n.Length >= 24 && k.Length >= 32
    modifies c
    ensures c[..d] == XKeystream(old(k[..32]), old(n[..24]), d)
    ensures c[d..] == old(c[d..])
  {
    CryptoStreamXor(c, null, d, n, k);
    StreamOfZeros(XKeystream(old(k[..32]), old(n[..24]), d));
  }
}
