/**
 crypto_secretbox and crypto_secretbox_open: XSalsa20 encryption with a Poly1305 tag whose
 one-time key is the first 32 bytes of the stream. A message starts with 32 zero bytes; the
 box has 16 zero bytes, the tag and the encrypted rest.
 */
module SecretBox {
  import opened Bits
  import opened Limbs
  import opened Poly1305
  import opened Stream

  // ----- boxes as functions -----

  ghost function Sealed(m: seq<int>, n: seq<int>, k: seq<int>): (c: seq<int>)
    requires |m| >= 32 && |n| == 24 && |k| == 32
    ensures |c| == |m|
  {
    var e := XorBytes(m, XKeystream(k, n, |m|));
    Zeros(16) + Tag(e[32..], e[..32]) + e[32..]
  }

  /** The stored tag is the tag of the rest of the box under the stream's first 32 bytes. */
  ghost predicate Authentic(c: seq<int>, n: seq<int>, k: seq<int>)
    requires |c| >= 32 && |n| == 24 && |k| == 32
  {
    c[16..32] == Tag(c[32..], XKeystream(k, n, 32))
  }

  ghost function Opened(c: seq<int>, n: seq<int>, k: seq<int>): (m: seq<int>)
    requires |c| >= 32 && |n| == 24 && |k| == 32
    ensures |m| == |c|
  {
    Zeros(32) + XorBytes(c, XKeystream(k, n, |c|))[32..]
  }

  // ----- what boxes promise -----

  lemma XStreamPrefix(k: seq<int>, n: seq<int>, a: nat, b: nat)
    requires |k| == 32 && |n| == 24 && a <= b
    ensures XKeystream(k, n, a) == XKeystream(k, n, b)[..a]
  {
    hide Salsa20.HSalsa, StreamBlock;
  }

  lemma XorSplit(m: seq<int>, s: seq<int>, a: nat)
    requires a <= |m| == |s|
    ensures XorBytes(m, s) == XorBytes(m[..a], s[..a]) + XorBytes(m[a..], s[a..])
    ensures XorBytes(m, s)[..a] == XorBytes(m[..a], s[..a]) && XorBytes(m, s)[a..] == XorBytes(m[a..], s[a..])
  {
    hide Xor;
  }

  /** A box of a message with 32 leading zeros is authentic. */
  lemma SealedIsAuthentic(m: seq<int>, n: seq<int>, k: seq<int>)
    requires |m| >= 32 && |n| == 24 && |k| == 32 && m[..32] == Zeros(32)
    ensures Authentic(Sealed(m, n, k), n, k)
  {
    hide Tag, XKeystream, XorBytes, Zeros;
    var s := XKeystream(k, n, |m|);
    var e := XorBytes(m, s);
    XorSplit(m, s, 32);
    XStreamPrefix(k, n, 32, |m|);
    StreamOfZeros(s[..32]);
    var c := Sealed(m, n, k);
    assert c[16..32] == Tag(e[32..], e[..32]) && c[32..] == e[32..];
  }

  lemma OpenedRest(m: seq<int>, n: seq<int>, k: seq<int>)
    requires |m| >= 32 && |n| == 24 && |k| == 32
    ensures Opened(Sealed(m, n, k), n, k) == Zeros(32) + m[32..]
  {
    hide Tag, XKeystream, XorBytes, Zeros;
    var s, c := XKeystream(k, n, |m|), Sealed(m, n, k);
    XorSplit(m, s, 32);
    XorSplit(c, s, 32);
    assert c[32..] == XorBytes(m[32..], s[32..]);
    StreamUndoesItself(m[32..], s[32..]);
  }

  /** crypto_secretbox_open gives back what crypto_secretbox sealed, exactly when 32 zeros lead it. */
  lemma OpenInvertsSeal(m: seq<int>, n: seq<int>, k: seq<int>)
    requires |m| >= 32 && |n| == 24 && |k| == 32
    ensures (Authentic(Sealed(m, n, k), n, k) && Opened(Sealed(m, n, k), n, k) == m) <==> m[..32] == Zeros(32)
  {
    hide Authentic, Sealed, Opened, Zeros;
    OpenedRest(m, n, k);
    assert m == m[..32] + m[32..];
    if m[..32] == Zeros(32) {
      SealedIsAuthentic(m, n, k);
    }
  }

  /** Sealing what an authentic box opens to gives the box back, with its first 16 bytes cleared. */
  lemma SealInvertsOpen(c: seq<int>, n: seq<int>, k: seq<int>)
    requires |c| >= 32 && |n| == 24 && |k| == 32 && Authentic(c, n, k)
    ensures Sealed(Opened(c, n, k), n, k) == Zeros(16) + c[16..]
  {
    hide Tag, XKeystream, XorBytes, Zeros;
    var s, m := XKeystream(k, n, |c|), Opened(c, n, k);
    var e := XorBytes(m, s);
    XorSplit(c, s, 32);
    XorSplit(m, s, 32);
    XStreamPrefix(k, n, 32, |c|);
    StreamOfZeros(s[..32]);
    assert m[..32] == Zeros(32) && m[32..] == XorBytes(c[32..], s[32..]);
    StreamUndoesItself(c[32..], s[32..]);
    assert c[16..] == c[16..32] + c[32..];
  }

  // ----- the code -----

  lemma XorIsZero(x: int, y: int)
    ensures Xor(x, y) == 0 <==> x == y
  {
    hide Xor;
    XorCancels(x, y);
    XorCancels(x, x);
    if Xor(x, y) == 0 {
      assert Xor(x, 0) == y;
      XorCommutes(x, 0);
      XorZero(x);
    } else if x == y {
      XorSelf(x);
    }
  }

  lemma XorZero(x: int)
    ensures Xor(0, x) == x
  {
  }

  lemma XorSelf(x: int)
    ensures Xor(x, x) == 0
  {
    hide Xor;
    XorZero(x);
    XorCommutes(x, 0);
    XorCancels(0, x);
    XorCancels(x, 0);
  }

  lemma {:induction false} OrIsZero(x: nat, y: nat)
    ensures Or(x, y) == 0 <==> x == 0 && y == 0
    decreases x
  {
    if x > 0 {
      OrIsZero(x / 2, y / 2);
    }
  }

  /** vn: 0 when the n bytes agree and -1 when they do not, with no branch on their values. */
  method Vn(x: array<u8>, pos: nat, y: array<u8>, n: nat) returns (r: int)
    requires pos + n <= x.Length && n <= y.Length
    ensures r == if x[pos..pos + n] == y[..n] then 0 else -1
  {
    hide Or, Xor;
    var d: u8 := 0;
    for i := 0 to n
      invariant d == 0 <==> x[pos..pos + i] == y[..i]
    {
      ByteXor(x[pos + i], y[i]);
      XorIsZero(x[pos + i], y[i]);
      OrIsZero(d, Xor(x[pos + i], y[i]));
      ByteOr(d, Xor(x[pos + i], y[i]));
      assert x[pos..pos + i + 1] == x[pos..pos + i] + [x[pos + i]] && y[..i + 1] == y[..i] + [y[i]];
      d := Or(d, Xor(x[pos + i], y[i]));
    }
    var borrow: u64 := (d as int - 1) % 0x1_0000_0000_0000_0000;
    r := (borrow / 0x100) % 2 - 1;
  }

  lemma ByteOr(x: u8, y: u8)
    ensures 0 <= Or(x, y) < 0x100
  {
    hide Or;
    assert Pow(2, 8) == 0x100;
    OrRange(x, y, 8);
  }

  /** crypto_onetimeauth_verify: 0 when the 16 bytes at h are the tag. */
  method CryptoOnetimeauthVerify(h: array<u8>, hp: nat, m: array<u8>, pos: nat, n: nat, k: array<u8>) returns (r: int)
    requires hp + 16 <= h.Length && pos + n <= m.Length && k.Length >= 32
    ensures r == if h[hp..hp + 16] == Tag(m[pos..pos + n], k[..32]) then 0 else -1
  {
    hide Tag;
    var x := new u8[16];
    CryptoOnetimeauth(x, 0, m, pos, n, k, 0);
    assert k[0..32] == k[..32];
    r := Vn(h, hp, x, 16);
  }

  /** Lines 286 and 301: leading bytes become zero. */
  method ClearFirst(c: array<u8>, n: nat)
    requires n <= c.Length
    modifies c
    ensures c[..n] == Zeros(n) && c[n..] == old(c[n..])
  {
    ghost var rest := c[n..];
    for i := 0 to n
      invariant forall j :: 0 <= j < i ==> c[j] == 0
      invariant c[n..] == rest
    {
      c[i] := 0;
    }
  }

  /** Lines 285-286: the tag goes over the second half of its own key, then the first half is cleared. */
  method TagInPlace(c: array<u8>, d: nat)
    requires 32 <= d <= c.Length
    modifies c
    ensures c[..d] == Zeros(16) + Tag(old(c[32..d]), old(c[..32])) + old(c[32..d])
    ensures c[d..] == old(c[d..])
  {
    hide Tag, Zeros;
    ghost var e := c[..];
    ghost var tag := Tag(c[32..d], c[..32]);
    assert c[0..32] == c[..32] && c[32..32 + (d - 32)] == c[32..d];
    CryptoOnetimeauth(c, 16, c, 32, d - 32, c, 0);
    ghost var t := c[..];
    ClearFirst(c, 16);
    BoxLayout(e, tag, t, Zeros(16), c[..], d);
    assert c[..][..d] == c[..d] && c[..][d..] == c[d..];
  }

  lemma BoxLayout(e: seq<int>, tag: seq<int>, t: seq<int>, zeros: seq<int>, c: seq<int>, d: nat)
    requires 32 <= d <= |e| == |c| && |tag| == |zeros| == 16
    requires t == e[..16] + tag + e[32..] && c[..16] == zeros && c[16..] == t[16..]
    ensures c[..d] == zeros + tag + e[32..d] && c[d..] == e[d..]
  {
    assert t[16..] == tag + e[32..];
    assert c == c[..16] + c[16..];
    assert e[32..] == e[32..d] + e[d..];
  }

  /** crypto_secretbox; a message shorter than 32 bytes is refused. */
  method CryptoSecretbox(c: array<u8>, m: array<u8>, d: nat, n: array<u8>, k: array<u8>) returns (r: int)
    requires d <= c.Length && d <= m.Length && n.Length >= 24 && k.Length >= 32
    modifies c
    ensures r == if d < 32 then -1 else 0
    ensures d < 32 ==> c[..] == old(c[..])
    ensures d >= 32 ==> c[..d] == Sealed(old(m[..d]), old(n[..24]), old(k[..32])) && c[d..] == old(c[d..])
  {
    hide Tag, XKeystream, XorBytes, Zeros, Sealed;
    if d < 32 {
      return -1;
    }
    ghost var msg, nonce, key := m[..d], n[..24], k[..32];
    CryptoStreamXor(c, m, d, n, k);
    ghost var e := c[..d];
    assert c[32..d] == e[32..] && c[..32] == e[..32];
    TagInPlace(c, d);
    SealedParts(msg, nonce, key, e);
    return 0;
  }

  lemma SealedParts(m: seq<int>, n: seq<int>, k: seq<int>, e: seq<int>)
    requires |m| >= 32 && |n| == 24 && |k| == 32 && e == XorBytes(m, XKeystream(k, n, |m|))
    ensures |e| == |m| && Sealed(m, n, k) == Zeros(16) + Tag(e[32..], e[..32]) + e[32..]
  {
    hide Tag, XKeystream, XorBytes, Zeros;
  }

  /** crypto_secretbox_open. The message buffer is written only when the tag is right. */
  method CryptoSecretboxOpen(m: array<u8>, c: array<u8>, d: nat, n: array<u8>, k: array<u8>) returns (r: int)
    requires d <= c.Length && d <= m.Length && n.Length >= 24 && k.Length >= 32
    modifies m
    ensures r == if d >= 32 && Authentic(old(c[..d]), old(n[..24]), old(k[..32])) then 0 else -1
    ensures r == -1 ==> m[..] == old(m[..])
    ensures r == 0 ==> m[..d] == Opened(old(c[..d]), old(n[..24]), old(k[..32])) && m[d..] == old(m[d..])
  {
    hide Tag, XKeystream, XorBytes, Zeros, Opened;
    if d < 32 {
      return -1;
    }
    ghost var box, nonce, key := c[..d], n[..24], k[..32];
    var x := new u8[32];
    CryptoStream(x, 32, n, k);
    assert box[32..] == c[32..32 + (d - 32)] && box[16..32] == c[16..32] && x[..32] == x[..];
    var v := CryptoOnetimeauthVerify(c, 16, c, 32, d - 32, x);
    if v != 0 {
      return -1;
    }
    hide Authentic;
    CryptoStreamXor(m, c, d, n, k);
    ghost var t := m[..d];
    OpenedParts(box, nonce, key, t);
    ghost var tail := m[32..];
    ClearFirst(m, 32);
    assert m[..d] == m[..32] + tail[..d - 32] && m[d..] == tail[d - 32..];
    return 0;
  }

  lemma OpenedParts(c: seq<int>, n: seq<int>, k: seq<int>, t: seq<int>)
    requires |c| >= 32 && |n| == 24 && |k| == 32 && t == XorBytes(c, XKeystream(k, n, |c|))
    ensures |t| == |c| && Opened(c, n, k) == Zeros(32) + t[32..]
  {
    hide XKeystream, XorBytes, Zeros;
  }
}
