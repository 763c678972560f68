/**
 crypto_hash against SHA-512 of FIPS 180-4: padding of section 5.1.2 and the hash
 computation of section 6.4.2. Words are integers below 2^64; every sum is cut to 64 bits.
 */
module Sha512 {
  import opened Bits
  import opened Limbs

  // ----- FIPS 180-4: functions and constants (sections 4.1.3, 4.2.3, 5.3.5) -----

  /** R(x, c): rotation to the right. */
  function Rotr(x: int, c: nat): int
    requires c <= 64
  {
    Or(x / Pow(2, c), Cut(x * Pow(2, 64 - c)))
  }

  function Ch(x: int, y: int, z: int): int {
    Xor(And(x, y), And(Not(x), z))
  }

  function Maj(x: int, y: int, z: int): int {
    Xor(Xor(And(x, y), And(x, z)), And(y, z))
  }

  function BigSigma0(x: int): int {
    Xor(Xor(Rotr(x, 28), Rotr(x, 34)), Rotr(x, 39))
  }

  function BigSigma1(x: int): int {
    Xor(Xor(Rotr(x, 14), Rotr(x, 18)), Rotr(x, 41))
  }

  function SmallSigma0(x: int): int {
    Xor(Xor(Rotr(x, 1), Rotr(x, 8)), x / Pow(2, 7))
  }

  function SmallSigma1(x: int): int {
    Xor(Xor(Rotr(x, 19), Rotr(x, 61)), x / Pow(2, 6))
  }

  /** The round constants, eight in a row. */
  const K0: seq<int> :=
    [0x428a_2f98_d728_ae22, 0x7137_4491_23ef_65cd, 0xb5c0_fbcf_ec4d_3b2f, 0xe9b5_dba5_8189_dbbc,
     0x3956_c25b_f348_b538, 0x59f1_11f1_b605_d019, 0x923f_82a4_af19_4f9b, 0xab1c_5ed5_da6d_8118]
  const K1: seq<int> :=
    [0xd807_aa98_a303_0242, 0x1283_5b01_4570_6fbe, 0x2431_85be_4ee4_b28c, 0x550c_7dc3_d5ff_b4e2,
     0x72be_5d74_f27b_896f, 0x80de_b1fe_3b16_96b1, 0x9bdc_06a7_25c7_1235, 0xc19b_f174_cf69_2694]
  const K2: seq<int> :=
    [0xe49b_69c1_9ef1_4ad2, 0xefbe_4786_384f_25e3, 0x0fc1_9dc6_8b8c_d5b5, 0x240c_a1cc_77ac_9c65,
     0x2de9_2c6f_592b_0275, 0x4a74_84aa_6ea6_e483, 0x5cb0_a9dc_bd41_fbd4, 0x76f9_88da_8311_53b5]
  const K3: seq<int> :=
    [0x983e_5152_ee66_dfab, 0xa831_c66d_2db4_3210, 0xb003_27c8_98fb_213f, 0xbf59_7fc7_beef_0ee4,
     0xc6e0_0bf3_3da8_8fc2, 0xd5a7_9147_930a_a725, 0x06ca_6351_e003_826f, 0x1429_2967_0a0e_6e70]
  const K4: seq<int> :=
    [0x27b7_0a85_46d2_2ffc, 0x2e1b_2138_5c26_c926, 0x4d2c_6dfc_5ac4_2aed, 0x5338_0d13_9d95_b3df,
     0x650a_7354_8baf_63de, 0x766a_0abb_3c77_b2a8, 0x81c2_c92e_47ed_aee6, 0x9272_2c85_1482_353b]
  const K5: seq<int> :=
    [0xa2bf_e8a1_4cf1_0364, 0xa81a_664b_bc42_3001, 0xc24b_8b70_d0f8_9791, 0xc76c_51a3_0654_be30,
     0xd192_e819_d6ef_5218, 0xd699_0624_5565_a910, 0xf40e_3585_5771_202a, 0x106a_a070_32bb_d1b8]
  const K6: seq<int> :=
    [0x19a4_c116_b8d2_d0c8, 0x1e37_6c08_5141_ab53, 0x2748_774c_df8e_eb99, 0x34b0_bcb5_e19b_48a8,
     0x391c_0cb3_c5c9_5a63, 0x4ed8_aa4a_e341_8acb, 0x5b9c_ca4f_7763_e373, 0x682e_6ff3_d6b2_b8a3]
  const K7: seq<int> :=
    [0x748f_82ee_5def_b2fc, 0x78a5_636f_4317_2f60, 0x84c8_7814_a1f0_ab72, 0x8cc7_0208_1a64_39ec,
     0x90be_fffa_2363_1e28, 0xa450_6ceb_de82_bde9, 0xbef9_a3f7_b2c6_7915, 0xc671_78f2_e372_532b]
  const K8: seq<int> :=
    [0xca27_3ece_ea26_619c, 0xd186_b8c7_21c0_c207, 0xeada_7dd6_cde0_eb1e, 0xf57d_4f7f_ee6e_d178,
     0x06f0_67aa_7217_6fba, 0x0a63_7dc5_a2c8_98a6, 0x113f_9804_bef9_0dae, 0x1b71_0b35_131c_471b]
  const K9: seq<int> :=
    [0x28db_77f5_2304_7d84, 0x32ca_ab7b_40c7_2493, 0x3c9e_be0a_15c9_bebc, 0x431d_67c4_9c10_0d4c,
     0x4cc5_d4be_cb3e_42b6, 0x597f_299c_fc65_7e2a, 0x5fcb_6fab_3ad6_faec, 0x6c44_198c_4a47_5817]

  const K: seq<int> := K0 + K1 + K2 + K3 + K4 + K5 + K6 + K7 + K8 + K9

  const H0: seq<u64> :=
    [0x6a09_e667_f3bc_c908, 0xbb67_ae85_84ca_a73b, 0x3c6e_f372_fe94_f82b, 0xa54f_f53a_5f1d_36f1,
     0x510e_527f_ade6_82d1, 0x9b05_688c_2b3e_6c1f, 0x1f83_d9ab_fb41_bd6b, 0x5be0_cd19_137e_2179]

  // ----- FIPS 180-4: bytes and words -----

  /** Bytes of a word and of the message length. */
  const WORD_SIZE: nat := 8
  const LENGTH_SIZE: nat := 16

  /** The number that bytes denote, most significant first. */
  ghost function BigEndian(s: seq<int>): int {
    if |s| == 0 then 0 else 0x100 * BigEndian(s[..|s| - 1]) + s[|s| - 1]
  }

  /** The n low bytes of v, most significant first. */
  function ToBytes(v: int, n: nat): (s: seq<u8>)
    ensures |s| == n
    decreases n
  {
    if n == 0 then [] else ToBytes(v / 0x100, n - 1) + [v % 0x100]
  }

  ghost function Words(s: seq<u8>, n: nat): (w: seq<int>)
    requires |s| == 8 * n
    ensures |w| == n && forall i :: 0 <= i < n ==> w[i] == BigEndian(s[8 * i..8 * i + 8])
  {
    seq(n, i requires 0 <= i < n => BigEndian(s[8 * i..8 * i + 8]))
  }

  function Bytes(w: seq<int>): (s: seq<u8>)
    ensures |s| == 8 * |w|
  {
    if |w| == 0 then [] else Bytes(w[..|w| - 1]) + ToBytes(w[|w| - 1], WORD_SIZE)
  }

  // ----- FIPS 180-4: the hash computation of section 6.4.2 -----

  /** Word t of the message schedule. */
  ghost function Schedule(m: seq<int>, t: nat): int
    requires |m| == 16
  {
    if t < 16 then m[t]
    else Cut(SmallSigma1(Schedule(m, t - 2)) + Schedule(m, t - 7)
             + SmallSigma0(Schedule(m, t - 15)) + Schedule(m, t - 16))
  }

  /** One round on the working variables a .. h, given K_t + W_t. */
  ghost function Round(s: seq<int>, kw: int): (r: seq<int>)
    requires |s| == 8
    ensures |r| == 8
  {
    var t1 := s[7] + BigSigma1(s[4]) + Ch(s[4], s[5], s[6]) + kw;
    var t2 := BigSigma0(s[0]) + Maj(s[0], s[1], s[2]);
    [Cut(t1 + t2), s[0], s[1], s[2], Cut(s[3] + t1), s[4], s[5], s[6]]
  }

  /** The working variables after t rounds. */
  ghost function Rounds(h: seq<int>, m: seq<int>, t: nat): (r: seq<int>)
    requires |h| == 8 && |m| == 16 && t <= |K|
    ensures |r| == 8
  {
    if t == 0 then h else Round(Rounds(h, m, t - 1), K[t - 1] + Schedule(m, t - 1))
  }

  ghost function AddWords(s: seq<int>, h: seq<int>): (r: seq<int>)
    requires |s| == |h| == 8
    ensures |r| == 8 && forall i :: 0 <= i < 8 ==> r[i] == Cut(s[i] + h[i])
  {
    seq(8, i requires 0 <= i < 8 => Cut(s[i] + h[i]))
  }

  ghost function Compress(h: seq<int>, m: seq<int>): (r: seq<int>)
    requires |h| == 8 && |m| == 16
    ensures |r| == 8
  {
    AddWords(Rounds(h, m, |K|), h)
  }

  lemma BlockOff(n: nat)
    requires n % 128 == 0 && n > 0
    ensures n >= 128 && (n - 128) % 128 == 0
  {
  }

  /** The blocks of 128 bytes in turn; a last partial block is not read. */
  ghost function HashBlocks(h: seq<int>, p: seq<u8>): (r: seq<int>)
    requires |h| == 8
    ensures |r| == 8
    decreases |p|
  {
    if |p| < 128 then h else HashBlocks(Compress(h, Words(p[..128], 16)), p[128..])
  }

  /** The fewest zeros that fill the last block: k bits with l + 1 + k congruent to 896 modulo 1024. */
  function ZeroBytes(n: nat): (z: nat)
    ensures z < 128 && (n + 17 + z) % 128 == 0
  {
    PadLength(n);
    (128 - (n + 17) % 128) % 128
  }

  lemma PadLength(n: nat)
    ensures (n + 17 + (128 - (n + 17) % 128) % 128) % 128 == 0
  {
    var q, r := (n + 17) / 128, (n + 17) % 128;
    assert n + 17 == 128 * q + r;
    if r > 0 {
      assert n + 17 + (128 - r) == 128 * (q + 1);
    }
  }

  /** Section 5.1.2: a one bit, zeros, and the length in bits as 16 bytes, to a multiple of 128 bytes. */
  ghost function Pad(m: seq<u8>): (p: seq<u8>)
    ensures |p| % 128 == 0
  {
    var z := ZeroBytes(|m|);
    assert |m + [0x80] + seq(z, _ => 0) + ToBytes(8 * |m|, LENGTH_SIZE)| == |m| + 17 + z;
    m + [0x80] + seq(z, _ => 0) + ToBytes(8 * |m|, LENGTH_SIZE)
  }

  ghost function Digest(m: seq<u8>): (d: seq<u8>)
    ensures |d| == 64
  {
    Bytes(HashBlocks(H0, Pad(m)))
  }

  // ----- the code: the rolling schedule -----

  lemma ScheduleStep(m: seq<int>, t: nat)
    requires |m| == 16
    ensures Schedule(m, t + 16) == Cut(SmallSigma1(Schedule(m, t + 14)) + Schedule(m, t + 9)
                                       + SmallSigma0(Schedule(m, t + 1)) + Schedule(m, t))
  {
    hide SmallSigma0, SmallSigma1;
  }

  /** Lines 617-620: sixteen words are replaced in place by the next sixteen. */
  method NextWords(w: array<u64>, ghost m: seq<int>, ghost t: nat)
    requires w.Length == 16 && |m| == 16
    requires forall j :: 0 <= j < 16 ==> w[j] == Schedule(m, t + j)
    modifies w
    ensures forall j :: 0 <= j < 16 ==> w[j] == Schedule(m, t + 16 + j)
  {
    hide SmallSigma0, SmallSigma1, Schedule, Cut;
    for j := 0 to 16
      invariant forall k :: 0 <= k < j ==> w[k] == Schedule(m, t + 16 + k)
      invariant forall k :: j <= k < 16 ==> w[k] == Schedule(m, t + k)
    {
      ScheduleStep(m, t + j);
      assert w[(j + 9) % 16] == Schedule(m, t + j + 9);
      assert w[(j + 1) % 16] == Schedule(m, t + j + 1);
      assert w[(j + 14) % 16] == Schedule(m, t + j + 14);
      w[j] := Cut(w[j] as int + (w[(j + 9) % 16] as int + SmallSigma0(w[(j + 1) % 16])
                                 + SmallSigma1(w[(j + 14) % 16])));
    }
  }

  // ----- the code: one block -----

  lemma RoundsStep(h: seq<int>, m: seq<int>, t: nat)
    requires |h| == 8 && |m| == 16 && t < |K|
    ensures Rounds(h, m, 0) == h
    ensures Rounds(h, m, t + 1) == Round(Rounds(h, m, t), K[t] + Schedule(m, t))
  {
    hide Round, Schedule, K;
  }

  lemma TableLength()
    ensures |K| == 80 && |H0| == 8
  {
  }

  /** Lines 612-616: one round, written through the copy b and the rotation a[(j + 1) % 8] = b[j]. */
  method RoundInPlace(a: array<u64>, k: int, w: int)
    requires a.Length == 8
    modifies a
    ensures a[..] == Round(old(a[..]), k + w)
  {
    hide BigSigma0, BigSigma1, Ch, Maj, Cut;
    ghost var s: seq<int> := a[..];
    var b := new u64[8];
    for j := 0 to 8
      invariant a[..] == s
      invariant forall i :: 0 <= i < j ==> b[i] == s[i]
    {
      b[j] := a[j];
    }
    var t: int := a[7] + BigSigma1(a[4]) + Ch(a[4], a[5], a[6]) + k + w;
    b[7] := Cut(t + BigSigma0(a[0]) + Maj(a[0], a[1], a[2]));
    b[3] := Cut(b[3] + t);
    ghost var bs := b[..];
    for j := 0 to 8
      invariant b[..] == bs
      invariant forall i :: 1 <= i <= j && i < 8 ==> a[i] == bs[i - 1]
      invariant j == 8 ==> a[0] == bs[7]
    {
      a[(j + 1) % 8] := b[j];
    }
  }

  /** `w` holds the sixteen schedule words of the stretch that round i belongs to. */
  ghost predicate Window(m: seq<int>, w: seq<int>, i: nat) {
    |m| == |w| == 16 && forall j :: 0 <= j < 16 ==> w[j] == Schedule(m, i - i % 16 + j)
  }

  /** Lines 612-620: round i, and new schedule words after every sixteenth. */
  method RoundAndRoll(a: array<u64>, w: array<u64>, i: nat, ghost h: seq<int>, ghost m: seq<int>)
    requires a.Length == 8 && w.Length == 16 && a != w && |h| == 8 && |m| == 16 && i < |K|
    requires a[..] == Rounds(h, m, i) && Window(m, w[..], i)
    modifies a, w
    ensures a[..] == Rounds(h, m, i + 1) && Window(m, w[..], i + 1)
  {
    hide Round, Rounds, Schedule, K;
    ghost var base := i - i % 16;
    StepMod(i, base);
    RoundsStep(h, m, i);
    assert w[i % 16] == w[..][i % 16] == Schedule(m, base + i % 16);
    RoundInPlace(a, K[i], w[i % 16]);
    if i % 16 == 15 {
      assert forall j :: 0 <= j < 16 ==> w[j] == w[..][j] == Schedule(m, base + j);
      NextWords(w, m, base);
    }
  }

  /** Lines 610-621: eighty rounds over a window of sixteen schedule words. */
  method EightyRounds(a: array<u64>, w: array<u64>)
    requires a.Length == 8 && w.Length == 16 && a != w
    modifies a, w
    ensures a[..] == Rounds(old(a[..]), old(w[..]), |K|)
  {
    TableLength();
    ghost var h: seq<int>, m: seq<int> := a[..], w[..];
    RoundsStep(h, m, 0);
    ScheduleStart(m);
    assert Window(m, m, 0);
    hide Rounds, Window, K;
    for i := 0 to 80
      invariant a[..] == Rounds(h, m, i) && Window(m, w[..], i)
    {
      RoundAndRoll(a, w, i, h, m);
    }
  }

  lemma StepMod(i: nat, base: nat)
    requires base <= i <= base + 15 && i % 16 == i - base
    ensures if i % 16 == 15 then i + 1 == base + 16 && (i + 1) % 16 == 0
            else i + 1 <= base + 15 && (i + 1) % 16 == i + 1 - base
  {
  }

  lemma ScheduleStart(m: seq<int>)
    requires |m| == 16
    ensures forall j :: 0 <= j < 16 ==> Schedule(m, j) == m[j]
  {
  }

  // ----- the code: bytes and words -----

  lemma {:induction false} BigEndianBound(s: seq<int>, n: nat)
    requires |s| <= n && forall i :: 0 <= i < |s| ==> 0 <= s[i] < 0x100
    ensures 0 <= BigEndian(s) < Pow(0x100, n)
    decreases n
  {
    if |s| > 0 {
      BigEndianBound(s[..|s| - 1], n - 1);
    }
  }

  lemma BigEndianSnoc(s: seq<int>, x: int)
    ensures BigEndian(s + [x]) == 0x100 * BigEndian(s) + x
    ensures BigEndian([]) == 0
  {
    assert (s + [x])[..|s|] == s;
  }

  /** dl64 reads eight bytes, most significant first. */
  method Dl64(x: array<u8>, pos: nat) returns (u: u64)
    requires pos + 8 <= x.Length
    ensures u == BigEndian(x[pos..pos + 8])
  {
    hide BigEndian, Or, Cut;
    u := 0;
    BigEndianSnoc([], 0);
    assert x[pos..pos] == [];
    for i := 0 to 8
      invariant u == BigEndian(x[pos..pos + i])
    {
      ShiftIn(x[pos..pos + i], x[pos + i]);
      assert x[pos..pos + i + 1] == x[pos..pos + i] + [x[pos + i]];
      BigEndianBound(x[pos..pos + i + 1], 8);
      EightBytes();
      u := Or(Cut(u * 0x100), x[pos + i]);
    }
  }

  lemma EightBytes()
    ensures Pow(0x100, 7) == 0x100_0000_0000_0000 && Pow(0x100, 8) == 0x1_0000_0000_0000_0000
  {
    assert Pow(0x100, 7) == 0x100_0000_0000_0000;
  }

  lemma ShiftIn(s: seq<u8>, x: u8)
    requires |s| < 8
    ensures Or(Cut(BigEndian(s) * 0x100), x) == BigEndian(s + [x])
  {
    hide *;
    BigEndianSnoc(s, x);
    BigEndianBound(s, 7);
    EightBytes();
    ShiftInByte(BigEndian(s), x);
  }

  lemma ShiftInByte(v: int, x: u8)
    requires 0 <= v < 0x100_0000_0000_0000
    ensures Or(Cut(v * 0x100), x) == 0x100 * v + x
  {
    hide Or;
    OrByte(v, x);
    ModUnique(v * 0x100, 0x1_0000_0000_0000_0000, 0, v * 0x100);
  }

  lemma ToBytesStep(v: int, n: nat)
    ensures ToBytes(v, 0) == []
    ensures ToBytes(v, n + 1) == ToBytes(v / 0x100, n) + [v % 0x100]
  {
  }

  /** ts64 writes eight bytes, most significant first. */
  method Ts64(x: array<u8>, pos: nat, v: u64)
    requires pos + 8 <= x.Length
    modifies x
    ensures x[pos..pos + 8] == ToBytes(v, WORD_SIZE)
    ensures x[..pos] == old(x[..pos]) && x[pos + 8..] == old(x[pos + 8..])
  {
    hide ToBytes;
    var u := v;
    ghost var x0 := x[..];
    for i := 8 downto 0
      invariant ToBytes(u, i) + x[pos + i..pos + 8] == ToBytes(v, WORD_SIZE)
      invariant forall k :: 0 <= k < x.Length && !(pos + i <= k < pos + 8) ==> x[k] == x0[k]
    {
      ToBytesStep(u, i);
      ghost var tail := x[pos + i + 1..pos + 8];
      x[pos + i] := u % 0x100;
      u := u / 0x100;
      assert x[pos + i..pos + 8] == [x[pos + i]] + tail;
    }
    ToBytesStep(u, 0);
    assert ToBytes(u, 0) + x[pos..pos + 8] == x[pos..pos + 8];
  }

  lemma {:induction false} BytesRoundTrip(v: int, n: nat)
    ensures BigEndian(ToBytes(v, n)) == v % Pow(0x100, n)
    decreases n
  {
    if n > 0 {
      ToBytesStep(v, n - 1);
      hide ToBytes, BigEndian;
      BytesRoundTrip(v / 0x100, n - 1);
      BigEndianSnoc(ToBytes(v / 0x100, n - 1), v % 0x100);
      PowStep(0x100, n - 1);
      var p := Pow(0x100, n - 1);
      DivDiv(v, 0x100, p);
      hide Pow;
      LowByte(v, p);
    } else {
      assert v % 1 == 0;
    }
  }

  lemma LowByte(v: int, p: int)
    requires p > 0
    ensures 0x100 * p > 0 && v % (0x100 * p) == 0x100 * ((v / 0x100) % p) + v % 0x100
  {
    var q, r := (v / 0x100) / p, (v / 0x100) % p;
    assert v == 0x100 * (v / 0x100) + v % 0x100;
    assert v / 0x100 == p * q + r;
    assert 0x100 * (p * q) == (0x100 * p) * q;
    ModUnique(v, 0x100 * p, q, 0x100 * r + v % 0x100);
  }

  // ----- the code: crypto_hashblocks -----

  ghost predicate AllWords(w: seq<int>) {
    forall i :: 0 <= i < |w| ==> 0 <= w[i] < 0x1_0000_0000_0000_0000
  }

  lemma WordOfBytes(v: u64)
    ensures BigEndian(ToBytes(v, WORD_SIZE)) == v
  {
    hide BigEndian, ToBytes;
    BytesRoundTrip(v, WORD_SIZE);
    EightBytes();
  }

  /** Word i of written bytes is at bytes 8i to 8i + 7. */
  lemma {:induction false} BytesAt(w: seq<int>, i: nat)
    requires i < |w|
    ensures Bytes(w)[8 * i..8 * i + 8] == ToBytes(w[i], WORD_SIZE)
    decreases |w|
  {
    var n := |w| - 1;
    hide ToBytes;
    if i < n {
      BytesAt(w[..n], i);
      assert Bytes(w)[8 * i..8 * i + 8] == Bytes(w[..n])[8 * i..8 * i + 8];
    } else {
      assert Bytes(w) == Bytes(w[..n]) + ToBytes(w[n], WORD_SIZE);
    }
  }

  /** Reading back the words that were written. */
  lemma WordsOfBytes(w: seq<int>)
    requires AllWords(w)
    ensures Words(Bytes(w), |w|) == w
  {
    hide BigEndian, ToBytes, Bytes;
    forall i | 0 <= i < |w|
      ensures Words(Bytes(w), |w|)[i] == w[i]
    {
      BytesAt(w, i);
      WordOfBytes(w[i]);
    }
  }

  /** Eight or sixteen words from consecutive bytes. */
  method LoadWords(x: array<u8>, pos: nat, n: nat) returns (w: array<u64>)
    requires pos + 8 * n <= x.Length
    ensures fresh(w) && w.Length == n && w[..] == Words(x[pos..pos + 8 * n], n)
  {
    hide BigEndian;
    w := new u64[n];
    for i := 0 to n
      invariant forall k :: 0 <= k < i ==> w[k] == BigEndian(x[pos..pos + 8 * n][8 * k..8 * k + 8])
    {
      w[i] := Dl64(x, pos + 8 * i);
      assert x[pos..pos + 8 * n][8 * i..8 * i + 8] == x[pos + 8 * i..pos + 8 * i + 8];
    }
  }

  /** Line 633: the state goes back as 64 bytes. */
  method StoreWords(x: array<u8>, z: array<u64>)
    requires x.Length == 64 && z.Length == 8
    modifies x
    ensures x[..] == Bytes(z[..])
  {
    hide ToBytes;
    assert Bytes(z[..0]) == [];
    for i := 0 to 8
      invariant x[..8 * i] == Bytes(z[..i])
    {
      ghost var done := x[..8 * i];
      Ts64(x, 8 * i, z[i]);
      assert z[..i + 1][..i] == z[..i];
      assert x[..8 * i + 8] == done + x[8 * i..8 * i + 8];
    }
    assert z[..8] == z[..] && x[..64] == x[..];
  }

  /** Lines 608-627: one block, with the state in both a and z. */
  method CompressInPlace(a: array<u64>, z: array<u64>, m: array<u8>, pos: nat)
    requires a.Length == z.Length == 8 && a != z && a[..] == z[..] && pos + 128 <= m.Length
    modifies a, z
    ensures a[..] == z[..] == Compress(old(z[..]), Words(m[pos..pos + 128], 16))
  {
    hide Rounds, Words, Cut, K;
    var w := LoadWords(m, pos, 16);
    ghost var h: seq<int> := z[..];
    EightyRounds(a, w);
    ghost var s: seq<int> := a[..];
    for i := 0 to 8
      invariant forall k :: 0 <= k < i ==> a[k] == z[k] == Cut(s[k] + h[k])
      invariant forall k :: i <= k < 8 ==> a[k] == s[k] && z[k] == h[k]
    {
      a[i] := Cut(a[i] as int + z[i] as int);
      z[i] := a[i];
    }
    assert a[..] == AddWords(s, h);
  }

  /** crypto_hashblocks: all whole blocks of m + pos .. m + pos + n; the rest is left to the caller. */
  method CryptoHashblocks(x: array<u8>, m: array<u8>, pos: nat, n: nat) returns (left: nat)
    requires x.Length == 64 && x != m && pos + n <= m.Length
    modifies x
    ensures left == n % 128
    ensures x[..] == Bytes(HashBlocks(old(Words(x[..], 8)), m[pos..pos + (n - n % 128)]))
  {
    hide BigEndian, Words, Compress, Bytes;
    var z := LoadWords(x, 0, 8);
    var a := LoadWords(x, 0, 8);
    assert x[0..64] == x[..];
    ghost var h: seq<int>, end := z[..], pos + (n - n % 128);
    var at := pos;
    left := n;
    assert (end - at) % 128 == 0;
    while left >= 128
      invariant pos <= at <= end && left == pos + n - at && a[..] == z[..]
      invariant (end - at) % 128 == 0 && end - at <= left < end - at + 128
      invariant HashBlocks(z[..], m[at..end]) == HashBlocks(h, m[pos..end])
    {
      ghost var rest := m[at..end];
      BlockOff(|rest|);
      assert rest[..128] == m[at..at + 128] && rest[128..] == m[at + 128..end];
      HashBlocksStep(z[..], rest);
      CompressInPlace(a, z, m, at);
      at := at + 128;
      left := left - 128;
    }
    assert m[at..end] == [];
    StoreWords(x, z);
  }

  lemma HashBlocksStep(h: seq<int>, p: seq<u8>)
    requires |h| == 8 && |p| >= 128
    ensures HashBlocks(h, p) == HashBlocks(Compress(h, Words(p[..128], 16)), p[128..])
  {
  }

  // ----- the code: crypto_hash -----

  lemma {:induction false} HashConcat(h: seq<int>, p: seq<u8>, q: seq<u8>)
    requires |h| == 8 && |p| % 128 == 0
    ensures HashBlocks(h, p + q) == HashBlocks(HashBlocks(h, p), q)
    decreases |p|
  {
    hide *;
    if |p| == 0 {
      HashNothing(h, p);
      assert p + q == q;
    } else {
      BlockOff(|p|);
      HashBlocksStep(h, p);
      HashOfSum(h, p, q);
      HashConcat(Compress(h, Words(p[..128], 16)), p[128..], q);
    }
  }

  lemma HashNothing(h: seq<int>, p: seq<u8>)
    requires |h| == 8 && |p| < 128
    ensures HashBlocks(h, p) == h
  {
  }

  lemma HashOfSum(h: seq<int>, p: seq<u8>, q: seq<u8>)
    requires |h| == 8 && |p| >= 128
    ensures HashBlocks(h, p + q) == HashBlocks(Compress(h, Words(p[..128], 16)), p[128..] + q)
  {
    hide *;
    HashBlocksStep(h, p + q);
    assert (p + q)[..128] == p[..128];
    assert (p + q)[128..] == p[128..] + q;
  }

  /** A number's bytes in two parts. */
  lemma {:induction false} ToBytesSplit(v: int, a: nat, b: nat)
    ensures ToBytes(v, a + b) == ToBytes(v / Pow(0x100, b), a) + ToBytes(v, b)
    decreases b
  {
    if b == 0 {
      assert v / 1 == v;
    } else {
      ToBytesStep(v, a + b - 1);
      ToBytesStep(v, b - 1);
      PowStep(0x100, b - 1);
      hide *;
      ToBytesSplit(v / 0x100, a, b - 1);
      DivDiv(v, 0x100, Pow(0x100, b - 1));
    }
  }

  lemma {:induction false} ToBytesCut(v: int, n: nat, k: nat)
    requires n <= k
    ensures ToBytes(v % Pow(0x100, k), n) == ToBytes(v, n)
    decreases n
  {
    if n > 0 {
      var p := Pow(0x100, k - 1);
      ToBytesStep(v, n - 1);
      ToBytesStep(v % Pow(0x100, k), n - 1);
      PowStep(0x100, k - 1);
      hide *;
      ToBytesCut(v / 0x100, n - 1, k - 1);
      LowByte(v, p);
      DropByte((v / 0x100) % p, v % 0x100);
    }
  }

  lemma DropByte(x: int, y: int)
    requires 0 <= y < 0x100
    ensures (0x100 * x + y) / 0x100 == x && (0x100 * x + y) % 0x100 == y
  {
  }

  lemma {:induction false} ToBytesZero(n: nat)
    ensures ToBytes(0, n) == seq(n, _ => 0)
    decreases n
  {
    if n > 0 {
      ToBytesStep(0, n - 1);
      ToBytesZero(n - 1);
    }
  }

  /** The bits of the bit length above its low 64: b >> 61. */
  function TopLength(n: u64): u8 {
    n / 0x2000_0000_0000_0000
  }

  /** Lines 664-665 write the low nine of the sixteen length bytes; the high seven are zero. */
  lemma LengthBytes(n: u64)
    ensures ToBytes(8 * n as int, LENGTH_SIZE)
         == seq(7, _ => 0) + [TopLength(n)] + ToBytes(Cut(8 * n as int), WORD_SIZE)
  {
    var v: int := 8 * n as int;
    var y: int := TopLength(n);
    assert v / 0x1_0000_0000_0000_0000 == y && 0 <= y < 8;
    hide ToBytes;
    EightBytes();
    assert LENGTH_SIZE == WORD_SIZE + WORD_SIZE && WORD_SIZE == 7 + 1;
    ToBytesSplit(v, WORD_SIZE, WORD_SIZE);
    ToBytesCut(v, WORD_SIZE, WORD_SIZE);
    ToBytesStep(y, 7);
    ToBytesZero(7);
    assert y / 0x100 == 0 && y % 0x100 == y;
  }

  /** The table iv of the code. */
  const IV: seq<u8> :=
    [0x6a, 0x09, 0xe6, 0x67, 0xf3, 0xbc, 0xc9, 0x08]
    + [0xbb, 0x67, 0xae, 0x85, 0x84, 0xca, 0xa7, 0x3b]
    + [0x3c, 0x6e, 0xf3, 0x72, 0xfe, 0x94, 0xf8, 0x2b]
    + [0xa5, 0x4f, 0xf5, 0x3a, 0x5f, 0x1d, 0x36, 0xf1]
    + [0x51, 0x0e, 0x52, 0x7f, 0xad, 0xe6, 0x82, 0xd1]
    + [0x9b, 0x05, 0x68, 0x8c, 0x2b, 0x3e, 0x6c, 0x1f]
    + [0x1f, 0x83, 0xd9, 0xab, 0xfb, 0x41, 0xbd, 0x6b]
    + [0x5b, 0xe0, 0xcd, 0x19, 0x13, 0x7e, 0x21, 0x79]

  /** The initial bytes are the initial words of section 5.3.5. */
  lemma InitialState()
    ensures |IV| == 64 && Words(IV, 8) == H0
  {
    hide BigEndian, ToBytes;
    assert |IV| == 64;
    EightDigits([0x6a, 0x09, 0xe6, 0x67, 0xf3, 0xbc, 0xc9, 0x08]);
    assert IV[0..8] == [0x6a, 0x09, 0xe6, 0x67, 0xf3, 0xbc, 0xc9, 0x08];
    EightDigits([0xbb, 0x67, 0xae, 0x85, 0x84, 0xca, 0xa7, 0x3b]);
    assert IV[8..16] == [0xbb, 0x67, 0xae, 0x85, 0x84, 0xca, 0xa7, 0x3b];
    EightDigits([0x3c, 0x6e, 0xf3, 0x72, 0xfe, 0x94, 0xf8, 0x2b]);
    assert IV[16..24] == [0x3c, 0x6e, 0xf3, 0x72, 0xfe, 0x94, 0xf8, 0x2b];
    EightDigits([0xa5, 0x4f, 0xf5, 0x3a, 0x5f, 0x1d, 0x36, 0xf1]);
    assert IV[24..32] == [0xa5, 0x4f, 0xf5, 0x3a, 0x5f, 0x1d, 0x36, 0xf1];
    EightDigits([0x51, 0x0e, 0x52, 0x7f, 0xad, 0xe6, 0x82, 0xd1]);
    assert IV[32..40] == [0x51, 0x0e, 0x52, 0x7f, 0xad, 0xe6, 0x82, 0xd1];
    EightDigits([0x9b, 0x05, 0x68, 0x8c, 0x2b, 0x3e, 0x6c, 0x1f]);
    assert IV[40..48] == [0x9b, 0x05, 0x68, 0x8c, 0x2b, 0x3e, 0x6c, 0x1f];
    EightDigits([0x1f, 0x83, 0xd9, 0xab, 0xfb, 0x41, 0xbd, 0x6b]);
    assert IV[48..56] == [0x1f, 0x83, 0xd9, 0xab, 0xfb, 0x41, 0xbd, 0x6b];
    EightDigits([0x5b, 0xe0, 0xcd, 0x19, 0x13, 0x7e, 0x21, 0x79]);
    assert IV[56..64] == [0x5b, 0xe0, 0xcd, 0x19, 0x13, 0x7e, 0x21, 0x79];
  }

  ghost function Join(a: int, b: int, c: int, d: int, e: int, f: int, g: int, h: int): int {
    ((((((a * 0x100 + b) * 0x100 + c) * 0x100 + d) * 0x100 + e) * 0x100 + f) * 0x100 + g) * 0x100 + h
  }

  lemma EightDigits(s: seq<int>)
    requires |s| == 8
    ensures BigEndian(s) == Join(s[0], s[1], s[2], s[3], s[4], s[5], s[6], s[7])
  {
    BigEndianTake(s, 0);
    BigEndianTake(s, 1);
    BigEndianTake(s, 2);
    BigEndianTake(s, 3);
    BigEndianTake(s, 4);
    BigEndianTake(s, 5);
    BigEndianTake(s, 6);
    BigEndianTake(s, 7);
    hide BigEndian;
    assert s[..8] == s;
  }

  lemma BigEndianTake(s: seq<int>, n: nat)
    requires n < |s|
    ensures BigEndian(s[..n + 1]) == 0x100 * BigEndian(s[..n]) + s[n]
    ensures BigEndian(s[..0]) == 0
  {
    assert s[..n + 1][..n] == s[..n];
  }

  /** How many zeros padding takes, by the length of the last partial block. */
  lemma ZeroCount(n: nat, r: nat)
    requires r == n % 128
    ensures ZeroBytes(n) == (if r < 112 then 128 else 256) - r - 17
  {
    var q := n / 128;
    assert n + 17 == 128 * q + (r + 17);
    if r < 111 {
      ModUnique(n + 17, 128, q, r + 17);
    } else {
      assert n + 17 == 128 * (q + 1) + (r - 111);
      ModUnique(n + 17, 128, q + 1, r - 111);
    }
  }

  /** The last one or two blocks: partial block, 0x80, zeros and nine length bytes. */
  ghost predicate LastBlocks(x: seq<u8>, tail: seq<u8>, n: u64) {
    && |tail| < 128 && |x| == (if |tail| < 112 then 128 else 256)
    && x[..|tail|] == tail && x[|tail|] == 0x80
    && (forall k :: |tail| < k < |x| - 9 ==> x[k] == 0)
    && x[|x| - 9] == TopLength(n)
    && x[|x| - 8..] == ToBytes(Cut(8 * n as int), WORD_SIZE)
  }

  lemma PaddedBlocks(m: seq<u8>, x: seq<u8>)
    requires |m| < 0x1_0000_0000_0000_0000
    requires LastBlocks(x, m[|m| - |m| % 128..], |m|)
    ensures Pad(m) == m[..|m| - |m| % 128] + x
  {
    hide *;
    var r, n: u64 := |m| % 128, |m|;
    var head, tail, low := m[..n - r], m[n - r..], ToBytes(Cut(8 * n as int), WORD_SIZE);
    var z, y := (if r < 112 then 128 else 256) - r - 17, TopLength(n);
    LastBlockParts(x, tail, n, z);
    PadParts(m, z);
    assert m == head + tail;
    Reassemble(head, tail, z, y, low);
  }

  lemma PadParts(m: seq<u8>, z: nat)
    requires |m| < 0x1_0000_0000_0000_0000
    requires z == (if |m| % 128 < 112 then 128 else 256) - |m| % 128 - 17
    ensures Pad(m) == m + [0x80] + seq(z, _ => 0)
                    + (seq(7, _ => 0) + [TopLength(|m|)] + ToBytes(Cut(8 * |m|), WORD_SIZE))
  {
    hide ToBytes, Cut, TopLength;
    ZeroCount(|m|, |m| % 128);
    LengthBytes(|m|);
  }

  lemma LastBlockParts(x: seq<u8>, tail: seq<u8>, n: u64, z: nat)
    requires LastBlocks(x, tail, n) && z == (if |tail| < 112 then 128 else 256) - |tail| - 17
    ensures x == tail + [0x80] + seq(z + 7, _ => 0) + [TopLength(n)] + ToBytes(Cut(8 * n as int), WORD_SIZE)
  {
    hide ToBytes, Cut;
    var a, b := x[..|x| - 8], x[|x| - 8..];
    assert x == a + b;
    assert a == tail + [0x80] + seq(z + 7, _ => 0) + [TopLength(n)];
  }

  lemma Reassemble(head: seq<u8>, tail: seq<u8>, z: nat, y: u8, low: seq<u8>)
    ensures head + tail + [0x80] + seq(z, _ => 0) + (seq(7, _ => 0) + [y] + low)
         == head + (tail + [0x80] + seq(z + 7, _ => 0) + [y] + low)
  {
    assert seq(z + 7, _ => 0 as u8) == seq(z, _ => 0) + seq(7, _ => 0);
  }

  /** Lines 659-665: the buffer of one or two blocks. */
  method BuildLastBlocks(m: array<u8>, pos: nat, n: nat) returns (x: array<u8>, size: nat)
    requires pos + n <= m.Length && n < 0x1_0000_0000_0000_0000
    ensures fresh(x) && size <= x.Length && size % 128 == 0
    ensures LastBlocks(x[..size], m[pos + n - n % 128..pos + n], n)
  {
    hide ToBytes, Cut;
    var r := n % 128;
    var start := pos + n - r;
    x := new u8[256](_ => 0);
    for i := 0 to r
      invariant forall k :: 0 <= k < i ==> x[k] == m[start + k]
      invariant forall k :: i <= k < 256 ==> x[k] == 0
    {
      x[i] := m[start + i];
    }
    x[r] := 128;
    size := if r < 112 then 128 else 256;
    x[size - 9] := TopLength(n);
    ghost var before := x[..];
    Ts64(x, size - 8, Cut(8 * n));
    ghost var s := x[..size];
    assert forall k :: 0 <= k < size - 8 ==> s[k] == x[k] == x[..size - 8][k] == before[k];
    assert s[size - 8..] == x[size - 8..size];
    assert s[size - 9] == TopLength(n);
    assert s[r] == 128;
    assert s[..r] == m[start..start + r];
  }

  /** crypto_hash(out, m + pos, n) writes the SHA-512 digest of the n bytes there. */
  method CryptoHash(out: array<u8>, m: array<u8>, pos: nat, n: nat)
    requires out.Length == 64 && pos + n <= m.Length && n < 0x1_0000_0000_0000_0000
    modifies out
    ensures out[..] == Digest(old(m[pos..pos + n]))
  {
    hide ToBytes, Words, Bytes, HashBlocks, Pad, LastBlocks, IV, H0;
    ghost var msg := m[pos..pos + n];
    InitialState();
    var h := new u8[64](i requires 0 <= i < 64 => InitialByte(i));
    assert h[..] == IV;
    var left := CryptoHashblocks(h, m, pos, n);
    ghost var whole := msg[..n - n % 128];
    assert m[pos..pos + (n - n % 128)] == whole;
    assert m[pos + n - n % 128..pos + n] == msg[n - n % 128..];
    HashedAreWords(H0, whole);
    WordsOfBytes(HashBlocks(H0, whole));
    var x, size := BuildLastBlocks(m, pos, n);
    left := CryptoHashblocks(h, x, 0, size);
    PaddedBlocks(msg, x[..size]);
    HashConcat(H0, whole, x[..size]);
    assert x[0..size] == x[..size];
    for i := 0 to 64
      invariant h[..] == Digest(msg)
      invariant forall k :: 0 <= k < i ==> out[k] == h[k]
    {
      out[i] := h[i];
    }
  }

  function InitialByte(i: nat): (b: u8)
    requires i < 64
    ensures |IV| == 64 && b == IV[i]
  {
    IV[i]
  }

  lemma {:induction false} HashedAreWords(h: seq<int>, p: seq<u8>)
    requires |h| == 8 && AllWords(h)
    ensures AllWords(HashBlocks(h, p))
    decreases |p|
  {
    if |p| >= 128 {
      hide HashBlocks, Words, Rounds, K;
      HashBlocksStep(h, p);
      HashedAreWords(Compress(h, Words(p[..128], 16)), p[128..]);
    }
  }
}
