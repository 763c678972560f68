/**
 What the functions and constants of FIPS 180-4 mean: bit by bit, as rotations, and as
 roots of the first primes.
 */
module Sha512Laws {
  import opened Bits
  import opened Limbs
  import opened Primes
  import opened Sha512

  // ----- sections 4.1.3 and 3.2: functions on bits -----

  /** Ch chooses: where x has a one the bit of y, where it has a zero the bit of z. */
  lemma ChBits(x: int, y: int, z: int, t: nat)
    ensures Bit(Ch(x, y, z), t) == if Bit(x, t) == 1 then Bit(y, t) else Bit(z, t)
  {
    hide Bit, And, Xor, Not;
    BitOfXor(And(x, y), And(Not(x), z), t);
    BitOfAnd(x, y, t);
    BitOfAnd(Not(x), z, t);
    BitOfNot(x, t);
  }

  /** Maj is the majority of three bits. */
  lemma MajBits(x: int, y: int, z: int, t: nat)
    ensures Bit(Maj(x, y, z), t) == if Bit(x, t) + Bit(y, t) + Bit(z, t) >= 2 then 1 else 0
  {
    hide Bit, And, Xor;
    BitOfXor(Xor(And(x, y), And(x, z)), And(y, z), t);
    BitOfXor(And(x, y), And(x, z), t);
    BitOfAnd(x, y, t);
    BitOfAnd(x, z, t);
    BitOfAnd(y, z, t);
  }

  /** Bit t of a word rotated right by c is bit t + c, counted round. */
  lemma RotrBit(x: u64, c: nat, t: nat)
    requires c <= 64 && t < 64
    ensures Bit(Rotr(x, c), t) == Bit(x, if t + c < 64 then t + c else t + c - 64)
  {
    WordIsPower();
    hide Bit, Or, Pow;
    BitOfOr(x / Pow(2, c), Cut(x * Pow(2, 64 - c)), t);
    BitOfShift(x, c, t);
    BitOfMod(x * Pow(2, 64 - c), 64, t);
    BitOfScaled(x, 64 - c, t);
    if t + c >= 64 {
      BitBeyond(x, 64, t + c);
    }
  }

  /** The parts of a rotated word do not overlap. */
  lemma RotrParts(x: u64, c: nat)
    requires c <= 64
    ensures Rotr(x, c) == (x * Pow(2, 64 - c)) % 0x1_0000_0000_0000_0000 + x / Pow(2, c)
    ensures (x * Pow(2, 64 - c)) % 0x1_0000_0000_0000_0000 == Pow(2, 64 - c) * (x % Pow(2, c))
    ensures (x * Pow(2, 64 - c)) / 0x1_0000_0000_0000_0000 == x / Pow(2, c) < Pow(2, 64 - c)
    ensures Pow(2, 64 - c) * (x % Pow(2, c)) <= 0x1_0000_0000_0000_0000 - Pow(2, 64 - c)
  {
    var p, q := Pow(2, 64 - c), Pow(2, c);
    PowAdd(2, 64 - c, c);
    WordIsPower();
    assert Rotr(x, c) == Or(x / q, Cut(x * p));
    hide Or, Pow;
    SplitProduct(x, p, q);
    OrDisjoint(x % q, x / q, 64 - c);
    OrCommutes(x / q, p * (x % q));
  }

  /** Rotation right by c is multiplication by 2^(64 - c) modulo 2^64 - 1, and 0 only for 0. */
  lemma RotrIsMultiplication(x: u64, c: nat)
    requires c <= 64
    ensures 0 <= Rotr(x, c) < 0x1_0000_0000_0000_0000 && (Rotr(x, c) == 0 <==> x == 0)
    ensures Rotr(x, c) % 0xffff_ffff_ffff_ffff == (x * Pow(2, 64 - c)) % 0xffff_ffff_ffff_ffff
  {
    hide *;
    RotrParts(x, c);
    RotatedWord(x, Pow(2, 64 - c), Pow(2, c), x * Pow(2, 64 - c), Rotr(x, c));
  }

  lemma RotatedWord(u: u64, p: int, q: int, v: int, r: int)
    requires p > 0 && q > 0
    requires r == v % 0x1_0000_0000_0000_0000 + u / q && v / 0x1_0000_0000_0000_0000 == u / q < p
    requires v % 0x1_0000_0000_0000_0000 == p * (u % q) <= 0x1_0000_0000_0000_0000 - p
    ensures 0 <= r < 0x1_0000_0000_0000_0000 && (r == 0 <==> u == 0)
    ensures r % 0xffff_ffff_ffff_ffff == v % 0xffff_ffff_ffff_ffff
  {
    RoundTheTop(v, u / q);
    ZeroWord(u, p, q);
  }

  lemma RoundTheTop(v: int, high: int)
    requires high == v / 0x1_0000_0000_0000_0000
    ensures (v % 0x1_0000_0000_0000_0000 + high) % 0xffff_ffff_ffff_ffff == v % 0xffff_ffff_ffff_ffff
  {
    assert v == (v % 0x1_0000_0000_0000_0000 + high) + 0xffff_ffff_ffff_ffff * high;
    ModShift(v % 0x1_0000_0000_0000_0000 + high, high, 0xffff_ffff_ffff_ffff);
  }

  /** Bit t of a word, counted round its 64 places. */
  ghost function Around(x: u64, t: nat): int {
    Bit(x, t % 64)
  }

  lemma RotrAround(x: u64, c: nat, t: nat)
    requires c <= 64 && t < 64
    ensures Bit(Rotr(x, c), t) == Around(x, t + c)
  {
    hide Bit, Rotr;
    RotrBit(x, c, t);
  }

  /** The four sigma functions as sums of bits modulo 2. */
  lemma SigmaBits(x: u64, t: nat)
    requires t < 64
    ensures Bit(BigSigma0(x), t) == (Around(x, t + 28) + Around(x, t + 34) + Around(x, t + 39)) % 2
    ensures Bit(BigSigma1(x), t) == (Around(x, t + 14) + Around(x, t + 18) + Around(x, t + 41)) % 2
    ensures Bit(SmallSigma0(x), t) == (Around(x, t + 1) + Around(x, t + 8) + Bit(x, t + 7)) % 2
    ensures Bit(SmallSigma1(x), t) == (Around(x, t + 19) + Around(x, t + 61) + Bit(x, t + 6)) % 2
  {
    hide Bit, Rotr, Xor, Around, Pow;
    RotrAround(x, 28, t);
    RotrAround(x, 34, t);
    RotrAround(x, 39, t);
    ThreeBits(Rotr(x, 28), Rotr(x, 34), Rotr(x, 39), t);
    RotrAround(x, 14, t);
    RotrAround(x, 18, t);
    RotrAround(x, 41, t);
    ThreeBits(Rotr(x, 14), Rotr(x, 18), Rotr(x, 41), t);
    RotrAround(x, 1, t);
    RotrAround(x, 8, t);
    BitOfShift(x, 7, t);
    ThreeBits(Rotr(x, 1), Rotr(x, 8), x / Pow(2, 7), t);
    RotrAround(x, 19, t);
    RotrAround(x, 61, t);
    BitOfShift(x, 6, t);
    ThreeBits(Rotr(x, 19), Rotr(x, 61), x / Pow(2, 6), t);
  }

  lemma ThreeBits(x: int, y: int, z: int, t: nat)
    ensures Bit(Xor(Xor(x, y), z), t) == (Bit(x, t) + Bit(y, t) + Bit(z, t)) % 2
  {
    hide Bit, Xor;
    BitOfXor(Xor(x, y), z, t);
    BitOfXor(x, y, t);
  }

  // ----- sections 4.2.3 and 5.3.5: the constants -----

  /** v is the cube root of p, cut after 64 binary places. */
  ghost predicate CubeRootIs(p: int, v: int) {
    v * v * v <= p * 0x1_0000_0000_0000_0000_0000_0000_0000_0000_0000_0000_0000_0000 < (v + 1) * (v + 1) * (v + 1)
  }

  ghost predicate SquareRootIs(p: int, v: int) {
    v * v <= p * 0x1_0000_0000_0000_0000_0000_0000_0000_0000 < (v + 1) * (v + 1)
  }

  /** k is the first 64 bits of the fractional part of the cube root of p. */
  ghost predicate CubeRootFraction(p: int, k: int) {
    exists v: nat :: CubeRootIs(p, v) && k == v % 0x1_0000_0000_0000_0000
  }

  ghost predicate SquareRootFraction(p: int, k: int) {
    exists v: nat :: SquareRootIs(p, v) && k == v % 0x1_0000_0000_0000_0000
  }

  ghost predicate AreCubeRoots(p: seq<int>, k: seq<int>) {
    |p| == |k| && forall i :: 0 <= i < |p| ==> CubeRootFraction(p[i], k[i])
  }

  lemma CubeRootWitness(p: int, v: nat)
    requires CubeRootIs(p, v)
    ensures CubeRootFraction(p, v % 0x1_0000_0000_0000_0000)
  {
  }

  lemma SquareRootWitness(p: int, v: nat)
    requires SquareRootIs(p, v)
    ensures SquareRootFraction(p, v % 0x1_0000_0000_0000_0000)
  {
  }

  lemma RootsAppend(p: seq<int>, k: seq<int>, p': seq<int>, k': seq<int>)
    requires AreCubeRoots(p, k) && AreCubeRoots(p', k')
    ensures AreCubeRoots(p + p', k + k')
  {
    hide CubeRootFraction;
  }

  lemma CubeRoots0()
    ensures AreCubeRoots(P0, K0)
  {
    CubeRootWitness(2, 0x1_428a_2f98_d728_ae22);
    CubeRootWitness(3, 0x1_7137_4491_23ef_65cd);
    CubeRootWitness(5, 0x1_b5c0_fbcf_ec4d_3b2f);
    CubeRootWitness(7, 0x1_e9b5_dba5_8189_dbbc);
    CubeRootWitness(11, 0x2_3956_c25b_f348_b538);
    CubeRootWitness(13, 0x2_59f1_11f1_b605_d019);
    CubeRootWitness(17, 0x2_923f_82a4_af19_4f9b);
    CubeRootWitness(19, 0x2_ab1c_5ed5_da6d_8118);
  }

  lemma CubeRoots1()
    ensures AreCubeRoots(P1, K1)
  {
    CubeRootWitness(23, 0x2_d807_aa98_a303_0242);
    CubeRootWitness(29, 0x3_1283_5b01_4570_6fbe);
    CubeRootWitness(31, 0x3_2431_85be_4ee4_b28c);
    CubeRootWitness(37, 0x3_550c_7dc3_d5ff_b4e2);
    CubeRootWitness(41, 0x3_72be_5d74_f27b_896f);
    CubeRootWitness(43, 0x3_80de_b1fe_3b16_96b1);
    CubeRootWitness(47, 0x3_9bdc_06a7_25c7_1235);
    CubeRootWitness(53, 0x3_c19b_f174_cf69_2694);
  }

  lemma CubeRoots2()
    ensures AreCubeRoots(P2, K2)
  {
    CubeRootWitness(59, 0x3_e49b_69c1_9ef1_4ad2);
    CubeRootWitness(61, 0x3_efbe_4786_384f_25e3);
    CubeRootWitness(67, 0x4_0fc1_9dc6_8b8c_d5b5);
    CubeRootWitness(71, 0x4_240c_a1cc_77ac_9c65);
    CubeRootWitness(73, 0x4_2de9_2c6f_592b_0275);
    CubeRootWitness(79, 0x4_4a74_84aa_6ea6_e483);
    CubeRootWitness(83, 0x4_5cb0_a9dc_bd41_fbd4);
    CubeRootWitness(89, 0x4_76f9_88da_8311_53b5);
  }

  lemma CubeRoots3()
    ensures AreCubeRoots(P3, K3)
  {
    CubeRootWitness(97, 0x4_983e_5152_ee66_dfab);
    CubeRootWitness(101, 0x4_a831_c66d_2db4_3210);
    CubeRootWitness(103, 0x4_b003_27c8_98fb_213f);
    CubeRootWitness(107, 0x4_bf59_7fc7_beef_0ee4);
    CubeRootWitness(109, 0x4_c6e0_0bf3_3da8_8fc2);
    CubeRootWitness(113, 0x4_d5a7_9147_930a_a725);
    CubeRootWitness(127, 0x5_06ca_6351_e003_826f);
    CubeRootWitness(131, 0x5_1429_2967_0a0e_6e70);
  }

  lemma CubeRoots4()
    ensures AreCubeRoots(P4, K4)
  {
    CubeRootWitness(137, 0x5_27b7_0a85_46d2_2ffc);
    CubeRootWitness(139, 0x5_2e1b_2138_5c26_c926);
    CubeRootWitness(149, 0x5_4d2c_6dfc_5ac4_2aed);
    CubeRootWitness(151, 0x5_5338_0d13_9d95_b3df);
    CubeRootWitness(157, 0x5_650a_7354_8baf_63de);
    CubeRootWitness(163, 0x5_766a_0abb_3c77_b2a8);
    CubeRootWitness(167, 0x5_81c2_c92e_47ed_aee6);
    CubeRootWitness(173, 0x5_9272_2c85_1482_353b);
  }

  lemma CubeRoots5()
    ensures AreCubeRoots(P5, K5)
  {
    CubeRootWitness(179, 0x5_a2bf_e8a1_4cf1_0364);
    CubeRootWitness(181, 0x5_a81a_664b_bc42_3001);
    CubeRootWitness(191, 0x5_c24b_8b70_d0f8_9791);
    CubeRootWitness(193, 0x5_c76c_51a3_0654_be30);
    CubeRootWitness(197, 0x5_d192_e819_d6ef_5218);
    CubeRootWitness(199, 0x5_d699_0624_5565_a910);
    CubeRootWitness(211, 0x5_f40e_3585_5771_202a);
    CubeRootWitness(223, 0x6_106a_a070_32bb_d1b8);
  }

  lemma CubeRoots6()
    ensures AreCubeRoots(P6, K6)
  {
    CubeRootWitness(227, 0x6_19a4_c116_b8d2_d0c8);
    CubeRootWitness(229, 0x6_1e37_6c08_5141_ab53);
    CubeRootWitness(233, 0x6_2748_774c_df8e_eb99);
    CubeRootWitness(239, 0x6_34b0_bcb5_e19b_48a8);
    CubeRootWitness(241, 0x6_391c_0cb3_c5c9_5a63);
    CubeRootWitness(251, 0x6_4ed8_aa4a_e341_8acb);
    CubeRootWitness(257, 0x6_5b9c_ca4f_7763_e373);
    CubeRootWitness(263, 0x6_682e_6ff3_d6b2_b8a3);
  }

  lemma CubeRoots7()
    ensures AreCubeRoots(P7, K7)
  {
    CubeRootWitness(269, 0x6_748f_82ee_5def_b2fc);
    CubeRootWitness(271, 0x6_78a5_636f_4317_2f60);
    CubeRootWitness(277, 0x6_84c8_7814_a1f0_ab72);
    CubeRootWitness(281, 0x6_8cc7_0208_1a64_39ec);
    CubeRootWitness(283, 0x6_90be_fffa_2363_1e28);
    CubeRootWitness(293, 0x6_a450_6ceb_de82_bde9);
    CubeRootWitness(307, 0x6_bef9_a3f7_b2c6_7915);
    CubeRootWitness(311, 0x6_c671_78f2_e372_532b);
  }

  lemma CubeRoots8()
    ensures AreCubeRoots(P8, K8)
  {
    CubeRootWitness(313, 0x6_ca27_3ece_ea26_619c);
    CubeRootWitness(317, 0x6_d186_b8c7_21c0_c207);
    CubeRootWitness(331, 0x6_eada_7dd6_cde0_eb1e);
    CubeRootWitness(337, 0x6_f57d_4f7f_ee6e_d178);
    CubeRootWitness(347, 0x7_06f0_67aa_7217_6fba);
    CubeRootWitness(349, 0x7_0a63_7dc5_a2c8_98a6);
    CubeRootWitness(353, 0x7_113f_9804_bef9_0dae);
    CubeRootWitness(359, 0x7_1b71_0b35_131c_471b);
  }

  lemma CubeRoots9()
    ensures AreCubeRoots(P9, K9)
  {
    CubeRootWitness(367, 0x7_28db_77f5_2304_7d84);
    CubeRootWitness(373, 0x7_32ca_ab7b_40c7_2493);
    CubeRootWitness(379, 0x7_3c9e_be0a_15c9_bebc);
    CubeRootWitness(383, 0x7_431d_67c4_9c10_0d4c);
    CubeRootWitness(389, 0x7_4cc5_d4be_cb3e_42b6);
    CubeRootWitness(397, 0x7_597f_299c_fc65_7e2a);
    CubeRootWitness(401, 0x7_5fcb_6fab_3ad6_faec);
    CubeRootWitness(409, 0x7_6c44_198c_4a47_5817);
  }

  /** Section 4.2.3: the round constants are those of the cube roots of the first eighty primes. */
  lemma RoundConstants()
    ensures |PRIMES| == |K| == 80
    ensures forall i :: 0 <= i < 80 ==> CubeRootFraction(PRIMES[i], K[i])
  {
    PrimeRows();
    ConstantRows();
    hide *;
    CubeRoots0();
    CubeRoots1();
    RootsAppend(P0, K0, P1, K1);
    CubeRoots2();
    RootsAppend(P0 + P1, K0 + K1, P2, K2);
    CubeRoots3();
    RootsAppend(P0 + P1 + P2, K0 + K1 + K2, P3, K3);
    CubeRoots4();
    RootsAppend(P0 + P1 + P2 + P3, K0 + K1 + K2 + K3, P4, K4);
    CubeRoots5();
    RootsAppend(P0 + P1 + P2 + P3 + P4, K0 + K1 + K2 + K3 + K4, P5, K5);
    CubeRoots6();
    RootsAppend(P0 + P1 + P2 + P3 + P4 + P5, K0 + K1 + K2 + K3 + K4 + K5, P6, K6);
    CubeRoots7();
    RootsAppend(P0 + P1 + P2 + P3 + P4 + P5 + P6, K0 + K1 + K2 + K3 + K4 + K5 + K6, P7, K7);
    CubeRoots8();
    RootsAppend(P0 + P1 + P2 + P3 + P4 + P5 + P6 + P7, K0 + K1 + K2 + K3 + K4 + K5 + K6 + K7, P8, K8);
    CubeRoots9();
    RootsAppend(P0 + P1 + P2 + P3 + P4 + P5 + P6 + P7 + P8, K0 + K1 + K2 + K3 + K4 + K5 + K6 + K7 + K8, P9, K9);
    RootsDef(PRIMES, K);
  }

  lemma RootsDef(p: seq<int>, k: seq<int>)
    requires AreCubeRoots(p, k)
    ensures |p| == |k| && forall i :: 0 <= i < |p| ==> CubeRootFraction(p[i], k[i])
  {
  }

  lemma ConstantRows()
    ensures |K| == 80 && K == K0 + K1 + K2 + K3 + K4 + K5 + K6 + K7 + K8 + K9
  {
  }

  /** Section 5.3.5: the initial words are those of the square roots of the first eight primes. */
  lemma InitialWords()
    ensures |H0| == 8 && |PRIMES| >= 8
    ensures forall i :: 0 <= i < 8 ==> SquareRootFraction(PRIMES[i], H0[i])
  {
    SquareRootWitness(2, 0x1_6a09_e667_f3bc_c908);
    SquareRootWitness(3, 0x1_bb67_ae85_84ca_a73b);
    SquareRootWitness(5, 0x2_3c6e_f372_fe94_f82b);
    SquareRootWitness(7, 0x2_a54f_f53a_5f1d_36f1);
    SquareRootWitness(11, 0x3_510e_527f_ade6_82d1);
    SquareRootWitness(13, 0x3_9b05_688c_2b3e_6c1f);
    SquareRootWitness(17, 0x4_1f83_d9ab_fb41_bd6b);
    SquareRootWitness(19, 0x4_5be0_cd19_137e_2179);
    hide SquareRootFraction, P1, P2, P3, P4, P5, P6, P7, P8, P9;
    assert PRIMES[..8] == P0;
  }

  // ----- section 6.4.2: the computation -----

  ghost function A(h: seq<int>, m: seq<int>, t: nat): int
    requires |h| == 8 && |m| == 16 && t <= |K|
  {
    Rounds(h, m, t)[0]
  }

  ghost function E(h: seq<int>, m: seq<int>, t: nat): int
    requires |h| == 8 && |m| == 16 && t <= |K|
  {
    Rounds(h, m, t)[4]
  }

  /** The other six working variables are earlier values of a and e. */
  lemma Delayed(h: seq<int>, m: seq<int>, t: nat)
    requires |h| == 8 && |m| == 16 && 3 <= t <= |K|
    ensures Rounds(h, m, t) == [A(h, m, t), A(h, m, t - 1), A(h, m, t - 2), A(h, m, t - 3),
                                E(h, m, t), E(h, m, t - 1), E(h, m, t - 2), E(h, m, t - 3)]
  {
    hide Rounds, K, Schedule, BigSigma0, BigSigma1, Ch, Maj, Cut;
    RoundsStep(h, m, t - 1);
    RoundsStep(h, m, t - 2);
    RoundsStep(h, m, t - 3);
  }

  /** The eight working variables are two sequences, each word made from four before it. */
  lemma TwoRegisters(h: seq<int>, m: seq<int>, t: nat)
    requires |h| == 8 && |m| == 16 && 3 <= t < 80
    ensures E(h, m, t + 1) == (A(h, m, t - 3) + E(h, m, t - 3) + BigSigma1(E(h, m, t))
                               + Ch(E(h, m, t), E(h, m, t - 1), E(h, m, t - 2)) + K[t] + Schedule(m, t))
                              % 0x1_0000_0000_0000_0000
    ensures (A(h, m, t + 1) + A(h, m, t - 3)) % 0x1_0000_0000_0000_0000
         == (E(h, m, t + 1) + BigSigma0(A(h, m, t)) + Maj(A(h, m, t), A(h, m, t - 1), A(h, m, t - 2)))
            % 0x1_0000_0000_0000_0000
  {
    ConstantRows();
    hide Rounds, K, Schedule, BigSigma0, BigSigma1, Ch, Maj, A, E;
    Delayed(h, m, t);
    RoundsStep(h, m, t);
    RegisterA(h, m, t + 1);
    var e, e1, e2, e3 := E(h, m, t), E(h, m, t - 1), E(h, m, t - 2), E(h, m, t - 3);
    var t1 := e3 + BigSigma1(e) + Ch(e, e1, e2) + (K[t] + Schedule(m, t));
    var t2 := BigSigma0(A(h, m, t)) + Maj(A(h, m, t), A(h, m, t - 1), A(h, m, t - 2));
    SumsAgree(A(h, m, t - 3), t1, t2);
  }

  lemma RegisterA(h: seq<int>, m: seq<int>, t: nat)
    requires |h| == 8 && |m| == 16 && t <= |K|
    ensures A(h, m, t) == Rounds(h, m, t)[0] && E(h, m, t) == Rounds(h, m, t)[4]
  {
  }

  lemma SumsAgree(a: int, t1: int, t2: int)
    ensures (Cut(t1 + t2) + a) % 0x1_0000_0000_0000_0000 == (Cut(a + t1) + t2) % 0x1_0000_0000_0000_0000
  {
  }

  /** Every word of the state is the final working variable plus the word before, modulo 2^64. */
  lemma FeedForward(h: seq<int>, m: seq<int>, i: nat)
    requires |h| == 8 && |m| == 16 && i < 8
    ensures Compress(h, m)[i] == (Rounds(h, m, 80)[i] + h[i]) % 0x1_0000_0000_0000_0000
  {
    ConstantRows();
    hide Rounds, K;
  }

  /** The one block of a message below 112 bytes. */
  ghost function OneBlock(m: seq<u8>): (block: seq<u8>)
    requires |m| < 112
    ensures |block| == 128 && block == m + [0x80] + seq(111 - |m|, _ => 0) + ToBytes(8 * |m|, 16)
  {
    m + [0x80] + seq(111 - |m|, _ => 0) + ToBytes(8 * |m|, 16)
  }

  lemma PadShort(m: seq<u8>)
    requires |m| < 112
    ensures Pad(m) == OneBlock(m)
  {
    hide ToBytes;
    ZeroCount(|m|, |m|);
    assert LENGTH_SIZE == 16;
  }

  /** A message below 112 bytes is hashed by one compression of the initial words. */
  lemma ShortDigest(m: seq<u8>)
    requires |m| < 112
    ensures Digest(m) == Bytes(Compress(H0, Words(OneBlock(m), 16)))
  {
    PadShort(m);
    DigestDef(m);
    hide *;
    OneBlockHash(H0, OneBlock(m));
  }

  lemma DigestDef(m: seq<u8>)
    ensures |H0| == 8 && Digest(m) == Bytes(HashBlocks(H0, Pad(m)))
  {
    hide Bytes, HashBlocks, Pad;
  }

  lemma OneBlockHash(h: seq<int>, block: seq<u8>)
    requires |h| == 8 && |block| == 128
    ensures HashBlocks(h, block) == Compress(h, Words(block, 16))
  {
    hide *;
    HashBlocksStep(h, block);
    assert block[..128] == block && block[128..] == [];
    HashNothing(Compress(h, Words(block, 16)), []);
  }
}
