/** The first eighty primes, from which FIPS 180-4 takes its constants. */
module Primes {
  import opened Bits

  ghost predicate IsPrime(n: int) {
    n >= 2 && forall d :: 2 <= d < n ==> n % d != 0
  }

  const P0: seq<int> := [2, 3, 5, 7, 11, 13, 17, 19]
  const P1: seq<int> := [23, 29, 31, 37, 41, 43, 47, 53]
  const P2: seq<int> := [59, 61, 67, 71, 73, 79, 83, 89]
  const P3: seq<int> := [97, 101, 103, 107, 109, 113, 127, 131]
  const P4: seq<int> := [137, 139, 149, 151, 157, 163, 167, 173]
  const P5: seq<int> := [179, 181, 191, 193, 197, 199, 211, 223]
  const P6: seq<int> := [227, 229, 233, 239, 241, 251, 257, 263]
  const P7: seq<int> := [269, 271, 277, 281, 283, 293, 307, 311]
  const P8: seq<int> := [313, 317, 331, 337, 347, 349, 353, 359]
  const P9: seq<int> := [367, 373, 379, 383, 389, 397, 401, 409]

  const PRIMES: seq<int> := P0 + P1 + P2 + P3 + P4 + P5 + P6 + P7 + P8 + P9

  lemma PrimeRows()
    ensures |PRIMES| == 80
    ensures PRIMES == P0 + P1 + P2 + P3 + P4 + P5 + P6 + P7 + P8 + P9
  {
  }

  /** No number below 529 that these do not divide has a divisor. */
  ghost predicate Sieved(n: int) {
    && (n % 2 != 0 || n == 2) && (n % 3 != 0 || n == 3) && (n % 5 != 0 || n == 5) && (n % 7 != 0 || n == 7)
    && (n % 11 != 0 || n == 11) && (n % 13 != 0 || n == 13) && (n % 17 != 0 || n == 17) && (n % 19 != 0 || n == 19)
  }

  lemma PrimeIsSieved(n: int)
    requires IsPrime(n)
    ensures Sieved(n)
  {
    var d := if n % 2 == 0 then 2 else if n % 3 == 0 then 3 else if n % 5 == 0 then 5 else if n % 7 == 0 then 7
             else if n % 11 == 0 then 11 else if n % 13 == 0 then 13 else if n % 17 == 0 then 17 else 19;
    assert n > d ==> n % d != 0;
  }

  lemma SievedIsPrime(n: int)
    requires 2 <= n < 529 && Sieved(n)
    ensures IsPrime(n)
  {
    hide Sieved;
    forall d | 2 <= d < n
      ensures n % d != 0
    {
      if n % d == 0 {
        var e := Cofactor(n, d);
        if d <= 22 {
          NoSmallFactor(n, d, e);
        } else {
          OneIsSmall(n, d, e);
          NoSmallFactor(n, e, d);
        }
        assert false;
      }
    }
  }

  lemma Cofactor(n: int, d: int) returns (e: int)
    requires 2 <= d < n && n % d == 0
    ensures n == d * e == e * d && e >= 2
  {
    e := n / d;
    assert n == d * e;
    MulBound(d, 1 - e);
    assert d * (1 - e) == d - n;
  }

  lemma OneIsSmall(n: int, d: int, e: int)
    requires n < 529 && n == d * e && d > 22 && e >= 2
    ensures e <= 22
  {
    MulBound(d, e - 22);
    assert d * (e - 22) == d * e - 22 * d;
  }

  /** A factor of at most 22 has one of the eight primes in it. */
  lemma NoSmallFactor(n: int, f: int, e: int)
    requires Sieved(n) && 2 <= f <= 22 && e >= 2
    ensures n != f * e
  {
    hide Sieved;
    var q, g := SmallPrimeFactor(f);
    MulAssociates(q, g, e);
    ModUnique(f * e, q, g * e, 0);
    TooBig(f, e, q, g);
    if n == f * e {
      SievedBy(n, q);
      assert false;
    }
  }

  lemma SmallPrimeFactor(f: int) returns (q: int, g: int)
    requires 2 <= f <= 22
    ensures q in {2, 3, 5, 7, 11, 13, 17, 19} && g >= 1 && f == q * g
  {
    if f % 2 == 0 {
      q, g := 2, f / 2;
    } else if f % 3 == 0 {
      q, g := 3, f / 3;
    } else if f == 5 {
      q, g := 5, 1;
    } else {
      q, g := f, 1;
    }
  }

  lemma TooBig(f: int, e: int, q: int, g: int)
    requires q > 0 && g >= 1 && e >= 2 && f == q * g
    ensures f * e > q
  {
    MulBound(q, g);
    MulBound(f, e - 1);
    assert f * (e - 1) == f * e - f;
  }

  lemma SievedBy(n: int, q: int)
    requires Sieved(n) && q in {2, 3, 5, 7, 11, 13, 17, 19} && n % q == 0
    ensures n == q
  {
  }

  ghost predicate Increasing(p: seq<int>) {
    forall i, j :: 0 <= i < j < |p| ==> p[i] < p[j]
  }

  /** Exactly the primes above lo and up to hi, in order. */
  ghost predicate PrimesBetween(p: seq<int>, lo: int, hi: int) {
    && Increasing(p) && (forall i :: 0 <= i < |p| ==> lo < p[i] <= hi)
    && forall n :: lo < n <= hi ==> (n in p <==> IsPrime(n))
  }

  lemma PrimesAppend(p: seq<int>, lo: int, mid: int, q: seq<int>, hi: int)
    requires lo <= mid <= hi && PrimesBetween(p, lo, mid) && PrimesBetween(q, mid, hi)
    ensures PrimesBetween(p + q, lo, hi)
  {
    hide IsPrime;
  }

  lemma PrimeIff(n: int)
    requires 2 <= n < 529
    ensures IsPrime(n) <==> Sieved(n)
  {
    hide Sieved, IsPrime;
    if IsPrime(n) {
      PrimeIsSieved(n);
    } else if Sieved(n) {
      SievedIsPrime(n);
    }
  }

  lemma Sieve0(n: int)
    requires 1 < n <= 19
    ensures Sieved(n) <==> n == 2 || n == 3 || n == 5 || n == 7 || n == 11 || n == 13 || n == 17 || n == 19
  {
  }

  lemma Primes0()
    ensures PrimesBetween(P0, 1, 19)
  {
    hide IsPrime, Sieved;
    forall n | 1 < n <= 19
      ensures n in P0 <==> IsPrime(n)
    {
      PrimeIff(n);
      Sieve0(n);
    }
  }

  lemma Wheel1(n: int)
    requires 19 < n <= 53 && n % 2 != 0 && n % 3 != 0 && n % 5 != 0 && n % 7 != 0
    ensures n == 23 || n == 29 || n == 31 || n == 37 || n == 41 || n == 43 || n == 47 || n == 53
  {
  }

  lemma Sieve1(n: int)
    requires 19 < n <= 53
    ensures Sieved(n) <==> n == 23 || n == 29 || n == 31 || n == 37 || n == 41 || n == 43 || n == 47 || n == 53
  {
    if n % 2 != 0 && n % 3 != 0 && n % 5 != 0 && n % 7 != 0 {
      Wheel1(n);
    }
  }

  lemma Primes1()
    ensures PrimesBetween(P1, 19, 53)
  {
    hide IsPrime, Sieved;
    forall n | 19 < n <= 53
      ensures n in P1 <==> IsPrime(n)
    {
      PrimeIff(n);
      Sieve1(n);
    }
  }

  lemma Wheel2(n: int)
    requires 53 < n <= 89 && n % 2 != 0 && n % 3 != 0 && n % 5 != 0 && n % 7 != 0
    ensures n == 59 || n == 61 || n == 67 || n == 71 || n == 73 || n == 79 || n == 83 || n == 89
  {
  }

  lemma Sieve2(n: int)
    requires 53 < n <= 89
    ensures Sieved(n) <==> n == 59 || n == 61 || n == 67 || n == 71 || n == 73 || n == 79 || n == 83 || n == 89
  {
    if n % 2 != 0 && n % 3 != 0 && n % 5 != 0 && n % 7 != 0 {
      Wheel2(n);
    }
  }

  lemma Primes2()
    ensures PrimesBetween(P2, 53, 89)
  {
    hide IsPrime, Sieved;
    forall n | 53 < n <= 89
      ensures n in P2 <==> IsPrime(n)
    {
      PrimeIff(n);
      Sieve2(n);
    }
  }

  lemma Wheel3(n: int)
    requires 89 < n <= 131 && n % 2 != 0 && n % 3 != 0 && n % 5 != 0 && n % 7 != 0
    ensures n == 97 || n == 101 || n == 103 || n == 107 || n == 109 || n == 113 || n == 127 || n == 131 ||
            n == 121
  {
  }

  lemma Sieve3(n: int)
    requires 89 < n <= 131
    ensures Sieved(n) <==> n == 97 || n == 101 || n == 103 || n == 107 || n == 109 || n == 113 || n == 127 || n == 131
  {
    if n % 2 != 0 && n % 3 != 0 && n % 5 != 0 && n % 7 != 0 {
      Wheel3(n);
    }
  }

  lemma Primes3()
    ensures PrimesBetween(P3, 89, 131)
  {
    hide IsPrime, Sieved;
    forall n | 89 < n <= 131
      ensures n in P3 <==> IsPrime(n)
    {
      PrimeIff(n);
      Sieve3(n);
    }
  }

  lemma Wheel4(n: int)
    requires 131 < n <= 173 && n % 2 != 0 && n % 3 != 0 && n % 5 != 0 && n % 7 != 0
    ensures n == 137 || n == 139 || n == 149 || n == 151 || n == 157 || n == 163 || n == 167 || n == 173 ||
            n == 143 || n == 169
  {
  }

  lemma Sieve4(n: int)
    requires 131 < n <= 173
    ensures Sieved(n) <==> n == 137 || n == 139 || n == 149 || n == 151 || n == 157 || n == 163 || n == 167 || n == 173
  {
    if n % 2 != 0 && n % 3 != 0 && n % 5 != 0 && n % 7 != 0 {
      Wheel4(n);
    }
  }

  lemma Primes4()
    ensures PrimesBetween(P4, 131, 173)
  {
    hide IsPrime, Sieved;
    forall n | 131 < n <= 173
      ensures n in P4 <==> IsPrime(n)
    {
      PrimeIff(n);
      Sieve4(n);
    }
  }

  lemma Wheel5(n: int)
    requires 173 < n <= 223 && n % 2 != 0 && n % 3 != 0 && n % 5 != 0 && n % 7 != 0
    ensures n == 179 || n == 181 || n == 191 || n == 193 || n == 197 || n == 199 || n == 211 || n == 223 ||
            n == 187 || n == 209 || n == 221
  {
  }

  lemma Sieve5(n: int)
    requires 173 < n <= 223
    ensures Sieved(n) <==> n == 179 || n == 181 || n == 191 || n == 193 || n == 197 || n == 199 || n == 211 || n == 223
  {
    if n % 2 != 0 && n % 3 != 0 && n % 5 != 0 && n % 7 != 0 {
      Wheel5(n);
    }
  }

  lemma Primes5()
    ensures PrimesBetween(P5, 173, 223)
  {
    hide IsPrime, Sieved;
    forall n | 173 < n <= 223
      ensures n in P5 <==> IsPrime(n)
    {
      PrimeIff(n);
      Sieve5(n);
    }
  }

  lemma Wheel6(n: int)
    requires 223 < n <= 263 && n % 2 != 0 && n % 3 != 0 && n % 5 != 0 && n % 7 != 0
    ensures n == 227 || n == 229 || n == 233 || n == 239 || n == 241 || n == 251 || n == 257 || n == 263 ||
            n == 247 || n == 253
  {
  }

  lemma Sieve6(n: int)
    requires 223 < n <= 263
    ensures Sieved(n) <==> n == 227 || n == 229 || n == 233 || n == 239 || n == 241 || n == 251 || n == 257 || n == 263
  {
    if n % 2 != 0 && n % 3 != 0 && n % 5 != 0 && n % 7 != 0 {
      Wheel6(n);
    }
  }

  lemma Primes6()
    ensures PrimesBetween(P6, 223, 263)
  {
    hide IsPrime, Sieved;
    forall n | 223 < n <= 263
      ensures n in P6 <==> IsPrime(n)
    {
      PrimeIff(n);
      Sieve6(n);
    }
  }

  lemma Wheel7(n: int)
    requires 263 < n <= 311 && n % 2 != 0 && n % 3 != 0 && n % 5 != 0 && n % 7 != 0
    ensures n == 269 || n == 271 || n == 277 || n == 281 || n == 283 || n == 293 || n == 307 || n == 311 ||
            n == 289 || n == 299
  {
  }

  lemma Sieve7(n: int)
    requires 263 < n <= 311
    ensures Sieved(n) <==> n == 269 || n == 271 || n == 277 || n == 281 || n == 283 || n == 293 || n == 307 || n == 311
  {
    if n % 2 != 0 && n % 3 != 0 && n % 5 != 0 && n % 7 != 0 {
      Wheel7(n);
    }
  }

  lemma Primes7()
    ensures PrimesBetween(P7, 263, 311)
  {
    hide IsPrime, Sieved;
    forall n | 263 < n <= 311
      ensures n in P7 <==> IsPrime(n)
    {
      PrimeIff(n);
      Sieve7(n);
    }
  }

  lemma Wheel8(n: int)
    requires 311 < n <= 359 && n % 2 != 0 && n % 3 != 0 && n % 5 != 0 && n % 7 != 0
    ensures n == 313 || n == 317 || n == 331 || n == 337 || n == 347 || n == 349 || n == 353 || n == 359 ||
            n == 319 || n == 323 || n == 341
  {
  }

  lemma Sieve8(n: int)
    requires 311 < n <= 359
    ensures Sieved(n) <==> n == 313 || n == 317 || n == 331 || n == 337 || n == 347 || n == 349 || n == 353 || n == 359
  {
    if n % 2 != 0 && n % 3 != 0 && n % 5 != 0 && n % 7 != 0 {
      Wheel8(n);
    }
  }

  lemma Primes8()
    ensures PrimesBetween(P8, 311, 359)
  {
    hide IsPrime, Sieved;
    forall n | 311 < n <= 359
      ensures n in P8 <==> IsPrime(n)
    {
      PrimeIff(n);
      Sieve8(n);
    }
  }

  lemma Wheel9(n: int)
    requires 359 < n <= 409 && n % 2 != 0 && n % 3 != 0 && n % 5 != 0 && n % 7 != 0
    ensures n == 367 || n == 373 || n == 379 || n == 383 || n == 389 || n == 397 || n == 401 || n == 409 ||
            n == 361 || n == 377 || n == 391 || n == 403 || n == 407
  {
  }

  lemma Sieve9(n: int)
    requires 359 < n <= 409
    ensures Sieved(n) <==> n == 367 || n == 373 || n == 379 || n == 383 || n == 389 || n == 397 || n == 401 || n == 409
  {
    if n % 2 != 0 && n % 3 != 0 && n % 5 != 0 && n % 7 != 0 {
      Wheel9(n);
    }
  }

  lemma Primes9()
    ensures PrimesBetween(P9, 359, 409)
  {
    hide IsPrime, Sieved;
    forall n | 359 < n <= 409
      ensures n in P9 <==> IsPrime(n)
    {
      PrimeIff(n);
      Sieve9(n);
    }
  }

  /** The table holds the first eighty primes. */
  lemma FirstPrimes()
    ensures |PRIMES| == 80 && Increasing(PRIMES)
    ensures forall i :: 0 <= i < 80 ==> IsPrime(PRIMES[i])
    ensures forall n :: IsPrime(n) && n <= 409 ==> n in PRIMES
  {
    PrimeRows();
    hide *;
    Primes0();
    Primes1();
    PrimesAppend(P0, 1, 19, P1, 53);
    Primes2();
    PrimesAppend(P0 + P1, 1, 53, P2, 89);
    Primes3();
    PrimesAppend(P0 + P1 + P2, 1, 89, P3, 131);
    Primes4();
    PrimesAppend(P0 + P1 + P2 + P3, 1, 131, P4, 173);
    Primes5();
    PrimesAppend(P0 + P1 + P2 + P3 + P4, 1, 173, P5, 223);
    Primes6();
    PrimesAppend(P0 + P1 + P2 + P3 + P4 + P5, 1, 223, P6, 263);
    Primes7();
    PrimesAppend(P0 + P1 + P2 + P3 + P4 + P5 + P6, 1, 263, P7, 311);
    Primes8();
    PrimesAppend(P0 + P1 + P2 + P3 + P4 + P5 + P6 + P7, 1, 311, P8, 359);
    Primes9();
    PrimesAppend(P0 + P1 + P2 + P3 + P4 + P5 + P6 + P7 + P8, 1, 359, P9, 409);
    PrimesDef(PRIMES, 1, 409);
  }

  lemma PrimesDef(p: seq<int>, lo: int, hi: int)
    requires PrimesBetween(p, lo, hi) && lo == 1
    ensures Increasing(p)
    ensures forall i :: 0 <= i < |p| ==> IsPrime(p[i])
    ensures forall n :: IsPrime(n) && n <= hi ==> n in p
  {
    forall n | IsPrime(n) && n <= hi
      ensures n in p
    {
      assert n >= 2;
    }
  }
}
