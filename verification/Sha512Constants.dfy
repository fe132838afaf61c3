/** The constants of SHA-512 by their definition: the cube roots of the first eighty primes. */
module Sha512Constants {
  import opened Bits
  import opened Sha512Spec

  // ----- the first eighty primes -----

  ghost predicate IsPrime(n: nat) {
    n >= 2 && forall d :: 2 <= d < n ==> n % d != 0
  }

  const P0: seq<nat> := [2, 3, 5, 7, 11, 13, 17, 19, 23, 29, 31, 37, 41, 43, 47, 53]
  const P1: seq<nat> := [59, 61, 67, 71, 73, 79, 83, 89, 97, 101, 103, 107, 109, 113, 127, 131]
  const P2: seq<nat> := [137, 139, 149, 151, 157, 163, 167, 173, 179, 181, 191, 193, 197, 199, 211, 223]
  const P3: seq<nat> := [227, 229, 233, 239, 241, 251, 257, 263, 269, 271, 277, 281, 283, 293, 307, 311]
  const P4: seq<nat> := [313, 317, 331, 337, 347, 349, 353, 359, 367, 373, 379, 383, 389, 397, 401, 409]

  function Prime(t: nat): nat
    requires t < 80
  {
    assert |P0| == |P1| == |P2| == |P3| == |P4| == 16;
    if t < 16 then P0[t] else if t < 32 then P1[t - 16] else if t < 48 then P2[t - 32]
    else if t < 64 then P3[t - 48] else P4[t - 64]
  }

  /** No other prime below 20 divides n. */
  predicate Sieved(n: nat) {
    && (n > 2 ==> n % 2 != 0) && (n > 3 ==> n % 3 != 0) && (n > 5 ==> n % 5 != 0) && (n > 7 ==> n % 7 != 0)
    && (n > 11 ==> n % 11 != 0) && (n > 13 ==> n % 13 != 0) && (n > 17 ==> n % 17 != 0) && (n > 19 ==> n % 19 != 0)
  }

  /** A multiple of a multiple. */
  lemma Divides(n: nat, d: nat, p: nat)
    requires p >= 1 && d >= 1 && n % d == 0 && d % p == 0
    ensures n % p == 0
  {
    var k, m := n / d, d / p;
    assert n == d * k && d == p * m;
    assert n == p * (m * k);
    DivModUnique(n, p, m * k, 0);
  }

  lemma SmallDivisor(n: nat, d: nat)
    requires 2 <= d <= 20 && d < n && n % d == 0
    ensures !Sieved(n)
  {
    var p := if d % 2 == 0 then 2 else if d % 3 == 0 then 3 else if d % 5 == 0 then 5 else d;
    Divides(n, d, p);
    assert p == 2 || p == 3 || p == 5 || p == 7 || p == 11 || p == 13 || p == 17 || p == 19;
  }

  /** Below 21² a number is prime exactly when it passes the sieve. */
  lemma PrimeIfSieved(n: nat)
    requires 2 <= n < 441
    ensures IsPrime(n) <==> Sieved(n)
  {
    hide Sieved;
    if !IsPrime(n) {
      var d :| 2 <= d < n && n % d == 0;
      var e := n / d;
      assert n == d * e;
      if d > 20 {
        SmallFactor(n, d, e);
        SmallDivisor(n, e);
      } else {
        SmallDivisor(n, d);
      }
    } else {
      PrimeIsSieved(n);
    }
  }

  lemma SmallFactor(n: nat, d: nat, e: int)
    requires n == d * e && 21 <= d < n < 441
    ensures 2 <= e <= 20 && e < n && n % e == 0
  {
    if e <= 1 {
      MulLe(d, e, 1);
    } else if e >= 21 {
      MulLe(d, 21, e);
    } else {
      DivModUnique(n, e, d, 0);
    }
  }

  lemma PrimeIsSieved(n: nat)
    requires IsPrime(n)
    ensures Sieved(n)
  {
  }

  // Stretch by stretch, whatever passes the sieve is in the list.

  lemma Sieve2(n: nat)
    requires 2 <= n < 28 && Sieved(n)
    ensures n in P0
  {
    assert n >= 2;
    assert n == 2 || n == 3 || n == 4 || n == 5 || n == 6 || n == 7 || n == 8 || n == 9 || n == 10 || n == 11 ||
        n == 12 || n == 13 || n == 14 || n == 15 || n == 16 || n == 17 || n == 18 || n == 19 || n == 20 ||
        n == 21 || n == 22 || n == 23 || n == 24 || n == 25 || n == 26 || n == 27;
  }

  lemma Sieve28(n: nat)
    requires 28 <= n < 54 && Sieved(n)
    ensures n in P0
  {
    assert n % 2 == 1;
    assert n == 29 || n == 31 || n == 33 || n == 35 || n == 37 || n == 39 || n == 41 || n == 43 || n == 45 ||
        n == 47 || n == 49 || n == 51 || n == 53;
  }

  lemma Sieve54(n: nat)
    requires 54 <= n < 93 && Sieved(n)
    ensures n in P1
  {
    assert n % 2 == 1;
    assert n == 55 || n == 57 || n == 59 || n == 61 || n == 63 || n == 65 || n == 67 || n == 69 || n == 71 ||
        n == 73 || n == 75 || n == 77 || n == 79 || n == 81 || n == 83 || n == 85 || n == 87 || n == 89 ||
        n == 91;
  }

  lemma Sieve93(n: nat)
    requires 93 <= n < 132 && Sieved(n)
    ensures n in P1
  {
    assert n % 2 == 1;
    assert n == 93 || n == 95 || n == 97 || n == 99 || n == 101 || n == 103 || n == 105 || n == 107 || n == 109 ||
        n == 111 || n == 113 || n == 115 || n == 117 || n == 119 || n == 121 || n == 123 || n == 125 ||
        n == 127 || n == 129 || n == 131;
  }

  lemma Sieve132(n: nat)
    requires 132 <= n < 178 && Sieved(n)
    ensures n in P2
  {
    assert n % 2 == 1;
    assert n == 133 || n == 135 || n == 137 || n == 139 || n == 141 || n == 143 || n == 145 || n == 147 ||
        n == 149 || n == 151 || n == 153 || n == 155 || n == 157 || n == 159 || n == 161 || n == 163 ||
        n == 165 || n == 167 || n == 169 || n == 171 || n == 173 || n == 175 || n == 177;
  }

  lemma Sieve178(n: nat)
    requires 178 <= n < 224 && Sieved(n)
    ensures n in P2
  {
    assert n % 2 == 1;
    assert n == 179 || n == 181 || n == 183 || n == 185 || n == 187 || n == 189 || n == 191 || n == 193 ||
        n == 195 || n == 197 || n == 199 || n == 201 || n == 203 || n == 205 || n == 207 || n == 209 ||
        n == 211 || n == 213 || n == 215 || n == 217 || n == 219 || n == 221 || n == 223;
  }

  lemma Sieve224(n: nat)
    requires 224 <= n < 268 && Sieved(n)
    ensures n in P3
  {
    assert n % 2 == 1;
    assert n == 225 || n == 227 || n == 229 || n == 231 || n == 233 || n == 235 || n == 237 || n == 239 ||
        n == 241 || n == 243 || n == 245 || n == 247 || n == 249 || n == 251 || n == 253 || n == 255 ||
        n == 257 || n == 259 || n == 261 || n == 263 || n == 265 || n == 267;
  }

  lemma Sieve268(n: nat)
    requires 268 <= n < 312 && Sieved(n)
    ensures n in P3
  {
    assert n % 2 == 1;
    assert n == 269 || n == 271 || n == 273 || n == 275 || n == 277 || n == 279 || n == 281 || n == 283 ||
        n == 285 || n == 287 || n == 289 || n == 291 || n == 293 || n == 295 || n == 297 || n == 299 ||
        n == 301 || n == 303 || n == 305 || n == 307 || n == 309 || n == 311;
  }

  lemma Sieve312(n: nat)
    requires 312 <= n < 362 && Sieved(n)
    ensures n in P4
  {
    assert n % 2 == 1;
    assert n == 313 || n == 315 || n == 317 || n == 319 || n == 321 || n == 323 || n == 325 || n == 327 ||
        n == 329 || n == 331 || n == 333 || n == 335 || n == 337 || n == 339 || n == 341 || n == 343 ||
        n == 345 || n == 347 || n == 349 || n == 351 || n == 353 || n == 355 || n == 357 || n == 359 ||
        n == 361;
  }

  lemma Sieve362(n: nat)
    requires 362 <= n < 410 && Sieved(n)
    ensures n in P4
  {
    assert n % 2 == 1;
    assert n == 363 || n == 365 || n == 367 || n == 369 || n == 371 || n == 373 || n == 375 || n == 377 ||
        n == 379 || n == 381 || n == 383 || n == 385 || n == 387 || n == 389 || n == 391 || n == 393 ||
        n == 395 || n == 397 || n == 399 || n == 401 || n == 403 || n == 405 || n == 407 || n == 409;
  }

  lemma PrimesOf0(t: nat)
    requires t < 16
    ensures |P0| == 16 && Sieved(P0[t]) && 2 <= P0[t] <= 53
    ensures t < 15 ==> P0[t] < P0[t + 1]
  {
    assert Sieved(2) && Sieved(3) && Sieved(5) && Sieved(7) && Sieved(11) && Sieved(13) && Sieved(17) &&
        Sieved(19) && Sieved(23) && Sieved(29) && Sieved(31) && Sieved(37) && Sieved(41) && Sieved(43) &&
        Sieved(47) && Sieved(53);
    OneOf16(t);
    hide Sieved;
  }

  lemma PrimesOf1(t: nat)
    requires t < 16
    ensures |P1| == 16 && Sieved(P1[t]) && 59 <= P1[t] <= 131
    ensures t < 15 ==> P1[t] < P1[t + 1]
  {
    assert Sieved(59) && Sieved(61) && Sieved(67) && Sieved(71) && Sieved(73) && Sieved(79) && Sieved(83) &&
        Sieved(89) && Sieved(97) && Sieved(101) && Sieved(103) && Sieved(107) && Sieved(109) && Sieved(113) &&
        Sieved(127) && Sieved(131);
    OneOf16(t);
    hide Sieved;
  }

  lemma PrimesOf2(t: nat)
    requires t < 16
    ensures |P2| == 16 && Sieved(P2[t]) && 137 <= P2[t] <= 223
    ensures t < 15 ==> P2[t] < P2[t + 1]
  {
    assert Sieved(137) && Sieved(139) && Sieved(149) && Sieved(151) && Sieved(157) && Sieved(163) &&
        Sieved(167) && Sieved(173) && Sieved(179) && Sieved(181) && Sieved(191) && Sieved(193) &&
        Sieved(197) && Sieved(199) && Sieved(211) && Sieved(223);
    OneOf16(t);
    hide Sieved;
  }

  lemma PrimesOf3(t: nat)
    requires t < 16
    ensures |P3| == 16 && Sieved(P3[t]) && 227 <= P3[t] <= 311
    ensures t < 15 ==> P3[t] < P3[t + 1]
  {
    assert Sieved(227) && Sieved(229) && Sieved(233) && Sieved(239) && Sieved(241) && Sieved(251) &&
        Sieved(257) && Sieved(263) && Sieved(269) && Sieved(271) && Sieved(277) && Sieved(281) &&
        Sieved(283) && Sieved(293) && Sieved(307) && Sieved(311);
    OneOf16(t);
    hide Sieved;
  }

  lemma PrimesOf4(t: nat)
    requires t < 16
    ensures |P4| == 16 && Sieved(P4[t]) && 313 <= P4[t] <= 409
    ensures t < 15 ==> P4[t] < P4[t + 1]
  {
    assert Sieved(313) && Sieved(317) && Sieved(331) && Sieved(337) && Sieved(347) && Sieved(349) &&
        Sieved(353) && Sieved(359) && Sieved(367) && Sieved(373) && Sieved(379) && Sieved(383) &&
        Sieved(389) && Sieved(397) && Sieved(401) && Sieved(409);
    OneOf16(t);
    hide Sieved;
  }

  lemma OneOf16(t: nat)
    requires t < 16
    ensures t == 0 || t == 1 || t == 2 || t == 3 || t == 4 || t == 5 || t == 6 || t == 7
         || t == 8 || t == 9 || t == 10 || t == 11 || t == 12 || t == 13 || t == 14 || t == 15
  {
  }

  lemma PrimesOf(t: nat)
    requires t < 80
    ensures Sieved(Prime(t)) && 2 <= Prime(t) <= 409
  {
    hide Sieved, P0, P1, P2, P3, P4;
    var r := t % 16;
    PrimesOf0(r);
    PrimesOf1(r);
    PrimesOf2(r);
    PrimesOf3(r);
    PrimesOf4(r);
  }

  lemma Increasing(t: nat)
    requires t < 79
    ensures Prime(t) < Prime(t + 1)
  {
    hide Sieved, P0, P1, P2, P3, P4;
    var r := t % 16;
    PrimesOf0(r);
    PrimesOf1(r);
    PrimesOf2(r);
    PrimesOf3(r);
    PrimesOf4(r);
    PrimesOf1(0);
    PrimesOf2(0);
    PrimesOf3(0);
    PrimesOf4(0);
  }

  ghost predicate Listed(n: nat) {
    exists t :: 0 <= t < 80 && Prime(t) == n
  }

  lemma InSomeRow(n: nat)
    requires n in P0 || n in P1 || n in P2 || n in P3 || n in P4
    ensures Listed(n)
  {
    assert |P0| == |P1| == |P2| == |P3| == |P4| == 16;
    hide P0, P1, P2, P3, P4;
    if j :| 0 <= j < 16 && P0[j] == n {
      assert Prime(j) == n;
    } else if j :| 0 <= j < 16 && P1[j] == n {
      assert Prime(16 + j) == n;
    } else if j :| 0 <= j < 16 && P2[j] == n {
      assert Prime(32 + j) == n;
    } else if j :| 0 <= j < 16 && P3[j] == n {
      assert Prime(48 + j) == n;
    } else {
      var j :| 0 <= j < 16 && P4[j] == n;
      assert Prime(64 + j) == n;
    }
  }

  lemma SievedIsListed(n: nat)
    requires 2 <= n <= 409 && Sieved(n)
    ensures Listed(n)
  {
    hide *;
    if n < 28 {
      Sieve2(n);
    } else if n < 54 {
      Sieve28(n);
    } else if n < 93 {
      Sieve54(n);
    } else if n < 132 {
      Sieve93(n);
    } else if n < 178 {
      Sieve132(n);
    } else if n < 224 {
      Sieve178(n);
    } else if n < 268 {
      Sieve224(n);
    } else if n < 312 {
      Sieve268(n);
    } else if n < 362 {
      Sieve312(n);
    } else {
      Sieve362(n);
    }
    InSomeRow(n);
  }

  /** The list holds exactly the primes up to 409, in increasing order. */
  lemma FirstPrimes(n: nat, t: nat)
    requires n <= 409 && t < 80
    ensures IsPrime(n) <==> Listed(n)
    ensures t < 79 ==> Prime(t) < Prime(t + 1)
  {
    hide Prime, Sieved, IsPrime;
    if t < 79 {
      Increasing(t);
    }
    if n < 2 {
      TooSmall(n);
      forall u | 0 <= u < 80 ensures Prime(u) != n {
        PrimesOf(u);
      }
    } else {
      PrimeIfSieved(n);
      if Sieved(n) {
        SievedIsListed(n);
      }
      if Listed(n) {
        var u :| 0 <= u < 80 && Prime(u) == n;
        PrimesOf(u);
      }
    }
  }

  lemma TooSmall(n: nat)
    requires n < 2
    ensures !IsPrime(n)
  {
  }

  // ----- the constants -----

  /** w and n/2^64 are the integer part of the cube root of p and the first 64 bits of its fraction. */
  predicate RootBounds(p: nat, w: nat, n: nat) {
    var c := w * 0x1_0000_0000_0000_0000 + n;
    c * c * c <= p * 0x1_0000_0000_0000_0000_0000_0000_0000_0000_0000_0000_0000_0000 < (c + 1) * (c + 1) * (c + 1)
  }

  ghost predicate IsCubeRoot(p: nat, k: word) {
    exists w: nat :: RootBounds(p, w, Number(k))
  }

  lemma IsRoot(p: nat, w: nat, n: nat, k: word)
    requires RootBounds(p, w, n) && Number(k) == n
    ensures IsCubeRoot(p, k)
  {
    hide RootBounds, Number;
  }

  lemma Roots0(t: nat)
    requires t < 8
    ensures |P0| == 16 && IsCubeRoot(P0[t], K0.At(t))
  {
    hide IsCubeRoot;
    IsRoot(2, 1, 0x428a2f98d728ae22, 0x428a2f98d728ae22);
    IsRoot(3, 1, 0x7137449123ef65cd, 0x7137449123ef65cd);
    IsRoot(5, 1, 0xb5c0fbcfec4d3b2f, 0xb5c0fbcfec4d3b2f);
    IsRoot(7, 1, 0xe9b5dba58189dbbc, 0xe9b5dba58189dbbc);
    IsRoot(11, 2, 0x3956c25bf348b538, 0x3956c25bf348b538);
    IsRoot(13, 2, 0x59f111f1b605d019, 0x59f111f1b605d019);
    IsRoot(17, 2, 0x923f82a4af194f9b, 0x923f82a4af194f9b);
    IsRoot(19, 2, 0xab1c5ed5da6d8118, 0xab1c5ed5da6d8118);
    assert t == 0 || t == 1 || t == 2 || t == 3 || t == 4 || t == 5 || t == 6 || t == 7;
  }

  lemma Roots1(t: nat)
    requires t < 8
    ensures |P0| == 16 && IsCubeRoot(P0[t + 8], K1.At(t))
  {
    hide IsCubeRoot;
    IsRoot(23, 2, 0xd807aa98a3030242, 0xd807aa98a3030242);
    IsRoot(29, 3, 0x12835b0145706fbe, 0x12835b0145706fbe);
    IsRoot(31, 3, 0x243185be4ee4b28c, 0x243185be4ee4b28c);
    IsRoot(37, 3, 0x550c7dc3d5ffb4e2, 0x550c7dc3d5ffb4e2);
    IsRoot(41, 3, 0x72be5d74f27b896f, 0x72be5d74f27b896f);
    IsRoot(43, 3, 0x80deb1fe3b1696b1, 0x80deb1fe3b1696b1);
    IsRoot(47, 3, 0x9bdc06a725c71235, 0x9bdc06a725c71235);
    IsRoot(53, 3, 0xc19bf174cf692694, 0xc19bf174cf692694);
    assert t == 0 || t == 1 || t == 2 || t == 3 || t == 4 || t == 5 || t == 6 || t == 7;
  }

  lemma Roots2(t: nat)
    requires t < 8
    ensures |P1| == 16 && IsCubeRoot(P1[t], K2.At(t))
  {
    hide IsCubeRoot;
    IsRoot(59, 3, 0xe49b69c19ef14ad2, 0xe49b69c19ef14ad2);
    IsRoot(61, 3, 0xefbe4786384f25e3, 0xefbe4786384f25e3);
    IsRoot(67, 4, 0x0fc19dc68b8cd5b5, 0x0fc19dc68b8cd5b5);
    IsRoot(71, 4, 0x240ca1cc77ac9c65, 0x240ca1cc77ac9c65);
    IsRoot(73, 4, 0x2de92c6f592b0275, 0x2de92c6f592b0275);
    IsRoot(79, 4, 0x4a7484aa6ea6e483, 0x4a7484aa6ea6e483);
    IsRoot(83, 4, 0x5cb0a9dcbd41fbd4, 0x5cb0a9dcbd41fbd4);
    IsRoot(89, 4, 0x76f988da831153b5, 0x76f988da831153b5);
    assert t == 0 || t == 1 || t == 2 || t == 3 || t == 4 || t == 5 || t == 6 || t == 7;
  }

  lemma Roots3(t: nat)
    requires t < 8
    ensures |P1| == 16 && IsCubeRoot(P1[t + 8], K3.At(t))
  {
    hide IsCubeRoot;
    IsRoot(97, 4, 0x983e5152ee66dfab, 0x983e5152ee66dfab);
    IsRoot(101, 4, 0xa831c66d2db43210, 0xa831c66d2db43210);
    IsRoot(103, 4, 0xb00327c898fb213f, 0xb00327c898fb213f);
    IsRoot(107, 4, 0xbf597fc7beef0ee4, 0xbf597fc7beef0ee4);
    IsRoot(109, 4, 0xc6e00bf33da88fc2, 0xc6e00bf33da88fc2);
    IsRoot(113, 4, 0xd5a79147930aa725, 0xd5a79147930aa725);
    IsRoot(127, 5, 0x06ca6351e003826f, 0x06ca6351e003826f);
    IsRoot(131, 5, 0x142929670a0e6e70, 0x142929670a0e6e70);
    assert t == 0 || t == 1 || t == 2 || t == 3 || t == 4 || t == 5 || t == 6 || t == 7;
  }

  lemma Roots4(t: nat)
    requires t < 8
    ensures |P2| == 16 && IsCubeRoot(P2[t], K4.At(t))
  {
    hide IsCubeRoot;
    IsRoot(137, 5, 0x27b70a8546d22ffc, 0x27b70a8546d22ffc);
    IsRoot(139, 5, 0x2e1b21385c26c926, 0x2e1b21385c26c926);
    IsRoot(149, 5, 0x4d2c6dfc5ac42aed, 0x4d2c6dfc5ac42aed);
    IsRoot(151, 5, 0x53380d139d95b3df, 0x53380d139d95b3df);
    IsRoot(157, 5, 0x650a73548baf63de, 0x650a73548baf63de);
    IsRoot(163, 5, 0x766a0abb3c77b2a8, 0x766a0abb3c77b2a8);
    IsRoot(167, 5, 0x81c2c92e47edaee6, 0x81c2c92e47edaee6);
    IsRoot(173, 5, 0x92722c851482353b, 0x92722c851482353b);
    assert t == 0 || t == 1 || t == 2 || t == 3 || t == 4 || t == 5 || t == 6 || t == 7;
  }

  lemma Roots5(t: nat)
    requires t < 8
    ensures |P2| == 16 && IsCubeRoot(P2[t + 8], K5.At(t))
  {
    hide IsCubeRoot;
    IsRoot(179, 5, 0xa2bfe8a14cf10364, 0xa2bfe8a14cf10364);
    IsRoot(181, 5, 0xa81a664bbc423001, 0xa81a664bbc423001);
    IsRoot(191, 5, 0xc24b8b70d0f89791, 0xc24b8b70d0f89791);
    IsRoot(193, 5, 0xc76c51a30654be30, 0xc76c51a30654be30);
    IsRoot(197, 5, 0xd192e819d6ef5218, 0xd192e819d6ef5218);
    IsRoot(199, 5, 0xd69906245565a910, 0xd69906245565a910);
    IsRoot(211, 5, 0xf40e35855771202a, 0xf40e35855771202a);
    IsRoot(223, 6, 0x106aa07032bbd1b8, 0x106aa07032bbd1b8);
    assert t == 0 || t == 1 || t == 2 || t == 3 || t == 4 || t == 5 || t == 6 || t == 7;
  }

  lemma Roots6(t: nat)
    requires t < 8
    ensures |P3| == 16 && IsCubeRoot(P3[t], K6.At(t))
  {
    hide IsCubeRoot;
    IsRoot(227, 6, 0x19a4c116b8d2d0c8, 0x19a4c116b8d2d0c8);
    IsRoot(229, 6, 0x1e376c085141ab53, 0x1e376c085141ab53);
    IsRoot(233, 6, 0x2748774cdf8eeb99, 0x2748774cdf8eeb99);
    IsRoot(239, 6, 0x34b0bcb5e19b48a8, 0x34b0bcb5e19b48a8);
    IsRoot(241, 6, 0x391c0cb3c5c95a63, 0x391c0cb3c5c95a63);
    IsRoot(251, 6, 0x4ed8aa4ae3418acb, 0x4ed8aa4ae3418acb);
    IsRoot(257, 6, 0x5b9cca4f7763e373, 0x5b9cca4f7763e373);
    IsRoot(263, 6, 0x682e6ff3d6b2b8a3, 0x682e6ff3d6b2b8a3);
    assert t == 0 || t == 1 || t == 2 || t == 3 || t == 4 || t == 5 || t == 6 || t == 7;
  }

  lemma Roots7(t: nat)
    requires t < 8
    ensures |P3| == 16 && IsCubeRoot(P3[t + 8], K7.At(t))
  {
    hide IsCubeRoot;
    IsRoot(269, 6, 0x748f82ee5defb2fc, 0x748f82ee5defb2fc);
    IsRoot(271, 6, 0x78a5636f43172f60, 0x78a5636f43172f60);
    IsRoot(277, 6, 0x84c87814a1f0ab72, 0x84c87814a1f0ab72);
    IsRoot(281, 6, 0x8cc702081a6439ec, 0x8cc702081a6439ec);
    IsRoot(283, 6, 0x90befffa23631e28, 0x90befffa23631e28);
    IsRoot(293, 6, 0xa4506cebde82bde9, 0xa4506cebde82bde9);
    IsRoot(307, 6, 0xbef9a3f7b2c67915, 0xbef9a3f7b2c67915);
    IsRoot(311, 6, 0xc67178f2e372532b, 0xc67178f2e372532b);
    assert t == 0 || t == 1 || t == 2 || t == 3 || t == 4 || t == 5 || t == 6 || t == 7;
  }

  lemma Roots8(t: nat)
    requires t < 8
    ensures |P4| == 16 && IsCubeRoot(P4[t], K8.At(t))
  {
    hide IsCubeRoot;
    IsRoot(313, 6, 0xca273eceea26619c, 0xca273eceea26619c);
    IsRoot(317, 6, 0xd186b8c721c0c207, 0xd186b8c721c0c207);
    IsRoot(331, 6, 0xeada7dd6cde0eb1e, 0xeada7dd6cde0eb1e);
    IsRoot(337, 6, 0xf57d4f7fee6ed178, 0xf57d4f7fee6ed178);
    IsRoot(347, 7, 0x06f067aa72176fba, 0x06f067aa72176fba);
    IsRoot(349, 7, 0x0a637dc5a2c898a6, 0x0a637dc5a2c898a6);
    IsRoot(353, 7, 0x113f9804bef90dae, 0x113f9804bef90dae);
    IsRoot(359, 7, 0x1b710b35131c471b, 0x1b710b35131c471b);
    assert t == 0 || t == 1 || t == 2 || t == 3 || t == 4 || t == 5 || t == 6 || t == 7;
  }

  lemma Roots9(t: nat)
    requires t < 8
    ensures |P4| == 16 && IsCubeRoot(P4[t + 8], K9.At(t))
  {
    hide IsCubeRoot;
    IsRoot(367, 7, 0x28db77f523047d84, 0x28db77f523047d84);
    IsRoot(373, 7, 0x32caab7b40c72493, 0x32caab7b40c72493);
    IsRoot(379, 7, 0x3c9ebe0a15c9bebc, 0x3c9ebe0a15c9bebc);
    IsRoot(383, 7, 0x431d67c49c100d4c, 0x431d67c49c100d4c);
    IsRoot(389, 7, 0x4cc5d4becb3e42b6, 0x4cc5d4becb3e42b6);
    IsRoot(397, 7, 0x597f299cfc657e2a, 0x597f299cfc657e2a);
    IsRoot(401, 7, 0x5fcb6fab3ad6faec, 0x5fcb6fab3ad6faec);
    IsRoot(409, 7, 0x6c44198c4a475817, 0x6c44198c4a475817);
    assert t == 0 || t == 1 || t == 2 || t == 3 || t == 4 || t == 5 || t == 6 || t == 7;
  }

  lemma RootsAt(i: nat, r: nat)
    requires i < 10 && r < 8
    ensures IsCubeRoot(Prime(8 * i + r), Keys(i).At(r))
  {
    hide IsCubeRoot, Eight.At, P0, P1, P2, P3, P4, K0, K1, K2, K3, K4, K5, K6, K7, K8, K9;
    if i == 0 {
      Roots0(r);
    } else if i == 1 {
      Roots1(r);
    } else if i == 2 {
      Roots2(r);
    } else if i == 3 {
      Roots3(r);
    } else if i == 4 {
      Roots4(r);
    } else if i == 5 {
      Roots5(r);
    } else if i == 6 {
      Roots6(r);
    } else if i == 7 {
      Roots7(r);
    } else if i == 8 {
      Roots8(r);
    } else {
      Roots9(r);
    }
  }

  /** Every constant is made of the first 64 bits of the fractional part of the cube root of its prime. */
  lemma ConstantIsCubeRoot(t: nat)
    requires t < 80
    ensures IsCubeRoot(Prime(t), Constant(t))
  {
    hide IsCubeRoot, Prime, Keys, Eight.At;
    RootsAt(t / 8, t % 8);
  }
}
