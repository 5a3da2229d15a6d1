/** What pins SHA-256 down apart from the functions it is written with: its constants are roots of
    the first primes, and the digest of "abc" is the one FIPS 180-4 prints. */
module Sha256Vector {
  import opened Common
  import opened Sha256

  // ---------------------------------------------------------------- the first primes

  predicate Divides(d: nat, n: nat)
    requires d > 0
  {
    n % d == 0
  }

  predicate IsPrime(n: nat) { n >= 2 && forall d: nat :: 2 <= d < n ==> !Divides(d, n) }

  /** The primes below `n`; the i-th prime is the one with i below it. */
  ghost function PrimesBelow(n: nat): nat {
    if n == 0 then 0 else PrimesBelow(n - 1) + if IsPrime(n - 1) then 1 else 0
  }

  lemma LargeProduct(q: nat, c: nat, d: nat)
    requires q >= d && c >= d
    ensures q * c >= d * d
  {
    assert q * c >= d * c by { assert q * c == d * c + (q - d) * c; }
    assert d * c == d * d + d * (c - d);
  }

  /** A number that is not prime has a factor below any number whose square exceeds it. */
  lemma SmallFactor(n: nat, d: nat) returns (f: nat)
    requires 2 <= n < d * d && d >= 2 && !IsPrime(n)
    ensures 2 <= f < n && f < d && Divides(f, n)
  {
    var c: nat :| 2 <= c < n && Divides(c, n);
    f := c;
    if c >= d {
      OtherFactorIs(n, c);
      f := n / c;
      if f >= d { LargeProduct(f, c, d); }
    }
  }

  lemma OtherFactorIs(n: nat, c: nat)
    requires 2 <= c < n && Divides(c, n)
    ensures n == n / c * c && 2 <= n / c < n && Divides(n / c, n)
  {
    var q := n / c;
    assert n == q * c;
    assert q != 0 && q != 1;
    DivUnique(n, c, 0, q);
    assert n == q + q * (c - 1) && q * (c - 1) >= q;
  }

  predicate NoSmall(n: nat) { n % 2 != 0 && n % 3 != 0 }

  predicate NoFactor(n: nat) { NoSmall(n) && n % 5 != 0 && n % 7 != 0 && n % 11 != 0 && n % 13 != 0 && n % 17 != 0 }

  lemma Through(n: nat, f: nat, p: nat, k: nat)
    requires p > 0 && f > 0 && f == p * k && Divides(f, n)
    ensures n % p == 0
  {
    var q := n / f;
    assert n == q * f;
    assert q * (p * k) == (q * k) * p;
    DivUnique(n, q * k, 0, p);
  }

  /** A factor shows in one of the primes below it. */
  lemma FactorShows(n: nat, f: nat)
    requires 2 <= f < 19 && Divides(f, n)
    ensures !NoFactor(n) && (f < 5 ==> !NoSmall(n))
  {
    if f % 2 == 0 {
      Through(n, f, 2, f / 2);
    } else if f % 3 == 0 {
      Through(n, f, 3, f / 3);
    } else if f == 5 {
      Through(n, f, 5, 1);
    } else if f == 7 {
      Through(n, f, 7, 1);
    } else if f == 11 {
      Through(n, f, 11, 1);
    } else if f == 13 {
      Through(n, f, 13, 1);
    } else {
      Through(n, f, 17, 1);
    }
  }

  lemma SmallSieve(n: nat)
    requires 4 <= n < 25
    ensures IsPrime(n) <==> NoSmall(n)
  {
    if !IsPrime(n) {
      var f := SmallFactor(n, 5);
      FactorShows(n, f);
    } else {
      assert !Divides(2, n) && !Divides(3, n);
    }
  }

  lemma Sieve(n: nat)
    requires 18 <= n < 361
    ensures IsPrime(n) <==> NoFactor(n)
  {
    if !IsPrime(n) {
      var f := SmallFactor(n, 19);
      FactorShows(n, f);
    } else {
      assert !Divides(2, n) && !Divides(3, n) && !Divides(5, n) && !Divides(7, n) && !Divides(11, n) && !Divides(13, n)
          && !Divides(17, n);
    }
  }

  lemma {:induction false} NextPrime(p: nat, q: nat)
    requires p < q && forall n :: p < n < q ==> !IsPrime(n)
    ensures PrimesBelow(q) == PrimesBelow(p + 1)
    decreases q - p
  {
    if p + 1 < q {
      hide IsPrime;
      NextPrime(p + 1, q);
      assert !IsPrime(p + 1);
    }
  }

  const PRIMES: seq<seq<nat>> := [
    [2, 3, 5, 7, 11, 13, 17, 19],
    [23, 29, 31, 37, 41, 43, 47, 53],
    [59, 61, 67, 71, 73, 79, 83, 89],
    [97, 101, 103, 107, 109, 113, 127, 131],
    [137, 139, 149, 151, 157, 163, 167, 173],
    [179, 181, 191, 193, 197, 199, 211, 223],
    [227, 229, 233, 239, 241, 251, 257, 263],
    [269, 271, 277, 281, 283, 293, 307, 311]]

  function Prime(i: nat): nat
    requires i < 64
  {
    PRIMES[i / 8][i % 8]
  }

  /** `p` is the prime with number `i`. */
  ghost predicate Numbered(p: nat, i: nat) { IsPrime(p) && PrimesBelow(p) == i }

  /** Nothing between `p` and `q` passes the sieve. */
  predicate Clear(p: nat, q: nat)
    decreases q - p
  {
    p + 1 >= q || (!NoFactor(p + 1) && Clear(p + 1, q))
  }

  lemma {:induction false} ClearMeans(p: nat, q: nat)
    requires Clear(p, q) && 17 <= p && q < 361
    ensures forall n :: p < n < q ==> !IsPrime(n)
    decreases q - p
  {
    if p + 1 < q {
      hide IsPrime, NoFactor;
      Sieve(p + 1);
      ClearMeans(p + 1, q);
    }
  }

  lemma Follows(p: nat, i: nat, q: nat)
    requires Numbered(p, i) && 17 <= p < q < 361 && NoFactor(q) && Clear(p, q)
    ensures Numbered(q, i + 1)
  {
    hide IsPrime, NoFactor, Clear;
    Sieve(q);
    ClearMeans(p, q);
    NextPrime(p, q);
  }

  lemma FollowsSmall(p: nat, i: nat, q: nat)
    requires Numbered(p, i) && 3 <= p < q < 25 && NoSmall(q) && forall n :: p < n < q ==> !NoSmall(n)
    ensures Numbered(q, i + 1)
  {
    hide IsPrime, NoSmall;
    SmallSieve(q);
    forall n | p < n < q ensures !IsPrime(n) { SmallSieve(n); }
    NextPrime(p, q);
  }

  lemma FirstPrimes()
    ensures Numbered(2, 0) && Numbered(3, 1)
  {
    assert PrimesBelow(3) == PrimesBelow(2) + 1 && PrimesBelow(2) == PrimesBelow(1) == PrimesBelow(0);
  }

  lemma PrimesOfRow0()
    ensures Numbered(2, 0) && Numbered(3, 1) && Numbered(5, 2) && Numbered(7, 3)
    ensures Numbered(11, 4) && Numbered(13, 5) && Numbered(17, 6) && Numbered(19, 7)
  {
    FirstPrimes();
    hide Numbered;
    FollowsSmall(3, 1, 5);
    FollowsSmall(5, 2, 7);
    FollowsSmall(7, 3, 11);
    FollowsSmall(11, 4, 13);
    FollowsSmall(13, 5, 17);
    Follows(17, 6, 19);
  }

  lemma PrimesOfRow1()
    requires Numbered(19, 7)
    ensures Numbered(23, 8) && Numbered(29, 9) && Numbered(31, 10) && Numbered(37, 11)
    ensures Numbered(41, 12) && Numbered(43, 13) && Numbered(47, 14) && Numbered(53, 15)
  {
    hide Numbered;
    Follows(19, 7, 23);
    Follows(23, 8, 29);
    Follows(29, 9, 31);
    Follows(31, 10, 37);
    Follows(37, 11, 41);
    Follows(41, 12, 43);
    Follows(43, 13, 47);
    Follows(47, 14, 53);
  }

  lemma PrimesOfRow2()
    requires Numbered(53, 15)
    ensures Numbered(59, 16) && Numbered(61, 17) && Numbered(67, 18) && Numbered(71, 19)
    ensures Numbered(73, 20) && Numbered(79, 21) && Numbered(83, 22) && Numbered(89, 23)
  {
    hide Numbered;
    Follows(53, 15, 59);
    Follows(59, 16, 61);
    Follows(61, 17, 67);
    Follows(67, 18, 71);
    Follows(71, 19, 73);
    Follows(73, 20, 79);
    Follows(79, 21, 83);
    Follows(83, 22, 89);
  }

  lemma PrimesOfRow3()
    requires Numbered(89, 23)
    ensures Numbered(97, 24) && Numbered(101, 25) && Numbered(103, 26) && Numbered(107, 27)
    ensures Numbered(109, 28) && Numbered(113, 29) && Numbered(127, 30) && Numbered(131, 31)
  {
    hide Numbered;
    Follows(89, 23, 97);
    Follows(97, 24, 101);
    Follows(101, 25, 103);
    Follows(103, 26, 107);
    Follows(107, 27, 109);
    Follows(109, 28, 113);
    Follows(113, 29, 127);
    Follows(127, 30, 131);
  }

  lemma PrimesOfRow4()
    requires Numbered(131, 31)
    ensures Numbered(137, 32) && Numbered(139, 33) && Numbered(149, 34) && Numbered(151, 35)
    ensures Numbered(157, 36) && Numbered(163, 37) && Numbered(167, 38) && Numbered(173, 39)
  {
    hide Numbered;
    Follows(131, 31, 137);
    Follows(137, 32, 139);
    Follows(139, 33, 149);
    Follows(149, 34, 151);
    Follows(151, 35, 157);
    Follows(157, 36, 163);
    Follows(163, 37, 167);
    Follows(167, 38, 173);
  }

  lemma PrimesOfRow5()
    requires Numbered(173, 39)
    ensures Numbered(179, 40) && Numbered(181, 41) && Numbered(191, 42) && Numbered(193, 43)
    ensures Numbered(197, 44) && Numbered(199, 45) && Numbered(211, 46) && Numbered(223, 47)
  {
    hide Numbered;
    Follows(173, 39, 179);
    Follows(179, 40, 181);
    Follows(181, 41, 191);
    Follows(191, 42, 193);
    Follows(193, 43, 197);
    Follows(197, 44, 199);
    Follows(199, 45, 211);
    Follows(211, 46, 223);
  }

  lemma PrimesOfRow6()
    requires Numbered(223, 47)
    ensures Numbered(227, 48) && Numbered(229, 49) && Numbered(233, 50) && Numbered(239, 51)
    ensures Numbered(241, 52) && Numbered(251, 53) && Numbered(257, 54) && Numbered(263, 55)
  {
    hide Numbered;
    Follows(223, 47, 227);
    Follows(227, 48, 229);
    Follows(229, 49, 233);
    Follows(233, 50, 239);
    Follows(239, 51, 241);
    Follows(241, 52, 251);
    Follows(251, 53, 257);
    Follows(257, 54, 263);
  }

  lemma PrimesOfRow7()
    requires Numbered(263, 55)
    ensures Numbered(269, 56) && Numbered(271, 57) && Numbered(277, 58) && Numbered(281, 59)
    ensures Numbered(283, 60) && Numbered(293, 61) && Numbered(307, 62) && Numbered(311, 63)
  {
    hide Numbered;
    Follows(263, 55, 269);
    Follows(269, 56, 271);
    Follows(271, 57, 277);
    Follows(277, 58, 281);
    Follows(281, 59, 283);
    Follows(283, 60, 293);
    Follows(293, 61, 307);
    Follows(307, 62, 311);
  }

  /** The table holds the first sixty-four primes. */
  lemma PrimesAreFirst(i: nat)
    requires i < 64
    ensures Numbered(Prime(i), i)
  {
    hide Numbered;
    PrimesOfRow0();
    PrimesOfRow1();
    PrimesOfRow2();
    PrimesOfRow3();
    PrimesOfRow4();
    PrimesOfRow5();
    PrimesOfRow6();
    PrimesOfRow7();
    RowOf(i);
  }

  lemma RowOf(i: nat)
    requires i < 64
    ensures i == 8 * (i / 8) + i % 8 && i / 8 in {0, 1, 2, 3, 4, 5, 6, 7} && i % 8 in {0, 1, 2, 3, 4, 5, 6, 7}
  {
  }

  // ---------------------------------------------------------------- the constants

  const TWO_32: nat := 0x1_0000_0000
  const TWO_64: nat := 0x1_0000_0000_0000_0000
  const TWO_96: nat := 0x1_0000_0000_0000_0000_0000_0000

  /** c is the cube root, or the square root, of p with 32 binary places, cut off. */
  predicate CubeRoot(c: nat, p: nat) { c * c * c <= p * TWO_96 < (c + 1) * (c + 1) * (c + 1) }

  predicate SquareRoot(c: nat, p: nat) { c * c <= p * TWO_64 < (c + 1) * (c + 1) }

  /** k are the first 32 bits behind the point. */
  ghost predicate CubeRootBits(p: nat, k: bv32) { exists c: nat :: CubeRoot(c, p) && c % TWO_32 == k as int }

  ghost predicate SquareRootBits(p: nat, k: bv32) { exists c: nat :: SquareRoot(c, p) && c % TWO_32 == k as int }

  lemma RootsOfRow0()
    ensures CubeRootBits(2, 0x428a2f98) && CubeRootBits(3, 0x71374491) && CubeRootBits(5, 0xb5c0fbcf)
    ensures CubeRootBits(7, 0xe9b5dba5) && CubeRootBits(11, 0x3956c25b) && CubeRootBits(13, 0x59f111f1)
    ensures CubeRootBits(17, 0x923f82a4) && CubeRootBits(19, 0xab1c5ed5)
  {
    assert CubeRoot(0x1_428a2f98, 2) && CubeRoot(0x1_71374491, 3) && CubeRoot(0x1_b5c0fbcf, 5);
    assert CubeRoot(0x1_e9b5dba5, 7) && CubeRoot(0x2_3956c25b, 11) && CubeRoot(0x2_59f111f1, 13);
    assert CubeRoot(0x2_923f82a4, 17) && CubeRoot(0x2_ab1c5ed5, 19);
  }

  lemma RootsOfRow1()
    ensures CubeRootBits(23, 0xd807aa98) && CubeRootBits(29, 0x12835b01) && CubeRootBits(31, 0x243185be)
    ensures CubeRootBits(37, 0x550c7dc3) && CubeRootBits(41, 0x72be5d74) && CubeRootBits(43, 0x80deb1fe)
    ensures CubeRootBits(47, 0x9bdc06a7) && CubeRootBits(53, 0xc19bf174)
  {
    assert CubeRoot(0x2_d807aa98, 23) && CubeRoot(0x3_12835b01, 29) && CubeRoot(0x3_243185be, 31);
    assert CubeRoot(0x3_550c7dc3, 37) && CubeRoot(0x3_72be5d74, 41) && CubeRoot(0x3_80deb1fe, 43);
    assert CubeRoot(0x3_9bdc06a7, 47) && CubeRoot(0x3_c19bf174, 53);
  }

  lemma RootsOfRow2()
    ensures CubeRootBits(59, 0xe49b69c1) && CubeRootBits(61, 0xefbe4786) && CubeRootBits(67, 0x0fc19dc6)
    ensures CubeRootBits(71, 0x240ca1cc) && CubeRootBits(73, 0x2de92c6f) && CubeRootBits(79, 0x4a7484aa)
    ensures CubeRootBits(83, 0x5cb0a9dc) && CubeRootBits(89, 0x76f988da)
  {
    assert CubeRoot(0x3_e49b69c1, 59) && CubeRoot(0x3_efbe4786, 61) && CubeRoot(0x4_0fc19dc6, 67);
    assert CubeRoot(0x4_240ca1cc, 71) && CubeRoot(0x4_2de92c6f, 73) && CubeRoot(0x4_4a7484aa, 79);
    assert CubeRoot(0x4_5cb0a9dc, 83) && CubeRoot(0x4_76f988da, 89);
  }

  lemma RootsOfRow3()
    ensures CubeRootBits(97, 0x983e5152) && CubeRootBits(101, 0xa831c66d) && CubeRootBits(103, 0xb00327c8)
    ensures CubeRootBits(107, 0xbf597fc7) && CubeRootBits(109, 0xc6e00bf3) && CubeRootBits(113, 0xd5a79147)
    ensures CubeRootBits(127, 0x06ca6351) && CubeRootBits(131, 0x14292967)
  {
    assert CubeRoot(0x4_983e5152, 97) && CubeRoot(0x4_a831c66d, 101) && CubeRoot(0x4_b00327c8, 103);
    assert CubeRoot(0x4_bf597fc7, 107) && CubeRoot(0x4_c6e00bf3, 109) && CubeRoot(0x4_d5a79147, 113);
    assert CubeRoot(0x5_06ca6351, 127) && CubeRoot(0x5_14292967, 131);
  }

  lemma RootsOfRow4()
    ensures CubeRootBits(137, 0x27b70a85) && CubeRootBits(139, 0x2e1b2138) && CubeRootBits(149, 0x4d2c6dfc)
    ensures CubeRootBits(151, 0x53380d13) && CubeRootBits(157, 0x650a7354) && CubeRootBits(163, 0x766a0abb)
    ensures CubeRootBits(167, 0x81c2c92e) && CubeRootBits(173, 0x92722c85)
  {
    assert CubeRoot(0x5_27b70a85, 137) && CubeRoot(0x5_2e1b2138, 139) && CubeRoot(0x5_4d2c6dfc, 149);
    assert CubeRoot(0x5_53380d13, 151) && CubeRoot(0x5_650a7354, 157) && CubeRoot(0x5_766a0abb, 163);
    assert CubeRoot(0x5_81c2c92e, 167) && CubeRoot(0x5_92722c85, 173);
  }

  lemma RootsOfRow5()
    ensures CubeRootBits(179, 0xa2bfe8a1) && CubeRootBits(181, 0xa81a664b) && CubeRootBits(191, 0xc24b8b70)
    ensures CubeRootBits(193, 0xc76c51a3) && CubeRootBits(197, 0xd192e819) && CubeRootBits(199, 0xd6990624)
    ensures CubeRootBits(211, 0xf40e3585) && CubeRootBits(223, 0x106aa070)
  {
    assert CubeRoot(0x5_a2bfe8a1, 179) && CubeRoot(0x5_a81a664b, 181) && CubeRoot(0x5_c24b8b70, 191);
    assert CubeRoot(0x5_c76c51a3, 193) && CubeRoot(0x5_d192e819, 197) && CubeRoot(0x5_d6990624, 199);
    assert CubeRoot(0x5_f40e3585, 211) && CubeRoot(0x6_106aa070, 223);
  }

  lemma RootsOfRow6()
    ensures CubeRootBits(227, 0x19a4c116) && CubeRootBits(229, 0x1e376c08) && CubeRootBits(233, 0x2748774c)
    ensures CubeRootBits(239, 0x34b0bcb5) && CubeRootBits(241, 0x391c0cb3) && CubeRootBits(251, 0x4ed8aa4a)
    ensures CubeRootBits(257, 0x5b9cca4f) && CubeRootBits(263, 0x682e6ff3)
  {
    assert CubeRoot(0x6_19a4c116, 227) && CubeRoot(0x6_1e376c08, 229) && CubeRoot(0x6_2748774c, 233);
    assert CubeRoot(0x6_34b0bcb5, 239) && CubeRoot(0x6_391c0cb3, 241) && CubeRoot(0x6_4ed8aa4a, 251);
    assert CubeRoot(0x6_5b9cca4f, 257) && CubeRoot(0x6_682e6ff3, 263);
  }

  lemma RootsOfRow7()
    ensures CubeRootBits(269, 0x748f82ee) && CubeRootBits(271, 0x78a5636f) && CubeRootBits(277, 0x84c87814)
    ensures CubeRootBits(281, 0x8cc70208) && CubeRootBits(283, 0x90befffa) && CubeRootBits(293, 0xa4506ceb)
    ensures CubeRootBits(307, 0xbef9a3f7) && CubeRootBits(311, 0xc67178f2)
  {
    assert CubeRoot(0x6_748f82ee, 269) && CubeRoot(0x6_78a5636f, 271) && CubeRoot(0x6_84c87814, 277);
    assert CubeRoot(0x6_8cc70208, 281) && CubeRoot(0x6_90befffa, 283) && CubeRoot(0x6_a4506ceb, 293);
    assert CubeRoot(0x6_bef9a3f7, 307) && CubeRoot(0x6_c67178f2, 311);
  }

  /** Section 4.2.2: the round constants are the first 32 bits of the fractional parts of the cube
      roots of the first sixty-four primes. */
  lemma RoundConstantIsRoot(i: nat)
    requires i < 64
    ensures Numbered(Prime(i), i) && CubeRootBits(Prime(i), RoundConstant(i))
  {
    hide CubeRootBits, Numbered;
    PrimesAreFirst(i);
    RowOf(i);
    RootsOfRow0();
    RootsOfRow1();
    RootsOfRow2();
    RootsOfRow3();
    RootsOfRow4();
    RootsOfRow5();
    RootsOfRow6();
    RootsOfRow7();
  }

  /** Section 5.3.3: the initial hash value, by the square roots of the first eight. */
  lemma InitIsRoots()
    ensures Numbered(2, 0) && SquareRootBits(2, INIT.a)
    ensures Numbered(3, 1) && SquareRootBits(3, INIT.b)
    ensures Numbered(5, 2) && SquareRootBits(5, INIT.c)
    ensures Numbered(7, 3) && SquareRootBits(7, INIT.d)
    ensures Numbered(11, 4) && SquareRootBits(11, INIT.e)
    ensures Numbered(13, 5) && SquareRootBits(13, INIT.f)
    ensures Numbered(17, 6) && SquareRootBits(17, INIT.g)
    ensures Numbered(19, 7) && SquareRootBits(19, INIT.h)
  {
    PrimesOfRow0();
    hide Numbered;
    assert SquareRoot(0x1_6a09e667, 2);
    assert SquareRoot(0x1_bb67ae85, 3);
    assert SquareRoot(0x2_3c6ef372, 5);
    assert SquareRoot(0x2_a54ff53a, 7);
    assert SquareRoot(0x3_510e527f, 11);
    assert SquareRoot(0x3_9b05688c, 13);
    assert SquareRoot(0x4_1f83d9ab, 17);
    assert SquareRoot(0x4_5be0cd19, 19);
  }

  // ---------------------------------------------------------------- the example of the standard

  const ABC: seq<Byte> := [0x61, 0x62, 0x63]

  /** The one block of the padded message. */
  ghost predicate AbcBlock(m: seq<Byte>) {
    && |m| == BLOCK && m[0] == 0x61 && m[1] == 0x62 && m[2] == 0x63 && m[3] == 0x80
    && (forall i :: 4 <= i < 63 ==> m[i] == 0) && m[63] == 24
  }

  lemma AbcPadded()
    ensures AbcBlock(ABC + Padding(3))
  {
    var z := BigEndian(24, 8);
    assert z == [0, 0, 0, 0, 0, 0, 0, 24];
    assert ZeroCount(3) == 52;
    var zeros := Zeros(52);
    hide Zeros, BigEndian;
    assert Padding(3) == [0x80] + zeros + z;
  }

  lemma WordIs(m: seq<Byte>, i: nat, a: Byte, b: Byte, c: Byte, d: Byte)
    requires 4 * i + 4 <= |m| && m[4 * i] == a && m[4 * i + 1] == b && m[4 * i + 2] == c && m[4 * i + 3] == d
    ensures Word(m, i) == ((a as bv32) << 24) | ((b as bv32) << 16) | ((c as bv32) << 8) | (d as bv32)
  {
  }

  /** One more word of the schedule. */
  lemma NextWord(m: seq<Byte>, i: nat, w: bv32)
    requires |m| == BLOCK && 16 <= i < 64
    requires Mix(Schedule(m, i - 2), Schedule(m, i - 7), Schedule(m, i - 15), Schedule(m, i - 16)) == w
    ensures Schedule(m, i) == w
  {
    hide Mix;
    ScheduleAt(m, i);
  }

  lemma FirstWord(m: seq<Byte>)
    requires AbcBlock(m)
    ensures Word(m, 0) == 0x61626380 && Word(m, 15) == 24
  {
    WordIs(m, 0, 0x61, 0x62, 0x63, 0x80);
    WordIs(m, 15, 0, 0, 0, 24);
    hide Word, AbcBlock;
  }

  lemma ZeroWord(m: seq<Byte>, i: nat)
    requires AbcBlock(m) && 1 <= i < 15
    ensures Word(m, i) == 0
  {
    WordIs(m, i, 0, 0, 0, 0);
    hide Word, AbcBlock;
  }

  lemma Words0(m: seq<Byte>)
    requires AbcBlock(m)
    ensures Schedule(m, 0) == 0x61626380 && Schedule(m, 1) == 0x00000000 && Schedule(m, 2) == 0x00000000
    ensures Schedule(m, 3) == 0x00000000 && Schedule(m, 4) == 0x00000000 && Schedule(m, 5) == 0x00000000
    ensures Schedule(m, 6) == 0x00000000 && Schedule(m, 7) == 0x00000000 && Schedule(m, 8) == 0x00000000
    ensures Schedule(m, 9) == 0x00000000 && Schedule(m, 10) == 0x00000000 && Schedule(m, 11) == 0x00000000
    ensures Schedule(m, 12) == 0x00000000 && Schedule(m, 13) == 0x00000000 && Schedule(m, 14) == 0x00000000
    ensures Schedule(m, 15) == 0x00000018
  {
    hide Word, Mix, Schedule;
    FirstWord(m);
    forall i: nat | 1 <= i < 15 ensures Schedule(m, i) == 0 {
      ScheduleAt(m, i);
      ZeroWord(m, i);
    }
    ScheduleAt(m, 0);
    ScheduleAt(m, 15);
  }

  lemma Words16(m: seq<Byte>)
    requires AbcBlock(m)
    ensures Schedule(m, 16) == 0x61626380 && Schedule(m, 17) == 0x000f0000 && Schedule(m, 18) == 0x7da86405
    ensures Schedule(m, 19) == 0x600003c6 && Schedule(m, 20) == 0x3e9d7b78 && Schedule(m, 21) == 0x0183fc00
    ensures Schedule(m, 22) == 0x12dcbfdb && Schedule(m, 23) == 0xe2e2c38e
  {
    Words0(m);
    hide Schedule, AbcBlock;
    NextWord(m, 16, 0x61626380);
    NextWord(m, 17, 0x000f0000);
    NextWord(m, 18, 0x7da86405);
    NextWord(m, 19, 0x600003c6);
    NextWord(m, 20, 0x3e9d7b78);
    NextWord(m, 21, 0x0183fc00);
    NextWord(m, 22, 0x12dcbfdb);
    NextWord(m, 23, 0xe2e2c38e);
  }

  lemma Words24(m: seq<Byte>)
    requires AbcBlock(m)
    ensures Schedule(m, 24) == 0xc8215c1a && Schedule(m, 25) == 0xb73679a2 && Schedule(m, 26) == 0xe5bc3909
    ensures Schedule(m, 27) == 0x32663c5b && Schedule(m, 28) == 0x9d209d67 && Schedule(m, 29) == 0xec8726cb
    ensures Schedule(m, 30) == 0x702138a4 && Schedule(m, 31) == 0xd3b7973b
  {
    Words0(m);
    Words16(m);
    hide Schedule, AbcBlock;
    NextWord(m, 24, 0xc8215c1a);
    NextWord(m, 25, 0xb73679a2);
    NextWord(m, 26, 0xe5bc3909);
    NextWord(m, 27, 0x32663c5b);
    NextWord(m, 28, 0x9d209d67);
    NextWord(m, 29, 0xec8726cb);
    NextWord(m, 30, 0x702138a4);
    NextWord(m, 31, 0xd3b7973b);
  }

  lemma Words32(m: seq<Byte>)
    requires AbcBlock(m)
    ensures Schedule(m, 32) == 0x93f5997f && Schedule(m, 33) == 0x3b68ba73 && Schedule(m, 34) == 0xaff4ffc1
    ensures Schedule(m, 35) == 0xf10a5c62 && Schedule(m, 36) == 0x0a8b3996 && Schedule(m, 37) == 0x72af830a
    ensures Schedule(m, 38) == 0x9409e33e && Schedule(m, 39) == 0x24641522
  {
    Words16(m);
    Words24(m);
    hide Schedule, AbcBlock;
    NextWord(m, 32, 0x93f5997f);
    NextWord(m, 33, 0x3b68ba73);
    NextWord(m, 34, 0xaff4ffc1);
    NextWord(m, 35, 0xf10a5c62);
    NextWord(m, 36, 0x0a8b3996);
    NextWord(m, 37, 0x72af830a);
    NextWord(m, 38, 0x9409e33e);
    NextWord(m, 39, 0x24641522);
  }

  lemma Words40(m: seq<Byte>)
    requires AbcBlock(m)
    ensures Schedule(m, 40) == 0x9f47bf94 && Schedule(m, 41) == 0xf0a64f5a && Schedule(m, 42) == 0x3e246a79
    ensures Schedule(m, 43) == 0x27333ba3 && Schedule(m, 44) == 0x0c4763f2 && Schedule(m, 45) == 0x840abf27
    ensures Schedule(m, 46) == 0x7a290d5d && Schedule(m, 47) == 0x065c43da
  {
    Words24(m);
    Words32(m);
    hide Schedule, AbcBlock;
    NextWord(m, 40, 0x9f47bf94);
    NextWord(m, 41, 0xf0a64f5a);
    NextWord(m, 42, 0x3e246a79);
    NextWord(m, 43, 0x27333ba3);
    NextWord(m, 44, 0x0c4763f2);
    NextWord(m, 45, 0x840abf27);
    NextWord(m, 46, 0x7a290d5d);
    NextWord(m, 47, 0x065c43da);
  }

  lemma Words48(m: seq<Byte>)
    requires AbcBlock(m)
    ensures Schedule(m, 48) == 0xfb3e89cb && Schedule(m, 49) == 0xcc7617db && Schedule(m, 50) == 0xb9e66c34
    ensures Schedule(m, 51) == 0xa9993667 && Schedule(m, 52) == 0x84badedd && Schedule(m, 53) == 0xc21462bc
    ensures Schedule(m, 54) == 0x1487472c && Schedule(m, 55) == 0xb20f7a99
  {
    Words32(m);
    Words40(m);
    hide Schedule, AbcBlock;
    NextWord(m, 48, 0xfb3e89cb);
    NextWord(m, 49, 0xcc7617db);
    NextWord(m, 50, 0xb9e66c34);
    NextWord(m, 51, 0xa9993667);
    NextWord(m, 52, 0x84badedd);
    NextWord(m, 53, 0xc21462bc);
    NextWord(m, 54, 0x1487472c);
    NextWord(m, 55, 0xb20f7a99);
  }

  lemma Words56(m: seq<Byte>)
    requires AbcBlock(m)
    ensures Schedule(m, 56) == 0xef57b9cd && Schedule(m, 57) == 0xebe6b238 && Schedule(m, 58) == 0x9fe3095e
    ensures Schedule(m, 59) == 0x78bc8d4b && Schedule(m, 60) == 0xa43fcf15 && Schedule(m, 61) == 0x668b2ff8
    ensures Schedule(m, 62) == 0xeeaba2cc && Schedule(m, 63) == 0x12b1edeb
  {
    Words40(m);
    Words48(m);
    hide Schedule, AbcBlock;
    NextWord(m, 56, 0xef57b9cd);
    NextWord(m, 57, 0xebe6b238);
    NextWord(m, 58, 0x9fe3095e);
    NextWord(m, 59, 0x78bc8d4b);
    NextWord(m, 60, 0xa43fcf15);
    NextWord(m, 61, 0x668b2ff8);
    NextWord(m, 62, 0xeeaba2cc);
    NextWord(m, 63, 0x12b1edeb);
  }

  /** One round of the trace: only a and e are new. */
  lemma Turn(m: seq<Byte>, i: nat, r: Regs, k: bv32, w: bv32, a: bv32, e: bv32) returns (s: Regs)
    requires |m| == BLOCK && i < 64 && Rounds(m, INIT, i) == r && RoundConstant(i) == k && Schedule(m, i) == w
    requires Round(r, k, w).a == a && Round(r, k, w).e == e
    ensures s == Regs(a, r.a, r.b, r.c, e, r.e, r.f, r.g) && Rounds(m, INIT, i + 1) == s
  {
    hide RoundConstant, Schedule;
    RoundsAt(m, INIT, i);
    s := Regs(a, r.a, r.b, r.c, e, r.e, r.f, r.g);
  }

  lemma Rounds0(m: seq<Byte>)
    requires AbcBlock(m)
    ensures Rounds(m, INIT, 8) ==
      Regs(0x85a07b5f, 0xe5030380, 0x2b4209f5, 0x04409a6a, 0x0c657a79, 0x9b27a401, 0x714260ad, 0x43ada245)
  {
    Words0(m);
    RoundsAt(m, INIT, 0);
    hide Schedule, Rounds, AbcBlock;
    var r := INIT;
    r := Turn(m, 0, r, 0x428a2f98, 0x61626380, 0x5d6aebcd, 0xfa2a4622);
    r := Turn(m, 1, r, 0x71374491, 0x00000000, 0x5a6ad9ad, 0x78ce7989);
    r := Turn(m, 2, r, 0xb5c0fbcf, 0x00000000, 0xc8c347a7, 0xf92939eb);
    r := Turn(m, 3, r, 0xe9b5dba5, 0x00000000, 0xd550f666, 0x24e00850);
    r := Turn(m, 4, r, 0x3956c25b, 0x00000000, 0x04409a6a, 0x43ada245);
    r := Turn(m, 5, r, 0x59f111f1, 0x00000000, 0x2b4209f5, 0x714260ad);
    r := Turn(m, 6, r, 0x923f82a4, 0x00000000, 0xe5030380, 0x9b27a401);
    r := Turn(m, 7, r, 0xab1c5ed5, 0x00000000, 0x85a07b5f, 0x0c657a79);
  }

  lemma Rounds8(m: seq<Byte>)
    requires AbcBlock(m)
    ensures Rounds(m, INIT, 16) ==
      Regs(0xb0fa238e, 0xc0645fde, 0xd932eb16, 0x87912990, 0x07590dcd, 0x0b92f20c, 0x745a48de, 0x1e578218)
  {
    Words0(m);
    Rounds0(m);
    hide Schedule, Rounds, AbcBlock;
    var r := Rounds(m, INIT, 8);
    r := Turn(m, 8, r, 0xd807aa98, 0x00000000, 0x8e04ecb9, 0x32ca2d8c);
    r := Turn(m, 9, r, 0x12835b01, 0x00000000, 0x8c87346b, 0x1cc92596);
    r := Turn(m, 10, r, 0x243185be, 0x00000000, 0x4798a3f4, 0x436b23e8);
    r := Turn(m, 11, r, 0x550c7dc3, 0x00000000, 0xf71fc5a9, 0x816fd6e9);
    r := Turn(m, 12, r, 0x72be5d74, 0x00000000, 0x87912990, 0x1e578218);
    r := Turn(m, 13, r, 0x80deb1fe, 0x00000000, 0xd932eb16, 0x745a48de);
    r := Turn(m, 14, r, 0x9bdc06a7, 0x00000000, 0xc0645fde, 0x0b92f20c);
    r := Turn(m, 15, r, 0xc19bf174, 0x00000018, 0xb0fa238e, 0x07590dcd);
  }

  lemma Rounds16(m: seq<Byte>)
    requires AbcBlock(m)
    ensures Rounds(m, INIT, 24) ==
      Regs(0xc5d53d8d, 0xa7a3623f, 0xc2606d6d, 0x9dc68b63, 0xaa47c347, 0x49f5114a, 0xe1257970, 0x8ada8930)
  {
    Words16(m);
    Rounds8(m);
    hide Schedule, Rounds, AbcBlock;
    var r := Rounds(m, INIT, 16);
    r := Turn(m, 16, r, 0xe49b69c1, 0x61626380, 0x21da9a9b, 0x8034229c);
    r := Turn(m, 17, r, 0xefbe4786, 0x000f0000, 0xc2fbd9d1, 0x846ee454);
    r := Turn(m, 18, r, 0x0fc19dc6, 0x7da86405, 0xfe777bbf, 0xcc899961);
    r := Turn(m, 19, r, 0x240ca1cc, 0x600003c6, 0xe1f20c33, 0xb0638179);
    r := Turn(m, 20, r, 0x2de92c6f, 0x3e9d7b78, 0x9dc68b63, 0x8ada8930);
    r := Turn(m, 21, r, 0x4a7484aa, 0x0183fc00, 0xc2606d6d, 0xe1257970);
    r := Turn(m, 22, r, 0x5cb0a9dc, 0x12dcbfdb, 0xa7a3623f, 0x49f5114a);
    r := Turn(m, 23, r, 0x76f988da, 0xe2e2c38e, 0xc5d53d8d, 0xaa47c347);
  }

  lemma Rounds24(m: seq<Byte>)
    requires AbcBlock(m)
    ensures Rounds(m, INIT, 32) ==
      Regs(0x73b33bf5, 0xea992a22, 0xa0060b30, 0x363482c9, 0xba591112, 0x0109ab3a, 0xade79437, 0x6112a3b7)
  {
    Words24(m);
    Rounds16(m);
    hide Schedule, Rounds, AbcBlock;
    var r := Rounds(m, INIT, 24);
    r := Turn(m, 24, r, 0x983e5152, 0xc8215c1a, 0x1c2c2838, 0x2823ef91);
    r := Turn(m, 25, r, 0xa831c66d, 0xb73679a2, 0xcde8037d, 0x14383d8e);
    r := Turn(m, 26, r, 0xb00327c8, 0xe5bc3909, 0xb62ec4bc, 0xc74c6516);
    r := Turn(m, 27, r, 0xbf597fc7, 0x32663c5b, 0x77d37528, 0xedffbff8);
    r := Turn(m, 28, r, 0xc6e00bf3, 0x9d209d67, 0x363482c9, 0x6112a3b7);
    r := Turn(m, 29, r, 0xd5a79147, 0xec8726cb, 0xa0060b30, 0xade79437);
    r := Turn(m, 30, r, 0x06ca6351, 0x702138a4, 0xea992a22, 0x0109ab3a);
    r := Turn(m, 31, r, 0x14292967, 0xd3b7973b, 0x73b33bf5, 0xba591112);
  }

  lemma Rounds32(m: seq<Byte>)
    requires AbcBlock(m)
    ensures Rounds(m, INIT, 40) ==
      Regs(0x79ea687a, 0x6dc57a8a, 0x34df1604, 0x41a65cb1, 0x1efbc0a0, 0xf0781bc8, 0xa507a53d, 0x0772a26b)
  {
    Words32(m);
    Rounds24(m);
    hide Schedule, Rounds, AbcBlock;
    var r := Rounds(m, INIT, 32);
    r := Turn(m, 32, r, 0x27b70a85, 0x93f5997f, 0x98e12507, 0x9cd9f5f6);
    r := Turn(m, 33, r, 0x2e1b2138, 0x3b68ba73, 0xfe604df5, 0x59249dd3);
    r := Turn(m, 34, r, 0x4d2c6dfc, 0xaff4ffc1, 0xa9a7738c, 0x085f3833);
    r := Turn(m, 35, r, 0x53380d13, 0xf10a5c62, 0x65a0cfe4, 0xf4b002d6);
    r := Turn(m, 36, r, 0x650a7354, 0x0a8b3996, 0x41a65cb1, 0x0772a26b);
    r := Turn(m, 37, r, 0x766a0abb, 0x72af830a, 0x34df1604, 0xa507a53d);
    r := Turn(m, 38, r, 0x81c2c92e, 0x9409e33e, 0x6dc57a8a, 0xf0781bc8);
    r := Turn(m, 39, r, 0x92722c85, 0x24641522, 0x79ea687a, 0x1efbc0a0);
  }

  lemma Rounds40(m: seq<Byte>)
    requires AbcBlock(m)
    ensures Rounds(m, INIT, 48) ==
      Regs(0x4172328d, 0xa14c14b0, 0x72ab4b91, 0x26628815, 0xfecf0bc6, 0xd57b94a9, 0xb7755da1, 0xa80f11f0)
  {
    Words40(m);
    Rounds32(m);
    hide Schedule, Rounds, AbcBlock;
    var r := Rounds(m, INIT, 40);
    r := Turn(m, 40, r, 0xa2bfe8a1, 0x9f47bf94, 0xd6670766, 0x26352d63);
    r := Turn(m, 41, r, 0xa81a664b, 0xf0a64f5a, 0xdf46652f, 0x838b2711);
    r := Turn(m, 42, r, 0xc24b8b70, 0x3e246a79, 0x17aa0dfe, 0xdecd4715);
    r := Turn(m, 43, r, 0xc76c51a3, 0x27333ba3, 0x9d4baf93, 0xfda24c2e);
    r := Turn(m, 44, r, 0xd192e819, 0x0c4763f2, 0x26628815, 0xa80f11f0);
    r := Turn(m, 45, r, 0xd6990624, 0x840abf27, 0x72ab4b91, 0xb7755da1);
    r := Turn(m, 46, r, 0xf40e3585, 0x7a290d5d, 0xa14c14b0, 0xd57b94a9);
    r := Turn(m, 47, r, 0x106aa070, 0x065c43da, 0x4172328d, 0xfecf0bc6);
  }

  lemma Rounds48(m: seq<Byte>)
    requires AbcBlock(m)
    ensures Rounds(m, INIT, 56) ==
      Regs(0x38cc9913, 0x3ec45cdb, 0xf5702fdb, 0x101fd28f, 0x54cb266b, 0xe50e1b4f, 0x9f4787c3, 0x529e7d00)
  {
    Words48(m);
    Rounds40(m);
    hide Schedule, Rounds, AbcBlock;
    var r := Rounds(m, INIT, 48);
    r := Turn(m, 48, r, 0x19a4c116, 0xfb3e89cb, 0x05757ceb, 0xbd714038);
    r := Turn(m, 49, r, 0x1e376c08, 0xcc7617db, 0xf11bfaa8, 0x6e5c390c);
    r := Turn(m, 50, r, 0x2748774c, 0xb9e66c34, 0x7a0508a1, 0x52f1ccf7);
    r := Turn(m, 51, r, 0x34b0bcb5, 0xa9993667, 0x886e7a22, 0x49231c1e);
    r := Turn(m, 52, r, 0x391c0cb3, 0x84badedd, 0x101fd28f, 0x529e7d00);
    r := Turn(m, 53, r, 0x4ed8aa4a, 0xc21462bc, 0xf5702fdb, 0x9f4787c3);
    r := Turn(m, 54, r, 0x5b9cca4f, 0x1487472c, 0x3ec45cdb, 0xe50e1b4f);
    r := Turn(m, 55, r, 0x682e6ff3, 0xb20f7a99, 0x38cc9913, 0x54cb266b);
  }

  lemma Rounds56(m: seq<Byte>)
    requires AbcBlock(m)
    ensures Rounds(m, INIT, 64) ==
      Regs(0x506e3058, 0xd39a2165, 0x04d24d6c, 0xb85e2ce9, 0x5ef50f24, 0xfb121210, 0x948d25b6, 0x961f4894)
  {
    Words56(m);
    Rounds48(m);
    hide Schedule, Rounds, AbcBlock;
    var r := Rounds(m, INIT, 56);
    r := Turn(m, 56, r, 0x748f82ee, 0xef57b9cd, 0xfcd1887b, 0x9b5e906c);
    r := Turn(m, 57, r, 0x78a5636f, 0xebe6b238, 0xc062d46f, 0x7e44008e);
    r := Turn(m, 58, r, 0x84c87814, 0x9fe3095e, 0xffb70472, 0x6d83bfc6);
    r := Turn(m, 59, r, 0x8cc70208, 0x78bc8d4b, 0xb6ae8fff, 0xb21bad3d);
    r := Turn(m, 60, r, 0x90befffa, 0xa43fcf15, 0xb85e2ce9, 0x961f4894);
    r := Turn(m, 61, r, 0xa4506ceb, 0x668b2ff8, 0x04d24d6c, 0x948d25b6);
    r := Turn(m, 62, r, 0xbef9a3f7, 0xeeaba2cc, 0xd39a2165, 0xfb121210);
    r := Turn(m, 63, r, 0xc67178f2, 0x12b1edeb, 0x506e3058, 0x5ef50f24);
  }

  /** The digest of "abc". */
  lemma AbcDigest()
    ensures Digest(ABC) ==
      Regs(0xba7816bf, 0x8f01cfea, 0x414140de, 0x5dae2223, 0xb00361a3, 0x96177a9c, 0xb410ff61, 0xf20015ad)
  {
    var m := ABC + Padding(3);
    AbcPadded();
    Rounds56(m);
    hide Rounds, AbcBlock, Padding, Absorb;
    AbsorbOne(INIT, m);
  }

  lemma BytesAre(x: bv32, n: nat, a: Byte, b: Byte, c: Byte, d: Byte)
    requires x as int == n == ((a * 256 + b) * 256 + c) * 256 + d
    ensures WordBytes(x) == [a, b, c, d]
  {
    assert WordBytes(x) == BigEndian(n, 4);
    FourBytes(n, a, b, c, d);
  }

  lemma LastByte(n: nat, k: nat, q: nat, d: Byte)
    requires n == q * 256 + d && k > 0
    ensures BigEndian(n, k) == BigEndian(q, k - 1) + [d]
  {
    DivUnique(n, q, d, 256);
  }

  lemma NoBytes(n: nat)
    ensures BigEndian(n, 0) == []
  {
  }

  lemma FourBytes(n: nat, a: Byte, b: Byte, c: Byte, d: Byte)
    requires n == ((a * 256 + b) * 256 + c) * 256 + d
    ensures BigEndian(n, 4) == [a, b, c, d]
  {
    var n3 := (a * 256 + b) * 256 + c;
    var n2 := a * 256 + b;
    LastByte(n, 4, n3, d);
    LastByte(n3, 3, n2, c);
    LastByte(n2, 2, a, b);
    LastByte(a, 1, 0, a);
    hide BigEndian;
    NoBytes(0);
  }

  /** And in bytes, as sha256_finish hands it out. */
  lemma AbcBytes()
    ensures DigestBytes(Digest(ABC)) == [
      0xba, 0x78, 0x16, 0xbf, 0x8f, 0x01, 0xcf, 0xea, 0x41, 0x41, 0x40, 0xde, 0x5d, 0xae, 0x22, 0x23,
      0xb0, 0x03, 0x61, 0xa3, 0x96, 0x17, 0x7a, 0x9c, 0xb4, 0x10, 0xff, 0x61, 0xf2, 0x00, 0x15, 0xad]
  {
    AbcDigest();
    FrontBytes();
    BackBytes();
    hide Digest, WordBytes;
  }

  lemma FrontBytes()
    ensures WordBytes(0xba7816bf) == [0xba, 0x78, 0x16, 0xbf]
    ensures WordBytes(0x8f01cfea) == [0x8f, 0x01, 0xcf, 0xea]
    ensures WordBytes(0x414140de) == [0x41, 0x41, 0x40, 0xde]
    ensures WordBytes(0x5dae2223) == [0x5d, 0xae, 0x22, 0x23]
  {
    hide WordBytes;
    BytesAre(0xba7816bf, 0xba7816bf, 0xba, 0x78, 0x16, 0xbf);
    BytesAre(0x8f01cfea, 0x8f01cfea, 0x8f, 0x01, 0xcf, 0xea);
    BytesAre(0x414140de, 0x414140de, 0x41, 0x41, 0x40, 0xde);
    BytesAre(0x5dae2223, 0x5dae2223, 0x5d, 0xae, 0x22, 0x23);
  }

  lemma BackBytes()
    ensures WordBytes(0xb00361a3) == [0xb0, 0x03, 0x61, 0xa3]
    ensures WordBytes(0x96177a9c) == [0x96, 0x17, 0x7a, 0x9c]
    ensures WordBytes(0xb410ff61) == [0xb4, 0x10, 0xff, 0x61]
    ensures WordBytes(0xf20015ad) == [0xf2, 0x00, 0x15, 0xad]
  {
    hide WordBytes;
    BytesAre(0xb00361a3, 0xb00361a3, 0xb0, 0x03, 0x61, 0xa3);
    BytesAre(0x96177a9c, 0x96177a9c, 0x96, 0x17, 0x7a, 0x9c);
    BytesAre(0xb410ff61, 0xb410ff61, 0xb4, 0x10, 0xff, 0x61);
    BytesAre(0xf20015ad, 0xf20015ad, 0xf2, 0x00, 0x15, 0xad);
  }
}
