/**
 * The constants of SHA-256, as FIPS 180-4 derives them from prime numbers, and
 * the digest of the message "abc", which depends on all of them.
 */
module Sha256Constants {
  import Rationals
  import opened Sha256

  // ---------------------------------------------------------- prime numbers

  ghost predicate IsPrime(n: nat) {
    n >= 2 && forall d: nat {:trigger n % d} :: 2 <= d < n ==> n % d != 0
  }

  /** `q` is the least prime number above `p`. */
  ghost predicate NextPrime(p: nat, q: nat) {
    p < q && IsPrime(q) && forall n: nat :: p < n < q ==> !IsPrime(n)
  }

  /** Trial division by the prime numbers below 18, which decides below 18 * 18. */
  predicate IsNotDivided(n: nat) {
    n >= 2 &&
    (n == 2 || n % 2 != 0) && (n == 3 || n % 3 != 0) && (n == 5 || n % 5 != 0) && (n == 7 || n % 7 != 0) &&
    (n == 11 || n % 11 != 0) && (n == 13 || n % 13 != 0) && (n == 17 || n % 17 != 0)
  }

  lemma Divided(n: nat, p: nat)
    requires p == 2 || p == 3 || p == 5 || p == 7 || p == 11 || p == 13 || p == 17
    requires n > p && n % p == 0
    ensures !IsNotDivided(n)
  {
  }

  lemma MultipleIsDivided(n: nat, p: nat, m: nat)
    requires p == 2 || p == 3 || p == 5 || p == 7 || p == 11 || p == 13 || p == 17
    requires n == p * m && m >= 2
    ensures !IsNotDivided(n)
  {
    hide IsNotDivided;
    Rationals.DivisionUnique(n, p, m, 0);
    Divided(n, p);
  }

  lemma SmallDivisorShows(n: nat, d: nat, e: nat)
    requires 2 <= d < 18 && d <= e && n == d * e
    ensures !IsNotDivided(n)
  {
    hide IsNotDivided;
    if d % 2 == 0 {
      assert d * e == 2 * (d / 2 * e);
      MultipleIsDivided(n, 2, d / 2 * e);
    } else if d % 3 == 0 {
      assert d * e == 3 * (d / 3 * e);
      MultipleIsDivided(n, 3, d / 3 * e);
    } else {
      MultipleIsDivided(n, d, e);
    }
  }

  lemma LargeProduct(d: nat, e: nat)
    requires 18 <= d <= e
    ensures d * e >= 324
  {
    assert (d - 18) * e >= 0;
    assert d * e == (d - 18) * e + 18 * e;
  }

  lemma DivisorShows(n: nat, d: nat)
    requires 2 <= d < n && n % d == 0 && n < 324
    ensures !IsNotDivided(n)
  {
    var e := n / d;
    assert n == d * e && e >= 2;
    var small, large := if d <= e then d else e, if d <= e then e else d;
    if small >= 18 {
      LargeProduct(small, large);
    }
    SmallDivisorShows(n, small, large);
  }

  lemma TrialDivisionDecides(n: nat)
    requires n < 324
    ensures IsPrime(n) <==> IsNotDivided(n)
  {
    if IsNotDivided(n) {
      forall d: nat {:trigger n % d} | 2 <= d < n
        ensures n % d != 0
      {
        if n % d == 0 {
          DivisorShows(n, d);
        }
      }
    }
  }

  predicate AllDivided(p: nat, q: nat) {
    p + 1 < q ==> !IsNotDivided(q - 1) && AllDivided(p, q - 1)
  }

  lemma {:induction false} AllDividedMeaning(p: nat, q: nat, n: nat)
    requires AllDivided(p, q) && p < n < q
    ensures !IsNotDivided(n)
  {
    if n < q - 1 {
      AllDividedMeaning(p, q - 1, n);
    }
  }

  lemma NextNotDivided(p: nat, q: nat)
    requires p < q < 324 && IsNotDivided(q) && AllDivided(p, q)
    ensures NextPrime(p, q)
  {
    hide IsPrime, IsNotDivided;
    TrialDivisionDecides(q);
    forall n: nat | p < n < q
      ensures !IsPrime(n)
    {
      AllDividedMeaning(p, q, n);
      TrialDivisionDecides(n);
    }
  }

  /** `p` is the prime number that has `i` prime numbers below it. */
  ghost predicate IsNthPrime(i: nat, p: nat) {
    if i == 0 then p == 2 else exists q :: IsNthPrime(i - 1, q) && NextPrime(q, p)
  }

  lemma FirstPrime()
    ensures IsNthPrime(0, 2)
  {
  }

  lemma NthPrime(i: nat, p: nat, q: nat)
    requires IsNthPrime(i, p)
    requires p < q < 324 && IsNotDivided(q) && AllDivided(p, q)
    ensures IsNthPrime(i + 1, q)
  {
    hide IsNotDivided, AllDivided;
    NextNotDivided(p, q);
    hide NextPrime;
  }

  // --------------------------------------------------------------- constants

  ghost predicate IsCubeRoot(c: nat, p: nat) {
    c * c * c <= p * 0x1_0000_0000_0000_0000_0000_0000 < (c + 1) * (c + 1) * (c + 1)
  }

  ghost predicate IsSquareRoot(c: nat, p: nat) {
    c * c <= p * 0x1_0000_0000_0000_0000 < (c + 1) * (c + 1)
  }

  /** The first 32 bits of the fractional part of the cube root of prime number `i`. */
  ghost predicate IsCubeConstant(i: nat, k: Word) {
    exists p: nat, c: nat :: IsNthPrime(i, p) && IsCubeRoot(c, p) && k as nat == c % 0x1_0000_0000
  }

  lemma CubeConstant(i: nat, p: nat, c: nat, k: Word)
    requires IsNthPrime(i, p) && IsCubeRoot(c, p) && k as nat == c % 0x1_0000_0000
    ensures IsCubeConstant(i, k)
  {
    hide IsNthPrime, IsCubeRoot;
  }

  /** The same of the square root. */
  ghost predicate IsSquareConstant(i: nat, k: Word) {
    exists p: nat, c: nat :: IsNthPrime(i, p) && IsSquareRoot(c, p) && k as nat == c % 0x1_0000_0000
  }

  lemma SquareConstant(i: nat, p: nat, c: nat, k: Word)
    requires IsNthPrime(i, p) && IsSquareRoot(c, p) && k as nat == c % 0x1_0000_0000
    ensures IsSquareConstant(i, k)
  {
    hide IsNthPrime, IsSquareRoot;
  }

  lemma Primes0()
    ensures IsNthPrime(0, 2) && IsNthPrime(1, 3) && IsNthPrime(2, 5) && IsNthPrime(3, 7)
  {
    hide IsPrime, NextPrime, IsNthPrime;
    FirstPrime();
    NthPrime(0, 2, 3);
    NthPrime(1, 3, 5);
    NthPrime(2, 5, 7);
  }

  lemma Primes4()
    ensures IsNthPrime(4, 11) && IsNthPrime(5, 13) && IsNthPrime(6, 17) && IsNthPrime(7, 19)
  {
    hide IsPrime, NextPrime, IsNthPrime;
    Primes0();
    NthPrime(3, 7, 11);
    NthPrime(4, 11, 13);
    NthPrime(5, 13, 17);
    NthPrime(6, 17, 19);
  }

  lemma Primes8()
    ensures IsNthPrime(8, 23) && IsNthPrime(9, 29) && IsNthPrime(10, 31) && IsNthPrime(11, 37)
  {
    hide IsPrime, NextPrime, IsNthPrime;
    Primes4();
    NthPrime(7, 19, 23);
    NthPrime(8, 23, 29);
    NthPrime(9, 29, 31);
    NthPrime(10, 31, 37);
  }

  lemma Primes12()
    ensures IsNthPrime(12, 41) && IsNthPrime(13, 43) && IsNthPrime(14, 47) && IsNthPrime(15, 53)
  {
    hide IsPrime, NextPrime, IsNthPrime;
    Primes8();
    NthPrime(11, 37, 41);
    NthPrime(12, 41, 43);
    NthPrime(13, 43, 47);
    NthPrime(14, 47, 53);
  }

  lemma Primes16()
    ensures IsNthPrime(16, 59) && IsNthPrime(17, 61) && IsNthPrime(18, 67) && IsNthPrime(19, 71)
  {
    hide IsPrime, NextPrime, IsNthPrime;
    Primes12();
    NthPrime(15, 53, 59);
    NthPrime(16, 59, 61);
    NthPrime(17, 61, 67);
    NthPrime(18, 67, 71);
  }

  lemma Primes20()
    ensures IsNthPrime(20, 73) && IsNthPrime(21, 79) && IsNthPrime(22, 83) && IsNthPrime(23, 89)
  {
    hide IsPrime, NextPrime, IsNthPrime;
    Primes16();
    NthPrime(19, 71, 73);
    NthPrime(20, 73, 79);
    NthPrime(21, 79, 83);
    NthPrime(22, 83, 89);
  }

  lemma Primes24()
    ensures IsNthPrime(24, 97) && IsNthPrime(25, 101) && IsNthPrime(26, 103) && IsNthPrime(27, 107)
  {
    hide IsPrime, NextPrime, IsNthPrime;
    Primes20();
    NthPrime(23, 89, 97);
    NthPrime(24, 97, 101);
    NthPrime(25, 101, 103);
    NthPrime(26, 103, 107);
  }

  lemma Primes28()
    ensures IsNthPrime(28, 109) && IsNthPrime(29, 113) && IsNthPrime(30, 127) && IsNthPrime(31, 131)
  {
    hide IsPrime, NextPrime, IsNthPrime;
    Primes24();
    NthPrime(27, 107, 109);
    NthPrime(28, 109, 113);
    NthPrime(29, 113, 127);
    NthPrime(30, 127, 131);
  }

  lemma Primes32()
    ensures IsNthPrime(32, 137) && IsNthPrime(33, 139) && IsNthPrime(34, 149) && IsNthPrime(35, 151)
  {
    hide IsPrime, NextPrime, IsNthPrime;
    Primes28();
    NthPrime(31, 131, 137);
    NthPrime(32, 137, 139);
    NthPrime(33, 139, 149);
    NthPrime(34, 149, 151);
  }

  lemma Primes36()
    ensures IsNthPrime(36, 157) && IsNthPrime(37, 163) && IsNthPrime(38, 167) && IsNthPrime(39, 173)
  {
    hide IsPrime, NextPrime, IsNthPrime;
    Primes32();
    NthPrime(35, 151, 157);
    NthPrime(36, 157, 163);
    NthPrime(37, 163, 167);
    NthPrime(38, 167, 173);
  }

  lemma Primes40()
    ensures IsNthPrime(40, 179) && IsNthPrime(41, 181) && IsNthPrime(42, 191) && IsNthPrime(43, 193)
  {
    hide IsPrime, NextPrime, IsNthPrime;
    Primes36();
    NthPrime(39, 173, 179);
    NthPrime(40, 179, 181);
    NthPrime(41, 181, 191);
    NthPrime(42, 191, 193);
  }

  lemma Primes44()
    ensures IsNthPrime(44, 197) && IsNthPrime(45, 199) && IsNthPrime(46, 211) && IsNthPrime(47, 223)
  {
    hide IsPrime, NextPrime, IsNthPrime;
    Primes40();
    NthPrime(43, 193, 197);
    NthPrime(44, 197, 199);
    NthPrime(45, 199, 211);
    NthPrime(46, 211, 223);
  }

  lemma Primes48()
    ensures IsNthPrime(48, 227) && IsNthPrime(49, 229) && IsNthPrime(50, 233) && IsNthPrime(51, 239)
  {
    hide IsPrime, NextPrime, IsNthPrime;
    Primes44();
    NthPrime(47, 223, 227);
    NthPrime(48, 227, 229);
    NthPrime(49, 229, 233);
    NthPrime(50, 233, 239);
  }

  lemma Primes52()
    ensures IsNthPrime(52, 241) && IsNthPrime(53, 251) && IsNthPrime(54, 257) && IsNthPrime(55, 263)
  {
    hide IsPrime, NextPrime, IsNthPrime;
    Primes48();
    NthPrime(51, 239, 241);
    NthPrime(52, 241, 251);
    NthPrime(53, 251, 257);
    NthPrime(54, 257, 263);
  }

  lemma Primes56()
    ensures IsNthPrime(56, 269) && IsNthPrime(57, 271) && IsNthPrime(58, 277) && IsNthPrime(59, 281)
  {
    hide IsPrime, NextPrime, IsNthPrime;
    Primes52();
    NthPrime(55, 263, 269);
    NthPrime(56, 269, 271);
    NthPrime(57, 271, 277);
    NthPrime(58, 277, 281);
  }

  lemma Primes60()
    ensures IsNthPrime(60, 283) && IsNthPrime(61, 293) && IsNthPrime(62, 307) && IsNthPrime(63, 311)
  {
    hide IsPrime, NextPrime, IsNthPrime;
    Primes56();
    NthPrime(59, 281, 283);
    NthPrime(60, 283, 293);
    NthPrime(61, 293, 307);
    NthPrime(62, 307, 311);
  }

  lemma Table0()
    ensures K[0] == 0x428a2f98 && K[1] == 0x71374491 && K[2] == 0xb5c0fbcf && K[3] == 0xe9b5dba5 &&
            K[4] == 0x3956c25b && K[5] == 0x59f111f1 && K[6] == 0x923f82a4 && K[7] == 0xab1c5ed5
  {
  }

  lemma CubeConstants0(i: nat)
    requires 0 <= i < 8
    ensures IsCubeConstant(i, K[i])
  {
    hide IsNthPrime, IsCubeConstant;
    Primes0();
    Primes4();
    Table0();
    hide K;
    CubeConstant(0, 2, 0x1428a2f98, 0x428a2f98);
    CubeConstant(1, 3, 0x171374491, 0x71374491);
    CubeConstant(2, 5, 0x1b5c0fbcf, 0xb5c0fbcf);
    CubeConstant(3, 7, 0x1e9b5dba5, 0xe9b5dba5);
    CubeConstant(4, 11, 0x23956c25b, 0x3956c25b);
    CubeConstant(5, 13, 0x259f111f1, 0x59f111f1);
    CubeConstant(6, 17, 0x2923f82a4, 0x923f82a4);
    CubeConstant(7, 19, 0x2ab1c5ed5, 0xab1c5ed5);
    assert i == 0 || i == 1 || i == 2 || i == 3 || i == 4 || i == 5 || i == 6 || i == 7;
  }

  lemma Table8()
    ensures K[8] == 0xd807aa98 && K[9] == 0x12835b01 && K[10] == 0x243185be && K[11] == 0x550c7dc3 &&
            K[12] == 0x72be5d74 && K[13] == 0x80deb1fe && K[14] == 0x9bdc06a7 && K[15] == 0xc19bf174
  {
  }

  lemma CubeConstants8(i: nat)
    requires 8 <= i < 16
    ensures IsCubeConstant(i, K[i])
  {
    hide IsNthPrime, IsCubeConstant;
    Primes8();
    Primes12();
    Table8();
    hide K;
    CubeConstant(8, 23, 0x2d807aa98, 0xd807aa98);
    CubeConstant(9, 29, 0x312835b01, 0x12835b01);
    CubeConstant(10, 31, 0x3243185be, 0x243185be);
    CubeConstant(11, 37, 0x3550c7dc3, 0x550c7dc3);
    CubeConstant(12, 41, 0x372be5d74, 0x72be5d74);
    CubeConstant(13, 43, 0x380deb1fe, 0x80deb1fe);
    CubeConstant(14, 47, 0x39bdc06a7, 0x9bdc06a7);
    CubeConstant(15, 53, 0x3c19bf174, 0xc19bf174);
    assert i == 8 || i == 9 || i == 10 || i == 11 || i == 12 || i == 13 || i == 14 || i == 15;
  }

  lemma Table16()
    ensures K[16] == 0xe49b69c1 && K[17] == 0xefbe4786 && K[18] == 0x0fc19dc6 && K[19] == 0x240ca1cc &&
            K[20] == 0x2de92c6f && K[21] == 0x4a7484aa && K[22] == 0x5cb0a9dc && K[23] == 0x76f988da
  {
  }

  lemma CubeConstants16(i: nat)
    requires 16 <= i < 24
    ensures IsCubeConstant(i, K[i])
  {
    hide IsNthPrime, IsCubeConstant;
    Primes16();
    Primes20();
    Table16();
    hide K;
    CubeConstant(16, 59, 0x3e49b69c1, 0xe49b69c1);
    CubeConstant(17, 61, 0x3efbe4786, 0xefbe4786);
    CubeConstant(18, 67, 0x40fc19dc6, 0x0fc19dc6);
    CubeConstant(19, 71, 0x4240ca1cc, 0x240ca1cc);
    CubeConstant(20, 73, 0x42de92c6f, 0x2de92c6f);
    CubeConstant(21, 79, 0x44a7484aa, 0x4a7484aa);
    CubeConstant(22, 83, 0x45cb0a9dc, 0x5cb0a9dc);
    CubeConstant(23, 89, 0x476f988da, 0x76f988da);
    assert i == 16 || i == 17 || i == 18 || i == 19 || i == 20 || i == 21 || i == 22 || i == 23;
  }

  lemma Table24()
    ensures K[24] == 0x983e5152 && K[25] == 0xa831c66d && K[26] == 0xb00327c8 && K[27] == 0xbf597fc7 &&
            K[28] == 0xc6e00bf3 && K[29] == 0xd5a79147 && K[30] == 0x06ca6351 && K[31] == 0x14292967
  {
  }

  lemma CubeConstants24(i: nat)
    requires 24 <= i < 32
    ensures IsCubeConstant(i, K[i])
  {
    hide IsNthPrime, IsCubeConstant;
    Primes24();
    Primes28();
    Table24();
    hide K;
    CubeConstant(24, 97, 0x4983e5152, 0x983e5152);
    CubeConstant(25, 101, 0x4a831c66d, 0xa831c66d);
    CubeConstant(26, 103, 0x4b00327c8, 0xb00327c8);
    CubeConstant(27, 107, 0x4bf597fc7, 0xbf597fc7);
    CubeConstant(28, 109, 0x4c6e00bf3, 0xc6e00bf3);
    CubeConstant(29, 113, 0x4d5a79147, 0xd5a79147);
    CubeConstant(30, 127, 0x506ca6351, 0x06ca6351);
    CubeConstant(31, 131, 0x514292967, 0x14292967);
    assert i == 24 || i == 25 || i == 26 || i == 27 || i == 28 || i == 29 || i == 30 || i == 31;
  }

  lemma Table32()
    ensures K[32] == 0x27b70a85 && K[33] == 0x2e1b2138 && K[34] == 0x4d2c6dfc && K[35] == 0x53380d13 &&
            K[36] == 0x650a7354 && K[37] == 0x766a0abb && K[38] == 0x81c2c92e && K[39] == 0x92722c85
  {
  }

  lemma CubeConstants32(i: nat)
    requires 32 <= i < 40
    ensures IsCubeConstant(i, K[i])
  {
    hide IsNthPrime, IsCubeConstant;
    Primes32();
    Primes36();
    Table32();
    hide K;
    CubeConstant(32, 137, 0x527b70a85, 0x27b70a85);
    CubeConstant(33, 139, 0x52e1b2138, 0x2e1b2138);
    CubeConstant(34, 149, 0x54d2c6dfc, 0x4d2c6dfc);
    CubeConstant(35, 151, 0x553380d13, 0x53380d13);
    CubeConstant(36, 157, 0x5650a7354, 0x650a7354);
    CubeConstant(37, 163, 0x5766a0abb, 0x766a0abb);
    CubeConstant(38, 167, 0x581c2c92e, 0x81c2c92e);
    CubeConstant(39, 173, 0x592722c85, 0x92722c85);
    assert i == 32 || i == 33 || i == 34 || i == 35 || i == 36 || i == 37 || i == 38 || i == 39;
  }

  lemma Table40()
    ensures K[40] == 0xa2bfe8a1 && K[41] == 0xa81a664b && K[42] == 0xc24b8b70 && K[43] == 0xc76c51a3 &&
            K[44] == 0xd192e819 && K[45] == 0xd6990624 && K[46] == 0xf40e3585 && K[47] == 0x106aa070
  {
  }

  lemma CubeConstants40(i: nat)
    requires 40 <= i < 48
    ensures IsCubeConstant(i, K[i])
  {
    hide IsNthPrime, IsCubeConstant;
    Primes40();
    Primes44();
    Table40();
    hide K;
    CubeConstant(40, 179, 0x5a2bfe8a1, 0xa2bfe8a1);
    CubeConstant(41, 181, 0x5a81a664b, 0xa81a664b);
    CubeConstant(42, 191, 0x5c24b8b70, 0xc24b8b70);
    CubeConstant(43, 193, 0x5c76c51a3, 0xc76c51a3);
    CubeConstant(44, 197, 0x5d192e819, 0xd192e819);
    CubeConstant(45, 199, 0x5d6990624, 0xd6990624);
    CubeConstant(46, 211, 0x5f40e3585, 0xf40e3585);
    CubeConstant(47, 223, 0x6106aa070, 0x106aa070);
    assert i == 40 || i == 41 || i == 42 || i == 43 || i == 44 || i == 45 || i == 46 || i == 47;
  }

  lemma Table48()
    ensures K[48] == 0x19a4c116 && K[49] == 0x1e376c08 && K[50] == 0x2748774c && K[51] == 0x34b0bcb5 &&
            K[52] == 0x391c0cb3 && K[53] == 0x4ed8aa4a && K[54] == 0x5b9cca4f && K[55] == 0x682e6ff3
  {
  }

  lemma CubeConstants48(i: nat)
    requires 48 <= i < 56
    ensures IsCubeConstant(i, K[i])
  {
    hide IsNthPrime, IsCubeConstant;
    Primes48();
    Primes52();
    Table48();
    hide K;
    CubeConstant(48, 227, 0x619a4c116, 0x19a4c116);
    CubeConstant(49, 229, 0x61e376c08, 0x1e376c08);
    CubeConstant(50, 233, 0x62748774c, 0x2748774c);
    CubeConstant(51, 239, 0x634b0bcb5, 0x34b0bcb5);
    CubeConstant(52, 241, 0x6391c0cb3, 0x391c0cb3);
    CubeConstant(53, 251, 0x64ed8aa4a, 0x4ed8aa4a);
    CubeConstant(54, 257, 0x65b9cca4f, 0x5b9cca4f);
    CubeConstant(55, 263, 0x6682e6ff3, 0x682e6ff3);
    assert i == 48 || i == 49 || i == 50 || i == 51 || i == 52 || i == 53 || i == 54 || i == 55;
  }

  lemma Table56()
    ensures K[56] == 0x748f82ee && K[57] == 0x78a5636f && K[58] == 0x84c87814 && K[59] == 0x8cc70208 &&
            K[60] == 0x90befffa && K[61] == 0xa4506ceb && K[62] == 0xbef9a3f7 && K[63] == 0xc67178f2
  {
  }

  lemma CubeConstants56(i: nat)
    requires 56 <= i < 64
    ensures IsCubeConstant(i, K[i])
  {
    hide IsNthPrime, IsCubeConstant;
    Primes56();
    Primes60();
    Table56();
    hide K;
    CubeConstant(56, 269, 0x6748f82ee, 0x748f82ee);
    CubeConstant(57, 271, 0x678a5636f, 0x78a5636f);
    CubeConstant(58, 277, 0x684c87814, 0x84c87814);
    CubeConstant(59, 281, 0x68cc70208, 0x8cc70208);
    CubeConstant(60, 283, 0x690befffa, 0x90befffa);
    CubeConstant(61, 293, 0x6a4506ceb, 0xa4506ceb);
    CubeConstant(62, 307, 0x6bef9a3f7, 0xbef9a3f7);
    CubeConstant(63, 311, 0x6c67178f2, 0xc67178f2);
    assert i == 56 || i == 57 || i == 58 || i == 59 || i == 60 || i == 61 || i == 62 || i == 63;
  }

  /** The table holds these constants of the first 64 prime numbers, in order. */
  lemma ConstantsAreCubeRoots(i: nat)
    requires i < 64
    ensures |K| == 64 && IsCubeConstant(i, K[i])
  {
    hide IsCubeConstant;
    if i < 8 {
      CubeConstants0(i);
    } else if i < 16 {
      CubeConstants8(i);
    } else if i < 24 {
      CubeConstants16(i);
    } else if i < 32 {
      CubeConstants24(i);
    } else if i < 40 {
      CubeConstants32(i);
    } else if i < 48 {
      CubeConstants40(i);
    } else if i < 56 {
      CubeConstants48(i);
    } else {
      CubeConstants56(i);
    }
  }

  lemma InitialTable()
    ensures INITIAL[0] == 0x6a09e667 && INITIAL[1] == 0xbb67ae85 && INITIAL[2] == 0x3c6ef372
            && INITIAL[3] == 0xa54ff53a &&
            INITIAL[4] == 0x510e527f && INITIAL[5] == 0x9b05688c && INITIAL[6] == 0x1f83d9ab && INITIAL[7] == 0x5be0cd19
  {
  }

  /** The initial hash value holds those of the square roots of the first eight. */
  lemma InitialIsSquareRoots(i: nat)
    requires i < 8
    ensures |INITIAL| == 8 && IsSquareConstant(i, INITIAL[i])
  {
    hide IsNthPrime, IsSquareConstant;
    Primes0();
    Primes4();
    InitialTable();
    SquareConstant(0, 2, 0x16a09e667, 0x6a09e667);
    SquareConstant(1, 3, 0x1bb67ae85, 0xbb67ae85);
    SquareConstant(2, 5, 0x23c6ef372, 0x3c6ef372);
    SquareConstant(3, 7, 0x2a54ff53a, 0xa54ff53a);
    SquareConstant(4, 11, 0x3510e527f, 0x510e527f);
    SquareConstant(5, 13, 0x39b05688c, 0x9b05688c);
    SquareConstant(6, 17, 0x41f83d9ab, 0x1f83d9ab);
    SquareConstant(7, 19, 0x45be0cd19, 0x5be0cd19);
    assert i == 0 || i == 1 || i == 2 || i == 3 || i == 4 || i == 5 || i == 6 || i == 7;
  }

  // -------------------------------------------------------- padded lengths

  function FromBigEndian(bytes: seq<Octet>): nat {
    if bytes == [] then 0 else 256 * FromBigEndian(bytes[..|bytes| - 1]) + bytes[|bytes| - 1] as nat
  }

  lemma LastByte(bytes: seq<Octet>, last: Octet)
    ensures FromBigEndian(bytes + [last]) == 256 * FromBigEndian(bytes) + last as nat
  {
    var all := bytes + [last];
    assert all[..|all| - 1] == bytes;
  }

  lemma OctetValue(x: nat)
    requires x < 256
    ensures (x as Octet) as nat == x
  {
    assert x % 256 == x;
  }

  /** A length that fits is not changed by being written into the padding. */
  lemma {:induction false} BigEndianReadBack(x: nat, n: nat)
    requires x < Rationals.Pow(256, n)
    ensures FromBigEndian(BigEndian(x, n)) == x
  {
    if n > 0 {
      BigEndianReadBack(x / 256, n - 1);
      hide FromBigEndian;
      OctetValue(x % 256);
      LastByte(BigEndian(x / 256, n - 1), (x % 256) as Octet);
    }
  }

  // ---------------------------------------------------- the digest of "abc"

  const ABC: seq<Octet> := [0x61, 0x62, 0x63]

  /** The message, the bit 1, and its length of 24 bits. */
  const ABC_BLOCK: Block := ABC + [0x80] + Zeros(59) + [24]

  predicate WordIs(t: nat, w: Word) {
    t < 64 && W(ABC_BLOCK, t) == w
  }

  predicate StateIs(t: nat, s: State) {
    t <= 64 && Rounds(INITIAL_STATE, ABC_BLOCK, t) == s
  }

  lemma LengthBytes()
    ensures BigEndian(24, 8) == Zeros(7) + [24]
  {
    assert BigEndian(0, 0) == [];
    assert BigEndian(0, 1) == [0];
    assert BigEndian(0, 2) == [0, 0];
    assert BigEndian(0, 3) == [0, 0, 0];
    assert BigEndian(0, 4) == [0, 0, 0, 0];
    assert BigEndian(0, 5) == [0, 0, 0, 0, 0];
    assert BigEndian(0, 6) == [0, 0, 0, 0, 0, 0];
    assert BigEndian(0, 7) == [0, 0, 0, 0, 0, 0, 0];
  }

  lemma AbcPadded()
    ensures Padded(ABC) == ABC_BLOCK
  {
    LengthBytes();
    hide BigEndian;
    assert PaddingZeros(3) == 52;
    assert Zeros(52) + Zeros(7) == Zeros(59);
  }

  lemma FirstWords()
    ensures WordIs(0, 0x61626380) && WordIs(15, 0x00000018)
    ensures forall t: nat :: 1 <= t < 15 ==> WordIs(t, 0)
  {
    assert BytesToWord(0x61, 0x62, 0x63, 0x80) == 0x61626380;
    assert BytesToWord(0, 0, 0, 24) == 0x00000018;
    assert BytesToWord(0, 0, 0, 0) == 0;
    hide BytesToWord;
    forall t: nat | 1 <= t < 15
      ensures WordIs(t, 0)
    {
      assert BlockWord(ABC_BLOCK, t) == BytesToWord(0, 0, 0, 0);
    }
  }

  lemma NextWord(t: nat, w2: Word, w7: Word, w15: Word, w16: Word, w: Word)
    requires 16 <= t < 64
    requires WordIs(t - 2, w2) && WordIs(t - 7, w7) && WordIs(t - 15, w15) && WordIs(t - 16, w16)
    requires Scheduled(w2, w7, w15, w16) == w
    ensures WordIs(t, w)
  {
    hide Scheduled;
  }

  lemma NextState(t: nat, s: State, k: Word, w: Word, a: Word, e: Word) returns (next: State)
    requires StateIs(t, s) && t < 64 && K[t] == k && WordIs(t, w)
    requires Round(s, k, w) == State(a, s.a, s.b, s.c, e, s.e, s.f, s.g)
    ensures next == State(a, s.a, s.b, s.c, e, s.e, s.f, s.g) && StateIs(t + 1, next)
  {
    hide Round;
    next := Round(s, k, w);
  }

  lemma Words16()
    ensures WordIs(16, 0x61626380) && WordIs(17, 0x000f0000) && WordIs(18, 0x7da86405) && WordIs(19, 0x600003c6) &&
            WordIs(20, 0x3e9d7b78) && WordIs(21, 0x0183fc00) && WordIs(22, 0x12dcbfdb) && WordIs(23, 0xe2e2c38e)
  {
    hide WordIs;
    FirstWords();
    NextWord(16, 0x00000000, 0x00000000, 0x00000000, 0x61626380, 0x61626380);
    NextWord(17, 0x00000018, 0x00000000, 0x00000000, 0x00000000, 0x000f0000);
    NextWord(18, 0x61626380, 0x00000000, 0x00000000, 0x00000000, 0x7da86405);
    NextWord(19, 0x000f0000, 0x00000000, 0x00000000, 0x00000000, 0x600003c6);
    NextWord(20, 0x7da86405, 0x00000000, 0x00000000, 0x00000000, 0x3e9d7b78);
    NextWord(21, 0x600003c6, 0x00000000, 0x00000000, 0x00000000, 0x0183fc00);
    NextWord(22, 0x3e9d7b78, 0x00000018, 0x00000000, 0x00000000, 0x12dcbfdb);
    NextWord(23, 0x0183fc00, 0x61626380, 0x00000000, 0x00000000, 0xe2e2c38e);
  }

  lemma Words24()
    ensures WordIs(24, 0xc8215c1a) && WordIs(25, 0xb73679a2) && WordIs(26, 0xe5bc3909) && WordIs(27, 0x32663c5b) &&
            WordIs(28, 0x9d209d67) && WordIs(29, 0xec8726cb) && WordIs(30, 0x702138a4) && WordIs(31, 0xd3b7973b)
  {
    hide WordIs;
    Words16();
    FirstWords();
    NextWord(24, 0x12dcbfdb, 0x000f0000, 0x00000000, 0x00000000, 0xc8215c1a);
    NextWord(25, 0xe2e2c38e, 0x7da86405, 0x00000000, 0x00000000, 0xb73679a2);
    NextWord(26, 0xc8215c1a, 0x600003c6, 0x00000000, 0x00000000, 0xe5bc3909);
    NextWord(27, 0xb73679a2, 0x3e9d7b78, 0x00000000, 0x00000000, 0x32663c5b);
    NextWord(28, 0xe5bc3909, 0x0183fc00, 0x00000000, 0x00000000, 0x9d209d67);
    NextWord(29, 0x32663c5b, 0x12dcbfdb, 0x00000000, 0x00000000, 0xec8726cb);
    NextWord(30, 0x9d209d67, 0xe2e2c38e, 0x00000018, 0x00000000, 0x702138a4);
    NextWord(31, 0xec8726cb, 0xc8215c1a, 0x61626380, 0x00000018, 0xd3b7973b);
  }

  lemma Words32()
    ensures WordIs(32, 0x93f5997f) && WordIs(33, 0x3b68ba73) && WordIs(34, 0xaff4ffc1) && WordIs(35, 0xf10a5c62) &&
            WordIs(36, 0x0a8b3996) && WordIs(37, 0x72af830a) && WordIs(38, 0x9409e33e) && WordIs(39, 0x24641522)
  {
    hide WordIs;
    Words16();
    Words24();
    NextWord(32, 0x702138a4, 0xb73679a2, 0x000f0000, 0x61626380, 0x93f5997f);
    NextWord(33, 0xd3b7973b, 0xe5bc3909, 0x7da86405, 0x000f0000, 0x3b68ba73);
    NextWord(34, 0x93f5997f, 0x32663c5b, 0x600003c6, 0x7da86405, 0xaff4ffc1);
    NextWord(35, 0x3b68ba73, 0x9d209d67, 0x3e9d7b78, 0x600003c6, 0xf10a5c62);
    NextWord(36, 0xaff4ffc1, 0xec8726cb, 0x0183fc00, 0x3e9d7b78, 0x0a8b3996);
    NextWord(37, 0xf10a5c62, 0x702138a4, 0x12dcbfdb, 0x0183fc00, 0x72af830a);
    NextWord(38, 0x0a8b3996, 0xd3b7973b, 0xe2e2c38e, 0x12dcbfdb, 0x9409e33e);
    NextWord(39, 0x72af830a, 0x93f5997f, 0xc8215c1a, 0xe2e2c38e, 0x24641522);
  }

  lemma Words40()
    ensures WordIs(40, 0x9f47bf94) && WordIs(41, 0xf0a64f5a) && WordIs(42, 0x3e246a79) && WordIs(43, 0x27333ba3) &&
            WordIs(44, 0x0c4763f2) && WordIs(45, 0x840abf27) && WordIs(46, 0x7a290d5d) && WordIs(47, 0x065c43da)
  {
    hide WordIs;
    Words24();
    Words32();
    NextWord(40, 0x9409e33e, 0x3b68ba73, 0xb73679a2, 0xc8215c1a, 0x9f47bf94);
    NextWord(41, 0x24641522, 0xaff4ffc1, 0xe5bc3909, 0xb73679a2, 0xf0a64f5a);
    NextWord(42, 0x9f47bf94, 0xf10a5c62, 0x32663c5b, 0xe5bc3909, 0x3e246a79);
    NextWord(43, 0xf0a64f5a, 0x0a8b3996, 0x9d209d67, 0x32663c5b, 0x27333ba3);
    NextWord(44, 0x3e246a79, 0x72af830a, 0xec8726cb, 0x9d209d67, 0x0c4763f2);
    NextWord(45, 0x27333ba3, 0x9409e33e, 0x702138a4, 0xec8726cb, 0x840abf27);
    NextWord(46, 0x0c4763f2, 0x24641522, 0xd3b7973b, 0x702138a4, 0x7a290d5d);
    NextWord(47, 0x840abf27, 0x9f47bf94, 0x93f5997f, 0xd3b7973b, 0x065c43da);
  }

  lemma Words48()
    ensures WordIs(48, 0xfb3e89cb) && WordIs(49, 0xcc7617db) && WordIs(50, 0xb9e66c34) && WordIs(51, 0xa9993667) &&
            WordIs(52, 0x84badedd) && WordIs(53, 0xc21462bc) && WordIs(54, 0x1487472c) && WordIs(55, 0xb20f7a99)
  {
    hide WordIs;
    Words32();
    Words40();
    NextWord(48, 0x7a290d5d, 0xf0a64f5a, 0x3b68ba73, 0x93f5997f, 0xfb3e89cb);
    NextWord(49, 0x065c43da, 0x3e246a79, 0xaff4ffc1, 0x3b68ba73, 0xcc7617db);
    NextWord(50, 0xfb3e89cb, 0x27333ba3, 0xf10a5c62, 0xaff4ffc1, 0xb9e66c34);
    NextWord(51, 0xcc7617db, 0x0c4763f2, 0x0a8b3996, 0xf10a5c62, 0xa9993667);
    NextWord(52, 0xb9e66c34, 0x840abf27, 0x72af830a, 0x0a8b3996, 0x84badedd);
    NextWord(53, 0xa9993667, 0x7a290d5d, 0x9409e33e, 0x72af830a, 0xc21462bc);
    NextWord(54, 0x84badedd, 0x065c43da, 0x24641522, 0x9409e33e, 0x1487472c);
    NextWord(55, 0xc21462bc, 0xfb3e89cb, 0x9f47bf94, 0x24641522, 0xb20f7a99);
  }

  lemma Words56()
    ensures WordIs(56, 0xef57b9cd) && WordIs(57, 0xebe6b238) && WordIs(58, 0x9fe3095e) && WordIs(59, 0x78bc8d4b) &&
            WordIs(60, 0xa43fcf15) && WordIs(61, 0x668b2ff8) && WordIs(62, 0xeeaba2cc) && WordIs(63, 0x12b1edeb)
  {
    hide WordIs;
    Words40();
    Words48();
    NextWord(56, 0x1487472c, 0xcc7617db, 0xf0a64f5a, 0x9f47bf94, 0xef57b9cd);
    NextWord(57, 0xb20f7a99, 0xb9e66c34, 0x3e246a79, 0xf0a64f5a, 0xebe6b238);
    NextWord(58, 0xef57b9cd, 0xa9993667, 0x27333ba3, 0x3e246a79, 0x9fe3095e);
    NextWord(59, 0xebe6b238, 0x84badedd, 0x0c4763f2, 0x27333ba3, 0x78bc8d4b);
    NextWord(60, 0x9fe3095e, 0xc21462bc, 0x840abf27, 0x0c4763f2, 0xa43fcf15);
    NextWord(61, 0x78bc8d4b, 0x1487472c, 0x7a290d5d, 0x840abf27, 0x668b2ff8);
    NextWord(62, 0xa43fcf15, 0xb20f7a99, 0x065c43da, 0x7a290d5d, 0xeeaba2cc);
    NextWord(63, 0x668b2ff8, 0xef57b9cd, 0xfb3e89cb, 0x065c43da, 0x12b1edeb);
  }

  lemma NoRounds()
    ensures StateIs(0,
              State(0x6a09e667, 0xbb67ae85, 0x3c6ef372, 0xa54ff53a, 0x510e527f, 0x9b05688c, 0x1f83d9ab, 0x5be0cd19))
  {
  }

  lemma Rounds0()
    ensures StateIs(8,
              State(0x85a07b5f, 0xe5030380, 0x2b4209f5, 0x04409a6a, 0x0c657a79, 0x9b27a401, 0x714260ad, 0x43ada245))
  {
    hide WordIs, StateIs;
    Table0();
    hide K;
    FirstWords();
    NoRounds();
    var s := State(0x6a09e667, 0xbb67ae85, 0x3c6ef372, 0xa54ff53a, 0x510e527f, 0x9b05688c, 0x1f83d9ab, 0x5be0cd19);
    s := NextState(0, s, 0x428a2f98, 0x61626380, 0x5d6aebcd, 0xfa2a4622);
    s := NextState(1, s, 0x71374491, 0x00000000, 0x5a6ad9ad, 0x78ce7989);
    s := NextState(2, s, 0xb5c0fbcf, 0x00000000, 0xc8c347a7, 0xf92939eb);
    s := NextState(3, s, 0xe9b5dba5, 0x00000000, 0xd550f666, 0x24e00850);
    s := NextState(4, s, 0x3956c25b, 0x00000000, 0x04409a6a, 0x43ada245);
    s := NextState(5, s, 0x59f111f1, 0x00000000, 0x2b4209f5, 0x714260ad);
    s := NextState(6, s, 0x923f82a4, 0x00000000, 0xe5030380, 0x9b27a401);
    s := NextState(7, s, 0xab1c5ed5, 0x00000000, 0x85a07b5f, 0x0c657a79);
  }

  lemma Rounds8()
    ensures StateIs(16,
              State(0xb0fa238e, 0xc0645fde, 0xd932eb16, 0x87912990, 0x07590dcd, 0x0b92f20c, 0x745a48de, 0x1e578218))
  {
    hide WordIs, StateIs;
    Table8();
    hide K;
    FirstWords();
    Rounds0();
    var s := State(0x85a07b5f, 0xe5030380, 0x2b4209f5, 0x04409a6a, 0x0c657a79, 0x9b27a401, 0x714260ad, 0x43ada245);
    s := NextState(8, s, 0xd807aa98, 0x00000000, 0x8e04ecb9, 0x32ca2d8c);
    s := NextState(9, s, 0x12835b01, 0x00000000, 0x8c87346b, 0x1cc92596);
    s := NextState(10, s, 0x243185be, 0x00000000, 0x4798a3f4, 0x436b23e8);
    s := NextState(11, s, 0x550c7dc3, 0x00000000, 0xf71fc5a9, 0x816fd6e9);
    s := NextState(12, s, 0x72be5d74, 0x00000000, 0x87912990, 0x1e578218);
    s := NextState(13, s, 0x80deb1fe, 0x00000000, 0xd932eb16, 0x745a48de);
    s := NextState(14, s, 0x9bdc06a7, 0x00000000, 0xc0645fde, 0x0b92f20c);
    s := NextState(15, s, 0xc19bf174, 0x00000018, 0xb0fa238e, 0x07590dcd);
  }

  lemma Rounds16()
    ensures StateIs(24,
              State(0xc5d53d8d, 0xa7a3623f, 0xc2606d6d, 0x9dc68b63, 0xaa47c347, 0x49f5114a, 0xe1257970, 0x8ada8930))
  {
    hide WordIs, StateIs;
    Table16();
    hide K;
    Words16();
    Rounds8();
    var s := State(0xb0fa238e, 0xc0645fde, 0xd932eb16, 0x87912990, 0x07590dcd, 0x0b92f20c, 0x745a48de, 0x1e578218);
    s := NextState(16, s, 0xe49b69c1, 0x61626380, 0x21da9a9b, 0x8034229c);
    s := NextState(17, s, 0xefbe4786, 0x000f0000, 0xc2fbd9d1, 0x846ee454);
    s := NextState(18, s, 0x0fc19dc6, 0x7da86405, 0xfe777bbf, 0xcc899961);
    s := NextState(19, s, 0x240ca1cc, 0x600003c6, 0xe1f20c33, 0xb0638179);
    s := NextState(20, s, 0x2de92c6f, 0x3e9d7b78, 0x9dc68b63, 0x8ada8930);
    s := NextState(21, s, 0x4a7484aa, 0x0183fc00, 0xc2606d6d, 0xe1257970);
    s := NextState(22, s, 0x5cb0a9dc, 0x12dcbfdb, 0xa7a3623f, 0x49f5114a);
    s := NextState(23, s, 0x76f988da, 0xe2e2c38e, 0xc5d53d8d, 0xaa47c347);
  }

  lemma Rounds24()
    ensures StateIs(32,
              State(0x73b33bf5, 0xea992a22, 0xa0060b30, 0x363482c9, 0xba591112, 0x0109ab3a, 0xade79437, 0x6112a3b7))
  {
    hide WordIs, StateIs;
    Table24();
    hide K;
    Words24();
    Rounds16();
    var s := State(0xc5d53d8d, 0xa7a3623f, 0xc2606d6d, 0x9dc68b63, 0xaa47c347, 0x49f5114a, 0xe1257970, 0x8ada8930);
    s := NextState(24, s, 0x983e5152, 0xc8215c1a, 0x1c2c2838, 0x2823ef91);
    s := NextState(25, s, 0xa831c66d, 0xb73679a2, 0xcde8037d, 0x14383d8e);
    s := NextState(26, s, 0xb00327c8, 0xe5bc3909, 0xb62ec4bc, 0xc74c6516);
    s := NextState(27, s, 0xbf597fc7, 0x32663c5b, 0x77d37528, 0xedffbff8);
    s := NextState(28, s, 0xc6e00bf3, 0x9d209d67, 0x363482c9, 0x6112a3b7);
    s := NextState(29, s, 0xd5a79147, 0xec8726cb, 0xa0060b30, 0xade79437);
    s := NextState(30, s, 0x06ca6351, 0x702138a4, 0xea992a22, 0x0109ab3a);
    s := NextState(31, s, 0x14292967, 0xd3b7973b, 0x73b33bf5, 0xba591112);
  }

  lemma Rounds32()
    ensures StateIs(40,
              State(0x79ea687a, 0x6dc57a8a, 0x34df1604, 0x41a65cb1, 0x1efbc0a0, 0xf0781bc8, 0xa507a53d, 0x0772a26b))
  {
    hide WordIs, StateIs;
    Table32();
    hide K;
    Words32();
    Rounds24();
    var s := State(0x73b33bf5, 0xea992a22, 0xa0060b30, 0x363482c9, 0xba591112, 0x0109ab3a, 0xade79437, 0x6112a3b7);
    s := NextState(32, s, 0x27b70a85, 0x93f5997f, 0x98e12507, 0x9cd9f5f6);
    s := NextState(33, s, 0x2e1b2138, 0x3b68ba73, 0xfe604df5, 0x59249dd3);
    s := NextState(34, s, 0x4d2c6dfc, 0xaff4ffc1, 0xa9a7738c, 0x085f3833);
    s := NextState(35, s, 0x53380d13, 0xf10a5c62, 0x65a0cfe4, 0xf4b002d6);
    s := NextState(36, s, 0x650a7354, 0x0a8b3996, 0x41a65cb1, 0x0772a26b);
    s := NextState(37, s, 0x766a0abb, 0x72af830a, 0x34df1604, 0xa507a53d);
    s := NextState(38, s, 0x81c2c92e, 0x9409e33e, 0x6dc57a8a, 0xf0781bc8);
    s := NextState(39, s, 0x92722c85, 0x24641522, 0x79ea687a, 0x1efbc0a0);
  }

  lemma Rounds40()
    ensures StateIs(48,
              State(0x4172328d, 0xa14c14b0, 0x72ab4b91, 0x26628815, 0xfecf0bc6, 0xd57b94a9, 0xb7755da1, 0xa80f11f0))
  {
    hide WordIs, StateIs;
    Table40();
    hide K;
    Words40();
    Rounds32();
    var s := State(0x79ea687a, 0x6dc57a8a, 0x34df1604, 0x41a65cb1, 0x1efbc0a0, 0xf0781bc8, 0xa507a53d, 0x0772a26b);
    s := NextState(40, s, 0xa2bfe8a1, 0x9f47bf94, 0xd6670766, 0x26352d63);
    s := NextState(41, s, 0xa81a664b, 0xf0a64f5a, 0xdf46652f, 0x838b2711);
    s := NextState(42, s, 0xc24b8b70, 0x3e246a79, 0x17aa0dfe, 0xdecd4715);
    s := NextState(43, s, 0xc76c51a3, 0x27333ba3, 0x9d4baf93, 0xfda24c2e);
    s := NextState(44, s, 0xd192e819, 0x0c4763f2, 0x26628815, 0xa80f11f0);
    s := NextState(45, s, 0xd6990624, 0x840abf27, 0x72ab4b91, 0xb7755da1);
    s := NextState(46, s, 0xf40e3585, 0x7a290d5d, 0xa14c14b0, 0xd57b94a9);
    s := NextState(47, s, 0x106aa070, 0x065c43da, 0x4172328d, 0xfecf0bc6);
  }

  lemma Rounds48()
    ensures StateIs(56,
              State(0x38cc9913, 0x3ec45cdb, 0xf5702fdb, 0x101fd28f, 0x54cb266b, 0xe50e1b4f, 0x9f4787c3, 0x529e7d00))
  {
    hide WordIs, StateIs;
    Table48();
    hide K;
    Words48();
    Rounds40();
    var s := State(0x4172328d, 0xa14c14b0, 0x72ab4b91, 0x26628815, 0xfecf0bc6, 0xd57b94a9, 0xb7755da1, 0xa80f11f0);
    s := NextState(48, s, 0x19a4c116, 0xfb3e89cb, 0x05757ceb, 0xbd714038);
    s := NextState(49, s, 0x1e376c08, 0xcc7617db, 0xf11bfaa8, 0x6e5c390c);
    s := NextState(50, s, 0x2748774c, 0xb9e66c34, 0x7a0508a1, 0x52f1ccf7);
    s := NextState(51, s, 0x34b0bcb5, 0xa9993667, 0x886e7a22, 0x49231c1e);
    s := NextState(52, s, 0x391c0cb3, 0x84badedd, 0x101fd28f, 0x529e7d00);
    s := NextState(53, s, 0x4ed8aa4a, 0xc21462bc, 0xf5702fdb, 0x9f4787c3);
    s := NextState(54, s, 0x5b9cca4f, 0x1487472c, 0x3ec45cdb, 0xe50e1b4f);
    s := NextState(55, s, 0x682e6ff3, 0xb20f7a99, 0x38cc9913, 0x54cb266b);
  }

  lemma Rounds56()
    ensures StateIs(64,
              State(0x506e3058, 0xd39a2165, 0x04d24d6c, 0xb85e2ce9, 0x5ef50f24, 0xfb121210, 0x948d25b6, 0x961f4894))
  {
    hide WordIs, StateIs;
    Table56();
    hide K;
    Words56();
    Rounds48();
    var s := State(0x38cc9913, 0x3ec45cdb, 0xf5702fdb, 0x101fd28f, 0x54cb266b, 0xe50e1b4f, 0x9f4787c3, 0x529e7d00);
    s := NextState(56, s, 0x748f82ee, 0xef57b9cd, 0xfcd1887b, 0x9b5e906c);
    s := NextState(57, s, 0x78a5636f, 0xebe6b238, 0xc062d46f, 0x7e44008e);
    s := NextState(58, s, 0x84c87814, 0x9fe3095e, 0xffb70472, 0x6d83bfc6);
    s := NextState(59, s, 0x8cc70208, 0x78bc8d4b, 0xb6ae8fff, 0xb21bad3d);
    s := NextState(60, s, 0x90befffa, 0xa43fcf15, 0xb85e2ce9, 0x961f4894);
    s := NextState(61, s, 0xa4506ceb, 0x668b2ff8, 0x04d24d6c, 0x948d25b6);
    s := NextState(62, s, 0xbef9a3f7, 0xeeaba2cc, 0xd39a2165, 0xfb121210);
    s := NextState(63, s, 0xc67178f2, 0x12b1edeb, 0x506e3058, 0x5ef50f24);
  }

  lemma AbcWords()
    ensures WordBytes(0xba7816bf) == [0xba, 0x78, 0x16, 0xbf]
    ensures WordBytes(0x8f01cfea) == [0x8f, 0x01, 0xcf, 0xea]
    ensures WordBytes(0x414140de) == [0x41, 0x41, 0x40, 0xde]
    ensures WordBytes(0x5dae2223) == [0x5d, 0xae, 0x22, 0x23]
    ensures WordBytes(0xb00361a3) == [0xb0, 0x03, 0x61, 0xa3]
    ensures WordBytes(0x96177a9c) == [0x96, 0x17, 0x7a, 0x9c]
    ensures WordBytes(0xb410ff61) == [0xb4, 0x10, 0xff, 0x61]
    ensures WordBytes(0xf20015ad) == [0xf2, 0x00, 0x15, 0xad]
  {
  }

  lemma AbcBytes()
    ensures StateBytes(State(0xba7816bf, 0x8f01cfea, 0x414140de, 0x5dae2223,
                             0xb00361a3, 0x96177a9c, 0xb410ff61, 0xf20015ad)) == [
      0xba, 0x78, 0x16, 0xbf, 0x8f, 0x01, 0xcf, 0xea, 0x41, 0x41, 0x40, 0xde, 0x5d, 0xae, 0x22, 0x23,
      0xb0, 0x03, 0x61, 0xa3, 0x96, 0x17, 0x7a, 0x9c, 0xb4, 0x10, 0xff, 0x61, 0xf2, 0x00, 0x15, 0xad
    ]
  {
    hide WordBytes;
    AbcWords();
  }

  lemma AbcSum(s: State, r: State)
    requires s == State(0x6a09e667, 0xbb67ae85, 0x3c6ef372, 0xa54ff53a, 0x510e527f, 0x9b05688c, 0x1f83d9ab, 0x5be0cd19)
    requires r == State(0x506e3058, 0xd39a2165, 0x04d24d6c, 0xb85e2ce9, 0x5ef50f24, 0xfb121210, 0x948d25b6, 0x961f4894)
    ensures Sum(s, r) == State(0xba7816bf, 0x8f01cfea, 0x414140de, 0x5dae2223,
                               0xb00361a3, 0x96177a9c, 0xb410ff61, 0xf20015ad)
  {
  }

  /** The one-block example of FIPS 180-2, appendix B.1. */
  lemma DigestOfAbc()
    ensures Digest(ABC) == [
      0xba, 0x78, 0x16, 0xbf, 0x8f, 0x01, 0xcf, 0xea, 0x41, 0x41, 0x40, 0xde, 0x5d, 0xae, 0x22, 0x23,
      0xb0, 0x03, 0x61, 0xa3, 0x96, 0x17, 0x7a, 0x9c, 0xb4, 0x10, 0xff, 0x61, 0xf2, 0x00, 0x15, 0xad
    ]
  {
    hide StateBytes, Sum, Rounds, Padded;
    AbcPadded();
    NoRounds();
    Rounds56();
    AbcSum(INITIAL_STATE, Rounds(INITIAL_STATE, ABC_BLOCK, 64));
    FoldOne(INITIAL_STATE, ABC_BLOCK);
    AbcBytes();
  }
}
