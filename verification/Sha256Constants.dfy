/** What the tables of SHA-256 hold: fractional parts of roots of primes. */
module Sha256Constants {
  import opened Sha256Spec

  predicate IsPrime(n: nat) { n >= 2 && forall d :: 2 <= d < n ==> n % d != 0 }

  function PrimesUpTo(n: nat): nat { if n < 2 then 0 else PrimesUpTo(n - 1) + if IsPrime(n) then 1 else 0 }

  /** The prime with exactly t primes before it. */
  predicate IsNth(p: nat, t: nat) { IsPrime(p) && PrimesUpTo(p) == t + 1 }

  function Value(w: Word): nat { w as nat }

  const TWO_32 := 0x1_0000_0000

  /** r is the root of n, scaled by 2^32 and rounded down. */
  predicate IsCubeRoot(r: nat, n: nat) {
    r * r * r <= n * (TWO_32 * TWO_32 * TWO_32) < (r + 1) * (r + 1) * (r + 1)
  }

  predicate IsSquareRoot(r: nat, n: nat) { r * r <= n * (TWO_32 * TWO_32) < (r + 1) * (r + 1) }

  /** Section 4.2.2: the first 32 bits of the fractional part of the cube root of the t-th prime. */
  ghost predicate IsRoundConstant(t: nat) {
    t < |K| && exists p: nat, r: nat :: IsNth(p, t) && IsCubeRoot(r, p) && Value(K[t]) == r % TWO_32
  }

  /** Section 5.3.3: the same of the square root. */
  ghost predicate IsInitialWord(t: nat) {
    && t < |INITIAL_HASH|
    && exists p: nat, r: nat :: IsNth(p, t) && IsSquareRoot(r, p) && Value(INITIAL_HASH[t]) == r % TWO_32
  }

  // ---------------------------------------------------------------- primes below 324

  /** A divisor from 2 up to 17 that is smaller than the number. */
  predicate HasDivisor(n: nat) {
    || (n > 2 && n % 2 == 0) || (n > 3 && n % 3 == 0) || (n > 4 && n % 4 == 0) || (n > 5 && n % 5 == 0)
    || (n > 6 && n % 6 == 0) || (n > 7 && n % 7 == 0) || (n > 8 && n % 8 == 0) || (n > 9 && n % 9 == 0)
    || (n > 10 && n % 10 == 0) || (n > 11 && n % 11 == 0) || (n > 12 && n % 12 == 0) || (n > 13 && n % 13 == 0)
    || (n > 14 && n % 14 == 0) || (n > 15 && n % 15 == 0) || (n > 16 && n % 16 == 0) || (n > 17 && n % 17 == 0)
  }

  /** q has no such divisor, and all numbers in between have one. */
  predicate Follows(p: nat, q: nat)
    decreases q - p
  {
    p < q && if p + 1 == q then !HasDivisor(q) else HasDivisor(p + 1) && Follows(p + 1, q)
  }

  lemma FindsDivisor(n: nat, c: nat)
    requires 2 <= c < 18 && c < n && n % c == 0
    ensures HasDivisor(n)
  {
    match c
    case 2 =>
    case 3 =>
    case 4 =>
    case 5 =>
    case 6 =>
    case 7 =>
    case 8 =>
    case 9 =>
    case 10 =>
    case 11 =>
    case 12 =>
    case 13 =>
    case 14 =>
    case 15 =>
    case 16 =>
    case 17 =>
  }

  lemma DividedIsNotPrime(n: nat)
    requires HasDivisor(n)
    ensures !IsPrime(n)
  {
  }

  /** Below 18 * 18 one of two factors is below 18. */
  lemma UndividedIsPrime(n: nat)
    requires 2 <= n < 324 && !HasDivisor(n)
    ensures IsPrime(n)
  {
    forall d | 2 <= d < n
      ensures n % d != 0
    {
      if n % d == 0 {
        var e := n / d;
        Factors(n, d, e);
        FindsDivisor(n, if d < 18 then d else e);
      }
    }
  }

  lemma AtLeast(a: nat, b: nat, c: nat)
    requires a >= b
    ensures a * c >= b * c
  {
  }

  lemma Factors(n: nat, d: nat, e: nat)
    requires 2 <= d < n < 324 && n % d == 0 && e == n / d
    ensures 2 <= e < n && n % e == 0 && (d < 18 || e < 18)
  {
    assert n == d * e;
    if e < 2 {
      AtLeast(1, e, d);
    }
    if d >= 18 && e >= 18 {
      AtLeast(d, 18, e);
    }
    assert e < d * e;
    ModOfMultiple(n, e, d);
  }

  lemma ModOfMultiple(n: nat, c: nat, m: nat)
    requires c > 0 && n == c * m
    ensures n % c == 0
  {
    var q, r := n / c, n % c;
    assert n == c * q + r;
    NoFraction(c, m, q, r);
  }

  lemma NoFraction(c: nat, m: nat, q: nat, r: nat)
    requires c * m == c * q + r && r < c
    ensures r == 0
  {
    if m > q {
      AtLeast(m, q + 1, c);
    } else if m < q {
      AtLeast(q, m + 1, c);
    }
  }

  lemma {:induction false} NextPrime(p: nat, q: nat)
    requires p >= 1 && Follows(p, q) && q < 324
    ensures IsPrime(q) && PrimesUpTo(q) == PrimesUpTo(p) + 1
    decreases q - p
  {
    hide IsPrime;
    hide HasDivisor;
    if p + 1 == q {
      UndividedIsPrime(q);
    } else {
      DividedIsNotPrime(p + 1);
      NextPrime(p + 1, q);
    }
  }

  // ---------------------------------------------------------------- the round constants

  lemma Fraction(whole: nat, low: nat)
    requires low < TWO_32
    ensures (whole * TWO_32 + low) % TWO_32 == low
  {
  }

  lemma ValueIsLow(w: Word)
    ensures Value(w) < TWO_32
  {
  }

  /** The integer part of the root and the constant make up the scaled root of the prime. */
  lemma RoundConstant(t: nat, p: nat, q: nat, whole: nat, k: Word)
    requires IsNth(p, t) && Follows(p, q) && q < 324
    requires t < |K| && K[t] == k && IsCubeRoot(whole * TWO_32 + Value(k), p)
    ensures IsRoundConstant(t) && IsNth(q, t + 1)
  {
    hide Value;
    hide IsCubeRoot;
    hide Follows;
    hide IsPrime;
    ValueIsLow(k);
    Fraction(whole, Value(k));
    assert p >= 1 by { FirstPrime(p, t); }
    NextPrime(p, q);
  }

  lemma FirstPrime(p: nat, t: nat)
    requires IsNth(p, t)
    ensures p >= 2
  {
  }

  lemma Constants0()
    requires IsNth(2, 0)
    ensures IsNth(11, 4) && forall t :: 0 <= t < 4 ==> IsRoundConstant(t)
  {
    hide IsNth;
    hide IsRoundConstant;
    RoundConstant(0, 2, 3, 1, 0x428a2f98);
    RoundConstant(1, 3, 5, 1, 0x71374491);
    RoundConstant(2, 5, 7, 1, 0xb5c0fbcf);
    RoundConstant(3, 7, 11, 1, 0xe9b5dba5);
  }

  lemma Constants4()
    requires IsNth(11, 4)
    ensures IsNth(23, 8) && forall t :: 4 <= t < 8 ==> IsRoundConstant(t)
  {
    hide IsNth;
    hide IsRoundConstant;
    RoundConstant(4, 11, 13, 2, 0x3956c25b);
    RoundConstant(5, 13, 17, 2, 0x59f111f1);
    RoundConstant(6, 17, 19, 2, 0x923f82a4);
    RoundConstant(7, 19, 23, 2, 0xab1c5ed5);
  }

  lemma Constants8()
    requires IsNth(23, 8)
    ensures IsNth(41, 12) && forall t :: 8 <= t < 12 ==> IsRoundConstant(t)
  {
    hide IsNth;
    hide IsRoundConstant;
    RoundConstant(8, 23, 29, 2, 0xd807aa98);
    RoundConstant(9, 29, 31, 3, 0x12835b01);
    RoundConstant(10, 31, 37, 3, 0x243185be);
    RoundConstant(11, 37, 41, 3, 0x550c7dc3);
  }

  lemma Constants12()
    requires IsNth(41, 12)
    ensures IsNth(59, 16) && forall t :: 12 <= t < 16 ==> IsRoundConstant(t)
  {
    hide IsNth;
    hide IsRoundConstant;
    RoundConstant(12, 41, 43, 3, 0x72be5d74);
    RoundConstant(13, 43, 47, 3, 0x80deb1fe);
    RoundConstant(14, 47, 53, 3, 0x9bdc06a7);
    RoundConstant(15, 53, 59, 3, 0xc19bf174);
  }

  lemma Constants16()
    requires IsNth(59, 16)
    ensures IsNth(73, 20) && forall t :: 16 <= t < 20 ==> IsRoundConstant(t)
  {
    hide IsNth;
    hide IsRoundConstant;
    RoundConstant(16, 59, 61, 3, 0xe49b69c1);
    RoundConstant(17, 61, 67, 3, 0xefbe4786);
    RoundConstant(18, 67, 71, 4, 0x0fc19dc6);
    RoundConstant(19, 71, 73, 4, 0x240ca1cc);
  }

  lemma Constants20()
    requires IsNth(73, 20)
    ensures IsNth(97, 24) && forall t :: 20 <= t < 24 ==> IsRoundConstant(t)
  {
    hide IsNth;
    hide IsRoundConstant;
    RoundConstant(20, 73, 79, 4, 0x2de92c6f);
    RoundConstant(21, 79, 83, 4, 0x4a7484aa);
    RoundConstant(22, 83, 89, 4, 0x5cb0a9dc);
    RoundConstant(23, 89, 97, 4, 0x76f988da);
  }

  lemma Constants24()
    requires IsNth(97, 24)
    ensures IsNth(109, 28) && forall t :: 24 <= t < 28 ==> IsRoundConstant(t)
  {
    hide IsNth;
    hide IsRoundConstant;
    RoundConstant(24, 97, 101, 4, 0x983e5152);
    RoundConstant(25, 101, 103, 4, 0xa831c66d);
    RoundConstant(26, 103, 107, 4, 0xb00327c8);
    RoundConstant(27, 107, 109, 4, 0xbf597fc7);
  }

  lemma Constants28()
    requires IsNth(109, 28)
    ensures IsNth(137, 32) && forall t :: 28 <= t < 32 ==> IsRoundConstant(t)
  {
    hide IsNth;
    hide IsRoundConstant;
    RoundConstant(28, 109, 113, 4, 0xc6e00bf3);
    RoundConstant(29, 113, 127, 4, 0xd5a79147);
    RoundConstant(30, 127, 131, 5, 0x06ca6351);
    RoundConstant(31, 131, 137, 5, 0x14292967);
  }

  lemma Constants32()
    requires IsNth(137, 32)
    ensures IsNth(157, 36) && forall t :: 32 <= t < 36 ==> IsRoundConstant(t)
  {
    hide IsNth;
    hide IsRoundConstant;
    RoundConstant(32, 137, 139, 5, 0x27b70a85);
    RoundConstant(33, 139, 149, 5, 0x2e1b2138);
    RoundConstant(34, 149, 151, 5, 0x4d2c6dfc);
    RoundConstant(35, 151, 157, 5, 0x53380d13);
  }

  lemma Constants36()
    requires IsNth(157, 36)
    ensures IsNth(179, 40) && forall t :: 36 <= t < 40 ==> IsRoundConstant(t)
  {
    hide IsNth;
    hide IsRoundConstant;
    RoundConstant(36, 157, 163, 5, 0x650a7354);
    RoundConstant(37, 163, 167, 5, 0x766a0abb);
    RoundConstant(38, 167, 173, 5, 0x81c2c92e);
    RoundConstant(39, 173, 179, 5, 0x92722c85);
  }

  lemma Constants40()
    requires IsNth(179, 40)
    ensures IsNth(197, 44) && forall t :: 40 <= t < 44 ==> IsRoundConstant(t)
  {
    hide IsNth;
    hide IsRoundConstant;
    RoundConstant(40, 179, 181, 5, 0xa2bfe8a1);
    RoundConstant(41, 181, 191, 5, 0xa81a664b);
    RoundConstant(42, 191, 193, 5, 0xc24b8b70);
    RoundConstant(43, 193, 197, 5, 0xc76c51a3);
  }

  lemma Constants44()
    requires IsNth(197, 44)
    ensures IsNth(227, 48) && forall t :: 44 <= t < 48 ==> IsRoundConstant(t)
  {
    hide IsNth;
    hide IsRoundConstant;
    RoundConstant(44, 197, 199, 5, 0xd192e819);
    RoundConstant(45, 199, 211, 5, 0xd6990624);
    RoundConstant(46, 211, 223, 5, 0xf40e3585);
    RoundConstant(47, 223, 227, 6, 0x106aa070);
  }

  lemma Constants48()
    requires IsNth(227, 48)
    ensures IsNth(241, 52) && forall t :: 48 <= t < 52 ==> IsRoundConstant(t)
  {
    hide IsNth;
    hide IsRoundConstant;
    RoundConstant(48, 227, 229, 6, 0x19a4c116);
    RoundConstant(49, 229, 233, 6, 0x1e376c08);
    RoundConstant(50, 233, 239, 6, 0x2748774c);
    RoundConstant(51, 239, 241, 6, 0x34b0bcb5);
  }

  lemma Constants52()
    requires IsNth(241, 52)
    ensures IsNth(269, 56) && forall t :: 52 <= t < 56 ==> IsRoundConstant(t)
  {
    hide IsNth;
    hide IsRoundConstant;
    RoundConstant(52, 241, 251, 6, 0x391c0cb3);
    RoundConstant(53, 251, 257, 6, 0x4ed8aa4a);
    RoundConstant(54, 257, 263, 6, 0x5b9cca4f);
    RoundConstant(55, 263, 269, 6, 0x682e6ff3);
  }

  lemma Constants56()
    requires IsNth(269, 56)
    ensures IsNth(283, 60) && forall t :: 56 <= t < 60 ==> IsRoundConstant(t)
  {
    hide IsNth;
    hide IsRoundConstant;
    RoundConstant(56, 269, 271, 6, 0x748f82ee);
    RoundConstant(57, 271, 277, 6, 0x78a5636f);
    RoundConstant(58, 277, 281, 6, 0x84c87814);
    RoundConstant(59, 281, 283, 6, 0x8cc70208);
  }

  lemma Constants60()
    requires IsNth(283, 60)
    ensures IsNth(313, 64) && forall t :: 60 <= t < 64 ==> IsRoundConstant(t)
  {
    hide IsNth;
    hide IsRoundConstant;
    RoundConstant(60, 283, 293, 6, 0x90befffa);
    RoundConstant(61, 293, 307, 6, 0xa4506ceb);
    RoundConstant(62, 307, 311, 6, 0xbef9a3f7);
    RoundConstant(63, 311, 313, 6, 0xc67178f2);
  }

  lemma TwoIsFirst()
    ensures IsNth(2, 0)
  {
  }

  /** Every constant of the rounds is the one that section 4.2.2 of FIPS 180-4 describes. */
  lemma AllRoundConstants()
    ensures |K| == 64 && forall t :: 0 <= t < 64 ==> IsRoundConstant(t)
  {
    hide IsNth;
    hide IsRoundConstant;
    TwoIsFirst();
    Constants0();
    Constants4();
    Constants8();
    Constants12();
    Constants16();
    Constants20();
    Constants24();
    Constants28();
    Constants32();
    Constants36();
    Constants40();
    Constants44();
    Constants48();
    Constants52();
    Constants56();
    Constants60();
  }

  // ---------------------------------------------------------------- the initial hash

  lemma InitialWord(t: nat, p: nat, q: nat, whole: nat, h: Word)
    requires IsNth(p, t) && Follows(p, q) && q < 324
    requires t < |INITIAL_HASH| && INITIAL_HASH[t] == h && IsSquareRoot(whole * TWO_32 + Value(h), p)
    ensures IsInitialWord(t) && IsNth(q, t + 1)
  {
    hide Value;
    hide IsSquareRoot;
    hide Follows;
    hide IsPrime;
    ValueIsLow(h);
    Fraction(whole, Value(h));
    assert p >= 1 by { FirstPrime(p, t); }
    NextPrime(p, q);
  }

  /** The initial hash is the one that section 5.3.3 of FIPS 180-4 describes. */
  lemma AllInitialWords()
    ensures |INITIAL_HASH| == 8 && forall t :: 0 <= t < 8 ==> IsInitialWord(t)
  {
    hide IsNth;
    hide IsInitialWord;
    TwoIsFirst();
    InitialWord(0, 2, 3, 1, 0x6a09e667);
    InitialWord(1, 3, 5, 1, 0xbb67ae85);
    InitialWord(2, 5, 7, 2, 0x3c6ef372);
    InitialWord(3, 7, 11, 2, 0xa54ff53a);
    InitialWord(4, 11, 13, 3, 0x510e527f);
    InitialWord(5, 13, 17, 3, 0x9b05688c);
    InitialWord(6, 17, 19, 4, 0x1f83d9ab);
    InitialWord(7, 19, 23, 4, 0x5be0cd19);
  }
}
