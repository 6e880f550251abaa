/**
  Primes too large for trial division: powers by repeated squaring, and a
  certificate of primality that rests on a smaller prime.
 */
module PrimeCertificates {
  import opened NumberTheory

  lemma MulAssociates(a: nat, b: nat, c: nat)
    ensures a * (b * c) == (a * b) * c
  {
  }

  lemma {:induction false} PowAdd(b: nat, e: nat, f: nat)
    ensures Pow(b, e + f) == Pow(b, e) * Pow(b, f)
  {
    if e > 0 {
      PowAdd(b, e - 1, f);
      assert Pow(b, e + f) == b * Pow(b, e - 1 + f) && Pow(b, e) == b * Pow(b, e - 1);
      hide Pow;
      MulAssociates(b, Pow(b, e - 1), Pow(b, f));
    }
  }

  lemma {:induction false} PowMul(b: nat, e: nat, f: nat)
    ensures Pow(b, e * f) == Pow(Pow(b, e), f)
  {
    if f > 0 {
      PowMul(b, e, f - 1);
      assert e * f == e + e * (f - 1);
      PowAdd(b, e, e * (f - 1));
    }
  }

  /** A power of the remainder has the remainder of the power. */
  lemma {:induction false} PowMod(b: nat, e: nat, m: nat)
    requires m > 0
    ensures Pow(b % m, e) % m == Pow(b, e) % m
  {
    if e > 0 {
      PowMod(b, e - 1, m);
      MulModBoth(b, Pow(b, e - 1), m);
      MulModBoth(b % m, Pow(b % m, e - 1), m);
      DivMod(b, m);
      Unique(b % m, 0, b % m, m);
    }
  }

  lemma {:induction false} PowOfOne(b: nat, e: nat, m: nat)
    requires m >= 2 && b % m == 1
    ensures Pow(b, e) % m == 1
  {
    if e == 0 {
      Unique(1, 0, 1, m);
    } else {
      PowOfOne(b, e - 1, m);
      MulModBoth(b, Pow(b, e - 1), m);
      Unique(1, 0, 1, m);
    }
  }

  function Sq(x: nat, m: nat): nat
    requires m > 0
  {
    (x * x) % m
  }

  /** Repeated squaring, four bits of the exponent at a time. */
  function FastPow(b: nat, e: nat, m: nat): nat
    requires m > 0
  {
    if e == 0 then 1 % m
    else (Sq(Sq(Sq(Sq(FastPow(b, e / 16, m), m), m), m), m) * Pow(b, e % 16)) % m
  }

  /** One step of a power that is worked out by hand: four squarings and the low bits, which give the factor `w`. */
  lemma PowStep(e: nat, m: nat, h: nat, s1: nat, s2: nat, s3: nat, s4: nat, w: nat, r: nat)
    requires m > 0 && e > 0 && FastPow(2, e / 16, m) == h && Pow(2, e % 16) == w
    requires (h * h) % m == s1 && (s1 * s1) % m == s2 && (s2 * s2) % m == s3 && (s3 * s3) % m == s4 && (s4 * w) % m == r
    ensures FastPow(2, e, m) == r
  {
    hide Pow;
  }

  lemma SqIsPow(b: nat, e: nat, m: nat)
    requires m > 0
    ensures Sq(Pow(b, e) % m, m) == Pow(b, 2 * e) % m
  {
    PowAdd(b, e, e);
    MulModBoth(Pow(b, e), Pow(b, e), m);
  }

  lemma {:induction false} FastPowIsPow(b: nat, e: nat, m: nat)
    requires m > 0
    ensures FastPow(b, e, m) == Pow(b, e) % m
  {
    if e > 0 {
      var k := e / 16;
      FastPowIsPow(b, k, m);
      hide Pow, Sq;
      SqIsPow(b, k, m);
      SqIsPow(b, 2 * k, m);
      SqIsPow(b, 4 * k, m);
      SqIsPow(b, 8 * k, m);
      PowAdd(b, 16 * k, e % 16);
      MulMod(Pow(b, 16 * k), Pow(b, e % 16), m);
    }
  }

  lemma SquareMonotone(a: nat, b: nat)
    requires a <= b
    ensures a * a <= a * b <= b * b
  {
  }

  lemma DividesProduct(a: nat, b: nat, n: nat)
    requires a > 0 && n == a * b
    ensures Divides(a, n)
  {
    MultipleMod(b, a);
    assert n == b * a;
  }

  /** A divisor of a divisor. */
  lemma DividesTrans(p: nat, d: nat, n: nat)
    requires p > 0 && d > 0 && Divides(p, d) && Divides(d, n)
    ensures Divides(p, n)
  {
    DivMod(n, d);
    MulMod(d, n / d, p);
    Unique(0, 0, 0, p);
    assert d * (n / d) == n;
  }

  /** A composite number has a prime divisor whose square does not exceed it. */
  lemma SmallDivisor(n: nat) returns (p: nat)
    requires n >= 2 && !IsPrime(n)
    ensures IsPrime(p) && Divides(p, n) && p * p <= n
  {
    var d :| 2 <= d < n && Divides(d, n);
    var e := n / d;
    DivMod(n, d);
    assert n == d * e && n == e * d;
    Cofactors(d, e, n);
    hide IsPrime, Divides;
    if d <= e {
      SquareMonotone(d, e);
      p := PrimeDivisor(d);
      DividesTrans(p, d, n);
      SquareMonotone(p, d);
    } else {
      DividesProduct(e, d, n);
      SquareMonotone(e, d);
      p := PrimeDivisor(e);
      DividesTrans(p, e, n);
      SquareMonotone(p, e);
    }
  }

  lemma Cofactors(d: nat, e: nat, n: nat)
    requires n == d * e && 2 <= d < n
    ensures e >= 2
  {
    assert e == 1 ==> n == d;
  }

  /** What a prime does not divide has an inverse modulo it. */
  lemma Inverse(q: nat, m: nat) returns (t: nat)
    requires IsPrime(q) && q >= 2 && m % q != 0
    ensures (m * t) % q == 1
  {
    hide IsPrime, Pow;
    Fermat(q, m % q);
    PowMod(m, q - 1, q);
    t := Pow(m, q - 2);
    PowAdd(m, 1, q - 2);
    PowOne(m);
  }

  lemma PowOne(b: nat)
    ensures Pow(b, 1) == b
  {
    assert Pow(b, 1) == b * Pow(b, 0);
  }

  /**
    If a prime `p` divides `n`, and a prime `q` does not divide `p - 1`, then an
    `a` whose power `k * q` is 1 modulo `n` has its power `k` equal to 1 modulo `p`.
   */
  lemma OrderBelow(n: nat, k: nat, q: nat, a: nat, p: nat)
    requires IsPrime(q) && IsPrime(p) && p >= 2 && q >= 2 && Divides(p, n) && n >= 2
    requires (p - 1) % q != 0 && Pow(a, k * q) % n == 1
    ensures Pow(a, k) % p == 1
  {
    hide IsPrime, Divides;
    var b := Pow(a, k) % p;
    PowMul(a, k, q);
    ModThrough(Pow(a, k * q), n, p);
    PowMod(Pow(a, k), q, p);
    assert Pow(b, q) % p == 1;
    NotZero(b, q, p);
    Fermat(p, b);
    TwoOrders(p, q, b);
    DivMod(Pow(a, k), p);
    Unique(b, 0, b, p);
  }

  /** 1 modulo a number is 1 modulo its divisors. */
  lemma ModThrough(x: nat, n: nat, p: nat)
    requires n >= 2 && p >= 2 && Divides(p, n) && x % n == 1
    ensures x % p == 1
  {
    DivMod(x, n);
    MulMod(n, x / n, p);
    Unique(0, 0, 0, p);
    DivMod(n * (x / n), p);
    Unique(x, (n * (x / n)) / p, 1, p);
  }

  lemma NotZero(b: nat, q: nat, p: nat)
    requires p >= 2 && q >= 1 && b < p && Pow(b, q) % p == 1
    ensures b >= 1
  {
    if b == 0 {
      assert Pow(b, q) == 0;
      Unique(0, 0, 0, p);
    }
  }

  /** Orders dividing both `q` and `p - 1` are 1. */
  lemma TwoOrders(p: nat, q: nat, b: nat)
    requires IsPrime(q) && q >= 2 && p >= 2 && (p - 1) % q != 0 && Pow(b, q) % p == 1 && Pow(b, p - 1) % p == 1
    ensures b % p == 1
  {
    hide IsPrime, Pow;
    var t := Inverse(q, p - 1);
    var e := (p - 1) * t;
    DivMod(e, q);
    var c := e / q;
    assert e == q * c + 1;
    PowMul(b, p - 1, t);
    PowOfOne(Pow(b, p - 1), t, p);
    PowMul(b, q, c);
    PowOfOne(Pow(b, q), c, p);
    PowAdd(b, q * c, 1);
    PowOne(b);
    MulMod(Pow(b, q * c), b, p);
  }

  /**
    The certificate that a prime `q` occurs in the order of `a`: the power
    `n - 1` is 1, and the power `(n - 1) / q`, less 1, has the inverse `u`.
   */
  predicate Certificate(n: nat, q: nat, a: nat, u: nat) {
    && n >= 2 && q >= 2 && (n - 1) % q == 0 && FastPow(a, n - 1, n) == 1
    && FastPow(a, (n - 1) / q, n) >= 1 && ((FastPow(a, (n - 1) / q, n) - 1) * u) % n == 1
  }

  /** Then every prime divisor of `n` is 1 modulo `q`. */
  lemma CertificateMeans(n: nat, q: nat, a: nat, u: nat, p: nat)
    requires Certificate(n, q, a, u) && IsPrime(q) && IsPrime(p) && p >= 2 && Divides(p, n)
    ensures (p - 1) % q == 0
  {
    var k := (n - 1) / q;
    hide IsPrime, Divides, FastPow, Pow;
    DivMod(n - 1, q);
    assert n - 1 == k * q;
    FastPowIsPow(a, n - 1, n);
    FastPowIsPow(a, k, n);
    if (p - 1) % q != 0 {
      OrderBelow(n, k, q, a, p);
      NoOrder(n, a, k, u, p);
    }
  }

  lemma NoOrder(n: nat, a: nat, k: nat, u: nat, p: nat)
    requires n >= 2 && p >= 2 && Divides(p, n) && Pow(a, k) % n >= 1 && ((Pow(a, k) % n - 1) * u) % n == 1
    ensures Pow(a, k) % p != 1
  {
    hide Divides, Pow;
    var c := Pow(a, k) % n;
    SameModulo(Pow(a, k), n, p);
    ModThrough((c - 1) * u, n, p);
    if c % p == 1 {
      MinusOne(c, u, p);
    }
  }

  /** Pocklington's criterion with one prime above the root of `n`. */
  lemma Pocklington(n: nat, q: nat, a: nat, u: nat)
    requires Certificate(n, q, a, u) && IsPrime(q) && q * q > n
    ensures IsPrime(n)
  {
    if !IsPrime(n) {
      var p := SmallDivisor(n);
      SmallerRoot(p, q, n);
      CertificateMeans(n, q, a, u, p);
      Unique(p - 1, 0, p - 1, q);
    }
  }

  /** And with two primes whose product is above it. */
  lemma PocklingtonTwo(n: nat, q: nat, r: nat, a: nat, u: nat, v: nat)
    requires Certificate(n, q, a, u) && Certificate(n, r, a, v) && IsPrime(q) && IsPrime(r) && r < q
    requires (q * r) * (q * r) > n
    ensures IsPrime(n)
  {
    if !IsPrime(n) {
      var p := SmallDivisor(n);
      CertificateMeans(n, q, a, u, p);
      CertificateMeans(n, r, a, v, p);
      hide Certificate;
      ProductDivides(q, r, p - 1);
      SmallerRoot(p, q * r, n);
    }
  }

  /** What two different primes divide, unless 0, is at least their product. */
  lemma ProductDivides(q: nat, r: nat, m: nat)
    requires IsPrime(q) && IsPrime(r) && r < q && m % q == 0 && m % r == 0 && m > 0
    ensures m >= q * r
  {
    assert !Divides(r, q) && r >= 2;
    hide IsPrime;
    DivMod(m, q);
    SecondFactor(q, r, m / q);
  }

  lemma SecondFactor(q: nat, r: nat, c: nat)
    requires IsPrime(r) && r >= 2 && !Divides(r, q) && (q * c) % r == 0 && c > 0
    ensures c * q >= q * r
  {
    hide IsPrime;
    EuclidLemma(r, q, c);
    DivMod(c, r);
    hide *;
    AtLeastOne(c / r, r);
    MultiplyUp(q, r, c);
  }

  lemma MultiplyUp(q: nat, r: nat, c: nat)
    requires r <= c
    ensures q * r <= c * q
  {
  }

  lemma SmallerRoot(p: nat, q: nat, n: nat)
    requires p * p <= n < q * q
    ensures p < q
  {
    if p >= q { SquareMonotone(q, p); }
  }

  lemma SameModulo(x: nat, n: nat, p: nat)
    requires n >= 2 && p >= 2 && Divides(p, n)
    ensures (x % n) % p == x % p
  {
    DivMod(x, n);
    MulMod(n, x / n, p);
    Unique(0, 0, 0, p);
    DivMod(n * (x / n), p);
    DivMod(x % n, p);
    assert x == ((n * (x / n)) / p + (x % n) / p) * p + (x % n) % p;
    Unique(x, (n * (x / n)) / p + (x % n) / p, (x % n) % p, p);
  }

  lemma MinusOne(c: nat, u: nat, p: nat)
    requires p >= 2 && c >= 1 && c % p == 1
    ensures ((c - 1) * u) % p == 0
  {
    DivMod(c, p);
    MultipleMod(c / p, p);
    MulMod(c - 1, u, p);
    Unique(0, 0, 0, p);
  }

  // ---- Two primes

  /** No number from `lo` up to, not including, `hi` divides `n`. */
  predicate NoDivisors(n: nat, lo: nat, hi: nat)
    decreases hi - lo
  {
    lo >= hi || (lo > 0 && n % lo != 0 && NoDivisors(n, lo + 1, hi))
  }

  lemma {:induction false} NoDivisor(n: nat, lo: nat, hi: nat, d: nat)
    requires NoDivisors(n, lo, hi) && lo <= d < hi && d > 0
    ensures !Divides(d, n)
    decreases hi - lo
  {
    if lo < d { NoDivisor(n, lo + 1, hi, d); }
  }

  /** Trial division up to the root. */
  lemma TrialDivision(n: nat, hi: nat)
    requires n >= 2 && NoDivisors(n, 2, hi) && hi * hi > n
    ensures IsPrime(n)
  {
    if !IsPrime(n) {
      var p := SmallDivisor(n);
      SmallerRoot(p, hi, n);
      NoDivisor(n, 2, hi, p);
    }
  }

  lemma SmallPrimes()
    ensures IsPrime(59) && IsPrime(139)
  {
    assert NoDivisors(59, 2, 8) by { assert NoDivisors(59, 5, 8); }
    assert NoDivisors(139, 2, 12) by {
      assert NoDivisors(139, 9, 12);
      assert NoDivisors(139, 6, 12);
      assert NoDivisors(139, 4, 12);
    }
    TrialDivision(59, 8);
    TrialDivision(139, 12);
  }

  lemma PowersOfTwo()
    ensures Pow(2, 0) == 1 && Pow(2, 1) == 2 && Pow(2, 2) == 4 && Pow(2, 3) == 8 && Pow(2, 4) == 16 && Pow(2, 5) == 32
    ensures Pow(2, 6) == 64 && Pow(2, 7) == 128 && Pow(2, 8) == 256 && Pow(2, 9) == 512 && Pow(2, 10) == 1024
    ensures Pow(2, 11) == 2048 && Pow(2, 12) == 4096 && Pow(2, 13) == 8192 && Pow(2, 14) == 16384 && Pow(2, 15) == 32768
  {
    assert Pow(2, 3) == 8 && Pow(2, 6) == 64 && Pow(2, 9) == 512 && Pow(2, 12) == 4096;
  }

  lemma PowStart(m: nat)
    requires m >= 2
    ensures FastPow(2, 0, m) == 1
  {
    Unique(1, 0, 1, m);
  }

  lemma Prime492061()
    ensures IsPrime(492061)
  {
    PowersOfTwo();
    hide Pow, IsPrime, FastPow;
    PowStart(492061);
    PowStep(7, 492061, 1, 1, 1, 1, 1, 128, 128);
    PowStep(120, 492061, 128, 16384, 262211, 401174, 218762, 256, 400179);
    PowStep(1922, 492061, 400179, 11347, 326488, 223836, 411815, 4, 171077);
    PowStep(30753, 492061, 171077, 43710, 383298, 243729, 253277, 2, 14493);
    PowStep(492060, 492061, 14493, 429063, 276039, 407488, 485694, 4096, 1);
    PowStep(2, 492061, 1, 1, 1, 1, 1, 4, 4);
    PowStep(32, 492061, 4, 16, 256, 65536, 258888, 1, 258888);
    PowStep(521, 492061, 258888, 351856, 97136, 132821, 47069, 512, 480400);
    PowStep(8340, 492061, 480400, 170085, 148974, 317454, 489011, 16, 443261);
    PowStep(13, 492061, 1, 1, 1, 1, 1, 8192, 8192);
    PowStep(221, 492061, 8192, 188568, 86581, 212287, 363684, 8192, 362034);
    PowStep(3540, 492061, 362034, 296830, 98301, 484744, 395901, 16, 429684);
    SmallPrimes();
    PocklingtonTwo(492061, 139, 59, 2, 309879, 354075);
  }

  /** The largest prime whose residues multiply in 64 bits. */
  const LAST_PRIME: nat := 3037000493

  lemma LastPrimeIsPrime()
    ensures IsPrime(LAST_PRIME)
  {
    PowersOfTwo();
    hide Pow, IsPrime, FastPow;
    PowStart(3037000493);
    PowStep(11, 3037000493, 1, 1, 1, 1, 1, 2048, 2048);
    PowStep(181, 3037000493, 2048, 4194304, 1879188960, 1839336278, 746731592, 32, 2636407493);
    PowStep(2896, 3037000493, 2636407493, 927937681, 2260382652, 1781816251, 959307269, 1, 959307269);
    PowStep(46340, 3037000493, 959307269, 1690614508, 2411651211, 2341388449, 1986657289, 16, 1416511694);
    PowStep(741455, 3037000493, 1416511694, 1170280486, 217630199, 98301631, 489619450, 32768, 2413533574);
    PowStep(11863283, 3037000493, 2413533574, 348421290, 240676658, 2716972210, 1051272662, 8, 2336180310);
    PowStep(189812530, 3037000493, 2336180310, 716347994, 892835690, 2127539077, 1432314379, 4, 2692257023);
    PowStep(3037000492, 3037000493, 2692257023, 2198890476, 798680070, 1755765910, 2155410262, 4096, 1);
    PowStep(1, 3037000493, 1, 1, 1, 1, 1, 2, 2);
    PowStep(24, 3037000493, 2, 4, 16, 256, 65536, 256, 16777216);
    PowStep(385, 3037000493, 16777216, 2734018923, 135010753, 2612669603, 2967367832, 2, 2897735171);
    PowStep(6172, 3037000493, 2897735171, 1140377437, 1551315351, 1059292787, 23167434, 4096, 746794381);
    Prime492061();
    Pocklington(3037000493, 492061, 2, 2154086496);
  }

  /** A prime above it. */
  const LATER_PRIME: nat := 3043889347

  lemma LaterPrimeIsPrime()
    ensures IsPrime(LATER_PRIME)
  {
    PowersOfTwo();
    hide Pow, IsPrime, FastPow;
    PowStart(3043889347);
    PowStep(11, 3043889347, 1, 1, 1, 1, 1, 2048, 2048);
    PowStep(181, 3043889347, 2048, 4194304, 1549508103, 801319995, 1576911674, 32, 1758944016);
    PowStep(2902, 3043889347, 1758944016, 2926799892, 1078825183, 1409614750, 1418786963, 64, 2529574569);
    PowStep(46446, 3043889347, 2529574569, 2366253006, 2950863138, 742931577, 2095144666, 16384, 910041625);
    PowStep(743137, 3043889347, 910041625, 1247287351, 2842705977, 2566919897, 1714699121, 2, 385508895);
    PowStep(11890192, 3043889347, 385508895, 2168076245, 1399819493, 1870682825, 1558269642, 1, 1558269642);
    PowStep(190243084, 3043889347, 1558269642, 2416688605, 2241355489, 975692001, 354139460, 4096, 1663898988);
    PowStep(3043889346, 3043889347, 1663898988, 2798369768, 92325839, 1521944673, 760972337, 4, 1);
    PowStep(1, 3043889347, 1, 1, 1, 1, 1, 2, 2);
    PowStep(24, 3043889347, 2, 4, 16, 256, 65536, 256, 16777216);
    PowStep(386, 3043889347, 16777216, 441014872, 1197332471, 1396247267, 1469448701, 4, 2833905457);
    PowStep(6186, 3043889347, 2833905457, 878972560, 2502391419, 2333682896, 225994290, 1024, 82562588);
    Prime492061();
    Pocklington(3043889347, 492061, 2, 2497801150);
  }
}
