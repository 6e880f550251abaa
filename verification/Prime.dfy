/**
  The prime search of src/Prime.h. The witnesses of the Miller-Rabin test come
  from `rand`; here each one is an arbitrary choice in its range, so what is
  proved holds for every stream of them.
 */
module PrimeSearch {
  import opened NumberTheory
  import opened PrimeCertificates

  /** How many random witnesses the test tries. */
  const CHECKTIMES: nat := 20

  function Pow2(e: nat): (r: nat)
    ensures r >= 1
  {
    if e == 0 then 1 else 2 * Pow2(e - 1)
  }

  /** One past the largest `unsigned int`. */
  const UINT_RANGE: nat := 0x1_0000_0000

  /** A 64-bit product, signed, with two's complement wrap-around. */
  function I64(a: int): (r: int)
    ensures -0x8000_0000_0000_0000 <= r < 0x8000_0000_0000_0000
    ensures -0x8000_0000_0000_0000 <= a < 0x8000_0000_0000_0000 ==> r == a
  {
    var m := a % 0x1_0000_0000_0000_0000;
    if m >= 0x8000_0000_0000_0000 then m - 0x1_0000_0000_0000_0000 else m
  }

  /** The remainder of a division that truncates toward zero. */
  function TruncatedRem(a: int, b: nat): int
    requires b > 0
  {
    if a >= 0 then a % b else -((-a) % b)
  }

  /** `u64_mulmod`, with its 64-bit product and the cast to `unsigned int`. */
  function U64MulMod(a: nat, b: nat, m: nat): (r: nat)
    requires m > 0
    ensures r < UINT_RANGE
  {
    TruncatedRem(I64(a * b), m) % UINT_RANGE
  }

  /** The largest operand for which a product stays in a signed 64-bit integer. */
  const MAX_OPERAND: nat := 3037000499

  /** Modular multiplication of all residues is exact if and only if their products fit. */
  lemma MulModIsExactIff(src: nat)
    requires 2 <= src < UINT_RANGE
    ensures (forall a, b :: 0 <= a < src && 0 <= b < src ==> U64MulMod(a, b, src) == ModMul(a, b, src))
      <==> src - 1 <= MAX_OPERAND
  {
    if src - 1 <= MAX_OPERAND {
      forall a, b | 0 <= a < src && 0 <= b < src ensures U64MulMod(a, b, src) == ModMul(a, b, src) {
        MulModExact(a, b, src);
      }
    } else {
      LargestResidueFails(src);
    }
  }

  lemma MulModExact(a: nat, b: nat, src: nat)
    requires 2 <= src && src - 1 <= MAX_OPERAND && a < src && b < src
    ensures U64MulMod(a, b, src) == ModMul(a, b, src) < src
  {
    MulMonotone(a, b, MAX_OPERAND);
    SmallProduct(a * b, src);
  }

  lemma SmallProduct(p: nat, m: nat)
    requires p < 0x8000_0000_0000_0000 && 0 < m < UINT_RANGE
    ensures TruncatedRem(I64(p), m) % UINT_RANGE == p % m < m
  {
    Unique(p % m, 0, p % m, UINT_RANGE);
  }

  /** Above the bound the square of -1 is not 1. */
  lemma LargestResidueFails(src: nat)
    requires MAX_OPERAND < src - 1 < UINT_RANGE - 1
    ensures ModMul(src - 1, src - 1, src) == 1 && U64MulMod(src - 1, src - 1, src) != 1
  {
    var n := (src - 1) * (src - 1);
    assert n == (src - 2) * src + 1;
    Unique(n, src - 2, 1, src);
    MulMonotone(MAX_OPERAND + 1, MAX_OPERAND + 1, src - 1);
    MulMonotone(src - 1, src - 1, UINT_RANGE - 2);
    assert I64(n) == n - 0x1_0000_0000_0000_0000;
    var k := (0x1_0000_0000_0000_0000 - n) % src;
    assert U64MulMod(src - 1, src - 1, src) == if k == 0 then 0 else UINT_RANGE - k;
  }

  lemma MulMonotone(a: nat, b: nat, n: nat)
    requires a <= n && b <= n
    ensures a * b <= n * n
  {
    assert a * b <= n * b;
    assert n * b <= n * n;
  }

  lemma Pow2Values()
    ensures Pow2(0) == 1 && Pow2(1) == 2 && Pow2(2) == 4 && Pow2(3) == 8 && Pow2(4) == 16 && Pow2(5) == 32
    ensures Pow2(6) == 64 && Pow2(7) == 128 && Pow2(8) == 256 && Pow2(9) == 512 && Pow2(10) == 1024 && Pow2(11) == 2048
    ensures Pow2(12) == 4096 && Pow2(13) == 8192 && Pow2(14) == 16384 && Pow2(15) == 32768 && Pow2(16) == 65536
    ensures Pow2(17) == 131072 && Pow2(18) == 262144 && Pow2(19) == 524288 && Pow2(20) == 1048576
    ensures Pow2(21) == 2097152 && Pow2(22) == 4194304 && Pow2(23) == 8388608 && Pow2(24) == 16777216
    ensures Pow2(25) == 33554432 && Pow2(26) == 67108864 && Pow2(27) == 134217728 && Pow2(28) == 268435456
    ensures Pow2(29) == 536870912 && Pow2(30) == 1073741824 && Pow2(31) == 2147483648 && Pow2(32) == UINT_RANGE
  {
  }

  /** `BitIsSet`. */
  predicate BitIsSet(src: nat, b: nat) {
    (src / Pow2(b)) % 2 == 1
  }

  lemma TopBit(src: nat, b: nat)
    requires src < 2 * Pow2(b)
    ensures BitIsSet(src, b) <==> src >= Pow2(b)
  {
    if src >= Pow2(b) {
      Unique(src, 1, src - Pow2(b), Pow2(b));
    } else {
      Unique(src, 0, src, Pow2(b));
    }
  }

  /** The length of a number in binary. */
  method NumberOfBits(src: nat) returns (n: nat)
    requires src < UINT_RANGE
    ensures src == 0 ==> n == 0
    ensures src > 0 ==> n > 0 && Pow2(n - 1) <= src < Pow2(n)
  {
    if src == 0 {
      return 0;
    }
    Pow2Values();
    var b := 31;
    while b > 0
      invariant src < Pow2(b + 1) && b <= 31
    {
      TopBit(src, b);
      if BitIsSet(src, b) {
        return b + 1;
      }
      b := b - 1;
    }
    return 1;
  }

  /** The bits of a number from place `i` on. */
  function Shifted(n: nat, i: nat): nat {
    Quotient(n, Pow2(i))
  }

  function Quotient(n: nat, d: nat): nat
    requires d > 0
  {
    n / d
  }

  /** Shifting by one place less doubles the number and adds the bit. */
  lemma BitStep(n: nat, i: nat)
    ensures Shifted(n, i) == 2 * Shifted(n, i + 1) + if BitIsSet(n, i) then 1 else 0
  {
    var p := Pow2(i);
    var q, r := n / p, n % p;
    DivMod(n, p);
    var h, bit := q / 2, q % 2;
    assert n == h * (2 * p) + (bit * p + r) by {
      assert q == 2 * h + bit;
      assert (2 * h + bit) * p == h * (2 * p) + bit * p;
    }
    assert bit * p + r < 2 * p;
    Unique(n, h, bit * p + r, 2 * p);
  }

  /** Squaring the running power. */
  lemma SquareStep(w: nat, e: nat, m: nat)
    requires m > 0
    ensures ModMul(Pow(w, e) % m, Pow(w, e) % m, m) == Pow(w, 2 * e) % m
  {
    PowAdd(w, e, e);
    MulModBoth(Pow(w, e), Pow(w, e), m);
  }

  /** Multiplying the running power by the base. */
  lemma MultiplyStep(w: nat, e: nat, m: nat)
    requires m > 0
    ensures ModMul(Pow(w, e) % m, w, m) == Pow(w, e + 1) % m
  {
    MulMod(Pow(w, e), w, m);
    assert Pow(w, e) * w == Pow(w, e + 1);
  }

  /** Squaring the power reached after the bits above `i` gives 1 only from 1 or -1. */
  ghost predicate RootOk(w: nat, src: nat, i: nat)
    requires src >= 2
  {
    var x := Pow(w, Shifted(src - 1, i + 1)) % src;
    ModMul(x, x, src) == 1 ==> x == 1 || x == src - 1
  }

  /** `src` behaves like a prime for `w`: no odd square root of 1, and Fermat's equation. */
  ghost predicate Passes(w: nat, src: nat)
    requires src >= 2
  {
    Pow(w, src - 1) % src == 1 && forall i: nat :: RootOk(w, src, i)
  }

  /** A prime passes for every witness. */
  lemma PrimePasses(src: nat, w: nat)
    requires IsPrime(src) && 1 <= w < src
    ensures Passes(w, src)
  {
    hide IsPrime, Pow, RootOk;
    Fermat(src, w);
    forall i: nat ensures RootOk(w, src, i) {
      PrimeRootOk(src, w, i);
    }
  }

  lemma PrimeRootOk(src: nat, w: nat, i: nat)
    requires IsPrime(src) && src >= 2
    ensures RootOk(w, src, i)
  {
    hide IsPrime, Pow, Pow2;
    var x := Pow(w, Shifted(src - 1, i + 1)) % src;
    if ModMul(x, x, src) == 1 {
      SquareRootsOfOne(src, x);
    }
  }

  /** What the loop of `isWitness` answers from the power `d`, with `i` bits of `src - 1` to go. */
  predicate Rejected(w: nat, src: nat, i: nat, d: nat)
    requires src > 0
  {
    if i == 0 then d != 1
    else
      var s := U64MulMod(d, d, src);
      (s == 1 && d != 1 && d != src - 1)
      || Rejected(w, src, i - 1, if BitIsSet(src - 1, i - 1) then U64MulMod(s, w, src) else s)
  }

  /** The answer of the loop, from the highest bit on. */
  ghost predicate LoopRejects(w: nat, src: nat)
    requires src >= 2
  {
    forall n: nat :: n > 0 && Pow2(n - 1) <= src - 1 < Pow2(n) ==> Rejected(w, src, n, 1)
  }

  lemma LoopAt(w: nat, src: nat, n: nat)
    requires src >= 2 && n > 0 && Pow2(n - 1) <= src - 1 < Pow2(n)
    ensures LoopRejects(w, src) == Rejected(w, src, n, 1)
  {
    OneLength(src - 1, n);
    hide Pow2, Rejected;
  }

  /**
    Whether `w` proves `src` composite: its power `src - 1` is computed bit by
    bit, watching for square roots of 1 other than 1 and -1. As long as the
    products fit, the answer is that of the test, and never against a prime.
   */
  method IsWitness(w: nat, src: nat) returns (r: bool)
    requires 2 <= src < UINT_RANGE && 1 <= w < src
    ensures r <==> LoopRejects(w, src)
    ensures src - 1 <= MAX_OPERAND ==> (r <==> !Passes(w, src)) && (IsPrime(src) ==> !r)
  {
    hide IsPrime, Pow, Pow2, BitIsSet, ModMul, RootOk, U64MulMod, LoopRejects;
    if IsPrime(src) {
      PrimePasses(src, w);
    }
    var bits := NumberOfBits(src - 1);
    LoopAt(w, src, bits);
    var d: nat := 1;
    StartOk(w, src, bits);
    for i := bits downto 0
      invariant Rejected(w, src, bits, 1) == Rejected(w, src, i, d)
      invariant src - 1 <= MAX_OPERAND ==> d < src && RightSoFar(w, src, i, d)
    {
      var x := d;
      d := U64MulMod(d, d, src);
      if src - 1 <= MAX_OPERAND {
        SquareRight(w, src, i, x);
      }
      if d == 1 && x != 1 && x != src - 1 {
        return true;
      }
      if BitIsSet(src - 1, i) {
        d := U64MulMod(d, w, src);
      }
      if src - 1 <= MAX_OPERAND {
        BitRight(w, src, i, x, d);
      }
    }
    if src - 1 <= MAX_OPERAND {
      EndRight(w, src, d);
    }
    return d != 1;
  }

  /** The power reached after the bits above `i`, and no odd root of 1 on the way. */
  ghost predicate RightSoFar(w: nat, src: nat, i: nat, d: nat)
    requires src >= 2
  {
    d == Pow(w, Shifted(src - 1, i)) % src && forall k: nat :: k >= i ==> RootOk(w, src, k)
  }

  lemma OneLength(a: nat, n: nat)
    requires a > 0 && n > 0 && Pow2(n - 1) <= a < Pow2(n)
    ensures forall k: nat :: k > 0 && Pow2(k - 1) <= a < Pow2(k) ==> k == n
  {
    hide Pow2;
    forall k: nat | k > 0 && Pow2(k - 1) <= a < Pow2(k) ensures k == n {
      if k < n { Pow2Monotone(k, n - 1); }
      if n < k { Pow2Monotone(n, k - 1); }
    }
  }

  lemma StartOk(w: nat, src: nat, bits: nat)
    requires src >= 2 && src - 1 < Pow2(bits)
    ensures RightSoFar(w, src, bits, 1)
  {
    hide Pow, Pow2, RootOk;
    Unique(src - 1, 0, src - 1, Pow2(bits));
    PowZero(w, src);
    forall k: nat | k >= bits ensures RootOk(w, src, k) {
      HighRootOk(w, src, bits, k);
    }
  }

  /** The square is right, and shows whether the root is. */
  lemma SquareRight(w: nat, src: nat, i: nat, x: nat)
    requires 2 <= src && src - 1 <= MAX_OPERAND && x < src && x == Pow(w, Shifted(src - 1, i + 1)) % src
    ensures var s := U64MulMod(x, x, src);
      && s < src && s == Pow(w, 2 * Shifted(src - 1, i + 1)) % src
      && (RootOk(w, src, i) <==> (s == 1 ==> x == 1 || x == src - 1))
  {
    hide Pow, Pow2, RootOk, U64MulMod, ModMul;
    MulModExact(x, x, src);
    RootAt(w, src, i, x, ModMul(x, x, src));
    SquareStep(w, Shifted(src - 1, i + 1), src);
  }

  /** So is the power after the bit. */
  lemma BitRight(w: nat, src: nat, i: nat, x: nat, d: nat)
    requires 2 <= src && src - 1 <= MAX_OPERAND && x < src && w < src && RightSoFar(w, src, i + 1, x)
    requires RootOk(w, src, i)
    requires var s := U64MulMod(x, x, src); d == if BitIsSet(src - 1, i) then U64MulMod(s, w, src) else s
    ensures d < src && RightSoFar(w, src, i, d)
  {
    NextPower(w, src, i, x, d);
    hide Pow, Pow2, RootOk, U64MulMod, BitIsSet;
    forall k: nat | k >= i ensures RootOk(w, src, k) {
      assert k == i || k >= i + 1;
    }
  }

  lemma BitMultiplies(w: nat, src: nat, e: nat, s: nat)
    requires 2 <= src && src - 1 <= MAX_OPERAND && w < src && s < src && s == Pow(w, e) % src
    ensures U64MulMod(s, w, src) == Pow(w, e + 1) % src < src
  {
    hide Pow, U64MulMod, ModMul;
    MulModExact(s, w, src);
    MultiplyStep(w, e, src);
  }

  lemma NextPower(w: nat, src: nat, i: nat, x: nat, d: nat)
    requires 2 <= src && src - 1 <= MAX_OPERAND && x < src && w < src && x == Pow(w, Shifted(src - 1, i + 1)) % src
    requires var s := U64MulMod(x, x, src); d == if BitIsSet(src - 1, i) then U64MulMod(s, w, src) else s
    ensures d < src && d == Pow(w, Shifted(src - 1, i)) % src
  {
    hide *;
    SquareRight(w, src, i, x);
    BitStep(src - 1, i);
    if BitIsSet(src - 1, i) {
      BitMultiplies(w, src, 2 * Shifted(src - 1, i + 1), U64MulMod(x, x, src));
    }
  }

  lemma EndRight(w: nat, src: nat, d: nat)
    requires src >= 2 && RightSoFar(w, src, 0, d)
    ensures d == 1 <==> Passes(w, src)
  {
    hide Pow, RootOk;
    WholeExponent(src - 1);
  }

  lemma RootAt(w: nat, src: nat, i: nat, x: nat, d: nat)
    requires src >= 2 && x == Pow(w, Shifted(src - 1, i + 1)) % src && d == ModMul(x, x, src)
    ensures RootOk(w, src, i) <==> (d == 1 ==> x == 1 || x == src - 1)
  {
  }

  lemma HighRootOk(w: nat, src: nat, bits: nat, k: nat)
    requires src >= 2 && src - 1 < Pow2(bits) && k >= bits
    ensures RootOk(w, src, k)
  {
    Pow2Monotone(bits, k + 1);
    Unique(src - 1, 0, src - 1, Pow2(k + 1));
    PowZero(w, src);
  }

  lemma {:induction false} Pow2Monotone(a: nat, b: nat)
    requires a <= b
    ensures Pow2(a) <= Pow2(b)
    decreases b
  {
    if a < b {
      Pow2Monotone(a, b - 1);
    }
  }

  lemma PowZero(w: nat, m: nat)
    requires m >= 2
    ensures Pow(w, 0) % m == 1
  {
    Unique(1, 0, 1, m);
  }

  lemma WholeExponent(n: nat)
    ensures Shifted(n, 0) == n
  {
  }

  /**
    Twenty rounds with arbitrary witnesses. What is accepted passed each one that
    was tried; as long as the products fit, that is the test, and a prime passes.
   */
  method IsMillerRabinPrime(src: nat) returns (r: bool, ghost tried: seq<nat>)
    requires 2 <= src < UINT_RANGE
    ensures forall k :: 0 <= k < |tried| ==> 1 <= tried[k] < src
    ensures r ==> |tried| == 20 && forall k :: 0 <= k < |tried| ==> !LoopRejects(tried[k], src)
    ensures |tried| <= 20
    ensures !r ==> tried != [] && LoopRejects(tried[|tried| - 1], src)
    ensures src - 1 <= MAX_OPERAND && IsPrime(src) ==> r
    ensures src - 1 <= MAX_OPERAND && r ==> forall k :: 0 <= k < |tried| ==> Passes(tried[k], src)
    ensures src - 1 <= MAX_OPERAND && !r ==> tried != [] && !Passes(tried[|tried| - 1], src)
  {
    hide IsPrime, Passes, LoopRejects;
    tried := [];
    for n := 0 to CHECKTIMES
      invariant |tried| == n && forall k :: 0 <= k < n ==> 1 <= tried[k] < src && !LoopRejects(tried[k], src)
      invariant src - 1 <= MAX_OPERAND ==> forall k :: 0 <= k < n ==> Passes(tried[k], src)
    {
      var w: nat :| 1 <= w <= src - 1;
      tried := tried + [w];
      var composite := IsWitness(w, src);
      if composite {
        return false, tried;
      }
    }
    r := true;
  }

  predicate HasFactor(src: nat, n: nat)
    requires n > 0
  {
    src != n && Divides(n, src)
  }

  predicate HasEasyFactors(src: nat) {
    HasFactor(src, 3) || HasFactor(src, 5) || HasFactor(src, 7) || HasFactor(src, 11) || HasFactor(src, 13)
  }

  /** The small-factor filter never rejects a prime. */
  lemma EasyFactorsSparePrimes(src: nat)
    requires IsPrime(src)
    ensures !HasEasyFactors(src)
  {
    forall n: nat | n >= 2 && n != src ensures !Divides(n, src) {
      if n > src {
        Unique(src, 0, src, n);
      }
    }
  }

  /** An odd number that passes the filter has no proper divisor up to 16, so below 289 it is prime. */
  lemma SmallFactorsAreFound(src: nat)
    requires src >= 2 && src % 2 == 1 && !HasEasyFactors(src)
    ensures forall d: nat :: 2 <= d <= 16 && d < src ==> !Divides(d, src)
    ensures src < 289 ==> IsPrime(src)
  {
    forall d: nat | 2 <= d <= 16 && d < src ensures !Divides(d, src) {
      NoSmallFactor(src, d);
    }
    if src < 289 {
      forall d: nat | 2 <= d < src ensures !Divides(d, src) {
        if Divides(d, src) {
          var e := CofactorOf(src, d);
          LargeProduct(d, e);
        }
      }
    }
  }

  lemma NoSmallFactor(src: nat, d: nat)
    requires src % 2 == 1 && !HasEasyFactors(src) && 2 <= d <= 16 && d < src
    ensures !Divides(d, src)
  {
    var p := if d % 2 == 0 then 2 else if d % 3 == 0 then 3 else d;
    assert p == 2 || p == 3 || p == 5 || p == 7 || p == 11 || p == 13;
    if Divides(d, src) {
      FactorOfFactor(p, d / p, src);
    }
  }

  lemma FactorOfFactor(p: nat, k: nat, n: nat)
    requires p > 0 && k > 0 && p * k > 0 && Divides(p * k, n)
    ensures Divides(p, n)
  {
    var q := n / (p * k);
    assert n == (p * k) * q == (k * q) * p;
    Unique(n, k * q, 0, p);
  }

  /** What is left of a number when a proper factor is taken out is a proper factor. */
  lemma CofactorOf(n: nat, d: nat) returns (e: nat)
    requires 2 <= d < n && Divides(d, n)
    ensures 2 <= e < n && n == d * e && Divides(e, n)
  {
    e := n / d;
    assert n == d * e;
    assert e != 0 && e != 1;
    assert n == e + (d - 1) * e;
    Unique(n, d, 0, e);
  }

  lemma LargeProduct(d: nat, e: nat)
    ensures d >= 17 && e >= 17 ==> d * e >= 289
  {
    if d >= 17 && e >= 17 {
      assert d * e == 17 * e + (d - 17) * e;
    }
  }

  /** No small factor was found, and twenty witnesses did not reject the number. */
  ghost predicate Accepted(src: nat, tried: seq<nat>)
    requires src >= 2
  {
    && !HasEasyFactors(src) && |tried| == 20
    && forall k :: 0 <= k < |tried| ==> 1 <= tried[k] < src && !LoopRejects(tried[k], src)
  }

  lemma AcceptedHasNoSmallFactor(src: nat, tried: seq<nat>)
    requires src >= 2 && src % 2 == 1 && Accepted(src, tried)
    ensures forall d: nat :: 2 <= d <= 16 && d < src ==> !Divides(d, src)
    ensures src < 289 ==> IsPrime(src)
  {
    hide LoopRejects;
    SmallFactorsAreFound(src);
  }

  /** A multiple of 3, 5, 7, 11 or 13 other than itself, or a number some witness is against. */
  ghost predicate Rejectable(n: nat)
    requires n >= 2
  {
    || (n != 3 && n % 3 == 0) || (n != 5 && n % 5 == 0) || (n != 7 && n % 7 == 0) || (n != 11 && n % 11 == 0)
    || (n != 13 && n % 13 == 0) || exists w: nat :: 1 <= w < n && LoopRejects(w, n)
  }

  lemma EasyFactorIsReason(src: nat)
    requires src >= 2 && HasEasyFactors(src)
    ensures Rejectable(src)
  {
  }

  lemma WitnessIsReason(src: nat, w: nat)
    requires 1 <= w < src && LoopRejects(w, src)
    ensures Rejectable(src)
  {
  }

  /** `isPrime`. */
  method MayBePrime(src: nat) returns (r: bool, ghost tried: seq<nat>)
    requires 2 <= src < UINT_RANGE
    ensures src - 1 <= MAX_OPERAND && IsPrime(src) ==> r
    ensures r ==> Accepted(src, tried)
    ensures !r ==> Rejectable(src)
  {
    hide LoopRejects, Rejectable;
    tried := [];
    if HasEasyFactors(src) {
      EasyFactorMeansComposite(src);
      EasyFactorIsReason(src);
      return false, tried;
    }
    r, tried := IsMillerRabinPrime(src);
    if !r {
      WitnessIsReason(src, tried[|tried| - 1]);
    }
  }

  lemma EasyFactorMeansComposite(src: nat)
    requires HasEasyFactors(src)
    ensures !IsPrime(src)
  {
    if IsPrime(src) {
      EasyFactorsSparePrimes(src);
    }
  }

  /** An odd number from `asked` on, and no larger than any odd prime the test is sure to accept. */
  ghost predicate RightSize(asked: nat, size: nat) {
    && asked <= size < UINT_RANGE && size % 2 == 1
    && forall q: nat :: IsPrime(q) && q % 2 == 1 && 2 <= asked <= q <= LAST_PRIME ==> size <= q
  }

  /**
    `bdd_prime_gte`. The search ends at an odd number, not below `src`, that was
    accepted; or `src` wraps around to 1, for which drawing a witness divides by
    zero, so that nothing is defined. Up to the last prime the test is sure to
    accept it always ends, and not above any odd prime in between. What it finds
    has no proper divisor up to 16, whatever witnesses were drawn, so that all it
    finds below 289 is prime; and there was a reason to pass over each odd number
    before it.
   */
  method BddPrimeGte(src: nat) returns (r: nat, defined: bool, ghost tried: seq<nat>)
    requires src < UINT_RANGE
    ensures defined ==> 2 <= src <= r < 0x1_0000_0000 && r % 2 == 1 && Accepted(r, tried)
    ensures defined ==> forall d: nat :: 2 <= d <= 16 && d < r ==> !Divides(d, r)
    ensures defined && r < 289 ==> IsPrime(r)
    ensures defined ==> forall n: nat :: src <= n < r && n % 2 == 1 ==> Rejectable(n)
    ensures 2 <= src <= LAST_PRIME ==> defined && r <= LAST_PRIME
    ensures forall q: nat :: IsPrime(q) && q % 2 == 1 && 2 <= src <= q <= LAST_PRIME ==> r <= q
  {
    hide IsPrime, Accepted, Rejectable;
    LastPrimeIsPrime();
    r, tried := if src % 2 == 0 then src + 1 else src, [];
    while true
      invariant r % 2 == 1 && r < UINT_RANGE && (r == 1 || 2 <= src <= r)
      invariant r != 1 ==> forall n: nat :: src <= n < r && n % 2 == 1 ==> Rejectable(n)
      invariant 2 <= src <= LAST_PRIME ==> r != 1 && r <= LAST_PRIME
      invariant forall q: nat :: IsPrime(q) && q % 2 == 1 && 2 <= src <= q <= LAST_PRIME ==> r <= q
      decreases if r == 1 then 0 else UINT_RANGE - r
    {
      if r == 1 {
        return r, false, tried;
      }
      var found;
      found, tried := MayBePrime(r);
      if found {
        AcceptedHasNoSmallFactor(r, tried);
        return r, true, tried;
      }
      r := (r + 2) % UINT_RANGE;
    }
  }

  /** With exact products the search stops from every start: some number passes whatever witness is drawn. */
  lemma ExactSearchStops(src: nat) returns (q: nat)
    ensures q >= src && q % 2 == 1 && q >= 2 && !HasEasyFactors(q) && forall w: nat :: 1 <= w < q ==> Passes(w, q)
  {
    hide Passes;
    q := PrimeAbove(src + 2);
    assert !Divides(2, q);
    EasyFactorsSparePrimes(q);
    forall w: nat | 1 <= w < q ensures Passes(w, q) {
      PrimePasses(q, w);
    }
  }

  // ---- A prime the test rejects

  /** One step of the loop of `isWitness`, worked out by hand. */
  lemma RejectStep(w: nat, src: nat, i: nat, d: nat, s: nat, d': nat)
    requires src > 0 && U64MulMod(d, d, src) == s && (s != 1 || d == 1)
    requires d' == if BitIsSet(src - 1, i) then U64MulMod(s, w, src) else s
    ensures Rejected(w, src, i + 1, d) == Rejected(w, src, i, d')
  {
    hide U64MulMod, BitIsSet;
  }

  /** A prime just above the bound, and a witness against it. */
  lemma RejectsAPrime()
    ensures IsPrime(LATER_PRIME) && LATER_PRIME - 1 > MAX_OPERAND
    ensures LoopRejects(2, LATER_PRIME)
  {
    LaterPrimeIsPrime();
    Pow2Values();
    hide IsPrime, Pow2, Rejected, LoopRejects;
    RejectedAtLast();
    LoopAt(2, LATER_PRIME, 32);
  }

  lemma RejectedAtLast()
    ensures Rejected(2, LATER_PRIME, 32, 1)
  {
    assert Rejected(2, LATER_PRIME, 0, 3673665670);
    hide Rejected;
    RejectedFrom32();
    RejectedFrom28();
    RejectedFrom24();
    RejectedFrom20();
    RejectedFrom16();
    RejectedFrom12();
    RejectedFrom8();
    RejectedFrom4();
  }

  lemma RejectedFrom32()
    ensures Rejected(2, LATER_PRIME, 32, 1) == Rejected(2, LATER_PRIME, 28, 2048)
  {
    Pow2Values();
    hide Rejected, Pow2;
    RejectStep(2, LATER_PRIME, 31, 1, 1, 2);
    RejectStep(2, LATER_PRIME, 30, 2, 4, 4);
    RejectStep(2, LATER_PRIME, 29, 4, 16, 32);
    RejectStep(2, LATER_PRIME, 28, 32, 1024, 2048);
  }

  lemma RejectedFrom28()
    ensures Rejected(2, LATER_PRIME, 28, 2048) == Rejected(2, LATER_PRIME, 24, 1758944016)
  {
    Pow2Values();
    hide Rejected, Pow2;
    RejectStep(2, LATER_PRIME, 27, 2048, 4194304, 4194304);
    RejectStep(2, LATER_PRIME, 26, 4194304, 1549508103, 55126859);
    RejectStep(2, LATER_PRIME, 25, 55126859, 161390633, 161390633);
    RejectStep(2, LATER_PRIME, 24, 161390633, 879472008, 1758944016);
  }

  lemma RejectedFrom24()
    ensures Rejected(2, LATER_PRIME, 24, 1758944016) == Rejected(2, LATER_PRIME, 20, 2529574569)
  {
    Pow2Values();
    hide Rejected, Pow2;
    RejectStep(2, LATER_PRIME, 23, 1758944016, 2926799892, 2926799892);
    RejectStep(2, LATER_PRIME, 22, 2926799892, 1078825183, 2157650366);
    RejectStep(2, LATER_PRIME, 21, 2157650366, 2594569653, 2145249959);
    RejectStep(2, LATER_PRIME, 20, 2145249959, 2529574569, 2529574569);
  }

  lemma RejectedFrom20()
    ensures Rejected(2, LATER_PRIME, 20, 2529574569) == Rejected(2, LATER_PRIME, 16, 910041625)
  {
    Pow2Values();
    hide Rejected, Pow2;
    RejectStep(2, LATER_PRIME, 19, 2529574569, 2366253006, 1688616665);
    RejectStep(2, LATER_PRIME, 18, 1688616665, 2671784511, 2299679675);
    RejectStep(2, LATER_PRIME, 17, 2299679675, 1889280723, 734672099);
    RejectStep(2, LATER_PRIME, 16, 734672099, 910041625, 910041625);
  }

  lemma RejectedFrom16()
    ensures Rejected(2, LATER_PRIME, 16, 910041625) == Rejected(2, LATER_PRIME, 12, 385508895)
  {
    Pow2Values();
    hide Rejected, Pow2;
    RejectStep(2, LATER_PRIME, 15, 910041625, 1247287351, 1247287351);
    RejectStep(2, LATER_PRIME, 14, 1247287351, 2842705977, 2842705977);
    RejectStep(2, LATER_PRIME, 13, 2842705977, 2566919897, 2566919897);
    RejectStep(2, LATER_PRIME, 12, 2566919897, 1714699121, 385508895);
  }

  lemma RejectedFrom12()
    ensures Rejected(2, LATER_PRIME, 12, 385508895) == Rejected(2, LATER_PRIME, 8, 1558269642)
  {
    Pow2Values();
    hide Rejected, Pow2;
    RejectStep(2, LATER_PRIME, 11, 385508895, 2168076245, 2168076245);
    RejectStep(2, LATER_PRIME, 10, 2168076245, 1399819493, 1399819493);
    RejectStep(2, LATER_PRIME, 9, 1399819493, 1870682825, 1870682825);
    RejectStep(2, LATER_PRIME, 8, 1870682825, 1558269642, 1558269642);
  }

  lemma RejectedFrom8()
    ensures Rejected(2, LATER_PRIME, 8, 1558269642) == Rejected(2, LATER_PRIME, 4, 1663898988)
  {
    Pow2Values();
    hide Rejected, Pow2;
    RejectStep(2, LATER_PRIME, 7, 1558269642, 2416688605, 1789487863);
    RejectStep(2, LATER_PRIME, 6, 1789487863, 2877643262, 2711397177);
    RejectStep(2, LATER_PRIME, 5, 2711397177, 1566501124, 1566501124);
    RejectStep(2, LATER_PRIME, 4, 1566501124, 1663898988, 1663898988);
  }

  lemma RejectedFrom4()
    ensures Rejected(2, LATER_PRIME, 4, 1663898988) == Rejected(2, LATER_PRIME, 0, 3673665670)
  {
    RejectedLast();
    Pow2Values();
    hide Rejected, Pow2;
    RejectStep(2, LATER_PRIME, 3, 1663898988, 2798369768, 2798369768);
    RejectStep(2, LATER_PRIME, 2, 2798369768, 92325839, 92325839);
    RejectStep(2, LATER_PRIME, 1, 92325839, 1521944673, 3043889346);
  }

  lemma RejectedLast()
    ensures Rejected(2, LATER_PRIME, 1, 3043889346) == Rejected(2, LATER_PRIME, 0, 3673665670)
  {
    LastSquare();
    assert !BitIsSet(LATER_PRIME - 1, 0);
    hide Rejected, Pow2, BitIsSet, U64MulMod;
    RejectStep(2, LATER_PRIME, 0, 3043889346, 3673665670, 3673665670);
  }

  /** The square of -1 does not fit into 63 bits, and comes out wrong. */
  lemma LastSquare()
    ensures U64MulMod(3043889346, 3043889346, LATER_PRIME) == 3673665670
  {
    assert I64(9265262350692307716) == -9181481723017243900;
    assert 9181481723017243900 == 3016365142 * LATER_PRIME + 621301626;
    assert TruncatedRem(-9181481723017243900, LATER_PRIME) == -621301626;
  }
}
