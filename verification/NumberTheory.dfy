/**
  The arithmetic behind the prime search: primes are infinite in number, a
  prime that divides a product divides a factor, Fermat's little theorem, and
  the two square roots of 1 modulo a prime.
 */
module NumberTheory {
  import opened Collections

  predicate Divides(d: nat, n: nat)
    requires d > 0
  {
    n % d == 0
  }

  ghost predicate IsPrime(n: nat) {
    n >= 2 && forall d :: 2 <= d < n ==> !Divides(d, n)
  }

  function Pow(b: nat, e: nat): nat {
    if e == 0 then 1 else b * Pow(b, e - 1)
  }

  /** `u64_mulmod`: the remainder of a product. */
  function ModMul(a: nat, b: nat, m: nat): (r: nat)
    requires m > 0
    ensures r < m
  {
    (a * b) % m
  }

  // ---- Remainders

  lemma DivMod(a: nat, m: nat)
    requires m > 0
    ensures a == (a / m) * m + a % m && a % m < m
  {
  }

  lemma AtLeastOne(k: nat, m: nat)
    requires k > 0
    ensures k * m >= m
  {
  }

  lemma NextMultiple(i: nat, j: nat, m: nat)
    ensures i < j ==> i * m + m <= j * m
  {
    if i < j {
      AtLeastOne(j - i, m);
      assert (j - i) * m == j * m - i * m;
    }
  }

  /** Quotient and remainder are determined by their equation. */
  lemma Unique(a: nat, q: nat, r: nat, m: nat)
    requires m > 0 && a == q * m + r && r < m
    ensures a % m == r && a / m == q
  {
    var q0, r0 := a / m, a % m;
    DivMod(a, m);
    NextMultiple(q, q0, m);
    NextMultiple(q0, q, m);
  }

  lemma ModAddMultiple(x: nat, k: nat, m: nat)
    requires m > 0
    ensures (x + k * m) % m == x % m
  {
    DivMod(x, m);
    assert x + k * m == (x / m + k) * m + x % m;
    Unique(x + k * m, x / m + k, x % m, m);
  }

  lemma MultipleMod(k: nat, m: nat)
    requires m > 0
    ensures (k * m) % m == 0
  {
    Unique(k * m, k, 0, m);
  }

  /** A factor of a product may be reduced first. */
  lemma MulMod(a: nat, b: nat, m: nat)
    requires m > 0
    ensures (a * b) % m == ((a % m) * b) % m
  {
    var q, r := a / m, a % m;
    DivMod(a, m);
    assert a * b == r * b + (q * b) * m by {
      Distribute(q, m, r, b);
    }
    ModAddMultiple(r * b, q * b, m);
  }

  lemma Distribute(q: nat, m: nat, r: nat, b: nat)
    ensures (q * m + r) * b == r * b + (q * b) * m
  {
  }

  lemma MulModBoth(a: nat, b: nat, m: nat)
    requires m > 0
    ensures (a * b) % m == ((a % m) * (b % m)) % m
  {
    MulMod(a, b, m);
    MulMod(b, a % m, m);
    assert b * (a % m) == (a % m) * b && (b % m) * (a % m) == (a % m) * (b % m);
  }

  /** Removing a multiple from a multiple leaves a multiple. */
  lemma SubMultiple(a: nat, b: nat, m: nat)
    requires m > 0 && a >= b && a % m == b % m
    ensures (a - b) % m == 0
  {
    DivMod(a, m);
    DivMod(b, m);
    var i, j := a / m, b / m;
    NextMultiple(i, j, m);
    assert (i - j) * m == i * m - j * m;
    MultipleMod(i - j, m);
  }

  /** Adding a multiple changes no remainder. */
  lemma SameIfDifferByMultiple(a: nat, b: nat, m: nat)
    requires m > 0 && a >= b && (a - b) % m == 0
    ensures a % m == b % m
  {
    var d := a - b;
    DivMod(d, m);
    ModAddMultiple(b, d / m, m);
  }

  // ---- Euclid

  /** A prime that divides a product divides one of the factors. */
  lemma {:induction false} EuclidLemma(p: nat, a: nat, b: nat)
    requires IsPrime(p) && (a * b) % p == 0 && a % p != 0
    ensures b % p == 0
    decreases a % p, a
  {
    var d := a % p;
    if a != d {
      MulMod(a, b, p);
      RemainderTwice(a, p);
      EuclidLemma(p, d, b);
    } else if d > 1 {
      assert !Divides(d, p);
      EuclidStep(p, d, b);
      RemainderTwice(p, d);
      Unique(p % d, 0, p % d, p);
      EuclidLemma(p, p % d, b);
    }
  }

  lemma RemainderTwice(a: nat, m: nat)
    requires m > 0
    ensures (a % m) % m == a % m && a % m < m && a % m <= a
  {
    DivMod(a, m);
    Unique(a % m, 0, a % m, m);
  }

  /** With p == q * d + r, a prime that divides d * b divides r * b. */
  lemma EuclidStep(p: nat, d: nat, b: nat)
    requires 0 < d < p && (d * b) % p == 0
    ensures ((p % d) * b) % p == 0
  {
    var q, r := p / d, p % d;
    DivMod(p, d);
    ZeroTimes(d * b, q, p);
    MultipleMod(b, p);
    Rearrange(q, d, r, b);
    SubMultiple(b * p, (d * b) * q, p);
  }

  lemma ZeroTimes(a: nat, q: nat, m: nat)
    requires m > 0 && a % m == 0
    ensures (a * q) % m == 0
  {
    MulMod(a, q, m);
    Unique(0, 0, 0, m);
  }

  lemma Rearrange(q: nat, d: nat, r: nat, b: nat)
    ensures b * (q * d + r) == (d * b) * q + r * b
  {
  }

  // ---- Fermat

  /** The product of a finite set of numbers. */
  ghost function Product(s: set<nat>): nat {
    if s == {} then 1
    else
      var x :| x in s;
      x * Product(s - {x})
  }

  /** The product does not depend on the order in which members are taken. */
  lemma {:induction false} ProductTake(s: set<nat>, y: nat)
    requires y in s
    ensures Product(s) == y * Product(s - {y})
    decreases s
  {
    var x :| x in s && Product(s) == x * Product(s - {x});
    if x != y {
      ProductTake(s - {x}, y);
      ProductTake(s - {y}, x);
      assert s - {x} - {y} == s - {y} - {x};
      SwapFactors(x, y, Product(s - {x} - {y}));
    }
  }

  lemma SwapFactors(x: nat, y: nat, z: nat)
    ensures x * (y * z) == y * (x * z)
  {
  }

  /** The remainders of the multiples of `a` by the members of `s`. */
  function Scaled(s: set<nat>, a: nat, p: nat): set<nat>
    requires p > 0
  {
    set x | x in s :: ModMul(a, x, p)
  }

  /** Multiplication by a unit keeps different remainders different. */
  lemma ScaleInjective(p: nat, a: nat, x: nat, y: nat)
    requires IsPrime(p) && 1 <= a < p && x < p && y < p && ModMul(a, x, p) == ModMul(a, y, p)
    ensures x == y
  {
    var hi, lo := if x >= y then x else y, if x >= y then y else x;
    assert a * hi - a * lo == a * (hi - lo);
    if hi != lo {
      AtLeastOne(hi - lo, a);
      SubMultiple(a * hi, a * lo, p);
      Unique(a, 0, a, p);
      Unique(hi - lo, 0, hi - lo, p);
      EuclidLemma(p, a, hi - lo);
    }
  }

  /** The product of the scaled remainders gains one factor `a` per member. */
  lemma {:induction false} ScaledProduct(s: set<nat>, a: nat, p: nat)
    requires IsPrime(p) && 1 <= a < p && s <= Range(1, p)
    ensures |Scaled(s, a, p)| == |s|
    ensures Product(Scaled(s, a, p)) % p == ModMul(Pow(a, |s|), Product(s), p)
    decreases s
  {
    if s == {} {
      assert Scaled(s, a, p) == {};
    } else {
      var x :| x in s;
      var rest := s - {x};
      ScaledProduct(rest, a, p);
      ScaledTake(s, a, p, x);
      ProductTake(Scaled(s, a, p), ModMul(a, x, p));
      ProductTake(s, x);
      hide IsPrime, Product, Scaled, Range, ModMul;
      ScaledStep(p, a, x, Pow(a, |rest|), Product(rest), Product(Scaled(rest, a, p)));
      assert |s| == |rest| + 1;
    }
  }

  /** The scaled remainder of one member is none of the others'. */
  lemma ScaledTake(s: set<nat>, a: nat, p: nat, x: nat)
    requires IsPrime(p) && 1 <= a < p && s <= Range(1, p) && x in s
    ensures var y := ModMul(a, x, p); y in Scaled(s, a, p) && Scaled(s, a, p) - {y} == Scaled(s - {x}, a, p)
    ensures |Scaled(s, a, p)| == |Scaled(s - {x}, a, p)| + 1
  {
    hide ModMul, IsPrime;
    var y := ModMul(a, x, p);
    forall z | z in s - {x} ensures ModMul(a, z, p) != y {
      if ModMul(a, z, p) == y { ScaleInjective(p, a, z, x); }
    }
    assert y !in Scaled(s - {x}, a, p);
    assert Scaled(s, a, p) == Scaled(s - {x}, a, p) + {y};
  }

  lemma ScaledStep(p: nat, a: nat, x: nat, pow: nat, prod: nat, scaled: nat)
    requires p > 0 && scaled % p == ModMul(pow, prod, p)
    ensures (ModMul(a, x, p) * scaled) % p == ModMul(a * pow, x * prod, p)
  {
    MulMod(a * x, scaled, p);
    MulModBoth(a * x, scaled, p);
    MulModBoth(a * x, pow * prod, p);
    assert (a * x) * (pow * prod) == (a * pow) * (x * prod) by { FourFactors(a, x, pow, prod); }
  }

  lemma FourFactors(a: nat, b: nat, c: nat, d: nat)
    ensures (a * b) * (c * d) == (a * c) * (b * d)
  {
    assert (a * b) * (c * d) == a * (b * c) * d;
    assert (a * c) * (b * d) == a * (c * b) * d;
  }

  /** A prime does not divide a product of smaller positive numbers. */
  lemma {:induction false} ProductIndivisible(s: set<nat>, p: nat)
    requires IsPrime(p) && s <= Range(1, p)
    ensures Product(s) % p != 0
    decreases s
  {
    if s == {} {
      Unique(1, 0, 1, p);
    } else {
      var x :| x in s;
      ProductTake(s, x);
      ProductIndivisible(s - {x}, p);
      Unique(x, 0, x, p);
      if Product(s) % p == 0 {
        EuclidLemma(p, x, Product(s - {x}));
      }
    }
  }

  /** Fermat's little theorem. */
  lemma Fermat(p: nat, a: nat)
    requires IsPrime(p) && 1 <= a < p
    ensures Pow(a, p - 1) % p == 1
  {
    hide Product, Scaled, Pow, ModMul, Range;
    var s := Range(1, p);
    ScaledProduct(s, a, p);
    ScaledInRange(p, a);
    SameSizeSubset(Scaled(s, a, p), s);
    ProductIndivisible(s, p);
    PowPositive(a, p - 1);
    CancelFactor(p, Pow(a, p - 1), Product(s));
  }

  lemma ScaledInRange(p: nat, a: nat)
    requires IsPrime(p) && 1 <= a < p
    ensures Scaled(Range(1, p), a, p) <= Range(1, p)
  {
    hide IsPrime;
    forall x | x in Range(1, p) ensures ModMul(a, x, p) in Range(1, p) {
      UnitTimes(p, a, x);
    }
  }

  lemma UnitTimes(p: nat, a: nat, x: nat)
    requires IsPrime(p) && 1 <= a < p && 1 <= x < p
    ensures ModMul(a, x, p) != 0
  {
    hide IsPrime;
    Unique(x, 0, x, p);
    Unique(a, 0, a, p);
    if ModMul(a, x, p) == 0 { EuclidLemma(p, a, x); }
  }

  /** Cancelling a factor that the prime does not divide. */
  lemma CancelFactor(p: nat, k: nat, q: nat)
    requires IsPrime(p) && k >= 1 && q % p != 0 && ModMul(k, q, p) == q % p
    ensures k % p == 1
  {
    assert k * q - q == q * (k - 1);
    AtLeastOne(k, q);
    SubMultiple(k * q, q, p);
    EuclidLemma(p, q, k - 1);
    SameIfDifferByMultiple(k, 1, p);
    Unique(1, 0, 1, p);
  }

  lemma {:induction false} PowPositive(a: nat, e: nat)
    requires a >= 1
    ensures Pow(a, e) >= 1
  {
    if e > 0 {
      PowPositive(a, e - 1);
      AtLeastOne(a, Pow(a, e - 1));
    }
  }

  /** Modulo a prime, only 1 and -1 square to 1. */
  lemma SquareRootsOfOne(p: nat, x: nat)
    requires IsPrime(p) && x < p && (x * x) % p == 1
    ensures x == 1 || x == p - 1
  {
    if x == 0 {
      Unique(0, 0, 0, p);
    } else {
      assert x * x - 1 == (x - 1) * (x + 1);
      AtLeastOne(x, x);
      Unique(1, 0, 1, p);
      SubMultiple(x * x, 1, p);
      if x != 1 {
        Unique(x - 1, 0, x - 1, p);
        EuclidLemma(p, x - 1, x + 1);
        if x + 1 < p { Unique(x + 1, 0, x + 1, p); }
      }
    }
  }

  // ---- Infinitely many primes

  function Factorial(n: nat): nat {
    if n == 0 then 1 else n * Factorial(n - 1)
  }

  lemma {:induction false} FactorialMultiple(n: nat, d: nat)
    requires 1 <= d <= n
    ensures Factorial(n) % d == 0
  {
    if d == n {
      assert Factorial(n) == Factorial(n - 1) * n;
      MultipleMod(Factorial(n - 1), n);
    } else {
      FactorialMultiple(n - 1, d);
      MulMod(Factorial(n - 1), n, d);
      assert Factorial(n) == Factorial(n - 1) * n;
      Unique(0, 0, 0, d);
    }
  }

  /** Every number from 2 on has a prime divisor. */
  lemma {:induction false} PrimeDivisor(n: nat) returns (p: nat)
    requires n >= 2
    ensures IsPrime(p) && p <= n && Divides(p, n)
    decreases n
  {
    if IsPrime(n) {
      p := n;
      MultipleMod(1, n);
    } else {
      var d :| 2 <= d < n && Divides(d, n);
      p := PrimeDivisor(d);
      DivMod(n, d);
      MulMod(d, n / d, p);
      Unique(0, 0, 0, p);
      assert d * (n / d) == n;
    }
  }

  /** There is a prime above every number. */
  lemma PrimeAbove(n: nat) returns (p: nat)
    ensures IsPrime(p) && p > n
  {
    FactorialPositive(n);
    p := PrimeDivisor(Factorial(n) + 1);
    if p <= n {
      FactorialMultiple(n, p);
      DivMod(Factorial(n), p);
      Unique(Factorial(n) + 1, Factorial(n) / p, 1, p);
    }
  }

  lemma {:induction false} FactorialPositive(n: nat)
    ensures Factorial(n) >= 1
  {
    if n > 0 {
      FactorialPositive(n - 1);
      AtLeastOne(n, Factorial(n - 1));
    }
  }
}
