/** Euler's totient as a count of units, the rule that lets trial division
    compute it, Euler's theorem, and the exponent law RSA rests on. */
module Totient {
  import opened Arithmetic

  /** The numbers from 1 to `n` that are coprime to `n`. */
  ghost function Units(n: nat): set<nat> {
    set k: nat | 1 <= k <= n && Coprime(k, n)
  }

  ghost function Phi(n: nat): nat {
    |Units(n)|
  }

  // ------------------------------------------------------- counting coprimes

  function CountCoprime(m: nat, len: nat): nat {
    if len == 0 then 0
    else CountCoprime(m, len - 1) + if Coprime(len, m) then 1 else 0
  }

  lemma PhiCount(n: nat)
    ensures Phi(n) == CountCoprime(n, n)
  {
    CountIsCardinality(n, n);
    assert Units(n) == set k: nat | 1 <= k <= n && Coprime(k, n);
  }

  lemma {:induction false} CountIsCardinality(m: nat, len: nat)
    ensures CountCoprime(m, len) == |set k: nat | 1 <= k <= len && Coprime(k, m)|
  {
    var s := set k: nat | 1 <= k <= len && Coprime(k, m);
    if len == 0 {
      assert s == {};
    } else {
      CountIsCardinality(m, len - 1);
      var s' := set k: nat | 1 <= k <= len - 1 && Coprime(k, m);
      assert s == if Coprime(len, m) then s' + {len} else s';
    }
  }

  lemma {:induction false} CountShift(m: nat, k: nat, i: nat)
    requires m > 0
    ensures k * m >= 0 && CountCoprime(m, k * m + i) == CountCoprime(m, k * m) + CountCoprime(m, i)
  {
    assert k * m >= 0;
    if i > 0 {
      CountShift(m, k, i - 1);
      CongIntro(k * m + i, i, k, m);
      CoprimeShift(k * m + i, i, m);
    }
  }

  /** Coprimality to `m` repeats with period `m`. */
  lemma {:induction false} CountPeriods(m: nat, k: nat)
    requires m > 0
    ensures k * m >= 0 && CountCoprime(m, k * m) == k * CountCoprime(m, m)
  {
    if k == 0 {
      assert k * m == 0;
    } else {
      CountPeriods(m, k - 1);
      CountShift(m, k - 1, m);
      assert k * m == (k - 1) * m + m;
      assert k * CountCoprime(m, m) == (k - 1) * CountCoprime(m, m) + CountCoprime(m, m);
    }
  }

  // -------------------------------------------- one more prime factor: p | m

  lemma CoprimeSameSupport(k: nat, p: nat, m: nat)
    requires p > 0 && Divides(p, m)
    ensures p * m >= 0 && (Coprime(k, p * m) <==> Coprime(k, m))
  {
    assert p * m >= 0;
    if Coprime(k, p * m) {
      CoprimeFactor(k, p, m);
    }
    if Coprime(k, m) {
      assert m == p * (m / p);
      CoprimeFactor(k, p, m / p);
      CoprimeMulRight(k, p, m);
    }
  }

  lemma {:induction false} CountSameSupport(p: nat, m: nat, len: nat)
    requires p > 0 && Divides(p, m)
    ensures p * m >= 0 && CountCoprime(p * m, len) == CountCoprime(m, len)
  {
    assert p * m >= 0;
    if len > 0 {
      CountSameSupport(p, m, len - 1);
      CoprimeSameSupport(len, p, m);
    }
  }

  // ----------------------------------------- one more prime factor: p not | m

  lemma CoprimeNewPrime(k: nat, p: nat, m: nat)
    requires Prime(p)
    ensures p * m >= 0 && (Coprime(k, p * m) <==> Coprime(k, m) && !Divides(p, k))
  {
    assert p * m >= 0;
    if Coprime(k, p * m) {
      CoprimeFactor(k, p, m);
      if Divides(p, k) {
        PrimeNotCoprime(p, k);
      }
    }
    if Coprime(k, m) && !Divides(p, k) {
      PrimeCoprime(p, k);
      CoprimeMulRight(k, p, m);
    }
  }

  lemma CoprimeMultiple(j: nat, p: nat, m: nat)
    requires Coprime(p, m)
    ensures p * j >= 0 && (Coprime(p * j, m) <==> Coprime(j, m))
  {
    assert p * j >= 0;
    if Coprime(j, m) {
      CoprimeMul(p, j, m);
    }
    if Coprime(p * j, m) {
      CoprimeSym(p * j, m);
      CoprimeFactor(m, p, j);
      CoprimeSym(m, j);
    }
  }

  /** Below the next multiple of `p` the two counts grow together. */
  lemma {:induction false} CountBlock(p: nat, m: nat, j: nat, i: nat)
    requires Prime(p) && i < p
    ensures p * m >= 0 && p * j >= 0
    ensures CountCoprime(m, p * j + i) - CountCoprime(m, p * j)
         == CountCoprime(p * m, p * j + i) - CountCoprime(p * m, p * j)
  {
    assert p * m >= 0 && p * j >= 0;
    if i > 0 {
      CountBlock(p, m, j, i - 1);
      CoprimeNewPrime(p * j + i, p, m);
      DivModUnique(p * j + i, j, i, p);
    }
  }

  /** Among the numbers coprime to `m`, the multiples of `p` are what `p * m` loses. */
  lemma {:induction false} CountNewPrime(p: nat, m: nat, j: nat)
    requires Prime(p) && !Divides(p, m)
    ensures p * m >= 0 && p * j >= 0
    ensures CountCoprime(m, p * j) == CountCoprime(p * m, p * j) + CountCoprime(m, j)
  {
    assert p * m >= 0 && p * j >= 0;
    if j == 0 {
      assert p * j == 0;
    } else {
      CountNewPrime(p, m, j - 1);
      CountBlock(p, m, j - 1, p - 1);
      assert p * j == p * (j - 1) + (p - 1) + 1;
      PrimeCoprime(p, m);
      CoprimeSym(m, p);
      CoprimeMultiple(j, p, m);
      CoprimeNewPrime(p * j, p, m);
      ModMultiple(j, p);
    }
  }

  /** The recurrence that trial division uses, one prime factor at a time. */
  lemma PhiTimesPrime(p: nat, m: nat)
    requires Prime(p) && m >= 1
    ensures p * m >= 0
    ensures Phi(p * m) == if Divides(p, m) then p * Phi(m) else (p - 1) * Phi(m)
  {
    assert p * m >= 0;
    PhiCount(p * m);
    PhiCount(m);
    CountPeriods(m, p);
    if Divides(p, m) {
      CountSameSupport(p, m, p * m);
    } else {
      CountNewPrime(p, m, m);
      assert (p - 1) * Phi(m) == p * Phi(m) - Phi(m);
    }
  }

  /** Value of a prime power next to a cofactor it does not divide. */
  lemma {:induction false} PhiPrimePower(c: nat, p: nat, k: nat)
    requires Prime(p) && c >= 1 && !Divides(p, c) && k >= 1
    ensures Pow(p, k) > 0 && Pow(p, k - 1) > 0
    ensures Phi(c * Pow(p, k)) == Phi(c) * (p - 1) * Pow(p, k - 1)
  {
    PowPositive(p, k);
    PowPositive(p, k - 1);
    if k == 1 {
      assert Pow(p, 1) == p && Pow(p, 0) == 1;
      PhiTimesPrime(p, c);
      assert c * p == p * c && (p - 1) * Phi(c) == Phi(c) * (p - 1);
    } else {
      PhiPrimePower(c, p, k - 1);
      PowPositive(p, k - 2);
      var m := c * Pow(p, k - 1);
      MulExchange(c, p, Pow(p, k - 1));
      MulExchange(p, Phi(c) * (p - 1), Pow(p, k - 2));
      ModMultiple(Pow(p, k - 2), p);
      DividesMul(p, c, Pow(p, k - 1));
      assert m >= 1 by { MulMonotone(1, c, Pow(p, k - 1)); }
      PhiTimesPrime(p, m);
    }
  }

  lemma PhiOne()
    ensures Phi(1) == 1
  {
    CoprimeFromCombination(1, 1, 1, 0);
    assert Units(1) == {1};
  }

  lemma PhiPrime(p: nat)
    requires Prime(p)
    ensures Phi(p) == p - 1
  {
    PhiOne();
    if Divides(p, 1) {
      DividesBound(p, 1);
    }
    PhiTimesPrime(p, 1);
  }

  /** The totient of the two shapes of modulus the key generator can produce. */
  lemma PhiTwoPrimes(p: nat, q: nat)
    requires Prime(p) && Prime(q)
    ensures p * q > 0
    ensures Phi(p * q) == if p == q then p * (p - 1) else (p - 1) * (q - 1)
  {
    assert p * q > 0;
    PhiPrime(q);
    PhiTimesPrime(p, q);
    if p == q {
      ModMultiple(1, p);
    } else {
      assert !Divides(p, q) by {
        if Divides(p, q) { DividesBound(p, q); }
      }
    }
  }

  lemma PhiPositive(n: nat)
    requires n >= 1
    ensures Phi(n) >= 1
  {
    CoprimeFromCombination(1, n, 1, 0);
    assert 1 in Units(n);
  }

  // ------------------------------------------------- trial-division totient

  /** Loop state: `c` is the part of `n0` already divided out, and `result`
      has lost exactly what its totient requires. */
  ghost predicate TotientLoop(n0: nat, n: nat, i: nat, c: nat, result: int) {
    n >= 1 && c >= 1 && n0 == c * n && Coprime(c, n)
    && result == Phi(c) * n && NoDivisorBelow(n, i)
  }

  lemma TotientStart(n: nat)
    requires n >= 1
    ensures TotientLoop(n, n, 2, 1, n)
  {
    PhiOne();
    CoprimeFromCombination(1, n, 1, 0);
  }

  /** One division of the inner loop. */
  lemma PeelFactor(i: nat, k: nat, n: nat)
    requires i >= 2 && n >= 1 && n % i == 0
    ensures Pow(i, k) * n == Pow(i, k + 1) * (n / i) && 1 <= n / i < n
  {
  }

  lemma SkipNonDivisor(n: nat, i: nat)
    requires i >= 2 && NoDivisorBelow(n, i) && !Divides(i, n)
    ensures NoDivisorBelow(n, i + 1)
  {
  }

  /** Dividing out all factors `i` at once, and the exact division that follows. */
  lemma TotientStep(n0: nat, n1: nat, n: nat, i: nat, k: nat, c: nat, result: int)
    requires TotientLoop(n0, n1, i, c, result) && i >= 2 && Divides(i, n1)
    requires n >= 1 && n1 == Pow(i, k) * n && !Divides(i, n)
    ensures Pow(i, k) > 0 && c * Pow(i, k) >= 1 && result >= 0 && result % i == 0
    ensures TotientLoop(n0, n, i + 1, c * Pow(i, k), result - result / i)
    ensures 0 <= result - result / i <= result
  {
    var w := Pow(i, k);
    PowPositive(i, k);
    assert Pow(i, 0) == 1;
    DividesBound(i, n1);
    LeastFactorPrime(i, n1);
    DividedOutCoprime(i, k, c, n, n1);
    TotientStepValue(c, i, k, n, result);
    SmallerDivisors(w, n, i);
    MulMonotone(1, c, w);
    MulAssoc(c, w, n);
  }

  lemma TotientStepValue(c: nat, i: nat, k: nat, n: nat, result: int)
    requires Prime(i) && c >= 1 && !Divides(i, c) && k >= 1 && n >= 1
    requires Pow(i, k) > 0 && result == Phi(c) * (Pow(i, k) * n)
    ensures c * Pow(i, k) >= 0
    ensures result >= 0 && result % i == 0 && 0 <= result - result / i <= result
    ensures result - result / i == Phi(c * Pow(i, k)) * n
  {
    PhiPrimePower(c, i, k);
    TotientDivision(Phi(c), i, Pow(i, k - 1), n, result);
  }

  lemma DividedOutCoprime(i: nat, k: nat, c: nat, n: nat, n1: nat)
    requires Prime(i) && n >= 1 && Pow(i, k) > 0 && n1 == Pow(i, k) * n
    requires Divides(i, n1) && !Divides(i, n) && Coprime(c, n1)
    ensures !Divides(i, c) && Coprime(c * Pow(i, k), n)
  {
    if Divides(i, c) {
      CoprimeIff(c, n1);
    }
    CoprimeFactor(c, Pow(i, k), n);
    PrimeCoprime(i, n);
    CoprimeSym(n, i);
    CoprimePow(i, k, n);
    CoprimeMul(c, Pow(i, k), n);
  }

  lemma SmallerDivisors(w: nat, n: nat, i: nat)
    requires i >= 2 && NoDivisorBelow(w * n, i) && !Divides(i, n)
    ensures NoDivisorBelow(n, i + 1)
  {
    forall d | 2 <= d < i + 1
      ensures !Divides(d, n)
    {
      if d < i && Divides(d, n) {
        DividesMul(d, w, n);
      }
    }
  }

  lemma TotientDivision(f: nat, i: nat, u: nat, n: nat, result: int)
    requires i >= 2 && result == f * ((i * u) * n)
    ensures result >= 0 && result % i == 0
    ensures result - result / i == f * (i - 1) * u * n
    ensures 0 <= result - result / i <= result
  {
    var un: nat := u * n;
    var g: nat := f * un;
    MulAssoc(i, u, n);
    MulExchange(f, i, un);
    assert result == g * i;
    DivModUnique(result, g, 0, i);
    MulAssoc(f * (i - 1), u, n);
    ReorderFactors(f, i, un);
    MulMonotone(1, i, g);
  }

  lemma ReorderFactors(f: nat, i: nat, un: nat)
    ensures f * (i - 1) * un == (f * un) * i - f * un
  {
  }

  /** What is left above 1 when the loop ends is the largest prime factor. */
  lemma TotientLast(n0: nat, n: nat, i: nat, c: nat, result: int)
    requires TotientLoop(n0, n, i, c, result) && i >= 2 && i * i > n
    ensures result >= 0 && 0 <= result / n <= result
    ensures (if n > 1 then result - result / n else result) == Phi(n0)
  {
    LastDivision(Phi(c), n, result);
    if n > 1 {
      LastPrime(n0, n, i, c);
    }
  }

  lemma LastPrime(n0: nat, n: nat, i: nat, c: nat)
    requires n > 1 && c >= 1 && n0 == c * n && Coprime(c, n) && NoDivisorBelow(n, i)
    requires i >= 2 && i * i > n
    ensures Phi(n0) == (n - 1) * Phi(c)
  {
    NoSmallFactor(n, i);
    NotDividingCoprime(n, c);
    PhiTimesPrime(n, c);
  }

  lemma LastDivision(f: nat, n: nat, result: int)
    requires n >= 1 && result == f * n
    ensures 0 <= f <= result && result / n == f && result - f == (n - 1) * f
  {
    DivModUnique(result, f, 0, n);
    MulMonotone(1, n, f);
  }

  lemma NotDividingCoprime(n: nat, c: nat)
    requires n > 1 && Coprime(c, n)
    ensures !Divides(n, c)
  {
    ModMultiple(1, n);
    if Divides(n, c) {
      CoprimeIff(c, n);
    }
  }

  // ---------------------------------------------------------- Euler's theorem

  ghost function Product(s: set<nat>): nat {
    if s == {} then 1
    else
      var x :| x in s;
      x * Product(s - {x})
  }

  lemma {:induction false} ProductRemove(s: set<nat>, x: nat)
    requires x in s
    ensures Product(s) == x * Product(s - {x})
    decreases s
  {
    var y :| y in s && Product(s) == y * Product(s - {y});
    if y != x {
      ProductRemove(s - {y}, x);
      ProductRemove(s - {x}, y);
      assert s - {y} - {x} == s - {x} - {y};
      MulExchange(x, y, Product(s - {x} - {y}));
    }
  }

  lemma {:induction false} ProductCoprime(s: set<nat>, n: nat)
    requires forall x :: x in s ==> Coprime(x, n)
    ensures Coprime(Product(s), n)
    decreases s
  {
    if s == {} {
      CoprimeFromCombination(1, n, 1, 0);
    } else {
      var x :| x in s;
      ProductRemove(s, x);
      ProductCoprime(s - {x}, n);
      CoprimeMul(x, Product(s - {x}), n);
    }
  }

  ghost function Image(s: set<nat>, a: nat, n: nat): set<nat>
    requires n > 0
  {
    set x | x in s :: Residue(a, x, n)
  }

  function Residue(a: nat, x: nat, n: nat): nat
    requires n > 0
  {
    (a * x) % n
  }

  ghost predicate InjectiveOn(s: set<nat>, a: nat, n: nat)
    requires n > 0
  {
    forall x, y :: x in s && y in s && Residue(a, x, n) == Residue(a, y, n) ==> x == y
  }

  /** Multiplying every element by `a` multiplies the product by a power of `a`. */
  lemma {:induction false} ProductImage(s: set<nat>, a: nat, n: nat)
    requires n > 0 && InjectiveOn(s, a, n)
    ensures |Image(s, a, n)| == |s|
    ensures Product(Image(s, a, n)) % n == (Pow(a, |s|) * Product(s)) % n
    decreases s
  {
    if s == {} {
      assert Image(s, a, n) == {};
    } else {
      var x :| x in s;
      var s', r := s - {x}, Residue(a, x, n);
      ProductImage(s', a, n);
      ImageRemove(s, x, a, n);
      ProductRemove(s, x);
      ProductRemove(Image(s, a, n), r);
      ProductStep(x, Product(Image(s', a, n)), Pow(a, |s'|), Product(s'), a, n);
    }
  }

  lemma ImageRemove(s: set<nat>, x: nat, a: nat, n: nat)
    requires n > 0 && x in s && InjectiveOn(s, a, n)
    ensures Residue(a, x, n) in Image(s, a, n)
    ensures Image(s, a, n) - {Residue(a, x, n)} == Image(s - {x}, a, n)
    ensures |Image(s, a, n)| == |Image(s - {x}, a, n)| + 1
  {
  }

  lemma ProductStep(x: nat, pi: nat, pw: int, ps: nat, a: nat, n: nat)
    requires n > 0 && pi % n == (pw * ps) % n
    ensures (Residue(a, x, n) * pi) % n == (a * pw * (x * ps)) % n
  {
    ModMultipleOfResidue(a * x, n);
    MulCong(Residue(a, x, n), a * x, pi, pw * ps, n);
    MulSwap(a, x, pw, ps);
  }

  lemma ModMultipleOfResidue(v: int, n: int)
    requires n > 0
    ensures (v % n) % n == v % n
  {
  }

  lemma UnitsPermuted(a: nat, n: nat)
    requires n > 1 && Coprime(a, n)
    ensures InjectiveOn(Units(n), a, n) && Image(Units(n), a, n) <= Units(n)
  {
    var u := Units(n);
    forall x | x in u
      ensures Residue(a, x, n) in u
    {
      ResidueOfUnit(a, x, n);
    }
    forall x, y | x in u && y in u && Residue(a, x, n) == Residue(a, y, n)
      ensures x == y
    {
      ResidueOfUnit(a, x, n);
      ResidueOfUnit(a, y, n);
      CancelCoprime(a, x, y, n);
      DivModUnique(x, 0, x, n);
      DivModUnique(y, 0, y, n);
    }
  }

  lemma ResidueOfUnit(a: nat, x: nat, n: nat)
    requires n > 1 && Coprime(a, n) && x in Units(n)
    ensures x < n && Residue(a, x, n) in Units(n)
  {
    NotCoprimeToMultiple(0, n);
    NotCoprimeToMultiple(1, n);
    CoprimeMul(a, x, n);
    ModMultipleOfResidue(a * x, n);
    CoprimeShift(a * x, Residue(a, x, n), n);
  }

  lemma NotCoprimeToMultiple(k: nat, n: nat)
    requires n > 1
    ensures k * n >= 0 && !Coprime(k * n, n)
  {
    assert k * n >= 0;
    ModMultiple(k, n);
    ModMultiple(1, n);
    assert Divides(n, k * n) && Divides(n, n);
    CoprimeIff(k * n, n);
  }

  lemma SubsetSameSize(a: set<nat>, b: set<nat>)
    requires a <= b && |a| == |b|
    ensures a == b
  {
    if a != b {
      var x :| x in b && x !in a;
      SubsetNoLarger(a, b - {x});
    }
  }

  lemma {:induction false} SubsetNoLarger(a: set<nat>, b: set<nat>)
    requires a <= b
    ensures |a| <= |b|
  {
    assert b == a + (b - a);
  }

  /** Euler's theorem. */
  lemma Euler(a: nat, n: nat)
    requires n >= 1 && Coprime(a, n)
    ensures Pow(a, Phi(n)) % n == 1 % n
  {
    if n > 1 {
      var u := Units(n);
      UnitsPermuted(a, n);
      ProductImage(u, a, n);
      SubsetSameSize(Image(u, a, n), u);
      forall x | x in u ensures Coprime(x, n) {}
      ProductCoprime(u, n);
      CancelUnit(Product(u), Pow(a, |u|), n);
    }
  }

  lemma CancelUnit(r: nat, w: int, n: nat)
    requires n > 0 && Coprime(r, n) && r % n == (w * r) % n
    ensures w % n == 1 % n
  {
    assert r * w == w * r && r * 1 == r;
    CancelCoprime(r, w, 1, n);
  }

  /** Fermat's little theorem. */
  lemma Fermat(a: nat, p: nat)
    requires Prime(p) && !Divides(p, a)
    ensures Pow(a, p - 1) % p == 1
  {
    PrimeCoprime(p, a);
    Euler(a, p);
    PhiPrime(p);
    DivModUnique(1, 0, 1, p);
  }

  // ------------------------------------------------------- RSA exponent laws

  /** A base of order dividing `t` is restored by any exponent that is 1 modulo `t`. */
  lemma PowPeriod(a: nat, t: nat, k: nat, n: nat)
    requires n > 0 && Pow(a, t) % n == 1 % n
    ensures k * t >= 0 && Pow(a, k * t + 1) % n == a % n
  {
    assert k * t == t * k;
    PowPow(a, t, k);
    PowCong(Pow(a, t), 1, k, n);
    PowOne(k);
    PowAdd(a, t * k, 1);
    assert Pow(a, 1) == a;
    MulCong(Pow(a, t * k), 1, a, a, n);
  }

  lemma PrimeResidueRestored(m: nat, p: nat, k: nat, e: nat)
    requires Prime(p) && e == k * (p - 1) + 1
    ensures Pow(m, e) % p == m % p
  {
    if Divides(p, m) {
      DividesMul(p, m, Pow(m, e - 1));
    } else {
      Fermat(m, p);
      DivModUnique(1, 0, 1, p);
      PowPeriod(m, p - 1, k, p);
    }
  }

  /** Distinct primes: every message is restored, also those sharing a factor with the modulus. */
  lemma RestoredDistinct(m: nat, p: nat, q: nat, k: nat, e: nat)
    requires Prime(p) && Prime(q) && p != q
    requires e == k * ((p - 1) * (q - 1)) + 1
    ensures p * q > 0 && Pow(m, e) % (p * q) == m % (p * q)
  {
    var i, j := k * (q - 1), k * (p - 1);
    MulExchange(k, p - 1, q - 1);
    assert (p - 1) * i == i * (p - 1);
    assert k * ((p - 1) * (q - 1)) == j * (q - 1);
    PrimeResidueRestored(m, p, i, e);
    PrimeResidueRestored(m, q, j, e);
    CongBoth(Pow(m, e), m, p, q);
  }

  /** Chinese remaindering: agreement modulo two distinct primes is agreement modulo their product. */
  lemma CongBoth(a: int, b: int, p: nat, q: nat)
    requires Prime(p) && Prime(q) && p != q && a % p == b % p && a % q == b % q
    ensures p * q > 0 && a % (p * q) == b % (p * q)
  {
    DifferenceDivides(a, b, p);
    DifferenceDivides(a, b, q);
    DistinctPrimesCoprime(p, q);
    CoprimeDividesProduct(p, q, a - b);
    var n := p * q;
    CongIntro(a, b, (a - b) / n, n);
  }

  lemma DifferenceDivides(a: int, b: int, m: int)
    requires m > 0 && a % m == b % m
    ensures Divides(m, a - b)
  {
    var k := CongElim(a, b, m);
    ModMultiple(k, m);
  }

  /** Equal primes: exactly the multiples of `p` that are not multiples of the modulus are lost. */
  lemma RestoredEqual(m: nat, p: nat, k: nat, e: nat)
    requires Prime(p) && k >= 1
    requires e == k * (p * (p - 1)) + 1
    ensures p * p > 0
    ensures Pow(m, e) % (p * p) == m % (p * p) <==> (!Divides(p, m) || Divides(p * p, m))
  {
    var t, n := p * (p - 1), p * p;
    assert t >= 1 by { MulMonotone(1, p, p - 1); }
    assert k * t >= 1 by { MulMonotone(1, k, t); }
    assert n > 0;
    if Divides(p, m) {
      SquareKillsMultiples(m, p, e);
    } else {
      PrimeCoprime(p, m);
      CoprimeMulRight(m, p, p);
      Euler(m, n);
      PhiTwoPrimes(p, p);
      PowPeriod(m, t, k, n);
    }
  }

  lemma SquareKillsMultiples(m: nat, p: nat, e: nat)
    requires p > 0 && Divides(p, m) && e >= 2
    ensures p * p > 0 && Pow(m, e) % (p * p) == 0
  {
    SquareDivides(p, m / p);
    assert m == p * (m / p);
    MulAssoc(m, m, Pow(m, e - 2));
    DividesMul(p * p, m * m, Pow(m, e - 2));
  }

  lemma SquareDivides(p: nat, j: int)
    requires p > 0
    ensures p * p > 0 && Divides(p * p, (p * j) * (p * j))
  {
    assert p * p > 0;
    MulSwap(p, j, p, j);
    MulSwap(p, p, j, j);
    ModMultiple(j * j, p * p);
  }
}
