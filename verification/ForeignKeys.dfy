/** Which keys of the mapping server the C++ side can encrypt for: mod_pow multiplies in 64 signed
    bits, and a generated key of the mapping server may have a modulus above its safe bound. */
module ForeignKeys {
  import opened Arithmetic
  import opened Totient
  import opened Basics
  import opened RsaMath
  import Cpp = RsaHandler
  import Kotlin = RsaKotlin

  // -------------------------------------------------- the power with a short exponent

  function Cap(x: nat): nat {
    if x < 0x1_0000_0000 then x else 0x1_0000_0000
  }

  /** Worst-case magnitudes of result and base, for a modulus of at most 32 bits. */
  predicate Fits(result: nat, base: nat, exponent: nat)
    decreases exponent, result
  {
    exponent > 0 ==>
      (exponent % 2 == 1 ==> result * base < TWO_63)
      && (exponent / 2 > 0 ==> base * base < TWO_63)
      && Fits(if exponent % 2 == 1 then Cap(result * base) else result, Cap(base * base), exponent / 2)
  }

  lemma {:induction false} FitsNoOverflow(r: int, b: int, e: nat, m: int, rMax: nat, bMax: nat)
    requires 0 < m <= 0x1_0000_0000 && Abs(r) <= rMax && Abs(b) <= bMax && Fits(rMax, bMax, e)
    ensures Cpp.NoOverflow(r, b, e, m)
    decreases e
  {
    if e > 0 {
      Bounded(r, b, rMax, bMax, m);
      Bounded(b, b, bMax, bMax, m);
      var odd := e % 2 == 1;
      FitsNoOverflow(if odd then TRem(r * b, m) else r, TRem(b * b, m), e / 2, m,
                     if odd then Cap(rMax * bMax) else rMax, Cap(bMax * bMax));
    }
  }

  lemma Bounded(a: int, b: int, aMax: nat, bMax: nat, m: int)
    requires 0 < m <= 0x1_0000_0000 && Abs(a) <= aMax && Abs(b) <= bMax
    ensures aMax * bMax >= 0 && Abs(TRem(a * b, m)) <= Cap(aMax * bMax)
    ensures aMax * bMax < TWO_63 ==> Cpp.InRange(a * b)
  {
    var x, y := Abs(a), Abs(b);
    SignedProduct(a, b, x, y);
    MulMonotone(x, aMax, y);
    MulMonotone(y, bMax, aMax);
    DivideDown(x * y, m);
  }

  /** For exponents up to 12 a character can be encrypted under every 32-bit modulus. */
  lemma ShortExponentSafe(c: int, e: int64, m: int64)
    requires -128 <= c < 128 && 1 <= e <= 12 && 0 < m && m as int <= 0x1_0000_0000
    ensures Cpp.NoOverflow(1, c, e as nat, m as int)
    ensures Cpp.WrappedPow(1, c as int64, e, m) as int == Primitive(c, e as nat, m as int)
  {
    var k := e as nat;
    assert Fits(1, 128, k) by {
      if k == 1 { assert Fits(1, 128, 1); }
      else if k == 2 { assert Fits(1, 128, 2); }
      else if k == 3 { assert Fits(1, 128, 3); }
      else if k == 4 { assert Fits(1, 128, 4); }
      else if k == 5 { assert Fits(1, 128, 5); }
      else if k == 6 { assert Fits(1, 128, 6); }
      else if k == 7 { assert Fits(1, 128, 7); }
      else if k == 8 { assert Fits(1, 128, 8); }
      else if k == 9 { assert Fits(1, 128, 9); }
      else if k == 10 { assert Fits(1, 128, 10); }
      else if k == 11 { assert Fits(1, 128, 11); }
      else { assert Fits(1, 128, 12); }
    }
    FitsNoOverflow(1, c, k, m as int, 1, 128);
    Cpp.ExactWithoutOverflow(1, c as int64, e, m);
  }

  // ------------------------------------------------------------ primes by trial division

  /** Trial division by the sixteen numbers from `i` on. */
  predicate Sixteen(n: nat, i: nat)
    requires i >= 2
  {
    n % i != 0 && n % (i + 1) != 0 && n % (i + 2) != 0 && n % (i + 3) != 0
    && n % (i + 4) != 0 && n % (i + 5) != 0 && n % (i + 6) != 0 && n % (i + 7) != 0
    && n % (i + 8) != 0 && n % (i + 9) != 0 && n % (i + 10) != 0 && n % (i + 11) != 0
    && n % (i + 12) != 0 && n % (i + 13) != 0 && n % (i + 14) != 0 && n % (i + 15) != 0
  }

  predicate TrialDivision(n: nat) {
    Sixteen(n, 2) && Sixteen(n, 18) && Sixteen(n, 34) && Sixteen(n, 50)
    && Sixteen(n, 66) && Sixteen(n, 82) && Sixteen(n, 98) && Sixteen(n, 114)
    && Sixteen(n, 130) && Sixteen(n, 146) && Sixteen(n, 162) && Sixteen(n, 178)
    && Sixteen(n, 194) && Sixteen(n, 210) && Sixteen(n, 226) && Sixteen(n, 242)
  }

  lemma TrialBlock(n: nat, block: nat)
    requires TrialDivision(n) && block < 16
    ensures Sixteen(n, 2 + 16 * block)
  {
    if block < 8 {
      assert block == 0 || block == 1 || block == 2 || block == 3
          || block == 4 || block == 5 || block == 6 || block == 7;
    } else {
      assert block == 8 || block == 9 || block == 10 || block == 11
          || block == 12 || block == 13 || block == 14 || block == 15;
    }
  }

  lemma SixteenDivisors(n: nat, i: nat, d: nat)
    requires i >= 2 && Sixteen(n, i) && i <= d < i + 16
    ensures !Divides(d, n)
  {
    var k := d - i;
    if k < 8 {
      assert k == 0 || k == 1 || k == 2 || k == 3 || k == 4 || k == 5 || k == 6 || k == 7;
    } else {
      assert k == 8 || k == 9 || k == 10 || k == 11 || k == 12 || k == 13 || k == 14 || k == 15;
    }
  }

  lemma PrimeBelow65536(n: nat)
    requires 2 <= n < 65536 && TrialDivision(n)
    ensures Prime(n)
  {
    forall d | 2 <= d < 256
      ensures !Divides(d, n)
    {
      TrialBlock(n, (d - 2) / 16);
      SixteenDivisors(n, 2 + 16 * ((d - 2) / 16), d);
    }
    NoSmallFactor(n, 256);
  }

  // ---------------------------------------------------------- what is asked of a key

  /** Every character is encrypted as it should be under the modulus. */
  ghost predicate EncryptsAll(e: int64, m: int64)
    requires e > 0 && m > 0
  {
    forall c: int64 :: -128 <= c < 128 ==> Cpp.WrappedPow(1, c, e, m) as int == Primitive(c as int, e as nat, m as int)
  }

  lemma NegativeFails(c: int64, e: int64, m: int64)
    requires 0 <= c < 128 && e > 0 && m > 0 && Cpp.WrappedPow(1, c, e, m) < 0
    ensures !EncryptsAll(e, m)
  {
    PowNonNegative(c as nat, e as nat);
  }

  ghost predicate ServerKey(p: nat, q: nat, n: int64, e: int64, d: nat) {
    n > 0 && e > 0 && Kotlin.GeneratedKey(p, q, n as nat, e as nat, d)
  }

  lemma PrimeCases(e: nat)
    requires Prime(e) && e <= 29
    ensures e == 2 || e == 3 || e == 5 || e == 7 || e == 11 || e == 13 || e == 17 || e == 19 || e == 23 || e == 29
  {
    assert !Divides(2, e) || e <= 2;
    assert !Divides(3, e) || e <= 3;
    assert !Divides(5, e) || e <= 5;
  }

  // ------------------------------------------------------------ keys that fail

  /** The outcome of one multiplication, from how often it wraps around and the quotient of what is left. */
  lemma StepIs(a: int64, b: int64, m: int64, wraps: int, quotient: int, r: int64)
    requires m > 0
    requires var w := a as int * b as int - wraps * TWO_64;
      Cpp.InRange(w) && w == quotient * m as int + r as int && Abs(r as int) < m as int
      && (w >= 0 ==> r >= 0) && (w <= 0 ==> r <= 0)
    ensures Cpp.Step(a, b, m) == r
  {
    var x := a as int * b as int;
    var w := x - wraps * TWO_64;
    DivModUnique(x + TWO_63, wraps, w + TWO_63, TWO_64);
    assert Wrap64(x) as int == w;
    if w >= 0 {
      DivModUnique(w, quotient, r as int, m as int);
    } else {
      DivModUnique(-w, -quotient, -(r as int), m as int);
    }
  }

  lemma Round(r: int64, b: int64, e: int64, m: int64)
    requires e > 0 && m != 0
    ensures Cpp.WrappedPow(r, b, e, m)
         == Cpp.WrappedPow(if e % 2 == 1 then Cpp.Step(r, b, m) else r, Cpp.Step(b, b, m), e / 2, m)
    ensures e == 1 ==> Cpp.WrappedPow(r, b, e, m) == Cpp.Step(r, b, m)
  {
  }

  /** The loop for the five longer exponents, in terms of the repeated squares of its base. */
  lemma LongExponent(c: int64, e: int64, m: int64, b1: int64, b2: int64, b3: int64, b4: int64)
    requires m != 0 && Cpp.Step(1, c, m) == c && Cpp.Step(c, c, m) == b1 && Cpp.Step(b1, b1, m) == b2
    requires Cpp.Step(b2, b2, m) == b3 && Cpp.Step(b3, b3, m) == b4
    requires e == 13 || e == 17 || e == 19 || e == 23 || e == 29
    ensures Cpp.WrappedPow(1, c, e, m)
         == if e == 13 then Cpp.Step(Cpp.Step(c, b2, m), b3, m)
            else if e == 17 then Cpp.Step(c, b4, m)
            else if e == 19 then Cpp.Step(Cpp.Step(c, b1, m), b4, m)
            else if e == 23 then Cpp.Step(Cpp.Step(Cpp.Step(c, b1, m), b2, m), b4, m)
            else Cpp.Step(Cpp.Step(Cpp.Step(c, b2, m), b3, m), b4, m)
  {
    var r1, e1 := c, e / 2;
    Round(1, c, e, m);
    var r2, e2 := if e1 % 2 == 1 then Cpp.Step(r1, b1, m) else r1, e1 / 2;
    Round(r1, b1, e1, m);
    var r3, e3 := if e2 % 2 == 1 then Cpp.Step(r2, b2, m) else r2, e2 / 2;
    Round(r2, b2, e2, m);
    var r4, e4 := if e3 % 2 == 1 then Cpp.Step(r3, b3, m) else r3, e3 / 2;
    Round(r3, b3, e3, m);
    if e4 == 1 {
      Round(r4, b4, e4, m);
    }
  }

  lemma Prime55441()
    ensures Prime(55441)
  {
    PrimeBelow65536(55441);
  }

  lemma Prime56101()
    ensures Prime(56101)
  {
    PrimeBelow65536(56101);
  }

  lemma Prime56239()
    ensures Prime(56239)
  {
    PrimeBelow65536(56239);
  }

  lemma Prime58787()
    ensures Prime(58787)
  {
    PrimeBelow65536(58787);
  }

  lemma LeastMissing(e: nat, t: nat)
    requires e == 13 || e == 17 || e == 19 || e == 23
    requires t % 2 == 0 && t % 3 == 0 && t % 5 == 0 && t % 7 == 0 && t % 11 == 0 && t % e != 0
    requires (e > 13 ==> t % 13 == 0) && (e > 17 ==> t % 17 == 0) && (e > 19 ==> t % 19 == 0)
    ensures LeastNonDivisorPrime(e, t)
  {
    SmallPrimes();
    forall d | 2 <= d < e && Prime(d)
      ensures Divides(d, t)
    {
      PrimeCases(d);
    }
  }

  lemma KeyFrom(p: nat, q: nat, n: nat, e: nat, d: nat, t: nat, k: nat)
    requires Prime(p) && Prime(q) && p != q && 32768 <= p <= 65536 && 32768 <= q <= 65536
    requires n == p * q && t == (p - 1) * (q - 1) && t >= 3
    requires LeastNonDivisorPrime(e, t) && d < t && e * d == k * t + 1
    ensures Kotlin.GeneratedKey(p, q, n, e, d)
  {
    PhiTwoPrimes(p, q);
    CongIntro(e * d, 1, k, t);
  }

  /** With exponent 13 the character 79 wraps around to a negative number under the modulus 55441 * 56101. */
  lemma ThirteenFails(n: int64)
    requires n == 3110295541
    ensures !EncryptsAll(13, n)
  {
    StepIs(1, 79, n, 0, 0, 79);
    StepIs(79, 79, n, 0, 0, 6241);
    StepIs(6241, 6241, n, 0, 0, 38950081);
    StepIs(38950081, 38950081, n, 0, 487769, 3064168532);
    StepIs(3064168532, 3064168532, n, 1, -2912139750, -2016661842);
    StepIs(79, 38950081, n, 0, 0, 3077056399);
    StepIs(3077056399, 3064168532, n, 1, -2899443016, -656123692);
    LongExponent(79, 13, n, 6241, 38950081, 3064168532, -2016661842);
    NegativeFails(79, 13, n);
  }

  lemma ThirteenKey(n: nat) returns (p: nat, q: nat, d: nat)
    requires n == 3110295541
    ensures Kotlin.GeneratedKey(p, q, n, 13, d)
  {
    p, q, d := 55441, 56101, 2870939077;
    Prime55441();
    Prime56101();
    LeastMissing(13, 3110184000);
    KeyFrom(p, q, n, 13, d, 3110184000, 12);
  }

  /** With exponent 17 the character 26 wraps around to a negative number under the modulus 56239 * 55441. */
  lemma SeventeenFails(n: int64)
    requires n == 3117946399
    ensures !EncryptsAll(17, n)
  {
    StepIs(1, 26, n, 0, 0, 26);
    StepIs(26, 26, n, 0, 0, 676);
    StepIs(676, 676, n, 0, 0, 456976);
    StepIs(456976, 456976, n, 0, 66, 3042602242);
    StepIs(3042602242, 3042602242, n, 1, -2947233369, -799936821);
    StepIs(26, -799936821, n, 0, -6, -2090678952);
    LongExponent(26, 17, n, 676, 456976, 3042602242, -799936821);
    NegativeFails(26, 17, n);
  }

  lemma SeventeenKey(n: nat) returns (p: nat, q: nat, d: nat)
    requires n == 3117946399
    ensures Kotlin.GeneratedKey(p, q, n, 17, d)
  {
    p, q, d := 56239, 55441, 2567628593;
    Prime56239();
    Prime55441();
    LeastMissing(17, 3117834720);
    KeyFrom(p, q, n, 17, d, 3117834720, 14);
  }

  /** With exponent 19 the character 21 wraps around to a negative number under the modulus 56101 * 56239. */
  lemma NineteenFails(n: int64)
    requires n == 3155064139
    ensures !EncryptsAll(19, n)
  {
    StepIs(1, 21, n, 0, 0, 21);
    StepIs(21, 21, n, 0, 0, 441);
    StepIs(441, 441, n, 0, 0, 194481);
    StepIs(194481, 194481, n, 0, 11, 3117153832);
    StepIs(3117153832, 3117153832, n, 1, -2767010645, -3086507737);
    StepIs(21, 441, n, 0, 0, 9261);
    StepIs(9261, -3086507737, n, 0, -9059, -2422117156);
    LongExponent(21, 19, n, 441, 194481, 3117153832, -3086507737);
    NegativeFails(21, 19, n);
  }

  lemma NineteenKey(n: nat) returns (p: nat, q: nat, d: nat)
    requires n == 3155064139
    ensures Kotlin.GeneratedKey(p, q, n, 19, d)
  {
    p, q, d := 56101, 56239, 664200379;
    Prime56101();
    Prime56239();
    LeastMissing(19, 3154951800);
    KeyFrom(p, q, n, 19, d, 3154951800, 4);
  }

  /** With exponent 23 the character 30 wraps around to a negative number under the modulus 58787 * 56101. */
  lemma TwentyThreeFails(n: int64)
    requires n == 3298009487
    ensures !EncryptsAll(23, n)
  {
    StepIs(1, 30, n, 0, 0, 30);
    StepIs(30, 30, n, 0, 0, 900);
    StepIs(900, 900, n, 0, 0, 810000);
    StepIs(810000, 810000, n, 0, 198, 3094121574);
    StepIs(3094121574, 3094121574, n, 1, -2690457924, -1290989152);
    StepIs(30, 900, n, 0, 0, 27000);
    StepIs(27000, 810000, n, 0, 6, 2081943078);
    StepIs(2081943078, -1290989152, n, 0, -814966099, -2694108643);
    LongExponent(30, 23, n, 900, 810000, 3094121574, -1290989152);
    NegativeFails(30, 23, n);
  }

  lemma TwentyThreeKey(n: nat) returns (p: nat, q: nat, d: nat)
    requires n == 3298009487
    ensures Kotlin.GeneratedKey(p, q, n, 23, d)
  {
    p, q, d := 58787, 56101, 573546887;
    Prime58787();
    Prime56101();
    LeastMissing(23, 3297894600);
    KeyFrom(p, q, n, 23, d, 3297894600, 4);
  }

  // ------------------------------------------------------------ exponent 29 is safe

  lemma NotPrime(n: nat, d: nat)
    requires 2 <= d < n && n % d == 0
    ensures !Prime(n)
  {
    assert Divides(d, n);
  }

  lemma NoPair437(x: nat, y: nat, k: nat)
    requires 7 <= k <= 9 && x <= 74 && y <= 32767 && x * y == k * 255255
    ensures !(Prime(874 * x + 1) && Prime(2 * y + 1))
  {
    var p, q := 874 * x + 1, 2 * y + 1;
    MulMonotone(y, 32767, x);
    assert x >= 55;
    assert x == 55 || x == 56 || x == 57 || x == 58 || x == 59 || x == 60 || x == 61 || x == 62 || x == 63
        || x == 64 || x == 65 || x == 66 || x == 67 || x == 68 || x == 69 || x == 70 || x == 71 || x == 72 || x == 73
        || x == 74;
    if x == 55 {
      NotPrime(p, 53);
    } else if x == 65 {
      NotPrime(p, 3);
    } else if x == 66 {
      NotPrime(p, 5);
    } else if x == 68 {
      NotPrime(p, 3);
    } else if x == 70 {
      NotPrime(p, 193);
    }
  }

  lemma NoPair391(x: nat, y: nat, k: nat)
    requires 7 <= k <= 9 && x <= 83 && y <= 32767 && x * y == k * 285285
    ensures !(Prime(782 * x + 1) && Prime(2 * y + 1))
  {
    var p, q := 782 * x + 1, 2 * y + 1;
    MulMonotone(y, 32767, x);
    assert x >= 61;
    assert x == 61 || x == 62 || x == 63 || x == 64 || x == 65 || x == 66 || x == 67 || x == 68 || x == 69
        || x == 70 || x == 71 || x == 72 || x == 73 || x == 74 || x == 75 || x == 76 || x == 77 || x == 78 || x == 79
        || x == 80 || x == 81 || x == 82 || x == 83;
    if x == 65 {
      NotPrime(p, 11);
    } else if x == 70 {
      NotPrime(p, 3);
    } else if x == 76 {
      NotPrime(p, 3);
    } else if x == 77 {
      NotPrime(p, 5);
    } else if x == 78 {
      NotPrime(p, 181);
    }
  }

  lemma NoPair323(x: nat, y: nat, k: nat)
    requires 7 <= k <= 9 && x <= 101 && y <= 32767 && x * y == k * 345345
    ensures !(Prime(646 * x + 1) && Prime(2 * y + 1))
  {
    var p, q := 646 * x + 1, 2 * y + 1;
    MulMonotone(y, 32767, x);
    assert x >= 74;
    assert x == 74 || x == 75 || x == 76 || x == 77 || x == 78 || x == 79 || x == 80 || x == 81 || x == 82
        || x == 83 || x == 84 || x == 85 || x == 86 || x == 87 || x == 88 || x == 89 || x == 90 || x == 91 || x == 92
        || x == 93 || x == 94 || x == 95 || x == 96 || x == 97 || x == 98 || x == 99 || x == 100 || x == 101;
    if x == 77 {
      NotPrime(p, 3);
    } else if x == 88 {
      NotPrime(p, 13);
    } else if x == 91 {
      if y == 26565 { NotPrime(q, 13); }
      if y == 30360 { NotPrime(q, 41); }
    } else if x == 92 {
      NotPrime(p, 3);
    } else if x == 99 {
      NotPrime(p, 5);
    }
  }

  const HALF_PRIMORIAL: nat := 111546435

  lemma EitherFactor(r: nat, a: nat, b: nat)
    requires Prime(r) && Divides(r, a * b)
    ensures Divides(r, a) || Divides(r, b)
  {
    if !Divides(r, a) {
      PrimeCoprime(r, a);
      Gauss(r, a, b);
    }
  }

  lemma PrimorialPart(r: nat, t: int)
    requires r > 0 && HALF_PRIMORIAL % r == 0 && Divides(HALF_PRIMORIAL, t)
    ensures Divides(r, t)
  {
    DividesTrans(r, HALF_PRIMORIAL, t);
  }

  lemma BothDivide(r: nat, s: nat, a: nat)
    requires r > 1 && Prime(s) && r % s != 0 && Divides(r, a) && Divides(s, a)
    ensures r * s > 0 && Divides(r * s, a)
  {
    JoinPrime(r, s, a);
  }

  /** Two of the primes 17, 19 and 23 are in the same half. */
  lemma TwoTogether(a: nat, b: nat)
    requires Divides(HALF_PRIMORIAL, a * b)
    ensures (Divides(437, a) || Divides(391, a) || Divides(323, a))
         || (Divides(437, b) || Divides(391, b) || Divides(323, b))
  {
    SmallPrimes();
    PrimorialPart(17, a * b);
    PrimorialPart(19, a * b);
    PrimorialPart(23, a * b);
    EitherFactor(17, a, b);
    EitherFactor(19, a, b);
    EitherFactor(23, a, b);
    var inA := (Divides(23, a) && (Divides(19, a) || Divides(17, a))) || (Divides(19, a) && Divides(17, a));
    var c := if inA then a else b;
    if Divides(23, c) && Divides(19, c) {
      BothDivide(23, 19, c);
    } else if Divides(23, c) {
      BothDivide(23, 17, c);
    } else {
      BothDivide(19, 17, c);
    }
  }

  lemma NoPair(a: nat, b: nat, k: nat)
    requires 7 <= k <= 9 && a <= 32767 && b <= 32767 && a * b == k * HALF_PRIMORIAL
    requires Divides(437, a) || Divides(391, a) || Divides(323, a)
    ensures !(Prime(2 * a + 1) && Prime(2 * b + 1))
  {
    if Divides(437, a) {
      var x := a / 437;
      Cancel(437, x, b, k, 255255);
      NoPair437(x, b, k);
    } else if Divides(391, a) {
      var x := a / 391;
      Cancel(391, x, b, k, 285285);
      NoPair391(x, b, k);
    } else {
      var x := a / 323;
      Cancel(323, x, b, k, 345345);
      NoPair323(x, b, k);
    }
  }

  lemma Cancel(r: nat, x: nat, y: nat, k: nat, c: nat)
    requires r > 0 && (r * x) * y == k * (r * c)
    ensures x * y == k * c
  {
    MulAssoc(r, x, y);
    MulExchange(k, r, c);
    if x * y < k * c {
      MulMonotone(x * y + 1, k * c, r);
    } else if x * y > k * c {
      MulMonotone(k * c + 1, x * y, r);
    }
  }

  lemma PrimorialDivides(t: nat)
    requires LeastNonDivisorPrime(29, t)
    ensures Divides(223092870, t)
  {
    SmallPrimes();
    JoinPrime(2, 3, t);
    JoinPrime(6, 5, t);
    JoinPrime(30, 7, t);
    JoinPrime(210, 11, t);
    JoinPrime(2310, 13, t);
    JoinPrime(30030, 17, t);
    JoinPrime(510510, 19, t);
    JoinPrime(9699690, 23, t);
  }

  /** A repeated prime cannot have a totient with so many prime factors. */
  lemma NotRepeated(p: nat)
    requires Prime(p) && 32768 <= p <= 65536
    ensures !Divides(223092870, p * (p - 1))
  {
    if Divides(223092870, p * (p - 1)) {
      var a := p - 1;
      SmallPrimes();
      DividesTrans(HALF_PRIMORIAL, 223092870, p * a);
      forall r | r == 13 || r == 17 || r == 19 || r == 23
        ensures r > 0 && Divides(r, a)
      {
        PrimorialPart(r, p * a);
        EitherFactor(r, p, a);
      }
      BothDivide(23, 19, a);
      BothDivide(437, 17, a);
      BothDivide(7429, 13, a);
      DividesBound(96577, a);
    }
  }

  lemma HalvesOf(a: nat, b: nat)
    requires Divides(223092870, 4 * (a * b)) && 1 <= a <= 32767 && 1 <= b <= 32767
    requires (2 * a + 1) * (2 * b + 1) > 3037000500
    ensures a * b % HALF_PRIMORIAL == 0 && 7 <= a * b / HALF_PRIMORIAL <= 9
  {
    MulMonotone(a, 32767, b);
    MulMonotone(b, 32767, 32767);
    OddProduct(a, b);
    HalfMultiple(a * b, a + b);
  }

  lemma OddProduct(a: nat, b: nat)
    ensures (2 * a + 1) * (2 * b + 1) == 4 * (a * b) + 2 * (a + b) + 1
  {
  }

  lemma HalfMultiple(x: nat, sum: nat)
    requires Divides(223092870, 4 * x) && x <= 32767 * 32767
    requires sum <= 65534 && 4 * x + 2 * sum + 1 > 3037000500
    ensures x % HALF_PRIMORIAL == 0 && 7 <= x / HALF_PRIMORIAL <= 9
  {
    var k := 4 * x / 223092870;
    assert 4 * x == k * 223092870;
    assert x == (k / 2) * HALF_PRIMORIAL;
    DivModUnique(x, k / 2, 0, HALF_PRIMORIAL);
  }

  lemma NoLargePair(a: nat, b: nat)
    requires Divides(223092870, 4 * (a * b)) && 1 <= a <= 32767 && 1 <= b <= 32767
    requires Prime(2 * a + 1) && Prime(2 * b + 1)
    ensures (2 * a + 1) * (2 * b + 1) <= 3037000500
  {
    if (2 * a + 1) * (2 * b + 1) > 3037000500 {
      HalvesOf(a, b);
      var k := a * b / HALF_PRIMORIAL;
      TwoTogether(a, b);
      if Divides(437, a) || Divides(391, a) || Divides(323, a) {
        NoPair(a, b, k);
      } else {
        NoPair(b, a, k);
      }
    }
  }

  lemma FourTimes(p: nat, q: nat, a: nat, b: nat)
    requires p == 2 * a + 1 && q == 2 * b + 1
    ensures (p - 1) * (q - 1) == 4 * (a * b)
  {
  }

  /** Keys with exponent 29 are few, and all their moduli are within the safe bound. */
  lemma Exponent29Safe(p: nat, q: nat, n: nat, d: nat)
    requires Kotlin.GeneratedKey(p, q, n, 29, d)
    ensures n <= Cpp.SAFE_MODULUS
  {
    PhiTwoPrimes(p, q);
    PrimorialDivides(Phi(n));
    PrimeOdd(p);
    PrimeOdd(q);
    if p == q {
      NotRepeated(p);
    } else {
      var a, b := p / 2, q / 2;
      FourTimes(p, q, a, b);
      NoLargePair(a, b);
    }
  }

  // -------------------------------------------------------------- the exact condition

  /** A key is safe if its exponent is short or its modulus small; both can be read off the key. */
  lemma KeySafe(e: int64, m: int64)
    requires 0 < m && m as int <= 0x1_0000_0000 && e > 0
    requires e <= 12 || m as int <= Cpp.SAFE_MODULUS
    ensures EncryptsAll(e, m)
  {
    forall c: int64 | -128 <= c < 128
      ensures Cpp.WrappedPow(1, c, e, m) as int == Primitive(c as int, e as nat, m as int)
    {
      CharacterSafe(c as int, e, m);
    }
  }

  lemma CharacterSafe(c: int, e: int64, m: int64)
    requires -128 <= c < 128 && 0 < m && m as int <= 0x1_0000_0000 && e > 0
    requires e <= 12 || m as int <= Cpp.SAFE_MODULUS
    ensures Cpp.WrappedPow(1, c as int64, e, m) as int == Primitive(c, e as nat, m as int)
  {
    if e <= 12 {
      ShortExponentSafe(c, e, m);
    } else {
      Cpp.ModPowCorrect(c as int64, e, m);
    }
  }

  lemma UnsafeKeyExists(e: int64) returns (p: nat, q: nat, n: int64, d: nat)
    requires e == 13 || e == 17 || e == 19 || e == 23
    ensures ServerKey(p, q, n, e, d) && !EncryptsAll(e, n)
  {
    if e == 13 {
      n := 3110295541;
      ThirteenFails(n);
      p, q, d := ThirteenKey(n as nat);
    } else if e == 17 {
      n := 3117946399;
      SeventeenFails(n);
      p, q, d := SeventeenKey(n as nat);
    } else if e == 19 {
      n := 3155064139;
      NineteenFails(n);
      p, q, d := NineteenKey(n as nat);
    } else {
      n := 3298009487;
      TwentyThreeFails(n);
      p, q, d := TwentyThreeKey(n as nat);
    }
  }

  /** Exactly when the C++ side encrypts every character correctly under every key the mapping server
      can generate with a given exponent. Possible exponents are the primes from 3 to 29, so the
      safe ones are 3, 5, 7, 11 and 29. */
  lemma SafeExponents(e: int64)
    requires e > 0
    ensures (forall p, q, n: int64, d :: ServerKey(p, q, n, e, d) ==> EncryptsAll(e, n))
       <==> e != 13 && e != 17 && e != 19 && e != 23
  {
    if e == 13 || e == 17 || e == 19 || e == 23 {
      var p, q, n, d := UnsafeKeyExists(e);
    } else {
      forall p, q, n: int64, d | ServerKey(p, q, n, e, d)
        ensures EncryptsAll(e, n)
      {
        Kotlin.GeneratedModulus(p, q, n as nat, e as nat, d);
        PrimeCases(e as nat);
        if e == 29 {
          Exponent29Safe(p, q, n as nat, d);
        }
        KeySafe(e, n);
      }
    }
  }
}
