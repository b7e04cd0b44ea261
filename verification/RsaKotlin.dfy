/** MappingServer/src/RSAHandler.kt: the mapping server's RSA on unsigned
    integers, with its own primality test and a linear search for the private key. */
module RsaKotlin {
  import opened Arithmetic
  import opened Totient
  import opened Basics
  import opened RsaMath

  newtype uint32 = x: int | 0 <= x < 0x1_0000_0000

  /** A UTF-16 code unit, Kotlin's `Char`. */
  newtype CodeUnit = x: int | 0 <= x < 65536

  const KEY_SIZE: int := 65536
  const SAFE_MODULUS: int := 0x1_0000_0000

  // ----------------------------------------------- fixed-width modular power

  function Step(a: uint64, b: uint64, modulus: uint64): uint64
    requires modulus != 0
  {
    WrapU64(a as int * b as int) % modulus
  }

  function WrappedPow(result: uint64, base: uint64, exponent: uint64, modulus: uint64): uint64
    requires modulus != 0
    decreases exponent
  {
    if exponent == 0 then result
    else
      WrappedPow(if exponent % 2 == 1 then Step(result, base, modulus) else result,
                 Step(base, base, modulus), exponent / 2, modulus)
  }

  lemma SmallProduct(a: nat, b: nat)
    requires a < SAFE_MODULUS && b < SAFE_MODULUS
    ensures 0 <= a * b < TWO_64
  {
    MulMonotone(0, a, b);
    MulMonotone(a, SAFE_MODULUS - 1, b);
    assert a * b <= 0xffff_ffff * b <= 0xffff_ffff * 0xffff_ffff;
  }

  /** Nothing overflows, or wrapping around is harmless since the modulus divides the width of the type. */
  predicate Harmless(a: uint64, b: uint64, modulus: uint64)
    requires modulus != 0
  {
    TWO_64 % modulus as int == 0
    || (modulus as int <= SAFE_MODULUS && a as int < SAFE_MODULUS && b as int < SAFE_MODULUS)
  }

  lemma StepSafe(a: uint64, b: uint64, modulus: uint64)
    requires modulus != 0 && Harmless(a, b, modulus)
    ensures Step(a, b, modulus) as int == TRem(a as int * b as int, modulus as int)
  {
    var x, k := a as int * b as int, modulus as int;
    if TWO_64 % k == 0 {
      var w, j := WrapU64(x) as int, x / TWO_64;
      assert x == w + j * TWO_64 && TWO_64 == (TWO_64 / k) * k;
      MulAssoc(j, TWO_64 / k, k);
      CongIntro(x, w, j * (TWO_64 / k), k);
    } else {
      SmallProduct(a as int, b as int);
    }
  }

  lemma {:induction false} WrappedPowIsPower(r: uint64, b: uint64, e: uint64, m: uint64)
    requires 0 < m && e > 0 && Harmless(r, b, m)
    ensures WrappedPow(r, b, e, m) as int == TRem(r as int * Pow(b as int, e as nat), m as int)
    decreases e as int
  {
    StepSafe(b, b, m);
    StepSafe(r, b, m);
    var bb := Step(b, b, m);
    var rr := if e % 2 == 1 then Step(r, b, m) else r;
    var h := (e / 2) as nat;
    var factor := if e % 2 == 1 then b as int else 1;
    PowHalve(b as int, e as nat);
    MulAssoc(r as int, factor, Pow(b as int * b as int, h));
    if h == 0 {
      assert e == 1;
    } else {
      WrappedPowIsPower(rr, bb, e / 2, m);
      TRemPow(b as int * b as int, h, m as int);
      TRemIdem(r as int * b as int, m as int);
      TRemCong(rr as int, r as int * factor, Pow(bb as int, h), Pow(b as int * b as int, h), m as int);
    }
  }

  lemma ModPowCorrect(b: uint64, e: uint64, m: uint64)
    requires 0 < m && e > 0 && Harmless(1, b, m)
    ensures WrappedPow(1, b, e, m) as int == Primitive(b as int, e as nat, m as int)
  {
    WrappedPowIsPower(1, b, e, m);
  }

  lemma BoundSquareWraps(m: uint64)
    requires m as int > SAFE_MODULUS && TWO_64 % m as int != 0
    ensures WrappedPow(1, 0x1_0000_0000, 2, m) as int != Primitive(SAFE_MODULUS, 2, m as int)
  {
    var b: uint64 := 0x1_0000_0000;
    assert b as int * b as int == TWO_64;
    assert Step(b, b, m) == 0;
    assert WrappedPow(1, b, 2, m) == WrappedPow(1, 0, 1, m) == Step(1, 0, m) == 0;
    assert Pow(SAFE_MODULUS, 2) == TWO_64;
  }

  /** Exactly for which moduli modPow is right for every residue and exponent: those up to 2^32,
      and the powers of two above it, for which the wrap-around does not matter. */
  lemma ModPowExact(m: uint64)
    requires m > 0
    ensures (forall b: uint64, e: uint64 :: b < m && e > 0 ==>
               WrappedPow(1, b, e, m) as int == Primitive(b as int, e as nat, m as int))
       <==> m as int <= SAFE_MODULUS || TWO_64 % m as int == 0
  {
    if m as int <= SAFE_MODULUS || TWO_64 % m as int == 0 {
      forall b: uint64, e: uint64 | b < m && e > 0
        ensures WrappedPow(1, b, e, m) as int == Primitive(b as int, e as nat, m as int)
      {
        ModPowCorrect(b, e, m);
      }
    } else {
      BoundSquareWraps(m);
    }
  }

  /** The default key size keeps the 32-bit product of the factors exact. */
  lemma FactorsFit(p: nat, q: nat)
    requires Prime(p) && Prime(q) && 3 <= p <= KEY_SIZE && 3 <= q <= KEY_SIZE
    ensures 9 <= p * q < SAFE_MODULUS
    ensures p - 1 < KEY_SIZE && q - 1 < KEY_SIZE
  {
    assert !Divides(2, p) && !Divides(2, q);
    assert p != 65536 && q != 65536;
    MulMonotone(p, 65535, q);
    MulMonotone(q, 65535, 65535);
    MulMonotone(3, p, q);
  }

  // ------------------------------------------------------- message encryption

  function EncryptSpec(m: seq<CodeUnit>, e: nat, n: int): (c: seq<int>)
    requires n > 0
    ensures |c| == |m|
  {
    seq(|m|, i requires 0 <= i < |m| => Primitive(m[i] as int, e, n))
  }

  function LowUnit(x: int): (u: CodeUnit)
    ensures (x - u as int) % 65536 == 0
    ensures 0 <= x < 65536 ==> u as int == x
  {
    (x % 65536) as CodeUnit
  }

  function DecryptSpec(c: seq<int>, d: nat, n: int): (m: seq<CodeUnit>)
    requires n > 0
    ensures |m| == |c|
  {
    seq(|c|, i requires 0 <= i < |c| => LowUnit(Primitive(c[i], d, n)))
  }

  lemma UnitRoundTrip(u: CodeUnit, p: nat, q: nat, n: nat, e: nat, d: nat)
    requires KeyPair(p, q, n, e, d)
    ensures n > 0
    ensures LowUnit(Primitive(Primitive(u as int, e, n), d, n)) == u <==> Recoverable(u as int, p, q)
  {
    PrimitiveRoundTrip(u as int, p, q, n, e, d);
    TRemFixed(u as int, n);
    DivideDown(u as int, n);
  }

  /** Decryption inverts encryption on exactly the strings of recoverable code units. */
  lemma MessageRoundTrip(m: seq<CodeUnit>, p: nat, q: nat, n: nat, e: nat, d: nat)
    requires KeyPair(p, q, n, e, d)
    ensures n > 0
    ensures DecryptSpec(EncryptSpec(m, e, n), d, n) == m
       <==> forall i :: 0 <= i < |m| ==> Recoverable(m[i] as int, p, q)
  {
    UnitRoundTrip(0, p, q, n, e, d);
    var r := DecryptSpec(EncryptSpec(m, e, n), d, n);
    forall i | 0 <= i < |m|
      ensures r[i] == m[i] <==> Recoverable(m[i] as int, p, q)
    {
      UnitRoundTrip(m[i], p, q, n, e, d);
    }
    if forall i :: 0 <= i < |m| ==> Recoverable(m[i] as int, p, q) {
      assert r == m;
    }
    if r == m {
      forall i | 0 <= i < |m| ensures Recoverable(m[i] as int, p, q) {
        assert r[i] == m[i];
      }
    }
  }

  /** The key pairs `generatePrime` can lead to. */
  ghost predicate GeneratedKey(p: nat, q: nat, n: nat, e: nat, d: nat) {
    KeyPair(p, q, n, e, d) && KEY_SIZE / 2 <= p <= KEY_SIZE && KEY_SIZE / 2 <= q <= KEY_SIZE
  }

  lemma GeneratedModulus(p: nat, q: nat, n: nat, e: nat, d: nat)
    requires GeneratedKey(p, q, n, e, d)
    ensures n == p * q && 65536 <= n < SAFE_MODULUS && 3 <= e <= 29 && d >= 1
  {
    FactorsFit(p, q);
    MulMonotone(32768, p, q);
    OddTotient(p, q);
    SmallExponent(e, Phi(n));
    TotientEven(p, q);
    var k := InverseWitness(d, e, Phi(n));
  }

  /** With a generated key every string survives, unless the two primes coincide and the string
      contains the very character with that code. */
  lemma EveryStringSurvives(m: seq<CodeUnit>, p: nat, q: nat, n: nat, e: nat, d: nat)
    requires GeneratedKey(p, q, n, e, d)
    ensures n > 0
    ensures DecryptSpec(EncryptSpec(m, e, n), d, n) == m
       <==> (p == q ==> forall i :: 0 <= i < |m| ==> m[i] as int != p)
  {
    GeneratedModulus(p, q, n, e, d);
    MessageRoundTrip(m, p, q, n, e, d);
    forall u: nat | u < 65536
      ensures Recoverable(u, p, q) <==> (p == q ==> u != p)
    {
      OnlyMultiple(u, p);
    }
  }

  lemma OnlyMultiple(u: nat, p: nat)
    requires u < 65536 && 32768 <= p
    ensures Divides(p, u) <==> u == 0 || u == p
  {
    if Divides(p, u) {
      var k := u / p;
      assert u == p * k;
      if k >= 2 { MulMonotone(2, k, p); }
    }
    if u == p {
      DivModUnique(u, 1, 0, p);
    }
  }

  // ------------------------------------------------- the guard of the totient loop

  /** The square of `i` wraps around to at most 1. */
  predicate Vanishes(i: int) {
    i * i % TWO_64 <= 1
  }

  /** How far the counter can be once the number is used up: it has only passed squares that vanish. */
  ghost predicate IdleRounds(n: int, i: int, idle: nat) {
    if n == 1 then i <= TWO_64 - 4 + idle && forall j :: i - idle <= j < i ==> Vanishes(j)
    else idle == 0
  }

  lemma SquareResidue(i: int)
    ensures (i + 1) * (i + 1) == i * i + 2 * i + 1
    ensures (i + 2) * (i + 2) == 2 * ((i + 1) * (i + 1)) - i * i + 2
  {
  }

  /** Of three neighbouring squares that vanish the middle one is 0 and the outer ones are 1. */
  lemma ThreeVanish(i: int)
    requires Vanishes(i) && Vanishes(i + 1) && Vanishes(i + 2)
    ensures (i + 1) * (i + 1) % TWO_64 == 0
    ensures i * i % TWO_64 == 1 && (i + 2) * (i + 2) % TWO_64 == 1
  {
    SquareResidue(i);
    SecondDifference(i * i, (i + 1) * (i + 1), (i + 2) * (i + 2));
  }

  lemma SecondDifference(a: int, b: int, c: int)
    requires a % TWO_64 <= 1 && b % TWO_64 <= 1 && c % TWO_64 <= 1 && c == 2 * b - a + 2
    ensures b % TWO_64 == 0 && a % TWO_64 == 1 && c % TWO_64 == 1
  {
    var k := c / TWO_64 - 2 * (b / TWO_64) + a / TWO_64;
    assert k * TWO_64 + c % TWO_64 - 2 * (b % TWO_64) + a % TWO_64 == 2;
  }

  lemma NotFour(i: int)
    requires Vanishes(i) && Vanishes(i + 1) && Vanishes(i + 2)
    ensures !Vanishes(i + 3)
  {
    if Vanishes(i + 3) {
      ThreeVanish(i);
      ThreeVanish(i + 1);
    }
  }

  /** The four largest numbers of the type have small factors. */
  lemma FactorBelowTop(n: int, i: int)
    requires 2 <= i < TWO_64 && n >= 1 && Divides(i, n) && NoDivisorBelow(n, i)
    ensures i <= TWO_64 - 5
  {
    if i > TWO_64 - 5 {
      var d := if i == TWO_64 - 1 then 3 else if i == TWO_64 - 3 then 13 else 2;
      assert Divides(d, i);
      DividesTrans(d, i, n);
    }
  }

  lemma CounterFits(n: int, i: int, idle: nat)
    requires 2 <= i && 1 <= n < TWO_64 && n % i != 0 && NoDivisorBelow(n, i)
    requires IdleRounds(n, i, idle) && i * i % TWO_64 <= n
    ensures i + 1 < TWO_64
    ensures IdleRounds(n, i + 1, if n == 1 then idle + 1 else 0)
  {
    if n == 1 {
      FewIdleRounds(i, idle);
    } else {
      assert n % n == 0 && Divides(n, n);
    }
  }

  lemma FewIdleRounds(i: int, idle: nat)
    requires Vanishes(i) && IdleRounds(1, i, idle)
    ensures idle <= 2 && IdleRounds(1, i + 1, idle + 1)
  {
    if idle >= 3 {
      assert Vanishes(i - 1) && Vanishes(i - 2) && Vanishes(i - 3);
      var j := i - 3;
      NotFour(j);
    }
  }

  lemma WrappedNotLarger(x: nat)
    ensures WrapU64(x) as int <= x
  {
  }

  // --------------------------------------------------------------- the class

  class RSAHandler {
    var p: uint32
    var q: uint32
    var modulus: uint64
    var t: uint64
    var publicKey: uint64
    var privateKey: uint64
    var clientPublicKey: uint64
    var clientModulus: uint64

    ghost predicate Valid()
      reads this
    {
      0 < modulus && modulus as int < SAFE_MODULUS && publicKey <= 29
      && t as int == Phi(modulus as int)
      && KeyPair(p as int, q as int, modulus as int, publicKey as int, privateKey as int)
    }

    /** The initialiser once two numbers passed `isPrime`; with the default key size it never throws. */
    constructor (p0: uint32, q0: uint32)
      requires Prime(p0 as int) && p0 != 2 && p0 as int <= KEY_SIZE
      requires Prime(q0 as int) && q0 != 2 && q0 as int <= KEY_SIZE
      ensures Valid() && p == p0 && q == q0 && clientPublicKey == 0 && clientModulus == 0
    {
      clientPublicKey, clientModulus := 0, 0;
      p, q := p0, q0;
      FactorsFit(p0 as int, q0 as int);
      OddTotient(p0 as int, q0 as int);
      var product: uint32 := p0 * q0;
      modulus := product as uint64;
      var totient := ComputeTotient(product as uint64);
      t := totient;
      var e := GenerateE(totient);
      publicKey := e.value;
      ExponentProduct(e.value as int, totient as int);
      var d := CalculateD(e.value, totient);
      privateKey := d;
    }

    method Encrypt(m: seq<CodeUnit>) returns (r: Option<seq<int64>>)
      ensures r.None? <==> clientPublicKey == 0 || clientModulus == 0
      ensures r.Some? ==> |r.value| == |m| && forall i :: 0 <= i < |m| ==>
        r.value[i] == Wrap64(WrappedPow(1, m[i] as uint64, clientPublicKey, clientModulus) as int)
      ensures r.Some? && clientModulus as int <= SAFE_MODULUS ==> forall i :: 0 <= i < |m| ==>
        r.value[i] as int == EncryptSpec(m, clientPublicKey as nat, clientModulus as int)[i]
    {
      if clientPublicKey == 0 || clientModulus == 0 {
        return None;
      }
      var encryptedMessage: seq<int64> := [];
      for i := 0 to |m|
        invariant |encryptedMessage| == i
        invariant forall j :: 0 <= j < i ==>
          encryptedMessage[j] == Wrap64(WrappedPow(1, m[j] as uint64, clientPublicKey, clientModulus) as int)
      {
        var encryptedChar := ModPow(m[i] as uint64, clientPublicKey, clientModulus);
        encryptedMessage := encryptedMessage + [Wrap64(encryptedChar as int)];
      }
      if clientModulus as int <= SAFE_MODULUS {
        forall j | 0 <= j < |m|
          ensures encryptedMessage[j] as int == EncryptSpec(m, clientPublicKey as nat, clientModulus as int)[j]
        {
          ModPowCorrect(m[j] as uint64, clientPublicKey, clientModulus);
        }
      }
      return Some(encryptedMessage);
    }

    method Decrypt(encrypted: seq<uint64>) returns (m: seq<CodeUnit>)
      requires Valid()
      ensures |m| == |encrypted|
      ensures forall i :: 0 <= i < |encrypted| ==>
        (WrappedPow(1, encrypted[i], privateKey, modulus) as int - m[i] as int) % 65536 == 0
      ensures forall i :: 0 <= i < |encrypted| && encrypted[i] as int < SAFE_MODULUS ==>
        m[i] == LowUnit(Primitive(encrypted[i] as int, privateKey as nat, modulus as int))
    {
      m := [];
      ghost var k := InverseWitness(privateKey as int, publicKey as int, Phi(modulus as int));
      for i := 0 to |encrypted|
        invariant |m| == i
        invariant forall j :: 0 <= j < i ==>
          m[j] == LowUnit(WrappedPow(1, encrypted[j], privateKey, modulus) as int)
        invariant forall j :: 0 <= j < i && encrypted[j] as int < SAFE_MODULUS ==>
          m[j] == LowUnit(Primitive(encrypted[j] as int, privateKey as nat, modulus as int))
      {
        var value := ModPow(encrypted[i], privateKey, modulus);
        if encrypted[i] as int < SAFE_MODULUS {
          ModPowCorrect(encrypted[i], privateKey, modulus);
        }
        m := m + [LowUnit(value as int)];
      }
    }

    /** The loop also tries one past the square root, so 2 is rejected. */
    static method IsPrime(n: uint64) returns (r: bool)
      ensures r <==> Prime(n as int) && n != 2
    {
      if n < 2 {
        return false;
      }
      var i: uint64 := 2;
      while (i as int - 1) * (i as int - 1) <= n as int
        invariant 2 <= i <= n
        invariant NoDivisorBelow(n as int, i as int) && (n == 2 ==> i == 2)
        decreases n as int - i as int
      {
        if n % i == 0 {
          assert Divides(i as int, n as int);
          return false;
        }
        if i == n {
          DivModUnique(n as int, 1, 0, n as int);
        }
        i := i + 1;
      }
      MulMonotone(i as int - 1, i as int, i as int - 1);
      MulMonotone(i as int - 1, i as int, i as int);
      NoSmallFactor(n as int, i as int);
      return true;
    }

    /** The square in the guard may wrap around; then the loop runs longer than it needs to, but
        the result is the same, and the counter never reaches the end of its type. */
    static method ComputeTotient(n0: uint64) returns (result: uint64)
      ensures n0 == 0 ==> result == 0
      ensures n0 >= 1 ==> result as int == Phi(n0 as int)
    {
      result := n0;
      var i: uint64 := 2;
      var n := n0;
      if n == 0 {
        return;
      }
      ghost var c: nat, idle: nat := 1, 0;
      TotientStart(n as int);
      while WrapU64(i as int * i as int) <= n
        invariant 1 <= n <= n0 && 2 <= i
        invariant TotientLoop(n0 as int, n as int, i as int, c, result as int)
        invariant IdleRounds(n as int, i as int, idle)
        decreases TWO_64 - i as int
      {
        if n % i == 0 {
          FactorBelowTop(n as int, i as int);
          ghost var before, n1 := result, n;
          ghost var k: nat := 0;
          DivideDown(result as int, i as int);
          result := result - result / i;
          while n % i == 0
            invariant 1 <= n <= n1 && n1 as int == Pow(i as int, k) * n as int
            decreases n
          {
            PeelFactor(i as int, k, n as int);
            n := n / i;
            k := k + 1;
          }
          TotientStep(n0 as int, n1 as int, n as int, i as int, k, c, before as int);
          c := c * Pow(i as int, k);
          idle := 0;
        } else {
          CounterFits(n as int, i as int, idle);
          SkipNonDivisor(n as int, i as int);
          idle := if n == 1 then idle + 1 else 0;
        }
        i := i + 1;
      }
      WrappedNotLarger(i as int * i as int);
      TotientLast(n0 as int, n as int, i as int, c, result as int);
      if n > 1 {
        result := result - result / n;
      }
    }

    static method Gcd64(a: uint64, b: uint64) returns (x: uint64)
      ensures x as int == Gcd(a as int, b as int)
    {
      x := a;
      var y := b;
      while y != 0
        invariant Gcd(x as int, y as int) == Gcd(a as int, b as int)
        decreases y
      {
        var temp := y;
        y := x % y;
        x := temp;
      }
    }

    static method GenerateE(num: uint64) returns (r: Option<uint64>)
      requires num >= 1
      ensures r.None? <==> num <= 2
      ensures r.Some? ==> 2 <= r.value < num && LeastNonDivisorPrime(r.value as int, num as int)
      ensures r.Some? && num < 6469693230 ==> r.value <= 29
    {
      var e: uint64 := 2;
      while e < num
        invariant 2 <= e && (e <= num || num <= 2)
        invariant NoneCoprimeBelow(num as int, e as int)
      {
        var g := Gcd64(e, num);
        if g == 1 {
          LeastCoprimeIsPrime(e as int, num as int);
          if num < 6469693230 {
            SmallExponent(e as int, num as int);
          }
          return Some(e);
        }
        e := e + 1;
      }
      if num > 2 {
        CoprimeFromCombination((num - 1) as int, num as int, -1, 1);
        assert false;
      }
      return None;
    }

    static method ModPow(base: uint64, exponent: uint64, modulus: uint64) returns (result: uint64)
      requires modulus != 0
      ensures result == WrappedPow(1, base, exponent, modulus)
    {
      result := 1;
      var exp, baseVar := exponent, base;
      while exp > 0
        invariant WrappedPow(result, baseVar, exp, modulus) == WrappedPow(1, base, exponent, modulus)
        decreases exp
      {
        if exp % 2 == 1 {
          result := Step(result, baseVar, modulus);
        }
        exp := exp / 2;
        baseVar := Step(baseVar, baseVar, modulus);
      }
    }

    /** The search stops before `e`, and no candidate on the way overflows. */
    static method CalculateD(e: uint64, totient: uint64) returns (d: uint64)
      requires e >= 2 && totient > 1 && Coprime(e as int, totient as int)
      requires (e as int - 1) * totient as int + 1 < TWO_64
      ensures IsInverse(d as int, e as int, totient as int)
    {
      var k: uint64 := 1;
      ghost var last := SearchEnds(e as int, totient as int);
      MulMonotone(1, last, totient as int);
      MulMonotone(last, e as int - 1, totient as int);
      while (k * totient + 1) % e != 0
        invariant 1 <= k && k as int <= last
        invariant 0 <= k as int * totient as int <= (e as int - 1) * totient as int
        decreases last - k as int
      {
        k := k + 1;
        MulMonotone(0, k as int, totient as int);
        MulMonotone(k as int, e as int - 1, totient as int);
      }
      SearchFindsInverse(e as int, totient as int, k as int);
      d := (k * totient + 1) / e;
    }
  }

  lemma ExponentProduct(e: nat, t: nat)
    requires LeastNonDivisorPrime(e, t) && e <= 29 && t < SAFE_MODULUS
    ensures Coprime(e, t) && (e - 1) * t + 1 < TWO_64
  {
    PrimeCoprime(e, t);
    CoprimeSym(t, e);
    MulMonotone(e - 1, 28, t);
  }
}
