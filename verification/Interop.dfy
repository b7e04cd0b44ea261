/** The two RSA implementations against each other: nodes and clients (C++) encrypt for the mapping
    server (Kotlin) and read its answers, exchanging numbers as bracketed text. */
module Interop {
  import opened Arithmetic
  import opened Totient
  import opened Basics
  import opened RsaMath
  import opened RsaText
  import opened ForeignKeys
  import Cpp = RsaHandler
  import Kotlin = RsaKotlin

  // -------------------------------------------------- a node asks the mapping server

  predicate Ascii(m: Bytes) {
    forall i :: 0 <= i < |m| ==> m[i] < 128
  }

  /** ASCII text as the mapping server's characters. */
  function Units(m: Bytes): (u: seq<Kotlin.CodeUnit>)
    ensures |u| == |m| && forall i :: 0 <= i < |m| ==> u[i] as int == m[i] as int
  {
    seq(|m|, i requires 0 <= i < |m| => m[i] as int as Kotlin.CodeUnit)
  }

  function NodeEncrypt(m: Bytes, e: int64, n: int64): (c: seq<int>)
    requires n != 0
    ensures |c| == |m|
  {
    seq(|m|, i requires 0 <= i < |m| => Cpp.WrappedPow(1, SignedChar(m[i]) as int64, e, n) as int)
  }

  function ServerUnit(x: int, d: uint64, n: uint64): Kotlin.CodeUnit
    requires n != 0
  {
    Kotlin.LowUnit(Kotlin.WrappedPow(1, WrapU64(x), d, n) as int)
  }

  /** RSAHandler.kt `decrypt(String)`; `None` is the exception for a number it cannot read. */
  function ServerDecrypt(s: Bytes, d: uint64, n: uint64): Option<seq<Kotlin.CodeUnit>>
    requires n != 0
  {
    var xs := ParseListKotlin(s);
    if xs.None? then None
    else Some(seq(|xs.value|, i requires 0 <= i < |xs.value| => ServerUnit(xs.value[i], d, n)))
  }

  /** A character of 128 or above is a negative `char`, and so is its odd power. */
  lemma HighCharacterNegative(c: int, p: nat, q: nat, n: nat, e: nat, d: nat)
    requires Kotlin.GeneratedKey(p, q, n, e, d) && -128 <= c < 0
    ensures n > 0 && Primitive(c, e, n) < 0
  {
    Kotlin.GeneratedModulus(p, q, n, e, d);
    PrimeOdd(e);
    PowNegate(-c, e);
    PowPositive(-c, e);
    PrimitiveRoundTrip(c, p, q, n, e, d);
    Kotlin.OnlyMultiple(-c, p);
    DividesAbs(p, c);
    TRemFixed(c, n);
    assert Primitive(0, d, n) == 0 by { assert Pow(0, d) == 0; }
  }

  lemma CharacterToServer(b: Byte, p: nat, q: nat, n: int64, e: int64, d: uint64)
    requires ServerKey(p, q, n, e, d as nat) && (e <= 12 || n as int <= Cpp.SAFE_MODULUS)
    ensures var x := Cpp.WrappedPow(1, SignedChar(b) as int64, e, n) as int;
      -(n as int) < x < n as int
      && if b < 128 then x >= 0 && ServerUnit(x, d, n as uint64) as int == b as int else x < 0
  {
    Kotlin.GeneratedModulus(p, q, n as nat, e as nat, d as nat);
    var c := SignedChar(b);
    CharacterSafe(c, e, n);
    if b < 128 {
      PowNonNegative(c, e as nat);
      LowCharacter(c, p, q, n, e, d);
    } else {
      HighCharacterNegative(c, p, q, n as nat, e as nat, d as nat);
    }
  }

  lemma LowCharacter(c: nat, p: nat, q: nat, n: int64, e: int64, d: uint64)
    requires ServerKey(p, q, n, e, d as nat) && c < 128 && d > 0
    requires p * q >= 65536 && n as int < Kotlin.SAFE_MODULUS && 0 <= Primitive(c, e as nat, n as int)
    ensures ServerUnit(Primitive(c, e as nat, n as int), d, n as uint64) as int == c
  {
    var x := Primitive(c, e as nat, n as int);
    Kotlin.OnlyMultiple(c, p);
    assert Recoverable(c, p, q);
    Kotlin.UnitRoundTrip(c as Kotlin.CodeUnit, p, q, n as nat, e as nat, d as nat);
    Kotlin.ModPowCorrect(x as uint64, d, n as uint64);
  }

  /** What a node or client sends under a key of the mapping server with a short exponent or a
      small modulus is read exactly when it is nonempty ASCII text, and then as it was written. */
  lemma NodeToServer(m: Bytes, p: nat, q: nat, n: int64, e: int64, d: uint64)
    requires ServerKey(p, q, n, e, d as nat) && (e <= 12 || n as int <= Cpp.SAFE_MODULUS)
    ensures ServerDecrypt(PrintList(NodeEncrypt(m, e, n)), d, n as uint64)
         == if m != [] && Ascii(m) then Some(Units(m)) else None
  {
    var xs := NodeEncrypt(m, e, n);
    forall i | 0 <= i < |m|
      ensures -TWO_63 <= xs[i] < TWO_63 && (xs[i] >= 0 <==> m[i] < 128)
      ensures m[i] < 128 ==> ServerUnit(xs[i], d, n as uint64) as int == m[i] as int
    {
      CharacterToServer(m[i], p, q, n, e, d);
    }
    KotlinListRoundTrip(xs);
    if m != [] && Ascii(m) {
      assert ServerDecrypt(PrintList(xs), d, n as uint64).value == Units(m);
    }
  }

  // -------------------------------------------------- the mapping server answers

  function ServerEncrypt(m: seq<Kotlin.CodeUnit>, e: uint64, n: uint64): (c: seq<int>)
    requires n != 0
    ensures |c| == |m|
  {
    seq(|m|, i requires 0 <= i < |m| => Wrap64(Kotlin.WrappedPow(1, m[i] as uint64, e, n) as int) as int)
  }

  function NodeByte(x: int, d: int64, n: int64): Byte
    requires n != 0
  {
    LowByte(Cpp.WrappedPow(1, Wrap64(x), d, n) as int)
  }

  /** RSAHandler.cpp `decrypt(string)`. */
  function NodeDecrypt(s: Bytes, d: int64, n: int64): Option<Bytes>
    requires n != 0
  {
    var xs := ParseList(s);
    if xs.None? then None
    else Some(seq(|xs.value|, i requires 0 <= i < |xs.value| => NodeByte(xs.value[i], d, n)))
  }

  lemma KeyRange(p: nat, q: nat, n: nat, e: nat, d: nat)
    requires KeyPair(p, q, n, e, d) && n <= Cpp.SAFE_MODULUS
    ensures 0 < n < 0x1_0000_0000 && 1 <= d < n && 2 <= e <= 29
  {
    PhiTwoPrimes(p, q);
    assert n > 0 by { MulMonotone(2, p, q); }
    PhiBelow(p, q);
    SmallExponent(e, Phi(n));
    var k := InverseWitness(d, e, Phi(n));
  }

  lemma PhiBelow(p: nat, q: nat)
    requires Prime(p) && Prime(q)
    ensures p * q > 0 && Phi(p * q) < p * q
  {
    PhiTwoPrimes(p, q);
    MulMonotone(2, p, q);
    assert p * (q - 1) < p * q;
    MulMonotone(p - 1, p, q - 1);
  }

  /** What both exponents in turn make of a number. */
  ghost function Restored(u: nat, p: nat, q: nat, n: nat): (r: nat)
    requires n > 0
    ensures r <= u
  {
    DivideDown(u, n);
    if p > 0 && p == q && Divides(p, u) then 0 else u % n
  }

  lemma UnitToNode(u: Kotlin.CodeUnit, p: nat, q: nat, n: nat, e: nat, d: nat)
    requires KeyPair(p, q, n, e, d) && n <= Cpp.SAFE_MODULUS
    ensures 0 < n < 0x1_0000_0000 && d < n && e <= 29
    ensures var x := Wrap64(Kotlin.WrappedPow(1, u as uint64, e as uint64, n as uint64) as int) as int;
      0 <= x < n && NodeByte(x, d as int64, n as int64) == LowByte(Restored(u as nat, p, q, n))
  {
    KeyRange(p, q, n, e, d);
    Kotlin.ModPowCorrect(u as uint64, e as uint64, n as uint64);
    PowNonNegative(u as nat, e);
    var x := Primitive(u as nat, e, n);
    Cpp.ModPowCorrect(x as int64, d as int64, n as int64);
    PrimitiveRoundTrip(u as int, p, q, n, e, d);
  }

  ghost function LowBytes(m: seq<Kotlin.CodeUnit>, p: nat, q: nat, n: nat): (r: Bytes)
    requires n > 0
    ensures |r| == |m| && forall i :: 0 <= i < |m| ==> r[i] as int == Restored(m[i] as nat, p, q, n) % 256
  {
    seq(|m|, i requires 0 <= i < |m| => (Restored(m[i] as nat, p, q, n) % 256) as Byte)
  }

  /** What a node reads of any answer: the low byte of every character that its key can carry, of
      the remainder of a character beyond the modulus, and 0 for a multiple of a repeated prime. */
  lemma ServerToNode(m: seq<Kotlin.CodeUnit>, p: nat, q: nat, n: nat, e: nat, d: nat)
    requires KeyPair(p, q, n, e, d) && n <= Cpp.SAFE_MODULUS
    ensures 0 < n < 0x1_0000_0000 && d < n && e <= 29
    ensures NodeDecrypt(PrintList(ServerEncrypt(m, e as uint64, n as uint64)), d as int64, n as int64)
         == if m == [] then None else Some(LowBytes(m, p, q, n))
  {
    KeyRange(p, q, n, e, d);
    var xs := ServerEncrypt(m, e as uint64, n as uint64);
    forall i | 0 <= i < |m|
      ensures 0 <= xs[i] < n && NodeByte(xs[i], d as int64, n as int64) == LowByte(Restored(m[i] as nat, p, q, n))
    {
      UnitToNode(m[i], p, q, n, e, d);
    }
    ListRoundTrip(xs);
    if m != [] {
      SameBytes(LowBytes(m, p, q, n), xs, d as int64, n as int64);
    }
  }

  lemma AsciiRestored(b: Byte, p: nat, q: nat, n: nat)
    requires n == p * q && n > 0 && b < 128
    ensures LowByte(Restored(b as nat, p, q, n)) == b <==> Recoverable(SignedChar(b), p, q)
  {
    var u, r := b as nat, Restored(b as nat, p, q, n);
    assert LowByte(r) == b <==> r == u;
    TRemFixed(u, n);
    assert p > 0;
  }

  /** An ASCII answer is read back exactly when it is nonempty and the node's key can carry all
      its characters. */
  lemma AsciiToNode(m: Bytes, p: nat, q: nat, n: nat, e: nat, d: nat)
    requires KeyPair(p, q, n, e, d) && n <= Cpp.SAFE_MODULUS && Ascii(m)
    ensures 0 < n < 0x1_0000_0000 && d < n && e <= 29
    ensures NodeDecrypt(PrintList(ServerEncrypt(Units(m), e as uint64, n as uint64)), d as int64, n as int64) == Some(m)
       <==> m != [] && forall i :: 0 <= i < |m| ==> Recoverable(SignedChar(m[i]), p, q)
  {
    ServerToNode(Units(m), p, q, n, e, d);
    var r := LowBytes(Units(m), p, q, n);
    forall i | 0 <= i < |m|
      ensures r[i] == m[i] <==> Recoverable(SignedChar(m[i]), p, q)
    {
      AsciiRestored(m[i], p, q, n);
    }
    if forall i :: 0 <= i < |m| ==> Recoverable(SignedChar(m[i]), p, q) {
      assert r == m;
    }
    if r == m {
      forall i | 0 <= i < |m| ensures Recoverable(SignedChar(m[i]), p, q) {
        assert r[i] == m[i];
      }
    }
  }

  // ------------------------------------------------------- two C++ programs

  lemma CharacterBetweenNodes(b: Byte, p: nat, q: nat, n: nat, e: nat, d: nat)
    requires KeyPair(p, q, n, e, d) && n <= Cpp.SAFE_MODULUS
    ensures 0 < n < 0x1_0000_0000 && d < n && e <= 29
    ensures var x := Cpp.WrappedPow(1, SignedChar(b) as int64, e as int64, n as int64) as int;
      Abs(x) < n && (NodeByte(x, d as int64, n as int64) == b <==> Recoverable(SignedChar(b), p, q))
  {
    KeyRange(p, q, n, e, d);
    Cpp.ModPowCorrect(SignedChar(b) as int64, e as int64, n as int64);
    var x := Primitive(SignedChar(b), e, n);
    Cpp.ModPowCorrect(x as int64, d as int64, n as int64);
    Cpp.CharRoundTrip(b, p, q, n, e, d);
  }

  /** The whole exchange within C++, fixed widths and text included: a message is recovered exactly
      when it is nonempty and the key can carry all its characters. */
  lemma NodeToNode(m: Bytes, p: nat, q: nat, n: nat, e: nat, d: nat)
    requires KeyPair(p, q, n, e, d) && n <= Cpp.SAFE_MODULUS
    ensures 0 < n < 0x1_0000_0000 && d < n && e <= 29
    ensures NodeDecrypt(PrintList(NodeEncrypt(m, e as int64, n as int64)), d as int64, n as int64) == Some(m)
       <==> m != [] && forall i :: 0 <= i < |m| ==> Recoverable(SignedChar(m[i]), p, q)
  {
    KeyRange(p, q, n, e, d);
    var xs := NodeEncrypt(m, e as int64, n as int64);
    forall i | 0 <= i < |m|
      ensures Abs(xs[i]) < n
      ensures NodeByte(xs[i], d as int64, n as int64) == m[i] <==> Recoverable(SignedChar(m[i]), p, q)
    {
      CharacterBetweenNodes(m[i], p, q, n, e, d);
    }
    ListRoundTrip(xs);
    if m != [] {
      SameBytes(m, xs, d as int64, n as int64);
    }
  }

  lemma SameBytes(m: Bytes, xs: seq<int>, d: int64, n: int64)
    requires n != 0 && |xs| == |m| && ParseList(PrintList(xs)) == Some(xs)
    ensures NodeDecrypt(PrintList(xs), d, n) == Some(m)
       <==> forall i :: 0 <= i < |m| ==> NodeByte(xs[i], d, n) == m[i]
  {
    var r := NodeDecrypt(PrintList(xs), d, n).value;
    if forall i :: 0 <= i < |m| ==> NodeByte(xs[i], d, n) == m[i] {
      assert r == m;
    }
    if r == m {
      forall i | 0 <= i < |m| ensures NodeByte(xs[i], d, n) == m[i] {
        assert r[i] == m[i];
      }
    }
  }

  /** Both searches for the private exponent end with the same number. */
  lemma PrivateKeysAgree(e: nat, t: nat, k: nat, x: int)
    requires e >= 2 && t > 1 && Coprime(e, t)
    requires 1 <= k <= e - 1 && k * t + 1 >= 0 && (k * t + 1) % e == 0
    requires IsInverse(x, e, t)
    ensures (k * t + 1) / e == x
  {
    SearchFindsInverse(e, t, k);
    InverseUnique((k * t + 1) / e, x, e, t);
  }
}
