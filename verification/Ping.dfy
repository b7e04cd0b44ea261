/** The self-describing alive message: how a node builds it (NodeProject/Node.cpp) and how
    the server checks it (ServerProject/Server.cpp), with the number search both rely on. */
module Ping {
  import opened Basics
  import opened Arithmetic
  import opened Text

  const MIN_NON_PRIME: int := 2000000
  const MAX_NON_PRIME: int := 10000000
  const MAX_PING_ALIVE_MS: int := 2000
  const NODE_SPLIT_SIZE: int := 9

  // ------------------------------------------------------- the number search

  /** Utility.cpp `isPrime`. */
  method IsPrime(n: nat) returns (r: bool)
    ensures r <==> Prime(n)
  {
    if n < 2 {
      return false;
    }
    var i := 2;
    while i * i <= n
      invariant 2 <= i <= n && NoDivisorBelow(n, i)
      decreases n - i
    {
      MulMonotone(2, i, i);
      if n % i == 0 {
        assert Divides(i, n);
        return false;
      }
      i := i + 1;
    }
    NoSmallFactor(n, i);
    return true;
  }

  /** What the search for a condition number may return; 0 means that it failed. */
  ghost predicate IsModuloBase(r: nat, nonPrime: nat, port: nat) {
    if r == 0 then NoUnitResidue(nonPrime, nonPrime / 2 - port)
    else port < r < nonPrime / 2 && nonPrime % (r - port) == 1 && NoUnitResidue(nonPrime, r - port)
  }

  ghost predicate NoUnitResidue(n: nat, limit: int) {
    forall j :: 1 <= j < limit ==> !UnitResidue(n, j)
  }

  predicate UnitResidue(n: nat, j: int) {
    j >= 1 && n % j == 1
  }

  /** Utility.cpp `findModuloBase`. */
  method FindModuloBase(nonPrime: nat, port: nat) returns (r: nat)
    ensures IsModuloBase(r, nonPrime, port)
  {
    var condition := port + 1;
    while condition < nonPrime / 2
      invariant port + 1 <= condition && NoUnitResidue(nonPrime, condition - port)
    {
      if nonPrime % (condition - port) == 1 {
        return condition;
      }
      assert !UnitResidue(nonPrime, condition - port);
      condition := condition + 1;
    }
    return 0;
  }

  /** A number leaves remainder 1 exactly at the divisors of its predecessor. */
  lemma UnitResidueIff(n: nat, j: int)
    requires n >= 1 && j >= 1
    ensures UnitResidue(n, j) <==> j >= 2 && Divides(j, n - 1)
  {
    if j >= 2 {
      DivModUnique(1, 0, 1, j);
      if n % j == 1 {
        var k := CongElim(n, 1, j);
        ModMultiple(k, j);
      }
      if Divides(j, n - 1) {
        assert n - 1 == j * ((n - 1) / j);
        CongIntro(n, 1, (n - 1) / j, j);
      }
    }
  }

  predicate Candidate(j: int, nonPrime: nat, port: nat) {
    2 <= j < nonPrime / 2 - port && Divides(j, nonPrime - 1)
  }

  /** For every number and port: the search fails exactly when the predecessor has no divisor from 2 to below
      half the number less the port, and otherwise finds the port plus the least such divisor. */
  lemma SearchOutcome(r: nat, nonPrime: nat, port: nat)
    requires nonPrime >= 1 && IsModuloBase(r, nonPrime, port)
    ensures if r == 0 then forall j :: !Candidate(j, nonPrime, port)
            else Candidate(r - port, nonPrime, port) && forall j :: j < r - port ==> !Candidate(j, nonPrime, port)
  {
    forall j | r == 0 || j < r - port
      ensures !Candidate(j, nonPrime, port)
    {
      if 2 <= j < nonPrime / 2 - port {
        UnitResidueIff(nonPrime, j);
        assert !UnitResidue(nonPrime, j);
      }
    }
    if r != 0 {
      UnitResidueIff(nonPrime, r - port);
      assert UnitResidue(nonPrime, r - port);
    }
  }

  /** For the numbers a node draws, the search succeeds exactly when the predecessor is
      composite, and then finds the port plus the least prime factor of the predecessor. */
  lemma ModuloBaseValue(r: nat, nonPrime: nat, port: nat)
    requires MIN_NON_PRIME <= nonPrime <= MAX_NON_PRIME && 1 <= port <= 65535
    requires IsModuloBase(r, nonPrime, port)
    ensures r != 0 <==> Composite(nonPrime - 1)
    ensures r != 0 ==> LeastFactor(r - port, nonPrime - 1) && Prime(r - port)
  {
    var m := nonPrime - 1;
    if r != 0 {
      var f := r - port;
      UnitResidueIff(nonPrime, f);
      assert UnitResidue(nonPrime, f);
      forall d | 2 <= d < f
        ensures !Divides(d, m)
      {
        UnitResidueIff(nonPrime, d);
        assert !UnitResidue(nonPrime, d);
      }
      DividesBound(f, m);
      LeastFactorPrime(f, m);
      assert f < m && Divides(f, m);
    } else if Composite(m) {
      var f := FirstFactor(m, 2);
      LeastFactorSquare(f, m);
      if f >= 3163 {
        MulMonotone(3163, f, 3163);
        MulMonotone(3163, f, f);
      }
      UnitResidueIff(nonPrime, f);
    }
  }

  lemma {:induction false} FirstFactor(m: int, i: int) returns (f: int)
    requires Composite(m) && 2 <= i <= m && NoDivisorBelow(m, i)
    ensures LeastFactor(f, m)
    decreases m - i
  {
    if Divides(i, m) {
      f := i;
    } else {
      assert i < m by {
        if i == m { ModMultiple(1, m); }
      }
      f := FirstFactor(m, i + 1);
    }
  }

  // -------------------------------------------------------------- the message

  const PEPPER: Bytes := Ascii("myCoolPepper")
  const PEPPER2: Bytes := Ascii("anotherPepper:)")
  const PUBLIC_KEY_TEXT: Bytes := Ascii("Public Key!")

  /** The two hashes appended to the described fields; `hash` prints a digest in hexadecimal. */
  function Sealed(text: Bytes, hash: Bytes -> Bytes): Bytes {
    var once := text + SPLITER + hash(text + PEPPER);
    once + SPLITER + hash(once + PEPPER2)
  }

  function Fields(ip: Bytes, port: nat, time: nat, nonPrime: nat, random: nat, base: nat): (r: seq<Bytes>)
    ensures |r| == 7
  {
    [ip, ToText(port), PUBLIC_KEY_TEXT, ToText(time), ToText(nonPrime), ToText(random), ToText(base)]
  }

  /** Node.cpp `buildAliveFormat`; clock and random numbers are arguments. */
  method BuildAliveFormat(ip: Bytes, port: nat, time: nat, nonPrime: nat, random: nat, hash: Bytes -> Bytes)
    returns (formattedData: Bytes)
    ensures exists base: nat ::
              IsModuloBase(base, nonPrime, port)
              && formattedData == Sealed(Join(Fields(ip, port, time, nonPrime, random, base), SPLITER), hash)
  {
    var base := FindModuloBase(nonPrime, port);
    formattedData := ip + SPLITER + ToText(port) + SPLITER + PUBLIC_KEY_TEXT + SPLITER + ToText(time)
      + SPLITER + ToText(nonPrime) + SPLITER + ToText(random) + SPLITER + ToText(base);
    JoinSeven(ip, ToText(port), PUBLIC_KEY_TEXT, ToText(time), ToText(nonPrime), ToText(random), ToText(base));
    formattedData := formattedData + SPLITER + hash(formattedData + PEPPER);
    formattedData := formattedData + SPLITER + hash(formattedData + PEPPER2);
  }

  lemma JoinSeven(a: Bytes, b: Bytes, c: Bytes, d: Bytes, e: Bytes, f: Bytes, g: Bytes)
    ensures Join([a, b, c, d, e, f, g], SPLITER)
         == a + SPLITER + b + SPLITER + c + SPLITER + d + SPLITER + e + SPLITER + f + SPLITER + g
  {
    JoinSnoc([a], b, SPLITER);
    assert [a] + [b] == [a, b];
    JoinSnoc([a, b], c, SPLITER);
    assert [a, b] + [c] == [a, b, c];
    JoinSnoc([a, b, c], d, SPLITER);
    assert [a, b, c] + [d] == [a, b, c, d];
    JoinSnoc([a, b, c, d], e, SPLITER);
    assert [a, b, c, d] + [e] == [a, b, c, d, e];
    JoinSnoc([a, b, c, d, e], f, SPLITER);
    assert [a, b, c, d, e] + [f] == [a, b, c, d, e, f];
    JoinSnoc([a, b, c, d, e, f], g, SPLITER);
    assert [a, b, c, d, e, f] + [g] == [a, b, c, d, e, f, g];
  }

  // ---------------------------------------------------------------- the check

  /** `Throw` stands for an exception of `stoi` and its relatives, which closes the connection. */
  datatype Verdict = Accept | Refuse | Throw | DivideByZero

  predicate IsNode(data: Bytes) {
    |Split(data, SPLITER)| == NODE_SPLIT_SIZE
  }

  /** The clock difference is unsigned, so a time stamp from the future is refused. */
  function CheckTime(text: Bytes, now: nat): Verdict {
    if !AllDigits(text) then Refuse
    else
      match Stoll(text)
      case Number(t) => if (now - t) % TWO_64 < MAX_PING_ALIVE_MS then Accept else Refuse
      case _ => Throw
  }

  function CheckNonPrime(text: Bytes): Verdict {
    if !AllDigits(text) then Refuse
    else
      match Stoi(text)
      case Number(n) => if Prime(n) then Refuse else Accept
      case _ => Throw
  }

  function CheckModulus(nonPrime: int, text: Bytes, port: nat): Verdict {
    if !AllDigits(text) then Refuse
    else
      match Stoi(text)
      case Number(condition) =>
        if condition == port then DivideByZero
        else if TRem(nonPrime, condition - port) == 1 then Accept else Refuse
      case _ => Throw
  }

  function CheckHashes(parts: seq<Bytes>, hash: Bytes -> Bytes): Verdict
    requires |parts| == NODE_SPLIT_SIZE
  {
    var text := Join(parts[..7], SPLITER);
    if hash(text + PEPPER) != parts[7] then Refuse
    else if hash(text + SPLITER + parts[7] + PEPPER2) != parts[8] then Refuse
    else Accept
  }

  /** The checks of Server.cpp `isValidFormat`, in their order. */
  function CheckParts(parts: seq<Bytes>, now: nat, hash: Bytes -> Bytes): Verdict
    requires |parts| == NODE_SPLIT_SIZE
  {
    if !AllDigits(parts[1]) then Refuse
    else if !Stoi(parts[1]).Number? then Throw
    else if CheckTime(parts[3], now) != Accept then CheckTime(parts[3], now)
    else if CheckNonPrime(parts[4]) != Accept then CheckNonPrime(parts[4])
    else if !AllDigits(parts[5]) then Refuse
    else
      var modulus := CheckModulus(Stoi(parts[4]).value, parts[6], Port16(Stoi(parts[1]).value));
      if modulus != Accept then modulus else CheckHashes(parts, hash)
  }

  function IsValidFormat(data: Bytes, now: nat, hash: Bytes -> Bytes): Verdict
    requires IsNode(data)
  {
    CheckParts(Split(data, SPLITER), now, hash)
  }

  /** A digest in hexadecimal. */
  predicate IsHex(s: Bytes) {
    forall b :: b in s ==> IsDigit(b) || 65 <= b <= 70
  }

  ghost predicate PrintsHex(hash: Bytes -> Bytes) {
    forall s :: IsHex(hash(s))
  }

  lemma PlainField(part: Bytes)
    requires COLON !in part
    ensures Clean(part, SPLITER) && !Contains(part, SPLITER)
  {
    WithoutDelimiterByte(part, SPLITER);
  }

  lemma PublicKeyPlain()
    ensures COLON !in PUBLIC_KEY_TEXT
  {
  }

  /** The nine fields of a message come back as they were written. */
  lemma AliveFields(ip: Bytes, port: nat, time: nat, nonPrime: nat, random: nat, base: nat, hash: Bytes -> Bytes)
    requires Clean(ip, SPLITER) && PrintsHex(hash)
    ensures var fields := Fields(ip, port, time, nonPrime, random, base);
      var text := Join(fields, SPLITER);
      var h := hash(text + PEPPER);
      Split(Sealed(text, hash), SPLITER) == fields + [h] + [hash(text + SPLITER + h + PEPPER2)]
  {
    var fields := Fields(ip, port, time, nonPrime, random, base);
    var text := Join(fields, SPLITER);
    var h := hash(text + PEPPER);
    var h2 := hash(text + SPLITER + h + PEPPER2);
    JoinSnoc(fields, h, SPLITER);
    JoinSnoc(fields + [h], h2, SPLITER);
    var parts := fields + [h] + [h2];
    NumberTextPlain(port);
    NumberTextPlain(time);
    NumberTextPlain(nonPrime);
    NumberTextPlain(random);
    NumberTextPlain(base);
    PublicKeyPlain();
    assert IsHex(h) && IsHex(h2);
    forall i | 1 <= i < 9
      ensures COLON !in parts[i]
    {
    }
    forall i | 0 <= i < 9
      ensures Clean(parts[i], SPLITER) && (i > 0 ==> !Contains(parts[i], SPLITER))
    {
      if i > 0 { PlainField(parts[i]); }
    }
    SplitJoin(parts, SPLITER);
  }

  lemma NumberField(n: nat, high: int)
    requires n <= high
    ensures AllDigits(ToText(n)) && ParseInteger(ToText(n), -high - 1, high) == Number(n)
  {
    DigitsRoundTrip(n);
    ParseToText(n, [], -high - 1, high);
  }

  /** With a failed search the condition number is 0, and the check can only hold by accident; it never does. */
  lemma FailedSearchRefused(nonPrime: nat, port: nat)
    requires Prime(nonPrime - 1) && nonPrime - 1 > 65535 && 1 <= port <= 65535
    ensures TRem(nonPrime, 0 - port) != 1
  {
    NegativeModulus(nonPrime, port);
    if nonPrime % port == 1 {
      UnitResidueIff(nonPrime, port);
    }
  }

  lemma NegativeModulus(a: nat, m: nat)
    requires m > 0
    ensures a % (0 - m) == a % m
  {
  }

  /** The number-theoretic check on a node's own message. */
  lemma OwnModulus(nonPrime: nat, base: nat, port: nat)
    requires 1 <= port <= 65535 && MIN_NON_PRIME <= nonPrime <= MAX_NON_PRIME
    requires IsModuloBase(base, nonPrime, port)
    ensures CheckModulus(nonPrime, ToText(base), port) == if Composite(nonPrime - 1) then Accept else Refuse
  {
    ModuloBaseValue(base, nonPrime, port);
    NumberField(base, INT32_MAX);
    if base == 0 {
      FailedSearchRefused(nonPrime, port);
    }
  }

  lemma OwnPort(port: nat)
    requires port <= 65535
    ensures AllDigits(ToText(port)) && Stoi(ToText(port)) == Number(port) && Port16(port) == port
  {
    NumberField(port, INT32_MAX);
  }

  lemma OwnNonPrime(nonPrime: nat)
    requires nonPrime <= MAX_NON_PRIME && !Prime(nonPrime)
    ensures CheckNonPrime(ToText(nonPrime)) == Accept && Stoi(ToText(nonPrime)) == Number(nonPrime)
  {
    NumberField(nonPrime, INT32_MAX);
  }

  lemma OwnTime(time: nat, now: nat)
    requires time < TWO_63 && now < TWO_63
    ensures CheckTime(ToText(time), now) == if 0 <= now - time < MAX_PING_ALIVE_MS then Accept else Refuse
  {
    NumberField(time, TWO_63 - 1);
    UnsignedDifference(now, time);
  }

  lemma UnsignedDifference(now: nat, time: nat)
    requires time < TWO_63 && now < TWO_63
    ensures (now - time) % TWO_64 < MAX_PING_ALIVE_MS <==> 0 <= now - time < MAX_PING_ALIVE_MS
  {
  }

  lemma OwnParts(parts: seq<Bytes>, port: nat, time: nat, nonPrime: nat, random: nat, base: nat,
                 now: nat, hash: Bytes -> Bytes)
    requires 1 <= port <= 65535 && time < TWO_63 && now < TWO_63
    requires MIN_NON_PRIME <= nonPrime <= MAX_NON_PRIME && !Prime(nonPrime)
    requires IsModuloBase(base, nonPrime, port) && |parts| == NODE_SPLIT_SIZE
    requires parts[1] == ToText(port) && parts[3] == ToText(time) && parts[4] == ToText(nonPrime)
    requires parts[5] == ToText(random) && parts[6] == ToText(base)
    requires CheckHashes(parts, hash) == Accept
    ensures CheckParts(parts, now, hash) == Accept
       <==> Composite(nonPrime - 1) && 0 <= now - time < 2000
  {
    OwnPort(port);
    OwnNonPrime(nonPrime);
    DigitsRoundTrip(random);
    OwnTime(time, now);
    OwnModulus(nonPrime, base, port);
  }

  /** The whole exchange: a message from `buildAliveFormat` is accepted exactly when the
      predecessor of its drawn number is composite and it arrives within the time limit. */
  lemma AcceptedIff(ip: Bytes, port: nat, time: nat, nonPrime: nat, random: nat, base: nat,
                    now: nat, hash: Bytes -> Bytes)
    requires Clean(ip, SPLITER) && PrintsHex(hash)
    requires 1 <= port <= 65535 && time < TWO_63 && now < TWO_63
    requires MIN_NON_PRIME <= nonPrime <= MAX_NON_PRIME && !Prime(nonPrime)
    requires IsModuloBase(base, nonPrime, port)
    ensures var data := Sealed(Join(Fields(ip, port, time, nonPrime, random, base), SPLITER), hash);
      IsNode(data)
      && (IsValidFormat(data, now, hash) == Accept
          <==> Composite(nonPrime - 1) && 0 <= now - time < 2000)
  {
    var fields := Fields(ip, port, time, nonPrime, random, base);
    AliveFields(ip, port, time, nonPrime, random, base, hash);
    var parts := Split(Sealed(Join(fields, SPLITER), hash), SPLITER);
    assert parts[..7] == fields;
    assert parts[1] == fields[1] && parts[3] == fields[3] && parts[4] == fields[4];
    assert parts[5] == fields[5] && parts[6] == fields[6];
    OwnParts(parts, port, time, nonPrime, random, base, now, hash);
  }

  // --------------------------------------------------- what is accepted, from anyone

  /** Both hashes are those of the fields before them, if and only if the message is its fields sealed. */
  lemma SealedIff(data: Bytes, hash: Bytes -> Bytes)
    requires IsNode(data) && PrintsHex(hash)
    ensures var parts := Split(data, SPLITER);
      CheckHashes(parts, hash) == Accept <==> data == Sealed(Join(parts[..7], SPLITER), hash)
  {
    var parts := Split(data, SPLITER);
    var fields, text := parts[..7], Join(parts[..7], SPLITER);
    var h := hash(text + PEPPER);
    var h2 := hash(text + SPLITER + h + PEPPER2);
    var sealedParts := fields + [h] + [h2];
    SplitIsSplittable(data, SPLITER);
    JoinSnoc(fields, h, SPLITER);
    JoinSnoc(fields + [h], h2, SPLITER);
    assert Sealed(text, hash) == Join(sealedParts, SPLITER);
    assert IsHex(h) && IsHex(h2);
    PlainField(h);
    PlainField(h2);
    SplitJoin(sealedParts, SPLITER);
    if CheckHashes(parts, hash) == Accept {
      assert parts == sealedParts;
    }
    if data == Sealed(text, hash) {
      assert parts == sealedParts && parts[7] == h && parts[8] == h2;
    }
  }

  /** A decimal number up to a limit. */
  predicate NumberUpTo(s: Bytes, high: int) {
    s != [] && AllDigits(s) && DigitsValue(s) <= high
  }

  /** The fields of a message the server accepts: numbers within their types, a time stamp less than
      2 seconds old, a number that is not prime, and a condition number that leaves 1. */
  predicate GoodFields(parts: seq<Bytes>, now: nat)
    requires |parts| >= 7
  {
    NumberUpTo(parts[1], INT32_MAX) && NumberUpTo(parts[3], TWO_63 - 1) && NumberUpTo(parts[4], INT32_MAX)
    && AllDigits(parts[5]) && NumberUpTo(parts[6], INT32_MAX)
    && (now - DigitsValue(parts[3])) % TWO_64 < 2000
    && !Prime(DigitsValue(parts[4]))
    && var base := DigitsValue(parts[6]) - Port16(DigitsValue(parts[1]));
       base != 0 && TRem(DigitsValue(parts[4]), base) == 1
  }

  lemma IntField(s: Bytes)
    ensures AllDigits(s) && Stoi(s).Number? <==> NumberUpTo(s, INT32_MAX)
    ensures NumberUpTo(s, INT32_MAX) ==> Stoi(s) == Number(DigitsValue(s))
  {
    if AllDigits(s) {
      ParseAllDigits(s, -INT32_MAX - 1, INT32_MAX);
    }
  }

  lemma TimeIff(s: Bytes, now: nat)
    ensures CheckTime(s, now) == Accept
       <==> NumberUpTo(s, TWO_63 - 1) && (now - DigitsValue(s)) % TWO_64 < MAX_PING_ALIVE_MS
  {
    if AllDigits(s) {
      ParseAllDigits(s, -TWO_63, TWO_63 - 1);
    }
  }

  lemma NonPrimeIff(s: Bytes)
    ensures CheckNonPrime(s) == Accept <==> NumberUpTo(s, INT32_MAX) && !Prime(DigitsValue(s))
  {
    IntField(s);
  }

  lemma ModulusIff(n: int, s: Bytes, port: nat)
    ensures CheckModulus(n, s, port) == Accept
       <==> NumberUpTo(s, INT32_MAX) && DigitsValue(s) != port && TRem(n, DigitsValue(s) - port) == 1
  {
    IntField(s);
  }

  predicate AllAccept(parts: seq<Bytes>, now: nat)
    requires |parts| >= 7
  {
    AllDigits(parts[1]) && Stoi(parts[1]).Number? && CheckTime(parts[3], now) == Accept
    && CheckNonPrime(parts[4]) == Accept && AllDigits(parts[5])
    && Stoi(parts[4]).Number?
    && CheckModulus(Stoi(parts[4]).value, parts[6], Port16(Stoi(parts[1]).value)) == Accept
  }

  lemma EveryCheck(parts: seq<Bytes>, now: nat, hash: Bytes -> Bytes)
    requires |parts| == NODE_SPLIT_SIZE
    ensures CheckParts(parts, now, hash) == Accept <==> AllAccept(parts, now) && CheckHashes(parts, hash) == Accept
  {
  }

  lemma FieldsIff(parts: seq<Bytes>, now: nat)
    requires |parts| == NODE_SPLIT_SIZE
    ensures AllAccept(parts, now) <==> GoodFields(parts, now)
  {
    IntField(parts[1]);
    if !NumberUpTo(parts[1], INT32_MAX) { return; }
    TimeIff(parts[3], now);
    if CheckTime(parts[3], now) != Accept { return; }
    IntField(parts[4]);
    NonPrimeIff(parts[4]);
    if CheckNonPrime(parts[4]) != Accept { return; }
    ModulusFieldIff(parts[1], parts[4], parts[6]);
  }

  lemma ModulusFieldIff(port: Bytes, nonPrime: Bytes, condition: Bytes)
    requires NumberUpTo(port, INT32_MAX) && NumberUpTo(nonPrime, INT32_MAX)
    ensures Stoi(port).Number? && Stoi(nonPrime).Number?
    ensures CheckModulus(Stoi(nonPrime).value, condition, Port16(Stoi(port).value)) == Accept
       <==> NumberUpTo(condition, INT32_MAX)
            && var base := DigitsValue(condition) - Port16(DigitsValue(port));
               base != 0 && TRem(DigitsValue(nonPrime), base) == 1
  {
    IntField(port);
    IntField(nonPrime);
    ModulusIff(DigitsValue(nonPrime), condition, Port16(DigitsValue(port)));
  }

  /** Exactly which messages the server accepts, whoever sent them. */
  lemma AcceptedExactly(data: Bytes, now: nat, hash: Bytes -> Bytes)
    requires IsNode(data) && PrintsHex(hash)
    ensures var parts := Split(data, SPLITER);
      IsValidFormat(data, now, hash) == Accept
      <==> GoodFields(parts, now) && data == Sealed(Join(parts[..7], SPLITER), hash)
  {
    EveryCheck(Split(data, SPLITER), now, hash);
    FieldsIff(Split(data, SPLITER), now);
    SealedIff(data, hash);
  }

  /** Digits that are no number of the type: none at all, or too many. */
  predicate NoNumber(s: Bytes, high: int) {
    AllDigits(s) && !NumberUpTo(s, high)
  }

  /** Which messages are not refused but throw: the first field that is not in order consists of digits
      and is empty or too large, or the condition number is the port, and the check divides by zero. */
  lemma ThrownExactly(data: Bytes, now: nat, hash: Bytes -> Bytes)
    requires IsNode(data)
    ensures var parts := Split(data, SPLITER);
      var portGood := NumberUpTo(parts[1], INT32_MAX);
      var timeGood := portGood && CheckTime(parts[3], now) == Accept;
      var numberGood := timeGood && NumberUpTo(parts[4], INT32_MAX) && !Prime(DigitsValue(parts[4]));
      (IsValidFormat(data, now, hash) == Throw
       <==> NoNumber(parts[1], INT32_MAX)
            || (portGood && NoNumber(parts[3], TWO_63 - 1))
            || (timeGood && NoNumber(parts[4], INT32_MAX))
            || (numberGood && AllDigits(parts[5]) && NoNumber(parts[6], INT32_MAX)))
      && (IsValidFormat(data, now, hash) == DivideByZero
          <==> numberGood && AllDigits(parts[5]) && NumberUpTo(parts[6], INT32_MAX)
               && DigitsValue(parts[6]) == Port16(DigitsValue(parts[1])))
  {
    var parts := Split(data, SPLITER);
    IntField(parts[1]);
    IntField(parts[4]);
    IntField(parts[6]);
    NonPrimeIff(parts[4]);
    if AllDigits(parts[3]) {
      ParseAllDigits(parts[3], -TWO_63, TWO_63 - 1);
    }
  }

  // ------------------------------------------------------ a number that is drawn in vain

  /** Trial division by the sixteen numbers from `i` on that leave 5 or 1 when divided by 6. */
  predicate Pairs(n: nat, i: nat)
    requires i >= 5
  {
    n % i != 0 && n % (i + 2) != 0 && n % (i + 6) != 0 && n % (i + 8) != 0
    && n % (i + 12) != 0 && n % (i + 14) != 0 && n % (i + 18) != 0 && n % (i + 20) != 0
    && n % (i + 24) != 0 && n % (i + 26) != 0 && n % (i + 30) != 0 && n % (i + 32) != 0
    && n % (i + 36) != 0 && n % (i + 38) != 0 && n % (i + 42) != 0 && n % (i + 44) != 0
  }

  predicate LowTrials(n: nat) {
    Pairs(n, 5) && Pairs(n, 53) && Pairs(n, 101) && Pairs(n, 149) && Pairs(n, 197)
    && Pairs(n, 245) && Pairs(n, 293) && Pairs(n, 341) && Pairs(n, 389) && Pairs(n, 437)
    && Pairs(n, 485) && Pairs(n, 533) && Pairs(n, 581) && Pairs(n, 629) && Pairs(n, 677)
  }

  predicate HighTrials(n: nat) {
    Pairs(n, 725) && Pairs(n, 773) && Pairs(n, 821) && Pairs(n, 869) && Pairs(n, 917)
    && Pairs(n, 965) && Pairs(n, 1013) && Pairs(n, 1061) && Pairs(n, 1109) && Pairs(n, 1157)
    && Pairs(n, 1205) && Pairs(n, 1253) && Pairs(n, 1301) && Pairs(n, 1349) && Pairs(n, 1397)
  }

  lemma Offset(k: nat)
    requires k < 48 && (k % 6 == 0 || k % 6 == 2)
    ensures k < 24 ==> k == 0 || k == 2 || k == 6 || k == 8 || k == 12 || k == 14 || k == 18 || k == 20
    ensures k >= 24 ==> k == 24 || k == 26 || k == 30 || k == 32 || k == 36 || k == 38 || k == 42 || k == 44
  {
  }

  lemma PairsDivide(n: nat, i: nat, k: nat)
    requires i >= 5 && Pairs(n, i) && k < 48 && (k % 6 == 0 || k % 6 == 2)
    ensures !Divides(i + k, n)
  {
    Offset(k);
  }

  lemma LowBlock(n: nat, b: nat)
    requires LowTrials(n) && b < 15
    ensures Pairs(n, 5 + 48 * b)
  {
    if b < 8 {
      assert b == 0 || b == 1 || b == 2 || b == 3 || b == 4 || b == 5 || b == 6 || b == 7;
    } else {
      assert b == 8 || b == 9 || b == 10 || b == 11 || b == 12 || b == 13 || b == 14;
    }
  }

  lemma HighBlock(n: nat, b: nat)
    requires HighTrials(n) && b < 15
    ensures Pairs(n, 725 + 48 * b)
  {
    if b < 8 {
      assert b == 0 || b == 1 || b == 2 || b == 3 || b == 4 || b == 5 || b == 6 || b == 7;
    } else {
      assert b == 8 || b == 9 || b == 10 || b == 11 || b == 12 || b == 13 || b == 14;
    }
  }

  /** A prime above 3 is in one of the blocks. */
  lemma BlockOf(f: nat) returns (b: nat, k: nat)
    requires Prime(f) && 3 < f < 1445
    ensures b < 30 && k < 48 && f == 5 + 48 * b + k && (k % 6 == 0 || k % 6 == 2)
  {
    assert !Divides(2, f) && !Divides(3, f);
    b, k := (f - 5) / 48, (f - 5) % 48;
    assert f % 2 == 1 && f % 3 != 0 && f >= 5;
    SixOf(f, b, k);
  }

  lemma SixOf(f: nat, b: nat, k: nat)
    requires f == 5 + 48 * b + k && f % 2 == 1 && f % 3 != 0
    ensures k % 6 == 0 || k % 6 == 2
  {
    var r := k % 6;
    var j := 8 * b + k / 6;
    assert f == 6 * j + 5 + r;
    assert r == 0 || r == 1 || r == 2 || r == 3 || r == 4 || r == 5;
    assert r == 1 || r == 3 || r == 5 ==> f % 2 == 0;
    assert r == 4 ==> f == 3 * (2 * j + 3);
  }

  lemma BlockTried(n: nat, b: nat)
    requires LowTrials(n) && HighTrials(n) && b < 30
    ensures Pairs(n, 5 + 48 * b)
  {
    if b < 15 {
      LowBlock(n, b);
    } else {
      HighBlock(n, b - 15);
      assert 725 + 48 * (b - 15) == 5 + 48 * b;
    }
  }

  ghost predicate Tried(n: nat) {
    n % 2 != 0 && n % 3 != 0 && forall b: nat :: b < 30 ==> Block(n, b)
  }

  predicate Block(n: nat, b: nat) {
    Pairs(n, 5 + 48 * b)
  }

  lemma NoFactorBelow1445(n: nat, f: nat)
    requires Tried(n) && Prime(f) && f < 1445
    ensures !Divides(f, n)
  {
    if f > 3 {
      var b, k := BlockOf(f);
      assert Block(n, b);
      PairsDivide(n, 5 + 48 * b, k);
    } else {
      assert f == 2 || f == 3;
    }
  }

  lemma LowTrials2000003()
    ensures LowTrials(2000003)
  {
  }

  lemma HighTrials2000003()
    ensures HighTrials(2000003)
  {
  }

  lemma Tried2000003(n: nat)
    requires n == 2000003
    ensures Tried(n)
  {
    LowTrials2000003();
    HighTrials2000003();
    forall b: nat | b < 30
      ensures Block(n, b)
    {
      BlockTried(n, b);
    }
  }

  lemma Prime2000003()
    ensures Prime(2000003)
  {
    var n := 2000003;
    Tried2000003(n);
    if !Prime(n) {
      var f := FirstFactor(n, 2);
      LeastFactorPrime(f, n);
      LeastFactorSquare(f, n);
      if f >= 1445 { MulMonotone(1445, f, f); MulMonotone(1445, f, 1445); }
      NoFactorBelow1445(n, f);
    }
  }

  /** 2000004 can be drawn; the search for a condition number then fails at every port, and the
      announcement is refused, however quickly it arrives. */
  lemma DrawnInVain(ip: Bytes, port: nat, time: nat, random: nat, base: nat, now: nat, hash: Bytes -> Bytes)
    requires Clean(ip, SPLITER) && PrintsHex(hash) && 1 <= port <= 65535 && time < TWO_63 && now < TWO_63
    requires IsModuloBase(base, 2000004, port)
    ensures MIN_NON_PRIME <= 2000004 <= MAX_NON_PRIME && !Prime(2000004) && base == 0
    ensures var data := Sealed(Join(Fields(ip, port, time, 2000004, random, base), SPLITER), hash);
      IsNode(data) && IsValidFormat(data, now, hash) != Accept
  {
    var n := 2000004;
    assert Divides(2, n);
    Prime2000003();
    ModuloBaseValue(base, n, port);
    AcceptedIff(ip, port, time, n, random, base, now, hash);
  }
}
