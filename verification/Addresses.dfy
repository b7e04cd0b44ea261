/** Address validation of ServerProject/Utility.cpp and the next-hop message of the handshake. */
module Addresses {
  import opened Basics
  import opened Text

  const DOT: Byte := 46
  const DOTS: Bytes := [DOT]

  // ---------------------------------------------------------- dotted quads

  /** Splitting with `getline` drops an empty last part. */
  function GetlineParts(s: Bytes): seq<Bytes> {
    var parts := Split(s, DOTS);
    if parts[|parts| - 1] == [] then parts[..|parts| - 1] else parts
  }

  datatype PartCheck = Good | Bad | Overflow

  /** `Overflow` stands for the exception of `stoi`. */
  function CheckPart(p: Bytes): PartCheck {
    if p == [] || !AllDigits(p) then Bad
    else if !Stoi(p).Number? then Overflow
    else if Stoi(p).value < 0 || Stoi(p).value > 255 then Bad
    else if |p| > 1 && p[0] == 48 then Bad
    else Good
  }

  function CheckParts(parts: seq<Bytes>): Option<bool> {
    if parts == [] then Some(true)
    else
      match CheckPart(parts[0])
      case Good => CheckParts(parts[1..])
      case Bad => Some(false)
      case Overflow => None
  }

  function CheckIpv4(ip: Bytes): Option<bool> {
    var parts := GetlineParts(ip);
    if |parts| != 4 then Some(false) else CheckParts(parts)
  }

  /** Utility.cpp `isValidIpv4`. */
  method IsValidIpv4(ip: Bytes) returns (r: Option<bool>)
    ensures r == CheckIpv4(ip)
  {
    var parts := GetlineParts(ip);
    if |parts| != 4 {
      return Some(false);
    }
    var i := 0;
    assert parts[0..] == parts;
    while i < |parts|
      invariant 0 <= i <= |parts| && CheckParts(parts) == CheckParts(parts[i..])
    {
      assert parts[i..][1..] == parts[i + 1..];
      var p := CheckPart(parts[i]);
      if p == Bad {
        return Some(false);
      }
      if p == Overflow {
        return None;
      }
      i := i + 1;
    }
    return Some(true);
  }

  lemma {:induction false} DigitsPositive(s: Bytes)
    requires AllDigits(s) && s != [] && s[0] != 48
    ensures DigitsValue(s) >= 1
    decreases |s|
  {
    if |s| == 1 {
      assert s[..0] == [];
    } else {
      DigitsPositive(s[..|s| - 1]);
    }
  }

  /** Digits without a superfluous leading zero are the text of their value. */
  lemma {:induction false} DigitsCanonical(s: Bytes)
    requires AllDigits(s) && s != [] && (|s| > 1 ==> s[0] != 48)
    ensures Digits(DigitsValue(s)) == s
    decreases |s|
  {
    var p := s[..|s| - 1];
    assert s == p + [s[|s| - 1]];
    if |s| == 1 {
      assert DigitsValue(p) == 0;
    } else {
      DigitsPositive(p);
      DigitsCanonical(p);
    }
  }

  lemma {:induction false} NoLeadingZero(n: nat)
    ensures n >= 1 ==> Digits(n)[0] != 48
    ensures n < 10 <==> |Digits(n)| == 1
  {
    if n >= 10 {
      NoLeadingZero(n / 10);
    }
  }

  lemma GoodDigits(n: nat)
    requires n < 256
    ensures CheckPart(Digits(n)) == Good
  {
    DigitsRoundTrip(n);
    ParseAllDigits(Digits(n), -INT32_MAX - 1, INT32_MAX);
    NoLeadingZero(n);
  }

  lemma GoodPart(p: Bytes) returns (n: nat)
    requires CheckPart(p) == Good
    ensures n < 256 && p == Digits(n)
  {
    ParseAllDigits(p, -INT32_MAX - 1, INT32_MAX);
    DigitsCanonical(p);
    n := DigitsValue(p);
  }

  datatype Quad = Quad(a: nat, b: nat, c: nat, d: nat)

  predicate InRange(q: Quad) {
    q.a < 256 && q.b < 256 && q.c < 256 && q.d < 256
  }

  function QuadDigits(q: Quad): (r: seq<Bytes>)
    ensures |r| == 4
  {
    [Digits(q.a), Digits(q.b), Digits(q.c), Digits(q.d)]
  }

  function QuadText(q: Quad): Bytes {
    Digits(q.a) + DOTS + Digits(q.b) + DOTS + Digits(q.c) + DOTS + Digits(q.d)
  }

  ghost predicate IsQuad(ip: Bytes) {
    exists q :: InRange(q) && ip == QuadText(q)
  }

  predicate EndsInDot(ip: Bytes) {
    ip != [] && ip[|ip| - 1] == DOT
  }

  lemma JoinFour(parts: seq<Bytes>)
    requires |parts| == 4
    ensures Join(parts, DOTS) == parts[0] + DOTS + parts[1] + DOTS + parts[2] + DOTS + parts[3]
  {
    JoinSnoc(parts[..1], parts[1], DOTS);
    assert parts[..1] + [parts[1]] == parts[..2];
    JoinSnoc(parts[..2], parts[2], DOTS);
    assert parts[..2] + [parts[2]] == parts[..3];
    JoinSnoc(parts[..3], parts[3], DOTS);
    assert parts[..3] + [parts[3]] == parts;
  }

  lemma {:induction false} CheckPartsIff(parts: seq<Bytes>)
    ensures CheckParts(parts) == Some(true) <==> forall i :: 0 <= i < |parts| ==> CheckPart(parts[i]) == Good
    decreases |parts|
  {
    if parts != [] {
      CheckPartsIff(parts[1..]);
      if CheckParts(parts) == Some(true) {
        forall i | 0 <= i < |parts| ensures CheckPart(parts[i]) == Good {
          if i > 0 { assert parts[i] == parts[1..][i - 1]; }
        }
      }
    }
  }

  lemma QuadParts(q: Quad)
    requires InRange(q)
    ensures Split(QuadText(q), DOTS) == QuadDigits(q)
    ensures Split(QuadText(q) + DOTS, DOTS) == QuadDigits(q) + [[]]
    ensures COLON !in QuadText(q)
  {
    var parts := QuadDigits(q);
    JoinFour(parts);
    DigitsRoundTrip(q.a);
    DigitsRoundTrip(q.b);
    DigitsRoundTrip(q.c);
    DigitsRoundTrip(q.d);
    forall i | 0 <= i < 4
      ensures Clean(parts[i], DOTS) && !Contains(parts[i], DOTS)
    {
      assert AllDigits(parts[i]);
      WithoutDelimiterByte(parts[i], DOTS);
    }
    SplitJoin(parts, DOTS);
    JoinSnoc(parts, [], DOTS);
    WithoutDelimiterByte([], DOTS);
    assert QuadText(q) + DOTS + [] == QuadText(q) + DOTS;
    SplitJoin(parts + [[]], DOTS);
  }

  lemma ValidQuad(q: Quad)
    requires InRange(q)
    ensures CheckIpv4(QuadText(q)) == Some(true) && CheckIpv4(QuadText(q) + DOTS) == Some(true)
  {
    QuadParts(q);
    var parts := QuadDigits(q);
    GoodDigits(q.a);
    GoodDigits(q.b);
    GoodDigits(q.c);
    GoodDigits(q.d);
    CheckPartsIff(parts);
    var all := parts + [[]];
    assert all[|all| - 1] == [] && all[..|all| - 1] == parts;
  }

  lemma AcceptedIsQuad(ip: Bytes) returns (q: Quad)
    requires CheckIpv4(ip) == Some(true)
    ensures InRange(q) && (ip == QuadText(q) || ip == QuadText(q) + DOTS)
  {
    var all, parts := Split(ip, DOTS), GetlineParts(ip);
    SplitIsSplittable(ip, DOTS);
    CheckPartsIff(parts);
    var a := GoodPart(parts[0]);
    var b := GoodPart(parts[1]);
    var c := GoodPart(parts[2]);
    var d := GoodPart(parts[3]);
    q := Quad(a, b, c, d);
    JoinFour(parts);
    if all != parts {
      assert all == parts + [[]];
      JoinSnoc(parts, [], DOTS);
      assert QuadText(q) + DOTS + [] == QuadText(q) + DOTS;
    }
  }

  ghost predicate ValidIp(ip: Bytes) {
    IsQuad(ip) || (EndsInDot(ip) && IsQuad(ip[..|ip| - 1]))
  }

  /** The check accepts exactly the dotted quads, each also with one trailing dot. */
  lemma Ipv4Iff(ip: Bytes)
    ensures CheckIpv4(ip) == Some(true) <==> ValidIp(ip)
  {
    if CheckIpv4(ip) == Some(true) {
      var q := AcceptedIsQuad(ip);
      if ip != QuadText(q) {
        assert ip[..|ip| - 1] == QuadText(q);
      }
    } else if IsQuad(ip) {
      var q :| InRange(q) && ip == QuadText(q);
      ValidQuad(q);
    } else if EndsInDot(ip) && IsQuad(ip[..|ip| - 1]) {
      var q :| InRange(q) && ip[..|ip| - 1] == QuadText(q);
      assert ip == QuadText(q) + DOTS;
      ValidQuad(q);
    }
  }

  /** A number from 0 to 255 without a superfluous leading zero. */
  ghost predicate Octet(p: Bytes) {
    exists n :: 0 <= n < 256 && p == Digits(n)
  }

  predicate TooLarge(p: Bytes) {
    p != [] && AllDigits(p) && DigitsValue(p) > INT32_MAX
  }

  lemma PartIff(p: Bytes)
    ensures CheckPart(p) == Good <==> Octet(p)
    ensures CheckPart(p) == Overflow <==> TooLarge(p)
  {
    if CheckPart(p) == Good {
      var n := GoodPart(p);
    }
    if Octet(p) {
      var n :| 0 <= n < 256 && p == Digits(n);
      GoodDigits(n);
    }
    if AllDigits(p) {
      ParseAllDigits(p, -INT32_MAX - 1, INT32_MAX);
    }
  }

  ghost predicate ThrowsAt(parts: seq<Bytes>, i: int) {
    0 <= i < |parts| && TooLarge(parts[i]) && forall j :: 0 <= j < i ==> Octet(parts[j])
  }

  lemma {:induction false} CheckPartsThrows(parts: seq<Bytes>)
    ensures CheckParts(parts).None? <==> exists i :: ThrowsAt(parts, i)
    decreases |parts|
  {
    if parts != [] {
      PartIff(parts[0]);
      CheckPartsThrows(parts[1..]);
      ThrowsLater(parts);
    }
  }

  lemma ThrowsLater(parts: seq<Bytes>)
    requires parts != []
    ensures (exists i :: ThrowsAt(parts, i))
       <==> TooLarge(parts[0]) || (Octet(parts[0]) && exists i :: ThrowsAt(parts[1..], i))
  {
    var rest := parts[1..];
    if TooLarge(parts[0]) {
      assert ThrowsAt(parts, 0);
    } else if i :| ThrowsAt(parts, i) {
      assert Octet(parts[0]);
      assert ThrowsAt(rest, i - 1);
    } else if Octet(parts[0]) && exists i :: ThrowsAt(rest, i) {
      var i :| ThrowsAt(rest, i);
      forall j | 0 <= j < i + 1
        ensures Octet(parts[j])
      {
        assert j > 0 ==> rest[j - 1] == parts[j];
      }
      assert ThrowsAt(parts, i + 1);
    }
  }

  ghost predicate ThrowingIp(ip: Bytes) {
    |GetlineParts(ip)| == 4 && exists i :: ThrowsAt(GetlineParts(ip), i)
  }

  /** The check throws exactly when one of four parts is a number beyond the type `int` and the parts
      before it are in order; every other text that is no dotted quad is refused. */
  lemma Ipv4Throws(ip: Bytes)
    ensures CheckIpv4(ip).None? <==> ThrowingIp(ip)
  {
    CheckPartsThrows(GetlineParts(ip));
  }

  // ------------------------------------------------- the next-hop message

  const EXIT_NODE_STRING: Bytes := Ascii("EXIT_NODE")

  datatype NextHop = Unset | Next(address: Address) | Exit

  /** What the client tells a node about its successor. */
  function PrintNext(next: Option<Address>): Bytes {
    match next
    case Some(a) => PrintAddress(a)
    case None => EXIT_NODE_STRING
  }

  /** Node.cpp `clientHandshake`: anything that is not a valid address makes the node an exit;
      `None` stands for the failures it does not catch. */
  function ParseNext(text: Bytes): Option<NextHop> {
    if text == EXIT_NODE_STRING then Some(Exit)
    else
      var parts := Split(text, SPLITER);
      if |parts| < 2 || !Stoi(parts[1]).Number? then None
      else
        var port := Port16(Stoi(parts[1]).value);
        var valid := CheckIpv4(parts[0]);
        if valid.None? then None
        else if valid.value && port > 0 then Some(Next(Address(parts[0], port)))
        else Some(Exit)
  }

  predicate UsableAddress(a: Address) {
    CheckIpv4(a.ip) == Some(true) && 0 < a.port < 65536
  }

  /** A valid address contains no colon. */
  lemma UsablePlain(ip: Bytes)
    requires CheckIpv4(ip) == Some(true)
    ensures COLON !in ip
  {
    var q := AcceptedIsQuad(ip);
    QuadParts(q);
  }

  lemma NextParts(a: Address)
    requires Clean(a.ip, SPLITER)
    ensures Split(PrintNext(Some(a)), SPLITER) == [a.ip, ToText(a.port)]
    ensures PrintNext(Some(a)) != EXIT_NODE_STRING
  {
    NumberTextPlain(a.port);
    WithoutDelimiterByte(ToText(a.port), SPLITER);
    var parts := [a.ip, ToText(a.port)];
    assert parts[1..] == [ToText(a.port)];
    SplitJoin(parts, SPLITER);
    SplittableTail(parts, SPLITER);
    var t := PrintNext(Some(a));
    assert t[|a.ip|] == COLON && t[|a.ip|] in t;
    NoColonInExit();
  }

  lemma PortParses(port: nat)
    requires port < 65536
    ensures Stoi(ToText(port)) == Number(port)
  {
    ParseToText(port, [], -INT32_MAX - 1, INT32_MAX);
    assert ToText(port) + [] == ToText(port);
  }

  lemma ParsedParts(text: Bytes, ip: Bytes, portText: Bytes, port: nat)
    requires text != EXIT_NODE_STRING && Split(text, SPLITER) == [ip, portText]
    requires Stoi(portText) == Number(port) && port < 65536 && CheckIpv4(ip).Some?
    ensures ParseNext(text)
         == if CheckIpv4(ip) == Some(true) && 0 < port then Some(Next(Address(ip, port))) else Some(Exit)
  {
  }

  /** Exactly when a node learns a successor from a text, whatever follows the port, and exactly when the
      text is one of the failures that are not caught; all other texts make it an exit. */
  lemma NextIff(text: Bytes, a: Address)
    ensures var parts := Split(text, SPLITER);
      (ParseNext(text) == Some(Next(a))
       <==> |parts| >= 2 && Stoi(parts[1]).Number? && ValidIp(parts[0])
            && a == Address(parts[0], Stoi(parts[1]).value % 65536) && a.port > 0)
      && (ParseNext(text).None?
          <==> text != EXIT_NODE_STRING && (|parts| < 2 || !Stoi(parts[1]).Number? || ThrowingIp(parts[0])))
  {
    var parts := Split(text, SPLITER);
    Ipv4Iff(parts[0]);
    Ipv4Throws(parts[0]);
    NoColonInExit();
    SplitPlain(EXIT_NODE_STRING);
  }

  lemma SplitPlain(s: Bytes)
    requires COLON !in s
    ensures |Split(s, SPLITER)| == 1
  {
    WithoutDelimiterByte(s, SPLITER);
  }

  /** An announced successor is learned as announced exactly when its address is usable;
      otherwise the node silently becomes an exit. */
  lemma AnnouncedNext(a: Address)
    requires Clean(a.ip, SPLITER) && a.port < 65536 && CheckIpv4(a.ip).Some?
    ensures ParseNext(PrintNext(Some(a))) == if UsableAddress(a) then Some(Next(a)) else Some(Exit)
  {
    NextParts(a);
    PortParses(a.port);
    ParsedParts(PrintNext(Some(a)), a.ip, ToText(a.port), a.port);
  }

  lemma NextRoundTrip(a: Address)
    requires UsableAddress(a)
    ensures ParseNext(PrintNext(Some(a))) == Some(Next(a))
  {
    UsablePlain(a.ip);
    WithoutDelimiterByte(a.ip, SPLITER);
    AnnouncedNext(a);
  }

  lemma NoColonInExit()
    ensures COLON !in EXIT_NODE_STRING
  {
  }
}
