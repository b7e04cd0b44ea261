/** The two packet forms a client can send, `ip::::port::::message` and
    `username::::message`: how the client builds them and how the exit node reads them. */
module Packets {
  import opened Basics
  import opened Text

  const BACKSLASH: Byte := 92
  const LETTER_N: Byte := 110
  const ESCAPE: Bytes := [BACKSLASH, LETTER_N]

  // ------------------------------------------------------- newline unescaping

  /** Every backslash followed by `n` becomes one newline. */
  function Unescape(s: Bytes): Bytes {
    if ESCAPE <= s then [NEWLINE] + Unescape(s[2..])
    else if s == [] then []
    else [s[0]] + Unescape(s[1..])
  }

  lemma UnescapeHere(s: Bytes, pos: nat)
    requires MatchesAt(s, ESCAPE, pos)
    ensures pos + 2 <= |s| && Unescape(s[pos..]) == [NEWLINE] + Unescape(s[pos + 2..])
  {
  }

  lemma UnescapeSkip(s: Bytes, k: nat)
    requires k < |s| && !MatchesAt(s, ESCAPE, k)
    ensures Unescape(s[k..]) == [s[k]] + Unescape(s[k + 1..])
  {
  }

  /** Unescaping continues after the first escape at or behind position `k`. */
  lemma {:induction false} UnescapeAtMatch(s: Bytes, k: nat, pos: nat)
    requires k <= |s| && Find(s, ESCAPE, k) == Some(pos)
    ensures Unescape(s[k..]) == s[k..pos] + ([NEWLINE] + Unescape(s[pos + 2..]))
    decreases |s| - k
  {
    if MatchesAt(s, ESCAPE, k) {
      UnescapeHere(s, k);
      assert s[k..k] == [];
    } else {
      UnescapeSkip(s, k);
      UnescapeAtMatch(s, k + 1, pos);
      ConsSlice(s, k, pos, [NEWLINE] + Unescape(s[pos + 2..]));
    }
  }

  lemma ConsSlice(s: Bytes, k: nat, pos: nat, rest: Bytes)
    requires k < pos <= |s|
    ensures [s[k]] + (s[k + 1..pos] + rest) == s[k..pos] + rest
  {
  }

  lemma {:induction false} UnescapeWithoutMatch(s: Bytes, k: nat)
    requires k <= |s| && Find(s, ESCAPE, k).None?
    ensures Unescape(s[k..]) == s[k..]
    decreases |s| - k
  {
    if k < |s| {
      assert !MatchesAt(s, ESCAPE, k);
      UnescapeSkip(s, k);
      UnescapeWithoutMatch(s, k + 1);
      assert s[k..] == [s[k]] + s[k + 1..];
    }
  }

  /** Loop state of `formatData`: everything before `k` is final. */
  ghost predicate FormattedUpTo(data: Bytes, s: Bytes, k: nat) {
    k <= |s| && Unescape(data) == s[..k] + Unescape(s[k..])
  }

  lemma Regroup4(s: Bytes, k: nat, pos: nat, mid: Bytes, rest: Bytes)
    requires k <= pos <= |s|
    ensures s[..k] + (s[k..pos] + (mid + rest)) == (s[..pos] + mid) + rest
  {
  }

  lemma FormatStep(data: Bytes, s: Bytes, k: nat, pos: nat)
    requires FormattedUpTo(data, s, k) && Find(s, ESCAPE, k) == Some(pos)
    ensures FormattedUpTo(data, s[..pos] + [NEWLINE] + s[pos + 2..], pos + 1)
  {
    UnescapeAtMatch(s, k, pos);
    var head, tail := s[..pos] + [NEWLINE], s[pos + 2..];
    Regroup4(s, k, pos, [NEWLINE], Unescape(tail));
    assert (head + tail)[..pos + 1] == head && (head + tail)[pos + 1..] == tail;
  }

  /** Utility.cpp `formatData`: replace in place, then search on behind the replacement. */
  method FormatData(data: Bytes) returns (formattedData: Bytes)
    ensures formattedData == Unescape(data)
  {
    formattedData := data;
    var pos := Find(formattedData, ESCAPE, 0);
    ghost var searched := 0;
    assert data[0..] == data;
    while pos.Some?
      invariant FormattedUpTo(data, formattedData, searched)
      invariant pos == Find(formattedData, ESCAPE, searched)
      decreases |formattedData|
    {
      var p := pos.value;
      FormatStep(data, formattedData, searched, p);
      formattedData := formattedData[..p] + [NEWLINE] + formattedData[p + 2..];
      searched := p + 1;
      pos := Find(formattedData, ESCAPE, p + 1);
    }
    UnescapeWithoutMatch(formattedData, searched);
    assert formattedData == formattedData[..searched] + formattedData[searched..];
  }

  lemma ContainsStep(s: Bytes, d: Bytes)
    requires d != [] && s != []
    ensures Contains(s, d) <==> d <= s || Contains(s[1..], d)
  {
    FindInSuffix(s, d, 1, 0);
    assert s[0..] == s;
  }

  lemma ContainsEmpty(d: Bytes)
    requires d != []
    ensures !Contains([], d)
  {
  }

  lemma NoEscapeAtStart(s: Bytes)
    ensures !(ESCAPE <= Unescape(s))
  {
    EscapePrefix(s);
    EscapePrefix(Unescape(s));
    if s != [] && !(ESCAPE <= s) {
      var v := Unescape(s[1..]);
      assert Unescape(s) == [s[0]] + v;
      assert |s| > 1 ==> v[0] == NEWLINE || v[0] == s[1];
    }
  }

  lemma EscapePrefix(s: Bytes)
    ensures ESCAPE <= s <==> |s| >= 2 && s[0] == BACKSLASH && s[1] == LETTER_N
  {
  }

  /** The first escape of a text becomes a line feed, and what follows it is treated likewise. */
  lemma EscapeRead(before: Bytes, rest: Bytes)
    requires Clean(before, [92, 110])
    ensures Unescape(before + [92, 110] + rest) == before + ([10] + Unescape(rest))
  {
    var s := before + ESCAPE + rest;
    FindInJoin(before, ESCAPE, rest, 0);
    UnescapeAtMatch(s, 0, |before|);
    assert s[0..] == s && s[0..|before|] == before && s[|before| + 2..] == rest;
  }

  /** A text without one stays as it is. */
  lemma NothingToUnescape(s: Bytes)
    requires !Contains(s, [92, 110])
    ensures Unescape(s) == s
  {
    UnescapeWithoutMatch(s, 0);
    assert s[0..] == s;
  }

  /** No escape survives. */
  lemma {:induction false} UnescapeLeavesNone(s: Bytes)
    ensures !Contains(Unescape(s), ESCAPE)
    decreases |s|
  {
    var u := Unescape(s);
    if s == [] {
      ContainsEmpty(ESCAPE);
    } else {
      var rest := if ESCAPE <= s then s[2..] else s[1..];
      UnescapeLeavesNone(rest);
      ContainsStep(u, ESCAPE);
      NoEscapeAtStart(s);
      assert u[1..] == Unescape(rest);
    }
  }

  function Colons(k: nat): (r: Bytes)
    ensures |r| == k
  {
    if k == 0 then [] else [COLON] + Colons(k - 1)
  }

  lemma {:induction false} UnescapeKeepsColons(s: Bytes, k: nat)
    ensures Colons(k) <= Unescape(s) <==> Colons(k) <= s
    decreases k
  {
    if k > 0 {
      var c := Colons(k);
      if s != [] && s[0] == COLON {
        var u := Unescape(s);
        UnescapeKeepsColons(s[1..], k - 1);
        assert u == [COLON] + Unescape(s[1..]) && u[1..] == Unescape(s[1..]);
        PrefixStep(c, u);
        PrefixStep(c, s);
        assert c[1..] == Colons(k - 1);
      } else {
        assert c[0] == COLON;
      }
    }
  }

  lemma PrefixStep(c: Bytes, s: Bytes)
    requires c != [] && s != [] && c[0] == s[0]
    ensures c <= s <==> c[1..] <= s[1..]
  {
  }

  /** Unescaping neither creates nor destroys a delimiter. */
  lemma {:induction false} UnescapeKeepsDelimiters(s: Bytes)
    ensures Contains(Unescape(s), SPLITER) <==> Contains(s, SPLITER)
    decreases |s|
  {
    if s != [] {
      var u := Unescape(s);
      assert Colons(4) == SPLITER;
      UnescapeKeepsColons(s, 4);
      ContainsStep(s, SPLITER);
      ContainsStep(u, SPLITER);
      if ESCAPE <= s {
        UnescapeKeepsDelimiters(s[2..]);
        ContainsStep(s[1..], SPLITER);
        assert s[1..][1..] == s[2..] && s[1..][0] == LETTER_N;
        assert u[1..] == Unescape(s[2..]);
      } else {
        UnescapeKeepsDelimiters(s[1..]);
        assert u[1..] == Unescape(s[1..]);
      }
    }
  }

  // ------------------------------------------------------- addresses, parsers

  datatype Destination = Destination(to: Address, data: Bytes)

  /** ConversationObject.cpp `DestinationData(string)`; `None` is the exception. */
  function ParseDestination(s: Bytes): Option<Destination> {
    var parts := Split(s, SPLITER);
    if |parts| != 3 || !Stoi(parts[1]).Number? then None
    else Some(Destination(Address(parts[0], Port16(Stoi(parts[1]).value)), parts[2]))
  }

  /** ConversationObject.cpp `ConnectionPair(string)`. */
  function ParsePair(s: Bytes): Option<Address> {
    var parts := Split(s, SPLITER);
    if |parts| != 2 || !Stoi(parts[1]).Number? then None
    else Some(Address(parts[0], Port16(Stoi(parts[1]).value)))
  }

  function PrintDirect(to: Address, data: Bytes): Bytes {
    to.ip + SPLITER + ToText(to.port) + SPLITER + data
  }

  lemma SplitThree(a: Bytes, b: Bytes, c: Bytes)
    ensures Split(a + SPLITER + b + SPLITER + c, SPLITER) == [a, b, c]
       <==> Clean(a, SPLITER) && Clean(b, SPLITER) && !Contains(c, SPLITER)
  {
    var parts := [a, b, c];
    JoinCons(b, [c], SPLITER);
    JoinCons(a, [b, c], SPLITER);
    assert [b] + [c] == [b, c] && [a] + [b, c] == parts && parts[1..] == [b, c];
    assert a + SPLITER + (b + SPLITER + c) == a + SPLITER + b + SPLITER + c;
    SplitJoin(parts, SPLITER);
    SplittableTail(parts, SPLITER);
    SplittableTail([b, c], SPLITER);
    assert [b, c][1..] == [c];
  }

  lemma SplitTwo(a: Bytes, b: Bytes)
    ensures Split(a + SPLITER + b, SPLITER) == [a, b] <==> Clean(a, SPLITER) && !Contains(b, SPLITER)
  {
    var parts := [a, b];
    assert parts[1..] == [b];
    SplitJoin(parts, SPLITER);
    SplittableTail(parts, SPLITER);
  }

  lemma PortText(port: nat)
    requires port < 65536
    ensures Clean(ToText(port), SPLITER) && !Contains(ToText(port), SPLITER)
    ensures Stoi(ToText(port)) == Number(port)
  {
    NumberTextPlain(port);
    WithoutDelimiterByte(ToText(port), SPLITER);
    ParseToText(port, [], -INT32_MAX - 1, INT32_MAX);
    assert ToText(port) + [] == ToText(port);
  }

  /** A printed address and its data are read back exactly when the data holds no delimiter;
      in particular a host reply that contains one is lost at the exit. */
  lemma DirectRoundTrip(to: Address, data: Bytes)
    requires Clean(to.ip, SPLITER) && to.port < 65536
    ensures ParseDestination(PrintDirect(to, data)) == Some(Destination(to, data))
       <==> !Contains(data, SPLITER)
  {
    PortText(to.port);
    SplitThree(to.ip, ToText(to.port), data);
    var s := PrintDirect(to, data);
    if Contains(data, SPLITER) {
      var parts := Split(s, SPLITER);
      if |parts| == 3 && parts[2] == data {
        SplitIsSplittable(s, SPLITER);
      }
    }
  }

  lemma PairRoundTrip(a: Address)
    requires Clean(a.ip, SPLITER) && a.port < 65536
    ensures ParsePair(PrintAddress(a)) == Some(a)
  {
    PortText(a.port);
    SplitTwo(a.ip, ToText(a.port));
  }

  /** The text `s` is the address and the data of `d` with a number between them that is cut to the port. */
  ghost predicate Writes(s: Bytes, number: Bytes, d: Destination) {
    s == d.to.ip + SPLITER + number + SPLITER + d.data
    && Clean(d.to.ip, SPLITER) && Clean(number, SPLITER) && !Contains(d.data, SPLITER)
    && Stoi(number).Number? && d.to.port == Stoi(number).value % 65536
  }

  /** Exactly which texts are read as an address with data, and as which. */
  lemma DestinationIff(s: Bytes, d: Destination)
    ensures ParseDestination(s) == Some(d) <==> exists number :: Writes(s, number, d)
  {
    var parts := Split(s, SPLITER);
    SplitIsSplittable(s, SPLITER);
    if ParseDestination(s) == Some(d) {
      JoinThree(parts);
      assert Writes(s, parts[1], d);
    }
    if number :| Writes(s, number, d) {
      SplitThree(d.to.ip, number, d.data);
    }
  }

  lemma JoinThree(parts: seq<Bytes>)
    requires |parts| == 3
    ensures Join(parts, SPLITER) == parts[0] + SPLITER + parts[1] + SPLITER + parts[2]
  {
    JoinSnoc(parts[..1], parts[1], SPLITER);
    assert parts[..1] + [parts[1]] == parts[..2];
    JoinSnoc(parts[..2], parts[2], SPLITER);
    assert parts[..2] + [parts[2]] == parts;
  }

  ghost predicate WritesPair(s: Bytes, number: Bytes, a: Address) {
    s == a.ip + SPLITER + number && Clean(a.ip, SPLITER) && !Contains(number, SPLITER)
    && Stoi(number).Number? && a.port == Stoi(number).value % 65536
  }

  /** And exactly which as an address alone. */
  lemma PairIff(s: Bytes, a: Address)
    ensures ParsePair(s) == Some(a) <==> exists number :: WritesPair(s, number, a)
  {
    var parts := Split(s, SPLITER);
    SplitIsSplittable(s, SPLITER);
    if ParsePair(s) == Some(a) {
      JoinSnoc(parts[..1], parts[1], SPLITER);
      assert parts[..1] + [parts[1]] == parts;
      assert WritesPair(s, parts[1], a);
    }
    if number :| WritesPair(s, number, a) {
      SplitTwo(a.ip, number);
    }
  }

  /** Whatever parses as an address has a host name that can be printed again. */
  lemma ParsedPairClean(s: Bytes)
    requires ParsePair(s).Some?
    ensures Clean(ParsePair(s).value.ip, SPLITER) && ParsePair(s).value.port < 65536
  {
    SplitIsSplittable(s, SPLITER);
  }

  // -------------------------------------------------------- client and exit

  /** What the client does with one input line once a path is available. */
  datatype ClientAction = SendPlain(plaintext: Bytes) | Reject | Throw

  predicate ValidTarget(to: Address) {
    7 <= |to.ip| <= 15 && to.port != 0
  }

  /** Client.cpp `splitResponseAndSend` with the argument checks of both `encrypt`. */
  function ClientDispatch(received: Bytes): ClientAction {
    var dd := ParseDestination(received);
    var parts := Split(received, SPLITER);
    if dd.Some? && ValidTarget(dd.value.to) then
      SendPlain(PrintDirect(dd.value.to, Unescape(dd.value.data)))
    else if |parts| != 2 then Reject
    else if parts[0] == [] then Throw
    else SendPlain(parts[0] + SPLITER + Unescape(parts[1]))
  }

  datatype Packet = Direct(to: Address, data: Bytes) | Named(username: Bytes, message: Bytes) | Malformed

  /** Node.cpp `handleNodeAsExit`: fewer than three parts mean a username packet. */
  function ExitDispatch(plaintext: Bytes): Packet {
    var properties := Split(plaintext, SPLITER);
    if |properties| < 3 then
      if |properties| == 2 then Named(properties[0], properties[1]) else Malformed
    else
      match ParseDestination(plaintext)
      case Some(dd) => Direct(dd.to, dd.data)
      case None => Malformed
  }

  /** What the user typed, as a packet. */
  function Typed(received: Bytes): Packet {
    match ParseDestination(received)
    case Some(dd) => Direct(dd.to, Unescape(dd.data))
    case None =>
      var parts := Split(received, SPLITER);
      if |parts| == 2 then Named(parts[0], Unescape(parts[1])) else Malformed
  }

  /** What the client is willing to forward. */
  predicate Forwardable(packet: Packet) {
    match packet
    case Direct(to, _) => ValidTarget(to)
    case Named(username, _) => username != []
    case Malformed => false
  }

  /** Exactly the well-formed inputs are forwarded, and the exit reads each of them exactly as it
      was typed: same form, same address or name, and the formatted message as payload. Of the
      others only a message to an empty name is an exception. */
  lemma DispatchAgrees(received: Bytes)
    ensures ClientDispatch(received).SendPlain? <==> Forwardable(Typed(received))
    ensures ClientDispatch(received).Throw? <==> Typed(received).Named? && Typed(received).username == []
    ensures ClientDispatch(received).SendPlain? ==> ExitDispatch(ClientDispatch(received).plaintext) == Typed(received)
  {
    var parts := Split(received, SPLITER);
    SplitIsSplittable(received, SPLITER);
    var dd := ParseDestination(received);
    if ClientDispatch(received).SendPlain? {
      if dd.Some? {
        var data := Unescape(dd.value.data);
        UnescapeKeepsDelimiters(dd.value.data);
        PortText(dd.value.to.port);
        SplitThree(dd.value.to.ip, ToText(dd.value.to.port), data);
        DirectRoundTrip(dd.value.to, data);
      } else {
        UnescapeKeepsDelimiters(parts[1]);
        SplitTwo(parts[0], Unescape(parts[1]));
      }
    }
  }

  /** A line to an address, from the front end to the exit: it is forwarded exactly when the address
      passes the client's check, and the exit then reads the address and the formatted message. */
  lemma DirectLine(to: Address, data: Bytes)
    requires Clean(to.ip, SPLITER) && to.port < 65536 && !Contains(data, SPLITER)
    ensures var action := ClientDispatch(PrintDirect(to, data));
      if 7 <= |to.ip| <= 15 && to.port > 0 then
        action.SendPlain? && ExitDispatch(action.plaintext) == Direct(to, Unescape(data))
      else action == Reject
  {
    var line := PrintDirect(to, data);
    DirectRoundTrip(to, data);
    DispatchAgrees(line);
    PortText(to.port);
    SplitThree(to.ip, ToText(to.port), data);
  }

  /** A line to a user name likewise; only the empty name is an exception. */
  lemma NamedLine(username: Bytes, message: Bytes)
    requires Clean(username, SPLITER) && !Contains(message, SPLITER)
    ensures var action := ClientDispatch(username + SPLITER + message);
      if username == [] then action == Throw
      else action.SendPlain? && ExitDispatch(action.plaintext) == Named(username, Unescape(message))
  {
    var line := username + SPLITER + message;
    SplitTwo(username, message);
    DispatchAgrees(line);
  }

  /** What the exit makes of any plaintext, also of one that no client sends: nothing is lost of a
      packet with a user name, and a packet is malformed only when it has neither form. */
  lemma ExitReads(plaintext: Bytes)
    ensures var packet := ExitDispatch(plaintext);
      (packet.Malformed? <==> ParseDestination(plaintext).None? && |Split(plaintext, SPLITER)| != 2)
      && (packet.Direct? ==> ParseDestination(plaintext) == Some(Destination(packet.to, packet.data)))
      && (packet.Named? ==> plaintext == packet.username + SPLITER + packet.message)
  {
    var parts := Split(plaintext, SPLITER);
    SplitIsSplittable(plaintext, SPLITER);
    if |parts| == 2 {
      assert parts[1..] == [parts[1]];
      assert Join(parts, SPLITER) == parts[0] + SPLITER + parts[1];
    }
  }

  // ------------------------------------------------------- username look-ups

  /** The exit node's cache of resolved usernames. */
  class UsernameCache {
    var savedUsernames: map<Bytes, Address>

    ghost predicate Valid()
      reads this
    {
      forall u :: u in savedUsernames ==>
        Clean(savedUsernames[u].ip, SPLITER) && savedUsernames[u].port < 65536
    }

    constructor ()
      ensures Valid() && savedUsernames == map[]
    {
      savedUsernames := map[];
    }

    /** Node.cpp `sendToUsername` up to the connection: `answer` is what the mapping server
        would reply; a known name is not asked for again. */
    method Resolve(username: Bytes, message: Bytes, answer: Bytes) returns (r: Option<Destination>)
      requires Valid() && !Contains(message, SPLITER)
      modifies this
      ensures Valid()
      ensures username in old(savedUsernames) ==>
        savedUsernames == old(savedUsernames) && r == Some(Destination(savedUsernames[username], message))
      ensures username !in old(savedUsernames) && ParsePair(answer).Some? ==>
        savedUsernames == old(savedUsernames)[username := ParsePair(answer).value]
        && r == Some(Destination(ParsePair(answer).value, message))
      ensures username !in old(savedUsernames) && ParsePair(answer).None? ==>
        savedUsernames == old(savedUsernames) && r == None
    {
      if username !in savedUsernames {
        var properties := ParsePair(answer);
        if properties.None? {
          return None;
        }
        ParsedPairClean(answer);
        savedUsernames := savedUsernames[username := properties.value];
      }
      var to := savedUsernames[username];
      DirectRoundTrip(to, message);
      r := ParseDestination(PrintAddress(to) + SPLITER + message);
    }
  }
}
