/** Alive messages and the registry together: what the server does with everything it receives
    (ServerProject/Server.cpp `handleClient`), and what that means for a node that keeps announcing itself. */
module Announcements {
  import opened Basics
  import opened Arithmetic
  import opened Text
  import opened Ping
  import Registry

  /** A decrypted message at the time it is handled, or one pass over the list. */
  datatype Input = Message(data: Bytes, time: nat) | SweepTick(time: nat)

  /** The address a message registers, if it passes all checks. */
  function Announced(i: Input, hash: Bytes -> Bytes): Option<Address> {
    if i.Message? && IsNode(i.data) && IsValidFormat(i.data, i.time, hash) == Accept then
      var parts := Split(i.data, SPLITER);
      Some(Address(parts[0], Port16(Stoi(parts[1]).value)))
    else None
  }

  function Handle(s: seq<Registry.Entry>, i: Input, hash: Bytes -> Bytes): seq<Registry.Entry> {
    if i.SweepTick? then Registry.Sweep(s, i.time)
    else
      var a := Announced(i, hash);
      if a.Some? then Registry.PingStep(s, a.value, i.time) else s
  }

  /** Which address a message registers, whoever sent it; the port is cut to 16 bits. */
  lemma AnnouncedExactly(data: Bytes, time: nat, a: Address, hash: Bytes -> Bytes)
    requires PrintsHex(hash)
    ensures Announced(Message(data, time), hash) == Some(a)
       <==> |Split(data, SPLITER)| == 9
            && var parts := Split(data, SPLITER);
               GoodFields(parts, time) && data == Sealed(Join(parts[..7], SPLITER), hash)
               && a == Address(parts[0], DigitsValue(parts[1]) % 65536)
  {
    if IsNode(data) {
      AcceptedExactly(data, time, hash);
      IntField(Split(data, SPLITER)[1]);
    }
  }

  function HandleAll(inputs: seq<Input>, hash: Bytes -> Bytes): seq<Registry.Entry> {
    if inputs == [] then []
    else Handle(HandleAll(inputs[..|inputs| - 1], hash), inputs[|inputs| - 1], hash)
  }

  lemma {:induction false} HandledUnique(inputs: seq<Input>, hash: Bytes -> Bytes)
    ensures Registry.Unique(HandleAll(inputs, hash))
    decreases |inputs|
  {
    if inputs != [] {
      var before, i := HandleAll(inputs[..|inputs| - 1], hash), inputs[|inputs| - 1];
      HandledUnique(inputs[..|inputs| - 1], hash);
      if i.SweepTick? {
        var p := Registry.SweepKeepsOrder(before, i.time);
        Registry.PicksUnique(Registry.Sweep(before, i.time), before, p);
      } else if Announced(i, hash).Some? {
        Registry.PingUnique(before, Announced(i, hash).value, i.time);
      }
    }
  }

  /** What one input does to the entry of one address. */
  lemma FindHandled(s: seq<Registry.Entry>, i: Input, a: Address, hash: Bytes -> Bytes)
    requires Registry.Unique(s)
    ensures var before, after := Registry.Find(s, a), Registry.Find(Handle(s, i, hash), a);
      if Announced(i, hash) == Some(a) then after.Some? && after.value.last == i.time
      else (after.Some? ==> after == before)
           && (before.Some? && !(i.SweepTick? && Registry.Dead(before.value, i.time)) ==> after == before)
  {
    if i.SweepTick? {
      Registry.FindSweep(s, a, i.time);
    } else if Announced(i, hash).Some? {
      Registry.FindPing(s, Announced(i, hash).value, a, i.time);
    }
  }

  /** Every entry of the list stems from a message that passed all checks. */
  lemma {:induction false} EveryEntryAnnounced(inputs: seq<Input>, a: Address, hash: Bytes -> Bytes) returns (j: nat)
    requires Registry.Find(HandleAll(inputs, hash), a).Some?
    ensures j < |inputs| && Announced(inputs[j], hash) == Some(a)
    ensures Registry.Find(HandleAll(inputs, hash), a).value.last == inputs[j].time
    decreases |inputs|
  {
    var n := |inputs| - 1;
    HandledUnique(inputs[..n], hash);
    FindHandled(HandleAll(inputs[..n], hash), inputs[n], a, hash);
    if Announced(inputs[n], hash) == Some(a) {
      j := n;
    } else {
      j := EveryEntryAnnounced(inputs[..n], a, hash);
    }
  }

  /** What a node's own message does to the list: it registers or refreshes exactly that node, unless
      it was late or the predecessor of the drawn number is prime; then nothing changes. */
  lemma OwnMessageHandled(s: seq<Registry.Entry>, a: Address, time: nat, nonPrime: nat, random: nat, base: nat,
                          now: nat, hash: Bytes -> Bytes)
    requires Clean(a.ip, SPLITER) && PrintsHex(hash)
    requires 1 <= a.port <= 65535 && time < TWO_63 && now < TWO_63
    requires MIN_NON_PRIME <= nonPrime <= MAX_NON_PRIME && !Prime(nonPrime)
    requires IsModuloBase(base, nonPrime, a.port)
    ensures var data := Sealed(Join(Fields(a.ip, a.port, time, nonPrime, random, base), SPLITER), hash);
      Handle(s, Message(data, now), hash)
      == if Composite(nonPrime - 1) && 0 <= now - time < 2000 then Registry.PingStep(s, a, now) else s
  {
    var fields := Fields(a.ip, a.port, time, nonPrime, random, base);
    var data := Sealed(Join(fields, SPLITER), hash);
    AcceptedIff(a.ip, a.port, time, nonPrime, random, base, now, hash);
    AliveFields(a.ip, a.port, time, nonPrime, random, base, hash);
    OwnPort(a.port);
    var parts := Split(data, SPLITER);
    assert parts[0] == fields[0] && parts[1] == fields[1];
  }

  // ---------------------------------------------------------- as registry events

  /** The pings and sweeps among everything received. */
  function Events(inputs: seq<Input>, hash: Bytes -> Bytes): seq<Registry.Event> {
    if inputs == [] then []
    else
      var before, i := Events(inputs[..|inputs| - 1], hash), inputs[|inputs| - 1];
      if i.SweepTick? then before + [Registry.SweepAt(i.time)]
      else if Announced(i, hash).Some? then before + [Registry.Ping(Announced(i, hash).value, i.time)]
      else before
  }

  /** Refused messages leave no trace, so all that is proved of runs of pings and sweeps holds here. */
  lemma {:induction false} HandlingIsRun(inputs: seq<Input>, hash: Bytes -> Bytes)
    ensures HandleAll(inputs, hash) == Registry.Run(Events(inputs, hash))
    decreases |inputs|
  {
    if inputs != [] {
      var before, all := Events(inputs[..|inputs| - 1], hash), Events(inputs, hash);
      HandlingIsRun(inputs[..|inputs| - 1], hash);
      assert all != before ==> all[..|all| - 1] == before;
    }
  }

  /** Whatever else arrives in between: a node whose accepted messages leave no gap of more than
      `MAX_TIME_ALIVE` before a sweep stays on the list, and its count is that of its accepted messages. */
  lemma StaysListed(inputs: seq<Input>, hash: Bytes -> Bytes, a: Address, j: nat) returns (i: nat)
    requires var events := Events(inputs, hash);
      Registry.Ordered(events) && j < |events| && events[j].Ping? && events[j].address == a
      && Registry.KeptFresh(events, a, j)
    ensures var events, entry := Events(inputs, hash), Registry.Find(HandleAll(inputs, hash), a);
      entry.Some? && Registry.InsertedAt(events, a, i)
      && entry.value.count == Registry.PingsOf(events[i..], a) % Registry.TWO_32
  {
    HandlingIsRun(inputs, hash);
    Registry.NeverRemoved(Events(inputs, hash), a, j);
    i := Registry.CountsPings(Events(inputs, hash), a);
  }
}
