/** The server's list of alive nodes (ServerProject/Server.cpp, NodeData.cpp): accepted pings
    insert or refresh an entry, and a periodic sweep erases dead entries in place while its
    index keeps advancing. */
module Registry {
  import opened Basics
  import opened Arithmetic

  const MAX_TIME_ALIVE: int := 10000
  const TWO_32: int := 0x1_0000_0000

  datatype Entry = Entry(address: Address, last: nat, count: nat)

  /** `nodeIsDead`; the subtraction is unsigned. */
  predicate Dead(e: Entry, now: nat) {
    (now - e.last) % TWO_64 > MAX_TIME_ALIVE
  }

  // --------------------------------------------------------- one sweep, as a function

  /** Erasing an entry shifts its successor under the index that is then advanced,
      so the successor stays unexamined. */
  function Sweep(s: seq<Entry>, now: nat): seq<Entry> {
    if s == [] then []
    else if !Dead(s[0], now) then [s[0]] + Sweep(s[1..], now)
    else if |s| == 1 then []
    else [s[1]] + Sweep(s[2..], now)
  }

  function Live(s: seq<Entry>, now: nat): seq<Entry> {
    if s == [] then []
    else if Dead(s[0], now) then Live(s[1..], now)
    else [s[0]] + Live(s[1..], now)
  }

  /** `u` consists of the entries of `s` at the increasing positions `p`. */
  ghost predicate Picks(u: seq<Entry>, s: seq<Entry>, p: seq<nat>) {
    |p| == |u| && (forall i :: 0 <= i < |p| ==> p[i] < |s| && u[i] == s[p[i]])
    && forall i, j :: 0 <= i < j < |p| ==> p[i] < p[j]
  }

  /** Lengths of the maximal runs of dead entries: before the first live entry, between
      neighbouring live entries, and after the last one. */
  function Runs(s: seq<Entry>, now: nat): (r: seq<nat>)
    ensures |r| >= 1
  {
    if s == [] then [0]
    else
      var r := Runs(s[1..], now);
      if Dead(s[0], now) then r[0 := r[0] + 1] else [0] + r
  }

  function Halved(r: seq<nat>): (h: seq<nat>)
    ensures |h| == |r| && forall i :: 0 <= i < |r| ==> h[i] == r[i] / 2
  {
    seq(|r|, i requires 0 <= i < |r| => r[i] / 2)
  }

  lemma {:induction false} SweepKeepsLive(s: seq<Entry>, now: nat)
    ensures Live(Sweep(s, now), now) == Live(s, now)
    decreases |s|
  {
    if s != [] {
      var u := Sweep(s, now);
      if !Dead(s[0], now) {
        SweepKeepsLive(s[1..], now);
        assert u[1..] == Sweep(s[1..], now);
      } else if |s| >= 2 {
        SweepKeepsLive(s[2..], now);
        assert u[1..] == Sweep(s[2..], now) && s[1..][1..] == s[2..];
      } else {
        assert s[1..] == [];
      }
    }
  }

  /** A sweep keeps entries unchanged and in order. */
  lemma {:induction false} SweepKeepsOrder(s: seq<Entry>, now: nat) returns (p: seq<nat>)
    ensures Picks(Sweep(s, now), s, p)
    decreases |s|
  {
    if s == [] || (Dead(s[0], now) && |s| == 1) {
      p := [];
    } else {
      var skip := if Dead(s[0], now) then 2 else 1;
      var q := SweepKeepsOrder(s[skip..], now);
      p := PickMore(Sweep(s[skip..], now), s, q, skip);
    }
  }

  lemma PickMore(u: seq<Entry>, s: seq<Entry>, q: seq<nat>, skip: nat) returns (p: seq<nat>)
    requires 1 <= skip <= |s| && Picks(u, s[skip..], q)
    ensures Picks([s[skip - 1]] + u, s, p)
  {
    p := [skip - 1] + seq(|q|, i requires 0 <= i < |q| => q[i] + skip);
    forall i | 0 < i < |p|
      ensures p[i] < |s| && ([s[skip - 1]] + u)[i] == s[p[i]]
    {
      assert s[skip..][q[i - 1]] == s[p[i]];
    }
  }

  lemma HalvedCons(x: nat, r: seq<nat>)
    ensures Halved([x] + r) == [x / 2] + Halved(r)
  {
  }

  lemma HalvedFirst(r: seq<nat>, x: nat)
    requires r != []
    ensures Halved(r[0 := x]) == Halved(r)[0 := x / 2]
  {
  }

  /** One sweep shrinks every maximal dead run of length `L` to exactly half of `L`, rounded down. */
  lemma {:induction false} SweepHalvesRuns(s: seq<Entry>, now: nat)
    ensures Runs(Sweep(s, now), now) == Halved(Runs(s, now))
    decreases |s|
  {
    if s != [] {
      var u := Sweep(s, now);
      if !Dead(s[0], now) {
        SweepHalvesRuns(s[1..], now);
        assert u[1..] == Sweep(s[1..], now);
        HalvedCons(0, Runs(s[1..], now));
      } else if |s| >= 2 {
        SweepHalvesRuns(s[2..], now);
        RunsOfPair(s, now);
        RunsOfCons(s[1], Sweep(s[2..], now), now);
        var r := Runs(s[2..], now);
        HalvedCons(1, r);
        HalvedFirst(r, r[0] + 2);
      } else {
        assert s[1..] == [];
      }
    }
  }

  lemma RunsOfCons(e: Entry, s: seq<Entry>, now: nat)
    ensures var r := Runs(s, now);
      Runs([e] + s, now) == if Dead(e, now) then r[0 := r[0] + 1] else [0] + r
  {
  }

  lemma RunsOfPair(s: seq<Entry>, now: nat)
    requires |s| >= 2 && Dead(s[0], now)
    ensures var r := Runs(s[2..], now);
      Runs(s, now) == if Dead(s[1], now) then r[0 := r[0] + 2] else [1] + r
  {
  }

  // ------------------------------------------------------------- repeated sweeps

  function SweepTimes(s: seq<Entry>, now: nat, k: nat): seq<Entry>
    decreases k
  {
    if k == 0 then s else SweepTimes(Sweep(s, now), now, k - 1)
  }

  predicate AllBelow(r: seq<nat>, bound: int) {
    forall i :: 0 <= i < |r| ==> r[i] < bound
  }

  lemma HalvedBelow(r: seq<nat>, bound: int)
    ensures AllBelow(Halved(r), bound) <==> AllBelow(r, 2 * bound)
  {
  }

  /** Nothing is dead exactly when all runs are empty. */
  lemma {:induction false} NoRunsAllLive(s: seq<Entry>, now: nat)
    ensures AllBelow(Runs(s, now), 1) <==> Live(s, now) == s
    ensures |Live(s, now)| <= |s|
    decreases |s|
  {
    if s != [] {
      NoRunsAllLive(s[1..], now);
      var r, t := Runs(s[1..], now), Runs(s, now);
      if Dead(s[0], now) {
        assert t[0] >= 1;
      } else {
        assert Live(s, now)[1..] == Live(s[1..], now) && s == [s[0]] + s[1..];
        assert t[1..] == r;
        if AllBelow(r, 1) {
          forall i | 0 <= i < |t| ensures t[i] < 1 {
            if i > 0 { assert t[i] == r[i - 1]; }
          }
        }
        if AllBelow(t, 1) {
          forall i | 0 <= i < |r| ensures r[i] < 1 {
            assert r[i] == t[i + 1];
          }
        }
      }
    }
  }

  /** `k` sweeps at the same time leave exactly the live entries if and only if every
      dead run was shorter than two to the `k`. */
  lemma {:induction false} SweepsSuffice(s: seq<Entry>, now: nat, k: nat)
    ensures SweepTimes(s, now, k) == Live(s, now) <==> AllBelow(Runs(s, now), Pow(2, k))
    ensures Live(SweepTimes(s, now, k), now) == Live(s, now)
    decreases k
  {
    if k == 0 {
      NoRunsAllLive(s, now);
    } else {
      SweepKeepsLive(s, now);
      SweepHalvesRuns(s, now);
      HalvedBelow(Runs(s, now), Pow(2, k - 1));
      SweepsSuffice(Sweep(s, now), now, k - 1);
    }
  }

  lemma {:induction false} RunsAtMostLength(s: seq<Entry>, now: nat)
    ensures AllBelow(Runs(s, now), |s| + 1)
    decreases |s|
  {
    if s != [] {
      RunsAtMostLength(s[1..], now);
      var r, t := Runs(s[1..], now), Runs(s, now);
      forall i | 0 <= i < |t| ensures t[i] < |s| + 1 {
        if Dead(s[0], now) {
          assert t[i] == if i == 0 then r[0] + 1 else r[i];
        } else if i > 0 {
          assert t[i] == r[i - 1];
        }
      }
    }
  }

  /** Among `n` entries, `k` sweeps with two to the `k` above `n` always suffice. */
  lemma LogarithmicSweeps(s: seq<Entry>, now: nat, k: nat)
    requires Pow(2, k) > |s|
    ensures SweepTimes(s, now, k) == Live(s, now)
  {
    RunsAtMostLength(s, now);
    var r := Runs(s, now);
    forall i | 0 <= i < |r| ensures r[i] < Pow(2, k) {
      assert r[i] < |s| + 1;
    }
    SweepsSuffice(s, now, k);
  }

  // ------------------------------------------------------------------- the pings

  predicate Unique(s: seq<Entry>) {
    forall i, j :: 0 <= i < j < |s| ==> s[i].address != s[j].address
  }

  /** Position of the first entry with the address, or the length. */
  function IndexOf(s: seq<Entry>, a: Address): (i: nat)
    ensures i <= |s| && (i < |s| ==> s[i].address == a)
    ensures forall j :: 0 <= j < i ==> s[j].address != a
  {
    if s == [] || s[0].address == a then 0
    else
      var rest := IndexOf(s[1..], a);
      assert forall j :: 1 <= j < 1 + rest ==> s[j] == s[1..][j - 1];
      1 + rest
  }

  function Refreshed(e: Entry, now: nat): Entry {
    Entry(e.address, now, (e.count + 1) % TWO_32)
  }

  function PingStep(s: seq<Entry>, a: Address, now: nat): seq<Entry> {
    var i := IndexOf(s, a);
    if i < |s| then s[i := Refreshed(s[i], now)] else s + [Entry(a, now, 1)]
  }

  // ------------------------------------------------------------------ whole runs

  datatype Event = Ping(address: Address, time: nat) | SweepAt(time: nat)

  function Apply(s: seq<Entry>, e: Event): seq<Entry> {
    match e
    case Ping(a, t) => PingStep(s, a, t)
    case SweepAt(t) => Sweep(s, t)
  }

  function Run(events: seq<Event>): seq<Entry> {
    if events == [] then [] else Apply(Run(events[..|events| - 1]), events[|events| - 1])
  }

  predicate Ordered(events: seq<Event>) {
    (forall i, j :: 0 <= i < j < |events| ==> events[i].time <= events[j].time)
    && (forall i :: 0 <= i < |events| ==> events[i].time < TWO_64)
  }

  function PingsOf(events: seq<Event>, a: Address): nat {
    if events == [] then 0
    else
      var e := events[|events| - 1];
      PingsOf(events[..|events| - 1], a) + if e.Ping? && e.address == a then 1 else 0
  }

  /** Time of the latest ping of an address. */
  function LastPing(events: seq<Event>, a: Address): Option<nat> {
    if events == [] then None
    else
      var e := events[|events| - 1];
      if e.Ping? && e.address == a then Some(e.time) else LastPing(events[..|events| - 1], a)
  }

  function Find(s: seq<Entry>, a: Address): Option<Entry> {
    var i := IndexOf(s, a);
    if i < |s| then Some(s[i]) else None
  }

  lemma PingUnique(s: seq<Entry>, a: Address, now: nat)
    requires Unique(s)
    ensures Unique(PingStep(s, a, now))
  {
  }

  lemma PicksUnique(u: seq<Entry>, s: seq<Entry>, p: seq<nat>)
    requires Picks(u, s, p) && Unique(s)
    ensures Unique(u)
  {
  }

  /** An address never has two entries. */
  lemma {:induction false} RunUnique(events: seq<Event>)
    ensures Unique(Run(events))
    decreases |events|
  {
    if events != [] {
      var before, e := Run(events[..|events| - 1]), events[|events| - 1];
      RunUnique(events[..|events| - 1]);
      if e.Ping? {
        PingUnique(before, e.address, e.time);
      } else {
        var p := SweepKeepsOrder(before, e.time);
        PicksUnique(Sweep(before, e.time), before, p);
      }
    }
  }

  lemma FindUnique(s: seq<Entry>, i: nat)
    requires Unique(s) && i < |s|
    ensures Find(s, s[i].address) == Some(s[i])
  {
  }

  lemma FindPing(s: seq<Entry>, a: Address, b: Address, now: nat)
    requires Unique(s)
    ensures Find(PingStep(s, a, now), b)
         == if b != a then Find(s, b)
            else if Find(s, a).Some? then Some(Refreshed(Find(s, a).value, now)) else Some(Entry(a, now, 1))
  {
    var u, i, j := PingStep(s, a, now), IndexOf(s, a), IndexOf(s, b);
    PingUnique(s, a, now);
    if b == a {
      assert u[i].address == a;
      FindUnique(u, i);
    } else if j < |s| {
      assert u[j] == s[j];
      FindUnique(u, j);
    } else {
      forall k | 0 <= k < |u|
        ensures u[k].address != b
      {
        assert k < |s| ==> s[k].address != b;
      }
    }
  }

  /** A sweep can only drop an entry, never change it, and keeps it if it is live. */
  lemma FindSweep(s: seq<Entry>, a: Address, now: nat)
    requires Unique(s)
    ensures Find(Sweep(s, now), a).Some? ==> Find(Sweep(s, now), a) == Find(s, a)
    ensures Find(s, a).Some? && !Dead(Find(s, a).value, now) ==> Find(Sweep(s, now), a) == Find(s, a)
  {
    var u := Sweep(s, now);
    var p := SweepKeepsOrder(s, now);
    PicksUnique(u, s, p);
    var i, j := IndexOf(u, a), IndexOf(s, a);
    if i < |u| {
      FindUnique(s, p[i]);
    }
    if j < |s| && !Dead(s[j], now) {
      var k := LiveStays(s, now, j);
      FindUnique(u, k);
    }
  }

  lemma {:induction false} LiveStays(s: seq<Entry>, now: nat, j: nat) returns (k: nat)
    requires j < |s| && !Dead(s[j], now)
    ensures k < |Sweep(s, now)| && Sweep(s, now)[k] == s[j]
    decreases |s|
  {
    if j == 0 {
      k := 0;
    } else if !Dead(s[0], now) {
      k := LiveStays(s[1..], now, j - 1);
      k := k + 1;
    } else if j == 1 {
      k := 0;
    } else {
      k := LiveStays(s[2..], now, j - 2);
      k := k + 1;
    }
  }

  /** The index of the ping that inserted the current entry of an address. */
  ghost predicate InsertedAt(events: seq<Event>, a: Address, j: nat) {
    j < |events| && events[j].Ping? && events[j].address == a
    && Find(Run(events[..j]), a).None?
    && forall k :: j < k <= |events| ==> Find(Run(events[..k]), a).Some?
  }

  lemma PingsOfTail(events: seq<Event>, a: Address, j: nat)
    requires j < |events|
    ensures var n := |events| - 1;
      PingsOf(events[j..], a)
      == PingsOf(events[..n][j..], a) + if events[n].Ping? && events[n].address == a then 1 else 0
  {
    var n := |events| - 1;
    var t := events[j..];
    assert t[|t| - 1] == events[n];
    assert t[..|t| - 1] == events[..n][j..];
  }

  /** What one step does to the entry of one address. */
  lemma FindApply(s: seq<Entry>, e: Event, a: Address)
    requires Unique(s) && Find(Apply(s, e), a).Some?
    ensures var after := Find(Apply(s, e), a).value;
      if e.Ping? && e.address == a
      then after.last == e.time
           && after.count == if Find(s, a).Some? then (Find(s, a).value.count + 1) % TWO_32 else 1
      else Find(s, a) == Some(after)
  {
    if e.Ping? {
      FindPing(s, e.address, a, e.time);
    } else {
      FindSweep(s, a, e.time);
    }
  }

  lemma CountUp(before: nat, after: nat, pingsBefore: nat, pings: nat, hit: bool)
    requires before == pingsBefore % TWO_32 && pings == pingsBefore + if hit then 1 else 0
    requires after == if hit then (before + 1) % TWO_32 else before
    ensures after == pings % TWO_32
  {
  }

  /** Over every run: an entry carries the time of the last ping of its address, and its
      count is the number of pings accepted since it was inserted (modulo the 32-bit width). */
  lemma {:induction false} CountsPings(events: seq<Event>, a: Address) returns (j: nat)
    requires Find(Run(events), a).Some?
    ensures InsertedAt(events, a, j)
    ensures Find(Run(events), a).value.count == PingsOf(events[j..], a) % TWO_32
    ensures LastPing(events, a) == Some(Find(Run(events), a).value.last)
    decreases |events|
  {
    var n := |events| - 1;
    var before, e := Find(Run(events[..n]), a), events[n];
    var hit, after := e.Ping? && e.address == a, Find(Run(events), a).value;
    RunUnique(events[..n]);
    FindApply(Run(events[..n]), e, a);
    if before.Some? {
      j := CountsPings(events[..n], a);
      ExtendInsertion(events, a, j);
    } else {
      j := n;
      InsertedNow(events, a);
    }
    PingsOfTail(events, a, j);
    CountUp(if before.Some? then before.value.count else 0, after.count,
            PingsOf(events[..n][j..], a), PingsOf(events[j..], a), hit);
  }

  lemma InsertedNow(events: seq<Event>, a: Address)
    requires events != [] && Find(Run(events), a).Some?
    requires events[|events| - 1].Ping? && events[|events| - 1].address == a
    requires Find(Run(events[..|events| - 1]), a).None?
    ensures InsertedAt(events, a, |events| - 1) && PingsOf(events[..|events| - 1][|events| - 1..], a) == 0
  {
    assert events[..|events|] == events;
    assert events[..|events| - 1][|events| - 1..] == [];
  }

  lemma ExtendInsertion(events: seq<Event>, a: Address, j: nat)
    requires events != [] && InsertedAt(events[..|events| - 1], a, j) && Find(Run(events), a).Some?
    ensures InsertedAt(events, a, j)
  {
    var n := |events| - 1;
    PrefixOfPrefix(events, n, j);
    forall k | j < k <= |events|
      ensures Find(Run(events[..k]), a).Some?
    {
      if k <= n {
        PrefixOfPrefix(events, n, k);
      } else {
        assert events[..k] == events;
      }
    }
  }

  lemma PrefixOfPrefix(events: seq<Event>, n: nat, k: nat)
    requires k <= n <= |events|
    ensures events[..n][..k] == events[..k]
  {
  }

  /** Every sweep after position `j` finds the last ping of the address at most 10 seconds ago. */
  ghost predicate KeptFresh(events: seq<Event>, a: Address, j: nat) {
    forall k :: j < k < |events| && events[k].SweepAt? ==>
      match LastPing(events[..k], a)
      case Some(t) => events[k].time - t <= 10000
      case None => false
  }

  /** A node that keeps pinging often enough is never removed. */
  lemma {:induction false} NeverRemoved(events: seq<Event>, a: Address, j: nat)
    requires Ordered(events) && j < |events| && events[j].Ping? && events[j].address == a
    requires KeptFresh(events, a, j)
    ensures Find(Run(events), a).Some?
    decreases |events|
  {
    var n := |events| - 1;
    var prefix, e := events[..n], events[n];
    var before := Run(prefix);
    RunUnique(prefix);
    if e.Ping? && e.address == a {
      FindPing(before, a, a, e.time);
    } else {
      KeptFreshPrefix(events, a, j);
      NeverRemoved(prefix, a, j);
      if e.SweepAt? { FreshNotDead(events, a, j); }
      StaysAtStep(before, e, a);
    }
  }

  lemma StaysAtStep(s: seq<Entry>, e: Event, a: Address)
    requires Unique(s) && Find(s, a).Some? && (e.SweepAt? ==> !Dead(Find(s, a).value, e.time))
    ensures Find(Apply(s, e), a).Some?
  {
    if e.Ping? {
      FindPing(s, e.address, a, e.time);
    } else {
      FindSweep(s, a, e.time);
    }
  }

  lemma FreshNotDead(events: seq<Event>, a: Address, j: nat)
    requires Ordered(events) && j < |events| - 1 && events[|events| - 1].SweepAt?
    requires KeptFresh(events, a, j) && Find(Run(events[..|events| - 1]), a).Some?
    ensures !Dead(Find(Run(events[..|events| - 1]), a).value, events[|events| - 1].time)
  {
    var i := CountsPings(events[..|events| - 1], a);
    LastPingBefore(events, a);
  }

  lemma KeptFreshPrefix(events: seq<Event>, a: Address, j: nat)
    requires j < |events| - 1 && KeptFresh(events, a, j)
    ensures KeptFresh(events[..|events| - 1], a, j)
  {
    var n := |events| - 1;
    forall k | j < k < n && events[..n][k].SweepAt?
      ensures events[..n][..k] == events[..k] && events[k].SweepAt?
    {
      PrefixOfPrefix(events, n, k);
    }
  }

  /** Times never run backwards, so the unsigned difference is the real one. */
  lemma {:induction false} LastPingBefore(events: seq<Event>, a: Address)
    requires Ordered(events) && events != []
    ensures var p := LastPing(events[..|events| - 1], a);
      p.Some? ==> 0 <= p.value <= events[|events| - 1].time < TWO_64
  {
    LastPingTime(events[..|events| - 1], a, events[|events| - 1].time);
  }

  lemma {:induction false} LastPingTime(events: seq<Event>, a: Address, bound: nat)
    requires forall i :: 0 <= i < |events| ==> events[i].time <= bound
    ensures LastPing(events, a).Some? ==> LastPing(events, a).value <= bound
    decreases |events|
  {
    if events != [] {
      LastPingTime(events[..|events| - 1], a, bound);
    }
  }

  // ------------------------------------------------------------- silent nodes go

  function RunFrom(s: seq<Entry>, events: seq<Event>): seq<Entry>
    decreases |events|
  {
    if events == [] then s else RunFrom(Apply(s, events[0]), events[1..])
  }

  function Sweeps(events: seq<Event>): nat {
    if events == [] then 0 else (if events[0].SweepAt? then 1 else 0) + Sweeps(events[1..])
  }

  /** No ping of the address, and an entry last refreshed at `last` counts as dead at every sweep. */
  predicate Silent(events: seq<Event>, a: Address, last: nat) {
    forall k :: 0 <= k < |events| ==>
      if events[k].Ping? then events[k].address != a else (events[k].time - last) % TWO_64 > 10000
  }

  /** A sweep that does not remove a dead entry removes one before it. */
  lemma {:induction false} SweepAdvances(s: seq<Entry>, now: nat, i: nat)
    requires Unique(s) && i < |s| && Dead(s[i], now)
    ensures IndexOf(Sweep(s, now), s[i].address) < |Sweep(s, now)| ==> IndexOf(Sweep(s, now), s[i].address) < i
    decreases |s|
  {
    var a := s[i].address;
    if !Dead(s[0], now) {
      IndexCons(s[0], Sweep(s[1..], now), a);
      SweepAdvances(s[1..], now, i - 1);
    } else if |s| >= 2 {
      IndexCons(s[1], Sweep(s[2..], now), a);
      if i == 0 {
        NotSwept(s[2..], now, a);
      } else if i >= 2 {
        SweepAdvances(s[2..], now, i - 2);
      }
    }
  }

  lemma IndexCons(e: Entry, s: seq<Entry>, a: Address)
    ensures IndexOf([e] + s, a) == if e.address == a then 0 else 1 + IndexOf(s, a)
  {
    assert ([e] + s)[1..] == s;
  }

  lemma NotSwept(s: seq<Entry>, now: nat, a: Address)
    requires forall i :: 0 <= i < |s| ==> s[i].address != a
    ensures IndexOf(Sweep(s, now), a) == |Sweep(s, now)|
  {
    var p := SweepKeepsOrder(s, now);
  }

  /** Neither kind of step brings a silent address back or moves it away from the front. */
  lemma SilentStep(s: seq<Entry>, e: Event, a: Address)
    requires Unique(s) && (e.Ping? ==> e.address != a)
    requires Find(s, a).Some? && e.SweepAt? ==> Dead(Find(s, a).value, e.time)
    ensures var u := Apply(s, e);
      Unique(u) && (Find(u, a).Some? ==>
        Find(u, a) == Find(s, a) && if e.Ping? then IndexOf(u, a) == IndexOf(s, a) else IndexOf(u, a) < IndexOf(s, a))
  {
    if e.Ping? {
      PingUnique(s, e.address, e.time);
      FindPing(s, e.address, a, e.time);
      if Find(s, a).Some? {
        PingKeepsIndex(s, e.address, a, e.time);
      }
    } else {
      var p := SweepKeepsOrder(s, e.time);
      PicksUnique(Sweep(s, e.time), s, p);
      FindSweep(s, a, e.time);
      if Find(s, a).Some? {
        SweepAdvances(s, e.time, IndexOf(s, a));
      }
    }
  }

  lemma PingKeepsIndex(s: seq<Entry>, a: Address, b: Address, now: nat)
    requires a != b && IndexOf(s, b) < |s|
    ensures IndexOf(PingStep(s, a, now), b) == IndexOf(s, b)
  {
    var u, j := PingStep(s, a, now), IndexOf(s, b);
    assert u[j].address == b;
    forall k | 0 <= k < j
      ensures u[k].address != b
    {
      assert s[k].address != b;
    }
  }

  /** A node that falls silent is removed, whatever else arrives: after as many sweeps as there were
      entries up to its own, and it does not come back. */
  lemma {:induction false} SilentRemoved(s: seq<Entry>, events: seq<Event>, a: Address)
    requires Unique(s) && (Find(s, a).Some? ==> Silent(events, a, Find(s, a).value.last))
    requires Find(s, a).None? ==> forall k :: 0 <= k < |events| && events[k].Ping? ==> events[k].address != a
    requires Find(s, a).Some? ==> Sweeps(events) > IndexOf(s, a)
    ensures Find(RunFrom(s, events), a).None?
    decreases |events|
  {
    if events != [] {
      SilentStep(s, events[0], a);
      SilentRemoved(Apply(s, events[0]), events[1..], a);
    }
  }

  lemma {:induction false} RunSplit(before: seq<Event>, events: seq<Event>)
    ensures Run(before + events) == RunFrom(Run(before), events)
    decreases |events|
  {
    if events == [] {
      assert before + events == before;
    } else {
      var longer := before + [events[0]];
      assert longer + events[1..] == before + events;
      assert longer[..|longer| - 1] == before;
      RunSplit(longer, events[1..]);
    }
  }

  /** Over every run: once the entry of an address stays dead, it is gone after at most its position
      plus one further sweeps. */
  lemma SilentNodeGoes(before: seq<Event>, events: seq<Event>, a: Address)
    requires Find(Run(before), a).Some? && Silent(events, a, Find(Run(before), a).value.last)
    requires Sweeps(events) > IndexOf(Run(before), a)
    ensures Find(Run(before + events), a).None?
  {
    RunUnique(before);
    SilentRemoved(Run(before), events, a);
    RunSplit(before, events);
  }

  // ------------------------------------------------------------------ the objects

  class NodeData {
    const address: Address
    var lastAliveMessageTime: nat
    var aliveMessagesCount: nat

    constructor (address: Address, now: nat)
      ensures this.address == address && lastAliveMessageTime == now && aliveMessagesCount == 1
    {
      this.address := address;
      lastAliveMessageTime, aliveMessagesCount := now, 1;
    }

    function Value(): Entry
      reads this
    {
      Entry(address, lastAliveMessageTime, aliveMessagesCount)
    }

    method UpdateLastAliveMessageTime(now: nat)
      modifies this
      ensures Value() == Refreshed(old(Value()), now)
    {
      lastAliveMessageTime := now;
      aliveMessagesCount := (aliveMessagesCount + 1) % TWO_32;
    }
  }

  class Server {
    var aliveNodes: seq<NodeData>

    /** No node object is stored twice. */
    ghost predicate Valid()
      reads this
    {
      forall i, j :: 0 <= i < j < |aliveNodes| ==> aliveNodes[i] != aliveNodes[j]
    }

    function Snapshot(): (s: seq<Entry>)
      reads this, aliveNodes
      ensures |s| == |aliveNodes| && forall i :: 0 <= i < |s| ==> s[i] == aliveNodes[i].Value()
    {
      seq(|aliveNodes|, i requires 0 <= i < |aliveNodes| reads this, aliveNodes => aliveNodes[i].Value())
    }

    constructor ()
      ensures Valid() && Snapshot() == []
    {
      aliveNodes := [];
    }

    method GetNodeInVector(a: Address) returns (i: nat)
      ensures i == IndexOf(Snapshot(), a)
    {
      i := 0;
      while i < |aliveNodes|
        invariant i <= |aliveNodes|
        invariant forall j :: 0 <= j < i ==> aliveNodes[j].address != a
      {
        if aliveNodes[i].address == a {
          break;
        }
        i := i + 1;
      }
      assert i < |aliveNodes| ==> Snapshot()[i].address == a;
    }

    /** The part of `handleClient` behind a valid ping. */
    method HandlePing(a: Address, now: nat)
      requires Valid()
      modifies this, aliveNodes
      ensures Valid() && Snapshot() == PingStep(old(Snapshot()), a, now)
      ensures fresh(set n | n in aliveNodes && n !in old(aliveNodes))
    {
      var i := GetNodeInVector(a);
      if i == |aliveNodes| {
        var node := new NodeData(a, now);
        aliveNodes := aliveNodes + [node];
        assert Snapshot() == old(Snapshot()) + [Entry(a, now, 1)];
      } else {
        aliveNodes[i].UpdateLastAliveMessageTime(now);
        assert Snapshot() == old(Snapshot())[i := Refreshed(old(Snapshot())[i], now)];
      }
    }

    method EraseAt(i: nat)
      requires Valid() && i < |aliveNodes|
      modifies this`aliveNodes
      ensures Valid() && Snapshot() == old(Snapshot()[..i] + Snapshot()[i + 1..])
    {
      aliveNodes := aliveNodes[..i] + aliveNodes[i + 1..];
    }

    /** One pass of `checkAliveNodes` at a fixed time. */
    method CheckAliveNodes(now: nat)
      requires Valid()
      modifies this`aliveNodes
      ensures Valid() && Snapshot() == Sweep(old(Snapshot()), now)
    {
      ghost var before, s := Snapshot(), Snapshot();
      var i := 0;
      while i < |aliveNodes|
        invariant Valid() && s == Snapshot() && SweptUpTo(before, s, i, now)
        decreases |s| + 1 - i
      {
        var node := aliveNodes[i];
        if Dead(node.Value(), now) {
          SweepErase(before, s, now, i);
          EraseAt(i);
          s := s[..i] + s[i + 1..];
        } else {
          SweepAdvance(before, s, now, i);
        }
        i := i + 1;
      }
      SweepDone(before, s, i, now);
    }
  }

  /** Loop state of the sweep; after erasing the last entry the index is one past the end. */
  ghost predicate SweptUpTo(before: seq<Entry>, s: seq<Entry>, i: nat, now: nat) {
    i <= |s| + 1
    && var j := if i <= |s| then i else |s|;
       Sweep(before, now) == s[..j] + Sweep(s[j..], now)
  }

  lemma SweepDone(before: seq<Entry>, s: seq<Entry>, i: nat, now: nat)
    requires SweptUpTo(before, s, i, now) && i >= |s|
    ensures s == Sweep(before, now)
  {
  }

  lemma SweepAdvance(before: seq<Entry>, s: seq<Entry>, now: nat, i: nat)
    requires i < |s| && !Dead(s[i], now) && SweptUpTo(before, s, i, now)
    ensures SweptUpTo(before, s, i + 1, now)
  {
  }

  lemma SweepErase(before: seq<Entry>, s: seq<Entry>, now: nat, i: nat)
    requires i < |s| && Dead(s[i], now) && SweptUpTo(before, s, i, now)
    ensures SweptUpTo(before, s[..i] + s[i + 1..], i + 1, now)
  {
    var u := s[..i] + s[i + 1..];
    if i + 1 < |s| {
      assert s[i..][2..] == s[i + 2..] == u[i + 1..];
      var rest := Sweep(s[i + 2..], now);
      assert s[..i] + ([s[i + 1]] + rest) == u[..i + 1] + rest;
    } else {
      assert u == s[..i] && u[..|u|] == u && u[|u|..] == [];
    }
  }
}
