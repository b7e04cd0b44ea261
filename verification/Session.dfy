/** The client's sessions with its front ends (ClientProject/Client.cpp `handleClient`): each runs in a
    thread of its own, designs paths, handshakes with their relays and sends; the path, its age and
    the stop flag are shared by all sessions and by the timer threads that expire the path. Other
    threads run while a session waits for the network, so every wait ends a step. */
module Session {
  import opened Basics
  import opened Text
  import opened Packets

  const PATH_TIMEOUT: nat := 600000
  const ELECTRON_TIMEOUT: nat := 300000
  const TICK: nat := 1000

  // ------------------------------------------------------------- the commands

  const START_PATH_DESIGN: Bytes := Ascii("START PATH DESIGN")

  datatype Command = DesignPath(length: int) | Data | Garbled

  /** `isPathDesignCommand` and `extractPathLength`: one character after the prefix is skipped,
      the rest must be digits; `Garbled` stands for the exceptions of `substr` and `stoi`. */
  function ParseCommand(line: Bytes): Command {
    var n := |START_PATH_DESIGN|;
    if !(START_PATH_DESIGN <= line) then Data
    else if |line| == n then Garbled
    else if !AllDigits(line[n + 1..]) then Data
    else if !Stoi(line[n + 1..]).Number? then Garbled
    else DesignPath(Stoi(line[n + 1..]).value)
  }

  // ------------------------------------------------------------------ the state

  /** What a handshake leaves behind: a key shared with the node `of`, which was `told` its successor. */
  datatype Key = Key(of: Address, told: Option<Address>)

  /** ClientProject/RelayObject.cpp: a chosen relay and the key stored for it, if any. */
  datatype Relay = Relay(address: Address, key: Option<Key>)

  datatype Phase =
    | Idle
    | Asking(length: int)
    | Handshaking(next: nat)
    | Waiting(next: nat, relay: Address)
    | Connecting(entry: Address, line: Option<Bytes>)

  /** The local variables of one `handleClient` thread. `entry` is the node it is connected to. */
  datatype Session = Session(phase: Phase, pathDesignComplete: bool, lastReceived: nat, entry: Option<Address>)

  /** A packet handed to the node `to`, wrapped for the path of that moment. */
  datatype Sent = Sent(to: Address, relays: seq<Relay>, age: nat, plaintext: Bytes)

  /** `jammed` once an exception has left the path mutex locked. How many paths were `drawn`, and by
      which session the last one, is history. */
  datatype State = State(sessions: map<nat, Session>, stopped: bool, jammed: bool, path: seq<Relay>, age: nat,
                         timers: nat, drawn: nat, designer: nat, log: seq<Sent>)

  /** How a use of the network ends; `SendFails` when only the last transmission goes wrong. */
  datatype Link = Works | Broken | SendFails

  datatype Event =
    | Connect(id: nat)
    | Line(id: nat, text: Bytes, now: nat, link: Link)
    | Draw(id: nat, route: Option<seq<Address>>)
    | LookUp(id: nat)
    | Answer(id: nat, link: Link)
    | Connected(id: nat, link: Link)
    | Disconnect(id: nat)
    | Tick
    | TimerExit

  function Clamp(n: int): (r: nat)
    ensures MIN_PATH <= r <= MAX_PATH && (MIN_PATH <= n <= MAX_PATH ==> r == n)
    ensures (n < MIN_PATH ==> r == MIN_PATH) && (n > MAX_PATH ==> r == MAX_PATH)
  {
    if n < MIN_PATH then MIN_PATH else if n > MAX_PATH then MAX_PATH else n
  }

  predicate IsIdle(s: State, id: nat) {
    id in s.sessions && s.sessions[id].phase.Idle?
  }

  /** In the loop of `handshakeWithCurrentPath`. */
  predicate IsDesigning(s: State, id: nat) {
    id in s.sessions && (s.sessions[id].phase.Handshaking? || s.sessions[id].phase.Waiting?)
  }

  predicate PathAvailable(s: State) {
    |s.path| >= MIN_PATH && s.age <= PATH_TIMEOUT
  }

  function Put(s: State, id: nat, x: Session): State {
    s.(sessions := s.sessions[id := x])
  }

  /** `stopCurrentElectornConnection`, after which the session's thread ends. */
  function Stop(s: State, id: nat): State {
    s.(sessions := s.sessions - {id}, stopped := true, path := [])
  }

  /** An index that is out of range throws while the mutex is held; whoever locks it next waits for ever. */
  function Jam(s: State): State {
    s.(jammed := true)
  }

  /** The loop condition: the flag may have been set by another session. */
  function NextTurn(s: State, id: nat): State {
    if s.stopped then s.(sessions := s.sessions - {id}) else s
  }

  /** `splitResponseAndSend`, over the connection the session has. */
  function Send(s: State, id: nat, text: Bytes, fails: bool): State
    requires id in s.sessions && s.sessions[id].entry.Some?
  {
    var action := ClientDispatch(text);
    if action == Throw then Stop(s, id)
    else if action == Reject then NextTurn(s, id)
    else if fails || !PathAvailable(s) then
      // the failure of a username packet leaves the inner handler
      if ParseDestination(text).Some? then NextTurn(s, id) else Stop(s, id)
    else
      NextTurn(s.(log := s.log + [Sent(s.sessions[id].entry.value, s.path, s.age, action.plaintext)]), id)
  }

  /** What a nonempty line does. */
  function Obey(s: State, id: nat, text: Bytes, link: Link): State
    requires id in s.sessions
  {
    var x := s.sessions[id];
    match ParseCommand(text)
    case Garbled => Stop(s, id)
    case DesignPath(n) =>
      var t := s.(path := []);
      if n < MIN_PATH then NextTurn(t, id) else Put(t, id, x.(phase := Asking(n)))
    case Data =>
      if s.age > PATH_TIMEOUT then NextTurn(Put(s.(path := []), id, x.(pathDesignComplete := false)), id)
      else if !x.pathDesignComplete || !PathAvailable(s) then NextTurn(s, id)
      else if link == Broken || x.entry.None? then
        Put(s, id, x.(phase := Connecting(s.path[0].address, Some(text))))
      else Send(s, id, text, link == SendFails)
  }

  predicate TimedOut(x: Session, now: nat) {
    x.lastReceived != 0 && (now - x.lastReceived) % TWO_64 > ELECTRON_TIMEOUT
  }

  /** One line from a front end. */
  function Receive(s: State, id: nat, text: Bytes, now: nat, link: Link): State
    requires id in s.sessions
  {
    var x := s.sessions[id];
    if TimedOut(x, now) then Stop(s, id)
    else if text == [] then NextTurn(s, id)
    else Obey(Put(s, id, x.(lastReceived := now)), id, text, link)
  }

  function Fresh(route: seq<Address>): (path: seq<Relay>)
    ensures |path| == |route| && forall i :: 0 <= i < |path| ==> path[i] == Relay(route[i], None)
  {
    seq(|route|, i requires 0 <= i < |route| => Relay(route[i], None))
  }

  /** `startPathDesign`, once username and relays have arrived; `None` when they have not. */
  function DrawPath(s: State, id: nat, route: Option<seq<Address>>): State
    requires id in s.sessions && s.sessions[id].phase.Asking?
  {
    var x := s.sessions[id];
    if route.None? then Stop(s, id)
    else if |route.value| != Clamp(x.phase.length) then s
    else
      Put(s.(path := Fresh(route.value), age := 0, drawn := s.drawn + 1, designer := id),
          id, x.(phase := Handshaking(0)))
  }

  /** The head of the handshake loop: look up the next relay, or leave the loop and connect to the entry. */
  function LookUpNext(s: State, id: nat): State
    requires id in s.sessions && s.sessions[id].phase.Handshaking?
  {
    var x := s.sessions[id];
    var i := x.phase.next;
    if i < |s.path| then Put(s, id, x.(phase := Waiting(i, s.path[i].address)))
    else
      var t := Put(s.(timers := s.timers + 1), id, x.(pathDesignComplete := true));
      if s.path == [] then Jam(t) else Put(t, id, t.sessions[id].(phase := Connecting(s.path[0].address, None)))
  }

  function SuccessorOf(path: seq<Relay>, i: nat): Option<Address> {
    if i + 1 < |path| then Some(path[i + 1].address) else None
  }

  /** The rest of `handshakeWithNode`, when the relay has answered: the key is stored at its index of
      the path there is by now, and the relay is told its successor on that path. */
  function Store(s: State, id: nat, link: Link): State
    requires id in s.sessions && s.sessions[id].phase.Waiting?
  {
    var x := s.sessions[id];
    var i, a := x.phase.next, x.phase.relay;
    if link == Broken then Stop(s, id)
    else if i >= |s.path| then Jam(s)
    else
      var key := Key(a, SuccessorOf(s.path, i));
      var t := Put(s.(path := s.path[i := s.path[i].(key := Some(key))]), id, x.(phase := Handshaking(i + 1)));
      if link == SendFails then Jam(t) else t
  }

  /** The connection to the entry node is made; a line that waited for it is sent. */
  function Attach(s: State, id: nat, link: Link): State
    requires id in s.sessions && s.sessions[id].phase.Connecting?
  {
    var x := s.sessions[id];
    var t := Put(s, id, x.(phase := Idle, entry := Some(x.phase.entry)));
    if link == Broken then Stop(s, id)
    else if x.phase.line.None? then NextTurn(t, id)
    else Send(t, id, x.phase.line.value, link == SendFails)
  }

  function TickStep(s: State): State {
    var t := s.(age := s.age + TICK);
    if t.age > PATH_TIMEOUT then t.(path := [], timers := if t.timers > 0 then t.timers - 1 else 0) else t
  }

  predicate InPhase(s: State, e: Event) {
    match e
    case Connect(id) => id !in s.sessions
    case Line(id, _, _, _) => IsIdle(s, id)
    case Draw(id, _) => id in s.sessions && s.sessions[id].phase.Asking?
    case LookUp(id) => id in s.sessions && s.sessions[id].phase.Handshaking?
    case Answer(id, _) => id in s.sessions && s.sessions[id].phase.Waiting?
    case Connected(id, _) => id in s.sessions && s.sessions[id].phase.Connecting?
    case Disconnect(id) => IsIdle(s, id)
    case Tick => s.timers > 0
    case TimerExit => s.timers > 0 && s.stopped
  }

  /** An event that cannot happen in the current state changes nothing, and so does every event once
      the mutex stays locked. */
  function Step(s: State, e: Event): State {
    if s.jammed || !InPhase(s, e) then s
    else
      match e
      case Connect(id) => Put(s.(stopped := false), id, Session(Idle, false, 0, None))
      case Line(id, text, now, link) => Receive(s, id, text, now, link)
      case Draw(id, route) => DrawPath(s, id, route)
      case LookUp(id) => LookUpNext(s, id)
      case Answer(id, link) => Store(s, id, link)
      case Connected(id, link) => Attach(s, id, link)
      case Disconnect(id) => Stop(s, id)
      case Tick => TickStep(s)
      case TimerExit => s.(timers := s.timers - 1)
  }

  function Run(s: State, events: seq<Event>): State
    decreases |events|
  {
    if events == [] then s else Run(Step(s, events[0]), events[1..])
  }

  const START: State := State(map[], false, false, [], 0, 0, 0, 0, [])

  // -------------------------------------------------------- what becomes of a packet

  /** A node can open the outer layer if the key used for it is shared with that very node, and
      passes the rest to the successor it was told; the last one reads the plaintext. */
  predicate Arrives(to: Address, relays: seq<Relay>)
    decreases |relays|
  {
    relays != [] && relays[0].key.Some? && relays[0].key.value.of == to
    && if |relays| == 1 then relays[0].key.value.told.None?
       else relays[0].key.value.told.Some? && Arrives(relays[0].key.value.told.value, relays[1..])
  }

  predicate InTime(x: Sent) {
    MIN_PATH <= |x.relays| <= MAX_PATH && x.age <= PATH_TIMEOUT
  }

  predicate SafeSend(x: Sent) {
    InTime(x) && Arrives(x.to, x.relays)
  }

  predicate AllKeyed(path: seq<Relay>) {
    forall i :: 0 <= i < |path| ==> path[i].key.Some?
  }

  /** Every stored key was told the right successor. */
  predicate ToldRight(path: seq<Relay>) {
    forall i :: 0 <= i < |path| && path[i].key.Some? ==> path[i].key.value.told == SuccessorOf(path, i)
  }

  /** The key stored for a relay is shared with another node. */
  predicate Misplaced(r: Relay) {
    r.key.Some? && r.key.value.of != r.address
  }

  predicate NoneMisplaced(path: seq<Relay>, start: nat) {
    forall i :: start <= i < |path| ==> !Misplaced(path[i])
  }

  /** Following the packet amounts to these conditions on the path. */
  lemma {:induction false} ArrivesIff(to: Address, path: seq<Relay>)
    requires path != [] && ToldRight(path)
    ensures Arrives(to, path)
       <==> AllKeyed(path) && path[0].key.value.of == to && NoneMisplaced(path, 1)
    decreases |path|
  {
    if |path| > 1 {
      var rest := path[1..];
      forall i | 0 <= i < |rest|
        ensures rest[i] == path[i + 1] && SuccessorOf(rest, i) == SuccessorOf(path, i + 1)
      {
      }
      ArrivesIff(path[1].address, rest);
      TailConditions(path);
    }
  }

  lemma TailConditions(path: seq<Relay>)
    requires |path| > 1
    ensures AllKeyed(path) <==> path[0].key.Some? && AllKeyed(path[1..])
    ensures NoneMisplaced(path, 1) <==> !Misplaced(path[1]) && NoneMisplaced(path[1..], 1)
  {
    var rest := path[1..];
    forall i | 1 <= i < |path|
      ensures path[i] == rest[i - 1]
    {
    }
    if NoneMisplaced(rest, 1) && !Misplaced(path[1]) {
      forall i | 1 <= i < |path|
        ensures !Misplaced(path[i])
      {
        if i > 1 { assert !Misplaced(rest[i - 1]); }
      }
    }
    if NoneMisplaced(path, 1) {
      forall i | 1 <= i < |rest|
        ensures !Misplaced(rest[i])
      {
        assert rest[i] == path[i + 1];
      }
    }
    if path[0].key.Some? && AllKeyed(rest) {
      forall i | 0 <= i < |path|
        ensures path[i].key.Some?
      {
        if i > 0 { assert rest[i - 1].key.Some?; }
      }
    }
    if AllKeyed(path) {
      forall i | 0 <= i < |rest|
        ensures rest[i].key.Some?
      {
        assert rest[i] == path[i + 1];
      }
    }
  }

  // ----------------------------------------------------- which packets leave

  /** The packet that leaves with an event, if any. */
  function Outgoing(s: State, e: Event): Option<Sent> {
    if s.jammed || !InPhase(s, e) || !PathAvailable(s) then None
    else
      match e
      case Line(id, text, now, link) =>
        var x := s.sessions[id];
        if !TimedOut(x, now) && text != [] && ParseCommand(text) == Data && x.pathDesignComplete
           && link == Works && x.entry.Some? && ClientDispatch(text).SendPlain? then
          Some(Sent(x.entry.value, s.path, s.age, ClientDispatch(text).plaintext))
        else None
      case Connected(id, link) =>
        var a, line := s.sessions[id].phase.entry, s.sessions[id].phase.line;
        if link == Works && line.Some? && ClientDispatch(line.value).SendPlain? then
          Some(Sent(a, s.path, s.age, ClientDispatch(line.value).plaintext))
        else None
      case _ => None
  }

  function Optional(x: Option<Sent>): seq<Sent> {
    match x
    case Some(y) => [y]
    case None => []
  }

  lemma LineSends(s: State, id: nat, text: Bytes, now: nat, link: Link)
    requires !s.jammed && IsIdle(s, id)
    ensures Receive(s, id, text, now, link).log == s.log + Optional(Outgoing(s, Line(id, text, now, link)))
  {
  }

  lemma AttachSends(s: State, id: nat, link: Link)
    requires !s.jammed && InPhase(s, Connected(id, link))
    ensures Attach(s, id, link).log == s.log + Optional(Outgoing(s, Connected(id, link)))
  {
  }

  lemma OutgoingLogged(s: State, e: Event)
    ensures Step(s, e).log == s.log + Optional(Outgoing(s, e))
  {
    if !s.jammed && InPhase(s, e) {
      match e {
        case Line(id, text, now, link) => LineSends(s, id, text, now, link);
        case Connected(id, link) => AttachSends(s, id, link);
        case _ =>
      }
    }
  }

  // ------------------------------------------------- any number of sessions

  function NextIndex(p: Phase): nat
    requires p.Handshaking? || p.Waiting?
  {
    p.next
  }

  /** A relay of the path that has no key yet is one its designer has still to come to. */
  predicate DesignerOnTheWay(s: State) {
    AllKeyed(s.path)
    || (IsDesigning(s, s.designer) && NextIndex(s.sessions[s.designer].phase) <= |s.path|
        && forall i :: 0 <= i < NextIndex(s.sessions[s.designer].phase) ==> s.path[i].key.Some?)
  }

  ghost predicate Inv(s: State) {
    (s.path != [] ==> MIN_PATH <= |s.path| <= MAX_PATH) && ToldRight(s.path) && DesignerOnTheWay(s)
    && forall i :: 0 <= i < |s.log| ==> InTime(s.log[i])
  }

  predicate SameSession(s: State, t: State, d: nat) {
    (d in t.sessions <==> d in s.sessions) && (d in s.sessions ==> t.sessions[d] == s.sessions[d])
  }

  ghost predicate OthersSame(s: State, t: State, id: nat) {
    forall d :: d != id ==> SameSession(s, t, d)
  }

  /** `t` differs from `s` in no other session than `id`, and keeps the path or drops it. */
  ghost predicate OnlySession(s: State, t: State, id: nat) {
    t.drawn == s.drawn && t.designer == s.designer && t.age == s.age && (t.path == s.path || t.path == [])
    && OthersSame(s, t, id)
  }

  /** A change of the local variables only does not matter. */
  lemma PutFrame(s: State, x: Session, t: State, id: nat)
    requires OnlySession(Put(s, id, x), t, id)
    ensures OnlySession(s, t, id)
  {
    forall d | d != id
      ensures SameSession(s, t, d)
    {
      assert SameSession(Put(s, id, x), t, d);
    }
  }

  lemma SendFrame(s: State, id: nat, text: Bytes, fails: bool)
    requires IsIdle(s, id) && s.sessions[id].entry.Some?
    ensures OnlySession(s, Send(s, id, text, fails), id) && !IsDesigning(Send(s, id, text, fails), id)
  {
  }

  lemma ObeyFrame(s: State, id: nat, text: Bytes, link: Link)
    requires IsIdle(s, id)
    ensures OnlySession(s, Obey(s, id, text, link), id) && !IsDesigning(Obey(s, id, text, link), id)
  {
    var x := s.sessions[id];
    if ParseCommand(text).Data? && s.age <= PATH_TIMEOUT && x.entry.Some? {
      SendFrame(s, id, text, link == SendFails);
    }
  }

  /** A line changes only its own session, and may drop the path. */
  lemma LineFrame(s: State, id: nat, text: Bytes, now: nat, link: Link)
    requires IsIdle(s, id)
    ensures var t := Receive(s, id, text, now, link);
      OnlySession(s, t, id) && !IsDesigning(t, id)
  {
    var x := s.sessions[id];
    if !TimedOut(x, now) && text != [] {
      var y := x.(lastReceived := now);
      ObeyFrame(Put(s, id, y), id, text, link);
      PutFrame(s, y, Obey(Put(s, id, y), id, text, link), id);
    }
  }

  lemma AttachFrame(s: State, id: nat, link: Link)
    requires InPhase(s, Connected(id, link))
    ensures OnlySession(s, Attach(s, id, link), id) && !IsDesigning(Attach(s, id, link), id)
  {
    var x := s.sessions[id];
    var y := x.(phase := Idle, entry := Some(x.phase.entry));
    if link != Broken && x.phase.line.Some? {
      SendFrame(Put(s, id, y), id, x.phase.line.value, link == SendFails);
      PutFrame(s, y, Attach(s, id, link), id);
    }
  }

  lemma FrameKeepsInv(s: State, t: State, id: nat)
    requires Inv(s) && !IsDesigning(s, id) && OnlySession(s, t, id)
    requires forall i :: 0 <= i < |t.log| ==> InTime(t.log[i])
    ensures Inv(t)
  {
    assert s.designer != id ==> SameSession(s, t, s.designer);
  }

  lemma DrawKeepsInv(s: State, id: nat, route: Option<seq<Address>>)
    requires Inv(s) && InPhase(s, Draw(id, route))
    ensures Inv(DrawPath(s, id, route))
  {
  }

  lemma LookUpKeepsInv(s: State, id: nat)
    requires Inv(s) && InPhase(s, LookUp(id))
    ensures Inv(LookUpNext(s, id))
  {
  }

  lemma StoreKeepsInv(s: State, id: nat, link: Link)
    requires Inv(s) && InPhase(s, Answer(id, link))
    ensures Inv(Store(s, id, link))
  {
    var t, i := Store(s, id, link), s.sessions[id].phase.next;
    if link != Broken && i < |s.path| {
      StoreTold(s.path, i, s.sessions[id].phase.relay);
      assert s.designer != id ==> SameSession(s, t, s.designer);
    }
  }

  lemma StoreTold(path: seq<Relay>, i: nat, a: Address)
    requires i < |path| && ToldRight(path)
    ensures ToldRight(path[i := path[i].(key := Some(Key(a, SuccessorOf(path, i))))])
  {
    var p := path[i := path[i].(key := Some(Key(a, SuccessorOf(path, i))))];
    forall j | 0 <= j < |p|
      ensures SuccessorOf(p, j) == SuccessorOf(path, j)
    {
    }
  }

  lemma OtherKeepsInv(s: State, e: Event)
    requires Inv(s) && (e.Connect? || e.Disconnect? || e.Tick? || e.TimerExit?)
    ensures Inv(Step(s, e)) && Step(s, e).drawn == s.drawn
  {
    if e.Connect? && !s.jammed && InPhase(s, e) {
      FrameKeepsInv(s, Step(s, e), e.id);
    }
  }

  lemma StepKeepsInv(s: State, e: Event)
    requires Inv(s)
    ensures Inv(Step(s, e)) && s.log <= Step(s, e).log && s.drawn <= Step(s, e).drawn
  {
    OutgoingLogged(s, e);
    if !s.jammed && InPhase(s, e) {
      match e {
        case Line(id, text, now, link) =>
          LineFrame(s, id, text, now, link);
          FrameKeepsInv(s, Step(s, e), id);
        case Connected(id, link) =>
          AttachFrame(s, id, link);
          FrameKeepsInv(s, Step(s, e), id);
        case Draw(id, route) => DrawKeepsInv(s, id, route);
        case LookUp(id) => LookUpKeepsInv(s, id);
        case Answer(id, link) => StoreKeepsInv(s, id, link);
        case _ => OtherKeepsInv(s, e);
      }
    }
  }

  lemma {:induction false} RunKeepsInv(s: State, events: seq<Event>)
    requires Inv(s)
    ensures Inv(Run(s, events)) && s.log <= Run(s, events).log && s.drawn <= Run(s, events).drawn
    decreases |events|
  {
    if events != [] {
      StepKeepsInv(s, events[0]);
      RunKeepsInv(Step(s, events[0]), events[1..]);
    }
  }

  /** Over every run of any number of sessions, packets leave only over a path of 3 to 10 relays
      whose counted age is within the limit. */
  lemma EverySendInTime(events: seq<Event>, i: nat)
    requires i < |Run(START, events).log|
    ensures InTime(Run(START, events).log[i])
  {
    RunKeepsInv(START, events);
  }

  predicate AheadMissing(path: seq<Relay>, next: nat) {
    exists i :: next <= i < |path| && path[i].key.None?
  }

  /** Some session is designing and has a relay ahead of it that has no key yet. */
  ghost predicate Unfinished(s: State) {
    exists id :: IsDesigning(s, id) && AheadMissing(s.path, NextIndex(s.sessions[id].phase))
  }

  lemma KeyedIffFinished(s: State)
    requires Inv(s)
    ensures AllKeyed(s.path) <==> !Unfinished(s)
  {
    if !AllKeyed(s.path) {
      var i :| 0 <= i < |s.path| && s.path[i].key.None?;
      assert AheadMissing(s.path, NextIndex(s.sessions[s.designer].phase));
      assert IsDesigning(s, s.designer);
    }
  }

  /** Exactly when a packet arrives, over every run of any number of sessions: no designing session has
      a relay without a key ahead of it, the first relay's key is shared with the node the session
      is connected to, and no later relay holds the key of another node. */
  lemma SafeExactlyWhen(events: seq<Event>, e: Event)
    requires Outgoing(Run(START, events), e).Some?
    ensures var s := Run(START, events);
      var x := Outgoing(s, e).value;
      s.path != [] && (SafeSend(x)
        <==> !Unfinished(s) && s.path[0].key.Some? && s.path[0].key.value.of == x.to && NoneMisplaced(s.path, 1))
  {
    var s := Run(START, events);
    RunKeepsInv(START, events);
    KeyedIffFinished(s);
    ArrivesIff(Outgoing(s, e).value.to, s.path);
  }

  // --------------------------------------------------- answers from the right relay

  /** An answer that is stored comes from the relay that is at its index by then. */
  predicate OwnAnswer(s: State, e: Event) {
    e.Answer? && !s.jammed && InPhase(s, e) && e.link != Broken && s.sessions[e.id].phase.next < |s.path|
    ==> s.sessions[e.id].phase.relay == s.path[s.sessions[e.id].phase.next].address
  }

  ghost predicate OwnAnswers(s: State, events: seq<Event>)
    decreases |events|
  {
    events != [] ==> OwnAnswer(s, events[0]) && OwnAnswers(Step(s, events[0]), events[1..])
  }

  lemma StepKeepsOwn(s: State, e: Event)
    requires NoneMisplaced(s.path, 0) && OwnAnswer(s, e)
    ensures NoneMisplaced(Step(s, e).path, 0)
  {
    if !s.jammed && InPhase(s, e) {
      match e {
        case Line(id, text, now, link) => LineFrame(s, id, text, now, link);
        case Connected(id, link) => AttachFrame(s, id, link);
        case _ =>
      }
    }
  }

  lemma {:induction false} RunKeepsOwn(s: State, events: seq<Event>)
    requires NoneMisplaced(s.path, 0) && OwnAnswers(s, events)
    ensures NoneMisplaced(Run(s, events).path, 0)
    decreases |events|
  {
    if events != [] {
      StepKeepsOwn(s, events[0]);
      RunKeepsOwn(Step(s, events[0]), events[1..]);
    }
  }

  /** When every answer is stored with its own relay, a packet arrives if and only if no designing
      session has a relay without a key ahead of it and the packet goes to the first relay. */
  lemma SafeWithOwnAnswers(events: seq<Event>, e: Event)
    requires OwnAnswers(START, events) && Outgoing(Run(START, events), e).Some?
    ensures var s := Run(START, events);
      var x := Outgoing(s, e).value;
      s.path != [] && (SafeSend(x) <==> !Unfinished(s) && x.to == s.path[0].address)
  {
    var s := Run(START, events);
    RunKeepsOwn(START, events);
    RunKeepsInv(START, events);
    SafeExactlyWhen(events, e);
    KeyedIffFinished(s);
    assert !Misplaced(s.path[0]);
  }

  // ------------------------------------------------------- one design at a time

  /** No session draws a path while another one is handshaking. */
  ghost predicate OneDesign(s: State, events: seq<Event>)
    decreases |events|
  {
    events != [] ==>
      (Step(s, events[0]).drawn > s.drawn ==> forall id :: !IsDesigning(s, id))
      && OneDesign(Step(s, events[0]), events[1..])
  }

  /** The relays with a key are those before the index of the only designer. */
  predicate Alone(s: State, id: nat) {
    IsDesigning(s, id) ==>
      var p := s.sessions[id].phase;
      s.path == [] || (id == s.designer && p.next <= |s.path|
                       && (forall i :: 0 <= i < |s.path| ==> (s.path[i].key.Some? <==> i < p.next))
                       && (p.Waiting? ==> p.next < |s.path| && p.relay == s.path[p.next].address))
  }

  ghost predicate DesignerAlone(s: State) {
    forall id :: Alone(s, id)
  }

  lemma FrameKeepsAlone(s: State, t: State, id: nat)
    requires DesignerAlone(s) && OnlySession(s, t, id) && !IsDesigning(t, id)
    ensures DesignerAlone(t)
  {
    forall d
      ensures Alone(t, d)
    {
      if d != id {
        assert SameSession(s, t, d) && Alone(s, d);
      }
    }
  }

  lemma DrawKeepsAlone(s: State, id: nat, route: Option<seq<Address>>)
    requires DesignerAlone(s) && InPhase(s, Draw(id, route))
    requires DrawPath(s, id, route).drawn > s.drawn ==> forall d :: !IsDesigning(s, d)
    ensures DesignerAlone(DrawPath(s, id, route))
  {
    var t := DrawPath(s, id, route);
    forall d
      ensures Alone(t, d)
    {
      assert Alone(s, d);
      assert d != id && IsDesigning(t, d) ==> IsDesigning(s, d);
    }
  }

  lemma LookUpKeepsAlone(s: State, id: nat)
    requires DesignerAlone(s) && InPhase(s, LookUp(id))
    ensures DesignerAlone(LookUpNext(s, id))
  {
    var t := LookUpNext(s, id);
    forall d
      ensures Alone(t, d)
    {
      assert Alone(s, d);
    }
  }

  lemma StoreKeepsAlone(s: State, id: nat, link: Link)
    requires DesignerAlone(s) && InPhase(s, Answer(id, link))
    ensures DesignerAlone(Store(s, id, link)) && OwnAnswer(s, Answer(id, link))
  {
    var t := Store(s, id, link);
    assert Alone(s, id);
    forall d
      ensures Alone(t, d)
    {
      assert Alone(s, d);
    }
  }

  lemma StepKeepsAlone(s: State, e: Event)
    requires DesignerAlone(s) && (Step(s, e).drawn > s.drawn ==> forall id :: !IsDesigning(s, id))
    ensures DesignerAlone(Step(s, e)) && OwnAnswer(s, e)
  {
    if !s.jammed && InPhase(s, e) {
      match e {
        case Line(id, text, now, link) =>
          LineFrame(s, id, text, now, link);
          FrameKeepsAlone(s, Step(s, e), id);
        case Connected(id, link) =>
          AttachFrame(s, id, link);
          FrameKeepsAlone(s, Step(s, e), id);
        case Draw(id, route) => DrawKeepsAlone(s, id, route);
        case LookUp(id) => LookUpKeepsAlone(s, id);
        case Answer(id, link) => StoreKeepsAlone(s, id, link);
        case Connect(id) => FrameKeepsAlone(s, Step(s, e), id);
        case Disconnect(id) => FrameKeepsAlone(s, Step(s, e), id);
        case Tick =>
          forall d ensures Alone(Step(s, e), d) { assert Alone(s, d); }
        case TimerExit =>
          forall d ensures Alone(Step(s, e), d) { assert Alone(s, d); }
      }
    }
  }

  lemma {:induction false} RunKeepsAlone(s: State, events: seq<Event>)
    requires DesignerAlone(s) && OneDesign(s, events)
    ensures DesignerAlone(Run(s, events)) && OwnAnswers(s, events)
    decreases |events|
  {
    if events != [] {
      StepKeepsAlone(s, events[0]);
      RunKeepsAlone(Step(s, events[0]), events[1..]);
    }
  }

  /** Some session has relays left to handshake with. */
  ghost predicate InDesign(s: State) {
    exists id :: IsDesigning(s, id) && NextIndex(s.sessions[id].phase) < |s.path|
  }

  /** When designs do not overlap, a packet arrives if and only if no design is in progress at that
      step and the packet goes to the first relay of the current path. */
  lemma SafeBetweenDesigns(events: seq<Event>, e: Event)
    requires OneDesign(START, events) && Outgoing(Run(START, events), e).Some?
    ensures var s := Run(START, events);
      var x := Outgoing(s, e).value;
      s.path != [] && (SafeSend(x) <==> !InDesign(s) && x.to == s.path[0].address)
  {
    var s := Run(START, events);
    RunKeepsAlone(START, events);
    SafeWithOwnAnswers(events, e);
    if InDesign(s) {
      var d :| IsDesigning(s, d) && NextIndex(s.sessions[d].phase) < |s.path|;
      assert Alone(s, d);
      assert s.path[s.sessions[d].phase.next].key.None?;
      assert AheadMissing(s.path, NextIndex(s.sessions[d].phase));
    }
  }

  // ------------------------------------------------------- one session at a time

  /** A front end connects only when no other session is left. */
  ghost predicate OneSession(s: State, events: seq<Event>)
    decreases |events|
  {
    events != [] ==>
      (events[0].Connect? ==> s.sessions == map[]) && OneSession(Step(s, events[0]), events[1..])
  }

  /** What the only session knows of the path there is. */
  predicate KnowsPath(s: State, id: nat)
    requires id in s.sessions
  {
    s.path == [] ||
    match s.sessions[id].phase
    case Idle => s.sessions[id].entry == Some(s.path[0].address)
    case Connecting(a, _) => a == s.path[0].address
    case Asking(_) => false
    case _ => id == s.designer
  }

  ghost predicate Solo(s: State) {
    (forall a, b :: a in s.sessions && b in s.sessions ==> a == b)
    && (s.stopped || s.sessions == map[] ==> s.sessions == map[] && s.path == [])
    && (forall id :: id in s.sessions ==> KnowsPath(s, id))
    && DesignerAlone(s) && NoneMisplaced(s.path, 0)
    && forall i :: 0 <= i < |s.log| ==> SafeSend(s.log[i])
  }

  lemma SoloSend(s: State, id: nat, text: Bytes, fails: bool)
    requires Inv(s) && Solo(s) && IsIdle(s, id) && s.sessions[id].entry.Some?
    ensures Solo(Send(s, id, text, fails))
  {
    SendFrame(s, id, text, fails);
    FrameKeepsAlone(s, Send(s, id, text, fails), id);
    if s.path != [] {
      assert AllKeyed(s.path) && !Misplaced(s.path[0]);
      ArrivesIff(s.path[0].address, s.path);
    }
  }

  lemma SoloObey(s: State, id: nat, text: Bytes, link: Link)
    requires Inv(s) && Solo(s) && IsIdle(s, id)
    ensures Solo(Obey(s, id, text, link))
  {
    ObeyFrame(s, id, text, link);
    FrameKeepsAlone(s, Obey(s, id, text, link), id);
    var x := s.sessions[id];
    if ParseCommand(text).Data? && s.age <= PATH_TIMEOUT && x.pathDesignComplete && PathAvailable(s)
       && !(link == Broken || x.entry.None?) {
      SoloSend(s, id, text, link == SendFails);
    }
  }

  lemma SoloPut(s: State, id: nat, x: Session)
    requires Inv(s) && Solo(s) && IsIdle(s, id) && x.phase == Idle && x.entry == s.sessions[id].entry
    ensures Inv(Put(s, id, x)) && Solo(Put(s, id, x))
  {
    FrameKeepsInv(s, Put(s, id, x), id);
    FrameKeepsAlone(s, Put(s, id, x), id);
  }

  lemma SoloLine(s: State, id: nat, text: Bytes, now: nat, link: Link)
    requires Inv(s) && Solo(s) && IsIdle(s, id)
    ensures Solo(Receive(s, id, text, now, link))
  {
    var x := s.sessions[id];
    LineFrame(s, id, text, now, link);
    FrameKeepsAlone(s, Receive(s, id, text, now, link), id);
    if !TimedOut(x, now) && text != [] {
      SoloPut(s, id, x.(lastReceived := now));
      SoloObey(Put(s, id, x.(lastReceived := now)), id, text, link);
    }
  }

  lemma SoloAttach(s: State, id: nat, link: Link)
    requires Inv(s) && Solo(s) && InPhase(s, Connected(id, link))
    ensures Solo(Attach(s, id, link))
  {
    var x := s.sessions[id];
    var t := Put(s, id, x.(phase := Idle, entry := Some(x.phase.entry)));
    AttachFrame(s, id, link);
    FrameKeepsAlone(s, Attach(s, id, link), id);
    FrameKeepsInv(s, t, id);
    FrameKeepsAlone(s, t, id);
    if link != Broken && x.phase.line.Some? {
      SoloSend(t, id, x.phase.line.value, link == SendFails);
    }
  }

  lemma SoloDesign(s: State, e: Event)
    requires Inv(s) && Solo(s) && !s.jammed && InPhase(s, e) && (e.Draw? || e.LookUp? || e.Answer?)
    requires DesignerAlone(Step(s, e)) && NoneMisplaced(Step(s, e).path, 0)
    ensures Solo(Step(s, e))
  {
  }

  lemma StepKeepsSolo(s: State, e: Event)
    requires Inv(s) && Solo(s) && (e.Connect? ==> s.sessions == map[])
    ensures Solo(Step(s, e))
  {
    if !s.jammed && InPhase(s, e) {
      match e {
        case Line(id, text, now, link) => SoloLine(s, id, text, now, link);
        case Connected(id, link) => SoloAttach(s, id, link);
        case _ =>
          assert e.Draw? ==> forall d :: !IsDesigning(s, d);
          StepKeepsAlone(s, e);
          StepKeepsOwn(s, e);
          if e.Draw? || e.LookUp? || e.Answer? {
            SoloDesign(s, e);
          }
      }
    }
  }

  lemma {:induction false} RunKeepsSolo(s: State, events: seq<Event>)
    requires Inv(s) && Solo(s) && OneSession(s, events)
    ensures Solo(Run(s, events))
    decreases |events|
  {
    if events != [] {
      StepKeepsInv(s, events[0]);
      StepKeepsSolo(s, events[0]);
      RunKeepsSolo(Step(s, events[0]), events[1..]);
    }
  }

  /** With one session at a time, every packet that leaves arrives: it goes to the first of 3 to 10
      relays that all hold their own keys, at a counted age within the limit. */
  lemma EverySendSafe(events: seq<Event>, i: nat)
    requires OneSession(START, events) && i < |Run(START, events).log|
    ensures SafeSend(Run(START, events).log[i])
  {
    RunKeepsSolo(START, events);
  }

  // ------------------------------------------------------------------ expiry

  /** Once the path is too old or missing, an event that draws no path sends nothing and does not help. */
  lemma ExpiredStep(s: State, e: Event)
    requires Inv(s) && !PathAvailable(s) && Step(s, e).drawn == s.drawn
    ensures !PathAvailable(Step(s, e)) && Step(s, e).log == s.log
  {
    OutgoingLogged(s, e);
    if !s.jammed && InPhase(s, e) {
      match e {
        case Line(id, text, now, link) => LineFrame(s, id, text, now, link);
        case Connected(id, link) => AttachFrame(s, id, link);
        case _ =>
      }
    }
  }

  /** Once the path has expired, no session sends anything until some session draws a new one. */
  lemma {:induction false} NothingSentUntilDesign(s: State, events: seq<Event>)
    requires Inv(s) && !PathAvailable(s)
    ensures Run(s, events).log == s.log || Run(s, events).drawn > s.drawn
    decreases |events|
  {
    if events != [] {
      var t := Step(s, events[0]);
      StepKeepsInv(s, events[0]);
      RunKeepsInv(t, events[1..]);
      if t.drawn == s.drawn {
        ExpiredStep(s, events[0]);
        NothingSentUntilDesign(t, events[1..]);
      }
    }
  }

  // ------------------------------------------------------------------ the counted age

  predicate Ticked(s: State, e: Event) {
    e.Tick? && s.timers > 0 && !s.jammed
  }

  /** How many timer ticks happen during a run. */
  function Ticks(s: State, events: seq<Event>): nat
    decreases |events|
  {
    if events == [] then 0
    else (if Ticked(s, events[0]) then 1 else 0) + Ticks(Step(s, events[0]), events[1..])
  }

  lemma AgeStep(s: State, e: Event)
    requires Step(s, e).drawn == s.drawn
    ensures Step(s, e).age == s.age + (if Ticked(s, e) then 1000 else 0)
    ensures Step(s, e).path == [] || |Step(s, e).path| == |s.path|
  {
    if !s.jammed && InPhase(s, e) {
      match e {
        case Line(id, text, now, link) => LineFrame(s, id, text, now, link);
        case Connected(id, link) => AttachFrame(s, id, link);
        case _ =>
      }
    }
  }

  lemma {:induction false} DrawnGrows(s: State, events: seq<Event>)
    ensures s.drawn <= Run(s, events).drawn
    decreases |events|
  {
    if events != [] {
      OnlyDrawDraws(s, events[0]);
      DrawnGrows(Step(s, events[0]), events[1..]);
    }
  }

  /** No event of a session drops the path. */
  ghost predicate OnlyTicksDrop(s: State, events: seq<Event>)
    decreases |events|
  {
    events != [] ==>
      (!Ticked(s, events[0]) && s.path != [] ==> Step(s, events[0]).path != [])
      && OnlyTicksDrop(Step(s, events[0]), events[1..])
  }

  lemma {:induction false} LifetimeRun(s: State, events: seq<Event>)
    requires (s.age > PATH_TIMEOUT ==> s.path == []) && Run(s, events).drawn == s.drawn
    ensures var t := Run(s, events);
      t.age == s.age + 1000 * Ticks(s, events) && (t.age > PATH_TIMEOUT ==> t.path == [])
      && (s.path != [] && t.age <= PATH_TIMEOUT && OnlyTicksDrop(s, events) ==> |t.path| == |s.path|)
    decreases |events|
  {
    if events != [] {
      var t := Step(s, events[0]);
      OnlyDrawDraws(s, events[0]);
      DrawnGrows(t, events[1..]);
      AgeStep(s, events[0]);
      LifetimeRun(t, events[1..]);
    }
  }

  /** How long a path lives, over every run from its draw in which no other path is drawn: its age is
      1000 for every tick; up to 600 ticks it is available, unless a session has dropped it; from the
      601st on it is gone and no event makes a packet leave. */
  lemma PathLifetime(s: State, id: nat, route: seq<Address>, events: seq<Event>)
    requires !s.jammed && InPhase(s, Draw(id, Some(route))) && |route| == Clamp(s.sessions[id].phase.length)
    requires var t := Step(s, Draw(id, Some(route))); Run(t, events).drawn == t.drawn
    ensures var t := Step(s, Draw(id, Some(route)));
      var after, n := Run(t, events), Ticks(t, events);
      after.age == 1000 * n
      && (n <= 600 && OnlyTicksDrop(t, events) ==> PathAvailable(after) && |after.path| == |route|)
      && (n > 600 ==> after.path == [] && !PathAvailable(after) && forall e :: Outgoing(after, e).None?)
  {
    LifetimeRun(Step(s, Draw(id, Some(route))), events);
  }

  // -------------------------------------------------------------- the end of sessions

  /** The session an event is a step of. */
  function Actor(e: Event): Option<nat> {
    if e.Tick? || e.TimerExit? then None else Some(e.id)
  }

  predicate Acts(s: State, e: Event, id: nat) {
    !s.jammed && InPhase(s, e) && Actor(e) == Some(id)
  }

  ghost predicate NeverActs(s: State, events: seq<Event>, id: nat)
    decreases |events|
  {
    events != [] ==> !Acts(s, events[0], id) && NeverActs(Step(s, events[0]), events[1..], id)
  }

  /** A session ends only by a step of its own, never without the stop flag, and the first one to end
      takes the shared path with it. */
  lemma EndRaisesFlag(s: State, e: Event, id: nat)
    requires id in s.sessions && id !in Step(s, e).sessions
    ensures Acts(s, e, id) && Step(s, e).stopped && (!s.stopped ==> Step(s, e).path == [])
  {
    ActorFrame(s, e, id);
  }

  /** An event leaves the sessions it is no step of as they are. */
  lemma ActorFrame(s: State, e: Event, id: nat)
    ensures !Acts(s, e, id) ==> SameSession(s, Step(s, e), id)
  {
    if !s.jammed && InPhase(s, e) {
      match e {
        case Line(a, text, now, link) => LineFrame(s, a, text, now, link);
        case Connected(a, link) => AttachFrame(s, a, link);
        case _ =>
      }
    }
  }

  lemma StoppedObey(s: State, id: nat, text: Bytes, link: Link)
    requires s.stopped && IsIdle(s, id)
    ensures Obey(s, id, text, link).stopped && !IsIdle(Obey(s, id, text, link), id)
  {
  }

  lemma StoppedStep(s: State, e: Event, id: nat)
    requires s.stopped && !e.Connect?
    ensures Step(s, e).stopped
    ensures if Acts(s, e, id) then !IsIdle(Step(s, e), id) else SameSession(s, Step(s, e), id)
  {
    ActorFrame(s, e, id);
    if !s.jammed && InPhase(s, e) && e.Line? && !TimedOut(s.sessions[e.id], e.now) && e.text != [] {
      StoppedObey(Put(s, e.id, s.sessions[e.id].(lastReceived := e.now)), e.id, e.text, e.link);
    }
  }

  /** When one session ends, all do: until another front end connects, no session that does anything
      is ever ready for a line again; it is gone, or waits for the network and is gone after that. */
  lemma {:induction false} OneEndEndsAll(s: State, events: seq<Event>, id: nat)
    requires s.stopped && forall e :: e in events ==> !e.Connect?
    ensures Run(s, events).stopped
    ensures IsIdle(Run(s, events), id) ==> IsIdle(s, id) && NeverActs(s, events, id)
    decreases |events|
  {
    if events != [] {
      StoppedStep(s, events[0], id);
      OneEndEndsAll(Step(s, events[0]), events[1..], id);
    }
  }

  // -------------------------------------------------------------- what a line does

  /** `t` is `s` after session `id` has ended, the path with it. */
  predicate EndedBy(s: State, t: State, id: nat) {
    t == s.(sessions := s.sessions - {id}, stopped := true, path := [])
  }

  /** The packet `t` has sent over the path of `s` is read by the exit as it was typed. */
  predicate SentAsTyped(s: State, t: State, id: nat, text: Bytes)
    requires id in s.sessions && s.sessions[id].entry.Some?
  {
    |t.log| == |s.log| + 1
    && t == s.(log := s.log + [Sent(s.sessions[id].entry.value, s.path, s.age, t.log[|s.log|].plaintext)])
    && ExitDispatch(t.log[|s.log|].plaintext) == Typed(text)
  }

  /** A malformed line changes nothing at all; a message to an empty name ends the session; every other
      line is sent, and when that fails, only a message to a user name ends the session. */
  lemma SendOutcome(s: State, id: nat, text: Bytes, fails: bool)
    requires !s.stopped && id in s.sessions && s.sessions[id].entry.Some?
    ensures var t, packet := Send(s, id, text, fails), Typed(text);
      if !Forwardable(packet) then
        if packet.Named? && packet.username == [] then EndedBy(s, t, id) else t == s
      else if !fails && PathAvailable(s) then SentAsTyped(s, t, id, text)
      else if packet.Named? then EndedBy(s, t, id) else t == s
  {
    DispatchAgrees(text);
  }

  /** A line of a session with a completed path and a working connection: apart from the time of the
      line, the state is as the packet that was typed says. */
  lemma DataLineOutcome(s: State, id: nat, text: Bytes, now: nat, link: Link)
    requires !s.jammed && !s.stopped && IsIdle(s, id) && !TimedOut(s.sessions[id], now)
    requires text != [] && ParseCommand(text) == Data && link != Broken
    requires s.sessions[id].pathDesignComplete && s.sessions[id].entry.Some? && PathAvailable(s)
    ensures var x := Put(s, id, s.sessions[id].(lastReceived := now));
      var t, packet := Step(s, Line(id, text, now, link)), Typed(text);
      if !Forwardable(packet) then
        if packet.Named? && packet.username == [] then EndedBy(x, t, id) else t == x
      else if link == Works then SentAsTyped(x, t, id, text)
      else if packet.Named? then EndedBy(x, t, id) else t == x
  {
    SendOutcome(Put(s, id, s.sessions[id].(lastReceived := now)), id, text, link == SendFails);
  }

  /** So does a line that waited for a new connection to the entry, over that connection, if the path is
      still available by then. */
  lemma WaitingLineOutcome(s: State, id: nat, text: Bytes, link: Link)
    requires !s.jammed && !s.stopped && InPhase(s, Connected(id, link)) && link != Broken
    requires s.sessions[id].phase.line == Some(text)
    ensures var x := s.sessions[id];
      var y := Put(s, id, x.(phase := Idle, entry := Some(x.phase.entry)));
      var t, packet := Step(s, Connected(id, link)), Typed(text);
      if !Forwardable(packet) then
        if packet.Named? && packet.username == [] then EndedBy(y, t, id) else t == y
      else if link == Works && PathAvailable(s) then SentAsTyped(y, t, id, text)
      else if packet.Named? then EndedBy(y, t, id) else t == y
  {
    var x := s.sessions[id];
    SendOutcome(Put(s, id, x.(phase := Idle, entry := Some(x.phase.entry))), id, text, link == SendFails);
  }

  /** A session that has been silent for more than 300 seconds ends with its next line, whatever it
      says; before that an empty line does nothing. */
  lemma SilenceEnds(s: State, id: nat, text: Bytes, now: nat, link: Link, later: nat, next: Bytes, link': Link)
    requires !s.jammed && IsIdle(s, id) && text != [] && 0 < now <= later < TWO_64
    requires IsIdle(Step(s, Line(id, text, now, link)), id)
    ensures var t := Step(s, Line(id, text, now, link));
      (later - now > 300000 ==> EndedBy(t, Step(t, Line(id, next, later, link')), id))
      && (later - now <= 300000 && !t.stopped ==> Step(t, Line(id, [], later, link')) == t)
  {
    LineNoted(s, id, text, now, link);
    SilenceAtLine(Step(s, Line(id, text, now, link)), id, next, later, link');
  }

  lemma LineNoted(s: State, id: nat, text: Bytes, now: nat, link: Link)
    requires !s.jammed && IsIdle(s, id) && text != [] && IsIdle(Step(s, Line(id, text, now, link)), id)
    ensures var t := Step(s, Line(id, text, now, link));
      !t.jammed && t.sessions[id].lastReceived == now
  {
  }

  lemma SilenceAtLine(t: State, id: nat, next: Bytes, later: nat, link: Link)
    requires !t.jammed && IsIdle(t, id) && 0 < t.sessions[id].lastReceived <= later < TWO_64
    ensures var silence := later - t.sessions[id].lastReceived;
      (silence > 300000 ==> EndedBy(t, Step(t, Line(id, next, later, link)), id))
      && (silence <= 300000 && !t.stopped ==> Step(t, Line(id, [], later, link)) == t)
  {
  }

  /** A line of a session whose connection is broken waits for a new one to the entry of the path there is,
      and then leaves over it. */
  lemma BrokenLinkResends(s: State, id: nat, text: Bytes, now: nat)
    requires !s.jammed && !s.stopped && IsIdle(s, id) && !TimedOut(s.sessions[id], now)
    requires text != [] && ParseCommand(text) == Data && Forwardable(Typed(text))
    requires s.sessions[id].pathDesignComplete && PathAvailable(s)
    ensures var x := Put(s, id, s.sessions[id].(lastReceived := now, entry := Some(s.path[0].address)));
      SentAsTyped(x, Run(s, [Line(id, text, now, Broken), Connected(id, Works)]), id, text)
  {
    var e, f := Line(id, text, now, Broken), Connected(id, Works);
    var x := s.sessions[id].(lastReceived := now, phase := Connecting(s.path[0].address, Some(text)));
    BrokenLinkWaits(s, id, text, now);
    WaitingLineOutcome(Put(s, id, x), id, text, Works);
    PutTwice(s, id, x, x.(phase := Idle, entry := Some(s.path[0].address)));
    RunTwo(s, e, f);
  }

  lemma PutTwice(s: State, id: nat, x: Session, y: Session)
    ensures Put(Put(s, id, x), id, y) == Put(s, id, y)
  {
  }

  lemma BrokenLinkWaits(s: State, id: nat, text: Bytes, now: nat)
    requires !s.jammed && IsIdle(s, id) && !TimedOut(s.sessions[id], now)
    requires text != [] && ParseCommand(text) == Data && s.sessions[id].pathDesignComplete && PathAvailable(s)
    ensures Step(s, Line(id, text, now, Broken))
         == Put(s, id, s.sessions[id].(lastReceived := now, phase := Connecting(s.path[0].address, Some(text))))
  {
  }

  lemma RunTwo(s: State, e: Event, f: Event)
    ensures Run(s, [e, f]) == Step(Step(s, e), f)
  {
    assert [e, f][1..] == [f] && [f][1..] == [];
    assert Run(s, [e, f]) == Run(Step(s, e), [f]) == Run(Step(Step(s, e), f), []);
  }

  /** Whatever fails while a session waits for the network ends it, as its front end's leaving does. */
  lemma FailureEnds(s: State, e: Event, id: nat)
    requires !s.jammed && InPhase(s, e)
    requires e == Draw(id, None) || e == Answer(id, Broken) || e == Connected(id, Broken) || e == Disconnect(id)
    ensures EndedBy(s, Step(s, e), id)
  {
  }

  /** A design command takes the shared path away at once, also when its length is refused; a number it
      cannot read ends the session. */
  lemma CommandOutcome(s: State, id: nat, separator: Byte, number: Bytes, now: nat, link: Link)
    requires !s.jammed && !s.stopped && IsIdle(s, id) && !TimedOut(s.sessions[id], now) && AllDigits(number)
    ensures var x, n := s.sessions[id].(lastReceived := now), DigitsValue(number);
      var t := Step(s, Line(id, START_PATH_DESIGN + [separator] + number, now, link));
      if number == [] || n > INT32_MAX then EndedBy(Put(s, id, x), t, id)
      else t == Put(s.(path := []), id, if n < 3 then x else x.(phase := Asking(n)))
  {
    CommandParses(separator, number);
  }

  /** The mutex stays locked exactly after a design whose path is gone, an answer past the end of the
      path, and an answer that is stored but whose next-hop message cannot be sent. */
  lemma JamsExactly(s: State, e: Event)
    requires !s.jammed && InPhase(s, e)
    ensures Step(s, e).jammed
       <==> (e.LookUp? && s.path == [])
            || (e.Answer? && e.link != Broken
                && (s.sessions[e.id].phase.next >= |s.path| || e.link == SendFails))
  {
    match e {
      case Line(id, text, now, link) => NeverJams(s, e);
      case Connected(id, link) => NeverJams(s, e);
      case _ =>
    }
  }

  lemma NeverJams(s: State, e: Event)
    requires !s.jammed && InPhase(s, e) && (e.Line? || e.Connected?)
    ensures !Step(s, e).jammed
  {
  }

  /** Nothing happens after that. */
  lemma {:induction false} JammedForEver(s: State, events: seq<Event>)
    requires s.jammed
    ensures Run(s, events) == s && Ticks(s, events) == 0
    decreases |events|
  {
    if events != [] {
      JammedForEver(s, events[1..]);
    }
  }

  /** A design whose handshakes are over starts a timer. */
  predicate StartsTimer(s: State, e: Event) {
    !s.jammed && InPhase(s, e) && e.LookUp? && s.sessions[e.id].phase.next >= |s.path|
  }

  /** A tick beyond the limit ends its timer, and so does the stop flag. */
  predicate EndsTimer(s: State, e: Event) {
    (Ticked(s, e) && s.age + 1000 > 600000) || (e.TimerExit? && !s.jammed && s.timers > 0 && s.stopped)
  }

  function TimerStarts(s: State, events: seq<Event>): nat
    decreases |events|
  {
    if events == [] then 0
    else (if StartsTimer(s, events[0]) then 1 else 0) + TimerStarts(Step(s, events[0]), events[1..])
  }

  function TimerEnds(s: State, events: seq<Event>): nat
    decreases |events|
  {
    if events == [] then 0
    else (if EndsTimer(s, events[0]) then 1 else 0) + TimerEnds(Step(s, events[0]), events[1..])
  }

  lemma TimerStep(s: State, e: Event)
    ensures Step(s, e).timers + (if EndsTimer(s, e) then 1 else 0) == s.timers + (if StartsTimer(s, e) then 1 else 0)
  {
    if !s.jammed && InPhase(s, e) {
      match e {
        case Line(id, text, now, link) => LineTimers(s, id, text, now, link);
        case Connected(id, link) => AttachTimers(s, id, link);
        case _ =>
      }
    }
  }

  lemma LineTimers(s: State, id: nat, text: Bytes, now: nat, link: Link)
    requires IsIdle(s, id)
    ensures Receive(s, id, text, now, link).timers == s.timers
  {
  }

  lemma AttachTimers(s: State, id: nat, link: Link)
    requires InPhase(s, Connected(id, link))
    ensures Attach(s, id, link).timers == s.timers
  {
  }

  /** Over every run, no timer is lost: there are as many as were started and have not ended. */
  lemma {:induction false} TimersCounted(s: State, events: seq<Event>)
    ensures Run(s, events).timers + TimerEnds(s, events) == s.timers + TimerStarts(s, events)
    decreases |events|
  {
    if events != [] {
      TimerStep(s, events[0]);
      TimersCounted(Step(s, events[0]), events[1..]);
    }
  }

  /** Once the path has expired, each timer ticks at most once more until another path is drawn. */
  lemma {:induction false} TimersRunOut(s: State, events: seq<Event>)
    requires s.path == [] && s.age > PATH_TIMEOUT && Run(s, events).drawn == s.drawn
    ensures Ticks(s, events) <= s.timers
    decreases |events|
  {
    if events != [] {
      var e, t := events[0], Step(s, events[0]);
      OnlyDrawDraws(s, e);
      DrawnGrows(t, events[1..]);
      if s.jammed || t.jammed {
        JammedForEver(t, events[1..]);
      } else {
        AgeStep(s, e);
        TimerStep(s, e);
        TimersRunOut(t, events[1..]);
      }
    }
  }

  /** What costs the shared path: the end of a session, a tick beyond the limit, a design command, and a line
      that comes when the path is too old. In particular a front end that connects does not touch it. */
  lemma PathDropped(s: State, e: Event)
    requires !s.jammed && InPhase(s, e) && s.path != [] && Step(s, e).path == []
    ensures match e
      case Tick => s.age + 1000 > 600000
      case TimerExit => false
      case Connect(_) => false
      case Line(id, text, _, _) =>
        id !in Step(s, e).sessions || ParseCommand(text).DesignPath? || s.age > 600000
      case _ => e.id !in Step(s, e).sessions
  {
    match e {
      case Line(id, text, now, link) =>
        if text != [] && !TimedOut(s.sessions[id], now) {
          ObeyDrops(Put(s, id, s.sessions[id].(lastReceived := now)), id, text, link);
        }
      case Connected(id, link) => AttachDrops(s, id, link);
      case _ =>
    }
  }

  lemma ObeyDrops(s: State, id: nat, text: Bytes, link: Link)
    requires IsIdle(s, id) && s.path != [] && Obey(s, id, text, link).path == []
    ensures id !in Obey(s, id, text, link).sessions || ParseCommand(text).DesignPath? || s.age > 600000
  {
  }

  lemma AttachDrops(s: State, id: nat, link: Link)
    requires InPhase(s, Connected(id, link)) && s.path != [] && Attach(s, id, link).path == []
    ensures id !in Attach(s, id, link).sessions
  {
  }

  // -------------------------------------------------- sessions that have not designed

  /** The session has not completed a design since it forgot its last one. */
  predicate Undesigned(s: State, id: nat) {
    id in s.sessions ==>
      !s.sessions[id].pathDesignComplete
      && (s.sessions[id].phase.Connecting? ==> s.sessions[id].phase.line.None?)
  }

  lemma UndesignedLine(s: State, id: nat, text: Bytes, now: nat, link: Link)
    requires IsIdle(s, id) && Undesigned(s, id)
    ensures Undesigned(Receive(s, id, text, now, link), id)
  {
  }

  lemma UndesignedStep(s: State, e: Event, id: nat)
    requires Undesigned(s, id) && e != LookUp(id)
    ensures Undesigned(Step(s, e), id)
    ensures Actor(e) == Some(id) ==> Outgoing(s, e).None?
  {
    ActorFrame(s, e, id);
    if Acts(s, e, id) && e.Line? {
      UndesignedLine(s, id, e.text, e.now, e.link);
    }
  }

  lemma {:induction false} UndesignedRun(s: State, events: seq<Event>, e: Event, id: nat)
    requires Undesigned(s, id) && LookUp(id) !in events && e != LookUp(id) && Actor(e) == Some(id)
    ensures Outgoing(Run(s, events), e).None?
    decreases |events|
  {
    if events == [] {
      UndesignedStep(s, e, id);
    } else {
      UndesignedStep(s, events[0], id);
      UndesignedRun(Step(s, events[0]), events[1..], e, id);
    }
  }

  /** From its start on, and again from its first line after the path has expired, a session sends nothing
      before it has gone through the handshakes of a design of its own, even while the path of another
      session is available. */
  lemma UndesignedSendsNothing(s: State, first: Event, events: seq<Event>, e: Event, id: nat)
    requires !s.jammed && InPhase(s, first) && Actor(first) == Some(id)
    requires first.Connect?
             || (first.Line? && first.text != [] && ParseCommand(first.text) == Data && s.age > 600000
                 && !TimedOut(s.sessions[id], first.now))
    requires LookUp(id) !in events && e != LookUp(id) && Actor(e) == Some(id)
    ensures Outgoing(Run(Step(s, first), events), e).None?
  {
    UndesignedRun(Step(s, first), events, e, id);
  }

  /** The event that ends a design successfully. */
  predicate Completes(s: State, e: Event) {
    e.Connected? && e.link != Broken && InPhase(s, e) && s.sessions[e.id].phase.line.None?
  }

  ghost predicate NoCompletion(s: State, events: seq<Event>)
    decreases |events|
  {
    events != [] ==> !Completes(s, events[0]) && NoCompletion(Step(s, events[0]), events[1..])
  }

  /** The session is in the course of a design. */
  predicate Busy(s: State, id: nat) {
    id in s.sessions ==> !s.sessions[id].phase.Idle?
                         && (s.sessions[id].phase.Connecting? ==> s.sessions[id].phase.line.None?)
  }

  ghost predicate Blocked(s: State) {
    !PathAvailable(s) || forall id :: Busy(s, id)
  }

  lemma BusyStep(s: State, e: Event)
    requires (forall id :: Busy(s, id)) && !Completes(s, e) && (e.Connect? ==> s.sessions == map[])
    requires Solo(s)
    ensures Blocked(Step(s, e)) && Step(s, e).log == s.log
  {
    OutgoingLogged(s, e);
    if !s.jammed && InPhase(s, e) && !e.Connect? {
      assert e.Tick? || e.TimerExit? || Busy(s, e.id);
      forall d
        ensures Busy(Step(s, e), d)
      {
        assert Busy(s, d);
      }
    }
  }

  lemma BlockedStep(s: State, e: Event)
    requires Inv(s) && Solo(s) && Blocked(s) && !Completes(s, e) && (e.Connect? ==> s.sessions == map[])
    ensures Blocked(Step(s, e)) && Step(s, e).log == s.log
  {
    if !PathAvailable(s) && Step(s, e).drawn == s.drawn {
      ExpiredStep(s, e);
    } else if !PathAvailable(s) {
      OnlyDrawDraws(s, e);
      DrawMakesBusy(s, e);
    } else {
      BusyStep(s, e);
    }
  }

  lemma OnlyDrawDraws(s: State, e: Event)
    ensures Step(s, e).drawn == s.drawn || (e.Draw? && !s.jammed && InPhase(s, e))
  {
    if !s.jammed && InPhase(s, e) {
      match e {
        case Line(id, text, now, link) => LineFrame(s, id, text, now, link);
        case Connected(id, link) => AttachFrame(s, id, link);
        case _ =>
      }
    }
  }

  lemma DrawMakesBusy(s: State, e: Event)
    requires Solo(s) && e.Draw? && InPhase(s, e) && !s.jammed && Step(s, e).drawn != s.drawn
    ensures Blocked(Step(s, e)) && Step(s, e).log == s.log
  {
    forall d
      ensures Busy(Step(s, e), d)
    {
    }
  }

  /** With one session at a time, not until the new design completes. */
  lemma {:induction false} NothingSentUntilComplete(s: State, events: seq<Event>)
    requires Inv(s) && Solo(s) && Blocked(s) && OneSession(s, events) && NoCompletion(s, events)
    ensures Run(s, events).log == s.log
    decreases |events|
  {
    if events != [] {
      BlockedStep(s, events[0]);
      StepKeepsInv(s, events[0]);
      StepKeepsSolo(s, events[0]);
      NothingSentUntilComplete(Step(s, events[0]), events[1..]);
    }
  }

  // ---------------------------------------------------------- packets that are lost

  /** A key stored with the wrong relay loses every packet that is wrapped with it. */
  lemma MisplacedLost(path: seq<Relay>, i: nat, to: Address)
    requires ToldRight(path) && 1 <= i < |path| && Misplaced(path[i])
    ensures !Arrives(to, path)
  {
    ArrivesIff(to, path);
  }

  /** In every state, an answer that comes after another path was drawn, from a relay that is not at
      its index there, loses all packets until some handshake is made at that index again. */
  lemma LateAnswerLoses(s: State, id: nat, to: Address)
    requires Inv(s) && !s.jammed && InPhase(s, Answer(id, Works))
    requires 1 <= s.sessions[id].phase.next < |s.path|
    requires s.sessions[id].phase.relay != s.path[s.sessions[id].phase.next].address
    ensures !Arrives(to, Step(s, Answer(id, Works)).path)
  {
    StoreKeepsInv(s, id, Works);
    MisplacedLost(Store(s, id, Works).path, s.sessions[id].phase.next, to);
  }

  /** In every state, once another session draws a path, a session that completed a design before
      loses its next packet, since no relay of that path has a key yet. */
  lemma StaleSessionSends(s: State, a: nat, b: nat, route: seq<Address>, data: Bytes, now: nat)
    requires Inv(s) && !s.jammed && a != b && IsIdle(s, a) && !TimedOut(s.sessions[a], now)
    requires s.sessions[a].pathDesignComplete && s.sessions[a].entry.Some?
    requires InPhase(s, Draw(b, Some(route))) && |route| == Clamp(s.sessions[b].phase.length)
    requires data != [] && ParseCommand(data) == Data && ClientDispatch(data).SendPlain?
    ensures var t := Run(s, [Draw(b, Some(route)), Line(a, data, now, Works)]);
      |t.log| == |s.log| + 1 && !SafeSend(t.log[|s.log|])
  {
    var e, f := Draw(b, Some(route)), Line(a, data, now, Works);
    var t := Step(s, e);
    assert Outgoing(t, f).Some? && Outgoing(t, f).value.relays == Fresh(route);
    OutgoingLogged(t, f);
    RunTwo(s, e, f);
  }

  const DATA_LINE: Bytes := Ascii("a::::b")

  /** What the client makes of a text after the command prefix and one character: digits are a length,
      no digits at all or too large a number make the session end, and anything else is data. */
  lemma CommandParses(separator: Byte, text: Bytes)
    ensures ParseCommand(START_PATH_DESIGN + [separator] + text)
         == if !AllDigits(text) then Data
            else if text != [] && DigitsValue(text) <= INT32_MAX then DesignPath(DigitsValue(text)) else Garbled
    ensures ParseCommand(START_PATH_DESIGN) == Garbled
  {
    var line := START_PATH_DESIGN + [separator] + text;
    assert line[..|START_PATH_DESIGN|] == START_PATH_DESIGN && line[|START_PATH_DESIGN| + 1..] == text;
    if AllDigits(text) {
      ParseAllDigits(text, -INT32_MAX - 1, INT32_MAX);
    }
  }

  function DesignLine(n: nat): Bytes {
    START_PATH_DESIGN + [COLON] + ToText(n)
  }

  lemma DesignLineParses(n: nat)
    requires n <= INT32_MAX
    ensures ParseCommand(DesignLine(n)) == DesignPath(n) && DesignLine(n) != []
  {
    CommandParses(COLON, ToText(n));
    DigitsRoundTrip(n);
    NumberTextPlain(n);
  }

  lemma DataLineParses()
    ensures ParseCommand(DATA_LINE) == Data && ClientDispatch(DATA_LINE).SendPlain? && DATA_LINE != []
  {
    assert DATA_LINE == [97] + SPLITER + [98];
    assert DATA_LINE[0] == 97 && START_PATH_DESIGN[0] == 83;
    WithoutDelimiterByte([97], SPLITER);
    WithoutDelimiterByte([98], SPLITER);
    SplitTwo([97], [98]);
  }

  lemma {:induction false} RunAppend(s: State, first: seq<Event>, second: seq<Event>)
    ensures Run(s, first + second) == Run(Run(s, first), second)
    decreases |first|
  {
    if first == [] {
      assert first + second == second;
    } else {
      assert (first + second)[1..] == first[1..] + second;
      RunAppend(Step(s, first[0]), first[1..], second);
    }
  }

  lemma RunThen(s: State, events: seq<Event>, e: Event)
    ensures Run(s, events + [e]) == Step(Run(s, events), e)
  {
    RunAppend(s, events, [e]);
    assert [e][1..] == [];
  }

  /** The path along a route whose first `k` relays have answered. */
  function Keyed(route: seq<Address>, k: nat): (path: seq<Relay>)
    ensures |path| == |route|
  {
    seq(|route|, i requires 0 <= i < |route| =>
      var told := if i + 1 < |route| then Some(route[i + 1]) else None;
      Relay(route[i], if i < k then Some(Key(route[i], told)) else None))
  }

  /** `s` after its session `id` has drawn the route and `k` relays have answered. */
  function Midway(s: State, id: nat, route: seq<Address>, now: nat, k: nat, phase: Phase): State
    requires id in s.sessions
  {
    Put(s.(path := Keyed(route, k), age := 0, drawn := s.drawn + 1, designer := id), id,
        s.sessions[id].(lastReceived := now, phase := phase))
  }

  predicate CanDesign(s: State, id: nat, route: seq<Address>, now: nat) {
    !s.jammed && !s.stopped && IsIdle(s, id) && !TimedOut(s.sessions[id], now) && MIN_PATH <= |route| <= MAX_PATH
  }

  function Opening(id: nat, route: seq<Address>, now: nat): seq<Event> {
    [Line(id, DesignLine(|route|), now, Works), Draw(id, Some(route))]
  }

  lemma OpeningRuns(s: State, id: nat, route: seq<Address>, now: nat)
    requires CanDesign(s, id, route, now)
    ensures Run(s, Opening(id, route, now)) == Midway(s, id, route, now, 0, Handshaking(0))
  {
    var n := |route|;
    DesignLineParses(n);
    var e, f := Line(id, DesignLine(n), now, Works), Draw(id, Some(route));
    var t := Step(s, e);
    assert t == Put(s.(path := []), id, s.sessions[id].(lastReceived := now, phase := Asking(n)));
    assert Step(t, f) == Midway(s, id, route, now, 0, Handshaking(0)) by {
      assert Fresh(route) == Keyed(route, 0);
    }
    RunTwo(s, e, f);
  }

  lemma AskStep(s: State, id: nat, route: seq<Address>, now: nat, k: nat)
    requires CanDesign(s, id, route, now) && k < |route|
    ensures Step(Midway(s, id, route, now, k, Handshaking(k)), LookUp(id))
         == Midway(s, id, route, now, k, Waiting(k, route[k]))
  {
  }

  lemma AnswerStep(s: State, id: nat, route: seq<Address>, now: nat, k: nat)
    requires CanDesign(s, id, route, now) && k < |route|
    ensures Step(Midway(s, id, route, now, k, Waiting(k, route[k])), Answer(id, Works))
         == Midway(s, id, route, now, k + 1, Handshaking(k + 1))
  {
    var p := Keyed(route, k);
    assert p[k := p[k].(key := Some(Key(route[k], SuccessorOf(p, k))))] == Keyed(route, k + 1);
  }

  /** One handshake after the other. */
  function Answers(id: nat, k: nat): seq<Event> {
    if k == 0 then [] else Answers(id, k - 1) + [LookUp(id)] + [Answer(id, Works)]
  }

  lemma {:induction false} AnswersRun(s: State, id: nat, route: seq<Address>, now: nat, k: nat)
    requires CanDesign(s, id, route, now) && k <= |route|
    ensures Run(Midway(s, id, route, now, 0, Handshaking(0)), Answers(id, k))
         == Midway(s, id, route, now, k, Handshaking(k))
  {
    if k > 0 {
      var m, before := Midway(s, id, route, now, 0, Handshaking(0)), Answers(id, k - 1);
      AnswersRun(s, id, route, now, k - 1);
      RunThen(m, before, LookUp(id));
      AskStep(s, id, route, now, k - 1);
      RunThen(m, before + [LookUp(id)], Answer(id, Works));
      AnswerStep(s, id, route, now, k - 1);
    }
  }

  /** `s` after its session `id` has completed a design along the route. */
  function Designed(s: State, id: nat, route: seq<Address>, now: nat): State
    requires id in s.sessions && route != []
  {
    Put(s.(path := Keyed(route, |route|), age := 0, timers := s.timers + 1, drawn := s.drawn + 1, designer := id), id,
        Session(Idle, true, now, Some(route[0])))
  }

  function DesignEvents(id: nat, route: seq<Address>, now: nat): seq<Event> {
    Opening(id, route, now) + Answers(id, |route|) + [LookUp(id)] + [Connected(id, Works)]
  }

  lemma ClosingSteps(s: State, id: nat, route: seq<Address>, now: nat)
    requires CanDesign(s, id, route, now)
    ensures Step(Step(Midway(s, id, route, now, |route|, Handshaking(|route|)), LookUp(id)), Connected(id, Works))
         == Designed(s, id, route, now)
  {
  }

  lemma DesignRuns(s: State, id: nat, route: seq<Address>, now: nat)
    requires CanDesign(s, id, route, now)
    ensures Run(s, DesignEvents(id, route, now)) == Designed(s, id, route, now)
  {
    var n, opening := |route|, Opening(id, route, now);
    OpeningRuns(s, id, route, now);
    AnswersRun(s, id, route, now, n);
    RunAppend(s, opening, Answers(id, n));
    RunThen(s, opening + Answers(id, n), LookUp(id));
    RunThen(s, opening + Answers(id, n) + [LookUp(id)], Connected(id, Works));
    ClosingSteps(s, id, route, now);
  }

  /** Unless the mutex is locked for ever, a front end can connect in every state, also after others have
      ended, design a path along any 3 to 10 relays and send: when no other session comes between, its
      packet arrives, and the exit reads what was typed. */
  lemma DesignDelivers(s: State, id: nat, route: seq<Address>, text: Bytes, now: nat)
    requires !s.jammed && id !in s.sessions && MIN_PATH <= |route| <= MAX_PATH && now < TWO_64
    requires text != [] && ParseCommand(text) == Data && Forwardable(Typed(text))
    ensures var t := Run(s, [Connect(id)] + DesignEvents(id, route, now) + [Line(id, text, now, Works)]);
      |t.log| == |s.log| + 1 && t.log[..|s.log|] == s.log && SafeSend(t.log[|s.log|])
      && ExitDispatch(t.log[|s.log|].plaintext) == Typed(text)
  {
    var joined := Step(s, Connect(id));
    var ready := Designed(joined, id, route, now);
    RunThen(s, [], Connect(id));
    assert [] + [Connect(id)] == [Connect(id)];
    DesignRuns(joined, id, route, now);
    RunAppend(s, [Connect(id)], DesignEvents(id, route, now));
    RunThen(s, [Connect(id)] + DesignEvents(id, route, now), Line(id, text, now, Works));
    DesignedSends(joined, id, route, text, now);
  }

  lemma DesignedSends(s: State, id: nat, route: seq<Address>, text: Bytes, now: nat)
    requires CanDesign(s, id, route, now) && now < TWO_64
    requires text != [] && ParseCommand(text) == Data && Forwardable(Typed(text))
    ensures var t := Step(Designed(s, id, route, now), Line(id, text, now, Works));
      |t.log| == |s.log| + 1 && t.log[..|s.log|] == s.log && SafeSend(t.log[|s.log|])
      && ExitDispatch(t.log[|s.log|].plaintext) == Typed(text)
  {
    var ready := Designed(s, id, route, now);
    DataLineOutcome(ready, id, text, now, Works);
    ArrivesIff(route[0], ready.path);
  }

  // ----------------------------------------------- two runs with two front ends

  /** Session 0 completes, session 1 designs and completes, and session 0 sends over its old connection. */
  lemma OldEntryRun(r: seq<Address>, q: seq<Address>) returns (events: seq<Event>)
    requires |r| == 3 && |q| == 3 && r[0] != q[0]
    ensures var s := Run(START, events);
      |s.log| == 1 && AllKeyed(s.log[0].relays) && NoneMisplaced(s.log[0].relays, 0) && !SafeSend(s.log[0])
  {
    DataLineParses();
    var s1 := Step(START, Connect(0));
    var s2 := Designed(s1, 0, r, 1);
    var s3 := Step(s2, Connect(1));
    var s4 := Designed(s3, 1, q, 1);
    var f := Line(0, DATA_LINE, 1, Works);
    RunThen(START, [], Connect(0));
    DesignRuns(s1, 0, r, 1);
    RunAppend(START, [Connect(0)], DesignEvents(0, r, 1));
    RunThen(START, [Connect(0)] + DesignEvents(0, r, 1), Connect(1));
    DesignRuns(s3, 1, q, 1);
    RunAppend(START, [Connect(0)] + DesignEvents(0, r, 1) + [Connect(1)], DesignEvents(1, q, 1));
    events := [Connect(0)] + DesignEvents(0, r, 1) + [Connect(1)] + DesignEvents(1, q, 1) + [f];
    RunThen(START, [Connect(0)] + DesignEvents(0, r, 1) + [Connect(1)] + DesignEvents(1, q, 1), f);
    LostAtOldEntry(s4, r[0], q);
    OutgoingLogged(s4, f);
  }

  lemma LostAtOldEntry(s: State, former: Address, q: seq<Address>)
    requires !s.jammed && IsIdle(s, 0) && s.sessions[0] == Session(Idle, true, 1, Some(former))
    requires |q| == 3 && s.path == Keyed(q, 3) && s.age == 0 && former != q[0]
    ensures var x := Outgoing(s, Line(0, DATA_LINE, 1, Works));
      x.Some? && x.value.relays == s.path && !SafeSend(x.value)
      && AllKeyed(s.path) && NoneMisplaced(s.path, 0)
  {
    DataLineParses();
  }

  function BothWaiting(a: Address, b: Address): map<nat, Session> {
    map[0 := Session(Waiting(1, a), false, 1, None), 1 := Session(Waiting(1, b), false, 1, None)]
  }

  /** The events from a design line to the second handshake. */
  function HalfEvents(id: nat, route: seq<Address>): seq<Event> {
    Opening(id, route, 1) + Answers(id, 1) + [LookUp(id)]
  }

  lemma HalfRuns(s: State, id: nat, route: seq<Address>)
    requires CanDesign(s, id, route, 1)
    ensures Run(s, HalfEvents(id, route)) == Midway(s, id, route, 1, 1, Waiting(1, route[1]))
  {
    OpeningRuns(s, id, route, 1);
    AnswersRun(s, id, route, 1, 1);
    AskStep(s, id, route, 1, 1);
    RunAppend(s, Opening(id, route, 1), Answers(id, 1));
    RunThen(s, Opening(id, route, 1) + Answers(id, 1), LookUp(id));
  }

  /** The state of both sessions after session 0 began a handshake with a relay of its route `r`, and
      session 1 drew the route `q` and began its second handshake. */
  lemma TwoWaiting(r: seq<Address>, q: seq<Address>) returns (events: seq<Event>, s: State)
    requires |r| == 3 && |q| == 3
    ensures s == Run(START, events) && !s.jammed && !s.stopped && s.log == [] && s.age == 0
    ensures s.path == Keyed(q, 1) && s.designer == 1
    ensures s.sessions == BothWaiting(r[1], q[1])
  {
    var s1 := Step(START, Connect(0));
    var s2 := Midway(s1, 0, r, 1, 1, Waiting(1, r[1]));
    var s3 := Step(s2, Connect(1));
    var first := [Connect(0)] + HalfEvents(0, r);
    RunThen(START, [], Connect(0));
    HalfRuns(s1, 0, r);
    RunAppend(START, [Connect(0)], HalfEvents(0, r));
    RunThen(START, first, Connect(1));
    HalfRuns(s3, 1, q);
    RunAppend(START, first + [Connect(1)], HalfEvents(1, q));
    events := first + [Connect(1)] + HalfEvents(1, q);
    s := Midway(s3, 1, q, 1, 1, Waiting(1, q[1]));
  }

  /** The late answer is stored with a relay of the other route; session 0 goes on to the end of that
      route, connects to its first relay and sends: all relays hold keys, the packet goes to the
      right entry, and still it is lost. */
  lemma LateAnswerRun(r: seq<Address>, q: seq<Address>) returns (events: seq<Event>, e: Event)
    requires |r| == 3 && |q| == 3 && r[1] != q[1]
    ensures var s := Run(START, events);
      Outgoing(s, e).Some? && !Unfinished(s) && Outgoing(s, e).value.to == s.path[0].address
      && !SafeSend(Outgoing(s, e).value)
  {
    var first, s := TwoWaiting(r, q);
    var t1 := Step(s, Answer(0, Works));
    var t2 := Step(t1, LookUp(0));
    var t3 := Step(t2, Answer(0, Works));
    var t4 := Step(t3, LookUp(0));
    var t5 := Step(t4, Connected(0, Works));
    LateStore(s, t1, t2, t3, r, q);
    LateConnect(t3, t4, t5);
    FiveMore(first);
    events := first + [Answer(0, Works)] + [LookUp(0)] + [Answer(0, Works)] + [LookUp(0)] + [Connected(0, Works)];
    e := Line(0, DATA_LINE, 1, Works);
    RunKeepsInv(START, events);
    LateVerdict(t5, q[0]);
  }

  lemma FiveMore(first: seq<Event>)
    ensures Run(START, first + [Answer(0, Works)] + [LookUp(0)] + [Answer(0, Works)] + [LookUp(0)]
                       + [Connected(0, Works)])
         == Step(Step(Step(Step(Step(Run(START, first), Answer(0, Works)), LookUp(0)), Answer(0, Works)), LookUp(0)),
                 Connected(0, Works))
  {
    RunThen(START, first, Answer(0, Works));
    RunThen(START, first + [Answer(0, Works)], LookUp(0));
    RunThen(START, first + [Answer(0, Works)] + [LookUp(0)], Answer(0, Works));
    RunThen(START, first + [Answer(0, Works)] + [LookUp(0)] + [Answer(0, Works)], LookUp(0));
    RunThen(START, first + [Answer(0, Works)] + [LookUp(0)] + [Answer(0, Works)] + [LookUp(0)], Connected(0, Works));
  }

  lemma LateVerdict(s: State, entry: Address)
    requires Inv(s) && !s.jammed && s.age == 0 && IsIdle(s, 0) && s.sessions[0] == Session(Idle, true, 1, Some(entry))
    requires |s.path| == 3 && AllKeyed(s.path) && Misplaced(s.path[1]) && s.path[0].address == entry
    ensures var x := Outgoing(s, Line(0, DATA_LINE, 1, Works));
      x.Some? && !Unfinished(s) && x.value.to == s.path[0].address && !SafeSend(x.value)
  {
    DataLineParses();
    KeyedIffFinished(s);
    MisplacedLost(s.path, 1, entry);
  }

  lemma LateStore(s: State, t1: State, t2: State, t3: State, r: seq<Address>, q: seq<Address>)
    requires |r| == 3 && |q| == 3 && r[1] != q[1] && !s.jammed && !s.stopped && s.age == 0 && s.path == Keyed(q, 1)
    requires s.sessions == BothWaiting(r[1], q[1])
    requires t1 == Step(s, Answer(0, Works)) && t2 == Step(t1, LookUp(0)) && t3 == Step(t2, Answer(0, Works))
    ensures !t3.jammed && !t3.stopped && t3.age == 0
    ensures 0 in t3.sessions && t3.sessions[0] == Session(Handshaking(3), false, 1, None)
    ensures |t3.path| == 3 && AllKeyed(t3.path) && Misplaced(t3.path[1]) && t3.path[0].address == q[0]
  {
    assert |t1.path| == 3 && t1.sessions[0] == Session(Handshaking(2), false, 1, None) && !t1.jammed;
    assert t1.path[0] == s.path[0] && t1.path[2] == s.path[2] && t1.path[1].key.value.of == r[1];
    assert t2.path == t1.path && t2.sessions[0] == Session(Waiting(2, q[2]), false, 1, None) && !t2.jammed;
    assert t3.path[0] == s.path[0] && t3.path[1] == t1.path[1] && t3.path[2].key.Some?;
  }

  lemma LateConnect(t3: State, t4: State, t5: State)
    requires !t3.jammed && !t3.stopped && 0 in t3.sessions
    requires t3.sessions[0] == Session(Handshaking(3), false, 1, None) && |t3.path| == 3
    requires t4 == Step(t3, LookUp(0)) && t5 == Step(t4, Connected(0, Works))
    ensures !t5.jammed && t5.age == t3.age && t5.path == t3.path
    ensures IsIdle(t5, 0) && t5.sessions[0] == Session(Idle, true, 1, Some(t3.path[0].address))
  {
  }

  // ------------------------------------------------------------------ the object

  /** The shared fields of the client, and the local variables of its session threads. */
  class Client {
    var sessions: map<nat, Session>
    var stopElectron: bool
    var mutexLeftLocked: bool
    var currentPath: seq<Relay>
    var currentPathAliveTime: nat
    var timers: nat
    var drawn: nat
    var designer: nat
    var log: seq<Sent>

    function Current(): State
      reads this
    {
      State(sessions, stopElectron, mutexLeftLocked, currentPath, currentPathAliveTime, timers, drawn, designer, log)
    }

    constructor ()
      ensures Current() == START
    {
      sessions, stopElectron, mutexLeftLocked, currentPath, currentPathAliveTime := map[], false, false, [], 0;
      timers, drawn, designer, log := 0, 0, 0, [];
    }

    /** The start of a session's thread. */
    method AcceptElectron(id: nat)
      requires id !in sessions && !mutexLeftLocked
      modifies this
      ensures Current() == Step(old(Current()), Connect(id))
    {
      stopElectron := false;
      sessions := sessions[id := Session(Idle, false, 0, None)];
    }

    method StopCurrentConnection(id: nat)
      modifies this
      ensures Current() == Stop(old(Current()), id)
    {
      currentPath := [];
      stopElectron := true;
      sessions := sessions - {id};
    }

    method EndTurn(id: nat)
      modifies this`sessions
      ensures Current() == NextTurn(old(Current()), id)
    {
      if stopElectron {
        sessions := sessions - {id};
      }
    }

    method SplitResponseAndSend(id: nat, text: Bytes, fails: bool)
      requires id in sessions && sessions[id].entry.Some?
      modifies this
      ensures Current() == Send(old(Current()), id, text, fails)
    {
      var action := ClientDispatch(text);
      if action.Throw? {
        StopCurrentConnection(id);
        return;
      }
      if action.SendPlain? {
        if fails || |currentPath| < MIN_PATH || currentPathAliveTime > PATH_TIMEOUT {
          if ParseDestination(text).None? {
            StopCurrentConnection(id);
            return;
          }
        } else {
          log := log + [Sent(sessions[id].entry.value, currentPath, currentPathAliveTime, action.plaintext)];
        }
      }
      EndTurn(id);
    }

    /** One turn of the loop in `handleClient`, up to its first wait. */
    method HandleLine(id: nat, text: Bytes, now: nat, link: Link)
      requires IsIdle(Current(), id) && !mutexLeftLocked
      modifies this
      ensures Current() == Step(old(Current()), Line(id, text, now, link))
    {
      var x := sessions[id];
      if x.lastReceived != 0 && (now - x.lastReceived) % TWO_64 > ELECTRON_TIMEOUT {
        StopCurrentConnection(id);
        return;
      }
      if text == [] {
        EndTurn(id);
        return;
      }
      sessions := sessions[id := x.(lastReceived := now)];
      HandleCommand(id, text, link);
    }

    method HandleCommand(id: nat, text: Bytes, link: Link)
      requires id in sessions
      modifies this
      ensures Current() == Obey(old(Current()), id, text, link)
    {
      var command, x := ParseCommand(text), sessions[id];
      if command.Garbled? {
        StopCurrentConnection(id);
      } else if command.DesignPath? {
        currentPath := [];
        if command.length < MIN_PATH {
          EndTurn(id);
        } else {
          sessions := sessions[id := x.(phase := Asking(command.length))];
        }
      } else if currentPathAliveTime > PATH_TIMEOUT {
        currentPath := [];
        sessions := sessions[id := x.(pathDesignComplete := false)];
        EndTurn(id);
      } else if !x.pathDesignComplete || |currentPath| < MIN_PATH {
        EndTurn(id);
      } else if link == Broken || x.entry.None? {
        sessions := sessions[id := x.(phase := Connecting(currentPath[0].address, Some(text)))];
      } else {
        SplitResponseAndSend(id, text, link == SendFails);
      }
    }

    /** The loop draws one relay after the other; `route` is what the random choices amount to. */
    method StartPathDesign(id: nat, route: seq<Address>)
      requires id in sessions && sessions[id].phase.Asking? && |route| == Clamp(sessions[id].phase.length)
      requires !mutexLeftLocked
      modifies this
      ensures Current() == Step(old(Current()), Draw(id, Some(route)))
    {
      ghost var before := Current();
      var path: seq<Relay> := [];
      var i := 0;
      while i < |route|
        invariant 0 <= i <= |route| && path == Fresh(route[..i])
        invariant Current() == before
      {
        path := path + [Relay(route[i], None)];
        i := i + 1;
      }
      assert route[..i] == route;
      currentPath, currentPathAliveTime := path, 0;
      drawn, designer := drawn + 1, id;
      sessions := sessions[id := sessions[id].(phase := Handshaking(0))];
    }

    /** The head of the loop in `handshakeWithCurrentPath`, and what follows the loop. */
    method NextRelay(id: nat)
      requires id in sessions && sessions[id].phase.Handshaking? && !mutexLeftLocked
      modifies this
      ensures Current() == Step(old(Current()), LookUp(id))
    {
      var x := sessions[id];
      var i := x.phase.next;
      if i < |currentPath| {
        sessions := sessions[id := x.(phase := Waiting(i, currentPath[i].address))];
        return;
      }
      timers := timers + 1;
      x := x.(pathDesignComplete := true);
      if currentPath == [] {
        mutexLeftLocked := true;
      } else {
        x := x.(phase := Connecting(currentPath[0].address, None));
      }
      sessions := sessions[id := x];
    }

    /** The end of `handshakeWithNode`, after the relay has answered. */
    method HandshakeWithNode(id: nat, link: Link)
      requires id in sessions && sessions[id].phase.Waiting? && !mutexLeftLocked
      modifies this
      ensures Current() == Step(old(Current()), Answer(id, link))
    {
      if link == Broken {
        StopCurrentConnection(id);
        return;
      }
      var x := sessions[id];
      var i := x.phase.next;
      if i >= |currentPath| {
        mutexLeftLocked := true;
        return;
      }
      var told := if i < |currentPath| - 1 then Some(currentPath[i + 1].address) else None;
      currentPath := currentPath[i := currentPath[i].(key := Some(Key(x.phase.relay, told)))];
      sessions := sessions[id := x.(phase := Handshaking(i + 1))];
      if link == SendFails {
        mutexLeftLocked := true;
      }
    }

    /** The end of `connectToEntryNode`. */
    method EntryConnected(id: nat, link: Link)
      requires id in sessions && sessions[id].phase.Connecting? && !mutexLeftLocked
      modifies this
      ensures Current() == Step(old(Current()), Connected(id, link))
    {
      if link == Broken {
        StopCurrentConnection(id);
        return;
      }
      var x := sessions[id];
      var line := x.phase.line;
      sessions := sessions[id := x.(phase := Idle, entry := Some(x.phase.entry))];
      if line.Some? {
        SplitResponseAndSend(id, line.value, link == SendFails);
      } else {
        EndTurn(id);
      }
    }

    /** One iteration of `checkConnectionAliveTimer` in one of the timer threads. */
    method TimerTick()
      requires timers > 0 && !mutexLeftLocked
      modifies this
      ensures Current() == Step(old(Current()), Tick)
    {
      currentPathAliveTime := currentPathAliveTime + TICK;
      if currentPathAliveTime > PATH_TIMEOUT {
        currentPath := [];
        timers := timers - 1;
      }
    }
  }
}
