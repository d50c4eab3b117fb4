/**
  * The segment-routing path monitor: the client's and the responder's state machines, and whole runs of
  * the two joined by a network that may lose, reorder and duplicate messages.
  */
module SrMonitor {
  import opened Wrappers
  import opened Bytes
  import opened SrMonitorBody

  // Nanoseconds.
  const PEER_DOWN_AFTER: nat := 5_000_000_000
  const WRAP: nat := 0x1_0000_0000

  /** A 32-bit counter wraps around. */
  function Increment(count: U32): U32 {
    if count + 1 == WRAP then 0 else count + 1
  }

  datatype PathState = Idle | Probing | Established | PeerDown

  datatype Delay = Delay(current: U32, minimum: U32, maximum: U32)
  {
    function Observe(value: U32): Delay {
      Delay(value,
            if minimum == 0 || value < minimum then value else minimum,
            if value > maximum then value else maximum)
    }
  }

  /** The delays after a row of samples. */
  function Observed(d: Delay, samples: seq<U32>): Delay {
    if samples == [] then d else Observed(d, samples[..|samples| - 1]).Observe(samples[|samples| - 1])
  }

  ghost predicate Least(samples: seq<U32>, from: nat, value: U32)
    requires from < |samples|
  {
    (exists i | from <= i < |samples| :: samples[i] == value) && forall i | from <= i < |samples| :: value <= samples[i]
  }

  /**
    * What is recorded: the last sample, the greatest of all, and, because zero also means that there is none yet,
    * the least of those after the last zero.
    */
  lemma {:induction false} RecordedDelays(samples: seq<U32>, from: nat)
    requires from < |samples| && (from > 0 ==> samples[from - 1] == 0)
    requires forall i | from <= i < |samples| :: samples[i] != 0
    ensures var d := Observed(Delay(0, 0, 0), samples);
            && d.current == samples[|samples| - 1]
            && Least(samples, from, d.minimum)
            && (forall i | 0 <= i < |samples| :: samples[i] <= d.maximum)
            && (exists i | 0 <= i < |samples| :: samples[i] == d.maximum)
  {
    var n := |samples| - 1;
    var front := samples[..n];
    GreatestDelay(samples);
    if from < n {
      RecordedDelays(front, from);
      var least := Observed(Delay(0, 0, 0), front).minimum;
      var i :| from <= i < n && front[i] == least;
      assert samples[i] == least;
      var d := Observed(Delay(0, 0, 0), samples);
      assert samples[if d.minimum == least then i else n] == d.minimum;
    } else {
      NoMinimum(front);
      assert samples[n] == Observed(Delay(0, 0, 0), samples).minimum;
    }
  }

  /** After a zero, or at the beginning, no minimum is recorded. */
  lemma NoMinimum(samples: seq<U32>)
    requires samples != [] ==> samples[|samples| - 1] == 0
    ensures Observed(Delay(0, 0, 0), samples).minimum == 0
  {
  }

  lemma {:induction false} GreatestDelay(samples: seq<U32>)
    requires samples != []
    ensures var d := Observed(Delay(0, 0, 0), samples);
            && (forall i | 0 <= i < |samples| :: samples[i] <= d.maximum)
            && (exists i | 0 <= i < |samples| :: samples[i] == d.maximum)
  {
    var n := |samples| - 1;
    var front, d := samples[..n], Observed(Delay(0, 0, 0), samples);
    if n > 0 {
      GreatestDelay(front);
      var most := Observed(Delay(0, 0, 0), front).maximum;
      var i :| 0 <= i < n && front[i] == most;
      assert samples[if d.maximum == most then i else n] == d.maximum;
    } else {
      assert samples[0] == d.maximum;
    }
  }

  datatype Monitor = Monitor(state: PathState, srId: U32, txCount: U32, rxCount: U32, lastResponse: Option<nat>,
                             delay: Delay)

  datatype MonitorError = WrongSrId | CountersDisabled

  predicate Initial(m: Monitor) {
    m.state.Idle? || m.state.PeerDown?
  }

  /** The monitor after it sends a request; the first request of a run restarts the counters. */
  function AfterRequest(m: Monitor): Monitor {
    if Initial(m) then m.(txCount := 1, rxCount := 0, state := Probing)
    else m.(txCount := Increment(m.txCount))
  }

  function RequestBody(m: Monitor, tick: U64): Body {
    var next := AfterRequest(m);
    Body(tick, next.delay.current, next.delay.minimum, next.delay.maximum, next.srId, 0, 0x79,
         if Initial(m) then 1 else 0, next.txCount, next.rxCount)
  }

  function AfterResponse(m: Monitor, response: Body, now: nat, rtt: U32): Result<Monitor, MonitorError> {
    if response.srId != m.srId then Err(WrongSrId)
    else if response.flags / 2 % 2 == 0 then Err(CountersDisabled)
    else Ok(m.(rxCount := response.rxCount, lastResponse := Some(now), delay := m.delay.Observe(rtt),
               state := Established))
  }

  function AfterClock(m: Monitor, now: nat): Monitor {
    if m.lastResponse.Some? && now >= m.lastResponse.value && now - m.lastResponse.value > PEER_DOWN_AFTER
    then m.(state := PeerDown) else m
  }

  datatype Responder = Responder(active: bool, receiveCount: U32)

  predicate Flagged(request: Body) {
    request.flags % 2 != 0
  }

  function AfterHearing(r: Responder, request: Body): Responder {
    if Flagged(request) then Responder(true, 1)
    else if r.active then r.(receiveCount := Increment(r.receiveCount))
    else r
  }

  function Reply(r: Responder, request: Body): Option<Body> {
    if Flagged(request) then Some(request.(flags := 3, rxCount := 1))
    else if r.active then Some(request.(flags := 2, rxCount := AfterHearing(r, request).receiveCount))
    else None
  }

  // ----- the objects

  class SrMonitor {
    const srId: U32
    var state: PathState
    var txCount: U32
    var rxCount: U32
    var lastResponse: Option<nat>
    var delay: Delay

    function View(): Monitor
      reads this
    {
      Monitor(state, srId, txCount, rxCount, lastResponse, delay)
    }

    constructor (srId: U32)
      ensures View() == Monitor(Idle, srId, 0, 0, None, Delay(0, 0, 0))
    {
      this.srId := srId;
      state, txCount, rxCount, lastResponse, delay := Idle, 0, 0, None, Delay(0, 0, 0);
    }

    method Request(tick: U64) returns (body: Body)
      modifies this
      ensures View() == AfterRequest(old(View())) && body == RequestBody(old(View()), tick)
      ensures var first := old(state).Idle? || old(state).PeerDown?;
              && txCount == (if first then 1 else if old(txCount) == 0xffff_ffff then 0 else old(txCount) + 1)
              && rxCount == (if first then 0 else old(rxCount)) && (first ==> state == Probing)
              && body == Body(tick, delay.current, delay.minimum, delay.maximum, srId, 0, 0x79, if first then 1 else 0,
                              txCount, rxCount)
    {
      var initial := state.Idle? || state.PeerDown?;
      if initial {
        txCount, rxCount, state := 1, 0, Probing;
      } else {
        txCount := Increment(txCount);
      }
      body := Body(tick, delay.current, delay.minimum, delay.maximum, srId, 0, 0x79,
                   if initial then 1 else 0, txCount, rxCount);
    }

    method AcceptResponse(response: Body, now: nat, rtt: U32) returns (r: Result<(), MonitorError>)
      modifies this
      ensures r == match AfterResponse(old(View()), response, now, rtt) case Ok(_) => Ok(()) case Err(e) => Err(e)
      ensures View() == if r.Ok? then AfterResponse(old(View()), response, now, rtt).value else old(View())
      ensures r.Ok? <==> response.srId == srId && response.flags % 4 >= 2
      ensures r.Ok? ==> state == Established && rxCount == response.rxCount && lastResponse == Some(now)
    {
      if response.srId != srId { return Err(WrongSrId); }
      if response.flags / 2 % 2 == 0 { return Err(CountersDisabled); }
      rxCount, lastResponse := response.rxCount, Some(now);
      delay := delay.Observe(rtt);
      state := Established;
      return Ok(());
    }

    method UpdatePeerState(now: nat) returns (current: PathState)
      modifies this
      ensures View() == AfterClock(old(View()), now) && current == View().state
      ensures current == if lastResponse.Some? && now > lastResponse.value + 5_000_000_000 then PeerDown else old(state)
    {
      if lastResponse.Some? && now >= lastResponse.value && now - lastResponse.value > PEER_DOWN_AFTER {
        state := PeerDown;
      }
      current := state;
    }
  }

  class SrMonitorResponder {
    var active: bool
    var receiveCount: U32

    function View(): Responder
      reads this
    {
      Responder(active, receiveCount)
    }

    constructor ()
      ensures View() == Responder(false, 0)
    {
      active, receiveCount := false, 0;
    }

    method Respond(request: Body) returns (reply: Option<Body>)
      modifies this
      ensures View() == AfterHearing(old(View()), request) && reply == Reply(old(View()), request)
      ensures reply.Some? <==> request.flags % 2 == 1 || old(active)
      ensures reply.Some? ==> active
      ensures reply.Some? ==>
                reply.value == request.(flags := if request.flags % 2 == 1 then 3 else 2, rxCount := receiveCount)
      ensures reply.Some? && request.flags % 2 == 1 ==> receiveCount == 1
      ensures reply.Some? && request.flags % 2 == 0 ==>
                receiveCount == if old(receiveCount) == 0xffff_ffff then 0 else old(receiveCount) + 1
    {
      if Flagged(request) {
        active, receiveCount := true, 1;
        return Some(request.(flags := 3, rxCount := 1));
      }
      if active {
        receiveCount := Increment(receiveCount);
        return Some(request.(flags := 2, rxCount := receiveCount));
      }
      return None;
    }
  }

  // ----- the two parties and the network

  /**
    * `sent` counts the requests of the run, `copies` the request copies the network added, and `heard` the
    * request copies the responder received; `heardFirst` tells whether the run's first request was among
    * them, and `since` counts those from the latest flagged one on.
    */
  datatype System = System(monitor: Monitor, responder: Responder, requests: multiset<Body>, responses: multiset<Body>,
                           sent: nat, copies: nat, heard: nat, heardFirst: bool, since: nat)

  datatype Step =
    | Send(now: nat, tick: U64)
    | LoseRequest(message: Body)
    | LoseResponse(message: Body)
    | DuplicateRequest(message: Body)
    | DuplicateResponse(message: Body)
    | DeliverRequest(message: Body)
    | DeliverResponse(message: Body, now: nat, rtt: U32)

  /** The monitor loop sends while the peer is not down; the run has fewer than 2^32 requests. */
  predicate Enabled(s: System, step: Step) {
    match step
    case Send(now, _) => !AfterClock(s.monitor, now).state.PeerDown? && s.sent + 1 < WRAP
    case LoseRequest(message) => message in s.requests
    case LoseResponse(message) => message in s.responses
    case DuplicateRequest(message) => message in s.requests
    case DuplicateResponse(message) => message in s.responses
    case DeliverRequest(message) => message in s.requests
    case DeliverResponse(message, _, _) => message in s.responses
  }

  function Apply(s: System, step: Step): System
    requires Enabled(s, step)
  {
    match step
    case Send(now, tick) =>
      var m := AfterClock(s.monitor, now);
      s.(monitor := AfterRequest(m), requests := s.requests + multiset{RequestBody(m, tick)}, sent := s.sent + 1)
    case LoseRequest(message) => s.(requests := s.requests - multiset{message})
    case LoseResponse(message) => s.(responses := s.responses - multiset{message})
    case DuplicateRequest(message) => s.(requests := s.requests + multiset{message}, copies := s.copies + 1)
    case DuplicateResponse(message) => s.(responses := s.responses + multiset{message})
    case DeliverRequest(message) =>
      var reply := Reply(s.responder, message);
      s.(responder := AfterHearing(s.responder, message),
         requests := s.requests - multiset{message},
         responses := if reply.Some? then s.responses + multiset{reply.value} else s.responses,
         heard := s.heard + 1,
         heardFirst := s.heardFirst || message.txCount == 1,
         since := if Flagged(message) then 1 else if s.since > 0 then s.since + 1 else 0)
    case DeliverResponse(message, now, rtt) =>
      var m := AfterResponse(s.monitor, message, now, rtt);
      s.(monitor := if m.Ok? then m.value else s.monitor, responses := s.responses - multiset{message})
  }

  /** A run begins with a new monitor and nothing under way; the responder may have any past. */
  predicate Begins(s: System) {
    && s.monitor.state.Idle? && s.monitor.lastResponse.None? && s.monitor.txCount == 0 && s.monitor.rxCount == 0
    && s.requests == multiset{} && s.responses == multiset{}
    && s.sent == 0 && s.copies == 0 && s.heard == 0 && !s.heardFirst && s.since == 0
  }

  /** It begins clean when the responder is not active from an earlier run either. */
  predicate Start(s: System) {
    Begins(s) && !s.responder.active
  }

  function After(s: System, steps: seq<Step>): Option<System> {
    if steps == [] then Some(s) else
      match After(s, steps[..|steps| - 1])
      case None => None
      case Some(t) => if Enabled(t, steps[|steps| - 1]) then Some(Apply(t, steps[|steps| - 1])) else None
  }

  // ----- what every step keeps

  /** What holds whatever the responder does. */
  ghost predicate ClientInv(s: System) {
    && (s.sent == 0 <==> s.monitor.state.Idle?)
    && !s.monitor.state.PeerDown?
    && s.monitor.txCount == s.sent < WRAP
    && s.heard + |s.requests| <= s.sent + s.copies
    && (s.sent == 0 ==> s.responses == multiset{})
    && (forall b <- s.requests :: 1 <= b.txCount <= s.sent && (Flagged(b) <==> b.txCount == 1))
    && (forall b <- s.requests :: b.srId == s.monitor.srId)
    && (forall b <- s.responses :: b.srId == s.monitor.srId && b.flags / 2 % 2 != 0)
  }

  /** What holds in addition if the responder began inactive. */
  ghost predicate PairInv(s: System) {
    && (s.heardFirst <==> s.since > 0)
    && (s.responder.active <==> s.since > 0)
    && (s.responder.active ==> s.responder.receiveCount == s.since % WRAP)
    && s.since <= s.heard
    && (forall b <- s.responses :: b.rxCount <= s.heard && s.heardFirst)
    && s.monitor.rxCount <= s.heard
    && (s.monitor.state.Established? ==> s.heardFirst)
  }

  lemma SendKeepsClient(s: System, step: Step)
    requires ClientInv(s) && Enabled(s, step) && step.Send?
    ensures ClientInv(Apply(s, step))
  {
    var t := Apply(s, step);
    assert |t.requests| == |s.requests| + 1;
  }

  lemma DeliverRequestKeepsClient(s: System, step: Step)
    requires ClientInv(s) && Enabled(s, step) && step.DeliverRequest?
    ensures ClientInv(Apply(s, step))
  {
    var t := Apply(s, step);
    assert |t.requests| == |s.requests| - 1;
    forall b | b in t.responses ensures b.srId == t.monitor.srId && b.flags / 2 % 2 != 0 {
      if b !in s.responses {
        assert b == Reply(s.responder, step.message).value;
      }
    }
  }

  lemma NetworkKeepsClient(s: System, step: Step)
    requires ClientInv(s) && Enabled(s, step)
    requires step.LoseRequest? || step.LoseResponse? || step.DuplicateRequest? || step.DuplicateResponse?
    ensures ClientInv(Apply(s, step))
  {
    var t := Apply(s, step);
    if step.LoseRequest? {
      assert |t.requests| == |s.requests| - 1;
    } else if step.DuplicateRequest? {
      assert |t.requests| == |s.requests| + 1;
    }
  }

  lemma StepKeepsClient(s: System, step: Step)
    requires ClientInv(s) && Enabled(s, step)
    ensures ClientInv(Apply(s, step))
  {
    match step
    case Send(_, _) => SendKeepsClient(s, step);
    case DeliverRequest(_) => DeliverRequestKeepsClient(s, step);
    case DeliverResponse(_, _, _) =>
    case LoseRequest(_) => NetworkKeepsClient(s, step);
    case LoseResponse(_) => NetworkKeepsClient(s, step);
    case DuplicateRequest(_) => NetworkKeepsClient(s, step);
    case DuplicateResponse(_) => NetworkKeepsClient(s, step);
  }

  /** A wrapping counter that follows a count keeps following it. */
  lemma WrapFollows(n: nat)
    ensures Increment(n % WRAP) == (n + 1) % WRAP && n % WRAP <= n
  {
    var q := n / WRAP;
    assert n + 1 == q * WRAP + (n % WRAP + 1);
  }

  /** The reply to a delivered request, if there is one, counts the copies heard from the latest flagged one on. */
  lemma ReplyCountsCopies(s: System, message: Body)
    requires ClientInv(s) && PairInv(s) && message in s.requests
    ensures var reply, since := Reply(s.responder, message), Apply(s, DeliverRequest(message)).since;
            (reply.Some? <==> since > 0) && (reply.Some? ==> reply.value.rxCount == since % WRAP)
    ensures AfterHearing(s.responder, message).active ==>
              AfterHearing(s.responder, message).receiveCount == Apply(s, DeliverRequest(message)).since % WRAP
  {
    WrapFollows(s.since);
    assert 1 % WRAP == 1;
  }

  lemma DeliverRequestKeepsPair(s: System, step: Step)
    requires ClientInv(s) && PairInv(s) && Enabled(s, step) && step.DeliverRequest?
    ensures PairInv(Apply(s, step))
  {
    var t := Apply(s, step);
    ReplyCountsCopies(s, step.message);
    WrapFollows(t.since);
    forall b | b in t.responses ensures b.rxCount <= t.heard && t.heardFirst {
      if b !in s.responses {
        assert b == Reply(s.responder, step.message).value;
      }
    }
  }

  /** Every send, loss, duplication and delivery keeps the joint invariant of client, responder and network. */
  lemma StepKeeps(s: System, step: Step)
    requires ClientInv(s) && PairInv(s) && Enabled(s, step)
    ensures ClientInv(Apply(s, step)) && PairInv(Apply(s, step))
  {
    StepKeepsClient(s, step);
    if step.DeliverRequest? {
      DeliverRequestKeepsPair(s, step);
    }
  }

  lemma {:induction false} ClientKeeps(s: System, steps: seq<Step>)
    requires Begins(s) && After(s, steps).Some?
    ensures ClientInv(After(s, steps).value)
  {
    if steps != [] {
      ClientKeeps(s, steps[..|steps| - 1]);
      StepKeepsClient(After(s, steps[..|steps| - 1]).value, steps[|steps| - 1]);
    }
  }

  lemma {:induction false} PairKeeps(s: System, steps: seq<Step>)
    requires Start(s) && After(s, steps).Some?
    ensures ClientInv(After(s, steps).value) && PairInv(After(s, steps).value)
  {
    if steps != [] {
      PairKeeps(s, steps[..|steps| - 1]);
      StepKeeps(After(s, steps[..|steps| - 1]).value, steps[|steps| - 1]);
    }
  }

  // ----- safety of whole runs

  /**
    * The received count exceeds the sent one at most by the request copies the network added, and the
    * client is established only if the responder received the run's first request.
    */
  predicate Safe(s: System) {
    && s.monitor.rxCount <= s.monitor.txCount + s.copies
    && (s.monitor.state.Established? ==> s.heardFirst)
  }

  /** Every run that begins with an inactive responder is safe: the network may lose, reorder and duplicate. */
  lemma RunsAreSafe(s: System, steps: seq<Step>)
    requires Start(s) && After(s, steps).Some?
    ensures Safe(After(s, steps).value)
  {
    PairKeeps(s, steps);
  }

  ghost predicate EveryRunSafe(s: System) {
    forall steps | After(s, steps).Some? :: Safe(After(s, steps).value)
  }

  lemma OneStepMore(s: System, steps: seq<Step>, t: System, step: Step)
    requires After(s, steps) == Some(t) && Enabled(t, step)
    ensures After(s, steps + [step]) == Some(Apply(t, step))
  {
    assert (steps + [step])[..|steps|] == steps;
  }

  /** The first request of a run is sent and lost. */
  lemma FirstLost(s: System) returns (steps: seq<Step>, t: System)
    requires Begins(s)
    ensures After(s, steps) == Some(t) && t.monitor == AfterRequest(s.monitor) && t.responder == s.responder
    ensures t.requests == multiset{} && t.sent == 1 && t.copies == 0 && !t.heardFirst
  {
    var first := RequestBody(s.monitor, 0);
    var a := Apply(s, Send(0, 0));
    assert a.requests == multiset{first};
    OneStepMore(s, [], s, Send(0, 0));
    OneStepMore(s, [Send(0, 0)], a, LoseRequest(first));
    assert [] + [Send(0, 0)] == [Send(0, 0)];
    t := Apply(a, LoseRequest(first));
    assert t.requests == multiset{};
    steps := [Send(0, 0)] + [LoseRequest(first)];
  }

  /** A request is sent and delivered over an otherwise empty network. */
  lemma SentAndHeard(s: System, before: seq<Step>, u: System) returns (steps: seq<Step>, t: System, request: Body)
    requires After(s, before) == Some(u) && ClientInv(u) && u.sent + 1 < WRAP && u.requests == multiset{}
    requires u.monitor.lastResponse.None?
    ensures request == RequestBody(u.monitor, 0) && After(s, steps) == Some(t)
    ensures t.monitor == AfterRequest(u.monitor) && t.responder == AfterHearing(u.responder, request)
    ensures t.requests == multiset{} && t.sent == u.sent + 1 && t.copies == u.copies
    ensures t.heardFirst == (u.heardFirst || request.txCount == 1)
    ensures var reply := Reply(u.responder, request);
            t.responses == if reply.Some? then u.responses + multiset{reply.value} else u.responses
  {
    request := RequestBody(u.monitor, 0);
    var a := Apply(u, Send(0, 0));
    assert a.requests == multiset{request};
    OneStepMore(s, before, u, Send(0, 0));
    OneStepMore(s, before + [Send(0, 0)], a, DeliverRequest(request));
    t := Apply(a, DeliverRequest(request));
    assert t.requests == multiset{};
    steps := before + [Send(0, 0)] + [DeliverRequest(request)];
  }

  /**
    * A responder still active from an earlier run answers the second request although the first was lost:
    * the client is then established, with whatever count the responder had plus one.
    */
  lemma ActiveResponderMisleads(s: System) returns (steps: seq<Step>)
    requires Begins(s) && s.responder.active
    ensures After(s, steps).Some?
    ensures var t := After(s, steps).value;
            && t.copies == 0 && t.monitor.state.Established? && !t.heardFirst
            && t.monitor.txCount == 2 && t.monitor.rxCount == Increment(s.responder.receiveCount)
  {
    var before, lost := FirstLost(s);
    ClientKeeps(s, before);
    var middle, heard, second := SentAndHeard(s, before, lost);
    SecondRequest(s.monitor, second);
    var reply := ActiveReply(s.responder, second);
    ClientKeeps(s, middle);
    assert reply in heard.responses;
    steps := ResponseAccepted(s, middle, heard, reply);
  }

  lemma ActiveReply(r: Responder, request: Body) returns (reply: Body)
    requires r.active && !Flagged(request)
    ensures Reply(r, request) == Some(reply) && reply.rxCount == Increment(r.receiveCount)
  {
    reply := Reply(r, request).value;
  }

  lemma SecondRequest(m: Monitor, second: Body)
    requires m.state.Idle? && second == RequestBody(AfterRequest(m), 0)
    ensures !Flagged(second) && second.txCount == 2 && AfterRequest(AfterRequest(m)).txCount == 2
  {
  }

  /** A response under way is delivered. */
  lemma ResponseAccepted(s: System, before: seq<Step>, u: System, b: Body) returns (steps: seq<Step>)
    requires After(s, before) == Some(u) && ClientInv(u) && b in u.responses
    ensures After(s, steps).Some?
    ensures var t := After(s, steps).value;
            && t.copies == u.copies && t.heardFirst == u.heardFirst && t.monitor.state.Established?
            && t.monitor.txCount == u.monitor.txCount && t.monitor.rxCount == b.rxCount
  {
    OneStepMore(s, before, u, DeliverResponse(b, 0, 0));
    steps := before + [DeliverResponse(b, 0, 0)];
  }

  /** From a new monitor and an empty network, every run is safe exactly when the responder begins inactive. */
  lemma SafeExactlyFromInactive(s: System)
    requires Begins(s)
    ensures EveryRunSafe(s) <==> !s.responder.active
  {
    if s.responder.active {
      var steps := ActiveResponderMisleads(s);
      assert !Safe(After(s, steps).value);
    } else {
      forall steps | After(s, steps).Some? ensures Safe(After(s, steps).value) {
        RunsAreSafe(s, steps);
      }
    }
  }

  /** Only the first request of a run carries the restart flag, whatever the responder's past. */
  lemma OnlyFirstRequestFlagged(s: System, steps: seq<Step>, now: nat, tick: U64)
    requires Begins(s) && After(s, steps).Some? && Enabled(After(s, steps).value, Send(now, tick))
    ensures var t := After(s, steps).value;
            Flagged(RequestBody(AfterClock(t.monitor, now), tick)) <==> t.sent == 0
  {
    ClientKeeps(s, steps);
    FlagMeansFirst(After(s, steps).value, now, tick);
  }

  lemma FlagMeansFirst(t: System, now: nat, tick: U64)
    requires ClientInv(t) && Enabled(t, Send(now, tick))
    ensures Flagged(RequestBody(AfterClock(t.monitor, now), tick)) <==> t.sent == 0
  {
  }

  // ----- exactly when the received count overtakes the sent one

  ghost predicate Overtakes(s: System) {
    s.monitor.rxCount > s.monitor.txCount
  }

  /** The received count is ahead, or a response under way would put it ahead. */
  ghost predicate Threatened(s: System) {
    Overtakes(s) || exists b <- s.responses :: Overtakes(Apply(s, DeliverResponse(b, 0, 0)))
  }

  /** More copies were heard from the latest flagged one on, as the responder counts them, than requests sent. */
  ghost predicate Overrun(s: System) {
    s.since % WRAP > s.sent
  }

  /** Some state of the run, from its beginning to its end, has the property. */
  ghost predicate Sometime(s: System, steps: seq<Step>, p: System -> bool) {
    || (After(s, steps).Some? && p(After(s, steps).value))
    || (steps != [] && Sometime(s, steps[..|steps| - 1], p))
  }

  lemma ThreatIsCount(s: System)
    requires ClientInv(s)
    ensures Threatened(s) <==> s.monitor.rxCount > s.sent || exists b <- s.responses :: b.rxCount > s.sent
  {
    forall b | b in s.responses ensures Overtakes(Apply(s, DeliverResponse(b, 0, 0))) <==> b.rxCount > s.sent {
    }
  }

  /** Where a step brings a threat, the state was threatened before or is overrun after. */
  lemma ThreatOrigin(s: System, step: Step)
    requires ClientInv(s) && PairInv(s) && Enabled(s, step) && Threatened(Apply(s, step))
    ensures Threatened(s) || Overrun(Apply(s, step))
  {
    var t := Apply(s, step);
    StepKeepsClient(s, step);
    ThreatIsCount(s);
    ThreatIsCount(t);
    if t.monitor.rxCount > t.sent {
      AheadOrigin(s, step);
    } else {
      var b :| b in t.responses && b.rxCount > t.sent;
      if b !in s.responses {
        NewResponse(s, step, b);
      } else {
        assert b.rxCount > s.sent;
      }
    }
  }

  lemma AheadOrigin(s: System, step: Step)
    requires ClientInv(s) && Enabled(s, step) && Apply(s, step).monitor.rxCount > Apply(s, step).sent
    ensures s.monitor.rxCount > s.sent || exists b <- s.responses :: b.rxCount > s.sent
  {
    if step.DeliverResponse? {
      assert step.message in s.responses;
    }
  }

  lemma NewResponse(s: System, step: Step, b: Body)
    requires ClientInv(s) && PairInv(s) && Enabled(s, step)
    requires b in Apply(s, step).responses && b !in s.responses
    ensures step.DeliverRequest? && b.rxCount == Apply(s, step).since % WRAP
  {
    if step.DeliverRequest? {
      ReplyCountsCopies(s, step.message);
    }
  }

  /** Where a step brings an overrun, the state was overrun before or the reply it adds is a threat. */
  lemma OverrunOrigin(s: System, step: Step)
    requires ClientInv(s) && PairInv(s) && Enabled(s, step) && Overrun(Apply(s, step))
    ensures Overrun(s) || Threatened(Apply(s, step))
  {
    if step.DeliverRequest? {
      var t := Apply(s, step);
      ReplyCountsCopies(s, step.message);
      StepKeeps(s, step);
      ThreatIsCount(t);
      assert Reply(s.responder, step.message).value in t.responses;
    }
  }

  /**
    * In every run, over a network that loses, reorders and duplicates, the received count can overtake the
    * sent one if and only if at some point more request copies, as the responder counts them from the latest
    * flagged one on, had been delivered than requests sent.
    */
  lemma {:induction false} OvertakesExactlyWhenOverrun(s: System, steps: seq<Step>)
    requires Start(s) && After(s, steps).Some?
    ensures Sometime(s, steps, t => Threatened(t)) <==> Sometime(s, steps, t => Overrun(t))
  {
    PairKeeps(s, steps);
    var t := After(s, steps).value;
    if steps != [] {
      var front, last := steps[..|steps| - 1], steps[|steps| - 1];
      OvertakesExactlyWhenOverrun(s, front);
      PairKeeps(s, front);
      var before := After(s, front).value;
      SometimeNow(s, front, before);
      if Threatened(t) {
        ThreatOrigin(before, last);
      }
      if Overrun(t) {
        OverrunOrigin(before, last);
      }
    } else {
      ThreatIsCount(s);
    }
  }

  lemma SometimeNow(s: System, steps: seq<Step>, t: System)
    requires After(s, steps) == Some(t)
    ensures Threatened(t) ==> Sometime(s, steps, u => Threatened(u))
    ensures Overrun(t) ==> Sometime(s, steps, u => Overrun(u))
  {
  }

  /** Without added request copies there is no overrun, so the count never overtakes. */
  lemma NoCopiesNoOverrun(s: System, steps: seq<Step>)
    requires Start(s) && After(s, steps).Some? && After(s, steps).value.copies == 0
    ensures !Overrun(After(s, steps).value) && !Threatened(After(s, steps).value)
  {
    PairKeeps(s, steps);
    NoOverrunYet(After(s, steps).value);
  }

  lemma NoOverrunYet(t: System)
    requires ClientInv(t) && PairInv(t) && t.copies == 0
    ensures !Overrun(t) && !Threatened(t)
  {
    ThreatIsCount(t);
    WrapFollows(t.since);
    assert t.heard <= t.sent;
  }

  /** One duplicated request is enough: three copies heard after two requests sent. */
  lemma DuplicationOvertakes(s: System) returns (steps: seq<Step>)
    requires Start(s)
    ensures After(s, steps).Some?
    ensures var t := After(s, steps).value;
            t.copies == 1 && t.monitor.txCount == 2 && t.monitor.rxCount == 3
  {
    ClientKeeps(s, []);
    var early, once, first := SentAndHeard(s, [], s);
    assert once.responder == Responder(true, 1);
    var middle, a, second := SentAlone(s, early, once);
    SecondRequest(s.monitor, second);
    var b, late := HeardTwice(s, middle, a, second);
    ClientKeeps(s, late);
    ThirdCount(second);
    steps := ResponseAccepted(s, late, b, Reply(AfterHearing(a.responder, second), second).value);
  }

  lemma ThirdCount(request: Body)
    requires !Flagged(request)
    ensures var reply := Reply(AfterHearing(Responder(true, 1), request), request);
            reply.Some? && reply.value.rxCount == 3
  {
  }

  lemma SentAlone(s: System, before: seq<Step>, u: System) returns (steps: seq<Step>, t: System, request: Body)
    requires After(s, before) == Some(u) && u.sent + 1 < WRAP && u.requests == multiset{}
    requires u.monitor.lastResponse.None? && !u.monitor.state.PeerDown?
    ensures After(s, steps) == Some(t) && request == RequestBody(u.monitor, 0)
    ensures t.requests == multiset{request} && t.responder == u.responder
    ensures t.copies == u.copies && t.monitor == AfterRequest(u.monitor)
  {
    request := RequestBody(u.monitor, 0);
    t := Apply(u, Send(0, 0));
    assert t.requests == multiset{request};
    OneStepMore(s, before, u, Send(0, 0));
    steps := before + [Send(0, 0)];
  }

  /** A request under way alone is duplicated, and both copies are delivered to an active responder. */
  lemma HeardTwice(s: System, before: seq<Step>, u: System, request: Body) returns (t: System, steps: seq<Step>)
    requires After(s, before) == Some(u) && u.requests == multiset{request} && u.responder.active && !Flagged(request)
    ensures After(s, steps) == Some(t) && t.monitor == u.monitor && t.copies == u.copies + 1
    ensures Reply(AfterHearing(u.responder, request), request).value in t.responses
  {
    var c := Apply(u, DuplicateRequest(request));
    assert c.requests == multiset{request, request};
    OneStepMore(s, before, u, DuplicateRequest(request));
    var d := Apply(c, DeliverRequest(request));
    assert d.requests == multiset{request};
    OneStepMore(s, before + [DuplicateRequest(request)], c, DeliverRequest(request));
    t := Apply(d, DeliverRequest(request));
    OneStepMore(s, before + [DuplicateRequest(request)] + [DeliverRequest(request)], d, DeliverRequest(request));
    steps := before + [DuplicateRequest(request)] + [DeliverRequest(request)] + [DeliverRequest(request)];
  }
}
