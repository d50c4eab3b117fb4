/**
  * The traditional two-fragment reassembler: one pending fragment per (context, id), matched by its EOP
  * mark within 100 ms, the oldest evicted when 256 are pending.
  */
module TraditionalReassembly {
  import opened Wrappers
  import opened Sets
  import opened Bytes
  import opened Fragments

  // Nanoseconds.
  const TIMEOUT: nat := 100_000_000
  const MAX_GROUPS: nat := 256

  datatype Key = Key(context: Byte, id: U32)

  datatype Pending = Pending(created: nat, fragment: Fragment)

  type Groups = map<Key, Pending>

  datatype Event = Event(context: Byte, fragment: Fragment, now: nat)
  {
    function EventKey(): Key {
      Key(context, fragment.id)
    }

    /** An arrival that is taken into account under its key: oversized ones are refused first. */
    predicate Counts(key: Key) {
      EventKey() == key && |fragment.data| <= MAX_PACKET
    }
  }

  type Answer = Result<Option<seq<Byte>>, Error>

  predicate Expired(p: Pending, now: nat) {
    now >= p.created && now - p.created > TIMEOUT
  }

  function Live(groups: Groups, now: nat): Groups {
    map k | k in groups && !Expired(groups[k], now) :: groups[k]
  }

  /** The bytes of the unmarked fragment followed by those of the marked one. */
  function Joined(first: Fragment, second: Fragment): seq<Byte> {
    if first.endOfPacket then second.data + first.data else first.data + second.data
  }

  predicate Oldest(groups: Groups, victim: Key) {
    victim in groups && forall k <- groups :: groups[victim].created <= groups[k].created
  }

  /** A new pending fragment, after an eviction if the table is full; among equally old ones any may go. */
  ghost predicate Admitted(live: Groups, key: Key, p: Pending, after: Groups) {
    if |live| < MAX_GROUPS then after == live[key := p]
    else exists victim :: Oldest(live, victim) && after == (live - {victim})[key := p]
  }

  /** One insert. */
  ghost predicate Step(before: Groups, e: Event, after: Groups, answer: Answer) {
    var live, key, f := Live(before, e.now), e.EventKey(), e.fragment;
    if |f.data| > MAX_PACKET then
      after == live && answer == Err(FragmentTooLarge)
    else if key !in live then
      Admitted(live, key, Pending(e.now, f), after) && answer == Ok(None)
    else if live[key].fragment.endOfPacket == f.endOfPacket then
      after == live[key := Pending(e.now, f)] && answer == Ok(None)
    else
      && after == live - {key}
      && answer == if |live[key].fragment.data| + |f.data| > MAX_PACKET then Err(FragmentTooLarge)
                   else Ok(Some(Joined(live[key].fragment, f)))
  }

  class TraditionalFragmentReassembler {
    var groups: Groups

    constructor ()
      ensures groups == map[]
    {
      groups := map[];
    }

    method Clear()
      modifies this
      ensures groups == map[]
    {
      groups := map[];
    }

    method PurgeExpired(now: nat)
      modifies this
      ensures groups == Live(old(groups), now)
    {
      groups := map k | k in groups && !Expired(groups[k], now) :: groups[k];
    }

    method FindOldest() returns (victim: Key)
      requires groups != map[]
      ensures Oldest(groups, victim)
    {
      victim :| victim in groups;
      var rest := groups.Keys - {victim};
      while rest != {}
        invariant victim in groups && rest <= groups.Keys
        invariant forall k <- groups :: k in rest || groups[victim].created <= groups[k].created
        decreases |rest|
      {
        var k :| k in rest;
        if groups[k].created < groups[victim].created {
          victim := k;
        }
        rest := rest - {k};
      }
    }

    method InsertInContext(context: Byte, fragment: Fragment, now: nat) returns (answer: Answer)
      modifies this
      ensures Step(old(groups), Event(context, fragment, now), groups, answer)
    {
      PurgeExpired(now);
      if |fragment.data| > MAX_PACKET {
        return Err(FragmentTooLarge);
      }
      var key := Key(context, fragment.id);
      if key in groups {
        var first := groups[key].fragment;
        if first.endOfPacket == fragment.endOfPacket {
          groups := groups[key := Pending(now, fragment)];
          return Ok(None);
        }
        groups := groups - {key};
        if |first.data| + |fragment.data| > MAX_PACKET {
          return Err(FragmentTooLarge);
        }
        return Ok(Some(Joined(first, fragment)));
      }
      if |groups| >= MAX_GROUPS {
        var victim := FindOldest();
        groups := groups - {victim};
      }
      groups := groups[key := Pending(now, fragment)];
      return Ok(None);
    }
  }

  // ----- whole histories

  ghost predicate IsRun(events: seq<Event>, states: seq<Groups>, answers: seq<Answer>) {
    && |states| == |events| + 1 && |answers| == |events|
    && states[0] == map[]
    && (forall i | 0 <= i < |events| :: Step(states[i], events[i], states[i + 1], answers[i]))
  }

  predicate Emits(answer: Answer) {
    answer.Ok? && answer.value.Some?
  }

  /** The latest arrival before `n` that counts under the key, if any. */
  function Latest(events: seq<Event>, key: Key, n: nat): (r: Option<nat>)
    requires n <= |events|
    ensures r.Some? ==> r.value < n && events[r.value].Counts(key)
  {
    if n == 0 then None
    else if events[n - 1].Counts(key) then Some(n - 1)
    else Latest(events, key, n - 1)
  }

  lemma {:induction false} LatestIsLast(events: seq<Event>, key: Key, n: nat, i: nat)
    requires i < n <= |events| && events[i].Counts(key)
    ensures Latest(events, key, n).Some? && Latest(events, key, n).value >= i
  {
    if !events[n - 1].Counts(key) {
      LatestIsLast(events, key, n - 1, i);
    }
  }

  /** `p` is the latest arrival under the key, and that arrival was answered by nothing. */
  ghost predicate Traces(events: seq<Event>, answers: seq<Answer>, key: Key, p: Pending, n: nat)
    requires n <= |events| && |answers| == |events|
  {
    var i := Latest(events, key, n);
    i.Some? && p == Pending(events[i.value].now, events[i.value].fragment) && answers[i.value] == Ok(None)
  }

  ghost predicate Traced(events: seq<Event>, answers: seq<Answer>, groups: Groups, n: nat)
    requires n <= |events| && |answers| == |events|
  {
    forall k <- groups :: Traces(events, answers, k, groups[k], n)
  }

  lemma TracedStep(events: seq<Event>, answers: seq<Answer>, before: Groups, after: Groups, n: nat)
    requires n < |events| && |answers| == |events| && Traced(events, answers, before, n)
    requires Step(before, events[n], after, answers[n])
    ensures Traced(events, answers, after, n + 1)
  {
    forall k | k in after
      ensures Traces(events, answers, k, after[k], n + 1)
    {
      if events[n].Counts(k) {
        AfterOwnArrival(before, events[n], after, answers[n]);
      } else {
        AfterOtherArrival(before, events[n], after, answers[n], k);
        assert Traces(events, answers, k, before[k], n);
      }
    }
  }

  lemma AfterOwnArrival(before: Groups, e: Event, after: Groups, answer: Answer)
    requires Step(before, e, after, answer) && e.EventKey() in after && |e.fragment.data| <= MAX_PACKET
    ensures after[e.EventKey()] == Pending(e.now, e.fragment) && answer == Ok(None)
  {
  }

  lemma AfterOtherArrival(before: Groups, e: Event, after: Groups, answer: Answer, k: Key)
    requires Step(before, e, after, answer) && k in after && !e.Counts(k)
    ensures k in before && after[k] == before[k]
  {
  }

  lemma LiveSize(groups: Groups, now: nat)
    ensures |Live(groups, now)| <= |groups|
  {
    var live: Groups := Live(groups, now);
    SmallerSet(live.Keys, groups.Keys);
  }

  lemma AddedSize(live: Groups, key: Key, p: Pending)
    ensures |live[key := p]| <= |live| + 1
  {
    var after: Groups := live[key := p];
    var grown := live.Keys + {key};
    assert |grown| <= |live.Keys| + 1;
    SmallerSet(after.Keys, grown);
  }

  lemma EvictedSize(live: Groups, victim: Key)
    requires victim in live
    ensures |live - {victim}| == |live| - 1
  {
    var after: Groups := live - {victim};
    assert after.Keys == live.Keys - {victim};
  }

  lemma AdmittedSize(live: Groups, key: Key, p: Pending, after: Groups)
    requires |live| <= MAX_GROUPS && Admitted(live, key, p, after)
    ensures |after| <= MAX_GROUPS
  {
    if |live| < MAX_GROUPS {
      AddedSize(live, key, p);
    } else {
      var victim :| Oldest(live, victim) && after == (live - {victim})[key := p];
      EvictedSize(live, victim);
      AddedSize(live - {victim}, key, p);
    }
  }

  lemma ReplacedSize(live: Groups, key: Key, p: Pending)
    requires key in live
    ensures |live[key := p]| == |live|
  {
    var after: Groups := live[key := p];
    assert after.Keys == live.Keys;
  }

  lemma RemovedSize(live: Groups, key: Key)
    ensures |live - {key}| <= |live|
  {
    var after: Groups := live - {key};
    SmallerSet(after.Keys, live.Keys);
  }

  lemma SizeStep(before: Groups, e: Event, after: Groups, answer: Answer)
    requires |before| <= MAX_GROUPS && Step(before, e, after, answer)
    ensures |after| <= MAX_GROUPS
  {
    var live: Groups, key, p := Live(before, e.now), e.EventKey(), Pending(e.now, e.fragment);
    LiveSize(before, e.now);
    if |e.fragment.data| <= MAX_PACKET {
      if key !in live {
        AdmittedSize(live, key, p, after);
      } else {
        ReplacedSize(live, key, p);
        RemovedSize(live, key);
      }
    }
  }

  lemma RunStep(events: seq<Event>, states: seq<Groups>, answers: seq<Answer>, n: nat)
    requires IsRun(events, states, answers) && n < |events|
    ensures Step(states[n], events[n], states[n + 1], answers[n])
  {
  }

  /**
    * Whatever goes that has not aged and is not of the arriving key went because the table was full, and nothing
    * older stayed.
    */
  lemma EvictionIsOldest(before: Groups, e: Event, after: Groups, answer: Answer, gone: Key)
    requires Step(before, e, after, answer)
    requires gone in before && gone !in after && gone != e.EventKey() && e.now <= before[gone].created + 100_000_000
    ensures |Live(before, e.now)| >= 256
    ensures forall k | k in before && k in after && k != e.EventKey() :: before[gone].created <= before[k].created
  {
    assert gone in Live(before, e.now);
  }

  /** In every run at most 256 fragments are ever pending. */
  lemma {:induction false} RunsAreBounded(events: seq<Event>, states: seq<Groups>, answers: seq<Answer>, n: nat)
    requires IsRun(events, states, answers) && n <= |events|
    ensures |states[n]| <= 256
  {
    if n > 0 {
      RunsAreBounded(events, states, answers, n - 1);
      RunStep(events, states, answers, n - 1);
      SizeStep(states[n - 1], events[n - 1], states[n], answers[n - 1]);
    }
  }

  /** In every run, what is pending under a key is the latest arrival with that key. */
  lemma {:induction false} RunsAreTraced(events: seq<Event>, states: seq<Groups>, answers: seq<Answer>, n: nat)
    requires IsRun(events, states, answers) && n <= |events|
    ensures Traced(events, answers, states[n], n)
  {
    if n > 0 {
      RunsAreTraced(events, states, answers, n - 1);
      RunStep(events, states, answers, n - 1);
      TracedStep(events, answers, states[n - 1], states[n], n - 1);
    }
  }

  /** The partner of an emitting arrival: the latest earlier one with its key. */
  function Partner(events: seq<Event>, j: nat): Option<nat>
    requires j < |events|
  {
    Latest(events, events[j].EventKey(), j)
  }

  /** Two fragments that make a packet when the later arrives while the earlier is pending. */
  ghost predicate Match(a: Event, b: Event) {
    && a.EventKey() == b.EventKey() && a.fragment.endOfPacket != b.fragment.endOfPacket
    && (b.now >= a.now ==> b.now - a.now <= 100_000_000)
    && |a.fragment.data| + |b.fragment.data| <= 8192
  }

  /** An answer with a packet comes from a live pending fragment. */
  lemma EmittingStep(before: Groups, e: Event, after: Groups, answer: Answer)
    requires Step(before, e, after, answer) && Emits(answer)
    ensures var k := e.EventKey();
            && k in before && !Expired(before[k], e.now)
            && before[k].fragment.endOfPacket != e.fragment.endOfPacket
            && |before[k].fragment.data| + |e.fragment.data| <= MAX_PACKET
            && answer == Ok(Some(Joined(before[k].fragment, e.fragment)))
  {
  }

  /**
    * An emitted packet is the unmarked fragment followed by the marked one of two arrivals with the
    * same context and id, at most 100 ms apart, of which the earlier was answered by nothing.
    */
  lemma EmissionJoinsTwoArrivals(events: seq<Event>, states: seq<Groups>, answers: seq<Answer>, j: nat)
    requires IsRun(events, states, answers) && j < |events| && Emits(answers[j])
    ensures Partner(events, j).Some?
    ensures var i := Partner(events, j).value;
            && Match(events[i], events[j]) && answers[i] == Ok(None)
            && (events[j].fragment.endOfPacket ==>
                  answers[j] == Ok(Some(events[i].fragment.data + events[j].fragment.data)))
            && (events[i].fragment.endOfPacket ==>
                  answers[j] == Ok(Some(events[j].fragment.data + events[i].fragment.data)))
  {
    RunsAreTraced(events, states, answers, j);
    RunStep(events, states, answers, j);
    EmittingStep(states[j], events[j], states[j + 1], answers[j]);
    var key := events[j].EventKey();
    assert Traces(events, answers, key, states[j][key], j);
  }

  /** No arrival serves in two emitted packets. */
  lemma ArrivalsServeOnce(events: seq<Event>, states: seq<Groups>, answers: seq<Answer>, j: nat, k: nat)
    requires IsRun(events, states, answers) && j < k < |events| && Emits(answers[j]) && Emits(answers[k])
    ensures Partner(events, j).Some? && Partner(events, k).Some?
    ensures Partner(events, k).value != j && Partner(events, k).value != Partner(events, j).value
  {
    EmissionJoinsTwoArrivals(events, states, answers, j);
    EmissionJoinsTwoArrivals(events, states, answers, k);
    if events[j].EventKey() == events[k].EventKey() {
      LatestIsLast(events, events[k].EventKey(), k, j);
    }
  }

  // ----- completeness: without an eviction nothing that matches is lost

  /** Strictly between the arrivals `i` and `j` the table has room, so no pending fragment is evicted. */
  ghost predicate RoomBetween(states: seq<Groups>, events: seq<Event>, i: nat, j: nat)
    requires i < j <= |events| && |states| == |events| + 1
  {
    forall m | i < m < j :: |Live(states[m], events[m].now)| < MAX_GROUPS
  }

  ghost predicate InTime(events: seq<Event>, i: nat, j: nat)
    requires i < j <= |events|
  {
    forall m | i < m < j :: events[i].now <= events[m].now <= events[i].now + 100_000_000
  }

  lemma StaysPending(before: Groups, e: Event, after: Groups, answer: Answer, k: Key)
    requires Step(before, e, after, answer) && !e.Counts(k)
    requires k in before && !Expired(before[k], e.now) && |Live(before, e.now)| < MAX_GROUPS
    ensures k in after && after[k] == before[k]
  {
  }

  lemma {:induction false} PendingSince(events: seq<Event>, states: seq<Groups>, answers: seq<Answer>, i: nat, j: nat,
                                        key: Key)
    requires IsRun(events, states, answers) && i < j <= |events|
    requires Latest(events, key, j) == Some(i) && answers[i] == Ok(None)
    requires RoomBetween(states, events, i, j) && InTime(events, i, j)
    ensures key in states[j] && states[j][key] == Pending(events[i].now, events[i].fragment)
    decreases j
  {
    RunStep(events, states, answers, j - 1);
    if i < j - 1 {
      PendingSince(events, states, answers, i, j - 1, key);
      StaysPending(states[j - 1], events[j - 1], states[j], answers[j - 1], key);
    } else {
      NoAnswerIsPending(states[i], events[i], states[j], answers[i]);
    }
  }

  lemma NoAnswerIsPending(before: Groups, e: Event, after: Groups, answer: Answer)
    requires Step(before, e, after, answer) && answer == Ok(None)
    ensures e.EventKey() in after && after[e.EventKey()] == Pending(e.now, e.fragment)
  {
  }

  /**
    * As long as no eviction comes between, an arrival emits exactly when it matches the latest
    * arrival with its key and that one was left pending.
    */
  lemma EmitsExactlyWhenMatched(events: seq<Event>, states: seq<Groups>, answers: seq<Answer>, i: nat, j: nat)
    requires IsRun(events, states, answers) && j < |events| && Partner(events, j) == Some(i)
    requires RoomBetween(states, events, i, j) && InTime(events, i, j)
    ensures Emits(answers[j]) <==> Match(events[i], events[j]) && answers[i] == Ok(None)
  {
    if Emits(answers[j]) {
      EmissionJoinsTwoArrivals(events, states, answers, j);
    }
    if Match(events[i], events[j]) && answers[i] == Ok(None) {
      PendingSince(events, states, answers, i, j, events[j].EventKey());
      RunStep(events, states, answers, j);
      MatchedEmits(states[j], events[j], states[j + 1], answers[j], events[i]);
    }
  }

  lemma MatchedEmits(before: Groups, e: Event, after: Groups, answer: Answer, a: Event)
    requires Step(before, e, after, answer) && Match(a, e)
    requires e.EventKey() in before && before[e.EventKey()] == Pending(a.now, a.fragment)
    ensures Emits(answer)
  {
  }
}
