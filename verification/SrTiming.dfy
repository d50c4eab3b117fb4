/**
  * What the two-second timeout of the segment-routing reassembler means: packets are made of recent arrivals
  * only, a late piece starts anew, and other groups go by their age. Times are written as numbers, and what an
  * insert does is written by cases on the fragments held.
  */
module SrTiming {
  import opened Wrappers
  import opened Bytes
  import opened Fragments
  import opened SrReassembly
  import opened SrDelivery

  /** The group is there and its first fragment came at most two seconds ago. */
  predicate Young(groups: Groups, id: U32, now: nat) {
    id in groups && now <= groups[id].created + 2_000_000_000
  }

  lemma YoungIsLive(groups: Groups, now: nat)
    ensures forall id :: id in Live(groups, now) <==> Young(groups, id, now)
  {
  }

  // ----- packets are made of recent arrivals

  ghost predicate NonDecreasing(arrivals: seq<Arrival>) {
    forall i, j | 0 <= i <= j < |arrivals| :: arrivals[i].now <= arrivals[j].now
  }

  ghost predicate ArrivedSince(arrivals: seq<Arrival>, p: Fragment, time: nat) {
    exists a <- arrivals :: a.fragment == p && a.now >= time
  }

  /** Each group began with an arrival, and its fragments came no earlier. */
  ghost predicate Timed(groups: Groups, arrivals: seq<Arrival>) {
    forall id <- groups :: TimedGroup(id, groups[id], arrivals)
  }

  ghost predicate TimedGroup(id: U32, g: Group, arrivals: seq<Arrival>) {
    Dated(arrivals, id, g.created) && forall p <- g.parts :: ArrivedSince(arrivals, p, g.created)
  }

  lemma TimedLonger(id: U32, g: Group, arrivals: seq<Arrival>, next: Arrival)
    requires TimedGroup(id, g, arrivals)
    ensures TimedGroup(id, g, arrivals + [next])
  {
    assert forall a <- arrivals :: a in arrivals + [next];
  }

  lemma TimedJoined(id: U32, g: Group, arrivals: seq<Arrival>, next: Arrival, parts: seq<Fragment>, bytes: nat)
    requires TimedGroup(id, g, arrivals) || (g == Group(next.now, [], 0) && next.fragment.id == id)
    requires NonDecreasing(arrivals + [next])
    requires forall p :: p in parts <==> p in g.parts || p == next.fragment
    ensures TimedGroup(id, Group(g.created, parts, bytes), arrivals + [next])
  {
    var all := arrivals + [next];
    assert next in all && all[|arrivals|] == next;
    if TimedGroup(id, g, arrivals) {
      TimedLonger(id, g, arrivals, next);
      var a :| a in arrivals && a.fragment.id == id && a.now == g.created;
      var i :| 0 <= i < |arrivals| && arrivals[i] == a;
      assert all[i].now <= all[|arrivals|].now;
    }
    assert ArrivedSince(all, next.fragment, g.created);
  }

  lemma TimedNext(groups: Groups, arrivals: seq<Arrival>, next: Arrival)
    requires Timed(groups, arrivals) && NonDecreasing(arrivals + [next])
    ensures Timed(Insertion(groups, next.fragment, next.now).groups, arrivals + [next])
  {
    var f, live: Groups := next.fragment, Live(groups, next.now);
    var out: Groups := Insertion(groups, f, next.now).groups;
    forall id | id in out ensures TimedGroup(id, out[id], arrivals + [next]) {
      KeptOrJoined(live, f, next.now, id);
      if id in live && out[id] == live[id] {
        TimedLonger(id, live[id], arrivals, next);
      } else {
        var g := GroupFor(live, f.id, next.now);
        PlaceMembers(g.parts, f);
        TimedJoined(id, g, arrivals, next, Place(g.parts, f), g.bufferedBytes + |f.data|);
      }
    }
  }

  lemma KeptOrJoined(live: Groups, f: Fragment, now: nat, id: U32)
    requires id in InsertionLive(live, f, now).groups
    ensures var out, g := InsertionLive(live, f, now).groups, GroupFor(live, f.id, now);
            || (id in live && out[id] == live[id])
            || (id == f.id && out[id] == Group(g.created, Place(g.parts, f), g.bufferedBytes + |f.data|))
  {
  }

  lemma {:induction false} StatesAreTimed(arrivals: seq<Arrival>)
    requires NonDecreasing(arrivals)
    ensures Timed(After(map[], arrivals), arrivals)
  {
    if arrivals != [] {
      var front, last := arrivals[..|arrivals| - 1], arrivals[|arrivals| - 1];
      StatesAreTimed(front);
      assert arrivals == front + [last];
      TimedNext(After(map[], front), front, last);
    }
  }

  /** The fragment arrived at or before `j`, at most two seconds earlier. */
  ghost predicate Recent(arrivals: seq<Arrival>, j: nat, p: Fragment)
    requires j < |arrivals|
  {
    exists i | 0 <= i <= j :: arrivals[i].fragment == p && arrivals[j].now - arrivals[i].now <= 2_000_000_000
  }

  /**
    * In every history on a clock that does not go back, whatever an arrival emits is made of fragments of its id
    * that arrived within the last two seconds: each stands at its offset and together they fill the packet.
    */
  lemma EmittedFromRecent(arrivals: seq<Arrival>, j: nat, packet: seq<Byte>) returns (parts: seq<Fragment>)
    requires NonDecreasing(arrivals) && (forall a <- arrivals :: |a.fragment.data| > 0)
    requires j < |arrivals| && Answer(map[], arrivals, j) == Ok(Some(packet))
    ensures Agrees(packet, parts) && arrivals[j].fragment in parts
    ensures forall p <- parts :: p.id == arrivals[j].fragment.id && Recent(arrivals, j, p)
  {
    var before, f, now := arrivals[..j], arrivals[j].fragment, arrivals[j].now;
    var groups := After(map[], before);
    assert forall a <- before :: a in arrivals;
    ReachableStatesAreGood(map[], before);
    StatesAreTimed(before);
    assert f == arrivals[j].fragment && arrivals[j] in arrivals;
    EmittedPacketAgrees(groups, f, now, packet);
    var held := PartsOf(Live(groups, now), f.id);
    parts := held + [f];
    forall p | p in parts ensures p.id == f.id && Recent(arrivals, j, p) {
      if p in held {
        HeldIsRecent(arrivals, j, groups, p);
      } else {
        assert arrivals[j].fragment == p;
      }
    }
  }

  lemma HeldIsRecent(arrivals: seq<Arrival>, j: nat, groups: Groups, p: Fragment)
    requires j < |arrivals| && Good(groups) && Timed(groups, arrivals[..j])
    requires p in PartsOf(Live(groups, arrivals[j].now), arrivals[j].fragment.id)
    ensures p.id == arrivals[j].fragment.id && Recent(arrivals, j, p)
  {
    var id := arrivals[j].fragment.id;
    assert GoodGroup(id, groups[id]) && TimedGroup(id, groups[id], arrivals[..j]);
    var a :| a in arrivals[..j] && a.fragment == p && a.now >= groups[id].created;
    var i :| 0 <= i < j && arrivals[i] == a;
  }

  // ----- age decides

  lemma LiveWithout(groups: Groups, id: U32, now: nat)
    requires id in groups && now > groups[id].created + 2_000_000_000
    ensures Live(groups, now) == Live(groups - {id}, now)
  {
  }

  /** A piece that comes more than two seconds after the first of its group is taken as if there were no group. */
  lemma LatePieceStartsAnew(groups: Groups, f: Fragment, now: nat)
    requires f.id in groups && now > groups[f.id].created + 2_000_000_000
    ensures Insertion(groups, f, now) == Insertion(groups - {f.id}, f, now)
  {
    LiveWithout(groups, f.id, now);
  }

  /** In a history: if all earlier arrivals of its id are older than that, a piece is answered as a first one. */
  lemma LateArrivalStartsAnew(arrivals: seq<Arrival>, j: nat)
    requires NonDecreasing(arrivals) && j < |arrivals|
    requires forall i | 0 <= i < j && arrivals[i].fragment.id == arrivals[j].fragment.id ::
               arrivals[j].now > arrivals[i].now + 2_000_000_000
    ensures var f, now, groups := arrivals[j].fragment, arrivals[j].now, After(map[], arrivals[..j]);
            Answer(map[], arrivals, j) == Insertion(groups - {f.id}, f, now).result
  {
    var f, now, groups: Groups := arrivals[j].fragment, arrivals[j].now, After(map[], arrivals[..j]);
    StatesAreTimed(arrivals[..j]);
    if f.id in groups {
      assert TimedGroup(f.id, groups[f.id], arrivals[..j]);
      var a :| a in arrivals[..j] && a.fragment.id == f.id && a.now == groups[f.id].created;
      var i :| 0 <= i < j && arrivals[i] == a;
      LatePieceStartsAnew(groups, f, now);
    } else {
      assert groups - {f.id} == groups;
    }
  }

  /** Whatever is inserted, the groups of other ids stay exactly as long as they are young. */
  lemma OthersGoByAge(groups: Groups, f: Fragment, now: nat, id: U32)
    requires id != f.id
    ensures var out := Insertion(groups, f, now).groups;
            (id in out <==> Young(groups, id, now)) && (id in out ==> out[id] == groups[id])
  {
    YoungIsLive(groups, now);
  }

  // ----- an insert by cases

  /** The fragments a piece of this id meets. */
  function Held(groups: Groups, id: U32, now: nat): seq<Fragment> {
    if Young(groups, id, now) then groups[id].parts else []
  }

  ghost predicate ShareByte(a: Fragment, b: Fragment) {
    exists i :: Spans(a, i) && Spans(b, i)
  }

  /** The fragment carries byte number `i` of its packet. */
  predicate Spans(f: Fragment, i: int) {
    f.offset <= i < f.offset + |f.data|
  }

  lemma OverlapIsSharing(a: Fragment, b: Fragment)
    requires |a.data| > 0 && |b.data| > 0
    ensures Overlap(a, b) <==> ShareByte(a, b)
  {
    if Overlap(a, b) {
      var i := if a.offset >= b.offset then a.offset else b.offset;
      assert Spans(a, i) && Spans(b, i);
    }
  }

  ghost predicate SharesWithSome(held: seq<Fragment>, f: Fragment) {
    exists p <- held :: ShareByte(f, p)
  }

  ghost predicate SomeAt(held: seq<Fragment>, offset: nat) {
    exists p <- held :: p.offset == offset
  }

  /** Only the aged groups are gone. */
  ghost predicate OnlyPurged(groups: Groups, out: Groups, now: nat) {
    forall id :: (id in out <==> Young(groups, id, now)) && (id in out ==> out[id] == groups[id])
  }

  ghost function YoungIds(groups: Groups, now: nat): set<U32> {
    set id | id in groups && Young(groups, id, now)
  }

  lemma YoungCount(groups: Groups, now: nat)
    ensures |YoungIds(groups, now)| == |Live(groups, now)|
  {
    var live: Groups := Live(groups, now);
    assert live.Keys == YoungIds(groups, now);
  }

  /** The refusals and the ignored duplicate, in the order in which they are looked for. */
  lemma InsertRefuses(groups: Groups, f: Fragment, now: nat)
    requires Good(groups) && |f.data| > 0
    ensures var held, out := Held(groups, f.id, now), Insertion(groups, f, now);
            if f.offset + |f.data| > 8192 then
              out.result == Err(FragmentTooLarge) && OnlyPurged(groups, out.groups, now)
            else if SomeAt(held, f.offset) then
              out.result == Ok(None) && OnlyPurged(groups, out.groups, now)
            else if !Young(groups, f.id, now) && |YoungIds(groups, now)| >= 16 then
              out.result == Err(FragmentTooLarge) && OnlyPurged(groups, out.groups, now)
            else if SharesWithSome(held, f) then
              out.result == Err(InvalidFragment(OverlappingOffsets)) && f.id !in out.groups
            else true
  {
    YoungIsLive(groups, now);
    YoungCount(groups, now);
    LiveKeepsGood(groups, now);
    var live: Groups, held := Live(groups, now), Held(groups, f.id, now);
    assert held == PartsOf(live, f.id);
    PartsOfGood(live, f.id);
    CollidesIsSharing(held, f);
    assert OnlyPurged(groups, live, now);
    assert f.id in live <==> Young(groups, f.id, now);
  }

  lemma CollidesIsSharing(held: seq<Fragment>, f: Fragment)
    requires |f.data| > 0 && forall p <- held :: WellSized(p)
    ensures Collides(held, f) <==> SharesWithSome(held, f)
  {
    forall p | p in held ensures Overlap(f, p) <==> ShareByte(f, p) {
      OverlapIsSharing(f, p);
    }
  }

  /** A piece that is not refused joins its group, and the group stays with it, becomes the packet, or is dropped. */
  lemma InsertJoins(groups: Groups, f: Fragment, now: nat)
    requires Good(groups) && |f.data| > 0 && f.offset + |f.data| <= 8192
    requires forall p <- Held(groups, f.id, now) :: p.offset != f.offset && !ShareByte(f, p)
    requires Young(groups, f.id, now) || |YoungIds(groups, now)| < 16
    ensures var held, out := Held(groups, f.id, now), Insertion(groups, f, now);
            match out.result
            case Ok(None) =>
              && f.id in out.groups && (forall p :: p in out.groups[f.id].parts <==> p in held || p == f)
              && out.groups[f.id].created == if Young(groups, f.id, now) then groups[f.id].created else now
            case Ok(Some(packet)) => f.id !in out.groups && Agrees(packet, held + [f])
            case Err(error) =>
              && f.id !in out.groups && error == InvalidFragment(DataAfterEnd)
              && exists p, q :: p in held + [f] && q in held + [f] && p.endOfPacket && q.offset >= p.offset + |p.data|
  {
    var held, out := Held(groups, f.id, now), Insertion(groups, f, now);
    JoinIsAbsorption(groups, f, now);
    PlaceMembers(held, f);
    if out.result.Ok? && out.result.value.Some? {
      EmittedPacketAgrees(groups, f, now, out.result.value.value);
    } else if out.result.Err? {
      LateData(Place(held, f), held, f);
    }
  }

  lemma JoinIsAbsorption(groups: Groups, f: Fragment, now: nat)
    requires Good(groups) && |f.data| > 0 && f.offset + |f.data| <= 8192
    requires forall p <- Held(groups, f.id, now) :: p.offset != f.offset && !ShareByte(f, p)
    requires Young(groups, f.id, now) || |YoungIds(groups, now)| < 16
    ensures var group := GroupFor(Live(groups, now), f.id, now);
            && group.parts == Held(groups, f.id, now)
            && group.created == (if Young(groups, f.id, now) then groups[f.id].created else now)
            && Insertion(groups, f, now) == Absorption(Live(groups, now), group, f)
  {
    YoungIsLive(groups, now);
    YoungCount(groups, now);
    LiveKeepsGood(groups, now);
    var live: Groups, held := Live(groups, now), Held(groups, f.id, now);
    assert held == PartsOf(live, f.id);
    PartsOfGood(live, f.id);
    CollidesIsSharing(held, f);
  }

  lemma LateData(parts: seq<Fragment>, held: seq<Fragment>, f: Fragment)
    requires Assembly(parts).Err? && forall p :: p in parts <==> p in held || p == f
    ensures Assembly(parts) == Err(InvalidFragment(DataAfterEnd))
    ensures exists p, q :: p in held + [f] && q in held + [f] && p.endOfPacket && q.offset >= p.offset + |p.data|
  {
    var k := ScanFinds(parts, 0);
    var q :| q in parts && q.offset >= parts[k].End();
    assert parts[k] in parts && parts[k].endOfPacket;
    assert parts[k] in held + [f] && q in held + [f];
  }
}
