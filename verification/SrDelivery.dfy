/**
  * Whole histories of the segment-routing reassembler: every reachable state is good, and a packet cut
  * into fragments comes out whole whatever the order, the duplicates and the traffic of other ids.
  */
module SrDelivery {
  import opened Wrappers
  import opened Bytes
  import opened Fragments
  import opened SrReassembly

  datatype Arrival = Arrival(fragment: Fragment, now: nat)

  ghost function After(groups: Groups, arrivals: seq<Arrival>): Groups {
    if arrivals == [] then groups else
      var last := arrivals[|arrivals| - 1];
      Insertion(After(groups, arrivals[..|arrivals| - 1]), last.fragment, last.now).groups
  }

  ghost function Answer(groups: Groups, arrivals: seq<Arrival>, i: nat): Result<Option<seq<Byte>>, Error>
    requires i < |arrivals|
  {
    Insertion(After(groups, arrivals[..i]), arrivals[i].fragment, arrivals[i].now).result
  }

  /** Any history of non-empty fragments, with any clock, keeps every bound and the byte account. */
  lemma {:induction false} ReachableStatesAreGood(groups: Groups, arrivals: seq<Arrival>)
    requires Good(groups) && forall a <- arrivals :: |a.fragment.data| > 0
    ensures Good(After(groups, arrivals))
    ensures BytesHeld(After(groups, arrivals)) <= MAX_GROUPS * MAX_PACKET
  {
    var n := |arrivals|;
    if n > 0 {
      ReachableStatesAreGood(groups, arrivals[..n - 1]);
      InsertionKeepsGood(After(groups, arrivals[..n - 1]), arrivals[n - 1].fragment, arrivals[n - 1].now);
    }
    BytesBounded(After(groups, arrivals));
  }

  // ----- cuts

  /** `cut` divides `packet` into contiguous non-empty fragments of one id, only the last marked EOP. */
  ghost predicate IsCut(cut: seq<Fragment>, id: U32, packet: seq<Byte>) {
    && Gapless(cut)
    && (forall f <- cut :: f.id == id && |f.data| > 0)
    && (forall i | 0 <= i < |cut| :: cut[i].endOfPacket <==> i == |cut| - 1)
    && Concat(cut) == packet
    && |packet| <= MAX_PACKET
  }

  lemma {:induction false} GaplessIsOrdered(cut: seq<Fragment>)
    requires Gapless(cut) && forall f <- cut :: |f.data| > 0
    ensures Ordered(cut)
  {
    var n := |cut|;
    if n > 1 {
      var front := cut[..n - 1];
      assert forall f <- front :: f in cut;
      GaplessIsOrdered(front);
      forall i | 0 <= i < n - 1 ensures cut[i].End() <= cut[n - 1].offset {
        assert i < n - 2 ==> front[i].End() <= front[n - 2].offset;
      }
    }
  }

  /** Two pieces of a cut are the same or neither overlap nor share an offset; each ends within the packet. */
  lemma CutPieces(cut: seq<Fragment>, id: U32, packet: seq<Byte>, f: Fragment, g: Fragment)
    requires IsCut(cut, id, packet) && f in cut && g in cut
    ensures WellSized(f) && f.End() <= |packet|
    ensures f == g || (!Overlap(f, g) && f.offset != g.offset)
  {
    GaplessIsOrdered(cut);
    ConcatLength(cut);
    var i :| 0 <= i < |cut| && cut[i] == f;
    var j :| 0 <= j < |cut| && cut[j] == g;
    assert i < |cut| - 1 ==> cut[i].End() <= cut[|cut| - 1].offset;
  }

  /** Parts of a cut that pass the completeness scan start with the whole cut. */
  lemma ScanNeedsWholeCut(cut: seq<Fragment>, id: U32, packet: seq<Byte>, parts: seq<Fragment>)
    requires IsCut(cut, id, packet) && TotalLength(parts, 0).Some?
    requires forall p <- parts :: p in cut
    ensures forall f <- cut :: f in parts
  {
    var k := ScanFinds(parts, 0);
    for t := 0 to k + 1
      invariant t <= |cut| && forall s | 0 <= s < t :: parts[s] == cut[s]
    {
      assert t > 0 ==> parts[t].offset == parts[t - 1].End() && !parts[t - 1].endOfPacket;
      assert t < |cut|;
      assert t > 0 ==> cut[t].offset == cut[t - 1].End();
      CutPieces(cut, id, packet, parts[t], cut[t]);
    }
    assert cut[k].endOfPacket;
    forall f | f in cut ensures f in parts {
      var i :| 0 <= i < |cut| && cut[i] == f;
      assert parts[i] in parts;
    }
  }

  /** Disjoint non-empty fragments have only one order. */
  lemma {:induction false} OrderIsUnique(a: seq<Fragment>, b: seq<Fragment>)
    requires Ordered(a) && Ordered(b)
    requires forall f <- a :: |f.data| > 0
    requires forall f :: f in a <==> f in b
    ensures a == b
  {
    assert a != [] ==> a[0] in b;
    assert b != [] ==> b[0] in a;
    if a != [] {
      SameLast(a, b);
      FrontMembers(a);
      assert forall f <- b :: |f.data| > 0;
      FrontMembers(b);
      var front, rest := a[..|a| - 1], b[..|b| - 1];
      forall f ensures f in front <==> f in rest {
        assert f in a <==> f in b;
      }
      OrderIsUnique(front, rest);
    }
  }

  lemma FrontMembers(a: seq<Fragment>)
    requires Ordered(a) && a != [] && forall f <- a :: |f.data| > 0
    ensures forall f :: f in a[..|a| - 1] <==> f in a && f != a[|a| - 1]
  {
    var n := |a|;
    assert a == a[..n - 1] + [a[n - 1]];
    forall i | 0 <= i < n - 1 ensures a[i] != a[n - 1] {
      assert a[i].End() <= a[n - 1].offset && a[i] in a;
    }
  }

  lemma SameLast(a: seq<Fragment>, b: seq<Fragment>)
    requires Ordered(a) && Ordered(b) && a != [] && b != []
    requires forall f <- a :: |f.data| > 0
    requires forall f :: f in a <==> f in b
    ensures a[|a| - 1] == b[|b| - 1]
  {
    var x, y := a[|a| - 1], b[|b| - 1];
    assert x in a && y in b && y in a && x in b;
    var i :| 0 <= i < |a| && a[i] == y;
    var j :| 0 <= j < |b| && b[j] == x;
    assert i < |a| - 1 ==> y.End() <= x.offset;
    assert j < |b| - 1 ==> x.End() <= y.offset;
  }

  /** Sorted parts of a cut assemble to nothing until they are the whole cut, and then to the packet. */
  lemma AssemblyOfPieces(cut: seq<Fragment>, id: U32, packet: seq<Byte>, parts: seq<Fragment>)
    requires IsCut(cut, id, packet) && Ordered(parts)
    requires forall p <- parts :: p in cut
    ensures Assembly(parts) == Ok(if forall f <- cut :: f in parts then Some(packet) else None)
  {
    if TotalLength(parts, 0).Some? {
      ScanNeedsWholeCut(cut, id, packet, parts);
    }
    if forall f <- cut :: f in parts {
      GaplessIsOrdered(cut);
      OrderIsUnique(cut, parts);
      ScanReaches(cut, |cut| - 1, 0);
      forall p | p in cut ensures p.offset < cut[|cut| - 1].End() {
        CutPieces(cut, id, packet, p, p);
        ConcatLength(cut);
      }
    }
  }

  // ----- histories

  ghost predicate Seen(arrivals: seq<Arrival>, f: Fragment) {
    exists a <- arrivals :: a.fragment == f
  }

  ghost predicate Delivered(cut: seq<Fragment>, arrivals: seq<Arrival>) {
    forall f <- cut :: Seen(arrivals, f)
  }

  ghost predicate Mentions(arrivals: seq<Arrival>, id: U32) {
    exists a <- arrivals :: a.fragment.id == id
  }

  /**
    * A history that carries the cut: fragments of its id are pieces of the cut, repeated at will, mixed
    * with any fragments of other ids; no arrival comes more than the timeout after a piece; and a
    * group slot is free when the first piece comes.
    */
  ghost predicate Carries(groups: Groups, arrivals: seq<Arrival>, cut: seq<Fragment>, id: U32) {
    && (forall a <- arrivals :: |a.fragment.data| > 0)
    && (forall a <- arrivals :: a.fragment.id == id ==> a.fragment in cut)
    && Prompt(arrivals, id)
    && Roomy(groups, arrivals, id)
  }

  ghost predicate Prompt(arrivals: seq<Arrival>, id: U32) {
    forall i, j | 0 <= i <= j < |arrivals| ::
      arrivals[i].fragment.id == id ==> arrivals[j].now <= arrivals[i].now + TIMEOUT
  }

  ghost predicate Roomy(groups: Groups, arrivals: seq<Arrival>, id: U32) {
    forall i | 0 <= i < |arrivals| && arrivals[i].fragment.id == id ::
      !Mentions(arrivals[..i], id) ==> RoomAt(groups, arrivals, i)
  }

  ghost predicate RoomAt(groups: Groups, arrivals: seq<Arrival>, i: nat)
    requires i < |arrivals|
  {
    |Live(After(groups, arrivals[..i]), arrivals[i].now)| < MAX_GROUPS
  }

  /** While the cut is incomplete its group holds exactly the pieces seen so far, dated by one of their arrivals. */
  ghost predicate Tracks(groups: Groups, arrivals: seq<Arrival>, cut: seq<Fragment>, id: U32) {
    && (forall p <- PartsOf(groups, id) :: p in cut && Seen(arrivals, p))
    && (forall f <- cut :: Seen(arrivals, f) ==> f in PartsOf(groups, id))
    && (id in groups ==> Dated(arrivals, id, groups[id].created))
  }

  ghost predicate Dated(arrivals: seq<Arrival>, id: U32, time: nat) {
    exists a <- arrivals :: a.fragment.id == id && a.now == time
  }

  lemma CarriesPrefix(groups: Groups, arrivals: seq<Arrival>, cut: seq<Fragment>, id: U32, n: nat)
    requires Carries(groups, arrivals, cut, id) && n <= |arrivals|
    ensures Carries(groups, arrivals[..n], cut, id)
  {
    var prefix := arrivals[..n];
    assert forall a <- prefix :: a in arrivals;
    forall i | 0 <= i < n && prefix[i].fragment.id == id && !Mentions(prefix[..i], id)
      ensures RoomAt(groups, prefix, i)
    {
      assert prefix[..i] == arrivals[..i];
      assert RoomAt(groups, arrivals, i);
    }
  }

  /** An insert leaves the unexpired groups of other ids alone. */
  lemma OtherGroupsKept(groups: Groups, f: Fragment, now: nat, id: U32)
    requires f.id != id && (id in groups ==> !Expired(groups[id], now))
    ensures var out := Insertion(groups, f, now).groups;
            (id in out <==> id in groups) && (id in groups ==> out[id] == groups[id])
  {
  }

  /** The next piece of the cut is answered by nothing, or by the packet if it is the last one missing. */
  lemma NextPiece(groups: Groups, arrivals: seq<Arrival>, cut: seq<Fragment>, id: U32, packet: seq<Byte>, next: Arrival)
    requires IsCut(cut, id, packet) && Good(groups) && Tracks(groups, arrivals, cut, id)
    requires next.fragment in cut
    requires id in groups ==> !Expired(groups[id], next.now)
    requires id !in groups ==> |Live(groups, next.now)| < MAX_GROUPS
    requires !Delivered(cut, arrivals)
    ensures var out := Insertion(groups, next.fragment, next.now);
            if Delivered(cut, arrivals + [next]) then out.result == Ok(Some(packet)) && id !in out.groups
            else out.result == Ok(None) && Tracks(out.groups, arrivals + [next], cut, id)
  {
    var f := next.fragment;
    var live: Groups := Live(groups, next.now);
    var parts := PartsOf(live, id);
    assert parts == PartsOf(groups, id);
    CutPieces(cut, id, packet, f, f);
    SeenNext(arrivals, next);
    if f in parts {
      assert Seen(arrivals, f);
      assert HasOffset(parts, f.offset);
      assert Insertion(groups, f, next.now) == Outcome(live, Ok(None));
      assert Tracks(live, arrivals + [next], cut, id) by { TracksDated(groups, live, arrivals, next, id); }
    } else {
      forall p | p in parts ensures !Overlap(f, p) && p.offset != f.offset {
        CutPieces(cut, id, packet, f, p);
      }
      LiveKeepsGood(groups, next.now);
      FitsIfDisjoint(live, f);
      PlaceOrdered(parts, f);
      PlaceMembers(parts, f);
      var placed := Place(parts, f);
      AssemblyOfPieces(cut, id, packet, placed);
      DeliveredWhenPlaced(arrivals, cut, next, parts, placed);
      var group := GroupFor(live, id, next.now);
      assert Insertion(groups, f, next.now) == Absorption(live, group, f);
      if !Delivered(cut, arrivals + [next]) {
        DatedNext(groups, arrivals, next, id);
      }
    }
  }

  lemma SeenNext(arrivals: seq<Arrival>, next: Arrival)
    ensures forall f :: Seen(arrivals + [next], f) <==> Seen(arrivals, f) || f == next.fragment
  {
    forall f ensures Seen(arrivals + [next], f) <==> Seen(arrivals, f) || f == next.fragment {
      assert forall a :: a in arrivals + [next] <==> a in arrivals || a == next;
    }
  }

  lemma TracksDated(groups: Groups, live: Groups, arrivals: seq<Arrival>, next: Arrival, id: U32)
    requires id in live && id in groups && live[id] == groups[id] && Dated(arrivals, id, groups[id].created)
    ensures Dated(arrivals + [next], id, live[id].created)
  {
    var a :| a in arrivals && a.fragment.id == id && a.now == groups[id].created;
    assert a in arrivals + [next];
  }

  lemma DatedNext(groups: Groups, arrivals: seq<Arrival>, next: Arrival, id: U32)
    requires next.fragment.id == id && (id in groups ==> Dated(arrivals, id, groups[id].created))
    ensures Dated(arrivals + [next], id, next.now)
    ensures id in groups ==> Dated(arrivals + [next], id, groups[id].created)
  {
    assert next in arrivals + [next];
    assert forall a <- arrivals :: a in arrivals + [next];
  }

  lemma DeliveredWhenPlaced(arrivals: seq<Arrival>, cut: seq<Fragment>, next: Arrival, parts: seq<Fragment>,
                            placed: seq<Fragment>)
    requires forall p <- parts :: p in cut && Seen(arrivals, p)
    requires forall f <- cut :: Seen(arrivals, f) ==> f in parts
    requires forall p :: p in placed <==> p in parts || p == next.fragment
    ensures Delivered(cut, arrivals + [next]) <==> forall f <- cut :: f in placed
  {
    SeenNext(arrivals, next);
  }

  lemma DeliveryGrows(arrivals: seq<Arrival>, next: Arrival, cut: seq<Fragment>)
    ensures Delivered(cut, arrivals) ==> Delivered(cut, arrivals + [next])
  {
    SeenNext(arrivals, next);
  }

  /** Before the cut is delivered, the state tracks it. */
  lemma {:induction false} TracksBeforeDelivery(groups: Groups, arrivals: seq<Arrival>, cut: seq<Fragment>, id: U32,
                                                packet: seq<Byte>)
    requires IsCut(cut, id, packet) && Good(groups) && id !in groups
    requires Carries(groups, arrivals, cut, id) && !Delivered(cut, arrivals)
    ensures Tracks(After(groups, arrivals), arrivals, cut, id)
  {
    if arrivals != [] {
      var front := arrivals[..|arrivals| - 1];
      LastOf(arrivals);
      DeliveryGrows(front, arrivals[|arrivals| - 1], cut);
      CarriesPrefix(groups, arrivals, cut, id, |arrivals| - 1);
      TracksBeforeDelivery(groups, front, cut, id, packet);
      LastArrival(groups, arrivals, cut, id, packet);
    }
  }

  /** One more arrival of a carrying history, from a state that tracks the cut. */
  lemma LastArrival(groups: Groups, arrivals: seq<Arrival>, cut: seq<Fragment>, id: U32, packet: seq<Byte>)
    requires IsCut(cut, id, packet) && Good(groups)
    requires Carries(groups, arrivals, cut, id) && arrivals != []
    requires !Delivered(cut, arrivals[..|arrivals| - 1])
    requires Tracks(After(groups, arrivals[..|arrivals| - 1]), arrivals[..|arrivals| - 1], cut, id)
    ensures !Delivered(cut, arrivals) ==> Tracks(After(groups, arrivals), arrivals, cut, id)
    ensures arrivals[|arrivals| - 1].fragment.id == id ==>
              Answer(groups, arrivals, |arrivals| - 1) == Ok(if Delivered(cut, arrivals) then Some(packet) else None)
    ensures arrivals[|arrivals| - 1].fragment.id == id && Delivered(cut, arrivals) ==> id !in After(groups, arrivals)
  {
    var front, next := arrivals[..|arrivals| - 1], arrivals[|arrivals| - 1];
    StepConditions(groups, arrivals, cut, id);
    PiecesOnly(groups, arrivals, cut, id);
    var state := After(groups, front);
    LastOf(arrivals);
    if next.fragment.id == id {
      NextPiece(state, front, cut, id, packet, next);
    } else {
      OtherArrival(state, front, cut, id, next);
    }
  }

  lemma LastOf(arrivals: seq<Arrival>)
    requires arrivals != []
    ensures arrivals == arrivals[..|arrivals| - 1] + [arrivals[|arrivals| - 1]]
  {
  }

  lemma PiecesOnly(groups: Groups, arrivals: seq<Arrival>, cut: seq<Fragment>, id: U32)
    requires Carries(groups, arrivals, cut, id) && arrivals != [] && Good(groups)
    ensures var front, next := arrivals[..|arrivals| - 1], arrivals[|arrivals| - 1];
            Good(After(groups, front)) && (next.fragment.id == id ==> next.fragment in cut)
  {
    assert forall a <- arrivals[..|arrivals| - 1] :: a in arrivals;
    ReachableStatesAreGood(groups, arrivals[..|arrivals| - 1]);
    assert arrivals[|arrivals| - 1] in arrivals;
  }

  /** The group of a cut whose pieces come promptly has not expired. */
  lemma StillLive(state: Groups, arrivals: seq<Arrival>, id: U32)
    requires arrivals != [] && Prompt(arrivals, id) && id in state
    requires Dated(arrivals[..|arrivals| - 1], id, state[id].created)
    ensures !Expired(state[id], arrivals[|arrivals| - 1].now)
  {
    var n := |arrivals|;
    var a :| a in arrivals[..n - 1] && a.fragment.id == id && a.now == state[id].created;
    var i :| 0 <= i < n - 1 && arrivals[i] == a;
    assert arrivals[n - 1].now <= arrivals[i].now + TIMEOUT;
  }

  /** A tracked cut without a group has not been mentioned yet. */
  lemma Unmentioned(state: Groups, arrivals: seq<Arrival>, cut: seq<Fragment>, id: U32)
    requires Tracks(state, arrivals, cut, id) && id !in state
    requires forall a <- arrivals :: a.fragment.id == id ==> a.fragment in cut
    ensures !Mentions(arrivals, id)
  {
    forall a | a in arrivals ensures a.fragment.id != id {
      assert Seen(arrivals, a.fragment);
    }
  }

  /** What a carrying history guarantees at its last arrival. */
  lemma StepConditions(groups: Groups, arrivals: seq<Arrival>, cut: seq<Fragment>, id: U32)
    requires Carries(groups, arrivals, cut, id) && arrivals != []
    requires Tracks(After(groups, arrivals[..|arrivals| - 1]), arrivals[..|arrivals| - 1], cut, id)
    ensures var state, next := After(groups, arrivals[..|arrivals| - 1]), arrivals[|arrivals| - 1];
            && (id in state ==> !Expired(state[id], next.now))
            && (id !in state && next.fragment.id == id ==> |Live(state, next.now)| < MAX_GROUPS)
  {
    var n := |arrivals|;
    var front := arrivals[..n - 1];
    var state := After(groups, front);
    if id in state {
      StillLive(state, arrivals, id);
    } else if arrivals[n - 1].fragment.id == id {
      assert forall a <- front :: a in arrivals;
      Unmentioned(state, front, cut, id);
      assert RoomAt(groups, arrivals, n - 1);
    }
  }

  lemma OtherArrival(state: Groups, front: seq<Arrival>, cut: seq<Fragment>, id: U32, next: Arrival)
    requires Tracks(state, front, cut, id) && next.fragment.id != id
    requires id in state ==> !Expired(state[id], next.now)
    requires forall f <- cut :: f.id == id
    ensures Tracks(Insertion(state, next.fragment, next.now).groups, front + [next], cut, id)
  {
    OtherGroupsKept(state, next.fragment, next.now, id);
    SeenNext(front, next);
    if id in state {
      TracksDated(state, state, front, next, id);
    }
  }

  /**
    * A packet of 1 to 8192 bytes, cut into contiguous fragments and delivered in any order, with
    * duplicates and with fragments of other ids in between: every piece is answered by nothing except
    * the one that completes the cut, which is answered by exactly the packet.
    */
  lemma AnyOrderReassembles(groups: Groups, arrivals: seq<Arrival>, cut: seq<Fragment>, id: U32, packet: seq<Byte>)
    requires IsCut(cut, id, packet) && Good(groups) && id !in groups
    requires Carries(groups, arrivals, cut, id)
    requires arrivals != [] && !Delivered(cut, arrivals[..|arrivals| - 1])
    ensures forall i | 0 <= i < |arrivals| && arrivals[i].fragment.id == id ::
              Answer(groups, arrivals, i) == Ok(if Delivered(cut, arrivals[..i + 1]) then Some(packet) else None)
    ensures Delivered(cut, arrivals) && arrivals[|arrivals| - 1].fragment.id == id ==> id !in After(groups, arrivals)
  {
    forall i | 0 <= i < |arrivals| && arrivals[i].fragment.id == id
      ensures Answer(groups, arrivals, i) == Ok(if Delivered(cut, arrivals[..i + 1]) then Some(packet) else None)
      ensures Delivered(cut, arrivals[..i + 1]) ==> id !in After(groups, arrivals[..i + 1])
    {
      AnswerToPiece(groups, arrivals, cut, id, packet, i);
    }
    assert arrivals[..|arrivals|] == arrivals;
  }

  lemma NotYetDelivered(arrivals: seq<Arrival>, cut: seq<Fragment>, i: nat)
    requires i < |arrivals| && !Delivered(cut, arrivals[..|arrivals| - 1])
    ensures !Delivered(cut, arrivals[..i])
  {
    var f :| f in cut && !Seen(arrivals[..|arrivals| - 1], f);
    assert forall a <- arrivals[..i] :: a in arrivals[..|arrivals| - 1];
    assert !Seen(arrivals[..i], f);
  }

  lemma AnswerInPrefix(groups: Groups, arrivals: seq<Arrival>, i: nat)
    requires i < |arrivals|
    ensures arrivals[..i + 1][..i] == arrivals[..i]
    ensures Answer(groups, arrivals, i) == Answer(groups, arrivals[..i + 1], i)
  {
    assert arrivals[..i + 1][..i] == arrivals[..i];
  }

  lemma AnswerToPiece(groups: Groups, arrivals: seq<Arrival>, cut: seq<Fragment>, id: U32, packet: seq<Byte>, i: nat)
    requires IsCut(cut, id, packet) && Good(groups) && id !in groups
    requires Carries(groups, arrivals, cut, id)
    requires i < |arrivals| && arrivals[i].fragment.id == id && !Delivered(cut, arrivals[..|arrivals| - 1])
    ensures Answer(groups, arrivals, i) == Ok(if Delivered(cut, arrivals[..i + 1]) then Some(packet) else None)
    ensures Delivered(cut, arrivals[..i + 1]) ==> id !in After(groups, arrivals[..i + 1])
  {
    var here := arrivals[..i + 1];
    AnswerInPrefix(groups, arrivals, i);
    NotYetDelivered(arrivals, cut, i);
    CarriesPrefix(groups, arrivals, cut, id, i + 1);
    AnswerToLast(groups, here, cut, id, packet);
  }

  lemma AnswerToLast(groups: Groups, arrivals: seq<Arrival>, cut: seq<Fragment>, id: U32, packet: seq<Byte>)
    requires IsCut(cut, id, packet) && Good(groups) && id !in groups
    requires Carries(groups, arrivals, cut, id)
    requires arrivals != [] && arrivals[|arrivals| - 1].fragment.id == id
    requires !Delivered(cut, arrivals[..|arrivals| - 1])
    ensures Answer(groups, arrivals, |arrivals| - 1) == Ok(if Delivered(cut, arrivals) then Some(packet) else None)
    ensures Delivered(cut, arrivals) ==> id !in After(groups, arrivals)
  {
    CarriesPrefix(groups, arrivals, cut, id, |arrivals| - 1);
    TracksBeforeDelivery(groups, arrivals[..|arrivals| - 1], cut, id, packet);
    LastArrival(groups, arrivals, cut, id, packet);
  }
}
