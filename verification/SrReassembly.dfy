/**
  * The offset-aware, bounded segment-routing fragment reassembler.
  *
  * The state is a map of fragment groups and a byte counter. `Insertion` gives the effect of one
  * insert on the groups alone: it has no byte-limit guard, no "coverage changed" failure and no
  * counter, because `Insert` proves that the guard never fires, that the failure is unreachable and
  * that the counter always equals the bytes held.
  */
module SrReassembly {
  import opened Wrappers
  import opened Sets
  import opened Bytes
  import opened Fragments

  // Instants are nanoseconds on a monotonic clock.
  const TIMEOUT: nat := 2_000_000_000
  const MAX_GROUPS: nat := 16
  const MAX_BUFFERED: nat := 262_144

  datatype Group = Group(created: nat, parts: seq<Fragment>, bufferedBytes: nat)

  type Groups = map<U32, Group>

  // ----- sequences of fragments

  function Concat(parts: seq<Fragment>): seq<Byte> {
    if parts == [] then [] else Concat(parts[..|parts| - 1]) + parts[|parts| - 1].data
  }

  /** No part starts before an earlier one ends. */
  predicate Ordered(parts: seq<Fragment>) {
    forall i, j :: 0 <= i < j < |parts| ==> parts[i].End() <= parts[j].offset
  }

  predicate WellSized(f: Fragment) {
    |f.data| > 0 && f.End() <= MAX_PACKET
  }

  /** The effect of pushing `f` and sorting by offset, on a list that was sorted. */
  function Place(parts: seq<Fragment>, f: Fragment): seq<Fragment> {
    if parts == [] || parts[|parts| - 1].offset <= f.offset then
      parts + [f]
    else
      Place(parts[..|parts| - 1], f) + [parts[|parts| - 1]]
  }

  /** The completeness scan: the end of the first EOP part reached from `expected` without a gap. */
  function TotalLength(parts: seq<Fragment>, expected: nat): Option<nat> {
    if parts == [] || parts[0].offset != expected then None
    else if parts[0].endOfPacket then Some(parts[0].End())
    else TotalLength(parts[1..], parts[0].End())
  }

  predicate Overlap(a: Fragment, b: Fragment) {
    a.offset < b.End() && b.offset < a.End()
  }

  predicate HasOffset(parts: seq<Fragment>, offset: nat) {
    exists p <- parts :: p.offset == offset
  }

  predicate Collides(parts: seq<Fragment>, f: Fragment) {
    exists p <- parts :: Overlap(f, p)
  }

  predicate Follows(parts: seq<Fragment>, total: nat) {
    exists p <- parts :: p.offset >= total
  }

  // ----- the state

  ghost predicate GoodGroup(id: U32, g: Group) {
    && g.parts != []
    && Ordered(g.parts)
    && (forall p <- g.parts :: p.id == id && WellSized(p))
    && g.bufferedBytes == |Concat(g.parts)|
    && Assembly(g.parts) == Ok(None)
  }

  ghost predicate Good(groups: Groups) {
    && |groups| <= MAX_GROUPS
    && (forall id <- groups :: GoodGroup(id, groups[id]))
  }

  ghost function BytesHeld(groups: Groups): nat {
    if groups == map[] then 0 else
      var id :| id in groups;
      groups[id].bufferedBytes + BytesHeld(groups - {id})
  }

  predicate Expired(g: Group, now: nat) {
    now >= g.created && now - g.created > TIMEOUT
  }

  function Live(groups: Groups, now: nat): Groups {
    map id | id in groups && !Expired(groups[id], now) :: groups[id]
  }

  datatype Outcome = Outcome(groups: Groups, result: Result<Option<seq<Byte>>, Error>)

  /** What one insert does to the groups, and what it answers. */
  function Insertion(groups: Groups, f: Fragment, now: nat): Outcome {
    InsertionLive(Live(groups, now), f, now)
  }

  function InsertionLive(live: Groups, f: Fragment, now: nat): Outcome {
    if f.End() > MAX_PACKET then
      Outcome(live, Err(FragmentTooLarge))
    else if HasOffset(PartsOf(live, f.id), f.offset) then
      Outcome(live, Ok(None))
    else if f.id !in live && |live| >= MAX_GROUPS then
      Outcome(live, Err(FragmentTooLarge))
    else if Collides(PartsOf(live, f.id), f) then
      Outcome(live - {f.id}, Err(InvalidFragment(OverlappingOffsets)))
    else
      Absorption(live, GroupFor(live, f.id, now), f)
  }

  function GroupFor(groups: Groups, id: U32, now: nat): Group {
    if id in groups then groups[id] else Group(now, [], 0)
  }

  function PartsOf(groups: Groups, id: U32): seq<Fragment> {
    if id in groups then groups[id].parts else []
  }

  /** What happens once `f` has joined its group: the group stays only while it is incomplete. */
  function Absorption(live: Groups, group: Group, f: Fragment): Outcome {
    var parts := Place(group.parts, f);
    var result := Assembly(parts);
    Outcome(if result == Ok(None) then live[f.id := Group(group.created, parts, group.bufferedBytes + |f.data|)]
            else live - {f.id}, result)
  }

  /** The answer for sorted parts: nothing yet, the packet, or a failure. */
  function Assembly(parts: seq<Fragment>): Result<Option<seq<Byte>>, Error> {
    match TotalLength(parts, 0)
    case None => Ok(None)
    case Some(total) =>
      if Follows(parts, total) then Err(InvalidFragment(DataAfterEnd))
      else Ok(Some(Concat(parts)))
  }

  // ----- lemmas about maps and sums

  lemma SmallerMap<K, V>(a: map<K, V>, b: map<K, V>)
    requires a.Keys <= b.Keys
    ensures |a| <= |b|
  {
    SmallerSet(a.Keys, b.Keys);
  }

  lemma {:induction false} BytesWithout(groups: Groups, id: U32)
    requires id in groups
    ensures BytesHeld(groups) == groups[id].bufferedBytes + BytesHeld(groups - {id})
    decreases |groups|
  {
    var first: U32 :| first in groups && BytesHeld(groups) == groups[first].bufferedBytes + BytesHeld(groups - {first});
    if first != id {
      BytesWithout(groups - {first}, id);
      BytesWithout(groups - {id}, first);
      assert groups - {first} - {id} == groups - {id} - {first};
    }
  }

  lemma BytesUpdated(groups: Groups, id: U32, g: Group)
    ensures BytesHeld(groups[id := g]) == g.bufferedBytes + BytesHeld(groups - {id})
  {
    BytesWithout(groups[id := g], id);
    assert groups[id := g] - {id} == groups - {id};
  }

  /** Disjoint parts below a bound carry at most that many bytes. */
  lemma {:induction false} OrderedBytes(parts: seq<Fragment>)
    requires Ordered(parts) && parts != []
    ensures |Concat(parts)| <= parts[|parts| - 1].End()
  {
    var n := |parts|;
    if n > 1 {
      assert parts[..n - 1][n - 2].End() <= parts[n - 1].offset;
      OrderedBytes(parts[..n - 1]);
    } else {
      assert Concat(parts[..0]) == [];
    }
  }

  /** Sixteen groups of at most 8192 bytes: the 262144-byte guard is out of reach. */
  lemma {:induction false} BytesBounded(groups: Groups)
    requires forall id <- groups :: GoodGroup(id, groups[id])
    ensures BytesHeld(groups) <= MAX_PACKET * |groups|
    decreases |groups|
  {
    if id :| id in groups {
      OrderedBytes(groups[id].parts);
      BytesWithout(groups, id);
      BytesBounded(groups - {id});
      assert |groups| == |groups - {id}| + 1 by {
        assert groups.Keys == (groups - {id}).Keys + {id};
      }
    }
  }

  // ----- lemmas about placing and scanning

  /** Whether `f` may join `parts`: it neither shares an offset with one of them nor overlaps it. */
  ghost predicate Fits(parts: seq<Fragment>, f: Fragment) {
    && Ordered(parts)
    && WellSized(f)
    && (forall p <- parts :: WellSized(p))
    && !Collides(parts, f)
  }

  lemma {:induction false} PlaceMembers(parts: seq<Fragment>, f: Fragment)
    ensures |Place(parts, f)| == |parts| + 1
    ensures forall p :: p in Place(parts, f) <==> p in parts || p == f
  {
    var n := |parts|;
    if n != 0 && parts[n - 1].offset > f.offset {
      PlaceMembers(parts[..n - 1], f);
      assert parts == parts[..n - 1] + [parts[n - 1]];
    }
  }

  lemma {:induction false} PlaceBytes(parts: seq<Fragment>, f: Fragment)
    ensures |Concat(Place(parts, f))| == |Concat(parts)| + |f.data|
  {
    var n := |parts|;
    if n == 0 || parts[n - 1].offset <= f.offset {
      assert (parts + [f])[..n] == parts;
    } else {
      PlaceBytes(parts[..n - 1], f);
      PlaceMembers(parts[..n - 1], f);
      assert Place(parts, f)[..n] == Place(parts[..n - 1], f);
    }
  }

  lemma FitsFront(parts: seq<Fragment>, f: Fragment)
    requires Fits(parts, f) && parts != []
    ensures Fits(parts[..|parts| - 1], f) && WellSized(parts[|parts| - 1]) && !Overlap(f, parts[|parts| - 1])
  {
    assert forall p <- parts[..|parts| - 1] :: p in parts;
    assert parts[|parts| - 1] in parts;
  }

  lemma {:induction false} PlaceOrdered(parts: seq<Fragment>, f: Fragment)
    requires Fits(parts, f)
    ensures Ordered(Place(parts, f))
  {
    var n := |parts|;
    if n != 0 {
      var front, last := parts[..n - 1], parts[n - 1];
      FitsFront(parts, f);
      if last.offset > f.offset {
        PlaceOrdered(front, f);
        PlaceMembers(front, f);
        forall p | p in Place(front, f) ensures p.End() <= last.offset {
        }
      } else {
        forall i | 0 <= i < n ensures parts[i].End() <= f.offset {
        }
      }
    }
  }

  /** A scan that succeeds found a gapless prefix of parts, and only its last part is marked EOP. */
  ghost predicate Reaches(parts: seq<Fragment>, k: nat, expected: nat) {
    && k < |parts|
    && parts[0].offset == expected
    && (forall i :: 0 < i <= k ==> parts[i].offset == parts[i - 1].End())
    && (forall i :: 0 <= i <= k ==> (parts[i].endOfPacket <==> i == k))
  }

  lemma {:induction false} ScanFinds(parts: seq<Fragment>, expected: nat) returns (k: nat)
    requires TotalLength(parts, expected).Some?
    ensures Reaches(parts, k, expected) && TotalLength(parts, expected) == Some(parts[k].End())
  {
    if parts[0].endOfPacket {
      k := 0;
    } else {
      k := ScanFinds(parts[1..], parts[0].End());
      k := k + 1;
    }
  }

  lemma {:induction false} ScanReaches(parts: seq<Fragment>, k: nat, expected: nat)
    requires Reaches(parts, k, expected)
    ensures TotalLength(parts, expected) == Some(parts[k].End())
  {
    if k > 0 {
      ScanReaches(parts[1..], k - 1, parts[0].End());
    }
  }

  ghost predicate Gapless(parts: seq<Fragment>) {
    && parts != []
    && parts[0].offset == 0
    && (forall i :: 0 < i < |parts| ==> parts[i].offset == parts[i - 1].End())
  }

  /** Gapless parts concatenate to exactly the bytes up to the end of the last one. */
  lemma {:induction false} ConcatLength(parts: seq<Fragment>)
    requires Gapless(parts)
    ensures |Concat(parts)| == parts[|parts| - 1].End()
  {
    var n := |parts|;
    if n > 1 {
      ConcatLength(parts[..n - 1]);
    } else {
      assert Concat(parts[..0]) == [];
    }
  }

  /** In the concatenation of gapless parts, each part stands at its own offset. */
  lemma {:induction false} ConcatAt(parts: seq<Fragment>, i: nat)
    requires Gapless(parts) && i < |parts|
    ensures var p := parts[i];
            p.End() <= |Concat(parts)| && Concat(parts)[p.offset..p.End()] == p.data
  {
    var n, p := |parts|, parts[i];
    ConcatLength(parts);
    if n > 1 {
      var front := parts[..n - 1];
      ConcatLength(front);
      if i < n - 1 {
        ConcatAt(front, i);
        assert Concat(parts)[p.offset..p.End()] == Concat(front)[p.offset..p.End()];
      }
    } else {
      assert Concat(parts[..0]) == [];
    }
  }

  /** Some part covers each byte of gapless parts. */
  lemma {:induction false} Covering(parts: seq<Fragment>, i: nat) returns (p: Fragment)
    requires Gapless(parts) && i < parts[|parts| - 1].End()
    ensures p in parts && p.offset <= i < p.End()
  {
    p := parts[|parts| - 1];
    if i < p.offset {
      p := Covering(parts[..|parts| - 1], i);
    }
  }

  /** If nothing starts at or after the total, the part that ends the packet is the last one. */
  lemma ScanIsExact(parts: seq<Fragment>, total: nat)
    requires Ordered(parts) && TotalLength(parts, 0) == Some(total)
    requires !Follows(parts, total)
    ensures Gapless(parts) && parts[|parts| - 1].endOfPacket && |Concat(parts)| == total
  {
    var k := ScanFinds(parts, 0);
    assert k + 1 < |parts| ==> parts[k + 1].offset >= total;
    ConcatLength(parts);
  }

  // ----- what every insert keeps

  lemma LiveKeepsGood(groups: Groups, now: nat)
    requires Good(groups)
    ensures Good(Live(groups, now))
  {
    SmallerMap(Live(groups, now), groups);
  }

  lemma RemovalKeepsGood(groups: Groups, id: U32)
    requires Good(groups)
    ensures Good(groups - {id})
  {
    var without: Groups := groups - {id};
    SmallerMap(without, groups);
  }

  lemma UpdateKeepsGood(live: Groups, id: U32, g: Group)
    requires Good(live) && GoodGroup(id, g) && (id in live || |live| < MAX_GROUPS)
    ensures Good(live[id := g])
  {
    var updated: Groups := live[id := g];
    assert updated.Keys == live.Keys + {id};
    forall k | k in updated ensures GoodGroup(k, updated[k]) {
      if k != id {
        assert GoodGroup(k, live[k]);
      }
    }
  }

  lemma AbsorptionKeepsGood(live: Groups, group: Group, f: Fragment)
    requires Good(live) && (f.id in live || |live| < MAX_GROUPS)
    requires Fits(group.parts, f) && group.bufferedBytes == |Concat(group.parts)|
    requires forall p <- group.parts :: p.id == f.id
    ensures Good(Absorption(live, group, f).groups)
  {
    PlaceOrdered(group.parts, f);
    PlaceMembers(group.parts, f);
    PlaceBytes(group.parts, f);
    var parts := Place(group.parts, f);
    if Assembly(parts) == Ok(None) {
      UpdateKeepsGood(live, f.id, Group(group.created, parts, group.bufferedBytes + |f.data|));
    } else {
      RemovalKeepsGood(live, f.id);
    }
  }

  lemma PartsOfGood(live: Groups, id: U32)
    requires Good(live)
    ensures Ordered(PartsOf(live, id))
    ensures forall p <- PartsOf(live, id) :: p.id == id && WellSized(p)
  {
  }

  lemma AbsorptionIntoOpened(live: Groups, group: Group, f: Fragment)
    ensures Absorption(live[f.id := group], group, f) == Absorption(live, group, f)
  {
    var g := Group(group.created, Place(group.parts, f), group.bufferedBytes + |f.data|);
    assert live[f.id := group][f.id := g] == live[f.id := g];
    assert live[f.id := group] - {f.id} == live - {f.id};
  }

  lemma FitsIfDisjoint(live: Groups, f: Fragment)
    requires Good(live) && WellSized(f)
    requires !Collides(PartsOf(live, f.id), f)
    ensures Fits(PartsOf(live, f.id), f)
  {
    PartsOfGood(live, f.id);
  }

  lemma InsertionLiveKeepsGood(live: Groups, f: Fragment, now: nat)
    requires Good(live) && |f.data| > 0
    ensures Good(InsertionLive(live, f, now).groups)
  {
    if f.End() > MAX_PACKET || (f.id !in live && |live| >= MAX_GROUPS)
       || HasOffset(PartsOf(live, f.id), f.offset) {
      assert InsertionLive(live, f, now).groups == live;
    } else if Collides(PartsOf(live, f.id), f) {
      RemovalKeepsGood(live, f.id);
    } else {
      FitsIfDisjoint(live, f);
      PartsOfGood(live, f.id);
      var group := GroupFor(live, f.id, now);
      assert group.bufferedBytes == |Concat(group.parts)|;
      AbsorptionKeepsGood(live, group, f);
      assert InsertionLive(live, f, now) == Absorption(live, group, f);
    }
  }

  /** Every insert of a non-empty fragment keeps the state good, whatever it answers. */
  lemma InsertionKeepsGood(groups: Groups, f: Fragment, now: nat)
    requires Good(groups) && |f.data| > 0
    ensures Good(Insertion(groups, f, now).groups)
  {
    LiveKeepsGood(groups, now);
    InsertionLiveKeepsGood(Live(groups, now), f, now);
  }

  ghost predicate Covered(parts: seq<Fragment>, i: nat) {
    exists p <- parts :: p.offset <= i < p.End()
  }

  /** `packet` is what `parts` say: each stands at its own offset, together they fill it, and its end is marked EOP. */
  ghost predicate Agrees(packet: seq<Byte>, parts: seq<Fragment>) {
    && (forall p <- parts :: p.End() <= |packet| && packet[p.offset..p.End()] == p.data)
    && (forall i | 0 <= i < |packet| :: Covered(parts, i))
    && (exists p <- parts :: p.endOfPacket && p.End() == |packet|)
  }

  lemma AgreesUpToOrder(packet: seq<Byte>, parts: seq<Fragment>, others: seq<Fragment>)
    requires Agrees(packet, parts)
    requires forall p :: p in parts <==> p in others
    ensures Agrees(packet, others)
  {
    forall i | 0 <= i < |packet| ensures Covered(others, i) {
      assert Covered(parts, i);
    }
  }

  lemma AssemblyAgrees(parts: seq<Fragment>, packet: seq<Byte>)
    requires Ordered(parts) && Assembly(parts) == Ok(Some(packet))
    ensures Agrees(packet, parts)
  {
    ScanIsExact(parts, TotalLength(parts, 0).value);
    ConcatLength(parts);
    forall i: nat | i < |parts|
      ensures parts[i].End() <= |packet| && packet[parts[i].offset..parts[i].End()] == parts[i].data
    {
      ConcatAt(parts, i);
    }
    forall i | 0 <= i < |packet| ensures Covered(parts, i) {
      var p := Covering(parts, i);
    }
    assert parts[|parts| - 1] in parts;
  }

  /** Only a fragment that joined its group can answer with a packet. */
  lemma EmissionIsAssembly(live: Groups, f: Fragment, now: nat, packet: seq<Byte>)
    requires Good(live) && |f.data| > 0
    requires InsertionLive(live, f, now).result == Ok(Some(packet))
    ensures Fits(PartsOf(live, f.id), f)
    ensures Assembly(Place(PartsOf(live, f.id), f)) == Ok(Some(packet))
    ensures InsertionLive(live, f, now).groups == live - {f.id}
  {
    FitsIfDisjoint(live, f);
    assert InsertionLive(live, f, now) == Absorption(live, GroupFor(live, f.id, now), f);
  }

  /** An emitted packet agrees with the fragments held for that id and the new one, and the group is gone afterwards. */
  lemma EmittedPacketAgrees(groups: Groups, f: Fragment, now: nat, packet: seq<Byte>)
    requires Good(groups) && |f.data| > 0
    requires Insertion(groups, f, now).result == Ok(Some(packet))
    ensures Agrees(packet, PartsOf(Live(groups, now), f.id) + [f])
    ensures 0 < |packet| <= MAX_PACKET
    ensures f.id !in Insertion(groups, f, now).groups
  {
    var live: Groups := Live(groups, now);
    var parts := PartsOf(live, f.id);
    LiveKeepsGood(groups, now);
    EmissionIsAssembly(live, f, now, packet);
    PlaceOrdered(parts, f);
    PlaceMembers(parts, f);
    AssemblyAgrees(Place(parts, f), packet);
    AgreesUpToOrder(packet, Place(parts, f), parts + [f]);
    EndOfPacketBound(packet, parts, f);
  }

  lemma EndOfPacketBound(packet: seq<Byte>, parts: seq<Fragment>, f: Fragment)
    requires Agrees(packet, parts + [f]) && Fits(parts, f)
    ensures 0 < |packet| <= MAX_PACKET
  {
    var p :| p in parts + [f] && p.End() == |packet|;
    assert WellSized(p);
  }

  // ----- the reassembler

  class SrFragmentReassembler {
    var groups: Groups
    var bufferedBytes: nat

    ghost predicate Valid()
      reads this
    {
      Good(groups) && bufferedBytes == BytesHeld(groups)
    }

    constructor ()
      ensures Valid() && groups == map[]
    {
      groups, bufferedBytes := map[], 0;
    }

    method Clear()
      modifies this
      ensures Valid() && groups == map[]
    {
      groups, bufferedBytes := map[], 0;
    }

    method RemoveGroup(id: U32)
      requires bufferedBytes == BytesHeld(groups)
      modifies this
      ensures groups == old(groups) - {id} && bufferedBytes == BytesHeld(groups)
    {
      if id in groups {
        BytesWithout(groups, id);
        bufferedBytes := bufferedBytes - groups[id].bufferedBytes;
        groups := groups - {id};
      } else {
        assert groups - {id} == groups;
      }
    }

    method PurgeExpired(now: nat)
      requires bufferedBytes == BytesHeld(groups)
      modifies this
      ensures groups == Live(old(groups), now) && bufferedBytes == BytesHeld(groups)
    {
      var expired: set<U32> := set id | id in groups && Expired(groups[id], now);
      while expired != {}
        invariant bufferedBytes == BytesHeld(groups)
        invariant groups.Keys <= old(groups).Keys
        invariant forall id <- groups :: groups[id] == old(groups)[id]
        invariant forall id <- expired :: id in groups && Expired(groups[id], now)
        invariant forall id <- old(groups) :: id in groups || Expired(old(groups)[id], now)
        invariant forall id <- groups :: id in expired || !Expired(groups[id], now)
        decreases |expired|
      {
        var id :| id in expired;
        RemoveGroup(id);
        expired := expired - {id};
      }
      assert groups == Live(old(groups), now);
    }

    /**
      * Insert one fragment. The counter stays equal to the bytes held, at most sixteen groups of 8192;
      * no subtraction underflows, and of the source's errors only those of `Insertion` can occur.
      */
    method Insert(fragment: Fragment, now: nat) returns (r: Result<Option<seq<Byte>>, Error>)
      requires Valid() && |fragment.data| > 0
      modifies this
      ensures Valid() && bufferedBytes <= MAX_GROUPS * MAX_PACKET
      ensures Outcome(groups, r) == Insertion(old(groups), fragment, now)
    {
      InsertionKeepsGood(groups, fragment, now);
      LiveKeepsGood(groups, now);
      BytesBounded(Live(groups, now));
      BytesBounded(Insertion(groups, fragment, now).groups);
      PurgeExpired(now);
      r := InsertLive(fragment, now);
    }

    /** The insert proper, once expired groups are gone. */
    method InsertLive(fragment: Fragment, now: nat) returns (r: Result<Option<seq<Byte>>, Error>)
      requires bufferedBytes == BytesHeld(groups) <= MAX_GROUPS * MAX_PACKET
      requires |fragment.data| > 0 && Ordered(PartsOf(groups, fragment.id))
      requires forall p <- PartsOf(groups, fragment.id) :: WellSized(p)
      modifies this
      ensures bufferedBytes == BytesHeld(groups)
      ensures Outcome(groups, r) == InsertionLive(old(groups), fragment, now)
    {
      if fragment.End() > MAX_PACKET {
        return Err(FragmentTooLarge);
      }
      var id := fragment.id;
      if id in groups && HasOffset(groups[id].parts, fragment.offset) {
        return Ok(None);
      }
      if id !in groups && |groups| >= MAX_GROUPS {
        return Err(FragmentTooLarge);
      }
      if bufferedBytes + |fragment.data| > MAX_BUFFERED {
        assert false;
        return Err(FragmentTooLarge);
      }
      ghost var group := GroupFor(groups, id, now);
      assert group.parts == PartsOf(groups, id);
      AbsorptionIntoOpened(groups, group, fragment);
      OpenGroup(id, now);
      if Collides(groups[id].parts, fragment) {
        RemoveGroup(id);
        assert groups == old(groups) - {id};
        return Err(InvalidFragment(OverlappingOffsets));
      }
      r := AddPart(fragment);
    }

    /** The group for `id`, created empty at `now` if there is none. */
    method OpenGroup(id: U32, now: nat)
      requires bufferedBytes == BytesHeld(groups)
      modifies this
      ensures groups == old(groups)[id := GroupFor(old(groups), id, now)]
      ensures bufferedBytes == BytesHeld(groups)
    {
      if id !in groups {
        BytesUpdated(groups, id, Group(now, [], 0));
        assert groups - {id} == groups;
        groups := groups[id := Group(now, [], 0)];
      } else {
        assert groups[id := groups[id]] == groups;
      }
    }

    /** The second half of an insert: the fragment joins its open group, which may now be complete. */
    method AddPart(fragment: Fragment) returns (r: Result<Option<seq<Byte>>, Error>)
      requires fragment.id in groups && bufferedBytes == BytesHeld(groups)
      requires Fits(groups[fragment.id].parts, fragment)
      modifies this
      ensures bufferedBytes == BytesHeld(groups)
      ensures Outcome(groups, r) == Absorption(old(groups), old(groups)[fragment.id], fragment)
    {
      var id := fragment.id;
      var parts := Place(groups[id].parts, fragment);
      PlaceOrdered(groups[id].parts, fragment);
      PlaceMembers(groups[id].parts, fragment);
      var group := Group(groups[id].created, parts, groups[id].bufferedBytes + |fragment.data|);
      BytesWithout(groups, id);
      BytesUpdated(groups, id, group);
      bufferedBytes := bufferedBytes + |fragment.data|;
      groups := groups[id := group];

      r := Assemble(parts);
      if r != Ok(None) {
        assert groups - {id} == old(groups) - {id};
        RemoveGroup(id);
      }
    }
  }

  /** Scan the sorted parts and join them if they make a whole packet. */
  method Assemble(parts: seq<Fragment>) returns (r: Result<Option<seq<Byte>>, Error>)
    requires Ordered(parts) && forall p <- parts :: |p.data| > 0
    ensures r == Assembly(parts)
  {
    var total := ScanParts(parts);
    if total.None? {
      return Ok(None);
    }
    if Follows(parts, total.value) {
      return Err(InvalidFragment(DataAfterEnd));
    }
    ScanIsExact(parts, total.value);
    var packet := JoinParts(parts, total.value);
    if |packet| != total.value {
      assert false;
      return Err(InvalidFragment(CoverageChanged));
    }
    return Ok(Some(packet));
  }

  /** The scan over the sorted parts for a gapless run that ends in an EOP part. */
  method ScanParts(parts: seq<Fragment>) returns (total: Option<nat>)
    ensures total == TotalLength(parts, 0)
  {
    var expected := 0;
    for i := 0 to |parts|
      invariant TotalLength(parts[i..], expected) == TotalLength(parts, 0)
    {
      if parts[i].offset != expected {
        return None;
      }
      expected := parts[i].End();
      if parts[i].endOfPacket {
        return Some(expected);
      }
      assert parts[i..][1..] == parts[i + 1..];
    }
    return None;
  }

  /** Append the parts' bytes until `total` of them have been gathered. */
  method JoinParts(parts: seq<Fragment>, total: nat) returns (packet: seq<Byte>)
    requires forall p <- parts :: |p.data| > 0
    requires |Concat(parts)| == total
    ensures packet == Concat(parts)
  {
    packet := [];
    for i := 0 to |parts|
      invariant packet == Concat(parts[..i])
    {
      assert parts[..i + 1][..i] == parts[..i];
      if |packet| == total {
        ConcatGrows(parts, i);
        assert false;
        break;
      }
      packet := packet + parts[i].data;
    }
    assert parts[..|parts|] == parts;
  }

  lemma {:induction false} ConcatGrows(parts: seq<Fragment>, i: nat)
    requires i < |parts| && forall p <- parts :: |p.data| > 0
    ensures |Concat(parts[..i])| < |Concat(parts)|
  {
    var n := |parts|;
    if i < n - 1 {
      assert parts[..n - 1][..i] == parts[..i];
      ConcatGrows(parts[..n - 1], i);
    }
  }
}
