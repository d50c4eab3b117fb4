/** Reading DNS answers through CNAME chains, and the lookup loop that follows a chain across queries. */
module DnsLookup {
  import opened Wrappers
  import opened Bytes

  const MAX_DEPTH: nat := 8
  const NO_TTL: U32 := 0xffff_ffff

  // Names and addresses are only compared, so numbers stand for them.
  type Name = nat
  type Address = nat

  datatype RecordType = A | Aaaa

  datatype Data = Cname(target: Name) | HostA(address: Address) | HostAaaa(address: Address) | Other

  datatype Record = Record(name: Name, data: Data, ttl: U32)

  datatype Parsed = Parsed(addresses: seq<Address>, canonical: Option<Name>, ttl: U32)

  // ----- reachability through CNAME records

  /** The names reachable from the query within `hops` CNAME records of the answer that live at least `life`. */
  ghost function Reach(answers: seq<Record>, query: Name, life: U32, hops: nat): set<Name> {
    if hops == 0 then {query} else
      var near := Reach(answers, query, life, hops - 1);
      near + (set r | r in answers && r.name in near && r.data.Cname? && r.ttl >= life :: r.data.target)
  }

  /** All names within eight hops, however long their records live. */
  ghost function Near(answers: seq<Record>, query: Name): set<Name> {
    Reach(answers, query, 0, MAX_DEPTH)
  }

  ghost predicate Reachable(answers: seq<Record>, query: Name, life: U32, name: Name) {
    exists hops: nat :: name in Reach(answers, query, life, hops)
  }

  lemma {:induction false} ReachGrows(answers: seq<Record>, query: Name, life: U32, m: nat, n: nat)
    requires m <= n
    ensures Reach(answers, query, life, m) <= Reach(answers, query, life, n)
  {
    if m < n {
      ReachGrows(answers, query, life, m, n - 1);
    }
  }

  /** What long-lived records reach, shorter-lived ones do too. */
  lemma {:induction false} ReachWidens(answers: seq<Record>, query: Name, life: U32, less: U32, hops: nat)
    requires less <= life
    ensures Reach(answers, query, life, hops) <= Reach(answers, query, less, hops)
  {
    if hops > 0 {
      ReachWidens(answers, query, life, less, hops - 1);
    }
  }

  lemma ReachableWidens(answers: seq<Record>, query: Name, life: U32, less: U32, name: Name)
    requires less <= life && Reachable(answers, query, life, name)
    ensures Reachable(answers, query, less, name)
  {
    var hops: nat :| name in Reach(answers, query, life, hops);
    ReachWidens(answers, query, life, less, hops);
  }

  lemma TargetIsReachable(answers: seq<Record>, query: Name, life: U32, r: Record)
    requires r in answers && r.data.Cname? && r.ttl >= life && Reachable(answers, query, life, r.name)
    ensures Reachable(answers, query, life, r.data.target)
  {
    var hops: nat :| r.name in Reach(answers, query, life, hops);
    assert r.data.target in Reach(answers, query, life, hops + 1);
  }

  // ----- the accepted names

  ghost predicate AllReachable(answers: seq<Record>, query: Name, life: U32, names: set<Name>) {
    forall n <- names :: Reachable(answers, query, life, n)
  }

  lemma AllReachableWidens(answers: seq<Record>, query: Name, life: U32, less: U32, names: set<Name>)
    requires less <= life && AllReachable(answers, query, life, names)
    ensures AllReachable(answers, query, less, names)
  {
    forall n | n in names ensures Reachable(answers, query, less, n) {
      ReachableWidens(answers, query, life, less, n);
    }
  }

  /** The lifetime is unset or that of some record. */
  ghost predicate SomeTtl(answers: seq<Record>, ttl: U32) {
    ttl == NO_TTL || exists r <- answers :: r.ttl == ttl
  }

  function Shorter(a: U32, b: U32): U32 {
    if b < a then b else a
  }

  /** What the passes over the answers keep: the names taken in, the one taken in last, and the lifetime. */
  datatype Names = Names(accepted: set<Name>, canonical: Option<Name>, ttl: U32)

  function Followed(s: Names, r: Record): Names {
    if r.name in s.accepted && r.data.Cname? && r.data.target !in s.accepted
    then Names(s.accepted + {r.data.target}, Some(r.data.target), Shorter(s.ttl, r.ttl)) else s
  }

  /** One pass over the records, in order. */
  function PassOver(records: seq<Record>, s: Names): Names {
    if records == [] then s else Followed(PassOver(records[..|records| - 1], s), records[|records| - 1])
  }

  function Passes(answers: seq<Record>, s: Names, n: nat): Names
    decreases n, answers
  {
    if n == 0 then s else Passes(answers, PassOver(answers, s), n - 1)
  }

  /** The name that the answers put in place of the query, if any. */
  function Canonical(answers: seq<Record>, query: Name): Option<Name> {
    Passes(answers, Names({query}, None, NO_TTL), MAX_DEPTH).canonical
  }

  /** Passes that change nothing may be left out. */
  lemma {:induction false} PassesStay(answers: seq<Record>, s: Names, n: nat)
    requires PassOver(answers, s) == s
    ensures Passes(answers, s, n) == s
  {
    if n > 0 {
      PassesStay(answers, s, n - 1);
    }
  }

  // ----- what the canonical name of a chain is

  ghost predicate LinksOn(answers: seq<Record>, name: Name, next: Name) {
    exists r <- answers :: r.name == name && r.data == Cname(next)
  }

  /**
    * The CNAME records of these names make one chain of them, from the first to the last, in whatever order they stand.
    */
  ghost predicate OneChain(answers: seq<Record>, names: seq<Name>) {
    && names != [] && (forall i, j | 0 <= i < j < |names| :: names[i] != names[j])
    && (forall i | 0 <= i < |names| - 1 :: LinksOn(answers, names[i], names[i + 1]))
    && (forall r <- answers, i | 0 <= i < |names| && r.name == names[i] && r.data.Cname? ::
          i < |names| - 1 && r.data.target == names[i + 1])
  }

  /** The names up to the `i`-th have been taken in. */
  ghost predicate AtLink(s: Names, names: seq<Name>, i: nat)
    requires i < |names|
  {
    && (forall n :: n in s.accepted <==> n in names[..i + 1])
    && s.canonical == if i == 0 then None else Some(names[i])
  }

  lemma FollowedLink(answers: seq<Record>, names: seq<Name>, s: Names, r: Record, i: nat) returns (j: nat)
    requires OneChain(answers, names) && i < |names| && AtLink(s, names, i) && r in answers
    ensures i <= j < |names| && AtLink(Followed(s, r), names, j)
    ensures r.name == names[i] && r.data.Cname? ==> j == i + 1
  {
    j := i;
    if r.name in s.accepted && r.data.Cname? {
      var k :| 0 <= k <= i && names[..i + 1][k] == r.name;
      assert r.data.target == names[k + 1];
      if k < i {
        assert names[k + 1] == names[..i + 1][k + 1];
        assert names[i] != names[k];
      } else {
        j := i + 1;
        assert names[..i + 2] == names[..i + 1] + [names[i + 1]];
        assert names[i + 1] !in names[..i + 1];
      }
    } else if r.name == names[i] {
      assert names[..i + 1][i] == names[i];
    }
  }

  lemma {:induction false} PassOverLinks(answers: seq<Record>, names: seq<Name>, records: seq<Record>, s: Names, i: nat)
    returns (j: nat)
    requires OneChain(answers, names) && i < |names| && AtLink(s, names, i) && forall r <- records :: r in answers
    ensures i <= j < |names| && AtLink(PassOver(records, s), names, j)
    ensures (exists r <- records :: r.name == names[i] && r.data.Cname?) ==> j > i
  {
    j := i;
    if records != [] {
      var n := |records| - 1;
      var front, last := records[..n], records[n];
      assert last in records && forall r <- front :: r in records;
      var k := PassOverLinks(answers, names, front, s, i);
      j := FollowedLink(answers, names, PassOver(front, s), last, k);
      assert records == front + [last];
    }
  }

  lemma {:induction false} PassesLinks(answers: seq<Record>, names: seq<Name>, s: Names, i: nat, n: nat)
    returns (j: nat)
    requires OneChain(answers, names) && i < |names| && AtLink(s, names, i)
    ensures i <= j < |names| && AtLink(Passes(answers, s, n), names, j) && (j >= i + n || j == |names| - 1)
    decreases n
  {
    j := i;
    if n > 0 {
      var k := PassOverLinks(answers, names, answers, s, i);
      if i < |names| - 1 {
        assert LinksOn(answers, names[i], names[i + 1]);
      }
      j := PassesLinks(answers, names, PassOver(answers, s), k, n - 1);
    }
  }

  /** The canonical name of a query at the head of a chain of at most eight records is the chain's end. */
  lemma CanonicalIsChainEnd(answers: seq<Record>, names: seq<Name>)
    requires OneChain(answers, names) && |names| <= 9
    ensures Canonical(answers, names[0]) == if |names| == 1 then None else Some(names[|names| - 1])
  {
    var s := Names({names[0]}, None, NO_TTL);
    assert names[..1] == [names[0]];
    var j := PassesLinks(answers, names, s, 0, MAX_DEPTH);
  }

  /** The names taken in so far: reached through records that live at least `ttl`, the query among them. */
  ghost predicate Accepted(answers: seq<Record>, query: Name, names: set<Name>, canonical: Option<Name>, ttl: U32) {
    && query in names && AllReachable(answers, query, ttl, names) && SomeTtl(answers, ttl)
    && (canonical.Some? ==> canonical.value in names && canonical.value != query)
    && (canonical.None? ==> names == {query})
  }

  lemma AcceptsTarget(answers: seq<Record>, query: Name, names: set<Name>, canonical: Option<Name>, ttl: U32, r: Record)
    requires Accepted(answers, query, names, canonical, ttl)
    requires r in answers && r.name in names && r.data.Cname? && r.data.target !in names
    ensures Accepted(answers, query, names + {r.data.target}, Some(r.data.target), Shorter(ttl, r.ttl))
  {
    var less := Shorter(ttl, r.ttl);
    AllReachableWidens(answers, query, ttl, less, names);
    TargetIsReachable(answers, query, less, r);
  }

  /** The targets of these records, where their names are taken in, are taken in as well. */
  ghost predicate TargetsIn(records: seq<Record>, names: set<Name>, accepted: set<Name>) {
    forall r <- records :: r.name in names && r.data.Cname? ==> r.data.target in accepted
  }

  lemma TargetsInNext(records: seq<Record>, i: nat, names: set<Name>, accepted: set<Name>)
    requires i < |records| && TargetsIn(records[..i], names, accepted)
    requires records[i].name in names && records[i].data.Cname? ==> records[i].data.target in accepted
    ensures TargetsIn(records[..i + 1], names, accepted)
  {
    assert records[..i + 1] == records[..i] + [records[i]];
  }

  /**
    * One pass over the answers: targets of accepted names become accepted, also within the pass, and the
    * lifetime falls to that of every record followed.
    */
  method Pass(answers: seq<Record>, query: Name, start: set<Name>, canonical0: Option<Name>, ttl0: U32)
    returns (accepted: set<Name>, canonical: Option<Name>, ttl: U32, changed: bool)
    requires Accepted(answers, query, start, canonical0, ttl0)
    ensures start <= accepted && Accepted(answers, query, accepted, canonical, ttl) && ttl <= ttl0
    ensures TargetsIn(answers, start, accepted)
    ensures Names(accepted, canonical, ttl) == PassOver(answers, Names(start, canonical0, ttl0))
    ensures !changed ==> Names(accepted, canonical, ttl) == Names(start, canonical0, ttl0)
  {
    accepted, canonical, ttl, changed := start, canonical0, ttl0, false;
    for i := 0 to |answers|
      invariant start <= accepted && Accepted(answers, query, accepted, canonical, ttl) && ttl <= ttl0
      invariant TargetsIn(answers[..i], start, accepted)
      invariant Names(accepted, canonical, ttl) == PassOver(answers[..i], Names(start, canonical0, ttl0))
      invariant !changed ==> Names(accepted, canonical, ttl) == Names(start, canonical0, ttl0)
    {
      var r := answers[i];
      assert answers[..i + 1][..i] == answers[..i];
      if r.name in accepted && r.data.Cname? && r.data.target !in accepted {
        AcceptsTarget(answers, query, accepted, canonical, ttl, r);
        accepted := accepted + {r.data.target};
        canonical := Some(r.data.target);
        ttl := Shorter(ttl, r.ttl);
        changed := true;
      }
      TargetsInNext(answers, i, start, accepted);
    }
    assert answers[..|answers|] == answers;
  }

  lemma PassReaches(answers: seq<Record>, query: Name, start: set<Name>, accepted: set<Name>, hops: nat)
    requires Reach(answers, query, 0, hops) <= start <= accepted && TargetsIn(answers, start, accepted)
    ensures Reach(answers, query, 0, hops + 1) <= accepted
  {
  }

  lemma {:induction false} ClosedHoldsAll(answers: seq<Record>, query: Name, closed: set<Name>, hops: nat)
    requires query in closed && TargetsIn(answers, closed, closed)
    ensures Reach(answers, query, 0, hops) <= closed
  {
    if hops > 0 {
      ClosedHoldsAll(answers, query, closed, hops - 1);
    }
  }

  /**
    * The accepted names are all reached through records that live at least the lifetime, and include everything
    * within eight hops.
    */
  method AcceptNames(answers: seq<Record>, query: Name) returns (accepted: set<Name>, canonical: Option<Name>, ttl: U32)
    ensures Taken(answers, query, Names(accepted, canonical, ttl))
  {
    accepted, canonical, ttl := {query}, None, NO_TTL;
    SoFarStarts(answers, query);
    var depth := 0;
    while depth < MAX_DEPTH
      invariant depth <= MAX_DEPTH && SoFar(answers, query, Names(accepted, canonical, ttl), depth)
    {
      var changed;
      ghost var start := Names(accepted, canonical, ttl);
      accepted, canonical, ttl, changed := Pass(answers, query, accepted, canonical, ttl);
      if !changed {
        SoFarEnds(answers, query, start, depth);
        return;
      }
      SoFarNext(answers, query, start, Names(accepted, canonical, ttl), depth);
      depth := depth + 1;
    }
    SoFarDone(answers, query, Names(accepted, canonical, ttl));
  }

  /** The names to read addresses for: nothing within eight hops is left out. */
  ghost predicate Taken(answers: seq<Record>, query: Name, s: Names) {
    && Accepted(answers, query, s.accepted, s.canonical, s.ttl)
    && Near(answers, query) <= s.accepted && s.canonical == Canonical(answers, query)
  }

  lemma SoFarStarts(answers: seq<Record>, query: Name)
    ensures SoFar(answers, query, Names({query}, None, NO_TTL), 0)
  {
    assert query in Reach(answers, query, NO_TTL, 0);
  }

  lemma SoFarDone(answers: seq<Record>, query: Name, s: Names)
    requires SoFar(answers, query, s, MAX_DEPTH)
    ensures Taken(answers, query, s)
  {
  }

  /** What holds after `depth` passes. */
  ghost predicate SoFar(answers: seq<Record>, query: Name, s: Names, depth: nat)
    requires depth <= MAX_DEPTH
  {
    && Accepted(answers, query, s.accepted, s.canonical, s.ttl)
    && Reach(answers, query, 0, depth) <= s.accepted
    && Passes(answers, s, MAX_DEPTH - depth).canonical == Canonical(answers, query)
  }

  lemma SoFarNext(answers: seq<Record>, query: Name, s: Names, next: Names, depth: nat)
    requires depth < MAX_DEPTH && SoFar(answers, query, s, depth) && next == PassOver(answers, s)
    requires Accepted(answers, query, next.accepted, next.canonical, next.ttl)
    requires s.accepted <= next.accepted && TargetsIn(answers, s.accepted, next.accepted)
    ensures SoFar(answers, query, next, depth + 1)
  {
    PassReaches(answers, query, s.accepted, next.accepted, depth);
  }

  lemma SoFarEnds(answers: seq<Record>, query: Name, s: Names, depth: nat)
    requires depth < MAX_DEPTH && SoFar(answers, query, s, depth) && PassOver(answers, s) == s
    requires TargetsIn(answers, s.accepted, s.accepted)
    ensures Taken(answers, query, s)
  {
    ClosedHoldsAll(answers, query, s.accepted, MAX_DEPTH);
    PassesStay(answers, s, MAX_DEPTH - depth);
  }

  // ----- the addresses

  predicate Matches(r: Record, names: set<Name>, wanted: RecordType) {
    r.name in names && (if wanted.A? then r.data.HostA? else r.data.HostAaaa?)
  }

  /** The addresses of matching records, in order. */
  function Found(answers: seq<Record>, names: set<Name>, wanted: RecordType): seq<Address> {
    if answers == [] then [] else
      var last := answers[|answers| - 1];
      Found(answers[..|answers| - 1], names, wanted)
      + (if Matches(last, names, wanted) then [last.data.address] else [])
  }

  /** Each address once, at its first place. */
  function FirstOnly(addresses: seq<Address>): seq<Address> {
    if addresses == [] then [] else
      var rest, last := FirstOnly(addresses[..|addresses| - 1]), addresses[|addresses| - 1];
      if last in rest then rest else rest + [last]
  }

  lemma {:induction false} FoundMembers(answers: seq<Record>, names: set<Name>, wanted: RecordType, a: Address)
    ensures a in Found(answers, names, wanted) <==>
            exists r <- answers :: Matches(r, names, wanted) && r.data.address == a
  {
    if answers != [] {
      FoundMembers(answers[..|answers| - 1], names, wanted, a);
      assert answers == answers[..|answers| - 1] + [answers[|answers| - 1]];
    }
  }

  lemma {:induction false} FirstOnlyKeeps(addresses: seq<Address>)
    ensures forall a :: a in FirstOnly(addresses) <==> a in addresses
    ensures forall i, j | 0 <= i < j < |FirstOnly(addresses)| :: FirstOnly(addresses)[i] != FirstOnly(addresses)[j]
  {
    if addresses != [] {
      FirstOnlyKeeps(addresses[..|addresses| - 1]);
      assert addresses == addresses[..|addresses| - 1] + [addresses[|addresses| - 1]];
    }
  }

  /** The place of the first occurrence. */
  function FirstPlace(addresses: seq<Address>, a: Address): nat
    requires a in addresses
  {
    var front := addresses[..|addresses| - 1];
    if a in front then FirstPlace(front, a) else |addresses| - 1
  }

  lemma {:induction false} FirstPlaceBound(addresses: seq<Address>, a: Address)
    requires a in addresses
    ensures FirstPlace(addresses, a) < |addresses| && addresses[FirstPlace(addresses, a)] == a
    ensures forall i | 0 <= i < FirstPlace(addresses, a) :: addresses[i] != a
  {
    var front := addresses[..|addresses| - 1];
    if a in front {
      FirstPlaceBound(front, a);
    } else {
      assert forall i | 0 <= i < |front| :: front[i] in front;
    }
  }

  /** The addresses stand in the order of their first occurrence. */
  lemma {:induction false} FirstOnlyInOrder(addresses: seq<Address>, i: nat, j: nat)
    requires i < j < |FirstOnly(addresses)|
    ensures FirstOnly(addresses)[i] in addresses && FirstOnly(addresses)[j] in addresses
    ensures FirstPlace(addresses, FirstOnly(addresses)[i]) < FirstPlace(addresses, FirstOnly(addresses)[j])
  {
    FirstOnlyKeeps(addresses);
    var n := |addresses| - 1;
    var front, last := addresses[..n], addresses[n];
    FirstOnlyKeeps(front);
    var all, before := FirstOnly(addresses), FirstOnly(front);
    assert before[i] in front && all[i] == before[i];
    if j < |before| {
      FirstOnlyInOrder(front, i, j);
    } else {
      FirstPlaceBound(front, all[i]);
    }
  }

  method CollectAddresses(answers: seq<Record>, names: set<Name>, wanted: RecordType, ttl0: U32)
    returns (addresses: seq<Address>, ttl: U32)
    requires SomeTtl(answers, ttl0)
    ensures addresses == FirstOnly(Found(answers, names, wanted))
    ensures ttl <= ttl0 && SomeTtl(answers, ttl)
    ensures forall r <- answers :: Matches(r, names, wanted) ==> ttl <= r.ttl
  {
    var all := [];
    ttl := ttl0;
    for i := 0 to |answers|
      invariant all == Found(answers[..i], names, wanted)
      invariant ttl <= ttl0 && SomeTtl(answers, ttl)
      invariant forall r <- answers[..i] :: Matches(r, names, wanted) ==> ttl <= r.ttl
    {
      var r := answers[i];
      assert answers[..i + 1][..i] == answers[..i] && answers[..i + 1] == answers[..i] + [r] && r in answers;
      if Matches(r, names, wanted) {
        all := all + [r.data.address];
        ttl := Shorter(ttl, r.ttl);
      }
    }
    assert answers[..|answers|] == answers;
    addresses := Unique(all);
  }

  method Unique(all: seq<Address>) returns (unique: seq<Address>)
    ensures unique == FirstOnly(all)
  {
    unique := [];
    var seen: set<Address> := {};
    for i := 0 to |all|
      invariant unique == FirstOnly(all[..i]) && seen == set a | a in unique
    {
      assert all[..i + 1][..i] == all[..i];
      if all[i] !in seen {
        seen := seen + {all[i]};
        unique := unique + [all[i]];
      }
    }
    assert all[..|all|] == all;
  }

  /** An address is owned when some name has it in the answer. */
  ghost predicate Owns(answers: seq<Record>, name: Name, wanted: RecordType, a: Address) {
    exists r <- answers :: Matches(r, {name}, wanted) && r.data.address == a
  }

  /** Names reached through records that live at least `life`, none within eight hops left out. */
  ghost predicate Closure(answers: seq<Record>, query: Name, life: U32, names: set<Name>) {
    AllReachable(answers, query, life, names) && Near(answers, query) <= names
  }

  /**
    * The addresses of these names, each once in order of first occurrence, and no more lifetime than any of their
    * records.
    */
  ghost predicate ReadFor(answers: seq<Record>, names: set<Name>, wanted: RecordType, parsed: Parsed) {
    && parsed.addresses == FirstOnly(Found(answers, names, wanted))
    && (forall r <- answers :: Matches(r, names, wanted) ==> parsed.ttl <= r.ttl)
    && (parsed.ttl == 0 || exists r <- answers :: r.ttl == parsed.ttl)
  }

  /** A right reading of the answers: one for some closure of the query that lives as long as the reading does. */
  ghost predicate Reads(answers: seq<Record>, query: Name, wanted: RecordType, parsed: Parsed) {
    exists names :: Closure(answers, query, parsed.ttl, names) && ReadFor(answers, names, wanted, parsed)
  }

  /** The address belongs to a name that records reach which live at least `life`. */
  ghost predicate OwnedFor(answers: seq<Record>, query: Name, life: U32, wanted: RecordType, a: Address) {
    exists n :: Reachable(answers, query, life, n) && Owns(answers, n, wanted, a)
  }

  /**
    * Whatever the closure, a right reading has only addresses owned by names that the query reaches through
    * CNAME records living at least as long as the reading, all addresses within eight hops, none twice, and
    * lives no longer than any address record of a name within eight hops.
    */
  lemma ReadingIsRight(answers: seq<Record>, query: Name, wanted: RecordType, parsed: Parsed)
    requires Reads(answers, query, wanted, parsed)
    ensures forall a <- parsed.addresses :: OwnedFor(answers, query, parsed.ttl, wanted, a)
    ensures forall n, a | n in Near(answers, query) && Owns(answers, n, wanted, a) :: a in parsed.addresses
    ensures forall i, j | 0 <= i < j < |parsed.addresses| :: parsed.addresses[i] != parsed.addresses[j]
    ensures forall r <- answers :: Matches(r, Near(answers, query), wanted) ==> parsed.ttl <= r.ttl
    ensures parsed.addresses == [] ==> Silent(answers, query, wanted)
    ensures Typed(answers, query, wanted, parsed)
  {
    var names :| Closure(answers, query, parsed.ttl, names) && ReadFor(answers, names, wanted, parsed);
    FirstOnlyKeeps(Found(answers, names, wanted));
    forall a | a in parsed.addresses ensures OwnedFor(answers, query, parsed.ttl, wanted, a) {
      OwnerOf(answers, names, query, parsed.ttl, wanted, a);
    }
    forall n, a | n in Near(answers, query) && Owns(answers, n, wanted, a) ensures a in parsed.addresses {
      FoundWhenOwned(answers, names, n, wanted, a);
    }
    ReadingIsTyped(answers, query, wanted, parsed, names);
  }

  /** A record of the answer has this data, and its name is reached through records that live at least `life`. */
  ghost predicate Recorded(answers: seq<Record>, query: Name, life: U32, data: Data) {
    exists r <- answers :: r.data == data && Reachable(answers, query, life, r.name)
  }

  /**
    * For an A query the addresses are those of A records, for an AAAA query those of AAAA records: each returned
    * one stands in such a record of a reachable name, and each such record within eight hops is returned.
    */
  ghost predicate Typed(answers: seq<Record>, query: Name, wanted: RecordType, parsed: Parsed) {
    && (wanted.A? ==>
          && (forall a <- parsed.addresses :: Recorded(answers, query, parsed.ttl, HostA(a)))
          && (forall r <- answers :: r.data.HostA? && r.name in Near(answers, query) ==>
                r.data.address in parsed.addresses && parsed.ttl <= r.ttl))
    && (wanted.Aaaa? ==>
          && (forall a <- parsed.addresses :: Recorded(answers, query, parsed.ttl, HostAaaa(a)))
          && (forall r <- answers :: r.data.HostAaaa? && r.name in Near(answers, query) ==>
                r.data.address in parsed.addresses && parsed.ttl <= r.ttl))
  }

  lemma ReadingIsTyped(answers: seq<Record>, query: Name, wanted: RecordType, parsed: Parsed, names: set<Name>)
    requires Closure(answers, query, parsed.ttl, names) && ReadFor(answers, names, wanted, parsed)
    ensures Typed(answers, query, wanted, parsed) && (parsed.addresses == [] ==> Silent(answers, query, wanted))
  {
    FirstOnlyKeeps(Found(answers, names, wanted));
    forall a | a in parsed.addresses
      ensures Recorded(answers, query, parsed.ttl, if wanted.A? then HostA(a) else HostAaaa(a))
    {
      FoundMembers(answers, names, wanted, a);
      var r :| r in answers && Matches(r, names, wanted) && r.data.address == a;
      assert r.data == (if wanted.A? then HostA(a) else HostAaaa(a)) && Reachable(answers, query, parsed.ttl, r.name);
    }
    forall r | r in answers && r.name in Near(answers, query) && (if wanted.A? then r.data.HostA? else r.data.HostAaaa?)
      ensures r.data.address in parsed.addresses && parsed.ttl <= r.ttl
    {
      FoundMembers(answers, names, wanted, r.data.address);
      assert Matches(r, names, wanted);
    }
  }

  /**
    * Read the answers for a query. The canonical name is another name the query reaches; without one the
    * query reaches only itself.
    */
  method ParseAnswers(answers: seq<Record>, query: Name, wanted: RecordType) returns (parsed: Parsed)
    ensures Reads(answers, query, wanted, parsed) && Typed(answers, query, wanted, parsed)
    ensures parsed.canonical == Canonical(answers, query)
    ensures parsed.canonical.Some? ==>
              parsed.canonical.value != query && Reachable(answers, query, parsed.ttl, parsed.canonical.value)
    ensures parsed.canonical.None? ==> Near(answers, query) == {query}
  {
    var names, canonical, followed := AcceptNames(answers, query);
    ReachGrows(answers, query, 0, 0, MAX_DEPTH);
    var addresses, ttl := CollectAddresses(answers, names, wanted, followed);
    parsed := Parsed(addresses, canonical, if ttl == NO_TTL then 0 else ttl);
    AllReachableWidens(answers, query, followed, parsed.ttl, names);
    assert Closure(answers, query, parsed.ttl, names) && ReadFor(answers, names, wanted, parsed);
    ReadingIsTyped(answers, query, wanted, parsed, names);
  }

  lemma OwnerOf(answers: seq<Record>, names: set<Name>, query: Name, life: U32, wanted: RecordType, a: Address)
    requires AllReachable(answers, query, life, names) && a in Found(answers, names, wanted)
    ensures OwnedFor(answers, query, life, wanted, a)
  {
    FoundMembers(answers, names, wanted, a);
    var r :| r in answers && Matches(r, names, wanted) && r.data.address == a;
    assert Matches(r, {r.name}, wanted);
    assert Reachable(answers, query, life, r.name) && Owns(answers, r.name, wanted, a);
  }

  lemma FoundWhenOwned(answers: seq<Record>, names: set<Name>, n: Name, wanted: RecordType, a: Address)
    requires n in names && Owns(answers, n, wanted, a)
    ensures a in Found(answers, names, wanted)
  {
    var r :| r in answers && Matches(r, {n}, wanted) && r.data.address == a;
    assert Matches(r, names, wanted);
    FoundMembers(answers, names, wanted, a);
  }

  // ----- the lookup loop

  /** No name within eight hops of the query has an address of the wanted type in the answer. */
  ghost predicate Silent(answers: seq<Record>, query: Name, wanted: RecordType) {
    forall r <- answers | r.name in Near(answers, query) :: if wanted.A? then !r.data.HostA? else !r.data.HostAaaa?
  }

  /**
    * The DNS server behind an exchange: what it answers for a name, None when the exchange fails, and the
    * names it was asked for. No name is asked twice in a lookup, so an answer that changes with time is
    * covered as well.
    */
  class Server {
    const answers: Name -> Option<seq<Record>>
    var queries: seq<Name>

    constructor (answers: Name -> Option<seq<Record>>)
      ensures this.answers == answers && queries == []
    {
      this.answers, queries := answers, [];
    }

    method Exchange(name: Name) returns (r: Option<seq<Record>>)
      modifies this
      ensures queries == old(queries) + [name] && r == answers(name)
    {
      queries := queries + [name];
      r := answers(name);
    }
  }

  datatype LookupError = ExchangeFailed | CnameLoop | TooDeep | NoRecords

  /** The server's answer for `from` puts another name `to` in its place, to which CNAME records lead. */
  ghost predicate Leads(answers: Name -> Option<seq<Record>>, from: Name, to: Name) {
    && answers(from).Some? && Canonical(answers(from).value, from) == Some(to)
    && from != to && Reachable(answers(from).value, from, 0, to)
  }

  /** Each name is one the answer for the name before it leads to. */
  ghost predicate Chain(answers: Name -> Option<seq<Record>>, names: seq<Name>) {
    |names| <= 1 || (Chain(answers, names[..|names| - 1]) && Leads(answers, names[|names| - 2], names[|names| - 1]))
  }

  ghost predicate Distinct(names: seq<Name>) {
    forall i, j | 0 <= i < j < |names| :: names[i] != names[j]
  }

  /** The first `n` names were answered, without an address within reach. */
  ghost predicate SilentBefore(answers: Name -> Option<seq<Record>>, queried: seq<Name>, wanted: RecordType, n: nat)
    requires n <= |queried|
  {
    forall i | 0 <= i < n :: answers(queried[i]).Some? && Silent(answers(queried[i]).value, queried[i], wanted)
  }

  /** The last answer leads back to a name asked for before. */
  ghost predicate LeadsBack(answers: Name -> Option<seq<Record>>, queried: seq<Name>)
    requires queried != []
  {
    exists n <- queried :: Leads(answers, queried[|queried| - 1], n)
  }

  /** The answer for the name leads to some other name. */
  ghost predicate LeadsOn(answers: Name -> Option<seq<Record>>, name: Name) {
    exists n :: Leads(answers, name, n)
  }

  /** What each failure says about the last query. */
  ghost predicate Explains(answers: Name -> Option<seq<Record>>, queried: seq<Name>, wanted: RecordType,
                           error: LookupError)
    requires queried != []
  {
    var last := queried[|queried| - 1];
    match error
    case ExchangeFailed => answers(last).None?
    case NoRecords =>
      && answers(last).Some? && Silent(answers(last).value, last, wanted)
      && Near(answers(last).value, last) == {last}
    case CnameLoop => SilentBefore(answers, queried, wanted, |queried|) && LeadsBack(answers, queried)
    case TooDeep =>
      SilentBefore(answers, queried, wanted, |queried|) && |queried| == MAX_DEPTH && LeadsOn(answers, last)
  }

  datatype Asked = Answered(parsed: Parsed) | Failed(error: LookupError) | Onward(name: Name)

  /** What one query tells: a right reading that has addresses, a failure, or the name to ask for next. */
  ghost predicate Told(answers: Name -> Option<seq<Record>>, name: Name, wanted: RecordType, r: Asked) {
    match r
    case Answered(parsed) =>
      && answers(name).Some? && parsed.addresses != [] && Reads(answers(name).value, name, wanted, parsed)
      && Typed(answers(name).value, name, wanted, parsed)
    case Failed(error) => Explains(answers, [name], wanted, error) && !error.CnameLoop? && !error.TooDeep?
    case Onward(next) => Leads(answers, name, next) && Silent(answers(name).value, name, wanted)
  }

  /** One query. */
  method Ask(server: Server, name: Name, wanted: RecordType) returns (r: Asked)
    modifies server
    ensures server.queries == old(server.queries) + [name]
    ensures Told(server.answers, name, wanted, r)
  {
    var response := server.Exchange(name);
    if response.None? {
      return Failed(ExchangeFailed);
    }
    var parsed := ParseAnswers(response.value, name, wanted);
    if parsed.addresses != [] {
      return Answered(parsed);
    }
    ReadingIsRight(response.value, name, wanted, parsed);
    if parsed.canonical.None? {
      return Failed(NoRecords);
    }
    ReachableWidens(response.value, name, parsed.ttl, 0, parsed.canonical.value);
    return Onward(parsed.canonical.value);
  }

  /** The queries of a lookup: no name twice, each led to by the answer before it, which had no address. */
  ghost predicate Trail(answers: Name -> Option<seq<Record>>, queried: seq<Name>, host: Name, wanted: RecordType) {
    && 0 < |queried| <= MAX_DEPTH && queried[0] == host
    && Distinct(queried) && Chain(answers, queried)
    && SilentBefore(answers, queried, wanted, |queried| - 1)
  }

  /** A success is a right reading of the last answer, with addresses; a failure is explained by the answers. */
  ghost predicate Justified(answers: Name -> Option<seq<Record>>, queried: seq<Name>, wanted: RecordType,
                            r: Result<Parsed, LookupError>)
    requires queried != []
  {
    var last := queried[|queried| - 1];
    match r
    case Ok(parsed) =>
      && answers(last).Some? && parsed.addresses != [] && Reads(answers(last).value, last, wanted, parsed)
      && Typed(answers(last).value, last, wanted, parsed)
    case Err(error) => Explains(answers, queried, wanted, error)
  }

  /** `name` is where the queries so far lead. */
  ghost predicate NextOn(answers: Name -> Option<seq<Record>>, queried: seq<Name>, host: Name, wanted: RecordType,
                         name: Name)
  {
    if queried == [] then name == host
    else
      && Trail(answers, queried, host, wanted) && SilentBefore(answers, queried, wanted, |queried|)
      && Leads(answers, queried[|queried| - 1], name)
  }

  lemma TrailGrows(answers: Name -> Option<seq<Record>>, queried: seq<Name>, host: Name, wanted: RecordType, name: Name)
    requires NextOn(answers, queried, host, wanted, name) && name !in queried && |queried| < MAX_DEPTH
    ensures Trail(answers, queried + [name], host, wanted)
  {
    assert (queried + [name])[..|queried|] == queried;
  }

  /** What the last query tells ends the trail or leads it on. */
  lemma ToldNext(answers: Name -> Option<seq<Record>>, queried: seq<Name>, host: Name, wanted: RecordType, r: Asked)
    requires Trail(answers, queried, host, wanted) && Told(answers, queried[|queried| - 1], wanted, r)
    ensures r.Answered? ==> Justified(answers, queried, wanted, Ok(r.parsed))
    ensures r.Failed? ==> Justified(answers, queried, wanted, Err(r.error))
    ensures r.Onward? ==> NextOn(answers, queried, host, wanted, r.name)
  {
  }

  /** Where a trail ends without an answer, it leads back or is too long. */
  lemma EndJustified(answers: Name -> Option<seq<Record>>, queried: seq<Name>, host: Name, wanted: RecordType,
                     name: Name)
    requires queried != [] && NextOn(answers, queried, host, wanted, name)
    ensures name in queried ==> Justified(answers, queried, wanted, Err(CnameLoop))
    ensures |queried| == MAX_DEPTH ==> Justified(answers, queried, wanted, Err(TooDeep))
  {
    assert LeadsOn(answers, queried[|queried| - 1]);
  }

  /** The loop of a lookup. */
  method Follow(server: Server, host: Name, wanted: RecordType)
    returns (r: Result<Parsed, LookupError>, ghost queried: seq<Name>)
    modifies server
    ensures server.queries == old(server.queries) + queried
    ensures Trail(server.answers, queried, host, wanted) && Justified(server.answers, queried, wanted, r)
  {
    var name := host;
    var visited: set<Name> := {};
    queried := [];
    for step := 0 to MAX_DEPTH
      invariant |queried| == step && forall n :: n in visited <==> n in queried
      invariant server.queries == old(server.queries) + queried
      invariant NextOn(server.answers, queried, host, wanted, name)
    {
      if name in visited {
        EndJustified(server.answers, queried, host, wanted, name);
        return Err(CnameLoop), queried;
      }
      TrailGrows(server.answers, queried, host, wanted, name);
      visited := visited + {name};
      queried := queried + [name];
      var asked := Ask(server, name, wanted);
      ToldNext(server.answers, queried, host, wanted, asked);
      match asked {
        case Answered(parsed) =>
          return Ok(parsed), queried;
        case Failed(error) =>
          return Err(error), queried;
        case Onward(next) =>
          name := next;
      }
    }
    EndJustified(server.answers, queried, host, wanted, name);
    return Err(TooDeep), queried;
  }

  /**
    * Follow CNAME records across queries: the server is asked at most eight times, for no name twice, each
    * the one the previous answer leads to and only after that answer had no address.
    */
  method Lookup(server: Server, host: Name, wanted: RecordType) returns (r: Result<Parsed, LookupError>)
    modifies server
    ensures old(server.queries) <= server.queries
    ensures var queried := server.queries[|old(server.queries)|..];
            Trail(server.answers, queried, host, wanted) && Justified(server.answers, queried, wanted, r)
  {
    ghost var queried;
    r, queried := Follow(server, host, wanted);
    assert server.queries[|old(server.queries)|..] == queried;
  }
}
