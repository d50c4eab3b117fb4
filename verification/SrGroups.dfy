/**
  * Segment-routing groups as the controller sends them: entries are normalised, given unique local
  * identifiers, filtered, and the primary index is carried over to the filtered list.
  */
module SrGroups {
  import opened Wrappers
  import opened Bytes
  import opened Numbers

  type I32 = x: int | -0x8000_0000 <= x < 0x8000_0000

  const MAX_ENTRIES: nat := 5
  const WRAP: nat := 0x1_0000_0000

  datatype Ingress = Ingress(serverName: string, serverPort: I32, username: string, password: string, mtu: I32)

  /** `ipv4` tells whether the entry's address text is an IPv4 address. */
  datatype Settings = Settings(keepalive: Option<bool>, algorithm: string, key: string, ipv4: bool, ingress: Ingress,
                               links: seq<I32>)

  datatype Entry = Entry(id: I32, settings: Settings, localSrId: Option<U32>)

  datatype Group = Group(id: I32, primaryIndex: I32, entries: seq<Entry>)

  // ----- normalising and filtering

  const AES128: string := "aes128"
  const AES256: string := "aes256"
  const NO_CIPHER: string := "null"

  function Utf16Units(key: string): nat {
    if key == [] then 0 else (if key[0] > '\U{FFFF}' then 2 else 1) + Utf16Units(key[1..])
  }

  /** The key length an algorithm needs, in UTF-16 units; None for anything but the two known algorithms. */
  function RequiredKey(algorithm: string): Option<nat> {
    if algorithm == AES128 then Some(16) else if algorithm == AES256 then Some(32) else None
  }

  function Normalized(s: Settings): Settings {
    var mtu := s.(ingress := s.ingress.(mtu := if 576 <= s.ingress.mtu <= 1500 then s.ingress.mtu else 1392));
    var required := RequiredKey(s.algorithm);
    var keyed := if required.None? || Utf16Units(s.key) < required.value then mtu.(algorithm := NO_CIPHER, key := [])
        else mtu;
    if keyed.keepalive == Some(true) && |keyed.links| < 6 then keyed.(keepalive := Some(false)) else keyed
  }

  predicate ValidSettings(s: Settings) {
    && s.ingress.serverName != [] && 1 <= s.ingress.serverPort <= 65_535
    && s.ingress.username != [] && s.ingress.password != []
    && 1 <= |s.links| <= 6 && (forall link <- s.links :: 1 <= link <= 0x00ff_ffff)
    && s.ipv4
  }

  function Utf8Length(key: string): nat {
    if key == [] then 0 else
      var bytes := if key[0] <= '\U{7F}' then 1 else if key[0] <= '\U{7FF}' then 2
                   else if key[0] <= '\U{FFFF}' then 3 else 4;
      bytes + Utf8Length(key[1..])
  }

  lemma {:induction false} Utf8CoversUtf16(key: string)
    ensures Utf16Units(key) <= Utf8Length(key)
  {
    if key != [] {
      Utf8CoversUtf16(key[1..]);
    }
  }

  /** What the tunnel needs of an entry: a known cipher, a key of enough UTF-8 bytes for it, a sound MTU and path. */
  predicate Usable(s: Settings) {
    && (s.algorithm == NO_CIPHER || RequiredKey(s.algorithm).Some?)
    && (RequiredKey(s.algorithm).Some? ==> Utf8Length(s.key) >= RequiredKey(s.algorithm).value)
    && 576 <= s.ingress.mtu <= 1500
    && (s.keepalive == Some(true) ==> |s.links| >= 6)
  }

  /** A cipher that is kept: one of the two known ones with a key that is long enough for it. */
  predicate KeepsCipher(s: Settings) {
    || (s.algorithm == AES128 && Utf16Units(s.key) >= 16)
    || (s.algorithm == AES256 && Utf16Units(s.key) >= 32)
  }

  /** Field by field: what may change, when, and to what; everything else stays. */
  predicate Tidied(s: Settings, r: Settings) {
    && r.ingress.mtu == (if 576 <= s.ingress.mtu <= 1500 then s.ingress.mtu else 1392)
    && (if KeepsCipher(s) then r.algorithm == s.algorithm && r.key == s.key
        else r.algorithm == NO_CIPHER && r.key == [])
    && r.keepalive == (if s.keepalive == Some(true) && |s.links| < 6 then Some(false) else s.keepalive)
    && r.ingress.serverName == s.ingress.serverName && r.ingress.serverPort == s.ingress.serverPort
    && r.ingress.username == s.ingress.username && r.ingress.password == s.ingress.password
    && r.links == s.links && r.ipv4 == s.ipv4
  }

  lemma NormalizedIsTidied(s: Settings, r: Settings)
    ensures r == Normalized(s) <==> Tidied(s, r)
  {
    assert |AES128| == |AES256| == 6 && AES128[3] != AES256[3];
  }

  /** Characters beyond the first plane count twice. */
  lemma {:induction false} UnitsOf(key: string, more: string)
    ensures Utf16Units(key + more) == Utf16Units(key) + Utf16Units(more)
    ensures |key| <= Utf16Units(key) <= 2 * |key|
    ensures (forall c <- key :: c <= '\U{FFFF}') ==> Utf16Units(key) == |key|
    ensures (forall c <- key :: c > '\U{FFFF}') ==> Utf16Units(key) == 2 * |key|
  {
    if key == [] {
      assert key + more == more;
    } else {
      assert (key + more)[1..] == key[1..] + more;
      assert key[0] in key && forall c <- key[1..] :: c in key;
      UnitsOf(key[1..], more);
    }
  }

  /**
    * An entry that can be used: it names a server and a login, and has a path of one to six links to an IPv4 address.
    */
  predicate Sendable(s: Settings) {
    && |s.ingress.serverName| > 0 && |s.ingress.username| > 0 && |s.ingress.password| > 0
    && 0 < s.ingress.serverPort < 65_536
    && 0 < |s.links| < 7 && (forall i | 0 <= i < |s.links| :: 0 < s.links[i] < 0x0100_0000)
    && s.ipv4
  }

  lemma ValidIsSendable(s: Settings)
    ensures ValidSettings(s) <==> Sendable(s)
  {
    assert forall i | 0 <= i < |s.links| :: s.links[i] in s.links;
  }

  /** Normalising makes settings usable, changes nothing a second time, and does not decide validity. */
  lemma NormalizedIsUsable(s: Settings)
    ensures Usable(Normalized(s))
    ensures Normalized(Normalized(s)) == Normalized(s)
    ensures ValidSettings(Normalized(s)) <==> ValidSettings(s)
  {
    Utf8CoversUtf16(s.key);
    assert |AES128| != |NO_CIPHER| && |AES256| != |NO_CIPHER|;
  }

  function Erased(e: Entry): Entry {
    e.(localSrId := None)
  }

  predicate Valid(e: Entry) {
    ValidSettings(e.settings)
  }

  /** The valid entries, in order. */
  function Kept(entries: seq<Entry>): seq<Entry> {
    if entries == [] then [] else
      var last := entries[|entries| - 1];
      Kept(entries[..|entries| - 1]) + (if Valid(last) then [last] else [])
  }

  // ----- fresh identifiers

  predicate Free(id: nat, taken: set<U32>, reserved: set<U32>) {
    0 < id < WRAP && id !in taken && id !in reserved
  }

  /** How many steps of the wrapping counter lead from `counter` to `id`. */
  function Distance(counter: U32, id: U32): nat {
    if id > counter then id - counter else id + WRAP - counter
  }

  /** The next free identifier of the wrapping counter; it ends because some identifier is free. */
  method NextLocalSrId(counter: U32, taken: set<U32>, reserved: set<U32>, ghost free: U32)
    returns (id: U32, next: U32)
    requires Free(free, taken, reserved)
    ensures Free(id, taken, reserved) && next == id
    ensures forall k: U32 | Distance(counter, k) < Distance(counter, id) :: !Free(k, taken, reserved)
  {
    next := counter;
    while true
      invariant forall k: U32 | next != counter && Distance(counter, k) <= Distance(counter, next) ::
                !Free(k, taken, reserved)
      invariant next == counter || Distance(counter, next) < Distance(counter, free)
      decreases Distance(next, free)
    {
      next := (next + 1) % WRAP;
      if next != 0 && next !in reserved && next !in taken {
        return next, next;
      }
    }
  }

  lemma {:induction false} IntervalInside(low: nat, high: nat, s: set<U32>)
    requires low <= high <= WRAP && forall k | low <= k < high :: k in s
    ensures |s| >= high - low
    decreases high - low
  {
    if low < high {
      var k: U32 := high - 1;
      IntervalInside(low, high - 1, s - {k});
      assert |s| == |s - {k}| + 1;
    }
  }

  const HALF: nat := 0x8000_0000

  /** An identifier is free as long as not all non-zero ones are taken or reserved. */
  lemma FindFree(taken: set<U32>, reserved: set<U32>) returns (free: U32)
    requires |taken + reserved| < WRAP - 1
    ensures Free(free, taken, reserved)
  {
    if forall k | 1 <= k < WRAP :: k in taken + reserved {
      IntervalInside(1, WRAP, taken + reserved);
    }
    free :| 1 <= free < WRAP && free !in taken + reserved;
  }

  /** How many of the entries do not bring a reserved identifier. */
  function Needy(entries: seq<Entry>, reserved: set<U32>): nat {
    if entries == [] then 0
    else Needy(entries[..|entries| - 1], reserved) + One(entries[|entries| - 1].id !in reserved)
  }

  lemma {:induction false} NeedyPrefix(entries: seq<Entry>, i: nat, reserved: set<U32>)
    requires i < |entries|
    ensures Needy(entries[..i + 1], reserved) == Needy(entries[..i], reserved) + One(entries[i].id !in reserved)
    ensures Needy(entries[..i + 1], reserved) <= Needy(entries, reserved)
  {
    var n := |entries|;
    assert entries[..i + 1][..i] == entries[..i];
    if i < n - 1 {
      NeedyPrefix(entries[..n - 1], i, reserved);
      assert entries[..n - 1][..i + 1] == entries[..i + 1] && entries[..n - 1][..i] == entries[..i];
    } else {
      assert entries[..n] == entries;
    }
  }

  /** One more taken identifier, in or out of the reserved ones. */
  lemma OneMoreTaken(taken: set<U32>, reserved: set<U32>, id: U32)
    requires id !in taken
    ensures |(taken + {id}) + reserved| == |taken + reserved| + One(id !in reserved)
  {
    if id in reserved {
      assert (taken + {id}) + reserved == taken + reserved;
    } else {
      assert (taken + {id}) + reserved == (taken + reserved) + {id};
    }
  }

  // ----- counting identifiers

  /** How many of the entries carry the identifier. */
  function Count(entries: seq<Entry>, id: int): nat {
    if entries == [] then 0 else Count(entries[..|entries| - 1], id) + One(entries[|entries| - 1].id == id)
  }

  function TotalCount(groups: seq<Group>, id: int): nat {
    if groups == [] then 0 else TotalCount(groups[..|groups| - 1], id) + Count(groups[|groups| - 1].entries, id)
  }

  lemma {:induction false} CountPrefix(entries: seq<Entry>, i: nat, id: int)
    requires i < |entries|
    ensures Count(entries[..i], id) + One(entries[i].id == id) <= Count(entries, id)
  {
    var n := |entries|;
    if i < n - 1 {
      assert entries[..n - 1][..i] == entries[..i];
      CountPrefix(entries[..n - 1], i, id);
    }
  }

  lemma {:induction false} TotalCountPrefix(groups: seq<Group>, k: nat, id: int)
    requires k < |groups|
    ensures TotalCount(groups[..k], id) + Count(groups[k].entries, id) <= TotalCount(groups, id)
  {
    var n := |groups|;
    if k < n - 1 {
      assert groups[..n - 1][..k] == groups[..k];
      TotalCountPrefix(groups[..n - 1], k, id);
    }
  }

  /** Reserved: the positive identifiers that occur once in all groups. */
  ghost predicate ReservedBy(reserved: set<U32>, total: int -> nat) {
    forall r: U32 :: r in reserved <==> 0 < r < HALF && total(r) == 1
  }

  /** A reserved identifier is taken only by an entry, counted by `seen`, that came with it. */
  ghost predicate KeptFor(reserved: set<U32>, taken: set<U32>, seen: int -> nat) {
    forall r <- taken :: r in reserved ==> seen(r) > 0
  }

  /** Entries counted before and these entries are all among the total. */
  ghost predicate Within(before: int -> nat, entries: seq<Entry>, total: int -> nat) {
    forall id :: before(id) + Count(entries, id) <= total(id)
  }

  ghost function Plus(before: int -> nat, entries: seq<Entry>): int -> nat {
    id => before(id) + Count(entries, id)
  }

  /** Whether an identifier is used as the local one: positive and unique in its group. */
  predicate Claimable(id: I32, entries: seq<Entry>) {
    id > 0 && Count(entries, id) == 1
  }

  /** A reserved identifier is still there for the entry that brings it. */
  lemma ReservedIsClaimable(entries: seq<Entry>, i: nat, reserved: set<U32>, taken: set<U32>, before: int -> nat,
                            total: int -> nat)
    requires i < |entries| && entries[i].id in reserved
    requires ReservedBy(reserved, total) && Within(before, entries, total)
    requires KeptFor(reserved, taken, Plus(before, entries[..i]))
    ensures Claimable(entries[i].id, entries) && entries[i].id !in taken
  {
    var id := entries[i].id;
    CountPrefix(entries, i, id);
    assert before(id) + Count(entries, id) <= total(id) == 1;
  }

  /** The entries with their settings normalised and local identifiers set. */
  ghost predicate Labelled(entries: seq<Entry>, out: seq<Entry>) {
    && |out| == |entries|
    && (forall i | 0 <= i < |entries| ::
          out[i].id == entries[i].id && out[i].settings == Normalized(entries[i].settings) && out[i].localSrId.Some?)
  }

  /** Local identifiers of one group: fresh, non-zero, distinct, and the reserved ones kept. */
  ghost predicate FreshIds(entries: seq<Entry>, out: seq<Entry>, taken: set<U32>, now: set<U32>, reserved: set<U32>) {
    && Labelled(entries, out)
    && (forall i | 0 <= i < |out| :: 0 < out[i].localSrId.value && out[i].localSrId.value !in taken)
    && (forall i, j | 0 <= i < j < |out| :: out[i].localSrId != out[j].localSrId)
    && (forall i | 0 <= i < |out| :: out[i].localSrId.value in now)
    && (forall i | 0 <= i < |out| :: entries[i].id in reserved ==> out[i].localSrId.value == entries[i].id)
    && taken <= now
  }

  /** The entry's own identifier if it may be used, else the next free one. */
  method ChooseId(entries: seq<Entry>, i: nat, taken: set<U32>, reserved: set<U32>, counter: U32,
                  ghost before: int -> nat, ghost total: int -> nat)
    returns (id: U32, next: U32)
    requires i < |entries| && ReservedBy(reserved, total) && Within(before, entries, total)
    requires KeptFor(reserved, taken, Plus(before, entries[..i]))
    requires entries[i].id !in reserved ==> |taken + reserved| < WRAP - 1
    ensures 0 < id && id !in taken
    ensures entries[i].id in reserved ==> id == entries[i].id
    ensures id in reserved ==> id == entries[i].id
    ensures if Claimable(entries[i].id, entries) && entries[i].id !in taken then id == entries[i].id && next == counter
            else Free(id, taken, reserved) && next == id
  {
    var own := entries[i].id;
    if own in reserved {
      ReservedIsClaimable(entries, i, reserved, taken, before, total);
    }
    if Claimable(own, entries) && own !in taken {
      return own, counter;
    }
    ghost var free := FindFree(taken, reserved);
    id, next := NextLocalSrId(counter, taken, reserved, free);
  }

  /** Normalise and label the entries of one group. */
  method LabelEntries(entries: seq<Entry>, taken: set<U32>, reserved: set<U32>, counter: U32, ghost before: int -> nat,
                      ghost total: int -> nat)
    returns (out: seq<Entry>, now: set<U32>, next: U32)
    requires ReservedBy(reserved, total) && Within(before, entries, total) && KeptFor(reserved, taken, before)
    requires |taken + reserved| + Needy(entries, reserved) <= WRAP - 1
    ensures FreshIds(entries, out, taken, now, reserved)
    ensures KeptFor(reserved, now, Plus(before, entries))
    ensures |now + reserved| == |taken + reserved| + Needy(entries, reserved)
  {
    out, now, next := [], taken, counter;
    for i := 0 to |entries|
      invariant |out| == i && |now + reserved| == |taken + reserved| + Needy(entries[..i], reserved)
      invariant FreshIds(entries[..i], out, taken, now, reserved)
      invariant KeptFor(reserved, now, Plus(before, entries[..i]))
    {
      var e := entries[i];
      ghost var was := now;
      NeedyPrefix(entries, i, reserved);
      var id;
      id, next := ChooseId(entries, i, now, reserved, next, before, total);
      OneMoreTaken(now, reserved, id);
      now := now + {id};
      out := out + [Entry(e.id, Normalized(e.settings), Some(id))];
      OneMoreLabel(entries, i, out, taken, was, now, reserved);
      KeptForOneMore(entries, i, reserved, was, now, id, before);
    }
    assert entries[..|entries|] == entries;
  }

  lemma KeptForOneMore(entries: seq<Entry>, i: nat, reserved: set<U32>, was: set<U32>, now: set<U32>, id: U32,
                       before: int -> nat)
    requires i < |entries| && KeptFor(reserved, was, Plus(before, entries[..i]))
    requires now == was + {id} && (id in reserved ==> id == entries[i].id)
    ensures KeptFor(reserved, now, Plus(before, entries[..i + 1]))
  {
    assert entries[..i + 1][..i] == entries[..i];
    forall r | r in now && r in reserved ensures before(r) + Count(entries[..i + 1], r) > 0 {
      assert r in was ==> Plus(before, entries[..i])(r) > 0;
    }
  }

  lemma OneMoreLabel(entries: seq<Entry>, i: nat, out: seq<Entry>, taken: set<U32>, was: set<U32>, now: set<U32>,
                     reserved: set<U32>)
    requires i < |entries| && |out| == i + 1 && FreshIds(entries[..i], out[..i], taken, was, reserved)
    requires out[i].id == entries[i].id && out[i].settings == Normalized(entries[i].settings) && out[i].localSrId.Some?
    requires var id := out[i].localSrId.value;
             0 < id && id !in was && now == was + {id} && (entries[i].id in reserved ==> id == entries[i].id)
    ensures FreshIds(entries[..i + 1], out, taken, now, reserved)
  {
    assert forall k | 0 <= k < i :: out[k] == out[..i][k] && entries[..i + 1][k] == entries[..i][k];
  }

  // ----- filtering one group

  function Cleaned(entries: seq<Entry>): seq<Entry> {
    seq(|entries|, i requires 0 <= i < |entries| => Entry(entries[i].id, Normalized(entries[i].settings), None))
  }

  function EraseAll(entries: seq<Entry>): seq<Entry> {
    seq(|entries|, i requires 0 <= i < |entries| => Erased(entries[i]))
  }

  function Truncated(entries: seq<Entry>): seq<Entry> {
    if |entries| > MAX_ENTRIES then entries[..MAX_ENTRIES] else entries
  }

  function Primary(group: Group): nat
    requires group.entries != []
    ensures Primary(group) < |Truncated(group.entries)|
  {
    if 0 <= group.primaryIndex < |Truncated(group.entries)| then group.primaryIndex else 0
  }

  /** Where the entry at `p` stands among the valid ones; 0 if it is not valid. */
  function PrimaryAfter(entries: seq<Entry>, p: nat): nat
    requires p < |entries|
  {
    if Valid(entries[p]) then |Kept(entries[..p])| else 0
  }

  lemma {:induction false} KeptAt(entries: seq<Entry>, p: nat)
    requires p < |entries| && Valid(entries[p])
    ensures |Kept(entries[..p])| < |Kept(entries)| && Kept(entries)[|Kept(entries[..p])|] == entries[p]
  {
    var n := |entries|;
    if p < n - 1 {
      assert entries[..n - 1][..p] == entries[..p];
      KeptAt(entries[..n - 1], p);
    }
  }

  lemma {:induction false} KeptMembers(entries: seq<Entry>)
    ensures forall e :: e in Kept(entries) <==> e in entries && Valid(e)
    ensures |Kept(entries)| <= |entries|
  {
    if entries != [] {
      KeptMembers(entries[..|entries| - 1]);
      assert entries == entries[..|entries| - 1] + [entries[|entries| - 1]];
    }
  }

  ghost predicate DifferentIds(entries: seq<Entry>) {
    forall i, j | 0 <= i < j < |entries| :: entries[i].localSrId != entries[j].localSrId
  }

  lemma {:induction false} KeptDifferent(entries: seq<Entry>)
    requires DifferentIds(entries)
    ensures DifferentIds(Kept(entries))
  {
    if entries != [] {
      var front, last := entries[..|entries| - 1], entries[|entries| - 1];
      KeptDifferent(front);
      KeptMembers(front);
      assert forall e <- front :: e.localSrId != last.localSrId;
      assert forall i | 0 <= i < |Kept(front)| :: Kept(front)[i] in front;
    }
  }

  lemma {:induction false} KeptOfLabelled(entries: seq<Entry>, out: seq<Entry>)
    requires Labelled(entries, out)
    ensures EraseAll(Kept(out)) == Kept(Cleaned(entries))
  {
    var n := |entries|;
    if n > 0 {
      assert Cleaned(entries)[..n - 1] == Cleaned(entries[..n - 1]);
      KeptOfLabelled(entries[..n - 1], out[..n - 1]);
      assert Erased(out[n - 1]) == Cleaned(entries)[n - 1];
    }
  }

  /** What one group becomes, local identifiers aside; None when no valid entry is left. */
  function ExpectedGroup(group: Group): Option<Group> {
    if group.entries == [] then None else
      var cleaned := Cleaned(Truncated(group.entries));
      if Kept(cleaned) == [] then None else
        RankFits(cleaned, Primary(group));
        Some(Group(group.id, PrimaryAfter(cleaned, Primary(group)), Kept(cleaned)))
  }

  lemma RankFits(entries: seq<Entry>, p: nat)
    requires p < |entries| <= MAX_ENTRIES
    ensures PrimaryAfter(entries, p) < HALF
  {
    KeptMembers(entries[..p]);
  }

  function EraseGroup(g: Group): Group {
    g.(entries := EraseAll(g.entries))
  }

  /** The local identifiers of a group are distinct, non-zero, new, and the reserved ones are kept. */
  ghost predicate GoodIds(entries: seq<Entry>, taken: set<U32>, now: set<U32>, reserved: set<U32>) {
    && DifferentIds(entries)
    && (forall e <- entries ::
          && e.localSrId.Some? && 0 < e.localSrId.value
          && e.localSrId.value !in taken && e.localSrId.value in now)
    && (forall e <- entries :: e.id in reserved ==> e.localSrId.value == e.id)
  }

  lemma KeptGood(entries: seq<Entry>, out: seq<Entry>, taken: set<U32>, now: set<U32>, reserved: set<U32>)
    requires FreshIds(entries, out, taken, now, reserved)
    ensures GoodIds(Kept(out), taken, now, reserved)
  {
    KeptDifferent(out);
    KeptMembers(out);
  }

  /** The index of the first entry with the local identifier. */
  method FindLocal(entries: seq<Entry>, id: Option<U32>) returns (r: Option<nat>)
    ensures r.Some? ==> r.value < |entries| && entries[r.value].localSrId == id
    ensures r.None? ==> forall e <- entries :: e.localSrId != id
  {
    for i := 0 to |entries|
      invariant forall e <- entries[..i] :: e.localSrId != id
    {
      if entries[i].localSrId == id {
        return Some(i);
      }
      assert entries[..i + 1] == entries[..i] + [entries[i]];
    }
    assert entries[..|entries|] == entries;
    return None;
  }

  /** The former primary, if valid, is found among the kept entries at its rank; otherwise not at all. */
  lemma PrimaryFound(out: seq<Entry>, p: nat, found: Option<nat>)
    requires p < |out| && DifferentIds(out)
    requires found.Some? ==> found.value < |Kept(out)| && Kept(out)[found.value].localSrId == out[p].localSrId
    requires found.None? ==> forall e <- Kept(out) :: e.localSrId != out[p].localSrId
    ensures (if found.Some? then found.value else 0) == PrimaryAfter(out, p)
  {
    KeptMembers(out);
    KeptDifferent(out);
    if found.Some? {
      var e := Kept(out)[found.value];
      assert e in out && Valid(e);
      var k :| 0 <= k < |out| && out[k] == e;
      assert k == p;
    }
    if Valid(out[p]) {
      KeptAt(out, p);
      assert Kept(out)[|Kept(out[..p])|] in Kept(out);
    }
  }

  lemma PrimaryUnlabelled(entries: seq<Entry>, out: seq<Entry>, p: nat)
    requires Labelled(entries, out) && p < |entries|
    ensures PrimaryAfter(out, p) == PrimaryAfter(Cleaned(entries), p)
  {
    assert Cleaned(entries)[..p] == Cleaned(entries[..p]);
    KeptOfLabelled(entries[..p], out[..p]);
    assert |EraseAll(Kept(out[..p]))| == |Kept(out[..p])|;
  }

  method SanitizeGroup(group: Group, taken: set<U32>, reserved: set<U32>, counter: U32, ghost before: int -> nat,
                       ghost total: int -> nat)
    returns (r: Option<Group>, now: set<U32>, next: U32)
    requires ReservedBy(reserved, total) && Within(before, group.entries, total) && KeptFor(reserved, taken, before)
    requires |taken + reserved| + Needy(Truncated(group.entries), reserved) <= WRAP - 1
    ensures ExpectedGroup(group) == if r.None? then None else Some(EraseGroup(r.value))
    ensures r.Some? ==> GoodIds(r.value.entries, taken, now, reserved)
    ensures KeptFor(reserved, now, Plus(before, group.entries)) && taken <= now
    ensures |now + reserved| == |taken + reserved| + Needy(Truncated(group.entries), reserved)
  {
    now, next := taken, counter;
    var entries := Truncated(group.entries);
    if entries == [] {
      return None, now, next;
    }
    TruncatedCounts(group.entries);
    assert Within(before, entries, total);
    var primary := Primary(group);
    var labelled;
    labelled, now, next := LabelEntries(entries, taken, reserved, counter, before, total);
    var kept := Kept(labelled);
    KeptOfLabelled(entries, labelled);
    assert |EraseAll(kept)| == |kept|;
    if kept == [] {
      return None, now, next;
    }
    var found := FindLocal(kept, labelled[primary].localSrId);
    PrimaryFound(labelled, primary, found);
    PrimaryUnlabelled(entries, labelled, primary);
    RankFits(Cleaned(entries), primary);
    KeptGood(entries, labelled, taken, now, reserved);
    return Some(Group(group.id, if found.Some? then found.value else 0, kept)), now, next;
  }

  lemma TruncatedCounts(entries: seq<Entry>)
    ensures forall id :: Count(Truncated(entries), id) <= Count(entries, id)
  {
    if |entries| > MAX_ENTRIES {
      forall id ensures Count(entries[..MAX_ENTRIES], id) <= Count(entries, id) {
        CountPrefix(entries, MAX_ENTRIES, id);
      }
    }
  }

  // ----- all groups

  function Expected(groups: seq<Group>): seq<Group> {
    if groups == [] then [] else
      var rest := Expected(groups[..|groups| - 1]);
      match ExpectedGroup(groups[|groups| - 1])
      case None => rest
      case Some(g) => rest + [g]
  }

  function EraseGroups(groups: seq<Group>): seq<Group> {
    seq(|groups|, i requires 0 <= i < |groups| => EraseGroup(groups[i]))
  }

  ghost predicate DifferentAcross(groups: seq<Group>) {
    forall g, h | 0 <= g < h < |groups| :: NothingShared(groups[g].entries, groups[h].entries)
  }

  ghost predicate NothingShared(a: seq<Entry>, b: seq<Entry>) {
    forall x, y | x in a && y in b :: x.localSrId != y.localSrId
  }

  ghost predicate AllGood(groups: seq<Group>, now: set<U32>, reserved: set<U32>) {
    && DifferentAcross(groups)
    && (forall g <- groups :: GoodIds(g.entries, {}, now, reserved))
  }

  lemma OneMoreGroup(groups: seq<Group>, g: Group, taken: set<U32>, now: set<U32>, reserved: set<U32>)
    requires AllGood(groups, taken, reserved) && GoodIds(g.entries, taken, now, reserved) && taken <= now
    ensures AllGood(groups + [g], now, reserved)
  {
    forall i | 0 <= i < |groups| ensures NothingShared(groups[i].entries, g.entries) {
      assert groups[i] in groups;
    }
  }

  /** How many entries, of the first five of each group, do not bring a reserved identifier. */
  function TotalNeedy(groups: seq<Group>, reserved: set<U32>): nat {
    if groups == [] then 0
    else TotalNeedy(groups[..|groups| - 1], reserved) + Needy(Truncated(groups[|groups| - 1].entries), reserved)
  }

  lemma TotalNeedyPrefix(groups: seq<Group>, k: nat, reserved: set<U32>)
    requires k < |groups|
    ensures TotalNeedy(groups[..k + 1], reserved) ==
            TotalNeedy(groups[..k], reserved) + Needy(Truncated(groups[k].entries), reserved)
    ensures TotalNeedy(groups[..k + 1], reserved) <= TotalNeedy(groups, reserved)
  {
    assert groups[..k + 1][..k] == groups[..k];
    TotalNeedyGrows(groups, k + 1, reserved);
  }

  lemma {:induction false} TotalNeedyGrows(groups: seq<Group>, k: nat, reserved: set<U32>)
    requires k <= |groups|
    ensures TotalNeedy(groups[..k], reserved) <= TotalNeedy(groups, reserved)
  {
    if k == |groups| {
      assert groups[..k] == groups;
    } else {
      var front := groups[..|groups| - 1];
      assert front[..k] == groups[..k];
      TotalNeedyGrows(front, k, reserved);
    }
  }

  /** The identifiers that occur once, as the sanitiser reserves them. */
  ghost function Reserved(groups: seq<Group>): set<U32> {
    set id: U32 | 0 < id < HALF && TotalCount(groups, id) == 1
  }

  function CountIn(counts: map<int, nat>, id: int): nat {
    if id in counts then counts[id] else 0
  }

  ghost function Total(groups: seq<Group>): int -> nat {
    id => TotalCount(groups, id)
  }

  /** The positive identifiers that occur once. */
  method ReservedIds(groups: seq<Group>) returns (reserved: set<U32>)
    ensures ReservedBy(reserved, Total(groups))
  {
    var counts: map<int, nat> := map[];
    for k := 0 to |groups|
      invariant forall id :: CountIn(counts, id) == TotalCount(groups[..k], id)
    {
      assert groups[..k + 1][..k] == groups[..k];
      counts := CountEntries(counts, groups[k].entries);
    }
    assert groups[..|groups|] == groups;
    reserved := set id | id in counts.Keys && 0 < id < HALF && counts[id] == 1;
    forall r: U32 ensures r in reserved <==> 0 < r < HALF && TotalCount(groups, r) == 1 {
      assert CountIn(counts, r) == TotalCount(groups, r);
    }
  }

  method CountEntries(start: map<int, nat>, entries: seq<Entry>) returns (counts: map<int, nat>)
    ensures forall id :: CountIn(counts, id) == CountIn(start, id) + Count(entries, id)
  {
    counts := start;
    for i := 0 to |entries|
      invariant forall id :: CountIn(counts, id) == CountIn(start, id) + Count(entries[..i], id)
    {
      assert entries[..i + 1][..i] == entries[..i];
      counts := counts[entries[i].id := CountIn(counts, entries[i].id) + 1];
    }
    assert entries[..|entries|] == entries;
  }

  /**
    * Sanitise all groups. Local identifiers aside, the result is `Expected`: the valid entries among the
    * first five of each group, normalised, empty groups dropped, the primary index following its entry.
    * All local identifiers, across all groups, are set, non-zero and distinct, and an entry whose
    * positive identifier occurs once in the input keeps it. The former primary of a group, if it survives,
    * is the entry tried first. There must be room: by `RoomIsNeeded`, without it no such identifiers exist.
    */
  method SanitizeGroups(groups: seq<Group>, counter: U32) returns (out: seq<Group>, next: U32)
    requires |Reserved(groups)| + TotalNeedy(groups, Reserved(groups)) <= WRAP - 1
    ensures EraseGroups(out) == Expected(groups)
    ensures DifferentAcross(out) && forall g <- out :: DifferentIds(g.entries)
    ensures forall g <- out :: forall e <- g.entries :: e.localSrId.Some? && e.localSrId.value > 0
    ensures forall g <- out :: forall e <- g.entries :: e.id > 0 && TotalCount(groups, e.id) == 1 ==>
            e.localSrId == Some(e.id)
    ensures PrimariesFirst(Surviving(groups), out)
  {
    var reserved := ReservedIds(groups);
    assert reserved == Reserved(groups);
    ghost var taken;
    out, taken, next := SanitizeEach(groups, reserved, counter);
    KeepsReserved(out, taken, reserved, Total(groups));
    SurvivorsPrimary(groups, out);
  }

  /** Identifiers that are distinct, non-zero and not reserved are no more than there is room for. */
  lemma RoomIsNeeded(ids: set<U32>, reserved: set<U32>)
    requires ids !! reserved && 0 !in ids + reserved
    ensures |ids| + |reserved| <= WRAP - 1
  {
    assert |ids + reserved| == |ids| + |reserved|;
    BelowWrap(ids + reserved, WRAP);
  }

  lemma {:induction false} BelowWrap(s: set<U32>, bound: nat)
    requires bound > 0 && forall x <- s :: 0 < x < bound
    ensures |s| <= bound - 1
    decreases bound
  {
    if bound == 1 {
      assert s == {};
    } else if bound - 1 in s {
      BelowWrap(s - {bound - 1}, bound - 1);
    } else {
      BelowWrap(s, bound - 1);
    }
  }

  method SanitizeEach(groups: seq<Group>, reserved: set<U32>, counter: U32)
    returns (out: seq<Group>, taken: set<U32>, next: U32)
    requires |reserved| + TotalNeedy(groups, reserved) <= WRAP - 1 && ReservedBy(reserved, Total(groups))
    ensures EraseGroups(out) == Expected(groups) && AllGood(out, taken, reserved)
  {
    taken := {};
    assert taken + reserved == reserved;
    out, next := [], counter;
    for k := 0 to |groups|
      invariant Progress(groups, k, out, taken, reserved)
    {
      GroupWithin(groups, k);
      TotalNeedyPrefix(groups, k, reserved);
      ghost var was := taken;
      var r;
      r, taken, next := SanitizeGroup(groups[k], taken, reserved, next, Total(groups[..k]), Total(groups));
      ProgressNext(groups, k, out, r, was, taken, reserved);
      out := out + if r.Some? then [r.value] else [];
    }
    assert groups[..|groups|] == groups;
  }

  /** What holds when the first `k` groups are done. */
  ghost predicate Progress(groups: seq<Group>, k: nat, out: seq<Group>, taken: set<U32>, reserved: set<U32>)
    requires k <= |groups|
  {
    && EraseGroups(out) == Expected(groups[..k]) && AllGood(out, taken, reserved)
    && KeptFor(reserved, taken, Total(groups[..k]))
    && |taken + reserved| == |reserved| + TotalNeedy(groups[..k], reserved)
  }

  lemma ProgressNext(groups: seq<Group>, k: nat, out: seq<Group>, r: Option<Group>, was: set<U32>, now: set<U32>,
                     reserved: set<U32>)
    requires k < |groups| && Progress(groups, k, out, was, reserved) && was <= now
    requires ExpectedGroup(groups[k]) == if r.None? then None else Some(EraseGroup(r.value))
    requires r.Some? ==> GoodIds(r.value.entries, was, now, reserved)
    requires KeptFor(reserved, now, Plus(Total(groups[..k]), groups[k].entries))
    requires |now + reserved| == |was + reserved| + Needy(Truncated(groups[k].entries), reserved)
    ensures Progress(groups, k + 1, out + if r.Some? then [r.value] else [], now, reserved)
  {
    TotalNeedyPrefix(groups, k, reserved);
    KeptForTotal(groups, k, reserved, now);
    ExpectedNext(groups, k, out, r);
    PerhapsOneMore(out, r, was, now, reserved);
  }

  lemma ExpectedNext(groups: seq<Group>, k: nat, out: seq<Group>, r: Option<Group>)
    requires k < |groups| && EraseGroups(out) == Expected(groups[..k])
    requires ExpectedGroup(groups[k]) == if r.None? then None else Some(EraseGroup(r.value))
    ensures EraseGroups(out + if r.Some? then [r.value] else []) == Expected(groups[..k + 1])
  {
    assert groups[..k + 1][..k] == groups[..k];
    if r.Some? {
      ErasedPush(out, r.value);
    } else {
      assert out + [] == out;
    }
  }

  lemma PerhapsOneMore(out: seq<Group>, r: Option<Group>, was: set<U32>, now: set<U32>, reserved: set<U32>)
    requires AllGood(out, was, reserved) && was <= now
    requires r.Some? ==> GoodIds(r.value.entries, was, now, reserved)
    ensures AllGood(out + if r.Some? then [r.value] else [], now, reserved)
  {
    if r.Some? {
      OneMoreGroup(out, r.value, was, now, reserved);
    } else {
      StillGood(out, was, now, reserved);
      assert out + [] == out;
    }
  }

  lemma KeptForTotal(groups: seq<Group>, k: nat, reserved: set<U32>, now: set<U32>)
    requires k < |groups| && KeptFor(reserved, now, Plus(Total(groups[..k]), groups[k].entries))
    ensures KeptFor(reserved, now, Total(groups[..k + 1]))
  {
    assert groups[..k + 1][..k] == groups[..k];
    forall r | r in now && r in reserved ensures TotalCount(groups[..k + 1], r) > 0 {
      assert Plus(Total(groups[..k]), groups[k].entries)(r) > 0;
    }
  }

  lemma GroupWithin(groups: seq<Group>, k: nat)
    requires k < |groups|
    ensures Within(Total(groups[..k]), groups[k].entries, Total(groups))
  {
    forall id ensures TotalCount(groups[..k], id) + Count(groups[k].entries, id) <= TotalCount(groups, id) {
      TotalCountPrefix(groups, k, id);
    }
  }

  lemma ErasedPush(groups: seq<Group>, g: Group)
    ensures EraseGroups(groups + [g]) == EraseGroups(groups) + [EraseGroup(g)]
  {
  }

  lemma StillGood(groups: seq<Group>, taken: set<U32>, now: set<U32>, reserved: set<U32>)
    requires AllGood(groups, taken, reserved) && taken <= now
    ensures AllGood(groups, now, reserved)
  {
  }

  lemma KeepsReserved(out: seq<Group>, taken: set<U32>, reserved: set<U32>, total: int -> nat)
    requires AllGood(out, taken, reserved) && ReservedBy(reserved, total)
    ensures forall g <- out :: forall e <- g.entries :: e.id > 0 && total(e.id) == 1 ==> e.localSrId == Some(e.id)
  {
    forall g, e | g in out && e in g.entries && e.id > 0 && total(e.id) == 1 ensures e.localSrId == Some(e.id) {
      var id: U32 := e.id;
      assert id in reserved;
    }
  }

  // ----- the order in which entries are tried

  /** Entries with the primary swapped to the front. */
  function OrderedEntries(group: Group): seq<Entry> {
    var p := if 0 <= group.primaryIndex < |group.entries| then group.primaryIndex else 0;
    if p < |group.entries| then group.entries[0 := group.entries[p]][p := group.entries[0]] else group.entries
  }

  /** The order is a permutation of the group that starts with the entry the primary index names. */
  lemma OrderedIsPermutation(group: Group)
    ensures multiset(OrderedEntries(group)) == multiset(group.entries)
    ensures 0 <= group.primaryIndex < |group.entries| ==> OrderedEntries(group)[0] == group.entries[group.primaryIndex]
  {
  }

  /** The entry tried first is the former primary, if that one is valid. */
  ghost predicate PrimaryFirst(group: Group, out: Group) {
    group.entries != [] && out.entries != [] &&
    var cleaned := Cleaned(Truncated(group.entries));
    Valid(cleaned[Primary(group)]) ==> Erased(OrderedEntries(out)[0]) == cleaned[Primary(group)]
  }

  /** The first five entries of a list. */
  predicate AmongFive(entries: seq<Entry>, i: int) {
    0 <= i < |entries| && i < 5
  }

  /** The places of the usable ones among the first five, in order. */
  ghost predicate Picks(entries: seq<Entry>, places: seq<nat>) {
    && (forall a, b | 0 <= a < b < |places| :: places[a] < places[b])
    && (forall i: nat :: i in places <==> AmongFive(entries, i) && Sendable(entries[i].settings))
  }

  /** The group holds exactly the usable ones among the first five of its source, in order, with settings tidied. */
  ghost predicate MadeFrom(group: Group, out: Group) {
    out.id == group.id && exists places: seq<nat> :: Picks(group.entries, places) && MadeAt(group, out, places)
  }

  ghost predicate MadeAt(group: Group, out: Group, places: seq<nat>) {
    && |out.entries| == |places| && LeadsWith(group, out.primaryIndex, places)
    && (forall k | 0 <= k < |places| ::
          places[k] < |group.entries| && ComesFrom(group.entries[places[k]], out.entries[k]))
  }

  /** The primary index names the former primary, the first entry if there was none; if that is gone, the first left. */
  ghost predicate LeadsWith(group: Group, index: int, places: seq<nat>) {
    var p := if AmongFive(group.entries, group.primaryIndex) then group.primaryIndex else 0;
    if p in places then 0 <= index < |places| && places[index] == p else index == 0
  }

  predicate ComesFrom(source: Entry, e: Entry) {
    e.id == source.id && Tidied(source.settings, e.settings) && Sendable(e.settings)
  }

  /** These entries are those at the places, which are increasing. */
  ghost predicate StandAt(kept: seq<Entry>, entries: seq<Entry>, places: seq<nat>) {
    && |places| == |kept|
    && (forall k | 0 <= k < |places| :: places[k] < |entries| && kept[k] == entries[places[k]])
    && (forall a, b | 0 <= a < b < |places| :: places[a] < places[b])
  }

  lemma StandsNext(kept: seq<Entry>, entries: seq<Entry>, places: seq<nat>, keep: bool)
    requires entries != [] && StandAt(kept, entries[..|entries| - 1], places)
    ensures var n := |entries| - 1;
            if keep then StandAt(kept + [entries[n]], entries, places + [n]) else StandAt(kept, entries, places)
  {
  }

  /** Where the kept entries stood. */
  function Places(entries: seq<Entry>): seq<nat> {
    if entries == [] then [] else
      var n := |entries| - 1;
      Places(entries[..n]) + (if Valid(entries[n]) then [n] else [])
  }

  lemma {:induction false} KeptStand(entries: seq<Entry>)
    ensures StandAt(Kept(entries), entries, Places(entries))
  {
    if entries != [] {
      var n := |entries| - 1;
      KeptStand(entries[..n]);
      StandsNext(Kept(entries[..n]), entries, Places(entries[..n]), Valid(entries[n]));
    }
  }

  /** A valid entry stands at the rank that counts the valid ones before it. */
  ghost predicate Ranked(entries: seq<Entry>, places: seq<nat>) {
    forall p: nat | p < |entries| && Valid(entries[p]) :: RankedAt(entries, places, p)
  }

  ghost predicate RankedAt(entries: seq<Entry>, places: seq<nat>, p: nat)
    requires p < |entries|
  {
    var r := |Kept(entries[..p])|;
    r < |places| && places[r] == p
  }

  lemma {:induction false} PlacesRanked(entries: seq<Entry>)
    ensures |Places(entries)| == |Kept(entries)| && Ranked(entries, Places(entries))
  {
    if entries != [] {
      var front := entries[..|entries| - 1];
      PlacesRanked(front);
      forall p: nat | p < |entries| && Valid(entries[p]) ensures RankedAt(entries, Places(entries), p) {
        assert front[..p] == entries[..p];
        assert p < |front| ==> RankedAt(front, Places(front), p);
      }
    }
  }

  lemma KeptOfCleaned(group: Group, out: Group)
    requires ExpectedGroup(group) == Some(EraseGroup(out))
    ensures MadeFrom(group, out)
  {
    var places := Places(Cleaned(Truncated(group.entries)));
    EachComesFrom(group, out);
    UsablePicked(group.entries);
    PrimaryLeads(group);
    assert Picks(group.entries, places) && MadeAt(group, out, places);
  }

  /** The places are exactly those where a valid entry stands. */
  lemma PlacesExactly(entries: seq<Entry>, i: nat)
    ensures i in Places(entries) <==> i < |entries| && Valid(entries[i])
  {
    KeptStand(entries);
    PlacesRanked(entries);
    KeptMembers(entries);
    if i < |entries| && Valid(entries[i]) {
      assert RankedAt(entries, Places(entries), i);
    }
    if i in Places(entries) {
      var k :| 0 <= k < |Places(entries)| && Places(entries)[k] == i;
      assert Kept(entries)[k] in Kept(entries);
    }
  }

  lemma UsablePicked(entries: seq<Entry>)
    ensures Picks(entries, Places(Cleaned(Truncated(entries))))
  {
    var cleaned := Cleaned(Truncated(entries));
    KeptStand(cleaned);
    forall i: nat ensures i in Places(cleaned) <==> AmongFive(entries, i) && Sendable(entries[i].settings) {
      PlacesExactly(cleaned, i);
      if i < |cleaned| {
        CleanedValid(entries[i].settings);
      }
    }
  }

  lemma PrimaryLeads(group: Group)
    requires group.entries != []
    ensures var cleaned := Cleaned(Truncated(group.entries));
            LeadsWith(group, PrimaryAfter(cleaned, Primary(group)), Places(cleaned))
  {
    var cleaned, p := Cleaned(Truncated(group.entries)), Primary(group);
    PlacesExactly(cleaned, p);
    PlacesRanked(cleaned);
    assert Valid(cleaned[p]) ==> RankedAt(cleaned, Places(cleaned), p);
  }

  lemma EachComesFrom(group: Group, out: Group)
    requires EraseAll(out.entries) == Kept(Cleaned(Truncated(group.entries)))
    ensures var places := Places(Cleaned(Truncated(group.entries)));
            |places| == |out.entries| && forall k | 0 <= k < |places| ::
              AmongFive(group.entries, places[k]) && ComesFrom(group.entries[places[k]], out.entries[k])
  {
    var cleaned := Cleaned(Truncated(group.entries));
    KeptStand(cleaned);
    KeptMembers(cleaned);
    forall k | 0 <= k < |out.entries| ensures ComesFrom(group.entries[Places(cleaned)[k]], out.entries[k]) {
      assert EraseAll(out.entries)[k] == Erased(out.entries[k]) && Kept(cleaned)[k] in Kept(cleaned);
      CleanedComesFrom(group.entries[Places(cleaned)[k]], out.entries[k]);
    }
  }

  lemma CleanedValid(s: Settings)
    ensures ValidSettings(Normalized(s)) <==> Sendable(s)
  {
    NormalizedIsUsable(s);
    ValidIsSendable(s);
  }

  lemma CleanedComesFrom(source: Entry, e: Entry)
    requires Erased(e) == Entry(source.id, Normalized(source.settings), None) && Valid(Erased(e))
    ensures ComesFrom(source, e)
  {
    NormalizedIsTidied(source.settings, e.settings);
    ValidIsSendable(e.settings);
  }

  /** A group is dropped exactly when none of its first five entries is usable. */
  lemma DroppedExactly(group: Group)
    ensures ExpectedGroup(group).None? <==>
            forall i: nat | AmongFive(group.entries, i) :: !Sendable(group.entries[i].settings)
  {
    var cleaned := Cleaned(Truncated(group.entries));
    KeptMembers(cleaned);
    forall i: nat | AmongFive(group.entries, i)
      ensures Valid(cleaned[i]) <==> Sendable(group.entries[i].settings)
    {
      NormalizedIsUsable(group.entries[i].settings);
      ValidIsSendable(group.entries[i].settings);
    }
    if Kept(cleaned) != [] {
      var c := Kept(cleaned)[0];
      assert c in Kept(cleaned) && c in cleaned;
      var i: nat :| i < |cleaned| && cleaned[i] == c;
      assert AmongFive(group.entries, i);
    }
    forall i: nat | AmongFive(group.entries, i) && Sendable(group.entries[i].settings) ensures Kept(cleaned) != [] {
      assert cleaned[i] in cleaned && cleaned[i] in Kept(cleaned);
    }
  }

  lemma SurvivorPrimary(group: Group, out: Group)
    requires ExpectedGroup(group) == Some(EraseGroup(out))
    ensures Follows(group, out)
  {
    KeptOfCleaned(group, out);
    FormerPrimaryComesFirst(group);
    assert |EraseAll(out.entries)| == |out.entries|;
    OrderOfErased(out);
  }

  lemma OrderOfErased(g: Group)
    requires g.entries != []
    ensures OrderedEntries(EraseGroup(g)) != [] && OrderedEntries(EraseGroup(g))[0] == Erased(OrderedEntries(g)[0])
  {
  }

  /** The groups of the input that survive, in order. */
  function Surviving(groups: seq<Group>): seq<Group> {
    if groups == [] then [] else
      var rest := Surviving(groups[..|groups| - 1]);
      if ExpectedGroup(groups[|groups| - 1]).Some? then rest + [groups[|groups| - 1]] else rest
  }

  /** Each group comes from a surviving one and starts with its former primary. */
  ghost predicate PrimariesFirst(sources: seq<Group>, out: seq<Group>) {
    |out| == |sources| && forall k | 0 <= k < |out| :: Follows(sources[k], out[k])
  }

  ghost predicate Follows(group: Group, out: Group) {
    PrimaryFirst(group, out) && MadeFrom(group, out)
  }

  /** Each surviving group becomes the expected one at its place. */
  ghost predicate Become(sources: seq<Group>, expected: seq<Group>) {
    |sources| == |expected| && forall k | 0 <= k < |sources| :: Becomes(sources[k], expected[k])
  }

  ghost predicate Becomes(group: Group, expected: Group) {
    ExpectedGroup(group) == Some(expected)
  }

  lemma BecomePush(sources: seq<Group>, expected: seq<Group>, group: Group, made: Group)
    requires Become(sources, expected) && Becomes(group, made)
    ensures Become(sources + [group], expected + [made])
  {
  }

  lemma {:induction false} SurvivingBecome(groups: seq<Group>)
    ensures Become(Surviving(groups), Expected(groups))
  {
    if groups != [] {
      var front, last := groups[..|groups| - 1], groups[|groups| - 1];
      SurvivingBecome(front);
      match ExpectedGroup(last)
      case None =>
      case Some(made) => BecomePush(Surviving(front), Expected(front), last, made);
    }
  }

  lemma SurvivorsPrimary(groups: seq<Group>, out: seq<Group>)
    requires EraseGroups(out) == Expected(groups)
    ensures PrimariesFirst(Surviving(groups), out)
  {
    SurvivingBecome(groups);
    var sources := Surviving(groups);
    assert |EraseGroups(out)| == |out| == |sources|;
    forall k | 0 <= k < |out| ensures Follows(sources[k], out[k]) {
      assert Becomes(sources[k], EraseGroups(out)[k]);
      SurvivorPrimary(sources[k], out[k]);
    }
  }

  /** After sanitising, the former primary, if it survived, is tried first. */
  lemma FormerPrimaryComesFirst(group: Group)
    requires group.entries != [] && ExpectedGroup(group).Some?
    ensures var cleaned := Cleaned(Truncated(group.entries));
            Valid(cleaned[Primary(group)]) ==> OrderedEntries(ExpectedGroup(group).value)[0] == cleaned[Primary(group)]
  {
    var cleaned := Cleaned(Truncated(group.entries));
    if Valid(cleaned[Primary(group)]) {
      KeptAt(cleaned, Primary(group));
    }
  }
}
