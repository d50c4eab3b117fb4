/** Whole runs of saves and deletions of one credential. */
module CredentialRuns {
  import opened Wrappers
  import opened Faults
  import opened Maps
  import opened Credentials
  import opened ChunkStore
  import opened CredentialStore

  datatype Call = SaveIt(credential: Credential, generation: Option<string>) | DeleteIt

  /** What a caller who only sees the answers knows about the stored credential. */
  datatype Knowledge = Unknown | Known(credential: Option<Credential>)

  /** A success settles what is stored, a failed save changes nothing, a failed deletion may have damaged it. */
  function Learn(k: Knowledge, call: Call, ok: bool): Knowledge {
    match call
    case SaveIt(credential, _) => if ok then Known(Some(credential)) else k
    case DeleteIt => if ok then Known(None) else Unknown
  }

  function Learned(k: Knowledge, calls: seq<Call>, oks: seq<bool>): Knowledge
    requires |calls| == |oks|
  {
    if calls == [] then k else
      var n := |calls| - 1;
      Learn(Learned(k, calls[..n], oks[..n]), calls[n], oks[n])
  }

  ghost predicate Agrees(codec: Codec, k: Knowledge, entries: Entries) {
    k.Known? ==> Loaded(codec, entries) == Ok(k.credential)
  }

  ghost predicate Uses(call: Call, g: string) {
    call.SaveIt? && call.generation == Some(g)
  }

  /** The saves from `n` on use well-formed generations, each fresh and used by no other save to come. */
  ghost predicate FreshFrom(codec: Codec, entries: Entries, calls: seq<Call>, n: nat) {
    forall i: nat, g | n <= i < |calls| && Uses(calls[i], g) ::
      ValidGeneration(g) && Fresh(codec, entries, g) && UnusedAfter(calls, i, g)
  }

  ghost predicate UnusedAfter(calls: seq<Call>, i: nat, g: string) {
    forall j | i < j < |calls| :: !Uses(calls[j], g)
  }

  /** Every generation that no manifest named, other than the call's own, is left alone. */
  ghost predicate LeavesOthers(codec: Codec, before: Entries, after: Entries, log: seq<Operation>, from: nat,
                               call: Call)
  {
    forall g | Unnamed(codec, before, g) && !Uses(call, g) :: LeftAlone(codec, before, after, log, from, g)
  }

  lemma FreshNext(codec: Codec, before: Entries, after: Entries, log: seq<Operation>, from: nat, calls: seq<Call>,
                  n: nat)
    requires n < |calls| && FreshFrom(codec, before, calls, n)
    requires LeavesOthers(codec, before, after, log, from, calls[n])
    ensures FreshFrom(codec, after, calls, n + 1)
  {
    forall i: nat, g | n + 1 <= i < |calls| && Uses(calls[i], g)
      ensures ValidGeneration(g) && Fresh(codec, after, g) && UnusedAfter(calls, i, g)
    {
      assert Uses(calls[n], g) ==> UnusedAfter(calls, n, g);
      assert LeftAlone(codec, before, after, log, from, g);
      SameStored(before, after, g);
    }
  }

  lemma SameStored(before: Entries, after: Entries, g: string)
    requires SameChunks(before, after, g)
    ensures Stored(before, g) <==> Stored(after, g)
  {
    forall i: nat ensures ChunkSlot(g, i) in before <==> ChunkSlot(g, i) in after {
      assert SameAt(before, after, ChunkSlot(g, i));
    }
  }

  // ----- a save that leaves chunks behind

  /** The manifest write of a first save fails, and then the first deletion. */
  function TwoFaults(count: nat): nat -> bool {
    n => n == count + 1 || n == count + 2
  }

  lemma TwoFaultsLeave(count: nat)
    requires count > 0
    ensures Faulty(TwoFaults(count), 1, count + 2) && LeftBehind(TwoFaults(count), 1, count)
    ensures !TwoFaults(count)(0)
  {
    var faults := TwoFaults(count);
    assert faults(count + 1) && faults(count + 2);
    assert FailsAt(faults, 1, 1 + 2 * count + 1, count, true);
  }

  /** Whatever the credential, two failing operations make its first save fail and leave chunks no manifest names. */
  method LeakingSave(codec: Codec, credential: Credential, generation: string)
    returns (store: SecretStore, r: Result<(), Error>)
    requires codec.RoundTrips() && ValidGeneration(generation)
    requires Unhindered(codec, map[], credential, Some(generation))
    ensures fresh(store) && r.Err?
    ensures Stored(store.entries, generation) && !Tidy(codec, store.entries) && Loaded(codec, store.entries) == Ok(None)
  {
    var count := ChunksOf(codec, credential);
    TwoFaultsLeave(count);
    store := new SecretStore(TwoFaults(count), map[]);
    r := Save(store, codec, credential, Some(generation));
    OrphansAreUntidy(codec, store.entries, generation);
  }

  // ----- which saves left chunks behind

  /** The generations of the saves that failed. */
  ghost function Abandoned(calls: seq<Call>, oks: seq<bool>): set<string>
    requires |calls| == |oks|
  {
    if calls == [] then {} else
      var n := |calls| - 1;
      Abandoned(calls[..n], oks[..n]) + AbandonedBy(calls[n], oks[n])
  }

  ghost function AbandonedBy(call: Call, ok: bool): set<string> {
    if call.SaveIt? && call.generation.Some? && !ok then {call.generation.value} else {}
  }

  /** The cleanup of a save that failed had a deletion fail as well. */
  ghost predicate Leaked(abandoned: set<string>, log: seq<Operation>, from: nat) {
    exists g <- abandoned :: Refused(log, from, g)
  }

  /** Abandoned generations are unnamed, and their chunks are there exactly where a deletion was refused. */
  ghost predicate Tracked(codec: Codec, entries: Entries, abandoned: set<string>, log: seq<Operation>, from: nat) {
    forall g <- abandoned ::
      Unnamed(codec, entries, g) && (Stored(entries, g) <==> Refused(log, from, g))
  }

  ghost predicate UnusedFrom(calls: seq<Call>, n: nat, abandoned: set<string>) {
    forall g, j | g in abandoned && n <= j < |calls| :: !Uses(calls[j], g)
  }

  lemma UnusedNext(codec: Codec, entries: Entries, calls: seq<Call>, n: nat, abandoned: set<string>, ok: bool)
    requires n < |calls| && UnusedFrom(calls, n, abandoned) && FreshFrom(codec, entries, calls, n)
    ensures UnusedFrom(calls, n + 1, abandoned + AbandonedBy(calls[n], ok))
  {
    forall g, j | g in AbandonedBy(calls[n], ok) && n + 1 <= j < |calls| ensures !Uses(calls[j], g) {
      assert Uses(calls[n], g);
      assert UnusedAfter(calls, n, g);
    }
  }

  /** What one call did to the account of the saves that failed. */
  lemma TrackedNext(codec: Codec, before: Entries, after: Entries, early: seq<Operation>, log: seq<Operation>,
                    from: nat, call: Call, ok: bool, abandoned: set<string>)
    requires from <= |early| && early <= log && Tracked(codec, before, abandoned, early, from)
    requires forall g <- abandoned :: !Uses(call, g)
    requires LeavesOthers(codec, before, after, log, |early|, call)
    requires forall g <- AbandonedBy(call, ok) ::
               Unsaved(codec, before, after, log, |early|, g) && !Refused(early, from, g)
    ensures Tracked(codec, after, abandoned + AbandonedBy(call, ok), log, from)
  {
    forall g | g in abandoned + AbandonedBy(call, ok)
      ensures Unnamed(codec, after, g) && (Stored(after, g) <==> Refused(log, from, g))
    {
      RefusedParts(early, log, from, g);
      if g in abandoned {
        assert LeftAlone(codec, before, after, log, |early|, g);
        SameStored(before, after, g);
      }
    }
  }

  /** A tracked account with a leak is untidy. */
  lemma LeakIsUntidy(codec: Codec, entries: Entries, abandoned: set<string>, log: seq<Operation>, from: nat)
    requires Tracked(codec, entries, abandoned, log, from) && Leaked(abandoned, log, from)
    ensures !Tidy(codec, entries)
  {
    var g :| g in abandoned && Refused(log, from, g);
    OrphansAreUntidy(codec, entries, g);
  }

  /** A leak stays, and a call adds one exactly when its own cleanup failed. */
  lemma LeakNext(early: seq<Operation>, log: seq<Operation>, from: nat, abandoned: set<string>, more: set<string>)
    requires from <= |early| && early <= log
    requires forall g <- more :: !Refused(early, from, g)
    requires forall g <- abandoned :: !Refused(log, |early|, g)
    ensures Leaked(abandoned + more, log, from) <==> Leaked(abandoned, early, from) || Leaked(more, log, |early|)
  {
    forall g ensures Refused(log, from, g) <==> Refused(early, from, g) || Refused(log, |early|, g) {
      RefusedParts(early, log, from, g);
    }
  }

  /** No deletion of a chunk of a generation yet to be used was refused. */
  ghost predicate Unrefused(calls: seq<Call>, n: nat, log: seq<Operation>, from: nat) {
    forall i: nat, g | n <= i < |calls| && Uses(calls[i], g) :: !Refused(log, from, g)
  }

  lemma UnrefusedNext(codec: Codec, before: Entries, after: Entries, early: seq<Operation>, log: seq<Operation>,
                      from: nat, calls: seq<Call>, n: nat)
    requires n < |calls| && from <= |early| && early <= log
    requires Unrefused(calls, n, early, from) && FreshFrom(codec, before, calls, n)
    requires LeavesOthers(codec, before, after, log, |early|, calls[n])
    ensures Unrefused(calls, n + 1, log, from)
  {
    forall i: nat, g | n + 1 <= i < |calls| && Uses(calls[i], g) ensures !Refused(log, from, g) {
      assert Uses(calls[n], g) ==> UnusedAfter(calls, n, g);
      assert LeftAlone(codec, before, after, log, |early|, g);
      RefusedParts(early, log, from, g);
    }
  }

  /** What is known after `n` calls of a run whose failed saves are the abandoned ones. */
  ghost predicate Account(codec: Codec, entries: Entries, calls: seq<Call>, n: nat, abandoned: set<string>,
                          log: seq<Operation>, from: nat)
  {
    && FreshFrom(codec, entries, calls, n) && UnusedFrom(calls, n, abandoned) && Unrefused(calls, n, log, from)
    && Tracked(codec, entries, abandoned, log, from)
    && (Tidy(codec, entries) <==> !Leaked(abandoned, log, from))
  }

  /** One more call. */
  lemma AccountNext(codec: Codec, before: Entries, after: Entries, early: seq<Operation>, log: seq<Operation>,
                    from: nat, calls: seq<Call>, n: nat, ok: bool, abandoned: set<string>)
    requires n < |calls| && from <= |early| && early <= log
    requires Account(codec, before, calls, n, abandoned, early, from)
    requires LeavesOthers(codec, before, after, log, |early|, calls[n])
    requires forall g <- AbandonedBy(calls[n], ok) :: Unsaved(codec, before, after, log, |early|, g)
    requires Tidy(codec, before) ==> (Tidy(codec, after) <==> !Leaked(AbandonedBy(calls[n], ok), log, |early|))
    ensures Account(codec, after, calls, n + 1, abandoned + AbandonedBy(calls[n], ok), log, from)
    ensures Leaked(abandoned + AbandonedBy(calls[n], ok), log, from) <==>
            Leaked(abandoned, early, from) || Leaked(AbandonedBy(calls[n], ok), log, |early|)
  {
    var more := AbandonedBy(calls[n], ok);
    FreshNext(codec, before, after, log, |early|, calls, n);
    UnusedNext(codec, before, calls, n, abandoned, ok);
    UnrefusedNext(codec, before, after, early, log, from, calls, n);
    forall g | g in more ensures !Refused(early, from, g) {
      assert Uses(calls[n], g);
    }
    forall g | g in abandoned ensures !Refused(log, |early|, g) {
      assert Unnamed(codec, before, g) && !Uses(calls[n], g);
      assert LeftAlone(codec, before, after, log, |early|, g);
    }
    TrackedNext(codec, before, after, early, log, from, calls[n], ok, abandoned);
    LeakNext(early, log, from, abandoned, more);
    if Leaked(abandoned + more, log, from) {
      LeakIsUntidy(codec, after, abandoned + more, log, from);
    }
  }

  // ----- runs

  /** One call of a run. */
  method Perform(store: SecretStore, codec: Codec, call: Call, ghost known: Knowledge) returns (ok: bool)
    requires codec.RoundTrips() && Agrees(codec, known, store.entries)
    requires forall g | Uses(call, g) :: ValidGeneration(g) && Fresh(codec, store.entries, g)
    modifies store
    ensures old(store.log) <= store.log
    ensures Agrees(codec, Learn(known, call, ok), store.entries)
    ensures Tidy(codec, old(store.entries)) ==>
              (Tidy(codec, store.entries) <==> !Leaked(AbandonedBy(call, ok), store.log, |old(store.log)|))
    ensures Tidy(codec, old(store.entries)) && call == DeleteIt && ok ==> store.entries == map[]
    ensures forall g <- AbandonedBy(call, ok) ::
              Unsaved(codec, old(store.entries), store.entries, store.log, |old(store.log)|, g)
    ensures Leaked(AbandonedBy(call, ok), store.log, |old(store.log)|) ==>
              TwiceFaulty(store.faults, |old(store.log)|, |store.log|)
    ensures LeavesOthers(codec, old(store.entries), store.entries, store.log, |old(store.log)|, call)
  {
    match call {
      case SaveIt(credential, generation) =>
        assert generation.Some? ==> Uses(call, generation.value);
        var r := Save(store, codec, credential, generation);
        ok := r.Ok?;
      case DeleteIt =>
        var r := Delete(store, codec);
        ok := r.Ok?;
    }
  }

  /**
    * Any run of saves and deletions, with any faults. The store behaves as one cell that only successful
    * calls change, until a deletion fails half way. Every stored chunk is named by a readable manifest at the
    * end if and only if no save that failed had, in its cleanup, the deletion of one of its chunks fail.
    */
  method RunCalls(store: SecretStore, codec: Codec, calls: seq<Call>, ghost known: Knowledge) returns (oks: seq<bool>)
    requires codec.RoundTrips() && Tidy(codec, store.entries) && Agrees(codec, known, store.entries)
    requires FreshFrom(codec, store.entries, calls, 0)
    modifies store
    ensures |oks| == |calls| && Agrees(codec, Learned(known, calls, oks), store.entries)
    ensures old(store.log) <= store.log
    ensures Tidy(codec, store.entries) <==> !Leaked(Abandoned(calls, oks), store.log, |old(store.log)|)
    ensures Leaked(Abandoned(calls, oks), store.log, |old(store.log)|) ==>
              TwiceFaulty(store.faults, |old(store.log)|, |store.log|)
    ensures Tidy(codec, store.entries) && calls != [] && calls[|calls| - 1] == DeleteIt && oks[|calls| - 1] ==>
              store.entries == map[]
  {
    oks := [];
    ghost var abandoned: set<string>, from := {}, |store.log|;
    for n := 0 to |calls|
      invariant |oks| == n && Agrees(codec, Learned(known, calls[..n], oks), store.entries)
      invariant abandoned == Abandoned(calls[..n], oks)
      invariant old(store.log) <= store.log
      invariant Account(codec, store.entries, calls, n, abandoned, store.log, from)
      invariant LeakNeedsTwo(abandoned, store.log, from, store.faults)
      invariant Tidy(codec, store.entries) && n > 0 && calls[n - 1] == DeleteIt && oks[n - 1] ==> store.entries == map[]
    {
      var ok := PerformNext(store, codec, calls, n, Learned(known, calls[..n], oks), abandoned, from);
      LearnedNext(known, calls, oks, ok);
      AbandonedNext(calls, oks, ok);
      abandoned := abandoned + AbandonedBy(calls[n], ok);
      oks := oks + [ok];
    }
    assert calls[..|calls|] == calls;
  }

  ghost predicate LeakNeedsTwo(abandoned: set<string>, log: seq<Operation>, from: nat, faults: nat -> bool) {
    Leaked(abandoned, log, from) ==> TwiceFaulty(faults, from, |log|)
  }

  /** The call number `n` of a run, with the account carried on. */
  method PerformNext(store: SecretStore, codec: Codec, calls: seq<Call>, n: nat, ghost known: Knowledge,
                     ghost abandoned: set<string>, ghost from: nat)
    returns (ok: bool)
    requires codec.RoundTrips() && n < |calls| && from <= |store.log| && Agrees(codec, known, store.entries)
    requires Account(codec, store.entries, calls, n, abandoned, store.log, from)
    requires LeakNeedsTwo(abandoned, store.log, from, store.faults)
    modifies store
    ensures old(store.log) <= store.log
    ensures Agrees(codec, Learn(known, calls[n], ok), store.entries)
    ensures Account(codec, store.entries, calls, n + 1, abandoned + AbandonedBy(calls[n], ok), store.log, from)
    ensures LeakNeedsTwo(abandoned + AbandonedBy(calls[n], ok), store.log, from, store.faults)
    ensures Tidy(codec, store.entries) && calls[n] == DeleteIt && ok ==> store.entries == map[]
  {
    ghost var before, early := store.entries, store.log;
    ok := Perform(store, codec, calls[n], known);
    AccountNext(codec, before, store.entries, early, store.log, from, calls, n, ok, abandoned);
  }

  lemma LearnedNext(known: Knowledge, calls: seq<Call>, oks: seq<bool>, ok: bool)
    requires |oks| < |calls|
    ensures var n := |oks|;
            Learned(known, calls[..n + 1], oks + [ok]) == Learn(Learned(known, calls[..n], oks), calls[n], ok)
  {
    var n := |oks|;
    assert calls[..n + 1][..n] == calls[..n] && (oks + [ok])[..n] == oks;
  }

  lemma AbandonedNext(calls: seq<Call>, oks: seq<bool>, ok: bool)
    requires |oks| < |calls|
    ensures var n := |oks|;
            Abandoned(calls[..n + 1], oks + [ok]) == Abandoned(calls[..n], oks) + AbandonedBy(calls[n], ok)
  {
    var n := |oks|;
    assert calls[..n + 1][..n] == calls[..n] && (oks + [ok])[..n] == oks;
  }
}
