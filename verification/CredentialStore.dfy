/** Saving, loading and deleting a credential over a store whose operations may fail. */
module CredentialStore {
  import opened Wrappers
  import opened Bytes
  import opened Faults
  import opened Maps
  import opened Credentials
  import opened ChunkStore

  lemma CommittedLoads(codec: Codec, entries: Entries, m: Manifest, credential: Credential, bytes: seq<Byte>)
    requires codec.RoundTrips() && ValidManifest(m)
    requires bytes == codec.encodeEnvelope(Envelope(CREDENTIAL_VERSION, credential))
    requires m.current.length == |bytes| && m.current.digest == codec.digest(bytes)
    requires m.current.chunks == ChunkCount(|bytes|) && Holds(entries, m.current.generation, bytes, m.current.chunks)
    ensures var committed := entries[ManifestSlot := codec.encodeManifest(m)];
            HasManifest(codec, committed, m) && Loaded(codec, committed) == Ok(Some(credential))
  {
    var committed := entries[ManifestSlot := codec.encodeManifest(m)];
    assert codec.decodeManifest(codec.encodeManifest(m)) == Some(m);
    StoredCredentialLoads(codec, committed, m, credential);
  }

  /** Every chunk stored is one of the new generation's or is listed as obsolete. */
  ghost predicate Accounted(entries: Entries, generation: string, count: nat, sets: seq<ChunkSet>) {
    forall g: string, i: nat | ChunkSlot(g, i) in entries :: (g == generation && i < count) || Lists(sets, g, i)
  }

  lemma CommittedIsTidy(codec: Codec, entries: Entries, m: Manifest)
    requires codec.RoundTrips() && ValidManifest(m)
    requires Accounted(entries, m.current.generation, m.current.chunks, m.obsolete)
    ensures Tidy(codec, entries[ManifestSlot := codec.encodeManifest(m)])
  {
    assert codec.decodeManifest(codec.encodeManifest(m)) == Some(m);
  }

  lemma AccountedAfterCleanup(before: Entries, after: Entries, generation: string, count: nat, sets: seq<ChunkSet>,
                              remaining: seq<ChunkSet>)
    requires Accounted(before, generation, count, sets) && after.Keys <= before.Keys
    requires forall s <- sets :: s in remaining || Gone(after, s)
    ensures Accounted(after, generation, count, remaining)
  {
    forall g: string, i: nat | ChunkSlot(g, i) in after
      ensures (g == generation && i < count) || Lists(remaining, g, i)
    {
      assert ChunkSlot(g, i) in before;
      if Lists(sets, g, i) {
        var s :| s in sets && s.generation == g && i < s.chunks;
        assert !Gone(after, s);
      }
    }
  }

  /** Every state loads what was stored before or the new credential. */
  ghost predicate OldOrNew(codec: Codec, states: seq<Entries>, start: Entries, credential: Credential) {
    forall s <- states :: Loaded(codec, s) == Loaded(codec, start) || Loaded(codec, s) == Ok(Some(credential))
  }

  /** Every manifest in these states is the original one or passes the manifest check. */
  ghost predicate ManifestsPass(codec: Codec, states: seq<Entries>, start: Entries) {
    forall s <- states :: SameAt(start, s, ManifestSlot) || exists m :: HasManifest(codec, s, m)
  }

  lemma StretchLoadsOld(codec: Codec, generations: set<string>, start: Entries, states: seq<Entries>,
                        credential: Credential)
    requires StretchOf(generations, start, states) && Spares(codec, start, generations)
    ensures OldOrNew(codec, states, start, credential) && ManifestsPass(codec, states, start)
    ensures forall s <- states :: Loaded(codec, s) == Loaded(codec, start)
  {
    forall s | s in states ensures Loaded(codec, s) == Loaded(codec, start) {
      LoadedSame(codec, start, s, generations);
    }
  }

  /** States after the commit differ from it in obsolete chunks only, so they load the new credential. */
  lemma StretchLoadsNew(codec: Codec, m: Manifest, committed: Entries, states: seq<Entries>, start: Entries,
                        credential: Credential)
    requires StretchOf(Generations(m.obsolete), committed, states)
    requires HasManifest(codec, committed, m) && Loaded(codec, committed) == Ok(Some(credential))
    ensures OldOrNew(codec, states, start, credential) && ManifestsPass(codec, states, start)
    ensures forall s <- states :: Loaded(codec, s) == Ok(Some(credential)) && HasManifest(codec, s, m)
  {
    forall s | s in states ensures Loaded(codec, s) == Ok(Some(credential)) && HasManifest(codec, s, m) {
      LoadedSame(codec, committed, s, Generations(m.obsolete));
    }
  }

  lemma HistoriesJoin(codec: Codec, a: seq<Entries>, b: seq<Entries>, start: Entries, credential: Credential)
    requires OldOrNew(codec, a, start, credential) && ManifestsPass(codec, a, start)
    requires OldOrNew(codec, b, start, credential) && ManifestsPass(codec, b, start)
    ensures OldOrNew(codec, a + b, start, credential) && ManifestsPass(codec, a + b, start)
  {
  }

  lemma RewriteLoads(codec: Codec, entries: Entries, m: Manifest, sets: seq<ChunkSet>)
    requires codec.RoundTrips() && HasManifest(codec, entries, m) && ValidManifest(m.(obsolete := sets))
    ensures var rewritten := entries[ManifestSlot := codec.encodeManifest(m.(obsolete := sets))];
            HasManifest(codec, rewritten, m.(obsolete := sets)) && Loaded(codec, rewritten) == Loaded(codec, entries)
  {
    var rewritten := entries[ManifestSlot := codec.encodeManifest(m.(obsolete := sets))];
    assert codec.decodeManifest(codec.encodeManifest(m.(obsolete := sets))) == Some(m.(obsolete := sets));
    GatheredSame(entries, rewritten, m.current.generation, m.current.chunks);
  }

  lemma SublistValid(m: Manifest, sets: seq<ChunkSet>)
    requires ValidManifest(m) && Sublist(sets, m.obsolete)
    ensures ValidManifest(m.(obsolete := sets))
  {
    assert DistinctSets(m.obsolete);
    SublistKeeps(sets, m.obsolete);
    assert forall s <- m.obsolete :: s.generation != m.current.generation;
    assert DistinctSets(sets);
  }

  /** After the commit: delete what is obsolete and, if some of it is gone, shorten the manifest's list. */
  method Retire(store: SecretStore, codec: Codec, m: Manifest, ghost start: Entries, ghost credential: Credential)
    requires codec.RoundTrips() && HasManifest(codec, store.entries, m)
    requires Loaded(codec, store.entries) == Ok(Some(credential))
    modifies store
    ensures old(store.history) <= store.history && old(store.log) <= store.log
    ensures OldOrNew(codec, store.history[|old(store.history)|..], start, credential)
    ensures ManifestsPass(codec, store.history[|old(store.history)|..], start)
    ensures Loaded(codec, store.entries) == Ok(Some(credential))
    ensures Accounted(old(store.entries), m.current.generation, m.current.chunks, m.obsolete) ==>
            Tidy(codec, store.entries)
    ensures LeavesUnnamed(codec, old(store.entries), store.entries, store.log, |old(store.log)|)
    ensures Accounted(old(store.entries), m.current.generation, m.current.chunks, m.obsolete) ==>
              OnlyOwnOrRefused(store.entries, m.current.generation, store.log, |old(store.log)|)
    ensures Shortened(codec, store.entries, m, store.log, |old(store.log)|)
  {
    ghost var from, committed := |old(store.history)|, store.entries;
    var remaining := CleanupChunkSets(store, m.obsolete);
    ghost var cleaned, before, swept := store.entries, store.history, store.log;
    StretchLoadsNew(codec, m, committed, before[from..], start, credential);
    assert cleaned in [cleaned];
    StretchLoadsNew(codec, m, committed, [cleaned], start, credential);
    RemainingKnown(m, remaining, swept, |old(store.log)|);
    OwnOrRefusedAfterCleanup(committed, cleaned, m, remaining, swept, |old(store.log)|);
    if Accounted(committed, m.current.generation, m.current.chunks, m.obsolete) {
      RetiredIsTidy(codec, committed, cleaned, m);
    }
    CleanupLeaves(codec, committed, cleaned, m, Generations(m.obsolete), swept, |old(store.log)|);
    if |remaining| != |m.obsolete| {
      Rewrite(store, codec, m, remaining, start, credential);
      assert store.history[from..] == before[from..] + store.history[|before|..];
      HistoriesJoin(codec, before[from..], store.history[|before|..], start, credential);
      AfterRewrite(codec, committed, cleaned, store.entries, m, remaining, swept, store.log, |old(store.log)|);
    }
  }

  /** Write the manifest again with a shorter list of obsolete sets, if it can be encoded. */
  method Rewrite(store: SecretStore, codec: Codec, m: Manifest, sets: seq<ChunkSet>, ghost start: Entries,
                 ghost credential: Credential)
    requires codec.RoundTrips() && HasManifest(codec, store.entries, m) && Sublist(sets, m.obsolete)
    requires Loaded(codec, store.entries) == Ok(Some(credential))
    modifies store
    ensures old(store.history) <= store.history && old(store.log) <= store.log
    ensures OldOrNew(codec, store.history[|old(store.history)|..], start, credential)
    ensures ManifestsPass(codec, store.history[|old(store.history)|..], start)
    ensures Loaded(codec, store.entries) == Ok(Some(credential))
    ensures Rewritten(codec, old(store.entries), store.entries, m, sets, old(store.log), store.log)
  {
    ghost var entries := store.entries;
    SublistValid(m, sets);
    RewriteLoads(codec, entries, m, sets);
    var encoded := EncodeManifest(codec, m.(obsolete := sets));
    if encoded.Ok? {
      ghost var from := |store.history|;
      var ok := store.Write(ManifestSlot, encoded.value);
      assert store.history[from..] == [store.entries];
    }
  }

  /** The shorter manifest was written, was too large, or could not be written. */
  ghost predicate Rewritten(codec: Codec, before: Entries, after: Entries, m: Manifest, sets: seq<ChunkSet>,
                            early: seq<Operation>, log: seq<Operation>)
  {
    var bytes := codec.encodeManifest(m.(obsolete := sets));
    if |bytes| > CHUNK_SIZE then after == before && log == early else
      && |log| == |early| + 1 && log == early + [Operation(Writing, ManifestSlot, log[|early|].ok)]
      && after == if log[|early|].ok then before[ManifestSlot := bytes] else before
  }

  lemma AfterRewrite(codec: Codec, committed: Entries, cleaned: Entries, after: Entries, m: Manifest,
                     sets: seq<ChunkSet>, early: seq<Operation>, log: seq<Operation>, from: nat)
    requires codec.RoundTrips() && HasManifest(codec, committed, m) && HasManifest(codec, cleaned, m)
    requires Part(cleaned, committed) && from <= |early| && Sublist(sets, m.obsolete)
    requires sets == StillListed(m.obsolete, early, from)
    requires forall s <- m.obsolete :: s in sets || Gone(cleaned, s)
    requires Rewritten(codec, cleaned, after, m, sets, early, log)
    requires LeavesUnnamed(codec, committed, cleaned, early, from)
    ensures LeavesUnnamed(codec, committed, after, log, from)
    ensures Accounted(committed, m.current.generation, m.current.chunks, m.obsolete) ==> Tidy(codec, after)
    ensures OnlyOwnOrRefused(cleaned, m.current.generation, early, from) ==>
              OnlyOwnOrRefused(after, m.current.generation, log, from)
    ensures Shortened(codec, after, m, log, from)
  {
    SublistValid(m, sets);
    assert codec.decodeManifest(codec.encodeManifest(m.(obsolete := sets))) == Some(m.(obsolete := sets));
    RewriteLeaves(codec, committed, cleaned, m, sets, early, from);
    if Accounted(committed, m.current.generation, m.current.chunks, m.obsolete) {
      RetiredIsTidy(codec, committed, cleaned, m);
      AccountedAfterCleanup(committed, cleaned, m.current.generation, m.current.chunks, m.obsolete, sets);
      CommittedIsTidy(codec, cleaned, m.(obsolete := sets));
    }
    if log != early {
      var op := log[|early|];
      WriteLeaves(codec, committed, after, early, op, from);
      RewriteKnown(cleaned, after, m, early, op, from);
    }
  }

  /** Every stored chunk is the generation's own or of one of which a deletion failed. */
  ghost predicate OnlyOwnOrRefused(entries: Entries, generation: string, log: seq<Operation>, from: nat) {
    forall h: string, i: nat | ChunkSlot(h, i) in entries :: h == generation || Refused(log, from, h)
  }

  /**
    * The stored manifest is `m` with exactly those obsolete sets of which a deletion failed; or it is `m` itself,
    * because the shorter one is too large or the last operation was the failed attempt to write it.
    */
  ghost predicate Shortened(codec: Codec, entries: Entries, m: Manifest, log: seq<Operation>, from: nat) {
    var shorter := m.(obsolete := StillListed(m.obsolete, log, from));
    || HasManifest(codec, entries, shorter)
    || (HasManifest(codec, entries, m) && |codec.encodeManifest(shorter)| > CHUNK_SIZE)
    || (HasManifest(codec, entries, m) && log != [] && log[|log| - 1] == Operation(Writing, ManifestSlot, false))
  }

  lemma OwnOrRefusedAfterCleanup(before: Entries, after: Entries, m: Manifest, remaining: seq<ChunkSet>,
                                 log: seq<Operation>, from: nat)
    requires Part(after, before) && AllRefused(log, from, remaining)
    requires forall s <- m.obsolete :: s in remaining || Gone(after, s)
    ensures Accounted(before, m.current.generation, m.current.chunks, m.obsolete) ==>
              OnlyOwnOrRefused(after, m.current.generation, log, from)
  {
    if Accounted(before, m.current.generation, m.current.chunks, m.obsolete) {
      AccountedAfterCleanup(before, after, m.current.generation, m.current.chunks, m.obsolete, remaining);
      forall h: string, i: nat | ChunkSlot(h, i) in after && h != m.current.generation ensures Refused(log, from, h) {
        assert Lists(remaining, h, i);
        var s :| s in remaining && s.generation == h && i < s.chunks;
      }
    }
  }

  /** What remains of a valid manifest's obsolete list, and that nothing was dropped if its length is the same. */
  lemma RemainingKnown(m: Manifest, remaining: seq<ChunkSet>, log: seq<Operation>, from: nat)
    requires ValidManifest(m) && Sublist(remaining, m.obsolete)
    requires DistinctSets(m.obsolete) ==> remaining == StillListed(m.obsolete, log, from)
    ensures remaining == StillListed(m.obsolete, log, from)
    ensures |remaining| == |m.obsolete| ==> remaining == m.obsolete
  {
    assert DistinctSets(m.obsolete);
    SublistWhole(remaining, m.obsolete);
  }

  lemma {:induction false} SublistWhole(a: seq<ChunkSet>, b: seq<ChunkSet>)
    requires Sublist(a, b)
    ensures |a| == |b| ==> a == b
    decreases |b|
  {
    if b != [] {
      var rest := b[..|b| - 1];
      if Sublist(a, rest) {
        SublistKeeps(a, rest);
      } else {
        SublistWhole(a[..|a| - 1], rest);
        assert a == a[..|a| - 1] + [a[|a| - 1]] && b == rest + [b[|b| - 1]];
      }
    }
  }

  /** Writing the manifest changes neither which chunks are stored nor which deletions failed. */
  lemma RewriteKnown(cleaned: Entries, after: Entries, m: Manifest, log: seq<Operation>, op: Operation, from: nat)
    requires from <= |log| && op.action.Writing? && after.Keys <= cleaned.Keys + {ManifestSlot}
    ensures StillListed(m.obsolete, log + [op], from) == StillListed(m.obsolete, log, from)
    ensures OnlyOwnOrRefused(cleaned, m.current.generation, log, from) ==>
              OnlyOwnOrRefused(after, m.current.generation, log + [op], from)
  {
    StillListedSame(m.obsolete, log, log + [op], from);
    forall h ensures Refused(log, from, h) ==> Refused(log + [op], from, h) {
      RefusedParts(log, log + [op], from, h);
    }
    assert forall h: string, i: nat | ChunkSlot(h, i) in after :: ChunkSlot(h, i) in cleaned;
  }

  ghost predicate SameChunks(a: Entries, b: Entries, generation: string) {
    forall i: nat :: SameAt(a, b, ChunkSlot(generation, i))
  }

  /** The generation is not named, its chunks are as they were, and no deletion of one was refused. */
  ghost predicate LeftAlone(codec: Codec, before: Entries, after: Entries, log: seq<Operation>, from: nat, g: string) {
    Unnamed(codec, after, g) && SameChunks(before, after, g) && !Refused(log, from, g)
  }

  /** Every generation that no manifest named is left alone. */
  ghost predicate LeavesUnnamed(codec: Codec, before: Entries, after: Entries, log: seq<Operation>, from: nat) {
    forall g | Unnamed(codec, before, g) :: LeftAlone(codec, before, after, log, from, g)
  }

  lemma LeftAloneTwice(codec: Codec, a: Entries, b: Entries, c: Entries, early: seq<Operation>, log: seq<Operation>,
                       from: nat, g: string)
    requires from <= |early| && early <= log
    requires LeftAlone(codec, a, b, early, from, g) && LeftAlone(codec, b, c, log, |early|, g)
    ensures LeftAlone(codec, a, c, log, from, g)
  {
    RefusedParts(early, log, from, g);
    forall i: nat ensures SameAt(a, c, ChunkSlot(g, i)) {
      assert SameAt(a, b, ChunkSlot(g, i)) && SameAt(b, c, ChunkSlot(g, i));
    }
  }

  /** Deleting chunks of generations that the manifest names. */
  lemma CleanupLeaves(codec: Codec, before: Entries, after: Entries, m: Manifest, generations: set<string>,
                      log: seq<Operation>, from: nat)
    requires HasManifest(codec, before, m) && OnlyChunksOf(generations, before, after)
    requires generations <= Generations(m.obsolete) + {m.current.generation}
    requires OnlyRefuses(log, from, generations)
    ensures LeavesUnnamed(codec, before, after, log, from)
  {
    forall g | Unnamed(codec, before, g) ensures LeftAlone(codec, before, after, log, from, g) {
      assert g !in generations;
    }
  }

  lemma WriteLeaves(codec: Codec, before: Entries, after: Entries, log: seq<Operation>, op: Operation, from: nat)
    requires LeavesUnnamed(codec, before, after, log, from) && !op.action.Deleting? && from <= |log|
    ensures LeavesUnnamed(codec, before, after, log + [op], from)
  {
    forall g | Unnamed(codec, before, g) ensures LeftAlone(codec, before, after, log + [op], from, g) {
      RefusedParts(log, log + [op], from, g);
    }
  }

  /** Shortening the manifest's obsolete list. */
  lemma RewriteLeaves(codec: Codec, committed: Entries, cleaned: Entries, m: Manifest, sets: seq<ChunkSet>,
                      log: seq<Operation>, from: nat)
    requires HasManifest(codec, committed, m) && Sublist(sets, m.obsolete)
    requires LeavesUnnamed(codec, committed, cleaned, log, from)
    requires codec.RoundTrips() && ValidManifest(m.(obsolete := sets))
    ensures var rewritten := cleaned[ManifestSlot := codec.encodeManifest(m.(obsolete := sets))];
            LeavesUnnamed(codec, committed, rewritten, log, from)
  {
    var shorter := m.(obsolete := sets);
    var rewritten := cleaned[ManifestSlot := codec.encodeManifest(shorter)];
    SublistKeeps(sets, m.obsolete);
    assert codec.decodeManifest(codec.encodeManifest(shorter)) == Some(shorter);
    forall g | Unnamed(codec, committed, g) ensures LeftAlone(codec, committed, rewritten, log, from, g) {
      assert LeftAlone(codec, committed, cleaned, log, from, g);
      forall i: nat ensures SameAt(committed, rewritten, ChunkSlot(g, i)) {
        assert SameAt(committed, cleaned, ChunkSlot(g, i));
      }
    }
  }

  /** Publishing a manifest names its own generation and those it lists as obsolete, no other. */
  lemma PublishingLeaves(codec: Codec, start: Entries, prepared: Entries, m: Manifest, g: string)
    requires codec.RoundTrips() && ValidManifest(m) && OnlyChunksOf({m.current.generation}, start, prepared)
    requires g != m.current.generation && ObsoleteFits(m.obsolete, g)
    ensures var committed := prepared[ManifestSlot := codec.encodeManifest(m)];
            Unnamed(codec, committed, g) && SameChunks(start, committed, g)
  {
    assert codec.decodeManifest(codec.encodeManifest(m)) == Some(m);
    forall i: nat ensures SameAt(start, prepared, ChunkSlot(g, i)) {
    }
  }

  /** Undoing a new generation leaves the others alone. */
  lemma UndoneLeaves(codec: Codec, start: Entries, after: Entries, generation: string, log: seq<Operation>, from: nat,
                     g: string)
    requires OnlyChunksOf({generation}, start, after) && OnlyRefuses(log, from, {generation})
    requires Unnamed(codec, start, g) && g != generation
    ensures LeftAlone(codec, start, after, log, from, g)
  {
    assert forall m | HasManifest(codec, after, m) :: HasManifest(codec, start, m);
  }

  lemma RetiredIsTidy(codec: Codec, committed: Entries, cleaned: Entries, m: Manifest)
    requires Accounted(committed, m.current.generation, m.current.chunks, m.obsolete)
    requires cleaned.Keys <= committed.Keys && HasManifest(codec, cleaned, m)
    ensures Tidy(codec, cleaned)
  {
    forall g: string, i: nat | ChunkSlot(g, i) in cleaned ensures NamedBy(m, g, i) {
      assert ChunkSlot(g, i) in committed;
    }
  }

  /** The manifest of a new generation. */
  function NewManifest(codec: Codec, generation: string, bytes: seq<Byte>, obsolete: seq<ChunkSet>): Manifest
    requires ChunkCount(|bytes|) < 0x1_0000_0000
  {
    Manifest(STORAGE_VERSION, CurrentSet(generation, ChunkCount(|bytes|), |bytes|, codec.digest(bytes)), obsolete)
  }

  lemma NewManifestValid(codec: Codec, generation: string, bytes: seq<Byte>, obsolete: seq<ChunkSet>)
    requires 0 < ChunkCount(|bytes|) <= MAX_CHUNKS && ValidGeneration(generation) && ObsoleteFits(obsolete, generation)
    ensures ValidManifest(NewManifest(codec, generation, bytes, obsolete))
  {
    var m := NewManifest(codec, generation, bytes, obsolete);
    assert |bytes| > 0;
    assert forall i | 0 <= i < |obsolete| :: obsolete[i] in obsolete;
    assert DistinctGenerations(m);
  }

  /** What a stored new generation promises before its manifest is written. */
  ghost predicate Prepared(codec: Codec, entries: Entries, m: Manifest, credential: Credential) {
    var bytes := codec.encodeEnvelope(Envelope(CREDENTIAL_VERSION, credential));
    && ValidManifest(m)
    && m.current.length == |bytes| && m.current.digest == codec.digest(bytes)
    && m.current.chunks == ChunkCount(|bytes|) && Holds(entries, m.current.generation, bytes, m.current.chunks)
  }

  /**
    * Write the manifest over stored chunks: the commit point. If it fails, delete the chunks; what then stays
    * behind are those whose deletion failed as well.
    */
  method Publish(store: SecretStore, codec: Codec, m: Manifest, ghost start: Entries, ghost from: nat,
                 ghost credential: Credential)
    returns (ok: bool)
    requires codec.RoundTrips() && Prepared(codec, store.entries, m, credential) && from <= |store.history|
    requires StretchOf({m.current.generation}, start, store.history[from..])
    requires OnlyChunksOf({m.current.generation}, start, store.entries) && Spares(codec, start, {m.current.generation})
    modifies store
    ensures old(store.history) <= store.history && old(store.log) < store.log
    ensures OldOrNew(codec, store.history[from..], start, credential)
    ensures ManifestsPass(codec, store.history[from..], start)
    ensures ok ==> store.entries == old(store.entries)[ManifestSlot := codec.encodeManifest(m)]
    ensures ok ==> HasManifest(codec, store.entries, m) && Loaded(codec, store.entries) == Ok(Some(credential))
    ensures !ok ==> OnlyChunksOf({m.current.generation}, start, store.entries)
    ensures ok == !store.faults(|old(store.log)|)
    ensures old(store.log) + [Operation(Writing, ManifestSlot, ok)] <= store.log
    ensures |store.log| == |old(store.log)| + 1 + if ok then 0 else m.current.chunks
    ensures !ok ==> (Stored(store.entries, m.current.generation) <==>
                     Faulty(store.faults, |old(store.log)| + 1, |store.log|))
    ensures !ok ==> (Stored(store.entries, m.current.generation) <==>
                     Refused(store.log, |old(store.log)| + 1, m.current.generation))
    ensures !ok ==> OnlyRefuses(store.log, |old(store.log)| + 1, {m.current.generation})
  {
    ghost var prepared, before, generation := store.entries, store.history, m.current.generation;
    var bytes := codec.encodeEnvelope(Envelope(CREDENTIAL_VERSION, credential));
    CommittedLoads(codec, prepared, m, credential, bytes);
    StretchLoadsOld(codec, {generation}, start, before[from..], credential);
    ok := store.Write(ManifestSlot, codec.encodeManifest(m));
    assert store.history[from..] == before[from..] + [store.entries];
    if ok {
      HistoriesJoin(codec, before[from..], [store.entries], start, credential);
    } else {
      StretchPush({generation}, start, before[from..], store.entries);
      TakeBack(store, m.current.generation, m.current.chunks, start, from);
      StretchLoadsOld(codec, {generation}, start, store.history[from..], credential);
    }
  }

  /** How many chunks a credential takes. */
  function ChunksOf(codec: Codec, credential: Credential): nat {
    ChunkCount(|codec.encodeEnvelope(Envelope(CREDENTIAL_VERSION, credential))|)
  }

  ghost predicate Oversized(codec: Codec, generation: string, bytes: seq<Byte>, obsolete: seq<ChunkSet>) {
    && ChunkCount(|bytes|) <= MAX_CHUNKS && |obsolete| <= MAX_OBSOLETE
    && |codec.encodeManifest(NewManifest(codec, generation, bytes, obsolete))| > CHUNK_SIZE
  }

  /** What each error of a save means; in particular a run without faults fails only for what it was given. */
  ghost predicate Blames(faults: nat -> bool, from: nat, to: nat, codec: Codec, credential: Credential,
                         generation: Option<string>, error: Error)
  {
    var bytes := codec.encodeEnvelope(Envelope(CREDENTIAL_VERSION, credential));
    match error
    case StoreFailed => Faulty(faults, from, to)
    case TooManyStale => Faulty(faults, from, to)
    case TooLarge => !(0 < ChunkCount(|bytes|) <= MAX_CHUNKS)
    case NoRandomness => generation.None?
    case MetadataTooLarge => generation.Some? && exists obsolete :: Oversized(codec, generation.value, bytes, obsolete)
    case _ => false
  }

  lemma BlamesWider(faults: nat -> bool, from: nat, to: nat, start: nat, codec: Codec, credential: Credential,
                    generation: Option<string>, error: Error)
    requires start <= from && Blames(faults, from, to, codec, credential, generation, error)
    ensures Blames(faults, start, to, codec, credential, generation, error)
  {
  }

  /** A generation that no manifest named, and that the new manifest does not name, is left alone. */
  ghost predicate SpendsOnly(codec: Codec, before: Entries, after: Entries, log: seq<Operation>, from: nat,
                             generation: string, obsolete: seq<ChunkSet>)
  {
    forall g | g != generation && Unnamed(codec, before, g) && ObsoleteFits(obsolete, g) ::
      LeftAlone(codec, before, after, log, from, g)
  }

  lemma CommitSpends(codec: Codec, start: Entries, prepared: Entries, committed: Entries, m: Manifest,
                     log: seq<Operation>, from: nat)
    requires codec.RoundTrips() && ValidManifest(m) && OnlyChunksOf({m.current.generation}, start, prepared)
    requires committed == prepared[ManifestSlot := codec.encodeManifest(m)]
    requires OnlyRefuses(log, from, {})
    ensures SpendsOnly(codec, start, committed, log, from, m.current.generation, m.obsolete)
  {
    forall g | g != m.current.generation && Unnamed(codec, start, g) && ObsoleteFits(m.obsolete, g)
      ensures LeftAlone(codec, start, committed, log, from, g)
    {
      PublishingLeaves(codec, start, prepared, m, g);
    }
  }

  lemma RetiringSpends(codec: Codec, a: Entries, b: Entries, c: Entries, early: seq<Operation>, log: seq<Operation>,
                       from: nat, generation: string, obsolete: seq<ChunkSet>)
    requires from <= |early| && early <= log
    requires SpendsOnly(codec, a, b, early, from, generation, obsolete) && LeavesUnnamed(codec, b, c, log, |early|)
    ensures SpendsOnly(codec, a, c, log, from, generation, obsolete)
  {
    forall g | g != generation && Unnamed(codec, a, g) && ObsoleteFits(obsolete, g)
      ensures LeftAlone(codec, a, c, log, from, g)
    {
      LeftAloneTwice(codec, a, b, c, early, log, from, g);
    }
  }

  /** Store a credential as a new generation; its manifest lists `obsolete`. */
  method Commit(store: SecretStore, codec: Codec, credential: Credential, generation: string, obsolete: seq<ChunkSet>)
    returns (r: Result<(), Error>)
    requires codec.RoundTrips() && ValidGeneration(generation) && ObsoleteFits(obsolete, generation)
    requires Fresh(codec, store.entries, generation)
    requires 0 < ChunkCount(|codec.encodeEnvelope(Envelope(CREDENTIAL_VERSION, credential))|) <= MAX_CHUNKS
    modifies store
    ensures old(store.history) <= store.history && old(store.log) <= store.log
    ensures OldOrNew(codec, store.history[|old(store.history)|..], old(store.entries), credential)
    ensures ManifestsPass(codec, store.history[|old(store.history)|..], old(store.entries))
    ensures r.Ok? ==> Loaded(codec, store.entries) == Ok(Some(credential))
    ensures r.Err? ==> OnlyChunksOf({generation}, old(store.entries), store.entries)
    ensures r.Err? ==> (Stored(store.entries, generation) <==> Refused(store.log, |old(store.log)|, generation))
    ensures r.Err? ==> OnlyRefuses(store.log, |old(store.log)|, {generation})
    ensures r.Ok? && Accounted(old(store.entries), generation, 0, obsolete) ==> Tidy(codec, store.entries)
    ensures r.Err? && Stored(store.entries, generation) ==>
              TwiceFaulty(store.faults, |old(store.log)|, |store.log|)
    ensures r.Ok? ==>
              SpendsOnly(codec, old(store.entries), store.entries, store.log, |old(store.log)|, generation, obsolete)
    ensures r.Err? ==> Blames(store.faults, |old(store.log)|, |store.log|, codec, credential, Some(generation), r.error)
    ensures r.Err? ==> r.error in {StoreFailed, MetadataTooLarge}
    ensures r.Ok? && Accounted(old(store.entries), generation, 0, obsolete) ==>
              OnlyOwnOrRefused(store.entries, generation, store.log, |old(store.log)|)
    ensures r.Ok? ==> Replaced(codec, store.entries, generation, obsolete, store.log, |old(store.log)|)
    ensures Oversized(codec, generation, codec.encodeEnvelope(Envelope(CREDENTIAL_VERSION, credential)), obsolete) ==>
              r.Err? && store.log == old(store.log)
    ensures !Oversized(codec, generation, codec.encodeEnvelope(Envelope(CREDENTIAL_VERSION, credential)), obsolete) ==>
              Decided(store.faults, |old(store.log)|, |store.log|, ChunksOf(codec, credential), r.Ok?,
                      Stored(store.entries, generation))
  {
    ghost var start, from := store.entries, |store.history|;
    var bytes := codec.encodeEnvelope(Envelope(CREDENTIAL_VERSION, credential));
    var m := NewManifest(codec, generation, bytes, obsolete);
    NewManifestValid(codec, generation, bytes, obsolete);
    var encoded := EncodeManifest(codec, m);
    if encoded.Err? {
      assert Oversized(codec, generation, bytes, obsolete);
      return Err(encoded.error);
    }
    var installed := Install(store, codec, m, credential);
    if !installed {
      return Err(StoreFailed);
    }
    ghost var committed, after, done := store.entries, store.history, store.log;
    Retire(store, codec, m, start, credential);
    assert store.history[from..] == after[from..] + store.history[|after|..];
    HistoriesJoin(codec, after[from..], store.history[|after|..], start, credential);
    RetiringSpends(codec, start, committed, store.entries, done, store.log, |old(store.log)|, generation, obsolete);
    OwnOrRefusedWider(store.entries, generation, done, store.log, |old(store.log)|);
    assert Shortened(codec, store.entries, m, store.log, |done|);
    return Ok(());
  }

  /** Write the chunks of a new generation and publish its manifest, or leave neither. */
  method Install(store: SecretStore, codec: Codec, m: Manifest, credential: Credential) returns (ok: bool)
    requires codec.RoundTrips() && ValidManifest(m) && Fresh(codec, store.entries, m.current.generation)
    requires var bytes := codec.encodeEnvelope(Envelope(CREDENTIAL_VERSION, credential));
             ChunkCount(|bytes|) <= MAX_CHUNKS && m == NewManifest(codec, m.current.generation, bytes, m.obsolete)
    modifies store
    ensures old(store.history) <= store.history && old(store.log) <= store.log
    ensures OldOrNew(codec, store.history[|old(store.history)|..], old(store.entries), credential)
    ensures ManifestsPass(codec, store.history[|old(store.history)|..], old(store.entries))
    ensures ok ==> HasManifest(codec, store.entries, m) && Loaded(codec, store.entries) == Ok(Some(credential))
    ensures ok && Accounted(old(store.entries), m.current.generation, 0, m.obsolete) ==>
              Accounted(store.entries, m.current.generation, m.current.chunks, m.obsolete)
    ensures ok ==> SpendsOnly(codec, old(store.entries), store.entries, store.log, |old(store.log)|,
                              m.current.generation, m.obsolete)
    ensures !ok ==> OnlyChunksOf({m.current.generation}, old(store.entries), store.entries)
    ensures !ok ==> (Stored(store.entries, m.current.generation) <==>
                     Refused(store.log, |old(store.log)|, m.current.generation))
    ensures !ok && Stored(store.entries, m.current.generation) ==>
              TwiceFaulty(store.faults, |old(store.log)|, |store.log|)
    ensures !ok ==> Faulty(store.faults, |old(store.log)|, |store.log|)
    ensures !ok ==> OnlyRefuses(store.log, |old(store.log)|, {m.current.generation})
    ensures Decided(store.faults, |old(store.log)|, |store.log|, m.current.chunks, ok,
                    Stored(store.entries, m.current.generation))
  {
    ghost var start, from, generation := store.entries, |store.history|, m.current.generation;
    assert Spares(codec, start, {generation});
    var bytes := codec.encodeEnvelope(Envelope(CREDENTIAL_VERSION, credential));
    ok := WriteChunks(store, m.current.generation, bytes);
    if !ok {
      StretchLoadsOld(codec, {generation}, start, store.history[from..], credential);
      FailureDecided(store.faults, |old(store.log)|, |store.log|, m.current.chunks, m.current.chunks,
                     Stored(store.entries, generation));
      return;
    }
    ghost var prepared, done := store.entries, store.log;
    NoneRefused(done, |old(store.log)|, generation);
    assert Prepared(codec, prepared, m, credential);
    ok := Publish(store, codec, m, start, from, credential);
    RefusesOneMore(done, Operation(Writing, ManifestSlot, ok), |old(store.log)|, {});
    if !ok {
      UnpublishedDecided(store.faults, done + [Operation(Writing, ManifestSlot, ok)], store.log, |old(store.log)|,
                         m.current.chunks, generation, Stored(store.entries, generation));
    } else {
      assert store.log == done + [Operation(Writing, ManifestSlot, ok)];
      AccountedAfterWrite(start, prepared, store.entries, m);
      CommitSpends(codec, start, prepared, store.entries, m, store.log, |old(store.log)|);
    }
  }

  /**
    * A manifest of the new generation is stored, over the obsolete sets given, and shortened by those that could be
    * deleted from some operation on.
    */
  ghost predicate Replaced(codec: Codec, entries: Entries, generation: string, obsolete: seq<ChunkSet>,
                           log: seq<Operation>, from: nat)
  {
    exists m: Manifest, at: nat | from <= at <= |log| && m.current.generation == generation && m.obsolete == obsolete ::
      Shortened(codec, entries, m, log, at)
  }

  lemma OwnOrRefusedWider(entries: Entries, generation: string, early: seq<Operation>, log: seq<Operation>, from: nat)
    requires from <= |early| && early <= log
    ensures OnlyOwnOrRefused(entries, generation, log, |early|) ==> OnlyOwnOrRefused(entries, generation, log, from)
  {
    forall h ensures Refused(log, |early|, h) ==> Refused(log, from, h) {
      RefusedParts(early, log, from, h);
    }
  }

  /** The faults alone decide whether a new generation is installed and whether something of a failed one is left. */
  ghost predicate Decided(faults: nat -> bool, from: nat, to: nat, count: nat, ok: bool, left: bool) {
    && from < to
    && (ok <==> !Faulty(faults, from, from + count + 1))
    && (!ok ==> (left <==> LeftBehind(faults, from, count)))
  }

  lemma FailureDecided(faults: nat -> bool, from: nat, to: nat, count: nat, limit: nat, left: bool)
    requires limit <= count + 1 && FailsBefore(faults, from, to, limit, left)
    ensures Decided(faults, from, to, count, false, left)
  {
    var k: nat :| k < limit && FailsAt(faults, from, to, k, left);
    FirstFaultDecides(faults, from, to, k, count, left);
  }

  /** The same when all chunks were written and the manifest was not. */
  lemma UnpublishedDecided(faults: nat -> bool, at: seq<Operation>, log: seq<Operation>, from: nat, count: nat,
                           generation: string, left: bool)
    requires |at| == from + count + 1 && |log| == |at| + count && at <= log
    requires !Faulty(faults, from, from + count) && faults(from + count) && OnlyRefuses(at, from, {})
    requires OnlyRefuses(log, |at|, {generation})
    requires left <==> Faulty(faults, |at|, |log|)
    requires left <==> Refused(log, |at|, generation)
    ensures Decided(faults, from, |log|, count, false, left) && Faulty(faults, from, |log|)
    ensures left ==> TwiceFaulty(faults, from, |log|)
    ensures (left <==> Refused(log, from, generation)) && OnlyRefuses(log, from, {generation})
  {
    TakenBack(faults, at, log, from, count, generation, left);
    FailureDecided(faults, from, |log|, count, count + 1, left);
  }

  lemma NoneRefused(log: seq<Operation>, from: nat, generation: string)
    requires OnlyRefuses(log, from, {generation}) && !Refused(log, from, generation)
    ensures OnlyRefuses(log, from, {})
  {
  }

  lemma AccountedAfterWrite(start: Entries, prepared: Entries, committed: Entries, m: Manifest)
    requires OnlyChunksOf({m.current.generation}, start, prepared)
    requires forall i: nat | ChunkSlot(m.current.generation, i) in prepared :: i < m.current.chunks
    requires committed.Keys <= prepared.Keys + {ManifestSlot}
    ensures Accounted(start, m.current.generation, 0, m.obsolete) ==>
              Accounted(committed, m.current.generation, m.current.chunks, m.obsolete)
  {
    if Accounted(start, m.current.generation, 0, m.obsolete) {
      forall g: string, i: nat | ChunkSlot(g, i) in committed
        ensures (g == m.current.generation && i < m.current.chunks) || Lists(m.obsolete, g, i)
      {
        assert ChunkSlot(g, i) in prepared;
        assert g != m.current.generation ==> SameAt(start, prepared, ChunkSlot(g, i));
      }
    }
  }

  // ----- the operations

  method ReadManifest(store: SecretStore, codec: Codec) returns (r: Result<Option<Manifest>, Error>)
    modifies store`log, store`history
    ensures store.log == old(store.log) + [Operation(Reading, ManifestSlot, r.Ok?)]
    ensures store.history == old(store.history) + [store.entries]
    ensures r.Err? <==> store.faults(|old(store.log)|)
    ensures r.Ok? && r.value.Some? ==> HasManifest(codec, store.entries, r.value.value)
    ensures r.Ok? && r.value.None? ==> forall m :: !HasManifest(codec, store.entries, m)
  {
    var bytes := store.Read(ManifestSlot);
    if bytes.Err? { return Err(StoreFailed); }
    if bytes.value.None? { return Ok(None); }
    match DecodeManifest(codec, bytes.value.value) {
      case Ok(m) => return Ok(Some(m));
      case Err(_) => return Ok(None);
    }
  }

  /**
    * A save that fails under a fresh generation changes which chunks are stored only by those it could not take back.
    */
  ghost predicate Unsaved(codec: Codec, start: Entries, after: Entries, log: seq<Operation>, from: nat, g: string) {
    && Unnamed(codec, after, g)
    && (Stored(after, g) <==> Refused(log, from, g))
    && (Tidy(codec, start) ==> (Tidy(codec, after) <==> !Refused(log, from, g)))
  }

  /**
    * Save a credential under a fresh generation. After every single operation, hence after a crash at
    * any point, loading gives exactly the old answer or exactly the new credential; a returned error
    * means the old one and success the new one. If every stored chunk was named by a readable manifest,
    * then so it is after a success; after a failure it is so exactly when no deletion of a chunk of the new
    * generation failed, and such a failure takes two failing operations.
    */
  method Save(store: SecretStore, codec: Codec, credential: Credential, generation: Option<string>)
    returns (r: Result<(), Error>)
    requires codec.RoundTrips()
    requires generation.Some? ==> ValidGeneration(generation.value) && Fresh(codec, store.entries, generation.value)
    modifies store
    ensures old(store.history) <= store.history && old(store.log) <= store.log
    ensures OldOrNew(codec, store.history[|old(store.history)|..], old(store.entries), credential)
    ensures ManifestsPass(codec, store.history[|old(store.history)|..], old(store.entries))
    ensures r.Ok? ==> Loaded(codec, store.entries) == Ok(Some(credential))
    ensures r.Err? ==> Loaded(codec, store.entries) == Loaded(codec, old(store.entries))
    ensures (r.Ok? || generation.None?) && Tidy(codec, old(store.entries)) ==> Tidy(codec, store.entries)
    ensures r.Ok? ==> generation.Some?
    ensures r.Ok? && Tidy(codec, old(store.entries)) ==>
              OnlyOwnOrRefused(store.entries, generation.value, store.log, |old(store.log)|)
    ensures r.Ok? ==> exists obsolete ::
                        Replaced(codec, store.entries, generation.value, obsolete, store.log, |old(store.log)|)
    ensures r.Err? && generation.Some? ==>
              Unsaved(codec, old(store.entries), store.entries, store.log, |old(store.log)|, generation.value)
    ensures r.Err? && generation.Some? && Refused(store.log, |old(store.log)|, generation.value) ==>
              TwiceFaulty(store.faults, |old(store.log)|, |store.log|)
    ensures r.Err? ==> Blames(store.faults, |old(store.log)|, |store.log|, codec, credential, generation, r.error)
    ensures r == Err(TooManyStale) ==> Clogged(codec, old(store.entries), store.log, |old(store.log)|)
    ensures forall g | Unnamed(codec, old(store.entries), g) && generation != Some(g) ::
              LeftAlone(codec, old(store.entries), store.entries, store.log, |old(store.log)|, g)
    ensures var at := InstallsAt(codec, old(store.entries), |old(store.log)|);
            && (|store.log| <= at ==> r.Err? && (generation.Some? ==> !Stored(store.entries, generation.value)))
            && (|store.log| > at ==> && generation.Some?
                                     && Decided(store.faults, at, |store.log|, ChunksOf(codec, credential), r.Ok?,
                                                Stored(store.entries, generation.value)))
            && (Unhindered(codec, old(store.entries), credential, generation) && !store.faults(|old(store.log)|) ==>
                  |store.log| > at)
  {
    ghost var start, from := store.entries, |store.history|;
    var begun := Begin(store, codec, credential);
    ghost var cleaned, done := store.entries, store.log;
    if generation.Some? {
      UnsavedSoFar(codec, start, cleaned, done, |old(store.log)|, generation.value);
    }
    if begun.Err? { return Err(begun.error); }
    var obsolete := begun.value;
    var bytes := codec.encodeEnvelope(Envelope(CREDENTIAL_VERSION, credential));
    if ChunkCount(|bytes|) == 0 || ChunkCount(|bytes|) > MAX_CHUNKS { return Err(TooLarge); }
    if generation.None? { return Err(NoRandomness); }
    ghost var middle, g := store.history, generation.value;
    assert LeftAlone(codec, start, cleaned, done, |old(store.log)|, g);
    r := Commit(store, codec, credential, generation.value, obsolete);
    assert store.history[from..] == middle[from..] + store.history[|middle|..];
    SameBaseline(codec, start, cleaned, store.history[|middle|..], credential);
    HistoriesJoin(codec, middle[from..], store.history[|middle|..], start, credential);
    SaveSpends(codec, start, cleaned, store.entries, done, store.log, |old(store.log)|, g, obsolete, r.Ok?);
    OwnOrRefusedWider(store.entries, g, done, store.log, |old(store.log)|);
    if r.Ok? {
      ReplacedWider(codec, store.entries, g, obsolete, store.log, |done|, |old(store.log)|);
    } else {
      BlamesWider(store.faults, |done|, |store.log|, |old(store.log)|, codec, credential, generation, r.error);
      LoadedSame(codec, cleaned, store.entries, {g});
      RefusedParts(done, store.log, |old(store.log)|, g);
      UndoneIsTidy(codec, start, cleaned, store.entries, store.log, |old(store.log)|, g);
    }
  }

  /** A first credential that can be stored: with its first read a save of it gets as far as writing chunks. */
  ghost predicate Unhindered(codec: Codec, entries: Entries, credential: Credential, generation: Option<string>) {
    && ManifestSlot !in entries && generation.Some? && 0 < ChunksOf(codec, credential) <= MAX_CHUNKS
    && !Oversized(codec, generation.value, codec.encodeEnvelope(Envelope(CREDENTIAL_VERSION, credential)), [])
  }

  lemma ReplacedWider(codec: Codec, entries: Entries, generation: string, obsolete: seq<ChunkSet>,
                      log: seq<Operation>, from: nat, start: nat)
    requires start <= from && Replaced(codec, entries, generation, obsolete, log, from)
    ensures Replaced(codec, entries, generation, obsolete, log, start)
  {
  }

  /** Until the commit begins the new generation is still fresh. */
  lemma UnsavedSoFar(codec: Codec, start: Entries, cleaned: Entries, log: seq<Operation>, from: nat, g: string)
    requires Fresh(codec, start, g) && LeavesUnnamed(codec, start, cleaned, log, from)
    requires Tidy(codec, start) ==> Tidy(codec, cleaned)
    ensures Fresh(codec, cleaned, g) && Unsaved(codec, start, cleaned, log, from, g)
  {
    assert LeftAlone(codec, start, cleaned, log, from, g);
    forall i: nat ensures ChunkSlot(g, i) !in cleaned {
      assert SameAt(start, cleaned, ChunkSlot(g, i));
    }
  }

  lemma SaveSpends(codec: Codec, start: Entries, cleaned: Entries, after: Entries, early: seq<Operation>,
                   log: seq<Operation>, from: nat, generation: string, obsolete: seq<ChunkSet>, committed: bool)
    requires from <= |early| && early <= log && LeavesUnnamed(codec, start, cleaned, early, from)
    requires forall g | Unnamed(codec, start, g) :: ObsoleteFits(obsolete, g)
    requires if committed then SpendsOnly(codec, cleaned, after, log, |early|, generation, obsolete)
             else OnlyChunksOf({generation}, cleaned, after) && OnlyRefuses(log, |early|, {generation})
    ensures forall g | Unnamed(codec, start, g) && g != generation :: LeftAlone(codec, start, after, log, from, g)
  {
    forall g | Unnamed(codec, start, g) && g != generation ensures LeftAlone(codec, start, after, log, from, g) {
      if !committed {
        UndoneLeaves(codec, cleaned, after, generation, log, |early|, g);
      }
      LeftAloneTwice(codec, start, cleaned, after, early, log, from, g);
    }
  }

  /** The number of the first operation of a save that touches the new generation, if the save gets that far. */
  ghost function InstallsAt(codec: Codec, entries: Entries, from: nat): nat {
    from + 1 + if ManifestSlot in entries && DecodeManifest(codec, entries[ManifestSlot]).Ok?
               then TotalChunks(DecodeManifest(codec, entries[ManifestSlot]).value.obsolete) else 0
  }

  /** The first half of a save: delete what the previous manifest calls obsolete and list what the next one must. */
  method Begin(store: SecretStore, codec: Codec, ghost credential: Credential) returns (r: Result<seq<ChunkSet>, Error>)
    modifies store
    ensures old(store.history) <= store.history && old(store.log) <= store.log
    ensures OldOrNew(codec, store.history[|old(store.history)|..], old(store.entries), credential)
    ensures ManifestsPass(codec, store.history[|old(store.history)|..], old(store.entries))
    ensures Loaded(codec, store.entries) == Loaded(codec, old(store.entries))
    ensures SameAt(old(store.entries), store.entries, ManifestSlot)
    ensures Tidy(codec, old(store.entries)) ==> Tidy(codec, store.entries)
    ensures LeavesUnnamed(codec, old(store.entries), store.entries, store.log, |old(store.log)|)
    ensures r.Ok? ==> forall g | Unnamed(codec, old(store.entries), g) :: ObsoleteFits(r.value, g)
    ensures r.Err? ==> r.error in {StoreFailed, TooManyStale} && Faulty(store.faults, |old(store.log)|, |store.log|)
    ensures r == Err(TooManyStale) ==> Clogged(codec, old(store.entries), store.log, |old(store.log)|)
    ensures r.Ok? && Tidy(codec, old(store.entries)) ==> forall g :: Accounted(store.entries, g, 0, r.value)
    ensures |store.log| <= InstallsAt(codec, old(store.entries), |old(store.log)|)
    ensures r.Ok? ==> |store.log| == InstallsAt(codec, old(store.entries), |old(store.log)|)
    ensures ManifestSlot !in old(store.entries) && !store.faults(|old(store.log)|) ==> r == Ok([])
  {
    ghost var start, from := store.entries, |store.history|;
    var previous := ReadManifest(store, codec);
    assert store.history[from..] == [start];
    LoadsItself(codec, start, credential);
    ReadLeaves(codec, start, store.log, |old(store.log)|);
    if previous.Err? {
      assert store.faults(|old(store.log)|);
      return Err(StoreFailed);
    }
    ManifestKnown(codec, start, previous.value, |old(store.log)|);
    if previous.value.None? { return Ok([]); }
    ghost var read, done := store.history, store.log;
    r := Sweep(store, codec, previous.value.value, credential);
    assert store.history[from..] == [start] + store.history[|read|..];
    HistoriesJoin(codec, [start], store.history[|read|..], start, credential);
    LeavesAfterRead(codec, start, store.entries, done, store.log, |old(store.log)|);
    if r.Err? {
      CloggedWider(codec, start, store.log, |done|, |old(store.log)|);
    }
  }

  /** What the manifest read says about the operations to come and about the chunks there can be. */
  lemma ManifestKnown(codec: Codec, start: Entries, previous: Option<Manifest>, from: nat)
    requires previous.Some? ==> HasManifest(codec, start, previous.value)
    requires previous.None? ==> forall m :: !HasManifest(codec, start, m)
    ensures InstallsAt(codec, start, from) ==
            from + 1 + if previous.Some? then TotalChunks(previous.value.obsolete) else 0
    ensures previous.None? && Tidy(codec, start) ==> forall g :: Accounted(start, g, 0, [])
    ensures previous.Some? ==> ManifestSlot in start
  {
    if ManifestSlot in start && DecodeManifest(codec, start[ManifestSlot]).Ok? {
      assert HasManifest(codec, start, DecodeManifest(codec, start[ManifestSlot]).value);
    }
  }

  /** The manifest listed sixteen obsolete generations, and of each the deletion of some chunk failed. */
  ghost predicate Clogged(codec: Codec, entries: Entries, log: seq<Operation>, from: nat) {
    exists m | HasManifest(codec, entries, m) :: |m.obsolete| == 16 && AllRefused(log, from, m.obsolete)
  }

  lemma NothingDeleted(codec: Codec, entries: Entries, m: Manifest, remaining: seq<ChunkSet>, log: seq<Operation>,
                       from: nat)
    requires HasManifest(codec, entries, m) && Sublist(remaining, m.obsolete) && AllRefused(log, from, remaining)
    ensures |remaining| >= 16 ==> Clogged(codec, entries, log, from)
  {
    SublistWhole(remaining, m.obsolete);
    SublistKeeps(remaining, m.obsolete);
  }

  lemma CloggedWider(codec: Codec, entries: Entries, log: seq<Operation>, from: nat, start: nat)
    requires start <= from && Clogged(codec, entries, log, from)
    ensures Clogged(codec, entries, log, start)
  {
    var m :| HasManifest(codec, entries, m) && |m.obsolete| == 16 && AllRefused(log, from, m.obsolete);
    assert AllRefused(log, start, m.obsolete);
  }

  /** Delete the chunks a manifest lists as obsolete; what is left of them, with its own, is the next obsolete list. */
  method Sweep(store: SecretStore, codec: Codec, p: Manifest, ghost credential: Credential)
    returns (r: Result<seq<ChunkSet>, Error>)
    requires HasManifest(codec, store.entries, p)
    modifies store
    ensures old(store.history) <= store.history && old(store.log) <= store.log
    ensures OldOrNew(codec, store.history[|old(store.history)|..], old(store.entries), credential)
    ensures ManifestsPass(codec, store.history[|old(store.history)|..], old(store.entries))
    ensures Loaded(codec, store.entries) == Loaded(codec, old(store.entries))
    ensures SameAt(old(store.entries), store.entries, ManifestSlot)
    ensures Tidy(codec, old(store.entries)) ==> Tidy(codec, store.entries)
    ensures LeavesUnnamed(codec, old(store.entries), store.entries, store.log, |old(store.log)|)
    ensures r.Ok? ==> forall g | Unnamed(codec, old(store.entries), g) :: ObsoleteFits(r.value, g)
    ensures r.Err? ==> r == Err(TooManyStale) && Faulty(store.faults, |old(store.log)|, |store.log|)
    ensures r.Err? ==> Clogged(codec, old(store.entries), store.log, |old(store.log)|)
    ensures r.Err? <==> |StillListed(p.obsolete, store.log, |old(store.log)|)| >= 16
    ensures r.Ok? && Tidy(codec, old(store.entries)) ==> forall g :: Accounted(store.entries, g, 0, r.value)
    ensures |store.log| == |old(store.log)| + TotalChunks(p.obsolete)
    ensures r.Ok? ==> r.value == StillListed(p.obsolete, store.log, |old(store.log)|) + [p.current.AsChunkSet()]
  {
    ghost var start, from := store.entries, |store.history|;
    var remaining := CleanupChunkSets(store, p.obsolete);
    RemainingKnown(p, remaining, store.log, |old(store.log)|);
    PreparedObsolete(codec, start, store.entries, p, remaining, store.history[from..], credential);
    CleanupLeaves(codec, start, store.entries, p, Generations(p.obsolete), store.log, |old(store.log)|);
    NothingDeleted(codec, start, p, remaining, store.log, |old(store.log)|);
    if |remaining| + 1 > MAX_OBSOLETE { return Err(TooManyStale); }
    forall g | Unnamed(codec, start, g) ensures ObsoleteFits(remaining + [p.current.AsChunkSet()], g) {
      FitsWithUnnamed(codec, start, p, remaining, g);
    }
    return Ok(remaining + [p.current.AsChunkSet()]);
  }

  lemma FitsWithUnnamed(codec: Codec, start: Entries, p: Manifest, remaining: seq<ChunkSet>, generation: string)
    requires HasManifest(codec, start, p) && Sublist(remaining, p.obsolete) && |remaining| < MAX_OBSOLETE
    requires Unnamed(codec, start, generation)
    ensures ObsoleteFits(remaining + [p.current.AsChunkSet()], generation)
  {
    assert DistinctSets(p.obsolete);
    SublistKeeps(remaining, p.obsolete);
    assert forall s <- p.obsolete :: s.generation != p.current.generation;
  }

  /** A single read leaves everything alone. */
  lemma ReadLeaves(codec: Codec, entries: Entries, log: seq<Operation>, from: nat)
    requires |log| == from + 1 && log[from].action.Reading?
    ensures LeavesUnnamed(codec, entries, entries, log, from)
  {
  }

  lemma LeavesAfterRead(codec: Codec, a: Entries, b: Entries, early: seq<Operation>, log: seq<Operation>, from: nat)
    requires from <= |early| && early <= log && LeavesUnnamed(codec, a, a, early, from)
    requires LeavesUnnamed(codec, a, b, log, |early|)
    ensures LeavesUnnamed(codec, a, b, log, from)
  {
    forall g | Unnamed(codec, a, g) ensures LeftAlone(codec, a, b, log, from, g) {
      LeftAloneTwice(codec, a, a, b, early, log, from, g);
    }
  }

  lemma LoadsItself(codec: Codec, start: Entries, credential: Credential)
    ensures OldOrNew(codec, [start], start, credential) && ManifestsPass(codec, [start], start)
  {
  }

  lemma SameBaseline(codec: Codec, start: Entries, cleaned: Entries, states: seq<Entries>, credential: Credential)
    requires OldOrNew(codec, states, cleaned, credential) && ManifestsPass(codec, states, cleaned)
    requires Loaded(codec, cleaned) == Loaded(codec, start) && SameAt(start, cleaned, ManifestSlot)
    ensures OldOrNew(codec, states, start, credential) && ManifestsPass(codec, states, start)
  {
  }

  /** Deleting the chunks a manifest lists as obsolete changes neither what loads nor which chunks are named. */
  lemma PreparedObsolete(codec: Codec, start: Entries, cleaned: Entries, p: Manifest, remaining: seq<ChunkSet>,
                         states: seq<Entries>, credential: Credential)
    requires HasManifest(codec, start, p) && OnlyChunksOf(Generations(p.obsolete), start, cleaned)
    requires StretchOf(Generations(p.obsolete), start, states) && cleaned.Keys <= start.Keys
    requires forall s <- p.obsolete :: s in remaining || Gone(cleaned, s)
    ensures OldOrNew(codec, states, start, credential) && ManifestsPass(codec, states, start)
    ensures Loaded(codec, cleaned) == Loaded(codec, start) && SameAt(start, cleaned, ManifestSlot)
    ensures Tidy(codec, start) ==> Tidy(codec, cleaned)
    ensures Tidy(codec, start) ==> forall g :: Accounted(cleaned, g, 0, remaining + [p.current.AsChunkSet()])
  {
    assert Spares(codec, start, Generations(p.obsolete));
    StretchLoadsOld(codec, Generations(p.obsolete), start, states, credential);
    LoadedSame(codec, start, cleaned, Generations(p.obsolete));
    if Tidy(codec, start) {
      TidyShrinks(codec, start, cleaned);
      forall g ensures Accounted(cleaned, g, 0, remaining + [p.current.AsChunkSet()]) {
        OldChunksListed(codec, start, cleaned, p, remaining, g);
      }
    }
  }

  lemma OldChunksListed(codec: Codec, start: Entries, cleaned: Entries, p: Manifest, remaining: seq<ChunkSet>,
                        ours: string)
    requires HasManifest(codec, start, p) && Tidy(codec, start) && cleaned.Keys <= start.Keys
    requires forall s <- p.obsolete :: s in remaining || Gone(cleaned, s)
    ensures Accounted(cleaned, ours, 0, remaining + [p.current.AsChunkSet()])
  {
    var sets := remaining + [p.current.AsChunkSet()];
    assert p.current.AsChunkSet() in sets;
    forall g: string, i: nat | ChunkSlot(g, i) in cleaned ensures Lists(sets, g, i) {
      assert ChunkSlot(g, i) in start && NamedBy(p, g, i);
      if Lists(p.obsolete, g, i) {
        var s :| s in p.obsolete && s.generation == g && i < s.chunks;
        assert !Gone(cleaned, s);
        assert s in sets;
      }
    }
  }

  /** After a failed commit every chunk is named exactly when none of the new generation is left. */
  lemma UndoneIsTidy(codec: Codec, start: Entries, cleaned: Entries, after: Entries, log: seq<Operation>, from: nat,
                     generation: string)
    requires OnlyChunksOf({generation}, cleaned, after) && Unnamed(codec, cleaned, generation)
    requires Tidy(codec, start) ==> Tidy(codec, cleaned)
    requires Stored(after, generation) <==> Refused(log, from, generation)
    ensures Unsaved(codec, start, after, log, from, generation)
  {
    assert forall m | HasManifest(codec, after, m) :: HasManifest(codec, cleaned, m);
    if Stored(after, generation) {
      OrphansAreUntidy(codec, after, generation);
    } else if Tidy(codec, start) {
      forall g: string, i: nat | ChunkSlot(g, i) in after ensures ChunkSlot(g, i) in cleaned {
        assert g != generation;
        assert SameAt(cleaned, after, ChunkSlot(g, i));
      }
    }
  }

  /** A stored chunk of a generation that is not named is one no cleanup will find. */
  lemma OrphansAreUntidy(codec: Codec, entries: Entries, generation: string)
    requires Stored(entries, generation) && Unnamed(codec, entries, generation)
    ensures !Tidy(codec, entries)
  {
    var i: nat :| ChunkSlot(generation, i) in entries;
    if ManifestSlot in entries && DecodeManifest(codec, entries[ManifestSlot]).Ok? {
      var m := DecodeManifest(codec, entries[ManifestSlot]).value;
      assert HasManifest(codec, entries, m) && !NamedBy(m, generation, i);
    }
  }

  /** Load the credential: with no failing read the answer is `Loaded`; a failing read gives an error. */
  method Load(store: SecretStore, codec: Codec) returns (r: Result<Option<Credential>, Error>)
    modifies store`log, store`history
    ensures !Faulty(store.faults, |old(store.log)|, |store.log|) ==> r == Loaded(codec, store.entries)
    ensures Faulty(store.faults, |old(store.log)|, |store.log|) ==> r.Err?
  {
    var manifest := store.Read(ManifestSlot);
    if manifest.Err? {
      assert store.faults(|old(store.log)|);
      return Err(StoreFailed);
    }
    if manifest.value.None? { return Ok(None); }
    var decoded := DecodeManifest(codec, manifest.value.value);
    if decoded.Err? { return Err(decoded.error); }
    var current := decoded.value.current;
    var bytes := [];
    for index := 0 to current.chunks
      invariant |store.log| == |old(store.log)| + 1 + index
      invariant !Faulty(store.faults, |old(store.log)|, |store.log|)
      invariant Gathered(store.entries, current.generation, index) == Some(bytes)
    {
      var chunk := store.Read(ChunkSlot(current.generation, index));
      if chunk.Err? {
        assert store.faults(|store.log| - 1);
        return Err(StoreFailed);
      }
      if chunk.value.None? || |chunk.value.value| > CHUNK_SIZE {
        MissingChunk(store.entries, current.generation, index, current.chunks);
        return Err(InvalidFormat);
      }
      bytes := bytes + chunk.value.value;
    }
    if |bytes| != current.length || codec.digest(bytes) != current.digest { return Err(InvalidFormat); }
    match codec.decodeEnvelope(bytes) {
      case None => return Err(InvalidFormat);
      case Some(envelope) =>
        if envelope.version != CREDENTIAL_VERSION { return Err(InvalidFormat); }
        return Ok(Some(envelope.credential));
    }
  }

  lemma {:induction false} MissingChunk(entries: Entries, generation: string, index: nat, count: nat)
    requires index < count
    requires ChunkSlot(generation, index) !in entries || |entries[ChunkSlot(generation, index)]| > CHUNK_SIZE
    ensures Gathered(entries, generation, count) == None
  {
    if index < count - 1 {
      MissingChunk(entries, generation, index, count - 1);
    }
  }

  /**
    * Delete the credential. Success leaves no entry of the account behind; a failure keeps every
    * remaining chunk named by the manifest. After every single operation, hence after a crash at any point,
    * loading gives the old answer, an error or nothing, never another credential, and chunks stay named.
    */
  method Delete(store: SecretStore, codec: Codec) returns (r: Result<bool, Error>)
    modifies store
    ensures r == Ok(false) ==> ManifestSlot !in store.entries && store.entries == old(store.entries)
    ensures Tidy(codec, old(store.entries)) ==> Tidy(codec, store.entries)
    ensures Tidy(codec, old(store.entries)) && r.Ok? ==> store.entries == map[]
    ensures r.Ok? ==> ManifestSlot !in store.entries && (r.value <==> ManifestSlot in old(store.entries))
    ensures r.Err? ==> || Faulty(store.faults, |old(store.log)|, |store.log|)
                       || (ManifestSlot in old(store.entries) && forall m :: !HasManifest(codec, old(store.entries), m))
    ensures r.Err? ==> ManifestSlot !in old(store.entries) || SameAt(old(store.entries), store.entries, ManifestSlot)
    ensures old(store.history) <= store.history && old(store.log) <= store.log
    ensures Fades(codec, store.history[|old(store.history)|..], old(store.entries))
    ensures LeavesUnnamed(codec, old(store.entries), store.entries, store.log, |old(store.log)|)
  {
    ghost var start, from := store.entries, |store.history|;
    var bytes := store.Read(ManifestSlot);
    assert store.history[from..] == [start];
    FadesAtOnce(codec, start);
    ReadLeaves(codec, start, store.log, |old(store.log)|);
    if bytes.Err? {
      assert store.faults(|old(store.log)|);
      return Err(StoreFailed);
    }
    if bytes.value.None? {
      if Tidy(codec, start) { NothingLeft(start); }
      return Ok(false);
    }
    var decoded := DecodeManifest(codec, bytes.value.value);
    if decoded.Err? { return Err(decoded.error); }
    ghost var read, done := store.history, store.log;
    var erased := Erase(store, codec, decoded.value);
    assert store.history[from..] == [start] + store.history[|read|..];
    LeavesAfterRead(codec, start, store.entries, done, store.log, |old(store.log)|);
    return match erased case Ok(_) => Ok(true) case Err(e) => Err(e);
  }

  /** Delete the chunks a manifest names and then the manifest itself. */
  method Erase(store: SecretStore, codec: Codec, m: Manifest) returns (r: Result<(), Error>)
    requires HasManifest(codec, store.entries, m)
    modifies store
    ensures old(store.history) <= store.history && old(store.log) <= store.log
    ensures Fades(codec, store.history[|old(store.history)|..], old(store.entries))
    ensures LeavesUnnamed(codec, old(store.entries), store.entries, store.log, |old(store.log)|)
    ensures Tidy(codec, old(store.entries)) ==> Tidy(codec, store.entries)
    ensures r.Ok? ==> ManifestSlot !in store.entries
    ensures Tidy(codec, old(store.entries)) && r.Ok? ==> store.entries == map[]
    ensures r.Err? ==> SameAt(old(store.entries), store.entries, ManifestSlot)
    ensures r.Err? ==> Faulty(store.faults, |old(store.log)|, |store.log|)
  {
    ghost var start, from := store.entries, |store.history|;
    var sets := m.obsolete + [m.current.AsChunkSet()];
    var remaining := CleanupChunkSets(store, sets);
    FadesWithParts(codec, start, store.history[from..], Generations(sets));
    CleanupLeaves(codec, start, store.entries, m, Generations(sets), store.log, |old(store.log)|);
    if Tidy(codec, start) { TidyShrinks(codec, start, store.entries); }
    FadesWithParts(codec, start, [store.entries], Generations(sets));
    if remaining != [] { return Err(NotDeleted); }
    ghost var cleaned, before, earlier := store.entries, store.history, store.log;
    var ok := store.Delete(ManifestSlot);
    assert store.history[from..] == before[from..] + [store.entries];
    UnlistedLeaves(codec, start, cleaned, earlier, Operation(Deleting, ManifestSlot, ok), |old(store.log)|);
    if !ok {
      assert store.faults(|store.log| - 1);
      return Err(StoreFailed);
    }
    if Tidy(codec, start) {
      NamedChunksGone(codec, cleaned, m, sets);
      NothingLeft(store.entries);
    }
    return Ok(());
  }

  /** Every state loads the old answer, an error or nothing, and keeps every chunk named if all were. */
  ghost predicate Fades(codec: Codec, states: seq<Entries>, start: Entries) {
    forall s <- states ::
      && (Loaded(codec, s) == Loaded(codec, start) || Loaded(codec, s).Err? || Loaded(codec, s) == Ok(None))
      && (Tidy(codec, start) ==> Tidy(codec, s))
  }

  lemma FadesAtOnce(codec: Codec, start: Entries)
    ensures Fades(codec, [start], start)
  {
  }

  lemma {:induction false} GatheredPart(part: Entries, whole: Entries, generation: string, count: nat)
    requires Part(part, whole)
    ensures Gathered(part, generation, count).None?
            || Gathered(part, generation, count) == Gathered(whole, generation, count)
  {
    if count > 0 {
      GatheredPart(part, whole, generation, count - 1);
    }
  }

  /** With some of its chunks gone a credential loads as before or not at all. */
  lemma PartFades(codec: Codec, part: Entries, whole: Entries)
    requires Part(part, whole) && SameAt(whole, part, ManifestSlot)
    ensures Loaded(codec, part) == Loaded(codec, whole) || Loaded(codec, part).Err?
  {
    if ManifestSlot in part && DecodeManifest(codec, part[ManifestSlot]).Ok? {
      var current := DecodeManifest(codec, part[ManifestSlot]).value.current;
      GatheredPart(part, whole, current.generation, current.chunks);
    }
  }

  lemma FadesWithParts(codec: Codec, start: Entries, states: seq<Entries>, generations: set<string>)
    requires Parts(states, start) && StretchOf(generations, start, states)
    ensures Fades(codec, states, start)
  {
    forall s | s in states
      ensures Loaded(codec, s) == Loaded(codec, start) || Loaded(codec, s).Err?
      ensures Tidy(codec, start) ==> Tidy(codec, s)
    {
      PartFades(codec, s, start);
      if Tidy(codec, start) {
        TidyShrinks(codec, start, s);
      }
    }
  }

  /** Deleting the manifest entry leaves alone what was left alone before. */
  lemma UnlistedLeaves(codec: Codec, start: Entries, cleaned: Entries, log: seq<Operation>, op: Operation, from: nat)
    requires LeavesUnnamed(codec, start, cleaned, log, from) && op.slot == ManifestSlot && from <= |log|
    ensures LeavesUnnamed(codec, start, cleaned - {ManifestSlot}, log + [op], from)
    ensures LeavesUnnamed(codec, start, cleaned, log + [op], from)
  {
    forall g | Unnamed(codec, start, g)
      ensures LeftAlone(codec, start, cleaned - {ManifestSlot}, log + [op], from, g)
      ensures LeftAlone(codec, start, cleaned, log + [op], from, g)
    {
      assert LeftAlone(codec, start, cleaned, log, from, g);
      RefusedParts(log, log + [op], from, g);
      forall i: nat ensures SameAt(start, cleaned - {ManifestSlot}, ChunkSlot(g, i)) {
        assert SameAt(start, cleaned, ChunkSlot(g, i));
      }
    }
  }

  lemma NothingLeft(entries: Entries)
    requires ManifestSlot !in entries && forall g: string, i: nat :: ChunkSlot(g, i) !in entries
    ensures entries == map[]
  {
    if slot :| slot in entries {
      match slot
      case ManifestSlot =>
        assert false;
      case ChunkSlot(g, i) =>
        assert false;
    }
  }

  lemma NamedChunksGone(codec: Codec, entries: Entries, m: Manifest, sets: seq<ChunkSet>)
    requires Tidy(codec, entries) && HasManifest(codec, entries, m) && sets == m.obsolete + [m.current.AsChunkSet()]
    requires forall s <- sets :: Gone(entries, s)
    ensures forall g: string, i: nat :: ChunkSlot(g, i) !in entries
  {
    assert m.current.AsChunkSet() in sets;
    forall g: string, i: nat | Lists(sets, g, i) ensures ChunkSlot(g, i) !in entries {
      var s :| s in sets && s.generation == g && i < s.chunks;
      assert Gone(entries, s);
    }
    forall g: string, i: nat | NamedBy(m, g, i) ensures Lists(sets, g, i) {
    }
  }
}
