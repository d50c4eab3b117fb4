/** A store of chunks whose operations may fail: deleting sets of chunks and writing a new one. */
module ChunkStore {
  import opened Wrappers
  import opened Bytes
  import opened Faults
  import opened Maps
  import opened Credentials

  datatype Action = Reading | Writing | Deleting

  datatype Operation = Operation(action: Action, slot: Slot, ok: bool)

  /**
    * The entries of one account. `log` lists the operations so far; operation number n fails, without
    * effect, exactly when `faults(n)`. `history` records the entries after every operation, so that a crash
    * after any operation leaves one of its members behind.
    */
  class SecretStore {
    const faults: nat -> bool
    var entries: Entries
    var log: seq<Operation>
    ghost var history: seq<Entries>

    constructor (faults: nat -> bool, entries: Entries)
      ensures this.faults == faults && this.entries == entries && log == [] && history == []
    {
      this.faults, this.entries, log, history := faults, entries, [], [];
    }

    method Read(slot: Slot) returns (r: Result<Option<seq<Byte>>, Error>)
      modifies this`log, this`history
      ensures log == old(log) + [Operation(Reading, slot, r.Ok?)] && history == old(history) + [entries]
      ensures r == if faults(|old(log)|) then Err(StoreFailed)
                   else Ok(if slot in entries then Some(entries[slot]) else None)
    {
      var fault := faults(|log|);
      log, history := log + [Operation(Reading, slot, !fault)], history + [entries];
      return if fault then Err(StoreFailed) else Ok(if slot in entries then Some(entries[slot]) else None);
    }

    method Write(slot: Slot, secret: seq<Byte>) returns (ok: bool)
      modifies this
      ensures log == old(log) + [Operation(Writing, slot, ok)] && history == old(history) + [entries]
      ensures ok == !faults(|old(log)|)
      ensures entries == if ok then old(entries)[slot := secret] else old(entries)
    {
      ok := !faults(|log|);
      if ok { entries := entries[slot := secret]; }
      log, history := log + [Operation(Writing, slot, ok)], history + [entries];
    }

    method Delete(slot: Slot) returns (ok: bool)
      modifies this
      ensures log == old(log) + [Operation(Deleting, slot, ok)] && history == old(history) + [entries]
      ensures ok == !faults(|old(log)|)
      ensures entries == if ok then old(entries) - {slot} else old(entries)
    {
      ok := !faults(|log|);
      if ok { entries := entries - {slot}; }
      log, history := log + [Operation(Deleting, slot, ok)], history + [entries];
    }
  }

  // ----- failed deletions

  /** A failed deletion of a chunk of the generation. */
  predicate Refuses(op: Operation, generation: string) {
    op.action.Deleting? && !op.ok && op.slot.ChunkSlot? && op.slot.generation == generation
  }

  /** From operation number `from` on, the deletion of some chunk of the generation failed. */
  ghost predicate Refused(log: seq<Operation>, from: nat, generation: string) {
    exists n | from <= n < |log| :: Refuses(log[n], generation)
  }

  /** Refusals of a log are those of its first part and those from there on. */
  lemma RefusedParts(early: seq<Operation>, log: seq<Operation>, from: nat, generation: string)
    requires from <= |early| && early <= log
    ensures Refused(log, from, generation) <==> Refused(early, from, generation) || Refused(log, |early|, generation)
  {
    if Refused(early, from, generation) {
      var n :| from <= n < |early| && Refuses(early[n], generation);
      assert Refuses(log[n], generation);
    }
    if Refused(log, from, generation) {
      var n :| from <= n < |log| && Refuses(log[n], generation);
      assert n < |early| ==> Refuses(early[n], generation);
    }
  }

  /** Only deletions of chunks of these generations failed. */
  ghost predicate OnlyRefuses(log: seq<Operation>, from: nat, generations: set<string>) {
    forall g | Refused(log, from, g) :: g in generations
  }

  lemma RefusesOneMore(log: seq<Operation>, op: Operation, from: nat, generations: set<string>)
    requires from <= |log| && OnlyRefuses(log, from, generations)
    requires forall g | Refuses(op, g) :: g in generations
    ensures OnlyRefuses(log + [op], from, generations)
  {
    forall g | Refused(log + [op], from, g) ensures g in generations {
      RefusedParts(log, log + [op], from, g);
    }
  }

  // ----- what a stretch of operations did

  /** Every state of the stretch differs from `start` at most in chunks of the given generations. */
  ghost predicate StretchOf(generations: set<string>, start: Entries, states: seq<Entries>) {
    forall s <- states :: OnlyChunksOf(generations, start, s)
  }

  lemma StretchPush(generations: set<string>, start: Entries, states: seq<Entries>, next: Entries)
    requires StretchOf(generations, start, states) && OnlyChunksOf(generations, start, next)
    ensures StretchOf(generations, start, states + [next])
  {
  }

  lemma ChunkStep(generations: set<string>, start: Entries, state: Entries, slot: Slot, secret: seq<Byte>)
    requires OnlyChunksOf(generations, start, state) && slot.ChunkSlot? && slot.generation in generations
    ensures OnlyChunksOf(generations, start, state[slot := secret])
    ensures OnlyChunksOf(generations, start, state - {slot})
  {
  }

  function Generations(sets: seq<ChunkSet>): set<string> {
    set s <- sets :: s.generation
  }

  /** No chunk of the set is stored. */
  predicate Gone(entries: Entries, s: ChunkSet) {
    forall i | 0 <= i < s.chunks :: ChunkSlot(s.generation, i) !in entries
  }

  /** Delete every chunk of the sets; the sets with a failed deletion remain. */
  method CleanupChunkSets(store: SecretStore, sets: seq<ChunkSet>) returns (remaining: seq<ChunkSet>)
    modifies store
    ensures old(store.history) <= store.history
    ensures StretchOf(Generations(sets), old(store.entries), store.history[|old(store.history)|..])
    ensures OnlyChunksOf(Generations(sets), old(store.entries), store.entries)
    ensures Part(store.entries, old(store.entries))
    ensures Parts(store.history[|old(store.history)|..], old(store.entries))
    ensures OnlyRefuses(store.log, |old(store.log)|, Generations(sets))
    ensures Sublist(remaining, sets)
    ensures forall s <- sets :: s in remaining || Gone(store.entries, s)
    ensures forall s <- remaining :: Refused(store.log, |old(store.log)|, s.generation)
    ensures DistinctSets(sets) ==> remaining == StillListed(sets, store.log, |old(store.log)|)
    ensures old(store.log) <= store.log && |store.log| == |old(store.log)| + TotalChunks(sets)
    ensures remaining != [] ==> Faulty(store.faults, |old(store.log)|, |store.log|)
  {
    remaining := [];
    ghost var generations := Generations(sets);
    for i := 0 to |sets|
      invariant old(store.history) <= store.history
      invariant StretchOf(generations, old(store.entries), store.history[|old(store.history)|..])
      invariant OnlyChunksOf(generations, old(store.entries), store.entries)
      invariant Part(store.entries, old(store.entries))
      invariant Parts(store.history[|old(store.history)|..], old(store.entries))
      invariant OnlyRefuses(store.log, |old(store.log)|, generations)
      invariant Sublist(remaining, sets[..i])
      invariant Settled(store.entries, sets, remaining, i)
      invariant AllRefused(store.log, |old(store.log)|, remaining)
      invariant OnlyRefuses(store.log, |old(store.log)|, Generations(sets[..i]))
      invariant DistinctSets(sets) ==> remaining == StillListed(sets[..i], store.log, |old(store.log)|)
      invariant old(store.log) <= store.log && |store.log| == |old(store.log)| + TotalChunks(sets[..i])
      invariant remaining != [] ==> Faulty(store.faults, |old(store.log)|, |store.log|)
    {
      ghost var before, states, done := store.entries, store.history, store.log;
      ghost var from := |old(store.history)|;
      var failed := DeleteChunks(store, sets[i].generation, sets[i].chunks, generations, old(store.entries), from);
      PartsJoin(states, store.history, from, before, old(store.entries));
      OnlyRefusesJoin(done, store.log, |old(store.log)|, generations);
      AllRefusedLonger(done, store.log, |old(store.log)|, remaining);
      RefusedParts(done, store.log, |old(store.log)|, sets[i].generation);
      assert sets[..i + 1][..i] == sets[..i];
      if DistinctSets(sets) {
        StillListedNext(sets, i, done, store.log, |old(store.log)|, failed);
      }
      GenerationsNext(sets, i, done, store.log, |old(store.log)|);
      SublistPush(remaining, sets, i);
      SettledNext(before, store.entries, sets, remaining, i, failed);
      if failed {
        remaining := remaining + [sets[i]];
      }
    }
    assert sets[..|sets|] == sets;
  }

  /** The number of chunks the sets name. */
  function TotalChunks(sets: seq<ChunkSet>): nat {
    if sets == [] then 0 else TotalChunks(sets[..|sets| - 1]) + sets[|sets| - 1].chunks
  }

  /** Of each set the deletion of some chunk failed. */
  ghost predicate AllRefused(log: seq<Operation>, from: nat, sets: seq<ChunkSet>) {
    forall s <- sets :: Refused(log, from, s.generation)
  }

  /** The sets of which the deletion of some chunk failed. */
  ghost function StillListed(sets: seq<ChunkSet>, log: seq<Operation>, from: nat): seq<ChunkSet> {
    if sets == [] then [] else
      var last := sets[|sets| - 1];
      StillListed(sets[..|sets| - 1], log, from) + (if Refused(log, from, last.generation) then [last] else [])
  }

  /** Operations that refuse nothing of the sets do not change which are still listed. */
  lemma {:induction false} StillListedSame(sets: seq<ChunkSet>, early: seq<Operation>, log: seq<Operation>, from: nat)
    requires from <= |early| && early <= log
    requires forall s <- sets :: !Refused(log, |early|, s.generation)
    ensures StillListed(sets, log, from) == StillListed(sets, early, from)
  {
    if sets != [] {
      var front, last := sets[..|sets| - 1], sets[|sets| - 1];
      assert last in sets && forall s <- front :: s in sets;
      StillListedSame(front, early, log, from);
      RefusedParts(early, log, from, last.generation);
    }
  }

  lemma StillListedNext(sets: seq<ChunkSet>, i: nat, early: seq<Operation>, log: seq<Operation>, from: nat,
                        failed: bool)
    requires i < |sets| && DistinctSets(sets) && from <= |early| && early <= log
    requires OnlyRefuses(early, from, Generations(sets[..i])) && OnlyRefuses(log, |early|, {sets[i].generation})
    requires failed <==> Refused(log, |early|, sets[i].generation)
    ensures StillListed(sets[..i + 1], log, from) ==
            StillListed(sets[..i], early, from) + if failed then [sets[i]] else []
  {
    assert sets[..i + 1][..i] == sets[..i];
    assert forall s <- sets[..i] :: s.generation != sets[i].generation;
    StillListedSame(sets[..i], early, log, from);
    RefusedParts(early, log, from, sets[i].generation);
  }

  lemma GenerationsNext(sets: seq<ChunkSet>, i: nat, early: seq<Operation>, log: seq<Operation>, from: nat)
    requires i < |sets| && from <= |early| && early <= log
    requires OnlyRefuses(early, from, Generations(sets[..i])) && OnlyRefuses(log, |early|, {sets[i].generation})
    ensures OnlyRefuses(log, from, Generations(sets[..i + 1]))
  {
    assert sets[..i + 1] == sets[..i] + [sets[i]];
    forall g | Refused(log, from, g) ensures g in Generations(sets[..i + 1]) {
      RefusedParts(early, log, from, g);
      assert g == sets[i].generation ==> sets[i] in sets[..i + 1];
      if g in Generations(sets[..i]) {
        var s :| s in sets[..i] && s.generation == g;
        assert s in sets[..i + 1];
      }
    }
  }

  lemma AllRefusedLonger(early: seq<Operation>, log: seq<Operation>, from: nat, sets: seq<ChunkSet>)
    requires from <= |early| && early <= log && AllRefused(early, from, sets)
    ensures AllRefused(log, from, sets)
  {
    forall s | s in sets ensures Refused(log, from, s.generation) {
      RefusedParts(early, log, from, s.generation);
    }
  }

  lemma OnlyRefusesJoin(early: seq<Operation>, log: seq<Operation>, from: nat, generations: set<string>)
    requires from <= |early| && early <= log
    requires OnlyRefuses(early, from, generations) && OnlyRefuses(log, |early|, generations)
    ensures OnlyRefuses(log, from, generations)
  {
    forall g | Refused(log, from, g) ensures g in generations {
      RefusedParts(early, log, from, g);
    }
  }

  /** Nothing but deletions leads from `whole` to `part`. */
  ghost predicate Part(part: Entries, whole: Entries) {
    part.Keys <= whole.Keys && forall k <- part :: part[k] == whole[k]
  }

  ghost predicate Parts(states: seq<Entries>, whole: Entries) {
    forall s <- states :: Part(s, whole)
  }

  lemma PartsJoin(early: seq<Entries>, states: seq<Entries>, from: nat, middle: Entries, whole: Entries)
    requires from <= |early| && early <= states
    requires Parts(early[from..], whole) && Part(middle, whole) && Parts(states[|early|..], middle)
    ensures Parts(states[from..], whole)
  {
    assert states[from..] == early[from..] + states[|early|..];
  }

  /** Each of the first `n` sets remains listed or is gone. */
  ghost predicate Settled(entries: Entries, sets: seq<ChunkSet>, remaining: seq<ChunkSet>, n: nat) {
    forall j | 0 <= j < n && j < |sets| :: sets[j] in remaining || Gone(entries, sets[j])
  }

  lemma SettledNext(before: Entries, after: Entries, sets: seq<ChunkSet>, remaining: seq<ChunkSet>, i: nat,
                    failed: bool)
    requires i < |sets| && Settled(before, sets, remaining, i) && after.Keys <= before.Keys
    requires !failed ==> Gone(after, sets[i])
    ensures Settled(after, sets, if failed then remaining + [sets[i]] else remaining, i + 1)
  {
    forall j | 0 <= j < i && Gone(before, sets[j]) ensures Gone(after, sets[j]) {
    }
  }

  /** `a` is `b` with some members left out, in the same order. */
  ghost predicate Sublist(a: seq<ChunkSet>, b: seq<ChunkSet>)
    decreases |b|
  {
    if b == [] then a == [] else
      || Sublist(a, b[..|b| - 1])
      || (a != [] && a[|a| - 1] == b[|b| - 1] && Sublist(a[..|a| - 1], b[..|b| - 1]))
  }

  lemma SublistPush(a: seq<ChunkSet>, b: seq<ChunkSet>, i: nat)
    requires i < |b| && Sublist(a, b[..i])
    ensures Sublist(a, b[..i + 1]) && Sublist(a + [b[i]], b[..i + 1])
  {
    assert b[..i + 1][..i] == b[..i];
    assert (a + [b[i]])[..|a|] == a;
  }

  /** Delete chunks 0..count of a generation, all of them even if one fails; those whose deletion failed remain. */
  method DeleteChunks(store: SecretStore, generation: string, count: nat, ghost generations: set<string>,
                      ghost start: Entries, ghost from: nat)
    returns (failed: bool)
    requires generation in generations && from <= |store.history|
    requires StretchOf(generations, start, store.history[from..]) && OnlyChunksOf(generations, start, store.entries)
    modifies store
    ensures old(store.history) <= store.history && old(store.log) <= store.log
    ensures StretchOf(generations, start, store.history[from..]) && OnlyChunksOf(generations, start, store.entries)
    ensures Part(store.entries, old(store.entries))
    ensures Parts(store.history[|old(store.history)|..], old(store.entries))
    ensures !failed ==> forall i | 0 <= i < count :: ChunkSlot(generation, i) !in store.entries
    ensures failed && (forall i | 0 <= i < count :: ChunkSlot(generation, i) in old(store.entries)) ==>
              Stored(store.entries, generation)
    ensures failed <==> Refused(store.log, |old(store.log)|, generation)
    ensures OnlyRefuses(store.log, |old(store.log)|, {generation})
    ensures |store.log| == |old(store.log)| + count
    ensures failed <==> Faulty(store.faults, |old(store.log)|, |store.log|)
  {
    failed := false;
    for index := 0 to count
      invariant old(store.history) <= store.history && old(store.log) <= store.log
      invariant StretchOf(generations, start, store.history[from..]) && OnlyChunksOf(generations, start, store.entries)
      invariant Part(store.entries, old(store.entries))
      invariant Parts(store.history[|old(store.history)|..], old(store.entries))
      invariant forall i | index <= i < count ::
                  ChunkSlot(generation, i) in old(store.entries) ==> ChunkSlot(generation, i) in store.entries
      invariant !failed ==> forall i | 0 <= i < index :: ChunkSlot(generation, i) !in store.entries
      invariant failed && (forall i | 0 <= i < count :: ChunkSlot(generation, i) in old(store.entries)) ==>
                  exists i | 0 <= i < index :: ChunkSlot(generation, i) in store.entries
      invariant failed <==> Refused(store.log, |old(store.log)|, generation)
      invariant OnlyRefuses(store.log, |old(store.log)|, {generation})
      invariant |store.log| == |old(store.log)| + index
      invariant failed <==> Faulty(store.faults, |old(store.log)|, |store.log|)
    {
      ghost var before, done, slot := store.history, store.log, ChunkSlot(generation, index);
      ChunkStep(generations, start, store.entries, slot, []);
      var ok := store.Delete(ChunkSlot(generation, index));
      assert store.history[from..] == before[from..] + [store.entries];
      StretchPush(generations, start, before[from..], store.entries);
      ghost var mine := |old(store.history)|;
      assert store.history[mine..] == before[mine..] + [store.entries];
      RefusesOneMore(done, Operation(Deleting, slot, ok), |old(store.log)|, {generation});
      RefusedParts(done, store.log, |old(store.log)|, generation);
      if !ok {
        assert store.faults(|store.log| - 1) && Refuses(store.log[|store.log| - 1], generation);
        failed := true;
      }
    }
  }

  /** Some chunk of the generation is stored. */
  ghost predicate Stored(entries: Entries, generation: string) {
    exists i: nat :: ChunkSlot(generation, i) in entries
  }

  // ----- facts about the pieces of a save

  predicate DistinctSets(sets: seq<ChunkSet>) {
    forall i, j | 0 <= i < j < |sets| :: sets[i].generation != sets[j].generation
  }

  lemma {:induction false} SublistKeeps(a: seq<ChunkSet>, b: seq<ChunkSet>)
    requires Sublist(a, b)
    ensures |a| <= |b| && (forall s <- a :: s in b) && (DistinctSets(b) ==> DistinctSets(a))
    decreases |b|
  {
    if b != [] {
      var rest := b[..|b| - 1];
      assert forall s <- rest :: s in b;
      if Sublist(a, rest) {
        SublistKeeps(a, rest);
      } else {
        SublistKeeps(a[..|a| - 1], rest);
        assert a == a[..|a| - 1] + [a[|a| - 1]];
        if DistinctSets(b) {
          assert forall s <- rest :: s.generation != b[|b| - 1].generation;
        }
      }
    }
  }

  /** Sets fit to stand in a manifest as obsolete beside the given current generation. */
  ghost predicate ObsoleteFits(sets: seq<ChunkSet>, generation: string) {
    && |sets| <= MAX_OBSOLETE
    && DistinctSets(sets)
    && (forall s <- sets :: ValidSet(s.generation, s.chunks) && s.generation != generation)
  }

  /** No readable manifest names the generation. */
  ghost predicate Unnamed(codec: Codec, entries: Entries, generation: string) {
    forall m | HasManifest(codec, entries, m) ::
      m.current.generation != generation && forall s <- m.obsolete :: s.generation != generation
  }

  /** No chunk of the generation is stored and no readable manifest names it. */
  ghost predicate Fresh(codec: Codec, entries: Entries, generation: string) {
    !Stored(entries, generation) && Unnamed(codec, entries, generation)
  }

  lemma TidyShrinks(codec: Codec, a: Entries, b: Entries)
    requires Tidy(codec, a) && b.Keys <= a.Keys && SameAt(a, b, ManifestSlot)
    ensures Tidy(codec, b)
  {
  }

  /** The pieces of `bytes` are stored as the chunks of the generation, with nothing beside them. */
  ghost predicate Holds(entries: Entries, generation: string, bytes: seq<Byte>, count: nat) {
    && (forall i: nat | i < count && i < ChunkCount(|bytes|) ::
          ChunkSlot(generation, i) in entries && entries[ChunkSlot(generation, i)] == Piece(bytes, i))
    && (forall i: nat | ChunkSlot(generation, i) in entries :: i < count)
  }

  /**
    * Write the pieces of `bytes` as chunks; if a write fails, delete those written before it. What then
    * stays behind are the chunks whose deletion failed as well. The faults decide which of it happens.
    */
  method WriteChunks(store: SecretStore, generation: string, bytes: seq<Byte>) returns (ok: bool)
    requires !Stored(store.entries, generation)
    modifies store
    ensures old(store.history) <= store.history && old(store.log) <= store.log
    ensures StretchOf({generation}, old(store.entries), store.history[|old(store.history)|..])
    ensures OnlyChunksOf({generation}, old(store.entries), store.entries)
    ensures ok ==> Holds(store.entries, generation, bytes, ChunkCount(|bytes|))
    ensures ok ==> !Refused(store.log, |old(store.log)|, generation)
    ensures !ok ==> (Stored(store.entries, generation) <==> Refused(store.log, |old(store.log)|, generation))
    ensures !ok && Stored(store.entries, generation) ==> TwiceFaulty(store.faults, |old(store.log)|, |store.log|)
    ensures !ok ==> Faulty(store.faults, |old(store.log)|, |store.log|)
    ensures OnlyRefuses(store.log, |old(store.log)|, {generation})
    ensures ok ==> |store.log| == |old(store.log)| + ChunkCount(|bytes|)
    ensures ok ==> !Faulty(store.faults, |old(store.log)|, |store.log|)
    ensures !ok ==> FailsBefore(store.faults, |old(store.log)|, |store.log|, ChunkCount(|bytes|),
                                Stored(store.entries, generation))
  {
    for index := 0 to ChunkCount(|bytes|)
      invariant old(store.history) <= store.history && old(store.log) <= store.log
      invariant StretchOf({generation}, old(store.entries), store.history[|old(store.history)|..])
      invariant OnlyChunksOf({generation}, old(store.entries), store.entries)
      invariant Holds(store.entries, generation, bytes, index)
      invariant OnlyRefuses(store.log, |old(store.log)|, {})
      invariant |store.log| == |old(store.log)| + index && !Faulty(store.faults, |old(store.log)|, |store.log|)
    {
      ghost var from, before, done := |old(store.history)|, store.history, store.log;
      ChunkStep({generation}, old(store.entries), store.entries, ChunkSlot(generation, index), Piece(bytes, index));
      var written := store.Write(ChunkSlot(generation, index), Piece(bytes, index));
      assert store.history[from..] == before[from..] + [store.entries];
      StretchPush({generation}, old(store.entries), before[from..], store.entries);
      RefusesOneMore(done, Operation(Writing, ChunkSlot(generation, index), written), |old(store.log)|, {});
      if !written {
        ghost var at := store.log;
        TakeBack(store, generation, index, old(store.entries), from);
        TakenBack(store.faults, at, store.log, |old(store.log)|, index, generation, Stored(store.entries, generation));
        return false;
      }
    }
    return true;
  }

  /**
    * Writing entry after entry from operation `from` on fails at the k-th, and the k written before it are then
    * deleted; one of them is left if and only if one of these deletions fails.
    */
  ghost predicate FailsAt(faults: nat -> bool, from: nat, to: nat, k: nat, left: bool) {
    && !Faulty(faults, from, from + k) && faults(from + k)
    && to == from + 2 * k + 1
    && (left <==> Faulty(faults, from + k + 1, to))
  }

  /** It fails before the given number of writes is done. */
  ghost predicate FailsBefore(faults: nat -> bool, from: nat, to: nat, limit: nat, left: bool) {
    exists k: nat | k < limit :: FailsAt(faults, from, to, k, left)
  }

  /** Whether these faults leave something behind of `count` chunks and a manifest written from operation `from` on. */
  ghost predicate LeftBehind(faults: nat -> bool, from: nat, count: nat) {
    exists k: nat | k <= count :: FailsAt(faults, from, from + 2 * k + 1, k, true)
  }

  lemma FirstFaultIsOne(faults: nat -> bool, from: nat, j: nat, k: nat)
    requires !Faulty(faults, from, from + j) && faults(from + j)
    requires !Faulty(faults, from, from + k) && faults(from + k)
    ensures j == k
  {
  }

  /** There is only one first fault, so it decides. */
  lemma FirstFaultDecides(faults: nat -> bool, from: nat, to: nat, k: nat, count: nat, left: bool)
    requires k <= count && FailsAt(faults, from, to, k, left)
    ensures Faulty(faults, from, from + count + 1) && (left <==> LeftBehind(faults, from, count))
  {
    if LeftBehind(faults, from, count) {
      var j: nat :| j <= count && FailsAt(faults, from, from + 2 * j + 1, j, true);
      FirstFaultIsOne(faults, from, j, k);
    }
  }

  /** The chunks below `count` of the generation are stored, and no others of it. */
  ghost predicate Exactly(entries: Entries, generation: string, count: nat) {
    forall i: nat :: ChunkSlot(generation, i) in entries <==> i < count
  }

  /** Delete the chunks of a new generation again; one is left if and only if a deletion fails. */
  method TakeBack(store: SecretStore, generation: string, count: nat, ghost start: Entries, ghost from: nat)
    requires from <= |store.history| && Exactly(store.entries, generation, count)
    requires StretchOf({generation}, start, store.history[from..]) && OnlyChunksOf({generation}, start, store.entries)
    modifies store
    ensures old(store.history) <= store.history && old(store.log) <= store.log
    ensures StretchOf({generation}, start, store.history[from..]) && OnlyChunksOf({generation}, start, store.entries)
    ensures |store.log| == |old(store.log)| + count
    ensures Stored(store.entries, generation) <==> Faulty(store.faults, |old(store.log)|, |store.log|)
    ensures Stored(store.entries, generation) <==> Refused(store.log, |old(store.log)|, generation)
    ensures OnlyRefuses(store.log, |old(store.log)|, {generation})
  {
    ghost var held := store.entries;
    var failed := DeleteChunks(store, generation, count, {generation}, start, from);
    assert forall i | 0 <= i < count :: ChunkSlot(generation, i) in held;
    NothingBeyond(held, store.entries, generation, count);
  }

  /** What it means that the k-th of several writes failed and those before it were taken back. */
  lemma TakenBack(faults: nat -> bool, at: seq<Operation>, log: seq<Operation>, from: nat, k: nat, generation: string,
                  left: bool)
    requires |at| == from + k + 1 && |log| == |at| + k && at <= log
    requires !Faulty(faults, from, from + k) && faults(from + k) && OnlyRefuses(at, from, {})
    requires OnlyRefuses(log, |at|, {generation})
    requires left <==> Faulty(faults, |at|, |log|)
    requires left <==> Refused(log, |at|, generation)
    ensures FailsAt(faults, from, |log|, k, left) && Faulty(faults, from, |log|)
    ensures left ==> TwiceFaulty(faults, from, |log|)
    ensures (left <==> Refused(log, from, generation)) && OnlyRefuses(log, from, {generation})
  {
    RefusedParts(at, log, from, generation);
    OnlyRefusesJoin(at, log, from, {generation});
    if left {
      SecondFault(faults, from, |at|, |log|);
    }
  }

  /** If the chunks below `count` are gone and there were no others, none is stored. */
  lemma NothingBeyond(before: Entries, after: Entries, generation: string, count: nat)
    requires Part(after, before) && forall i: nat | ChunkSlot(generation, i) in before :: i < count
    ensures (forall i | 0 <= i < count :: ChunkSlot(generation, i) !in after) ==> !Stored(after, generation)
  {
  }
}
