/**
  * Route-table transactions: apply a list of requests, logging what each changed, and undo the log in
  * reverse when one of them fails.
  *
  * Every table operation has a number; `faults` says which numbers fail. A failed operation has no
  * effect. All statements hold for every choice of faults.
  */
module RouteTransactions {
  import opened Wrappers
  import opened Faults
  import opened Maps

  // Requests, route keys and the remaining columns of a row are only compared, so numbers stand for them.
  type Request = nat
  type Key = nat
  type Attributes = nat
  type Table = map<Key, Attributes>

  datatype Row = Row(key: Key, attributes: Attributes)

  datatype Change =
    | Created(row: Row)
    | Replaced(previous: Row)
  {
    function ChangedKey(): Key {
      match this
      case Created(row) => row.key
      case Replaced(previous) => previous.key
    }
  }

  datatype Error = Failed

  // ----- undoing a log on a table

  function Undo(table: Table, change: Change): Table {
    match change
    case Created(row) => table - {row.key}
    case Replaced(previous) =>
      if previous.key in table then table[previous.key := previous.attributes] else table
  }

  /** The table after the log is undone, last change first. */
  function Undone(table: Table, log: seq<Change>): Table {
    if log == [] then table else Undone(Undo(table, log[|log| - 1]), log[..|log| - 1])
  }

  /** The same with faults: undoing starts at operation number `clock`, and a faulty step does nothing. */
  function UndoneUnder(table: Table, log: seq<Change>, faults: nat -> bool, clock: nat): Table {
    if log == [] then table else
      var next := if faults(clock) then table else Undo(table, log[|log| - 1]);
      UndoneUnder(next, log[..|log| - 1], faults, clock + 1)
  }

  /** No step that undoes a change of `key` is faulty. */
  ghost predicate CleanFor(log: seq<Change>, faults: nat -> bool, clock: nat, key: Key) {
    forall i | 0 <= i < |log| :: log[i].ChangedKey() == key ==> !faults(clock + |log| - 1 - i)
  }

  /** A key whose own undo steps succeed ends as if every step had, whatever happened to other keys. */
  lemma {:induction false} FaultsStayLocal(a: Table, b: Table, log: seq<Change>, faults: nat -> bool, clock: nat,
                                           key: Key)
    requires SameAt(a, b, key) && CleanFor(log, faults, clock, key)
    ensures SameAt(UndoneUnder(a, log, faults, clock), Undone(b, log), key)
    decreases |log|
  {
    if log != [] {
      var front, last := log[..|log| - 1], log[|log| - 1];
      var next := if faults(clock) then a else Undo(a, last);
      assert SameAt(next, Undo(b, last), key);
      forall i | 0 <= i < |front| && front[i].ChangedKey() == key ensures !faults(clock + 1 + |front| - 1 - i) {
        assert log[i].ChangedKey() == key;
      }
      FaultsStayLocal(next, Undo(b, last), front, faults, clock + 1, key);
    }
  }

  /** If no undo step is faulty, the whole table ends as the log undone. */
  lemma CleanUndoRestores(table: Table, log: seq<Change>, faults: nat -> bool, clock: nat)
    requires forall n | clock <= n < clock + |log| :: !faults(n)
    ensures UndoneUnder(table, log, faults, clock) == Undone(table, log)
  {
    forall key ensures SameAt(UndoneUnder(table, log, faults, clock), Undone(table, log), key) {
      FaultsStayLocal(table, table, log, faults, clock, key);
    }
    SameEverywhere(UndoneUnder(table, log, faults, clock), Undone(table, log));
  }

  lemma SameEverywhere(a: Table, b: Table)
    requires forall key :: SameAt(a, b, key)
    ensures a == b
  {
    assert forall key :: key in a ==> SameAt(a, b, key);
    assert forall key :: key in b ==> SameAt(a, b, key);
  }

  /** Logging a change made to the table keeps the original table recoverable. */
  lemma UndoneAfterPush(table: Table, changed: Table, log: seq<Change>, change: Change)
    requires Undo(changed, change) == table
    ensures Undone(changed, log + [change]) == Undone(table, log)
  {
    assert (log + [change])[..|log|] == log;
  }

  // ----- the backend

  class RouteBackend {
    const faults: nat -> bool
    const rowFor: Request -> Option<Row>
    const equivalent: (Attributes, Attributes) -> bool
    var table: Table
    var clock: nat

    constructor (faults: nat -> bool, rowFor: Request -> Option<Row>,
                 equivalent: (Attributes, Attributes) -> bool, table: Table)
      ensures this.faults == faults && this.rowFor == rowFor && this.equivalent == equivalent
      ensures this.table == table && clock == 0
    {
      this.faults, this.rowFor, this.equivalent := faults, rowFor, equivalent;
      this.table, clock := table, 0;
    }

    method Get(desired: Row) returns (r: Result<Option<Row>, Error>)
      modifies `clock
      ensures clock == old(clock) + 1
      ensures r == if faults(old(clock)) then Err(Failed)
                   else Ok(if desired.key in table then Some(Row(desired.key, table[desired.key])) else None)
    {
      var now := clock;
      clock := clock + 1;
      if faults(now) { return Err(Failed); }
      return Ok(if desired.key in table then Some(Row(desired.key, table[desired.key])) else None);
    }

    method Create(row: Row) returns (ok: bool)
      modifies this
      ensures clock == old(clock) + 1
      ensures ok == (!faults(old(clock)) && row.key !in old(table))
      ensures table == if ok then old(table)[row.key := row.attributes] else old(table)
    {
      ok := !faults(clock) && row.key !in table;
      clock := clock + 1;
      if ok { table := table[row.key := row.attributes]; }
    }

    method Replace(row: Row) returns (ok: bool)
      modifies this
      ensures clock == old(clock) + 1
      ensures ok == (!faults(old(clock)) && row.key in old(table))
      ensures table == if ok then old(table)[row.key := row.attributes] else old(table)
    {
      ok := !faults(clock) && row.key in table;
      clock := clock + 1;
      if ok { table := table[row.key := row.attributes]; }
    }

    method Delete(row: Row) returns (ok: bool)
      modifies this
      ensures clock == old(clock) + 1
      ensures ok == !faults(old(clock))
      ensures table == if ok then old(table) - {row.key} else old(table)
    {
      ok := !faults(clock);
      clock := clock + 1;
      if ok { table := table - {row.key}; }
    }
  }

  /** Undo the log in reverse, ignoring failures. */
  method Rollback(backend: RouteBackend, log: seq<Change>)
    modifies backend
    ensures backend.clock == old(backend.clock) + |log|
    ensures backend.table == UndoneUnder(old(backend.table), log, backend.faults, old(backend.clock))
  {
    var i := |log|;
    assert log[..i] == log;
    while i > 0
      invariant 0 <= i <= |log| && backend.clock == old(backend.clock) + |log| - i
      invariant UndoneUnder(backend.table, log[..i], backend.faults, backend.clock) ==
                UndoneUnder(old(backend.table), log, backend.faults, old(backend.clock))
    {
      i := i - 1;
      assert log[..i + 1][..i] == log[..i];
      var _ := UndoOne(backend, log[i]);
    }
  }

  method UndoOne(backend: RouteBackend, change: Change) returns (ok: bool)
    modifies backend
    ensures backend.clock == old(backend.clock) + 1
    ensures backend.table == if backend.faults(old(backend.clock)) then old(backend.table)
                             else Undo(old(backend.table), change)
  {
    match change {
      case Created(row) =>
        ok := backend.Delete(row);
      case Replaced(previous) =>
        ok := backend.Replace(previous);
    }
  }

  // ----- the transaction

  /** The table satisfies a request when its row, or one the backend calls equivalent, is in place. */
  predicate Satisfies(equivalent: (Attributes, Attributes) -> bool, present: Attributes, wanted: Attributes) {
    present == wanted || equivalent(present, wanted)
  }

  /** Every request that no later one overrides is satisfied. */
  ghost predicate LastRequestsHold(requests: seq<Request>, rowFor: Request -> Option<Row>, equivalent: (Attributes,
                                   Attributes) -> bool, table: Table)
  {
    forall i | 0 <= i < |requests| ::
      && rowFor(requests[i]).Some?
      && (Overridden(requests, rowFor, i) || HoldsIn(table, equivalent, rowFor(requests[i]).value))
  }

  ghost predicate HoldsIn(table: Table, equivalent: (Attributes, Attributes) -> bool, row: Row) {
    row.key in table && Satisfies(equivalent, table[row.key], row.attributes)
  }

  ghost predicate Overridden(requests: seq<Request>, rowFor: Request -> Option<Row>, i: nat)
    requires i < |requests| && rowFor(requests[i]).Some?
  {
    exists j | i < j < |requests| ::
        rowFor(requests[j]).Some? && rowFor(requests[j]).value.key == rowFor(requests[i]).value.key
  }

  /** One request: a change is logged exactly when the table changed, and undoing it gives the table back. */
  method ApplyOne(backend: RouteBackend, request: Request)
    returns (r: Result<Option<Change>, Error>)
    modifies backend
    ensures r.Err? ==> backend.table == old(backend.table)
    ensures r.Err? <==> backend.rowFor(request).None? || Faulty(backend.faults, old(backend.clock), backend.clock)
    ensures backend.clock >= old(backend.clock)
    ensures r.Ok? ==> backend.rowFor(request).Some?
    ensures r.Ok? ==> HoldsIn(backend.table, backend.equivalent, backend.rowFor(request).value)
    ensures r.Ok? ==> forall k | k != backend.rowFor(request).value.key :: SameAt(backend.table, old(backend.table), k)
    ensures r.Ok? ==>
              var row := backend.rowFor(request).value;
              backend.table == if row.key in old(backend.table)
                  && backend.equivalent(old(backend.table)[row.key], row.attributes)
                               then old(backend.table) else old(backend.table)[row.key := row.attributes]
    ensures r.Ok? && r.value.None? ==> backend.table == old(backend.table)
    ensures r.Ok? && r.value.Some? ==> Undo(backend.table, r.value.value) == old(backend.table)
  {
    var wanted := backend.rowFor(request);
    if wanted.None? { return Err(Failed); }
    var desired := wanted.value;
    var found := backend.Get(desired);
    if found.Err? {
      assert backend.faults(old(backend.clock));
      return Err(Failed);
    }
    match found.value {
      case None =>
        var ok := backend.Create(desired);
        if !ok {
          assert backend.faults(backend.clock - 1);
          return Err(Failed);
        }
        assert old(backend.table)[desired.key := desired.attributes] - {desired.key} == old(backend.table);
        return Ok(Some(Created(desired)));
      case Some(existing) =>
        if backend.equivalent(existing.attributes, desired.attributes) { return Ok(None); }
        var ok := backend.Replace(desired);
        if !ok {
          assert backend.faults(backend.clock - 1);
          return Err(Failed);
        }
        assert old(backend.table)[desired.key := desired.attributes][desired.key := existing.attributes]
               == old(backend.table);
        return Ok(Some(Replaced(existing)));
    }
  }

  lemma HoldStillWithOneMore(requests: seq<Request>, i: nat, rowFor: Request -> Option<Row>, equivalent: (Attributes,
                             Attributes) -> bool, before: Table, after: Table)
    requires i < |requests| && LastRequestsHold(requests[..i], rowFor, equivalent, before)
    requires rowFor(requests[i]).Some? && HoldsIn(after, equivalent, rowFor(requests[i]).value)
    requires forall k | k != rowFor(requests[i]).value.key :: SameAt(after, before, k)
    ensures LastRequestsHold(requests[..i + 1], rowFor, equivalent, after)
  {
    var more := requests[..i + 1];
    forall j | 0 <= j < i
      ensures rowFor(more[j]).Some? &&
              (Overridden(more, rowFor, j) || HoldsIn(after, equivalent, rowFor(more[j]).value))
    {
      assert requests[..i][j] == more[j];
      if Overridden(requests[..i], rowFor, j) {
        var n :| j < n < i && rowFor(requests[n]).Some?
            && rowFor(requests[n]).value.key == rowFor(requests[j]).value.key;
        assert more[n] == requests[n];
      } else if rowFor(requests[j]).value.key == rowFor(requests[i]).value.key {
        assert more[i] == requests[i];
      } else {
        assert SameAt(after, before, rowFor(more[j]).value.key);
      }
    }
  }

  /** Every request has a row that the backend can build. */
  ghost predicate Buildable(requests: seq<Request>, rowFor: Request -> Option<Row>) {
    forall q <- requests :: rowFor(q).Some?
  }

  /**
    * Apply all requests or none. On success no operation failed, the returned log leads back to the
    * original table, and every request not overridden by a later one holds. On failure the last |log|
    * operations are the undo steps, and what made the transaction fail lies before them. Every key whose
    * undo steps succeeded is as it was; if no undo step failed, so is the table; so it is, in particular,
    * if a single failed operation was the whole trouble.
    */
  method Apply(backend: RouteBackend, requests: seq<Request>)
    returns (r: Result<seq<Change>, Error>, ghost log: seq<Change>)
    modifies backend
    ensures r.Ok? ==> r.value == log && Undone(backend.table, log) == old(backend.table)
    ensures r.Ok? ==> LastRequestsHold(requests, backend.rowFor, backend.equivalent, backend.table)
    ensures r.Ok? ==> Buildable(requests, backend.rowFor) && backend.clock >= old(backend.clock)
    ensures r.Ok? ==> !Faulty(backend.faults, old(backend.clock), backend.clock)
    ensures r.Err? ==> old(backend.clock) + |log| <= backend.clock
    ensures r.Err? ==> || !Buildable(requests, backend.rowFor)
                       || Faulty(backend.faults, old(backend.clock), backend.clock - |log|)
    ensures r.Err? ==> forall key | CleanFor(log, backend.faults, backend.clock - |log|, key) ::
                         SameAt(backend.table, old(backend.table), key)
    ensures r.Err? && !Faulty(backend.faults, backend.clock - |log|, backend.clock) ==>
              backend.table == old(backend.table)
    ensures && r.Err? && Buildable(requests, backend.rowFor)
            && !TwiceFaulty(backend.faults, old(backend.clock), backend.clock) ==>
              backend.table == old(backend.table)
  {
    var changes := [];
    for i := 0 to |requests|
      invariant Undone(backend.table, changes) == old(backend.table) && backend.clock >= old(backend.clock)
      invariant LastRequestsHold(requests[..i], backend.rowFor, backend.equivalent, backend.table)
      invariant Buildable(requests[..i], backend.rowFor)
      invariant !Faulty(backend.faults, old(backend.clock), backend.clock)
    {
      ghost var before := backend.table;
      var result := ApplyOne(backend, requests[i]);
      if result.Err? {
        ghost var failedTable, start := backend.table, backend.clock;
        log := changes;
        Rollback(backend, changes);
        UndoneLog(failedTable, log, backend.faults, start);
        assert requests[i] in requests;
        AtMostOneFault(backend.faults, old(backend.clock), start, backend.clock);
        return Err(Failed), log;
      }
      assert requests[..i + 1] == requests[..i] + [requests[i]];
      HoldStillWithOneMore(requests, i, backend.rowFor, backend.equivalent, before, backend.table);
      if result.value.Some? {
        UndoneAfterPush(before, backend.table, changes, result.value.value);
        changes := changes + [result.value.value];
      }
    }
    assert requests[..|requests|] == requests;
    return Ok(changes), changes;
  }

  lemma AtMostOneFault(faults: nat -> bool, from: nat, at: nat, to: nat)
    requires from <= at <= to
    ensures Faulty(faults, from, at) && !TwiceFaulty(faults, from, to) ==> !Faulty(faults, at, to)
  {
    if Faulty(faults, from, at) && Faulty(faults, at, to) {
      SecondFault(faults, from, at, to);
    }
  }

  /** What undoing a log under faults leaves, key by key and as a whole. */
  lemma UndoneLog(table: Table, log: seq<Change>, faults: nat -> bool, start: nat)
    ensures forall key | CleanFor(log, faults, start, key) ::
              SameAt(UndoneUnder(table, log, faults, start), Undone(table, log), key)
    ensures !Faulty(faults, start, start + |log|) ==>
              UndoneUnder(table, log, faults, start) == Undone(table, log)
  {
    forall key | CleanFor(log, faults, start, key)
      ensures SameAt(UndoneUnder(table, log, faults, start), Undone(table, log), key)
    {
      FaultsStayLocal(table, table, log, faults, start, key);
    }
    if !Faulty(faults, start, start + |log|) {
      CleanUndoRestores(table, log, faults, start);
    }
  }

  /**
    * A transaction that failed, or succeeded and is then rolled back. The last |log| operations are the
    * undo steps: every key whose own undo steps succeed is as it was, and if none failed so is the table.
    */
  method ApplyThenRollback(backend: RouteBackend, requests: seq<Request>)
    returns (applied: bool, ghost log: seq<Change>)
    modifies backend
    ensures old(backend.clock) + |log| <= backend.clock
    ensures applied <==> && Buildable(requests, backend.rowFor)
                         && !Faulty(backend.faults, old(backend.clock), backend.clock - |log|)
    ensures forall key | CleanFor(log, backend.faults, backend.clock - |log|, key) ::
              SameAt(backend.table, old(backend.table), key)
    ensures !Faulty(backend.faults, backend.clock - |log|, backend.clock) ==> backend.table == old(backend.table)
    ensures && !applied && Buildable(requests, backend.rowFor)
            && !TwiceFaulty(backend.faults, old(backend.clock), backend.clock) ==>
              backend.table == old(backend.table)
  {
    var r;
    r, log := Apply(backend, requests);
    applied := r.Ok?;
    if applied {
      ghost var table, start := backend.table, backend.clock;
      Rollback(backend, r.value);
      UndoneLog(table, log, backend.faults, start);
    }
  }
}
