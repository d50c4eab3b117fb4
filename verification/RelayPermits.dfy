/**
  * The two concurrency limits of DNS relay workers: a worker slot taken before the thread is spawned and
  * a relay permit taken inside it, both by compare-and-exchange loops on shared counters with the same limit.
  *
  * A system is the two counters and the phase of every task. One step is one atomic operation of one task;
  * all interleavings are allowed, and a compare-and-exchange may fail spuriously.
  */
module RelayPermits {
  import opened Wrappers
  import opened Sets
  import opened Numbers

  datatype Phase =
    | SlotRead(current: int)     // in the slot loop, with the count last seen
    | Refused                    // no slot: answered with a failure at once
    | SlotHeld                   // slot taken, thread not yet spawned
    | Started                    // the worker thread runs, before it asks for a permit
    | PermitRead(current: int)   // in the permit loop, with the count last seen
    | PermitHeld
    | PermitRefused
    | PermitDropped              // relaying is over, the slot is still held
    | Finished

  predicate HoldsSlot(p: Phase) {
    p.SlotHeld? || p.Started? || p.PermitRead? || p.PermitHeld? || p.PermitRefused? || p.PermitDropped?
  }

  datatype System = System(limit: nat, workerCount: int, active: int, tasks: map<nat, Phase>)

  datatype Step =
    | ReadSlots(task: nat)                 // a new relay task loads the worker count
    | TakeSlot(task: nat, spurious: bool)
    | GiveUp(task: nat)                    // no resolver is left, or the thread cannot be spawned
    | Spawn(task: nat)
    | ReadPermits(task: nat)
    | TakePermit(task: nat, spurious: bool)
    | DropPermit(task: nat)
    | EndWorker(task: nat)

  predicate Enabled(s: System, step: Step) {
    if step.ReadSlots? then step.task !in s.tasks else
      && step.task in s.tasks
      && var p := s.tasks[step.task];
         match step
         case TakeSlot(_, _) => p.SlotRead?
         case GiveUp(_) => p.SlotHeld?
         case Spawn(_) => p.SlotHeld?
         case ReadPermits(_) => p.Started?
         case TakePermit(_, _) => p.PermitRead?
         case DropPermit(_) => p.PermitHeld?
         case EndWorker(_) => p.PermitDropped? || p.PermitRefused?
         case ReadSlots(_) => false
  }

  function Moved(s: System, task: nat, phase: Phase): System {
    s.(tasks := s.tasks[task := phase])
  }

  function Apply(s: System, step: Step): System
    requires Enabled(s, step)
  {
    match step
    case ReadSlots(t) => Moved(s, t, SlotRead(s.workerCount))
    case TakeSlot(t, spurious) =>
      var current := s.tasks[t].current;
      if current >= s.limit then Moved(s, t, Refused)
      else if s.workerCount == current && !spurious then Moved(s, t, SlotHeld).(workerCount := current + 1)
      else Moved(s, t, SlotRead(s.workerCount))
    case GiveUp(t) => Moved(s, t, Finished).(workerCount := s.workerCount - 1)
    case Spawn(t) => Moved(s, t, Started)
    case ReadPermits(t) => Moved(s, t, PermitRead(s.active))
    case TakePermit(t, spurious) =>
      var current := s.tasks[t].current;
      if current >= s.limit then Moved(s, t, PermitRefused)
      else if s.active == current && !spurious then Moved(s, t, PermitHeld).(active := current + 1)
      else Moved(s, t, PermitRead(s.active))
    case DropPermit(t) => Moved(s, t, PermitDropped).(active := s.active - 1)
    case EndWorker(t) => Moved(s, t, Finished).(workerCount := s.workerCount - 1)
  }

  /**
    * An attempt at a slot: refused exactly if the count last read is at the limit, taken exactly if that count is
    * still the true one and the exchange does not fail, and otherwise made again with the count there is now.
    */
  lemma SlotTakenExactly(s: System, t: nat, spurious: bool)
    requires t in s.tasks && s.tasks[t].SlotRead?
    ensures var next, read := Apply(s, TakeSlot(t, spurious)), s.tasks[t].current;
            && (next.tasks[t] == Refused <==> read >= s.limit)
            && (next.tasks[t] == SlotHeld <==> read < s.limit && read == s.workerCount && !spurious)
            && (next.tasks[t] !in {Refused, SlotHeld} ==> next.tasks[t] == SlotRead(s.workerCount))
            && next.workerCount == s.workerCount + One(next.tasks[t] == SlotHeld) && next.active == s.active
  {
  }

  /** The same for a permit. */
  lemma PermitTakenExactly(s: System, t: nat, spurious: bool)
    requires t in s.tasks && s.tasks[t].PermitRead?
    ensures var next, read := Apply(s, TakePermit(t, spurious)), s.tasks[t].current;
            && (next.tasks[t] == PermitRefused <==> read >= s.limit)
            && (next.tasks[t] == PermitHeld <==> read < s.limit && read == s.active && !spurious)
            && (next.tasks[t] !in {PermitRefused, PermitHeld} ==> next.tasks[t] == PermitRead(s.active))
            && next.active == s.active + One(next.tasks[t] == PermitHeld) && next.workerCount == s.workerCount
  {
  }

  /** While slots are free, a task that reads the count and then tries undisturbed gets one. */
  lemma FreeSlotIsTaken(s: System, t: nat)
    requires t !in s.tasks && s.workerCount < s.limit
    ensures Apply(Apply(s, ReadSlots(t)), TakeSlot(t, false)).tasks[t] == SlotHeld
  {
  }

  // ----- who holds what

  ghost function Slots(tasks: map<nat, Phase>): set<nat> {
    set t | t in tasks && HoldsSlot(tasks[t])
  }

  ghost function Permits(tasks: map<nat, Phase>): set<nat> {
    set t | t in tasks && tasks[t].PermitHeld?
  }

  ghost predicate Inv(s: System) {
    && s.workerCount == |Slots(s.tasks)| <= s.limit
    && s.active == |Permits(s.tasks)|
    && (forall t <- s.tasks :: s.tasks[t].PermitRead? ==> s.tasks[t].current < s.limit)
    && (forall t <- s.tasks :: !s.tasks[t].PermitRefused?)
  }

  predicate SlotAt(tasks: map<nat, Phase>, t: nat) {
    t in tasks && HoldsSlot(tasks[t])
  }

  predicate PermitAt(tasks: map<nat, Phase>, t: nat) {
    t in tasks && tasks[t].PermitHeld?
  }

  lemma Resized(before: set<nat>, after: set<nat>, t: nat, had: bool, has: bool)
    requires had <==> t in before
    requires has <==> t in after
    requires forall k | k != t :: k in before <==> k in after
    ensures |after| == |before| - One(had) + One(has)
  {
    var others := before - {t};
    assert before == if had then others + {t} else others;
    assert after == if has then others + {t} else others;
  }

  /** A move changes the number of holders by what the moving task gained or lost. */
  lemma HoldersAfterMove(tasks: map<nat, Phase>, t: nat, p: Phase)
    ensures |Slots(tasks[t := p])| == |Slots(tasks)| - One(SlotAt(tasks, t)) + One(HoldsSlot(p))
    ensures |Permits(tasks[t := p])| == |Permits(tasks)| - One(PermitAt(tasks, t)) + One(p.PermitHeld?)
  {
    Resized(Slots(tasks), Slots(tasks[t := p]), t, SlotAt(tasks, t), HoldsSlot(p));
    Resized(Permits(tasks), Permits(tasks[t := p]), t, PermitAt(tasks, t), p.PermitHeld?);
  }

  /** A task with a slot and no permit leaves room: fewer permits than slots are held. */
  lemma RoomForPermit(s: System, t: nat)
    requires Inv(s) && t in s.tasks && HoldsSlot(s.tasks[t]) && !s.tasks[t].PermitHeld?
    ensures s.active < s.limit
  {
    SmallerSet(Permits(s.tasks), Slots(s.tasks) - {t});
    assert |Slots(s.tasks) - {t}| == |Slots(s.tasks)| - 1;
  }

  lemma StepKeeps(s: System, step: Step)
    requires Inv(s) && Enabled(s, step)
    ensures Inv(Apply(s, step))
  {
    HoldersAfterMove(s.tasks, step.task, Apply(s, step).tasks[step.task]);
    if step.ReadPermits? || step.TakePermit? {
      RoomForPermit(s, step.task);
    }
  }

  function After(s: System, steps: seq<Step>): Option<System> {
    if steps == [] then Some(s) else
      match After(s, steps[..|steps| - 1])
      case None => None
      case Some(t) => if Enabled(t, steps[|steps| - 1]) then Some(Apply(t, steps[|steps| - 1])) else None
  }

  /**
    * In every interleaving, the counters are exactly the slots and permits held, at most `limit` of each; a
    * permit is held only by a task that holds a slot; and a worker that asks for a permit is never refused.
    */
  lemma {:induction false} EveryRunIsSafe(s: System, steps: seq<Step>)
    requires s.tasks == map[] && s.workerCount == 0 && s.active == 0
    requires After(s, steps).Some?
    ensures var t := After(s, steps).value;
            && t.limit == s.limit
            && t.workerCount == |Slots(t.tasks)| <= t.limit
            && t.active == |Permits(t.tasks)| <= t.workerCount
            && Permits(t.tasks) <= Slots(t.tasks)
            && (forall k <- t.tasks :: !t.tasks[k].PermitRefused?)
            && Inv(t)
  {
    if steps != [] {
      var front, last := steps[..|steps| - 1], steps[|steps| - 1];
      EveryRunIsSafe(s, front);
      StepKeeps(After(s, front).value, last);
    }
    var t := After(s, steps).value;
    SmallerSet(Permits(t.tasks), Slots(t.tasks));
  }

  /** Once every task has finished or been refused, both counters are back at zero. */
  lemma DrainedCountersAreZero(s: System, steps: seq<Step>)
    requires s.tasks == map[] && s.workerCount == 0 && s.active == 0
    requires After(s, steps).Some?
    requires forall k <- After(s, steps).value.tasks ::
               After(s, steps).value.tasks[k].Finished? || After(s, steps).value.tasks[k].Refused?
    ensures After(s, steps).value.workerCount == 0 && After(s, steps).value.active == 0
  {
    EveryRunIsSafe(s, steps);
    var t := After(s, steps).value;
    assert Slots(t.tasks) == {} && Permits(t.tasks) == {};
  }
}
