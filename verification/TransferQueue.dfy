/** The transfer service as a transition system: any number of workers share one table, each of
    their store calls is one step, and a clock that never runs backwards ticks in between.

    A worker reads the clock once per round and uses that reading for both the expiry sweep and
    the claim, so the reading may be stale by the time either statement runs. */
module TransferQueue {
  import opened Common
  import opened TextTime
  import opened TransferStore
  import opened TransferService

  datatype Worker =
    | Idle
    | Polled(now: Time)
    | Swept(now: Time)
    | Claimed(id: string, attempts: nat, deadline: Option<Time>)
    | Working(id: string, attempts: nat, deadline: Option<Time>)
  {
    predicate Holds(x: string) {
      (Claimed? || Working?) && id == x
    }
  }

  datatype Phase = Booting | Sweeping | Up

  datatype System = System(table: Table, clock: Time, phase: Phase, workers: map<nat, Worker>)

  datatype Event =
    | Tick(to: Time)
    | Enqueue(id: string, createdAt: Time, deadlineAt: Option<Time>)
    | Poll(w: nat)
    | Sweep(w: nat, ok: bool)
    | Miss(w: nat)
    | Claim(w: nat, id: string)
    | Start(w: nat)
    | Late(w: nat)
    | Finish(w: nat, outcome: Outcome)
    | Lose(w: nat)
    | Crash
    | Reset
    | BootSweep(count: nat)

  /** One atomic step of the service. `Lose` is a store error, after which the claim is dropped;
      `Miss` is a claim that found nothing or failed. */
  ghost predicate Step(c: QueueConfig, s: System, e: Event, s': System)
    requires Loaded(c)
  {
    match e
    case Tick(to) =>
      s.clock <= to && s' == s.(clock := to)
    case Enqueue(id, createdAt, deadlineAt) =>
      && s.phase == Up && createdAt <= s.clock && id !in s.table
      && s' == s.(table := s.table[id := NewRow(createdAt, deadlineAt)])
    case Poll(w) =>
      && Acting(s, w) && s.workers[w].Idle?
      && s' == s.(workers := s.workers[w := Polled(s.clock)])
    case Sweep(w, ok) =>
      && Acting(s, w) && s.workers[w].Polled?
      && s' == s.(table := if ok then AfterExpire(s.table, s.workers[w].now) else s.table,
                  workers := s.workers[w := Swept(s.workers[w].now)])
    case Miss(w) =>
      && Acting(s, w) && s.workers[w].Swept?
      && s' == s.(workers := s.workers[w := Idle])
    case Claim(w, id) =>
      && Acting(s, w) && s.workers[w].Swept? && FirstDue(s.table, s.workers[w].now, id)
      && s' == s.(table := AfterClaim(s.table, id, s.workers[w].now),
                  workers := s.workers[w := Claimed(id, s.table[id].attempts + 1, s.table[id].deadlineAt)])
    case Start(w) =>
      && Acting(s, w) && s.workers[w].Claimed? && !DeadlinePassed(s.workers[w].deadline, s.clock)
      && s' == s.(workers := s.workers[w := Working(s.workers[w].id, s.workers[w].attempts, s.workers[w].deadline)])
    case Late(w) =>
      && Acting(s, w) && s.workers[w].Claimed? && DeadlinePassed(s.workers[w].deadline, s.clock)
      && s' == s.(table := AfterFail(s.table, s.workers[w].id, TOO_LATE, s.clock), workers := s.workers[w := Idle])
    case Finish(w, outcome) =>
      && Acting(s, w) && s.workers[w].Working?
      && Printable(NextAttempt(c, s.workers[w].attempts, s.clock))
      && s' == s.(table := AfterFinish(c, s.table, s.workers[w].id, s.workers[w].attempts, s.workers[w].deadline, outcome, s.clock),
                  workers := s.workers[w := Idle])
    case Lose(w) =>
      && Acting(s, w) && (s.workers[w].Claimed? || s.workers[w].Working?)
      && s' == s.(workers := s.workers[w := Idle])
    case Crash =>
      s' == s.(phase := Booting, workers := map[])
    case Reset =>
      s.phase == Booting && s' == s.(phase := Sweeping, table := AfterReset(s.table, s.clock))
    case BootSweep(count) =>
      && s.phase == Sweeping
      && s' == s.(phase := Up, table := AfterExpire(s.table, s.clock), workers := IdleWorkers(count))
  }

  function IdleWorkers(count: nat): (m: map<nat, Worker>)
    ensures forall w :: w in m <==> 0 <= w < count
    ensures forall w :: w in m ==> m[w] == Idle
  {
    if count == 0 then map[] else IdleWorkers(count - 1)[count - 1 := Idle]
  }

  ghost predicate Acting(s: System, w: nat) {
    s.phase == Up && w in s.workers
  }

  // ---------------------------------------------------------------- the invariant

  predicate RowOk(r: Row) {
    r.nextAttemptAt.None? <==> r.state in {Running, Failed, Completed}
  }

  /** What a worker that holds a claim may count on: the row is still running, or has been expired
      by a sweep that saw its deadline in the clock's second or earlier. */
  predicate HeldRow(r: Row, attempts: nat, deadline: Option<Time>, clock: nat) {
    && r.state in {Running, Failed}
    && r.attempts == attempts && r.deadlineAt == deadline
    && (r.state == Failed ==> deadline.Some? && deadline.value < clock + SECOND)
  }

  ghost predicate WorkerOk(t: Table, clock: nat, k: Worker) {
    match k
    case Idle => true
    case Polled(now) => now <= clock
    case Swept(now) => now <= clock
    case Claimed(id, attempts, deadline) => id in t && HeldRow(t[id], attempts, deadline, clock)
    case Working(id, attempts, deadline) => id in t && HeldRow(t[id], attempts, deadline, clock)
  }

  ghost predicate OneHolder(workers: map<nat, Worker>) {
    forall v, w, id :: v in workers && w in workers && workers[v].Holds(id) && workers[w].Holds(id) ==> v == w
  }

  ghost predicate Inv(s: System) {
    && (forall id :: id in s.table ==> RowOk(s.table[id]))
    && (forall w :: w in s.workers ==> WorkerOk(s.table, s.clock, s.workers[w]))
    && OneHolder(s.workers)
    && (s.phase != Up ==> s.workers == map[])
    && (s.phase == Sweeping ==> forall id :: id in s.table ==> s.table[id].state != Running)
  }

  ghost predicate Initial(s: System) {
    s.table == map[] && s.phase == Booting && s.workers == map[]
  }

  lemma ExpiredHeldRow(r: Row, attempts: nat, deadline: Option<Time>, now: Time, clock: nat)
    requires HeldRow(r, attempts, deadline, clock) && now <= clock
    ensures HeldRow(ExpireRow(r, now), attempts, deadline, clock)
  {
    if Expires(r, now) {
      StoredSkew(deadline.value, now);
    }
  }

  /** A sweep keeps every worker's view true, whatever reading of the clock it uses. */
  lemma SweepKeepsWorkers(t: Table, clock: nat, k: Worker, now: Time)
    requires WorkerOk(t, clock, k) && now <= clock
    ensures WorkerOk(AfterExpire(t, now), clock, k)
  {
    match k
    case Claimed(id, attempts, deadline) => ExpiredHeldRow(t[id], attempts, deadline, now, clock);
    case Working(id, attempts, deadline) => ExpiredHeldRow(t[id], attempts, deadline, now, clock);
    case _ =>
  }

  /** A change of one row leaves the workers that do not hold it alone. */
  lemma OtherWorkers(t: Table, t': Table, clock: nat, k: Worker, id: string)
    requires WorkerOk(t, clock, k) && !k.Holds(id)
    requires forall x :: x in t && x != id ==> x in t' && t'[x] == t[x]
    ensures WorkerOk(t', clock, k)
  {
  }

  lemma ReleaseKeepsInv(s: System, w: nat, t': Table)
    requires Inv(s) && Acting(s, w) && (s.workers[w].Claimed? || s.workers[w].Working?)
    requires t'.Keys == s.table.Keys
    requires forall x :: x in t' && x != s.workers[w].id ==> t'[x] == s.table[x]
    requires RowOk(t'[s.workers[w].id])
    ensures Inv(s.(table := t', workers := s.workers[w := Idle]))
  {
    var s' := s.(table := t', workers := s.workers[w := Idle]);
    forall v | v in s'.workers
      ensures WorkerOk(t', s.clock, s'.workers[v])
    {
      if v != w {
        assert !s.workers[v].Holds(s.workers[w].id);
        OtherWorkers(s.table, t', s.clock, s.workers[v], s.workers[w].id);
      }
    }
  }

  lemma ClaimKeepsInv(s: System, w: nat, id: string, s': System)
    requires Inv(s) && Acting(s, w) && s.workers[w].Swept? && id in s.table && Waiting(s.table[id])
    requires s' == s.(table := AfterClaim(s.table, id, s.workers[w].now),
                      workers := s.workers[w := Claimed(id, s.table[id].attempts + 1, s.table[id].deadlineAt)])
    ensures Inv(s')
  {
    hide StoredLe, Printable;
    forall v | v in s.workers && v != w
      ensures WorkerOk(s'.table, s.clock, s'.workers[v]) && !s.workers[v].Holds(id)
    {
      OtherWorkers(s.table, s'.table, s.clock, s.workers[v], id);
    }
  }

  lemma SweepKeepsInv(s: System, w: nat, ok: bool)
    requires Inv(s) && Acting(s, w) && s.workers[w].Polled?
    ensures Inv(s.(table := if ok then AfterExpire(s.table, s.workers[w].now) else s.table,
                   workers := s.workers[w := Swept(s.workers[w].now)]))
  {
    forall v | v in s.workers
      ensures WorkerOk(AfterExpire(s.table, s.workers[w].now), s.clock, s.workers[v])
    {
      SweepKeepsWorkers(s.table, s.clock, s.workers[v], s.workers[w].now);
    }
  }

  lemma EnqueueKeepsInv(s: System, id: string, row: Row)
    requires Inv(s) && s.phase == Up && id !in s.table && RowOk(row)
    ensures Inv(s.(table := s.table[id := row]))
  {
    forall v | v in s.workers
      ensures WorkerOk(s.table[id := row], s.clock, s.workers[v])
    {
      OtherWorkers(s.table, s.table[id := row], s.clock, s.workers[v], id);
    }
  }

  /** A worker that changes its own stage and holds the same transfer as before. */
  lemma StageKeepsInv(s: System, w: nat, k: Worker)
    requires Inv(s) && Acting(s, w) && WorkerOk(s.table, s.clock, k)
    requires forall id :: k.Holds(id) <==> s.workers[w].Holds(id)
    ensures Inv(s.(workers := s.workers[w := k]))
  {
  }

  lemma TickKeepsInv(s: System, to: Time)
    requires Inv(s) && s.clock <= to
    ensures Inv(s.(clock := to))
  {
    forall v | v in s.workers
      ensures WorkerOk(s.table, to, s.workers[v])
    {
    }
  }

  lemma RestartKeepsInv(s: System, count: nat)
    requires Inv(s)
    ensures s.phase == Booting ==> Inv(s.(phase := Sweeping, table := AfterReset(s.table, s.clock)))
    ensures s.phase == Sweeping ==> Inv(s.(phase := Up, table := AfterExpire(s.table, s.clock), workers := IdleWorkers(count)))
    ensures Inv(s.(phase := Booting, workers := map[]))
  {
  }

  lemma ReleasingStepKeepsInv(c: QueueConfig, s: System, e: Event, s': System)
    requires Loaded(c) && Inv(s) && Step(c, s, e, s') && (e.Late? || e.Finish? || e.Lose?)
    ensures Inv(s')
  {
    ReleaseKeepsInv(s, e.w, s'.table);
  }

  lemma StageStepKeepsInv(c: QueueConfig, s: System, e: Event, s': System)
    requires Loaded(c) && Inv(s) && Step(c, s, e, s') && (e.Poll? || e.Miss? || e.Start?)
    ensures Inv(s')
  {
    StageKeepsInv(s, e.w, s'.workers[e.w]);
  }

  lemma SweepStepKeepsInv(c: QueueConfig, s: System, e: Event, s': System)
    requires Loaded(c) && Inv(s) && Step(c, s, e, s') && e.Sweep?
    ensures Inv(s')
  {
    SweepKeepsInv(s, e.w, e.ok);
  }

  lemma ClaimStepKeepsInv(c: QueueConfig, s: System, e: Event, s': System)
    requires Loaded(c) && Inv(s) && Step(c, s, e, s') && e.Claim?
    ensures Inv(s')
  {
    hide StoredLe, Printable, OrderedBefore;
    ClaimKeepsInv(s, e.w, e.id, s');
  }

  lemma OutsideStepKeepsInv(c: QueueConfig, s: System, e: Event, s': System)
    requires Loaded(c) && Inv(s) && Step(c, s, e, s') && (e.Tick? || e.Enqueue?)
    ensures Inv(s')
  {
    if e.Tick? {
      TickKeepsInv(s, e.to);
    } else {
      EnqueueKeepsInv(s, e.id, NewRow(e.createdAt, e.deadlineAt));
    }
  }

  lemma RestartStepKeepsInv(c: QueueConfig, s: System, e: Event, s': System)
    requires Loaded(c) && Inv(s) && Step(c, s, e, s') && (e.Crash? || e.Reset? || e.BootSweep?)
    ensures Inv(s')
  {
    RestartKeepsInv(s, if e.BootSweep? then e.count else 0);
  }

  /** Every step keeps the invariant. */
  lemma InvStep(c: QueueConfig, s: System, e: Event, s': System)
    requires Loaded(c) && Inv(s) && Step(c, s, e, s')
    ensures Inv(s')
  {
    if e.Late? || e.Finish? || e.Lose? {
      ReleasingStepKeepsInv(c, s, e, s');
    } else if e.Poll? || e.Miss? || e.Start? {
      StageStepKeepsInv(c, s, e, s');
    } else if e.Sweep? {
      SweepStepKeepsInv(c, s, e, s');
    } else if e.Claim? {
      ClaimStepKeepsInv(c, s, e, s');
    } else if e.Tick? || e.Enqueue? {
      OutsideStepKeepsInv(c, s, e, s');
    } else {
      RestartStepKeepsInv(c, s, e, s');
    }
  }
}
