/** What holds over whole runs of the transfer service. */
module TransferRuns {
  import opened Common
  import opened TextTime
  import opened TransferStore
  import opened TransferService
  import opened TransferQueue

  // ---------------------------------------------------------------- what one step may do to a row

  ghost predicate FinishedByHolder(s: System, e: Event, id: string) {
    e.Finish? && e.w in s.workers && s.workers[e.w].Holds(id)
  }

  /** The only changes of state that any step makes to a row. */
  ghost predicate LegalMove(s: System, e: Event, id: string, before: Row, after: Row) {
    || after == before
    || (Waiting(before) && after.state == Running && e.Claim? && e.id == id)
    || (before.state in {Running, Failed} && after.state == Completed && FinishedByHolder(s, e, id) && e.outcome.Delivered?)
    || (before.state == Running && after.state == RetryWait && (e.Reset? || (FinishedByHolder(s, e, id) && e.outcome.Broken?)))
    || (before.state != Completed && after.state == Failed && !e.Claim?)
  }

  lemma FinishMoves(c: QueueConfig, s: System, e: Event, s': System, id: string)
    requires Loaded(c) && Inv(s) && Step(c, s, e, s') && e.Finish? && s.workers[e.w].Holds(id)
    ensures id in s'.table && LegalMove(s, e, id, s.table[id], s'.table[id])
    ensures s'.table[id].attempts == s.table[id].attempts
  {
    hide StoredLe, Printable;
    var k := s.workers[e.w];
    assert WorkerOk(s.table, s.clock, k);
    if s.table[id].state == Failed && e.outcome.Broken? {
      // the sweep saw the deadline less than a second after the clock, and back-off is at least a second
      assert DeadlinePassed(k.deadline, NextAttempt(c, k.attempts, s.clock));
    }
  }

  /** The end of an attempt on a row that its worker still holds running: a temporary failure whose next attempt comes
      before the deadline, or that has none, is retried and never final; any other failure is. */
  lemma FinishExactly(c: QueueConfig, s: System, e: Event, s': System, id: string)
    requires Loaded(c) && Inv(s) && Step(c, s, e, s') && e.Finish? && s.workers[e.w].Holds(id)
    ensures id in s.table && id in s'.table
    ensures Decided(c, s'.table[id], s.table[id].attempts, s.table[id].deadlineAt, e.outcome, s.clock)
    ensures e.outcome.Broken? && e.outcome.temporary && s.table[id].deadlineAt.None? ==> Waiting(s'.table[id])
  {
    hide StoredLe, Printable, TrimSpace;
    var k := s.workers[e.w];
    assert WorkerOk(s.table, s.clock, k);
    FinishDecides(c, s.table, id, k.attempts, k.deadline, e.outcome, s.clock);
  }

  lemma OtherMoves(c: QueueConfig, s: System, e: Event, s': System, id: string)
    requires Loaded(c) && Inv(s) && Step(c, s, e, s') && id in s.table && !e.Finish?
    ensures id in s'.table && LegalMove(s, e, id, s.table[id], s'.table[id])
    ensures s'.table[id].attempts == s.table[id].attempts + if e.Claim? && e.id == id then 1 else 0
  {
    hide StoredLe, Printable, OrderedBefore;
    if e.Late? {
      assert WorkerOk(s.table, s.clock, s.workers[e.w]);
    }
  }

  /** Every step moves every row legally: completed rows never change, failed rows leave only when the
      worker that still holds the last claim delivers, and only claims count as attempts. */
  lemma RowMoves(c: QueueConfig, s: System, e: Event, s': System, id: string)
    requires Loaded(c) && Inv(s) && Step(c, s, e, s') && id in s.table
    ensures id in s'.table && LegalMove(s, e, id, s.table[id], s'.table[id])
    ensures s'.table[id].attempts == s.table[id].attempts + if e.Claim? && e.id == id then 1 else 0
  {
    if e.Finish? {
      if s.workers[e.w].Holds(id) {
        FinishMoves(c, s, e, s', id);
      } else {
        FinishLeavesOthers(c, s, e, s', id);
      }
    } else {
      OtherMoves(c, s, e, s', id);
    }
  }

  lemma FinishLeavesOthers(c: QueueConfig, s: System, e: Event, s': System, id: string)
    requires Loaded(c) && Step(c, s, e, s') && e.Finish? && id in s.table && !s.workers[e.w].Holds(id)
    ensures id in s'.table && s'.table[id] == s.table[id]
  {
    hide StoredLe, Printable;
  }

  /** A row appears only by being enqueued, with no attempts. */
  lemma RowsAppear(c: QueueConfig, s: System, e: Event, s': System, id: string)
    requires Loaded(c) && Inv(s) && Step(c, s, e, s') && id !in s.table
    ensures id in s'.table <==> e.Enqueue? && e.id == id
    ensures id in s'.table ==> s'.table[id].state == Queued && s'.table[id].attempts == 0
    ensures !(e.Claim? && e.id == id)
  {
    hide StoredLe, Printable, OrderedBefore;
    if e.Finish? || e.Late? {
      assert WorkerOk(s.table, s.clock, s.workers[e.w]);
    }
  }

  // ---------------------------------------------------------------- runs

  /** A run from the first start on an empty table. */
  ghost predicate Run(c: QueueConfig, states: seq<System>, events: seq<Event>)
    requires Loaded(c)
  {
    && |states| == |events| + 1
    && Initial(states[0])
    && forall i :: 0 <= i < |events| ==> Step(c, states[i], events[i], states[i + 1])
  }

  lemma {:induction false} InvAt(c: QueueConfig, states: seq<System>, events: seq<Event>, i: nat)
    requires Loaded(c) && Run(c, states, events) && i < |states|
    ensures Inv(states[i])
  {
    hide Step, StoredLe, Printable;
    if i > 0 {
      InvAt(c, states, events, i - 1);
      InvStep(c, states[i - 1], events[i - 1], states[i]);
    }
  }

  function ClaimsOf(events: seq<Event>, id: string): nat {
    if events == [] then 0
    else ClaimsOf(events[..|events| - 1], id) + if events[|events| - 1].Claim? && events[|events| - 1].id == id then 1 else 0
  }

  /** In every state of every run: at most one worker holds a transfer, `next_attempt_at` is null
      exactly in running, failed and completed, and `attempts` is the number of claims made so far. */
  lemma {:induction false} AttemptsAreClaims(c: QueueConfig, states: seq<System>, events: seq<Event>, i: nat, id: string)
    requires Loaded(c) && Run(c, states, events) && i < |states|
    ensures OneHolder(states[i].workers)
    ensures id in states[i].table ==> RowOk(states[i].table[id])
    ensures ClaimsOf(events[..i], id) == if id in states[i].table then states[i].table[id].attempts else 0
  {
    hide Step, StoredLe, Printable;
    InvAt(c, states, events, i);
    if i > 0 {
      var s, e := states[i - 1], events[i - 1];
      InvAt(c, states, events, i - 1);
      AttemptsAreClaims(c, states, events, i - 1, id);
      assert events[..i][..i - 1] == events[..i - 1] && events[..i][i - 1] == e;
      if id in s.table {
        RowMoves(c, s, e, states[i], id);
      } else {
        RowsAppear(c, s, e, states[i], id);
      }
    }
  }

  /** No transfer is ever lost, and a completed one never changes again. */
  lemma {:induction false} CompletedIsFinal(c: QueueConfig, states: seq<System>, events: seq<Event>, i: nat, j: nat, id: string)
    requires Loaded(c) && Run(c, states, events) && i <= j < |states| && id in states[i].table
    ensures id in states[j].table
    ensures states[i].table[id].state == Completed ==> states[j].table[id] == states[i].table[id]
    decreases j - i
  {
    hide Step, StoredLe, Printable, Inv;
    if i < j {
      CompletedIsFinal(c, states, events, i, j - 1, id);
      InvAt(c, states, events, j - 1);
      RowMoves(c, states[j - 1], events[j - 1], states[j], id);
    }
  }

  /** Once failed, a transfer stays failed or is completed by the worker that held it all along: it is
      never queued, retried or claimed again. */
  lemma {:induction false} FailedIsNeverRetried(c: QueueConfig, states: seq<System>, events: seq<Event>, i: nat, j: nat, id: string)
    requires Loaded(c) && Run(c, states, events) && i <= j < |states|
    requires id in states[i].table && states[i].table[id].state == Failed
    ensures id in states[j].table && states[j].table[id].state in {Failed, Completed}
    ensures forall k :: i <= k < j && events[k].Claim? ==> events[k].id != id
    ensures states[j].table[id].attempts == states[i].table[id].attempts
    decreases j - i
  {
    hide Step, StoredLe, Printable, Inv;
    if i < j {
      FailedIsNeverRetried(c, states, events, i, j - 1, id);
      var s, e := states[j - 1], events[j - 1];
      InvAt(c, states, events, j - 1);
      RowMoves(c, s, e, states[j], id);
      assert !(e.Claim? && e.id == id) by { NeverClaimsFinished(c, s, e, states[j], id); }
    }
  }

  lemma NeverClaimsFinished(c: QueueConfig, s: System, e: Event, s': System, id: string)
    requires Loaded(c) && Step(c, s, e, s') && id in s.table && !Waiting(s.table[id])
    ensures !(e.Claim? && e.id == id)
  {
    hide StoredLe, Printable, OrderedBefore;
  }

  /** A step takes a row out of failed exactly when the one worker that still holds the claim delivers. */
  lemma FailedExit(c: QueueConfig, s: System, e: Event, s': System, id: string)
    requires Loaded(c) && Inv(s) && Step(c, s, e, s')
    requires id in s.table && s.table[id].state == Failed
    ensures id in s'.table && s'.table[id].state in {Failed, Completed}
    ensures s'.table[id].state != Failed <==> FinishedByHolder(s, e, id) && e.outcome.Delivered?
    ensures s'.table[id].state != Failed ==> forall w :: w in s.workers && s.workers[w].Holds(id) ==> w == e.w
  {
    hide StoredLe, Printable, OrderedBefore;
    RowMoves(c, s, e, s', id);
  }

  ghost predicate Held(s: System, id: string) {
    exists w :: w in s.workers && s.workers[w].Holds(id)
  }

  /** A failed row that nobody holds is left alone, and nobody comes to hold it. */
  lemma UnheldStays(c: QueueConfig, s: System, e: Event, s': System, id: string)
    requires Loaded(c) && Inv(s) && Step(c, s, e, s')
    requires id in s.table && s.table[id].state == Failed && !Held(s, id)
    ensures id in s'.table && s'.table[id] == s.table[id] && !Held(s', id)
  {
    hide StoredLe, Printable, OrderedBefore;
    NeverClaimsFinished(c, s, e, s', id);
    UnheldRowStays(c, s, e, s', id);
    if Held(s', id) {
      HoldersCome(c, s, e, s', id);
    }
  }

  lemma UnheldRowStays(c: QueueConfig, s: System, e: Event, s': System, id: string)
    requires Loaded(c) && Step(c, s, e, s') && id in s.table && s.table[id].state == Failed
    requires !(e.Claim? && e.id == id) && !Held(s, id)
    ensures id in s'.table && s'.table[id] == s.table[id]
  {
    hide StoredLe, Printable, OrderedBefore;
    if e.Finish? || e.Late? {
      assert !s.workers[e.w].Holds(id);
    }
  }

  lemma HoldersCome(c: QueueConfig, s: System, e: Event, s': System, id: string)
    requires Loaded(c) && Step(c, s, e, s') && Held(s', id)
    ensures Held(s, id) || (e.Claim? && e.id == id)
  {
    hide StoredLe, Printable, OrderedBefore;
    var w :| w in s'.workers && s'.workers[w].Holds(id);
    if !(e.Claim? && e.id == id) {
      assert w in s.workers && s.workers[w].Holds(id);
    }
  }

  /** Failed is final once nobody holds the transfer: its row never changes again. */
  lemma {:induction false} UnheldFailedIsFinal(c: QueueConfig, states: seq<System>, events: seq<Event>, i: nat, j: nat, id: string)
    requires Loaded(c) && Run(c, states, events) && i <= j < |states|
    requires id in states[i].table && states[i].table[id].state == Failed && !Held(states[i], id)
    ensures id in states[j].table && states[j].table[id] == states[i].table[id] && !Held(states[j], id)
    decreases j - i
  {
    hide Step, StoredLe, Printable, Inv, Held;
    if i < j {
      UnheldFailedIsFinal(c, states, events, i, j - 1, id);
      InvAt(c, states, events, j - 1);
      UnheldStays(c, states[j - 1], events[j - 1], states[j], id);
    }
  }

  /** Restart: when the service is up again no transfer is running, all are still there, and those that
      were running are waiting with a due time that has come, unless their deadline has passed. The clock
      may advance from the reset to `t`, when the sweep runs. */
  lemma RestartRecovers(c: QueueConfig, s0: System, s1: System, t: Time, s2: System, count: nat, id: string)
    requires Loaded(c) && Inv(s0) && Step(c, s0, Reset, s1) && s1.clock <= t
    requires Step(c, s1.(clock := t), BootSweep(count), s2)
    requires id in s0.table
    ensures id in s2.table && s2.table[id].state != Running
    ensures s0.table[id].state == Running ==>
              Due(s2.table[id], s0.clock) || (s2.table[id].state == Failed && Expires(s0.table[id], t))
    ensures s0.table[id].state in {Failed, Completed} ==> s2.table[id] == s0.table[id]
  {
    StoredLeOrders(s0.clock, s0.clock, s0.clock);
    hide StoredLe, Printable;
    assert s2.table[id] == ExpireRow(ResetRow(s0.table[id], s0.clock), t);
  }
}
