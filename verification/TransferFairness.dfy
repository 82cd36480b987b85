/** A due transfer is overtaken only a bounded number of times. */
module TransferFairness {
  import opened Common
  import opened TextTime
  import opened TransferStore
  import opened TransferService
  import opened TransferQueue
  import opened TransferRuns

  /** The waiting transfers that a claim may prefer to `id`. */
  function Ahead(t: Table, id: string): set<string>
    requires id in t
  {
    set x | x in t && x != id && Waiting(t[x]) && OrderedBefore(t[x], t[id])
  }

  /** A step of a running service: no crash and no start-up. */
  predicate InService(e: Event) {
    !e.Crash? && !e.Reset? && !e.BootSweep?
  }

  /** The transfer waits and its due time lies in the clock's second or earlier. */
  predicate Overdue(s: System, id: string) {
    && id in s.table && Waiting(s.table[id]) && s.table[id].nextAttemptAt.Some?
    && s.table[id].nextAttemptAt.value / SECOND <= s.clock / SECOND
  }

  /** An enqueue stamped no later than the second of the due time: the only newcomer that may go first. */
  predicate CutsIn(e: Event, due: Time) {
    e.Enqueue? && e.createdAt / SECOND <= due / SECOND
  }

  lemma DueIsOverdue(s: System, id: string, now: Time)
    requires Inv(s) && id in s.table && Due(s.table[id], now) && now <= s.clock
    ensures Overdue(s, id)
  {
    hide Printable;
    assert RowOk(s.table[id]);
    StoredSkew(s.table[id].nextAttemptAt.value, now);
  }

  lemma WaitingRowStays(c: QueueConfig, s: System, e: Event, s': System, x: string)
    requires Loaded(c) && Inv(s) && Step(c, s, e, s') && InService(e)
    requires x in s.table && x in s'.table && Waiting(s'.table[x]) && s'.table[x] != s.table[x]
    ensures s'.table[x].nextAttemptAt.Some? && s'.table[x].nextAttemptAt.value >= s.clock + SECOND
    ensures s.table[x].state == Running
  {
    RowMoves(c, s, e, s', x);
    hide StoredLe, Printable;
  }

  lemma Newcomer(c: QueueConfig, s: System, e: Event, s': System, id: string, x: string)
    requires Loaded(c) && Inv(s) && Step(c, s, e, s') && InService(e) && Overdue(s, id)
    requires id in s'.table && s'.table[id] == s.table[id] && x in Ahead(s'.table, id)
    ensures x in Ahead(s.table, id) || (CutsIn(e, s.table[id].nextAttemptAt.value) && x == e.id)
  {
    var due := s.table[id].nextAttemptAt.value;
    var at := SortTime(s'.table[x]);
    StoredSkew(at, due);
    hide StoredLe, Printable;
    if x in s.table {
      if s'.table[x] != s.table[x] {
        WaitingRowStays(c, s, e, s', x);
      }
    } else {
      RowsAppear(c, s, e, s', x);
    }
  }

  /** Whoever is claimed while `id` waits was ahead of it, even when the claimer's reading of the clock is stale. */
  lemma ClaimedWasAhead(t: Table, now: Time, x: string, id: string)
    requires FirstDue(t, now, x) && id in t && x != id && Waiting(t[id])
    requires RowOk(t[x]) && RowOk(t[id])
    ensures x in Ahead(t, id)
  {
    hide Printable;
    var a, b := t[x].nextAttemptAt.value, t[id].nextAttemptAt.value;
    StoredLeOrders(b, now, now);
    StoredLeOrders(a, now, b);
    StoredLeOrders(b, a, now);
    hide StoredLe;
    if Due(t[id], now) {
      assert OrderedBefore(t[x], t[id]);
    }
  }

  lemma OverdueStays(c: QueueConfig, s: System, e: Event, s': System, id: string)
    requires Loaded(c) && Inv(s) && Step(c, s, e, s') && InService(e) && Overdue(s, id)
    requires id in s'.table && Waiting(s'.table[id])
    ensures s'.table[id] == s.table[id] && Overdue(s', id)
  {
    RowMoves(c, s, e, s', id);
    hide StoredLe, Printable, OrderedBefore;
    assert s.clock <= s'.clock;
  }

  lemma ClaimShrinks(c: QueueConfig, s: System, e: Event, s': System, id: string)
    requires Loaded(c) && Inv(s) && Step(c, s, e, s') && e.Claim? && Overdue(s, id)
    requires id in s'.table && s'.table[id] == s.table[id]
    ensures e.id in Ahead(s.table, id) && e.id !in Ahead(s'.table, id)
  {
    hide StoredLe, Printable, OrderedBefore;
    assert RowOk(s.table[id]) && RowOk(s.table[e.id]);
    ClaimedWasAhead(s.table, s.workers[e.w].now, e.id, id);
  }

  /** One step: a claim of another transfer shrinks the set ahead of `id`, and only a `CutsIn` enqueue grows it. */
  lemma AheadStep(c: QueueConfig, s: System, e: Event, s': System, id: string)
    requires Loaded(c) && Inv(s) && Step(c, s, e, s') && InService(e) && Overdue(s, id)
    requires id in s'.table && Waiting(s'.table[id])
    ensures s'.table[id] == s.table[id] && Overdue(s', id)
    ensures |Ahead(s'.table, id)| + (if e.Claim? then 1 else 0)
         <= |Ahead(s.table, id)| + (if CutsIn(e, s.table[id].nextAttemptAt.value) then 1 else 0)
  {
    hide Step, Inv, Ahead, StoredLe, Printable, OrderedBefore, Waiting;
    OverdueStays(c, s, e, s', id);
    var before, after := Ahead(s.table, id), Ahead(s'.table, id);
    var newcomers := if CutsIn(e, s.table[id].nextAttemptAt.value) then {e.id} else {};
    var gone := if e.Claim? then {e.id} else {};
    forall x | x in after
      ensures x in before + newcomers
    {
      Newcomer(c, s, e, s', id, x);
    }
    if e.Claim? {
      ClaimShrinks(c, s, e, s', id);
    }
    Exchange(before, newcomers, gone, after);
  }

  lemma Exchange<T>(before: set<T>, newcomers: set<T>, gone: set<T>, after: set<T>)
    requires gone <= before && after <= before + newcomers && after !! gone
    ensures |after| + |gone| <= |before| + |newcomers|
  {
    SubsetSize(after + gone, before + newcomers);
    UnionSize(before, newcomers);
  }

  lemma SubsetSize<T>(a: set<T>, b: set<T>)
    requires a <= b
    ensures |a| <= |b| && |b - a| == |b| - |a|
  {
    assert b == a + (b - a);
  }

  lemma UnionSize<T>(a: set<T>, b: set<T>)
    ensures |a + b| <= |a| + |b|
  {
    assert a + b == a + (b - a);
    SubsetSize(b - a, b);
  }

  // ---------------------------------------------------------------- over a stretch of one service run

  /** Steps of one service run during which `id` keeps waiting. */
  ghost predicate Waits(c: QueueConfig, states: seq<System>, events: seq<Event>, id: string)
    requires Loaded(c)
  {
    && |states| == |events| + 1
    && (forall i :: 0 <= i < |events| ==> Step(c, states[i], events[i], states[i + 1]) && InService(events[i]))
    && (forall i :: 0 <= i < |states| ==> id in states[i].table && Waiting(states[i].table[id]))
  }

  function Claims(events: seq<Event>): nat {
    if events == [] then 0 else Claims(events[..|events| - 1]) + if events[|events| - 1].Claim? then 1 else 0
  }

  function CutIns(events: seq<Event>, due: Time): nat {
    if events == [] then 0 else CutIns(events[..|events| - 1], due) + if CutsIn(events[|events| - 1], due) then 1 else 0
  }

  lemma {:induction false} OvertakingOfOverdue(c: QueueConfig, states: seq<System>, events: seq<Event>, id: string)
    requires Loaded(c) && Waits(c, states, events, id)
    requires Inv(states[0]) && Overdue(states[0], id)
    ensures Inv(states[|events|]) && Overdue(states[|events|], id)
    ensures states[|events|].table[id] == states[0].table[id]
    ensures Claims(events) + |Ahead(states[|events|].table, id)|
         <= |Ahead(states[0].table, id)| + CutIns(events, states[0].table[id].nextAttemptAt.value)
  {
    hide Step, Inv, Ahead, StoredLe, Printable;
    var n := |events|;
    if n > 0 {
      OvertakingOfOverdue(c, states[..n], events[..n - 1], id);
      InvStep(c, states[n - 1], events[n - 1], states[n]);
      AheadStep(c, states[n - 1], events[n - 1], states[n], id);
    }
  }

  /** No starvation: in any run, from any state in which `id` is due by some reading of the clock, the service
      makes at most as many claims of other transfers as were ahead of it, plus one for each enqueue stamped no
      later than its own due second, before `id` stops waiting. */
  lemma BoundedOvertaking(c: QueueConfig, past: seq<System>, before: seq<Event>, states: seq<System>, events: seq<Event>, id: string, now: Time)
    requires Loaded(c) && Run(c, past, before) && Waits(c, states, events, id) && states[0] == past[|before|]
    requires Due(states[0].table[id], now) && now <= states[0].clock
    ensures states[0].table[id].nextAttemptAt.Some? && states[|events|].table[id] == states[0].table[id]
    ensures Claims(events) + |Ahead(states[|events|].table, id)|
         <= |Ahead(states[0].table, id)| + CutIns(events, states[0].table[id].nextAttemptAt.value)
  {
    InvAt(c, past, before, |before|);
    hide Run, Step, Inv, Due, StoredLe, Printable;
    DueIsOverdue(states[0], id, now);
    OvertakingOfOverdue(c, states, events, id);
  }
}
