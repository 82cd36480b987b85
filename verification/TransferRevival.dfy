/** A run in which a failed transfer is completed: one worker holds the claim, the sweep of another fails the row at its
    deadline, and the holder then delivers. */
module TransferRevival {
  import opened Common
  import opened TextTime
  import opened TransferStore
  import opened TransferService
  import opened TransferQueue
  import opened TransferRuns

  const ID := "transfer"

  lemma Instants()
    ensures Printable(0) && Printable(SECOND) && Printable(6 * SECOND)
  {
    assert DateOf(0).year == 0;
    assert 0 / SECOND / DAY_SECONDS == 0 && SECOND / SECOND / DAY_SECONDS == 0 && 6 * SECOND / SECOND / DAY_SECONDS == 0;
  }

  function Epoch(): Time {
    Instants();
    0
  }

  /** The transfer's deadline, and the time at which the second worker polls. */
  function Deadline(): Time {
    Instants();
    SECOND
  }

  /** The policy that an empty configuration loads to. */
  function Policy(): QueueConfig {
    LoadQueueConfig(QueueConfig(0, 0))
  }

  lemma PolicyIsLoaded()
    ensures Loaded(Policy()) && NextAttempt(Policy(), 1, SECOND) == 6 * SECOND
  {
    BackoffShape(Policy(), 1);
  }

  function Waiting0(): Row { NewRow(Epoch(), Some(Deadline())) }
  function Running0(): Row { ClaimRow(Waiting0(), Epoch()) }
  function Failed0(): Row { Running0().(state := Failed, updatedAt := Deadline(), lastError := EXPIRED) }
  function Completed0(): Row { CompleteRow(Failed0(), "key", Deadline()) }

  function Holder(): Worker { Claimed(ID, 1, Some(Deadline())) }
  function Busy(): Worker { Working(ID, 1, Some(Deadline())) }

  /** The states of the run. */
  function At(n: nat): System {
    if n == 0 then System(map[], Epoch(), Booting, map[])
    else if n == 1 then System(map[], Epoch(), Sweeping, map[])
    else if n == 2 then Serving(map[], Epoch(), Idle, Idle)
    else if n == 3 then Serving(map[ID := Waiting0()], Epoch(), Idle, Idle)
    else if n == 4 then Serving(map[ID := Waiting0()], Epoch(), Polled(Epoch()), Idle)
    else if n == 5 then Serving(map[ID := Waiting0()], Epoch(), Swept(Epoch()), Idle)
    else if n == 6 then Serving(map[ID := Running0()], Epoch(), Holder(), Idle)
    else if n == 7 then Serving(map[ID := Running0()], Epoch(), Busy(), Idle)
    else if n == 8 then Serving(map[ID := Running0()], Deadline(), Busy(), Idle)
    else if n == 9 then Serving(map[ID := Running0()], Deadline(), Busy(), Polled(Deadline()))
    else if n == 10 then Serving(map[ID := Failed0()], Deadline(), Busy(), Swept(Deadline()))
    else Serving(map[ID := Completed0()], Deadline(), Idle, Swept(Deadline()))
  }

  function Serving(t: Table, clock: Time, first: Worker, second: Worker): System {
    System(t, clock, Up, map[0 := first, 1 := second])
  }

  function Happens(n: nat): Event {
    if n == 0 then Reset
    else if n == 1 then BootSweep(2)
    else if n == 2 then Enqueue(ID, Epoch(), Some(Deadline()))
    else if n == 3 then Poll(0)
    else if n == 4 then Sweep(0, true)
    else if n == 5 then Claim(0, ID)
    else if n == 6 then Start(0)
    else if n == 7 then Tick(Deadline())
    else if n == 8 then Poll(1)
    else if n == 9 then Sweep(1, true)
    else Finish(0, Delivered("key"))
  }

  lemma StartsUp(n: nat)
    requires n < 2 && Loaded(Policy())
    ensures Step(Policy(), At(n), Happens(n), At(n + 1))
  {
    hide StoredLe, Printable;
    assert IdleWorkers(2) == map[0 := Idle, 1 := Idle];
    assert AfterReset(map[], Epoch()) == map[] && AfterExpire(map[], Epoch()) == map[];
  }

  lemma HolderClaims(n: nat)
    requires 2 <= n < 6 && Loaded(Policy())
    ensures Step(Policy(), At(n), Happens(n), At(n + 1))
  {
    StoredSkew(Deadline(), Epoch());
    StoredLeOrders(Epoch(), Epoch(), Epoch());
    hide StoredLe, Printable;
    assert AfterExpire(map[ID := Waiting0()], Epoch()) == map[ID := Waiting0()];
  }

  lemma HolderExpires(n: nat)
    requires 6 <= n < 10 && Loaded(Policy())
    ensures Step(Policy(), At(n), Happens(n), At(n + 1))
  {
    StoredLeOrders(Deadline(), Deadline(), Deadline());
    hide StoredLe, Printable;
    assert AfterExpire(map[ID := Running0()], Deadline()) == map[ID := Failed0()];
  }

  lemma HolderDelivers()
    requires Loaded(Policy())
    ensures Step(Policy(), At(10), Happens(10), At(11))
  {
    Instants();
    PolicyIsLoaded();
    hide StoredLe, Printable, NextAttempt;
  }

  predicate In(s: System, state: TransferState) {
    ID in s.table && s.table[ID].state == state
  }

  predicate HeldBy(s: System, w: nat) {
    w in s.workers && s.workers[w].Holds(ID)
  }

  /** Failed is not final: in this run the sweep fails the row that the first worker holds, and that worker completes it. */
  lemma FailedIsCompleted() returns (states: seq<System>, events: seq<Event>)
    ensures Loaded(Policy()) && Run(Policy(), states, events) && |events| == 11
    ensures In(states[9], Running) && events[9] == Sweep(1, true)
    ensures In(states[10], Failed) && HeldBy(states[10], 0) && events[10] == Finish(0, Delivered("key"))
    ensures In(states[11], Completed)
  {
    PolicyIsLoaded();
    hide Step, Printable, StoredLe;
    states, events := seq(12, n requires 0 <= n => At(n)), seq(11, n requires 0 <= n => Happens(n));
    forall i | 0 <= i < |events|
      ensures Step(Policy(), states[i], events[i], states[i + 1])
    {
      assert states[i] == At(i) && events[i] == Happens(i) && states[i + 1] == At(i + 1);
      if i < 2 {
        StartsUp(i);
      } else if i < 6 {
        HolderClaims(i);
      } else if i < 10 {
        HolderExpires(i);
      } else {
        HolderDelivers();
      }
    }
    hide Loaded;
  }
}
