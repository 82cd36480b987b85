/** The retry policy of the transfer service, and the end of one transfer attempt. */
module TransferService {
  import opened Common
  import opened TextTime
  import opened TransferStore

  // ---------------------------------------------------------------- back-off

  datatype QueueConfig = QueueConfig(initialBackoffSec: int, maxBackoffSec: int)

  /** The largest number of whole seconds in a 64-bit nanosecond duration. */
  const MAX_DURATION_SEC: nat := 9_223_372_036

  /** What loading a configuration guarantees, for caps that a duration can hold. */
  predicate Loaded(c: QueueConfig) {
    1 <= c.initialBackoffSec <= c.maxBackoffSec <= MAX_DURATION_SEC
  }

  /** Every configuration with representable numbers loads to a usable retry policy, and a usable one is kept. */
  function LoadQueueConfig(raw: QueueConfig): (c: QueueConfig)
    ensures raw.initialBackoffSec <= MAX_DURATION_SEC && raw.maxBackoffSec <= MAX_DURATION_SEC ==> Loaded(c)
    ensures Loaded(raw) ==> c == raw
    ensures raw.initialBackoffSec <= 0 ==> c.initialBackoffSec == 5
    ensures raw.initialBackoffSec > 0 ==> c.initialBackoffSec == raw.initialBackoffSec
    ensures c.maxBackoffSec >= c.initialBackoffSec && (c.maxBackoffSec == raw.maxBackoffSec || raw.maxBackoffSec < c.maxBackoffSec == c.initialBackoffSec)
  {
    var initial := if raw.initialBackoffSec <= 0 then 5 else raw.initialBackoffSec;
    var max := if raw.maxBackoffSec < initial then initial else raw.maxBackoffSec;
    QueueConfig(initial, max)
  }

  function BackoffSec(c: QueueConfig, attempts: nat): nat
    requires Loaded(c)
  {
    var n := if attempts < 1 then 1 else attempts;
    var backoff := c.initialBackoffSec * Pow2(n - 1);
    if backoff > c.maxBackoffSec then c.maxBackoffSec else backoff
  }

  /** Back-off starts at the initial delay, at most doubles per attempt, never shrinks, and stays
      between one second and the cap. */
  lemma BackoffShape(c: QueueConfig, attempts: nat)
    requires Loaded(c)
    ensures 1 <= BackoffSec(c, attempts) <= c.maxBackoffSec
    ensures attempts <= 1 ==> BackoffSec(c, attempts) == c.initialBackoffSec
    ensures attempts >= 1 ==> BackoffSec(c, attempts) <= BackoffSec(c, attempts + 1)
    ensures attempts >= 1 ==> BackoffSec(c, attempts + 1) == Min(2 * BackoffSec(c, attempts), c.maxBackoffSec)
  {
    var n := if attempts < 1 then 1 else attempts;
    var i, p := c.initialBackoffSec, Pow2(n - 1);
    assert 1 * p <= i * p by { MulMonotone(1, i, p); }
    assert i * 1 <= i * p by { MulMonotone(1, p, i); }
    if attempts >= 1 {
      assert Pow2(attempts) == 2 * Pow2(attempts - 1);
      assert i * (2 * p) == 2 * (i * p);
    }
  }

  function Min(a: int, b: int): int {
    if a < b then a else b
  }

  lemma MulMonotone(a: nat, b: nat, k: nat)
    requires a <= b
    ensures a * k <= b * k && k * a <= k * b
  {
  }

  function NextAttempt(c: QueueConfig, attempts: nat, now: nat): (t: nat)
    requires Loaded(c)
    ensures t >= now + SECOND
  {
    BackoffShape(c, attempts);
    now + BackoffSec(c, attempts) * SECOND
  }

  // ---------------------------------------------------------------- one attempt

  /** What the upload or download of one attempt came to. */
  datatype Outcome = Delivered(objectKey: string) | Broken(temporary: bool, objectKey: string, message: string)

  const TOO_LATE := "transfer deadline expired before processing started"

  predicate DeadlinePassed(deadline: Option<Time>, at: nat) {
    deadline.Some? && deadline.value <= at
  }

  /** A failure is final when it is permanent or when the deadline would pass before the next attempt. */
  predicate GivesUp(c: QueueConfig, attempts: nat, deadline: Option<Time>, temporary: bool, at: Time)
    requires Loaded(c)
  {
    !temporary || DeadlinePassed(deadline, NextAttempt(c, attempts, at))
  }

  function AfterFinish(c: QueueConfig, t: Table, id: string, attempts: nat, deadline: Option<Time>, outcome: Outcome, at: Time): Table
    requires Loaded(c) && Printable(NextAttempt(c, attempts, at))
  {
    match outcome
    case Delivered(key) => AfterComplete(t, id, key, at)
    case Broken(temporary, key, message) =>
      if GivesUp(c, attempts, deadline, temporary, at) then AfterFail(t, id, message, at)
      else AfterRetry(t, id, NextAttempt(c, attempts, at), message, key, at)
  }

  /** What the end of an attempt leaves in the row: a delivery completes it; a failure is final when it is permanent or
      when the deadline comes no later than the next attempt would; any other failure waits for that attempt. */
  ghost predicate Decided(c: QueueConfig, row: Row, attempts: nat, deadline: Option<Time>, outcome: Outcome, finishedAt: Time) {
    match outcome
    case Delivered(key) => row.state == Completed && row.objectKey == key
    case Broken(temporary, key, message) =>
      var doubled := c.initialBackoffSec * Pow2((if attempts < 1 then 1 else attempts) - 1);
      var delay := (if doubled < c.maxBackoffSec then doubled else c.maxBackoffSec) * 1_000_000_000;
      && (row.state == Failed <==> !temporary || (deadline.Some? && deadline.value <= finishedAt + delay))
      && (row.state != Failed ==>
            row.state == RetryWait && row.nextAttemptAt.Some? && row.nextAttemptAt.value == finishedAt + delay && row.objectKey == key)
      && row.lastError == TrimSpace(message)
  }

  lemma FinishDecides(c: QueueConfig, t: Table, id: string, attempts: nat, deadline: Option<Time>, outcome: Outcome, at: Time)
    requires Loaded(c) && Printable(NextAttempt(c, attempts, at)) && id in t
    ensures var t' := AfterFinish(c, t, id, attempts, deadline, outcome, at);
      OnlyRow(t, t', id) && Decided(c, t'[id], attempts, deadline, outcome, at)
  {
    hide Printable, TrimSpace;
  }

  /** Processes a claimed transfer: `now` is read on entry, `finishedAt` when the attempt has ended. */
  method ProcessTransfer(c: QueueConfig, store: Store, id: string, attempts: nat, deadline: Option<Time>,
                         now: Time, outcome: Outcome, finishedAt: Time)
    requires Loaded(c) && Printable(NextAttempt(c, attempts, finishedAt))
    modifies store
    ensures store.rows == if DeadlinePassed(deadline, now) then AfterFail(old(store.rows), id, TOO_LATE, now)
                          else AfterFinish(c, old(store.rows), id, attempts, deadline, outcome, finishedAt)
    ensures OnlyRow(old(store.rows), store.rows, id)
    ensures id in old(store.rows) && deadline.Some? && deadline.value <= now ==>
              store.rows[id].state == Failed && store.rows[id].lastError == TrimSpace(TOO_LATE)
    ensures id in old(store.rows) && !(deadline.Some? && deadline.value <= now) ==> Decided(c, store.rows[id], attempts, deadline, outcome, finishedAt)
  {
    if id in store.rows {
      FinishDecides(c, store.rows, id, attempts, deadline, outcome, finishedAt);
    }
    hide Decided, Printable, TrimSpace, OnlyRow;
    if deadline.Some? && !(deadline.value > now) {
      store.MarkFailed(id, TOO_LATE, now);
      return;
    }
    match outcome
    case Delivered(key) =>
      store.MarkCompleted(id, key, finishedAt);
    case Broken(temporary, key, message) =>
      var permanent := !temporary;
      if deadline.Some? {
        var nextAttempt := NextAttempt(c, attempts, finishedAt);
        if !(deadline.value > nextAttempt) {
          permanent := true;
        }
      }
      if permanent {
        store.MarkFailed(id, message, finishedAt);
      } else {
        store.MarkRetry(id, NextAttempt(c, attempts, finishedAt), message, key, finishedAt);
      }
  }
}
