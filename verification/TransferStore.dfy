/** The durable table of cloud transfers and the statements that change it. */
module TransferStore {
  import opened Common
  import opened TextTime

  datatype TransferState = Queued | Running | RetryWait | Failed | Completed

  /** One row; the columns that never change and no statement reads (paths, scope, metadata) are dropped. */
  datatype Row = Row(
    state: TransferState,
    attempts: nat,
    lastError: string,
    objectKey: string,
    createdAt: Time,
    updatedAt: Time,
    nextAttemptAt: Option<Time>,
    startedAt: Option<Time>,
    completedAt: Option<Time>,
    deadlineAt: Option<Time>)

  type Table = map<string, Row>

  const RESTARTED := "cloud-transfer restarted before prior attempt completed"
  const EXPIRED := "transfer deadline expired before completion"

  // ---------------------------------------------------------------- what the statements mean

  predicate Waiting(r: Row) {
    r.state == Queued || r.state == RetryWait
  }

  predicate Due(r: Row, now: Time) {
    Waiting(r) && (r.nextAttemptAt.None? || StoredLe(r.nextAttemptAt.value, now))
  }

  function SortTime(r: Row): Time {
    if r.nextAttemptAt.Some? then r.nextAttemptAt.value else r.createdAt
  }

  /** The ORDER BY of the claim: due time as text, then creation time as text. */
  predicate OrderedBefore(a: Row, b: Row) {
    && StoredLe(SortTime(a), SortTime(b))
    && (StoredLe(SortTime(b), SortTime(a)) ==> StoredLe(a.createdAt, b.createdAt))
  }

  predicate AnyDue(t: Table, now: Time) {
    exists id :: id in t && Due(t[id], now)
  }

  predicate FirstDue(t: Table, now: Time, id: string) {
    && id in t && Due(t[id], now)
    && forall x :: x in t && Due(t[x], now) ==> OrderedBefore(t[id], t[x])
  }

  predicate Expires(r: Row, now: Time) {
    r.state in {Queued, RetryWait, Running} && r.deadlineAt.Some? && StoredLe(r.deadlineAt.value, now)
  }

  function NewRow(createdAt: Time, deadlineAt: Option<Time>): Row {
    Row(Queued, 0, "", "", createdAt, createdAt, Some(createdAt), None, None, deadlineAt)
  }

  function ClaimRow(r: Row, now: Time): Row {
    r.(state := Running, attempts := r.attempts + 1, updatedAt := now, startedAt := Some(now), nextAttemptAt := None)
  }

  function CompleteRow(r: Row, objectKey: string, at: Time): Row {
    r.(state := Completed, objectKey := objectKey, completedAt := Some(at), updatedAt := at, nextAttemptAt := None, lastError := "")
  }

  function RetryRow(r: Row, next: Time, message: string, objectKey: string, at: Time): Row {
    r.(state := RetryWait, nextAttemptAt := Some(next), lastError := TrimSpace(message), updatedAt := at, objectKey := objectKey)
  }

  function FailRow(r: Row, message: string, at: Time): Row {
    r.(state := Failed, lastError := TrimSpace(message), updatedAt := at, nextAttemptAt := None)
  }

  function ResetRow(r: Row, now: Time): Row {
    if r.state != Running then r
    else r.(state := RetryWait, nextAttemptAt := Some(now), updatedAt := now, lastError := if r.lastError == "" then RESTARTED else r.lastError)
  }

  function ExpireRow(r: Row, now: Time): Row {
    if !Expires(r, now) then r
    else r.(state := Failed, updatedAt := now, nextAttemptAt := None, lastError := if r.lastError == "" then EXPIRED else r.lastError)
  }

  function AfterClaim(t: Table, id: string, now: Time): Table
    requires id in t
  {
    t[id := ClaimRow(t[id], now)]
  }

  function AfterComplete(t: Table, id: string, objectKey: string, at: Time): Table {
    if id in t then t[id := CompleteRow(t[id], objectKey, at)] else t
  }

  function AfterRetry(t: Table, id: string, next: Time, message: string, objectKey: string, at: Time): Table {
    if id in t then t[id := RetryRow(t[id], next, message, objectKey, at)] else t
  }

  function AfterFail(t: Table, id: string, message: string, at: Time): Table {
    if id in t then t[id := FailRow(t[id], message, at)] else t
  }

  function AfterReset(t: Table, now: Time): Table {
    map id | id in t :: ResetRow(t[id], now)
  }

  function AfterExpire(t: Table, now: Time): Table {
    map id | id in t :: ExpireRow(t[id], now)
  }

  /** Two tables that differ in one row at most. */
  predicate OnlyRow(before: Table, after: Table, id: string) {
    after.Keys == before.Keys && forall x :: x in before && x != id ==> after[x] == before[x]
  }

  // ---------------------------------------------------------------- what a claim is, in full

  /** `r` is due before `x`; of two due at the same time, it was created no later. A row without a next attempt is due from
      its creation. */
  ghost predicate NoLater(r: Row, x: Row) {
    var a := match r.nextAttemptAt case Some(t) => t case None => r.createdAt;
    var b := match x.nextAttemptAt case Some(t) => t case None => x.createdAt;
    StoredLe(a, b) && (StoredLe(b, a) ==> StoredLe(r.createdAt, x.createdAt))
  }

  predicate Claimable(r: Row, now: Time) {
    r.state in {Queued, RetryWait} && match r.nextAttemptAt case Some(t) => StoredLe(t, now) case None => true
  }

  /** `id` waits, its next attempt has come, and every other such row comes no earlier. */
  ghost predicate Earliest(t: Table, now: Time, id: string) {
    id in t && Claimable(t[id], now) && forall x :: x in t && Claimable(t[x], now) ==> NoLater(t[id], t[x])
  }

  /** The claimed row: one attempt more, started now, and nothing else changed. */
  ghost predicate Restarted(before: Row, after: Row, now: Time) {
    && after.state == Running && after.attempts == before.attempts + 1
    && after.startedAt == Some(now) && after.updatedAt == now && after.nextAttemptAt == None
    && after.lastError == before.lastError && after.objectKey == before.objectKey && after.createdAt == before.createdAt
    && after.completedAt == before.completedAt && after.deadlineAt == before.deadlineAt
  }

  lemma NothingDueMeans(t: Table, now: Time)
    ensures AnyDue(t, now) <==> exists x :: x in t && Claimable(t[x], now)
  {
    hide StoredLe;
    assert forall x :: x in t ==> (Due(t[x], now) <==> Claimable(t[x], now));
  }

  lemma FirstDueMeans(t: Table, now: Time, id: string)
    requires FirstDue(t, now, id)
    ensures Earliest(t, now, id)
  {
    hide StoredLe;
    forall x | x in t && Claimable(t[x], now)
      ensures NoLater(t[id], t[x])
    {
      assert Due(t[x], now);
    }
  }

  lemma ClaimMeans(t: Table, id: string, now: Time)
    requires id in t
    ensures OnlyRow(t, AfterClaim(t, id, now), id) && Restarted(t[id], AfterClaim(t, id, now)[id], now)
  {
    hide StoredLe, Printable;
  }

  // ---------------------------------------------------------------- the claim order

  lemma OrderedBeforeIsAnOrder(a: Row, b: Row, c: Row)
    ensures OrderedBefore(a, b) || OrderedBefore(b, a)
    ensures OrderedBefore(a, b) && OrderedBefore(b, c) ==> OrderedBefore(a, c)
  {
    StoredLeOrders(SortTime(a), SortTime(b), SortTime(c));
    StoredLeOrders(SortTime(c), SortTime(a), SortTime(b));
    StoredLeOrders(SortTime(b), SortTime(c), SortTime(a));
    StoredLeOrders(a.createdAt, b.createdAt, c.createdAt);
  }

  ghost predicate FirstOf(t: Table, ids: set<string>, id: string)
    requires ids <= t.Keys
  {
    id in ids && forall x :: x in ids ==> OrderedBefore(t[id], t[x])
  }

  lemma FirstOfExtends(t: Table, ids: set<string>, m: string, y: string)
    requires ids <= t.Keys && y in t && FirstOf(t, ids, m)
    ensures FirstOf(t, ids + {y}, m) || FirstOf(t, ids + {y}, y)
  {
    OrderedBeforeIsAnOrder(t[m], t[y], t[y]);
    OrderedBeforeIsAnOrder(t[y], t[y], t[y]);
    if !OrderedBefore(t[m], t[y]) {
      forall x | x in ids
        ensures OrderedBefore(t[y], t[x])
      {
        OrderedBeforeIsAnOrder(t[y], t[m], t[x]);
      }
    }
  }

  lemma {:induction false} FirstOfExists(t: Table, ids: set<string>)
    requires ids != {} && ids <= t.Keys
    ensures exists id :: FirstOf(t, ids, id)
  {
    var y :| y in ids;
    var rest := ids - {y};
    assert ids == rest + {y};
    if rest == {} {
      OrderedBeforeIsAnOrder(t[y], t[y], t[y]);
      assert FirstOf(t, ids, y);
    } else {
      FirstOfExists(t, rest);
      var m :| FirstOf(t, rest, m);
      FirstOfExtends(t, rest, m, y);
    }
  }

  lemma FirstDueExists(t: Table, now: Time)
    requires AnyDue(t, now)
    ensures exists id :: id in t && FirstDue(t, now, id)
  {
    var ids := set id | id in t && Due(t[id], now);
    var some :| some in t && Due(t[some], now);
    assert some in ids;
    FirstOfExists(t, ids);
    var id :| FirstOf(t, ids, id);
    assert FirstDue(t, now, id);
  }

  // ---------------------------------------------------------------- the store

  class Store {
    var rows: Table

    constructor ()
      ensures rows == map[]
    {
      rows := map[];
    }

    /** Inserts a row; the primary key rejects a second row with the same id. */
    method Enqueue(id: string, createdAt: Time, deadlineAt: Option<Time>) returns (ok: bool)
      modifies this
      ensures ok == (id !in old(rows))
      ensures rows == if ok then old(rows)[id := NewRow(createdAt, deadlineAt)] else old(rows)
      ensures ok ==> rows[id] == Row(Queued, 0, "", "", createdAt, createdAt, Some(createdAt), None, None, deadlineAt)
    {
      ok := id !in rows;
      if ok {
        rows := rows[id := NewRow(createdAt, deadlineAt)];
      }
    }

    /** Claims the first due transfer, or nothing exactly when none is due. */
    method AcquireDueTransfer(now: Time) returns (claimed: Option<string>)
      modifies this
      ensures claimed.Some? <==> AnyDue(old(rows), now)
      ensures claimed.None? ==> rows == old(rows)
      ensures claimed.Some? ==> FirstDue(old(rows), now, claimed.value)
                                && rows == AfterClaim(old(rows), claimed.value, now)
      ensures claimed.None? ==> forall x :: x in rows ==> !Claimable(rows[x], now)
      ensures claimed.Some? ==> Earliest(old(rows), now, claimed.value)
      ensures claimed.Some? ==> OnlyRow(old(rows), rows, claimed.value) && Restarted(old(rows)[claimed.value], rows[claimed.value], now)
    {
      NothingDueMeans(rows, now);
      if AnyDue(rows, now) {
        FirstDueExists(rows, now);
        var id :| id in rows && FirstDue(rows, now, id);
        FirstDueMeans(rows, now, id);
        ClaimMeans(rows, id, now);
        hide *;
        rows := rows[id := ClaimRow(rows[id], now)];
        claimed := Some(id);
      } else {
        claimed := None;
      }
    }

    method MarkCompleted(id: string, objectKey: string, at: Time)
      modifies this
      ensures rows == AfterComplete(old(rows), id, objectKey, at)
      ensures OnlyRow(old(rows), rows, id)
      ensures id in rows ==> rows[id].state == Completed && rows[id].nextAttemptAt == None && rows[id].lastError == ""
      ensures id in rows ==> rows[id].completedAt == Some(at) && rows[id].objectKey == objectKey && rows[id].attempts == old(rows)[id].attempts && rows[id].deadlineAt == old(rows)[id].deadlineAt
    {
      if id in rows {
        rows := rows[id := CompleteRow(rows[id], objectKey, at)];
      }
    }

    method MarkRetry(id: string, next: Time, message: string, objectKey: string, at: Time)
      modifies this
      ensures rows == AfterRetry(old(rows), id, next, message, objectKey, at)
      ensures OnlyRow(old(rows), rows, id)
      ensures id in rows ==> forall now: Time :: Due(rows[id], now) <==> StoredLe(next, now)
      ensures id in rows ==> rows[id].state == RetryWait && rows[id].attempts == old(rows)[id].attempts && rows[id].deadlineAt == old(rows)[id].deadlineAt
      ensures id in rows ==> rows[id].nextAttemptAt == Some(next) && rows[id].objectKey == objectKey && rows[id].lastError == TrimSpace(message)
    {
      if id in rows {
        rows := rows[id := RetryRow(rows[id], next, message, objectKey, at)];
      }
    }

    method MarkFailed(id: string, message: string, at: Time)
      modifies this
      ensures rows == AfterFail(old(rows), id, message, at)
      ensures OnlyRow(old(rows), rows, id)
      ensures id in rows ==> rows[id].state == Failed && rows[id].nextAttemptAt == None && forall now: Time :: !Due(rows[id], now) && !Expires(rows[id], now)
      ensures id in rows ==> rows[id].objectKey == old(rows)[id].objectKey && rows[id].attempts == old(rows)[id].attempts
      ensures id in rows ==> rows[id].lastError == TrimSpace(message) && rows[id].deadlineAt == old(rows)[id].deadlineAt
    {
      if id in rows {
        rows := rows[id := FailRow(rows[id], message, at)];
      }
    }

    /** After a restart no row is running, none is lost, and every row that was running is due at once. */
    method ResetRunningTransfers(now: Time)
      modifies this
      ensures rows == AfterReset(old(rows), now)
      ensures rows.Keys == old(rows).Keys
      ensures forall id :: id in rows ==> rows[id].state != Running
      ensures forall id :: id in rows && old(rows)[id].state == Running ==>
                Due(rows[id], now) && rows[id].state == RetryWait && rows[id].nextAttemptAt == Some(now)
                && rows[id].attempts == old(rows)[id].attempts && rows[id].deadlineAt == old(rows)[id].deadlineAt
                && rows[id].lastError == (if old(rows)[id].lastError == "" then RESTARTED else old(rows)[id].lastError)
      ensures forall id :: id in rows && old(rows)[id].state != Running ==> rows[id] == old(rows)[id]
    {
      rows := map id | id in rows :: ResetRow(rows[id], now);
      StoredLeOrders(now, now, now);
    }

    /** Fails every unfinished row whose deadline text is not after `now`, and touches no other row. */
    method MarkExpired(now: Time)
      modifies this
      ensures rows == AfterExpire(old(rows), now)
      ensures rows.Keys == old(rows).Keys
      ensures forall id :: id in rows ==> !Expires(rows[id], now)
      ensures forall id :: id in rows && rows[id] != old(rows)[id] ==> Expires(old(rows)[id], now) && rows[id].state == Failed
      ensures forall id :: id in rows ==>
                var r := old(rows)[id];
                if r.state in {Queued, RetryWait, Running} && r.deadlineAt.Some? && StoredLe(r.deadlineAt.value, now)
                then rows[id].state == Failed && rows[id].nextAttemptAt == None && rows[id].attempts == r.attempts
                     && rows[id].lastError == (if r.lastError == "" then EXPIRED else r.lastError)
                else rows[id] == r
    {
      rows := map id | id in rows :: ExpireRow(rows[id], now);
    }
  }
}
