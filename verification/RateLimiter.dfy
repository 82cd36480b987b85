/** The inbound rate limiter of the edge WebSocket server: a sliding window kept as a pruned list of timestamps. */
module RateLimiter {

  datatype Config = Config(maxCommands: int, maxMessages: int, windowSec: int)

  predicate Usable(c: Config) {
    1 <= c.maxCommands <= c.maxMessages && 1 <= c.windowSec
  }

  /** Every configuration becomes a usable one, and a usable one is kept. */
  function Normalize(c: Config): (r: Config)
    ensures Usable(r)
    ensures Usable(c) ==> r == c
    ensures c.maxMessages > 0 ==> r.maxMessages == c.maxMessages
    ensures c.windowSec > 0 ==> r.windowSec == c.windowSec
    ensures 0 < c.maxCommands <= r.maxMessages ==> r.maxCommands == c.maxCommands
    ensures c == Config(0, 0, 0) ==> r == Config(40, 120, 5)
    ensures c.maxMessages <= 0 ==> r.maxMessages == 120
    ensures c.windowSec <= 0 ==> r.windowSec == 5
    ensures c.maxCommands <= 0 || c.maxCommands > r.maxMessages ==> r.maxCommands <= 40 && (r.maxCommands == 40 || r.maxCommands == r.maxMessages)
  {
    var maxMessages := if c.maxMessages <= 0 then 120 else c.maxMessages;
    var maxCommands :=
      if c.maxCommands <= 0 || c.maxCommands > maxMessages then (if 40 > maxMessages then maxMessages else 40)
      else c.maxCommands;
    Config(maxCommands, maxMessages, if c.windowSec <= 0 then 5 else c.windowSec)
  }

  // ---------------------------------------------------------------- the meaning: counting over the whole history

  /** How many of `ts` lie in the closed interval from `lo` to `hi`. */
  function CountIn(ts: seq<int>, lo: int, hi: int): nat {
    if ts == [] then 0
    else CountIn(ts[..|ts| - 1], lo, hi) + if lo <= ts[|ts| - 1] <= hi then 1 else 0
  }

  /** The times that an ideal limiter admits: a call is admitted when fewer than `max` admitted ones lie in the
      closed window that ends at it. */
  function Admitted(calls: seq<int>, max: nat, window: nat): seq<int> {
    if calls == [] then []
    else
      var past := Admitted(calls[..|calls| - 1], max, window);
      var now := calls[|calls| - 1];
      if CountIn(past, now - window, now) < max then past + [now] else past
  }

  ghost predicate UpTo(ts: seq<int>, t: int) {
    forall i :: 0 <= i < |ts| ==> ts[i] <= t
  }

  ghost predicate Chronological(ts: seq<int>) {
    forall i :: 0 <= i < |ts| ==> UpTo(ts[..i], ts[i])
  }

  lemma ChronologicalParts(ts: seq<int>, k: nat)
    requires Chronological(ts) && k <= |ts|
    ensures Chronological(ts[..k]) && Chronological(ts[k..])
  {
    forall i | 0 <= i < k
      ensures UpTo(ts[..k][..i], ts[..k][i])
    {
      assert ts[..k][..i] == ts[..i];
    }
    forall i | 0 <= i < |ts| - k
      ensures UpTo(ts[k..][..i], ts[k..][i])
    {
      assert UpTo(ts[..k + i], ts[k + i]);
      assert forall j :: 0 <= j < i ==> ts[k..][..i][j] == ts[..k + i][k + j];
    }
  }

  lemma ChronologicalAppend(ts: seq<int>, t: int)
    requires Chronological(ts) && UpTo(ts, t)
    ensures Chronological(ts + [t])
  {
    var all := ts + [t];
    forall i | 0 <= i < |all|
      ensures UpTo(all[..i], all[i])
    {
      assert all[..i] == ts[..i];
    }
  }

  lemma {:induction false} AdmittedInOrder(calls: seq<int>, max: nat, window: nat, now: int)
    requires Chronological(calls) && UpTo(calls, now)
    ensures Chronological(Admitted(calls, max, window)) && UpTo(Admitted(calls, max, window), now)
  {
    if calls != [] {
      var n := |calls| - 1;
      ChronologicalParts(calls, n);
      assert UpTo(calls[..n], calls[n]);
      AdmittedInOrder(calls[..n], max, window, calls[n]);
      ChronologicalAppend(Admitted(calls[..n], max, window), calls[n]);
    }
  }

  lemma {:induction false} NarrowerCountsLess(ts: seq<int>, lo: int, hi: int, lo': int, hi': int)
    requires lo' <= lo && (hi <= hi' || UpTo(ts, hi'))
    ensures CountIn(ts, lo, hi) <= CountIn(ts, lo', hi')
  {
    if ts != [] {
      NarrowerCountsLess(ts[..|ts| - 1], lo, hi, lo', hi');
    }
  }

  lemma {:induction false} CountAppend(ts: seq<int>, t: int, lo: int, hi: int)
    ensures CountIn(ts + [t], lo, hi) == CountIn(ts, lo, hi) + if lo <= t <= hi then 1 else 0
  {
    assert (ts + [t])[..|ts|] == ts;
  }

  lemma {:induction false} OneMoreFits(past: seq<int>, now: int, max: nat, window: nat, start: int)
    requires UpTo(past, now) && CountIn(past, start, start + window) <= max
    requires CountIn(past, now - window, now) < max
    ensures CountIn(past + [now], start, start + window) <= max
  {
    CountAppend(past, now, start, start + window);
    if start <= now <= start + window {
      NarrowerCountsLess(past, start, start + window, now - window, now);
    }
  }

  /** No closed interval of the window's length ever holds more than `max` admitted calls. */
  lemma {:induction false} WindowNeverOverflows(calls: seq<int>, max: nat, window: nat, start: int)
    requires Chronological(calls)
    ensures CountIn(Admitted(calls, max, window), start, start + window) <= max
  {
    if calls != [] {
      var n := |calls| - 1;
      ChronologicalParts(calls, n);
      assert UpTo(calls[..n], calls[n]);
      AdmittedInOrder(calls[..n], max, window, calls[n]);
      WindowNeverOverflows(calls[..n], max, window, start);
      hide CountIn, Chronological, UpTo;
      var past := Admitted(calls[..n], max, window);
      if CountIn(past, calls[n] - window, calls[n]) < max {
        OneMoreFits(past, calls[n], max, window, start);
      }
    }
  }

  // ---------------------------------------------------------------- the list

  /** `stamps` is what is left of the admitted times after dropping, at the call time `last`, those before the window. */
  ghost predicate Tracks(stamps: seq<int>, admitted: seq<int>, last: int, max: nat, window: nat) {
    && |stamps| <= |admitted| && stamps == admitted[|admitted| - |stamps|..]
    && (forall i :: 0 <= i < |admitted| - |stamps| ==> admitted[i] < last - window)
    && Chronological(admitted) && UpTo(admitted, last) && |stamps| <= max
  }

  lemma {:induction false} CountSuffix(ts: seq<int>, lo: int, hi: int, k: nat)
    requires k <= |ts| && UpTo(ts, hi)
    requires forall i :: 0 <= i < k ==> ts[i] < lo
    requires forall i :: k <= i < |ts| ==> lo <= ts[i]
    ensures CountIn(ts, lo, hi) == |ts| - k
  {
    if ts != [] {
      CountSuffix(ts[..|ts| - 1], lo, hi, if k == |ts| then k - 1 else k);
    }
  }

  method PruneExpired(values: seq<int>, cutoff: int) returns (kept: seq<int>)
    requires Chronological(values)
    ensures |kept| <= |values| && kept == values[|values| - |kept|..]
    ensures forall i :: 0 <= i < |values| - |kept| ==> values[i] < cutoff
    ensures forall i :: 0 <= i < |kept| ==> kept[i] >= cutoff
  {
    var first := 0;
    while first < |values| && values[first] < cutoff
      invariant 0 <= first <= |values|
      invariant forall i :: 0 <= i < first ==> values[i] < cutoff
    {
      first := first + 1;
    }
    forall i | first < i < |values|
      ensures values[i] >= cutoff
    {
      assert UpTo(values[..i], values[i]) && values[..i][first] == values[first];
    }
    if first == 0 {
      return values;
    }
    if first >= |values| {
      return [];
    }
    return values[first..];
  }

  /** One call at `now`: the pruned list decides exactly as the count over the whole history does, and stays within `max`. */
  method Admit(stamps: seq<int>, now: int, max: nat, window: nat, ghost admitted: seq<int>, ghost last: int)
    returns (stamps': seq<int>, ok: bool)
    requires Tracks(stamps, admitted, last, max, window) && last <= now
    ensures ok <==> CountIn(admitted, now - window, now) < max
    ensures Tracks(stamps', if ok then admitted + [now] else admitted, now, max, window)
  {
    ChronologicalParts(admitted, |admitted| - |stamps|);
    stamps' := PruneExpired(stamps, now - window);
    PrunedCounts(stamps, stamps', admitted, last, now, max, window);
    ok := |stamps'| < max;
    if ok {
      AppendTracks(stamps', admitted, now, max, window);
      stamps' := stamps' + [now];
    }
  }

  lemma {:induction false} PrunedCounts(stamps: seq<int>, kept: seq<int>, admitted: seq<int>, last: int, now: int, max: nat, window: nat)
    requires Tracks(stamps, admitted, last, max, window) && last <= now
    requires |kept| <= |stamps| && kept == stamps[|stamps| - |kept|..]
    requires forall i :: 0 <= i < |stamps| - |kept| ==> stamps[i] < now - window
    requires forall i :: 0 <= i < |kept| ==> kept[i] >= now - window
    ensures Tracks(kept, admitted, now, max, window) && CountIn(admitted, now - window, now) == |kept|
  {
    hide Chronological, CountIn;
    var k, m := |admitted| - |stamps|, |admitted| - |kept|;
    assert kept == admitted[m..];
    forall i | 0 <= i < |admitted|
      ensures i < m ==> admitted[i] < now - window
      ensures i >= m ==> admitted[i] >= now - window
    {
      if i >= m {
        assert admitted[i] == kept[i - m];
      } else if i >= k {
        assert admitted[i] == stamps[i - k];
      }
    }
    CountSuffix(admitted, now - window, now, m);
  }

  lemma AppendTracks(kept: seq<int>, admitted: seq<int>, now: int, max: nat, window: nat)
    requires Tracks(kept, admitted, now, max, window) && |kept| < max
    ensures Tracks(kept + [now], admitted + [now], now, max, window)
  {
    ChronologicalAppend(admitted, now);
    hide Chronological;
    var m := |admitted| - |kept|;
    assert (admitted + [now])[m..] == kept + [now];
  }

  /** The limiter of one connection: messages and commands have their own lists and share the window. The ghost
      fields are the times of all calls so far. */
  class InboundRateLimiter {
    const maxMessages: nat
    const maxCommands: nat
    const window: nat
    var messages: seq<int>
    var commands: seq<int>
    ghost var messageCalls: seq<int>
    ghost var commandCalls: seq<int>

    ghost predicate Valid()
      reads this
    {
      && Follows(messages, messageCalls, maxMessages, window)
      && Follows(commands, commandCalls, maxCommands, window)
    }

    constructor (c: Config, unitsPerSecond: nat)
      ensures Valid() && messageCalls == [] && commandCalls == []
      ensures var n := Normalize(c); maxMessages == n.maxMessages && maxCommands == n.maxCommands && window == n.windowSec * unitsPerSecond
    {
      var n := Normalize(c);
      maxMessages, maxCommands := n.maxMessages, n.maxCommands;
      window := n.windowSec * unitsPerSecond;
      messages, commands, messageCalls, commandCalls := [], [], [], [];
    }

    /** Admits a message exactly when the ideal limiter does, and then never stores more than the maximum. */
    method AllowMessage(now: int) returns (ok: bool)
      requires Valid() && UpTo(messageCalls, now)
      modifies this`messages, this`messageCalls
      ensures Valid() && messageCalls == old(messageCalls) + [now] && |messages| <= maxMessages
      ensures ok <==> CountIn(Admitted(old(messageCalls), maxMessages, window), now - window, now) < maxMessages
    {
      hide Follows, CountIn, Admitted, UpTo;
      messages, ok := AdmitNext(messages, now, maxMessages, window, messageCalls);
      messageCalls := messageCalls + [now];
    }

    method AllowCommand(now: int) returns (ok: bool)
      requires Valid() && UpTo(commandCalls, now)
      modifies this`commands, this`commandCalls
      ensures Valid() && commandCalls == old(commandCalls) + [now] && |commands| <= maxCommands
      ensures ok <==> CountIn(Admitted(old(commandCalls), maxCommands, window), now - window, now) < maxCommands
    {
      hide Follows, CountIn, Admitted, UpTo;
      commands, ok := AdmitNext(commands, now, maxCommands, window, commandCalls);
      commandCalls := commandCalls + [now];
    }
  }

  /** The list after a history of calls. */
  ghost predicate Follows(stamps: seq<int>, calls: seq<int>, max: nat, window: nat) {
    && Chronological(calls)
    && (calls == [] ==> stamps == [])
    && (calls != [] ==> Tracks(stamps, Admitted(calls, max, window), calls[|calls| - 1], max, window))
  }

  method AdmitNext(stamps: seq<int>, now: int, max: nat, window: nat, ghost calls: seq<int>) returns (stamps': seq<int>, ok: bool)
    requires Follows(stamps, calls, max, window) && UpTo(calls, now)
    ensures ok <==> CountIn(Admitted(calls, max, window), now - window, now) < max
    ensures Follows(stamps', calls + [now], max, window) && |stamps'| <= max
  {
    ghost var last := if calls == [] then now else calls[|calls| - 1];
    FollowsTracks(stamps, calls, now, max, window);
    hide Follows, CountIn, Admitted, Tracks;
    stamps', ok := Admit(stamps, now, max, window, Admitted(calls, max, window), last);
    TracksFollows(stamps', calls, now, max, window, ok);
  }

  lemma FollowsTracks(stamps: seq<int>, calls: seq<int>, now: int, max: nat, window: nat)
    requires Follows(stamps, calls, max, window) && UpTo(calls, now)
    ensures Tracks(stamps, Admitted(calls, max, window), if calls == [] then now else calls[|calls| - 1], max, window)
  {
    hide CountIn;
  }

  lemma {:induction false} TracksFollows(stamps: seq<int>, calls: seq<int>, now: int, max: nat, window: nat, ok: bool)
    requires Chronological(calls) && UpTo(calls, now)
    requires ok <==> CountIn(Admitted(calls, max, window), now - window, now) < max
    requires Tracks(stamps, if ok then Admitted(calls, max, window) + [now] else Admitted(calls, max, window), now, max, window)
    ensures Follows(stamps, calls + [now], max, window) && |stamps| <= max
  {
    ChronologicalAppend(calls, now);
    AdmittedAppend(calls, now, max, window);
    assert |stamps| <= max;
    hide CountIn, Chronological, Admitted, Tracks, UpTo;
  }

  lemma {:induction false} AdmittedAppend(calls: seq<int>, now: int, max: nat, window: nat)
    ensures var past := Admitted(calls, max, window);
            Admitted(calls + [now], max, window) == if CountIn(past, now - window, now) < max then past + [now] else past
  {
    hide CountIn;
    assert (calls + [now])[..|calls|] == calls;
  }
}
