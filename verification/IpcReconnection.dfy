/** When the IPC client stops trying to reconnect. A disconnect handler asks for a reconnect loop after it has failed the
    pending requests; the request is dropped when the loop that made the lost connection has not yet cleared its flag, and
    nobody asks again. */
module IpcReconnection {
  import opened Common
  import opened IpcClient
  import opened IpcProtocol

  ghost predicate HasHunter(s: System) {
    exists l :: l in s.loops && Hunting(s.loops[l])
  }

  /** Started, without a connection, and nobody who could bring one about. */
  ghost predicate Dark(s: System) {
    s.started && s.shared.conn.None? && s.teardowns == map[] && !HasHunter(s)
  }

  /** Dark although the client is open, with no loop left. */
  ghost predicate Stranded(s: System) {
    Dark(s) && !s.shared.closed && s.loops == map[]
  }

  /** A handler finds the reconnecting flag still set. */
  ghost predicate Skipped(s: System, a: Action) {
    a.RestartLoop? && s.loops != map[]
  }

  // ---------------------------------------------------------------- one step

  lemma SpawnedHunts(s: System, loop: nat)
    requires WouldSpawn(s.shared)
    ensures HasHunter(Spawn(s, loop))
  {
    assert loop in Spawn(s, loop).loops && Hunting(Spawn(s, loop).loops[loop]);
  }

  /** With the client open, the handler's request leaves a hunting loop if and only if no loop existed before it. */
  lemma RestartHunts(s: System, a: Action, s': System)
    requires ConnInv(s) && Next(s, a, s') && a.RestartLoop? && !s.shared.closed
    ensures HasHunter(s') <==> s.loops == map[]
  {
    if s.loops == map[] {
      SpawnedHunts(s, a.loop);
      assert s'.loops == Spawn(s, a.loop).loops;
    } else {
      assert s'.loops == s.loops;
    }
  }

  /** Darkness is permanent: no step, Close included, ends it. */
  lemma DarkForever(s: System, a: Action, s': System)
    requires ConnInv(s) && Dark(s) && Next(s, a, s')
    ensures Dark(s')
  {
    assert !a.LoopDials? && !a.LoopRetries? && !a.LoopActivates? && !a.RestartLoop? && !a.Disconnect? && !a.Start?;
    assert forall l :: l in s'.loops ==> !Hunting(s'.loops[l]);
  }

  /** A stranded client stays stranded under every step but the signal of Close. */
  lemma StrandedForever(s: System, a: Action, s': System)
    requires ConnInv(s) && Stranded(s) && Next(s, a, s') && !a.CloseSignal?
    ensures Stranded(s')
  {
    DarkForever(s, a, s');
  }

  /** Close drops the connection only after it has signalled that the client is closed. */
  ghost predicate CloserInv(s: System) {
    s.closer.NotClosing? || s.shared.closed
  }

  lemma CloserStep(s: System, a: Action, s': System)
    requires CloserInv(s) && Next(s, a, s')
    ensures CloserInv(s')
  {
  }

  /** While the client is open, a step turns it dark exactly when it is a skipped restart. */
  lemma TurnsDark(s: System, a: Action, s': System)
    requires ConnInv(s) && CloserInv(s) && Next(s, a, s') && !Dark(s) && !s'.shared.closed
    ensures Dark(s') <==> Skipped(s, a)
  {
    hide Next, ConnInv;
    if a.Start? {
      StartsHunting(s, a, s');
    } else if a.RestartLoop? {
      RestartSkips(s, a, s');
    } else if HasHunter(s) {
      var l :| l in s.loops && Hunting(s.loops[l]);
      HunterGoesOn(s, a, s', l);
    } else {
      StaysLit(s, a, s');
    }
  }

  lemma StartsHunting(s: System, a: Action, s': System)
    requires ConnInv(s) && Next(s, a, s') && a.Start? && !s'.shared.closed
    ensures HasHunter(s')
  {
    SpawnedHunts(s, a.loop);
    assert s'.loops == Spawn(s, a.loop).loops;
  }

  lemma RestartSkips(s: System, a: Action, s': System)
    requires ConnInv(s) && Next(s, a, s') && a.RestartLoop? && !s'.shared.closed
    ensures Dark(s') <==> Skipped(s, a)
  {
    RestartHunts(s, a, s');
    assert s'.started && s'.shared.conn.None? && s'.teardowns == map[];
  }

  /** Without a hunting loop, what keeps a client from being dark is a connection or a handler, or that it has not started. */
  lemma StaysLit(s: System, a: Action, s': System)
    requires ConnInv(s) && CloserInv(s) && Next(s, a, s') && !s'.shared.closed && !a.Start? && !a.RestartLoop?
    requires !s.started || s.shared.conn.Some? || s.teardowns != map[]
    ensures !Dark(s')
  {
    if s.teardowns != map[] {
      var t :| t in s.teardowns;
      assert t in s'.teardowns;
    } else if a.Disconnect? {
      assert a.handler in s'.teardowns;
    }
  }

  lemma HunterGoesOn(s: System, a: Action, s': System, l: nat)
    requires ConnInv(s) && Next(s, a, s') && !s'.shared.closed && l in s.loops && Hunting(s.loops[l])
    ensures !Dark(s')
  {
    assert l in s'.loops || a.LoopEnds?;
    assert a.LoopActivates? || (l in s'.loops && Hunting(s'.loops[l]));
  }

  lemma OpenBefore(s: System, a: Action, s': System)
    requires Next(s, a, s') && !s'.shared.closed
    ensures !s.shared.closed
  {
  }

  // ---------------------------------------------------------------- runs

  /** In every state of every run with the client open: it is dark, and will stay so, if and only if some earlier restart
      was skipped. So as long as none was, a started client without a connection has a hunting loop or a handler. */
  lemma {:induction false} DarkExactlyAfterSkip(states: seq<System>, actions: seq<Action>, i: nat)
    requires Run(states, actions) && i < |states| && !states[i].shared.closed
    ensures Dark(states[i]) <==> exists j :: 0 <= j < i && Skipped(states[j], actions[j])
  {
    hide Next, ConnInv, CloserInv, Skipped, Dark;
    if i == 0 {
      NotStartedIsNotDark(states[0]);
    } else {
      InvAt(states, actions, i - 1);
      CloserInvAt(states, actions, i - 1);
      OpenBefore(states[i - 1], actions[i - 1], states[i]);
      DarkExactlyAfterSkip(states, actions, i - 1);
      if Dark(states[i - 1]) {
        DarkForever(states[i - 1], actions[i - 1], states[i]);
      } else {
        TurnsDark(states[i - 1], actions[i - 1], states[i]);
      }
    }
  }

  lemma NotStartedIsNotDark(s: System)
    requires Initial(s)
    ensures !Dark(s) && CloserInv(s)
  {
  }

  lemma {:induction false} CloserInvAt(states: seq<System>, actions: seq<Action>, i: nat)
    requires Run(states, actions) && i < |states|
    ensures CloserInv(states[i])
  {
    hide Next, CloserInv;
    if i == 0 {
      NotStartedIsNotDark(states[0]);
    } else {
      CloserInvAt(states, actions, i - 1);
      CloserStep(states[i - 1], actions[i - 1], states[i]);
    }
  }

  /** After a skipped restart of an open client there is never a connection again and no request gets one. */
  lemma {:induction false} OfflineForGood(states: seq<System>, actions: seq<Action>, j: nat, i: nat)
    requires Run(states, actions) && j < i < |states| && !states[j].shared.closed && Skipped(states[j], actions[j])
    ensures Dark(states[i]) && states[i].shared.conn.None?
    ensures i < |actions| ==> !actions[i].Attach?
  {
    hide Next, ConnInv, Skipped, HasHunter;
    if i == j + 1 {
      InvAt(states, actions, j);
      SkipIsDark(states[j], actions[j], states[i]);
    } else {
      OfflineForGood(states, actions, j, i - 1);
      InvAt(states, actions, i - 1);
      DarkForever(states[i - 1], actions[i - 1], states[i]);
    }
    if i < |actions| {
      DarkAttachesNothing(states[i], actions[i], states[i + 1]);
    }
  }

  lemma DarkAttachesNothing(s: System, a: Action, s': System)
    requires Dark(s) && Next(s, a, s')
    ensures !a.Attach?
  {
  }

  lemma SkipIsDark(s: System, a: Action, s': System)
    requires ConnInv(s) && Next(s, a, s') && Skipped(s, a) && !s.shared.closed
    ensures Dark(s')
  {
    RestartHunts(s, a, s');
    assert s'.teardowns == map[];
  }

  // ---------------------------------------------------------------- a run that strands the client

  function Connecting(loops: map<nat, Loop>): System {
    System(Shared(false, None, 0, 0, map[0 := Open], true, map[], map[]), true, loops, map[], NotClosing, map[], map[])
  }

  function Connected(): System {
    System(Shared(false, Some(1), 1, 0, map[0 := Closed(false)], true, map[], map[]), true, map[0 := Exiting], map[], NotClosing, map[], map[])
  }

  function Lost(reconnecting: bool, loops: map<nat, Loop>, teardowns: map<nat, Teardown>): System {
    System(Shared(false, None, 1, 1, map[0 := Closed(false), 1 := Open], reconnecting, map[], map[]), true, loops, teardowns, NotClosing, map[], map[])
  }

  function At(n: nat): System {
    if n == 0 then System(Shared(false, None, 0, 0, map[0 := Open], false, map[], map[]), false, map[], map[], NotClosing, map[], map[])
    else if n == 1 then Connecting(map[0 := Starting])
    else if n == 2 then Connecting(map[0 := Dialing])
    else if n == 3 then Connected()
    else if n == 4 then Lost(true, map[0 := Exiting], map[0 := Failing(1)])
    else if n == 5 then Lost(true, map[0 := Exiting], map[0 := Restarting(1)])
    else if n == 6 then Lost(true, map[0 := Exiting], map[])
    else Lost(false, map[], map[])
  }

  function Happens(n: nat): Action {
    if n == 0 then Start(0)
    else if n == 1 then LoopDials(0)
    else if n == 2 then LoopActivates(0)
    else if n == 3 then Disconnect(0, 1)
    else if n == 4 then FailPending(0)
    else if n == 5 then RestartLoop(0, 1)
    else LoopEnds(0)
  }

  lemma Connects(n: nat)
    requires n < 4
    ensures Next(At(n), Happens(n), At(n + 1))
  {
  }

  lemma Strands(n: nat)
    requires 4 <= n < 7
    ensures Next(At(n), Happens(n), At(n + 1))
  {
    var s := At(4).shared;
    assert FailAll(s).responses == map[] && FailAll(s) == s;
    assert map[0 := Restarting(1)] - {0} == map[] && map[0 := Exiting] - {0} == map[];
  }

  /** The connection is lost before the loop that made it has cleared the flag: the restart is skipped, the loop ends, and
      the open client is stranded. */
  lemma ClientStrands() returns (states: seq<System>, actions: seq<Action>)
    ensures Run(states, actions)
    ensures actions == [Start(0), LoopDials(0), LoopActivates(0), Disconnect(0, 1), FailPending(0), RestartLoop(0, 1), LoopEnds(0)]
    ensures Skipped(states[5], actions[5]) && Stranded(states[7])
  {
    states, actions := seq(8, n requires 0 <= n => At(n)), seq(7, n requires 0 <= n => Happens(n));
    hide Next;
    forall i | 0 <= i < |actions|
      ensures Next(states[i], actions[i], states[i + 1])
    {
      if i < 4 {
        Connects(i);
      } else {
        Strands(i);
      }
    }
    assert states[0] == At(0) && states[5] == At(5) && states[7] == At(7) && 0 in At(5).loops;
  }
}
