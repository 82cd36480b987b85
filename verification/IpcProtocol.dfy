/** The IPC client as a protocol: callers, readers, reconnect loops, disconnect handlers and Close run
    concurrently, and each step is one lock region or one channel operation of one of them. */
module IpcProtocol {
  import opened Common
  import opened IpcClient

  /** A reconnect loop: about to check for a connection, dialling without one, or on its way out. */
  datatype Loop = Starting | Dialing | Exiting

  /** A disconnect handler after its state region: it still has to fail pending requests, or only to restart the loop. */
  datatype Teardown = Failing(generation: nat) | Restarting(generation: nat)

  datatype Closer = NotClosing | Detaching | FailingAll | Done

  /** A reader that took a response's channel: it sends, then closes. */
  datatype Delivery = Sending(channel: nat) | Closing(channel: nat)

  datatype Request =
    | Attached(generation: nat)
    | Registered(generation: nat, id: string, channel: nat)
    | Written(generation: nat, id: string, channel: nat)
    | Leaving(generation: nat, id: string, channel: nat)
    | Finished
  {
    /** The request still has its channel in the pending map. */
    predicate PendingIn(s: Shared) {
      !Attached? && !Finished? && id in s.pending && s.pending[id] == channel
    }
  }

  datatype System = System(
    shared: Shared,
    started: bool,
    loops: map<nat, Loop>,
    teardowns: map<nat, Teardown>,
    closer: Closer,
    deliveries: map<nat, Delivery>,
    requests: map<nat, Request>)

  datatype Action =
    | Start(loop: nat)
    | LoopDials(loop: nat)
    | LoopQuits(loop: nat)
    | LoopRetries(loop: nat)
    | LoopActivates(loop: nat)
    | LoopEnds(loop: nat)
    | Disconnect(handler: nat, ready: nat)
    | FailPending(handler: nat)
    | RestartLoop(handler: nat, loop: nat)
    | Attach(request: nat)
    | RegisterRequest(request: nat, id: string, channel: nat)
    | WriteRequest(request: nat)
    | GiveUp(request: nat)
    | RemovePending(request: nat)
    | Receive(request: nat)
    | TakeResponse(delivery: nat, id: string)
    | SendResponse(delivery: nat)
    | CloseResponse(delivery: nat)
    | CloseSignal
    | CloseDetach(ready: nat)
    | CloseFail

  ghost predicate Initial(s: System) {
    && s.shared == Shared(false, None, 0, 0, map[0 := Open], false, map[], map[])
    && s == System(s.shared, false, map[], map[], NotClosing, map[], map[])
  }

  /** Starting the reconnect loop: a new loop thread exactly when the flag was clear. */
  function Spawn(s: System, loop: nat): System {
    var loops := if WouldSpawn(s.shared) then s.loops[loop := Starting] else s.loops;
    s.(shared := EnsureLoop(s.shared), loops := loops)
  }

  ghost predicate Next(s: System, a: Action, s': System) {
    match a
    case Start(loop) =>
      && !s.started && loop !in s.loops
      && s' == Spawn(s, loop).(started := true)
    case LoopDials(loop) =>
      && loop in s.loops && s.loops[loop].Starting? && s.shared.conn.None?
      && s' == s.(loops := s.loops[loop := Dialing])
    case LoopQuits(loop) =>
      && loop in s.loops && (s.shared.closed || (s.loops[loop].Starting? && s.shared.conn.Some?))
      && s' == s.(loops := s.loops[loop := Exiting])
    case LoopRetries(loop) =>
      && loop in s.loops && s.loops[loop].Dialing?
      && s' == s.(loops := s.loops[loop := Starting])
    case LoopActivates(loop) =>
      && loop in s.loops && s.loops[loop].Dialing? && s.shared.ready in s.shared.readyChannels
      && s' == s.(shared := Activate(s.shared), loops := s.loops[loop := Exiting])
    case LoopEnds(loop) =>
      && loop in s.loops && s.loops[loop].Exiting?
      && s' == s.(shared := s.shared.(reconnecting := false), loops := s.loops - {loop})
    case Disconnect(handler, ready) =>
      && handler !in s.teardowns && ready !in s.shared.readyChannels && Current(s.shared, s.shared.generation)
      && s' == s.(shared := Detach(s.shared, ready), teardowns := s.teardowns[handler := Failing(s.shared.generation)])
    case FailPending(handler) =>
      && handler in s.teardowns && s.teardowns[handler].Failing?
      && s' == s.(shared := FailAll(s.shared), teardowns := s.teardowns[handler := Restarting(s.teardowns[handler].generation)])
    case RestartLoop(handler, loop) =>
      && handler in s.teardowns && s.teardowns[handler].Restarting? && loop !in s.loops
      && s' == Spawn(s, loop).(teardowns := s.teardowns - {handler})
    case Attach(request) =>
      && request !in s.requests && s.shared.conn.Some?
      && s' == s.(requests := s.requests[request := Attached(s.shared.generation)])
    case RegisterRequest(request, id, channel) =>
      && request in s.requests && s.requests[request].Attached? && channel !in s.shared.responses
      && s' == s.(shared := Register(s.shared, id, channel),
                  requests := s.requests[request := Registered(s.requests[request].generation, id, channel)])
    case WriteRequest(request) =>
      && request in s.requests && s.requests[request].Registered?
      && var r := s.requests[request];
         s' == s.(requests := s.requests[request :=
           if Current(s.shared, r.generation) then Written(r.generation, r.id, r.channel) else Leaving(r.generation, r.id, r.channel)])
    case GiveUp(request) =>
      && request in s.requests && (s.requests[request].Registered? || s.requests[request].Written?)
      && var r := s.requests[request];
         s' == s.(requests := s.requests[request := Leaving(r.generation, r.id, r.channel)])
    case RemovePending(request) =>
      && request in s.requests && s.requests[request].Leaving?
      && s' == s.(shared := Forget(s.shared, s.requests[request].id), requests := s.requests[request := Finished])
    case Receive(request) =>
      && request in s.requests && s.requests[request].Written?
      && s.requests[request].channel in s.shared.responses && !s.shared.responses[s.requests[request].channel].Open?
      && s' == s.(requests := s.requests[request := Finished])
    case TakeResponse(delivery, id) =>
      && delivery !in s.deliveries && id in s.shared.pending
      && s' == s.(shared := Forget(s.shared, id), deliveries := s.deliveries[delivery := Sending(s.shared.pending[id])])
    case SendResponse(delivery) =>
      && delivery in s.deliveries && s.deliveries[delivery].Sending? && s.deliveries[delivery].channel in s.shared.responses
      && s' == s.(shared := Deliver(s.shared, s.deliveries[delivery].channel),
                  deliveries := s.deliveries[delivery := Closing(s.deliveries[delivery].channel)])
    case CloseResponse(delivery) =>
      && delivery in s.deliveries && s.deliveries[delivery].Closing? && s.deliveries[delivery].channel in s.shared.responses
      && s' == s.(shared := IpcClient.CloseResponse(s.shared, s.deliveries[delivery].channel), deliveries := s.deliveries - {delivery})
    case CloseSignal =>
      && s.closer.NotClosing?
      && s' == s.(shared := s.shared.(closed := true), closer := Detaching)
    case CloseDetach(ready) =>
      && s.closer.Detaching? && ready !in s.shared.readyChannels
      && s' == s.(shared := Detach(s.shared, ready), closer := FailingAll)
    case CloseFail =>
      && s.closer.FailingAll?
      && s' == s.(shared := FailAll(s.shared), closer := Done)
  }

  // ---------------------------------------------------------------- connections

  /** A loop that may still activate a connection. */
  predicate Hunting(l: Loop) {
    l.Starting? || l.Dialing?
  }

  /** One right to connect goes round: from Start to a loop, to the connection that the loop activates, to the
      handler that tears it down, and back to a loop. Nobody else touches the ready channel. */
  ghost predicate ConnInv(s: System) {
    var c := s.shared;
    && (c.reconnecting <==> s.loops != map[])
    && (forall l, m :: l in s.loops && m in s.loops ==> l == m)
    && (forall t, u :: t in s.teardowns && u in s.teardowns ==> t == u)
    && (!s.started ==> s.loops == map[] && s.teardowns == map[] && c.conn.None?)
    && (forall l :: l in s.loops && Hunting(s.loops[l]) ==> s.teardowns == map[] && c.conn.None?)
    && (s.teardowns != map[] ==> c.conn.None?)
    && (c.conn.Some? ==> c.conn.value == c.generation)
    && (forall t :: t in s.teardowns ==> s.teardowns[t].generation == c.generation)
  }

  ghost predicate ReadyInv(c: Shared) {
    && c.ready in c.readyChannels
    && (forall r :: r in c.readyChannels ==> c.readyChannels[r] in {Open, Closed(false)})
    && (c.readyChannels[c.ready] == Closed(false) <==> c.conn.Some?)
  }

  lemma LoopStep(s: System, a: Action, s': System)
    requires ConnInv(s) && Next(s, a, s') && (a.LoopDials? || a.LoopQuits? || a.LoopRetries? || a.LoopActivates? || a.LoopEnds?)
    ensures ConnInv(s')
  {
    if a.LoopEnds? {
      assert s'.loops == map[];
    }
  }

  lemma HandlerStep(s: System, a: Action, s': System)
    requires ConnInv(s) && Next(s, a, s') && (a.Start? || a.Disconnect? || a.FailPending? || a.RestartLoop?)
    ensures ConnInv(s')
  {
    if a.RestartLoop? {
      assert s'.teardowns == map[];
    }
  }

  lemma ConnStep(s: System, a: Action, s': System)
    requires ConnInv(s) && Next(s, a, s')
    ensures ConnInv(s')
  {
    if a.LoopDials? || a.LoopQuits? || a.LoopRetries? || a.LoopActivates? || a.LoopEnds? {
      LoopStep(s, a, s');
    } else if a.Start? || a.Disconnect? || a.FailPending? || a.RestartLoop? {
      HandlerStep(s, a, s');
    } else {
      assert s'.loops == s.loops && s'.teardowns == s.teardowns && s'.started == s.started;
      assert s'.shared.conn.Some? ==> s'.shared.conn == s.shared.conn;
    }
  }

  lemma ReadyStep(s: System, a: Action, s': System)
    requires ConnInv(s) && ReadyInv(s.shared) && Next(s, a, s')
    ensures ReadyInv(s'.shared)
  {
    if a.LoopActivates? {
      ActivateReady(s, a, s');
    } else if a.Disconnect? || a.CloseDetach? {
      DetachReady(s, a, s');
    } else {
      QuietReady(s, a, s');
    }
    hide Next, ConnInv;
  }

  lemma ActivateReady(s: System, a: Action, s': System)
    requires ConnInv(s) && ReadyInv(s.shared) && Next(s, a, s') && a.LoopActivates?
    ensures ReadyInv(s'.shared)
  {
    assert s.shared.conn.None?;
  }

  lemma DetachReady(s: System, a: Action, s': System)
    requires ReadyInv(s.shared) && Next(s, a, s') && (a.Disconnect? || a.CloseDetach?)
    ensures ReadyInv(s'.shared)
  {
    assert s'.shared == Detach(s.shared, a.ready);
  }

  lemma QuietReady(s: System, a: Action, s': System)
    requires Next(s, a, s') && !a.LoopActivates? && !a.Disconnect? && !a.CloseDetach?
    ensures s'.shared.ready == s.shared.ready && s'.shared.readyChannels == s.shared.readyChannels && s'.shared.conn == s.shared.conn
  {
  }

  // ---------------------------------------------------------------- response channels

  predicate DeliveryOk(c: Shared, d: Delivery) {
    d.channel in c.responses && c.responses[d.channel] == if d.Sending? then Open else Holding
  }

  /** A channel is pending under one id, or with one reader, or with nobody; only pending and unsent ones are open. */
  ghost predicate ChannelInv(s: System) {
    var c := s.shared;
    && Injective(c.pending)
    && (forall n :: n in c.responses ==> c.responses[n].Sound())
    && (forall i :: i in c.pending ==> c.pending[i] in c.responses && c.responses[c.pending[i]] == Open)
    && (forall d :: d in s.deliveries ==> DeliveryOk(c, s.deliveries[d]))
    && (forall d, i :: d in s.deliveries && i in c.pending ==> s.deliveries[d].channel != c.pending[i])
    && (forall d, e :: d in s.deliveries && e in s.deliveries && s.deliveries[d].channel == s.deliveries[e].channel ==> d == e)
  }

  /** Closing the pending channels leaves every delivery's channel as it was. */
  lemma FailKeepsDeliveries(s: System, s': System, d: nat)
    requires ChannelInv(s) && s'.deliveries == s.deliveries && d in s.deliveries
    requires s'.shared.responses == CloseListed(s.shared.responses, s.shared.pending.Values)
    ensures DeliveryOk(s'.shared, s.deliveries[d])
  {
    assert s.deliveries[d].channel !in s.shared.pending.Values;
  }

  lemma FailKeepsSound(s: System, channels: map<nat, Channel>)
    requires ChannelInv(s) && channels == CloseListed(s.shared.responses, s.shared.pending.Values)
    ensures forall n :: n in channels ==> channels[n].Sound()
  {
  }

  lemma FailStepChannels(s: System, a: Action, s': System)
    requires ChannelInv(s) && Next(s, a, s') && (a.FailPending? || a.CloseFail?)
    ensures ChannelInv(s')
  {
    FailAllOnce(s.shared);
    assert s'.shared == FailAll(s.shared) && s'.deliveries == s.deliveries;
    hide FailAll, CloseListed, Next, DeliveryOk, Channel.Sound;
    FailKeepsSound(s, s'.shared.responses);
    forall d | d in s'.deliveries
      ensures DeliveryOk(s'.shared, s'.deliveries[d])
    {
      FailKeepsDeliveries(s, s', d);
    }
  }

  lemma RegisterStepChannels(s: System, a: Action, s': System)
    requires ChannelInv(s) && Next(s, a, s') && a.RegisterRequest?
    ensures ChannelInv(s')
  {
  }

  lemma TakeStepChannels(s: System, a: Action, s': System)
    requires ChannelInv(s) && Next(s, a, s') && a.TakeResponse?
    ensures ChannelInv(s')
  {
  }

  lemma RemoveStepChannels(s: System, a: Action, s': System)
    requires ChannelInv(s) && Next(s, a, s') && a.RemovePending?
    ensures ChannelInv(s')
  {
  }

  lemma SendStepChannels(s: System, a: Action, s': System)
    requires ChannelInv(s) && Next(s, a, s') && a.SendResponse?
    ensures ChannelInv(s')
  {
  }

  lemma CloseStepChannels(s: System, a: Action, s': System)
    requires ChannelInv(s) && Next(s, a, s') && a.CloseResponse?
    ensures ChannelInv(s')
  {
  }

  predicate TouchesChannels(a: Action) {
    a.FailPending? || a.CloseFail? || a.RegisterRequest? || a.TakeResponse? || a.RemovePending? || a.SendResponse? || a.CloseResponse?
  }

  lemma QuietStepChannels(s: System, a: Action, s': System)
    requires Next(s, a, s') && !TouchesChannels(a)
    ensures s'.shared.pending == s.shared.pending && s'.shared.responses == s.shared.responses && s'.deliveries == s.deliveries
  {
  }

  lemma SameChannels(s: System, s': System)
    requires ChannelInv(s)
    requires s'.shared.pending == s.shared.pending && s'.shared.responses == s.shared.responses && s'.deliveries == s.deliveries
    ensures ChannelInv(s')
  {
  }

  lemma ChannelStep(s: System, a: Action, s': System)
    requires ChannelInv(s) && Next(s, a, s')
    ensures ChannelInv(s')
  {
    hide Next, ChannelInv;
    if a.FailPending? || a.CloseFail? {
      FailStepChannels(s, a, s');
    } else if a.RegisterRequest? {
      RegisterStepChannels(s, a, s');
    } else if a.TakeResponse? {
      TakeStepChannels(s, a, s');
    } else if a.RemovePending? {
      RemoveStepChannels(s, a, s');
    } else if a.SendResponse? {
      SendStepChannels(s, a, s');
    } else if a.CloseResponse? {
      CloseStepChannels(s, a, s');
    } else {
      QuietStepChannels(s, a, s');
      SameChannels(s, s');
    }
  }

  // ---------------------------------------------------------------- requests

  ghost predicate FailsSoon(s: System, generation: nat) {
    s.closer.FailingAll? || exists t :: t in s.teardowns && s.teardowns[t] == Failing(generation)
  }

  ghost predicate RequestOk(s: System, r: Request) {
    && (!r.Finished? ==> r.generation <= s.shared.generation)
    && (!r.Finished? && !r.Attached? ==> r.channel in s.shared.responses)
    && (r.Written? && r.PendingIn(s.shared) ==> Current(s.shared, r.generation) || FailsSoon(s, r.generation))
  }

  /** A request that was written and is still pending has its connection, or somebody is about to fail it. */
  ghost predicate RequestInv(s: System) {
    forall r :: r in s.requests ==> RequestOk(s, s.requests[r])
  }

  /** A request that a step leaves alone. */
  lemma BystanderStep(s: System, a: Action, s': System, r: Request)
    requires ConnInv(s) && Next(s, a, s') && RequestOk(s, r)
    ensures RequestOk(s', r)
  {
    hide ConnInv, RequestOk, FailsSoon;
    if a.FailPending? || a.CloseFail? {
      BystanderFail(s, a, s', r);
    } else if a.Disconnect? || a.CloseDetach? {
      BystanderDetach(s, a, s', r);
    } else if a.LoopActivates? || a.RestartLoop? {
      BystanderConnect(s, a, s', r);
    } else {
      BystanderQuiet(s, a, s', r);
    }
  }

  lemma BystanderFail(s: System, a: Action, s': System, r: Request)
    requires Next(s, a, s') && RequestOk(s, r) && (a.FailPending? || a.CloseFail?)
    ensures RequestOk(s', r)
  {
    assert s'.shared.pending == map[];
    assert s'.shared.responses.Keys == s.shared.responses.Keys;
  }

  lemma BystanderDetach(s: System, a: Action, s': System, r: Request)
    requires ConnInv(s) && Next(s, a, s') && RequestOk(s, r) && (a.Disconnect? || a.CloseDetach?)
    ensures RequestOk(s', r)
  {
    assert s'.shared == Detach(s.shared, a.ready);
    if a.Disconnect? {
      assert a.handler in s'.teardowns && s'.teardowns[a.handler] == Failing(s.shared.generation);
    }
  }

  lemma BystanderConnect(s: System, a: Action, s': System, r: Request)
    requires ConnInv(s) && Next(s, a, s') && RequestOk(s, r) && (a.LoopActivates? || a.RestartLoop?)
    ensures RequestOk(s', r)
  {
    if a.RestartLoop? {
      assert forall t :: t in s.teardowns && t != a.handler ==> t in s'.teardowns && s'.teardowns[t] == s.teardowns[t];
    } else {
      assert s.shared.conn.None?;
    }
  }

  lemma BystanderQuiet(s: System, a: Action, s': System, r: Request)
    requires Next(s, a, s') && RequestOk(s, r)
    requires !a.FailPending? && !a.CloseFail? && !a.Disconnect? && !a.CloseDetach? && !a.LoopActivates? && !a.RestartLoop?
    ensures RequestOk(s', r)
  {
    QuietShape(s, a, s', r);
    hide Next;
  }

  lemma QuietShape(s: System, a: Action, s': System, r: Request)
    requires Next(s, a, s') && (!r.Finished? && !r.Attached? ==> r.channel in s.shared.responses)
    requires !a.FailPending? && !a.CloseFail? && !a.Disconnect? && !a.CloseDetach? && !a.LoopActivates? && !a.RestartLoop?
    ensures s'.teardowns == s.teardowns && (s'.closer == s.closer || s.closer.NotClosing?)
    ensures s'.shared.generation == s.shared.generation && s'.shared.conn == s.shared.conn
    ensures s.shared.responses.Keys <= s'.shared.responses.Keys
    ensures r.PendingIn(s'.shared) ==> r.PendingIn(s.shared)
  {
  }

  lemma RequestStep(s: System, a: Action, s': System)
    requires ConnInv(s) && RequestInv(s) && Next(s, a, s')
    ensures RequestInv(s')
  {
    forall r | r in s'.requests
      ensures RequestOk(s', s'.requests[r])
    {
      if r in s.requests && s'.requests[r] == s.requests[r] {
        BystanderStep(s, a, s', s.requests[r]);
      } else {
        ActorStep(s, a, s', r);
      }
    }
  }

  lemma ActorStep(s: System, a: Action, s': System, r: nat)
    requires ConnInv(s) && RequestInv(s) && Next(s, a, s')
    requires r in s'.requests && !(r in s.requests && s'.requests[r] == s.requests[r])
    ensures RequestOk(s', s'.requests[r])
  {
    if r in s.requests {
      assert RequestOk(s, s.requests[r]);
    }
    assert s'.teardowns == s.teardowns && s'.shared.generation == s.shared.generation && s'.shared.conn == s.shared.conn;
    hide ConnInv;
  }

  /** A request is pending from its registration on, under its own id and channel, which is open. */
  lemma RegisteredIsPending(s: System, a: Action, s': System)
    requires Next(s, a, s') && a.RegisterRequest?
    ensures a.request in s'.requests && s'.requests[a.request].PendingIn(s'.shared)
    ensures a.channel in s'.shared.responses && s'.shared.responses[a.channel] == Open
    ensures forall r :: r in s.requests && r != a.request && s.requests[r].PendingIn(s.shared) && s.requests[r].id != a.id ==> s.requests[r].PendingIn(s'.shared)
  {
  }

  /** Taking a response ends exactly one request's wait: its channel is the reader's, and others stay pending. */
  lemma TakenIsNoLongerPending(s: System, a: Action, s': System)
    requires Next(s, a, s') && a.TakeResponse?
    ensures a.id !in s'.shared.pending && s'.deliveries[a.delivery] == Sending(s.shared.pending[a.id])
    ensures forall id :: id in s.shared.pending && id != a.id ==> id in s'.shared.pending && s'.shared.pending[id] == s.shared.pending[id]
  {
  }

  // ---------------------------------------------------------------- runs

  ghost predicate Inv(s: System) {
    ConnInv(s) && ReadyInv(s.shared) && ChannelInv(s) && RequestInv(s)
  }

  ghost predicate Run(states: seq<System>, actions: seq<Action>) {
    && |states| == |actions| + 1 && Initial(states[0])
    && forall i :: 0 <= i < |actions| ==> Next(states[i], actions[i], states[i + 1])
  }

  lemma InvStep(s: System, a: Action, s': System)
    requires Inv(s) && Next(s, a, s')
    ensures Inv(s')
  {
    hide Next, ConnInv, ReadyInv, ChannelInv, RequestInv;
    ConnStep(s, a, s');
    ReadyStep(s, a, s');
    ChannelStep(s, a, s');
    RequestStep(s, a, s');
  }

  lemma {:induction false} InvAt(states: seq<System>, actions: seq<Action>, i: nat)
    requires Run(states, actions) && i < |states|
    ensures Inv(states[i])
  {
    hide Next;
    if i > 0 {
      InvAt(states, actions, i - 1);
      InvStep(states[i - 1], actions[i - 1], states[i]);
    }
  }

  /** In every state of every interleaving: at most one reconnect loop exists, the ready channel is closed exactly
      when there is a connection, and no ready channel has been closed twice. */
  lemma OneLoopAndReady(states: seq<System>, actions: seq<Action>, i: nat)
    requires Run(states, actions) && i < |states|
    ensures forall l, m :: l in states[i].loops && m in states[i].loops ==> l == m
    ensures states[i].shared.ready in states[i].shared.readyChannels
    ensures states[i].shared.readyChannels[states[i].shared.ready].Closed? <==> states[i].shared.conn.Some?
    ensures forall r :: r in states[i].shared.readyChannels ==> states[i].shared.readyChannels[r].Sound()
  {
    InvAt(states, actions, i);
  }

  /** In every state of every interleaving no response channel has been sent to twice, closed twice, or sent to after
      being closed, whoever raced for it. */
  lemma ResponsesAreSafe(states: seq<System>, actions: seq<Action>, i: nat)
    requires Run(states, actions) && i < |states|
    ensures forall n :: n in states[i].shared.responses ==> states[i].shared.responses[n].Sound()
  {
    InvAt(states, actions, i);
  }

  /** Once the connection of a generation is gone and nobody is about to fail its requests, no request that was written
      on it is still pending. */
  lemma NoWrittenRequestIsLost(states: seq<System>, actions: seq<Action>, i: nat, r: nat)
    requires Run(states, actions) && i < |states|
    requires r in states[i].requests && states[i].requests[r].Written?
    requires !Current(states[i].shared, states[i].requests[r].generation)
    requires !states[i].closer.FailingAll?
    requires forall t :: t in states[i].teardowns ==> states[i].teardowns[t] != Failing(states[i].requests[r].generation)
    ensures !states[i].requests[r].PendingIn(states[i].shared)
  {
    InvAt(states, actions, i);
    assert RequestOk(states[i], states[i].requests[r]);
  }

  /** A disconnect handler fails only requests of its own generation or older ones: when it runs, no newer
      generation exists. */
  lemma TeardownSparesNewer(states: seq<System>, actions: seq<Action>, i: nat, r: nat)
    requires Run(states, actions) && i < |actions| && actions[i].FailPending?
    requires r in states[i].requests && states[i].requests[r].PendingIn(states[i].shared)
    ensures actions[i].handler in states[i].teardowns
    ensures states[i].requests[r].generation <= states[i].teardowns[actions[i].handler].generation
  {
    InvAt(states, actions, i);
    assert RequestOk(states[i], states[i].requests[r]);
    assert Next(states[i], actions[i], states[i + 1]);
  }

  ghost predicate DistinctIds(s: System) {
    forall q, r :: q in s.requests && r in s.requests && q != r
      && !s.requests[q].Attached? && !s.requests[q].Finished? && !s.requests[r].Attached? && !s.requests[r].Finished?
      ==> s.requests[q].id != s.requests[r].id
  }

  /** With distinct request ids, giving up on one request leaves every other one pending. */
  lemma GivingUpSparesOthers(s: System, a: Action, s': System, r: nat)
    requires Next(s, a, s') && a.RemovePending? && DistinctIds(s)
    requires r in s.requests && r != a.request && s.requests[r].PendingIn(s.shared)
    ensures s'.requests[r].PendingIn(s'.shared)
  {
    assert s.requests[r].id != s.requests[a.request].id;
  }
}
