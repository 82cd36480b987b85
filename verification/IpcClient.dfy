/** The shared state of the IPC client and its lock regions. A connection is named by the generation
    under which it was activated; channels are numbered and remember what was done to them. */
module IpcClient {
  import opened Common

  /** A response channel with room for one value, or a ready channel that is only ever closed. Sending on
      or closing a closed channel panics; a second send would block. */
  datatype Channel = Open | Holding | Closed(delivered: bool) | Blocked | Panicked
  {
    predicate Sound() {
      Open? || Holding? || Closed?
    }

    function Send(): Channel {
      match this
      case Open => Holding
      case Holding => Blocked
      case Blocked => Blocked
      case _ => Panicked
    }

    function Close(): Channel {
      match this
      case Open => Closed(false)
      case Holding => Closed(true)
      case _ => Panicked
    }
  }

  datatype Shared = Shared(
    closed: bool,
    conn: Option<nat>,
    generation: nat,
    ready: nat,
    readyChannels: map<nat, Channel>,
    reconnecting: bool,
    pending: map<string, nat>,
    responses: map<nat, Channel>)

  predicate Current(s: Shared, generation: nat) {
    s.conn == Some(generation) && s.generation == generation
  }

  // ---------------------------------------------------------------- what each lock region does

  function Activate(s: Shared): Shared
    requires s.ready in s.readyChannels
  {
    s.(conn := Some(s.generation + 1), generation := s.generation + 1,
       readyChannels := s.readyChannels[s.ready := s.readyChannels[s.ready].Close()])
  }

  /** Drops the connection and installs the new ready channel `ready`. */
  function Detach(s: Shared, ready: nat): Shared {
    s.(conn := None, ready := ready, readyChannels := s.readyChannels[ready := Open])
  }

  predicate WouldSpawn(s: Shared) {
    !s.reconnecting && !s.closed
  }

  function EnsureLoop(s: Shared): Shared {
    if WouldSpawn(s) then s.(reconnecting := true) else s
  }

  function Register(s: Shared, id: string, channel: nat): Shared {
    s.(pending := s.pending[id := channel], responses := s.responses[channel := Open])
  }

  function Forget(s: Shared, id: string): Shared {
    s.(pending := s.pending - {id})
  }

  predicate PendingTwice(s: Shared, channel: nat) {
    exists i, j :: i in s.pending && j in s.pending && i != j && s.pending[i] == channel && s.pending[j] == channel
  }

  /** Closes the channel of every pending entry, once per entry, and empties the map. */
  function FailAll(s: Shared): Shared {
    s.(pending := map[],
       responses := map c | c in s.responses ::
         if PendingTwice(s, c) then Panicked
         else if c in s.pending.Values then s.responses[c].Close()
         else s.responses[c])
  }

  function Deliver(s: Shared, channel: nat): Shared
    requires channel in s.responses
  {
    s.(responses := s.responses[channel := s.responses[channel].Send()])
  }

  function CloseResponse(s: Shared, channel: nat): Shared
    requires channel in s.responses
  {
    s.(responses := s.responses[channel := s.responses[channel].Close()])
  }

  /** No channel is pending under two request ids. */
  predicate Injective(pending: map<string, nat>) {
    forall i, j :: i in pending && j in pending && pending[i] == pending[j] ==> i == j
  }

  lemma WithoutOne(pending: map<string, nat>, id: string)
    requires Injective(pending) && id in pending
    ensures Injective(pending - {id}) && (pending - {id}).Values == pending.Values - {pending[id]}
    ensures |pending - {id}| == |pending| - 1
  {
    var rest := pending - {id};
    assert pending.Keys == rest.Keys + {id};
    forall c | c in pending.Values && c != pending[id]
      ensures c in rest.Values
    {
      var k :| k in pending && pending[k] == c;
      assert k in rest && rest[k] == c;
    }
  }

  function CloseListed(channels: map<nat, Channel>, listed: set<nat>): map<nat, Channel> {
    map c | c in channels :: if c in listed then channels[c].Close() else channels[c]
  }

  lemma CloseOneMore(channels: map<nat, Channel>, done: set<nat>, c: nat)
    requires c in channels && c !in done
    ensures var r := CloseListed(channels, done); c in r && r[c := r[c].Close()] == CloseListed(channels, done + {c})
  {
  }

  lemma NothingListed(channels: map<nat, Channel>, listed: set<nat>)
    requires listed == {}
    ensures CloseListed(channels, listed) == channels
  {
  }

  /** While no channel is pending twice, failing all of them closes each exactly once. */
  lemma FailAllOnce(s: Shared)
    requires Injective(s.pending)
    ensures FailAll(s) == s.(pending := map[], responses := CloseListed(s.responses, s.pending.Values))
  {
    assert forall c :: c in s.responses ==> !PendingTwice(s, c);
  }

  // ---------------------------------------------------------------- the client object

  class Client {
    var closed: bool
    var conn: Option<nat>
    var generation: nat
    var ready: nat
    var readyChannels: map<nat, Channel>
    var reconnecting: bool
    var pending: map<string, nat>
    var responses: map<nat, Channel>

    ghost function View(): Shared
      reads this
    {
      Shared(closed, conn, generation, ready, readyChannels, reconnecting, pending, responses)
    }

    constructor ()
      ensures View() == Shared(false, None, 0, 0, map[0 := Open], false, map[], map[])
    {
      closed, conn, generation, ready, reconnecting := false, None, 0, 0, false;
      readyChannels, pending, responses := map[0 := Open], map[], map[];
    }

    method ActivateConnection() returns (g: nat)
      requires ready in readyChannels
      modifies this
      ensures View() == Activate(old(View())) && g == generation && Current(View(), g)
      ensures generation == old(generation) + 1 && conn == Some(generation) && ready == old(ready) && readyChannels.Keys == old(readyChannels).Keys
      ensures old(readyChannels[ready]) == Open ==> readyChannels[ready] == Closed(false)
      ensures reconnecting == old(reconnecting) && closed == old(closed) && pending == old(pending) && responses == old(responses)
    {
      generation := generation + 1;
      conn := Some(generation);
      readyChannels := readyChannels[ready := readyChannels[ready].Close()];
      g := generation;
    }

    /** The state region of a disconnect: only the current connection of the current generation is dropped. */
    method MarkDisconnected(g: nat, newReady: nat) returns (mine: bool)
      modifies this
      ensures mine <==> Current(old(View()), g)
      ensures View() == if mine then Detach(old(View()), newReady) else old(View())
      ensures mine <==> old(conn) == Some(g) && old(generation) == g
      ensures mine ==> conn == None && ready == newReady && readyChannels == old(readyChannels)[newReady := Open]
      ensures generation == old(generation) && reconnecting == old(reconnecting) && closed == old(closed) && pending == old(pending) && responses == old(responses)
    {
      if conn != Some(g) || generation != g {
        return false;
      }
      conn := None;
      ready := newReady;
      readyChannels := readyChannels[newReady := Open];
      return true;
    }

    method EnsureReconnectLoop() returns (spawned: bool)
      modifies this
      ensures spawned <==> WouldSpawn(old(View()))
      ensures View() == EnsureLoop(old(View()))
      ensures spawned <==> !old(reconnecting) && !old(closed)
      ensures reconnecting <==> old(reconnecting) || !old(closed)
      ensures conn == old(conn) && generation == old(generation) && ready == old(ready) && pending == old(pending)
    {
      if reconnecting || closed {
        return false;
      }
      reconnecting := true;
      return true;
    }

    /** Closes and forgets every pending response channel. */
    method FailPending()
      requires Injective(pending) && pending.Values <= responses.Keys
      modifies this`pending, this`responses
      ensures pending == map[] && responses == FailAll(old(View())).responses
      ensures responses.Keys == old(responses).Keys
      ensures forall c :: c in responses ==> responses[c] == if c in old(pending).Values then old(responses)[c].Close() else old(responses)[c]
    {
      FailAllOnce(View());
      hide Injective, FailAll, CloseListed;
      ghost var listed, channels := pending.Values, responses;
      NothingListed(channels, listed - pending.Values);
      while pending != map[]
        invariant Injective(pending) && pending.Values <= listed <= channels.Keys
        invariant responses == CloseListed(channels, listed - pending.Values)
        decreases |pending|
      {
        FailOne(channels, listed);
      }
      assert listed - pending.Values == listed;
    }

    method FailOne(ghost channels: map<nat, Channel>, ghost listed: set<nat>)
      requires pending != map[] && Injective(pending) && pending.Values <= listed <= channels.Keys
      requires responses == CloseListed(channels, listed - pending.Values)
      modifies this`pending, this`responses
      ensures Injective(pending) && pending.Values <= listed && |pending| < |old(pending)|
      ensures responses == CloseListed(channels, listed - pending.Values)
    {
      var id :| id in pending;
      var channel := pending[id];
      WithoutOne(pending, id);
      CloseOneMore(channels, listed - pending.Values, channel);
      hide Injective;
      assert listed - (pending - {id}).Values == (listed - pending.Values) + {channel};
      responses := responses[channel := responses[channel].Close()];
      pending := pending - {id};
    }

    /** A caller enters its request with a new channel. */
    method AddPending(id: string, channel: nat)
      requires channel !in responses
      modifies this
      ensures View() == Register(old(View()), id, channel)
      ensures pending == old(pending)[id := channel] && responses == old(responses)[channel := Open]
    {
      pending := pending[id := channel];
      responses := responses[channel := Open];
    }

    method RemovePending(id: string)
      modifies this
      ensures View() == Forget(old(View()), id)
      ensures id !in pending && (forall x :: x != id ==> (x in pending <==> x in old(pending)) && (x in pending ==> pending[x] == old(pending)[x]))
      ensures responses == old(responses) && conn == old(conn)
    {
      if id in pending {
        pending := pending - {id};
      }
      assert id !in old(pending) ==> old(pending) - {id} == old(pending);
    }

    /** The reader takes a response's channel out of the map before it sends on it. */
    method TakePending(id: string) returns (channel: Option<nat>)
      modifies this
      ensures channel == if id in old(pending) then Some(old(pending)[id]) else None
      ensures View() == Forget(old(View()), id)
      ensures id !in pending && (forall x :: x != id ==> (x in pending <==> x in old(pending)) && (x in pending ==> pending[x] == old(pending)[x]))
      ensures responses == old(responses) && conn == old(conn)
    {
      channel := if id in pending then Some(pending[id]) else None;
      pending := pending - {id};
    }
  }
}
