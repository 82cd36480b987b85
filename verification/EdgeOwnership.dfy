/** Who owns a request or a session on the edge WebSocket server. */
module EdgeOwnership {
  import opened Common

  /** The five maps of the server. Clients are numbered. */
  datatype Owners = Owners(
    clients: set<nat>,
    clientRequests: map<nat, set<string>>,
    clientSessions: map<nat, set<string>>,
    requestOwners: map<string, nat>,
    sessionOwners: map<string, nat>)

  const NOBODY := Owners({}, map[], map[], map[], map[])

  function IdsOf(sets: map<nat, set<string>>, client: nat): set<string> {
    if client in sets then sets[client] else {}
  }

  /** Every owner entry is known to its owner. The converse does not hold: a client keeps ids that another one
      has taken over. */
  predicate Known(owners: map<string, nat>, sets: map<nat, set<string>>) {
    forall id :: id in owners ==> id in IdsOf(sets, owners[id])
  }

  predicate OneWay(o: Owners) {
    Known(o.requestOwners, o.clientRequests) && Known(o.sessionOwners, o.clientSessions)
  }

  // ---------------------------------------------------------------- what each operation does

  function Joined(o: Owners, client: nat): Owners {
    o.(clients := o.clients + {client}, clientRequests := o.clientRequests[client := {}], clientSessions := o.clientSessions[client := {}])
  }

  function Left(o: Owners, client: nat): Owners {
    o.(clients := o.clients - {client},
       clientRequests := o.clientRequests - {client}, clientSessions := o.clientSessions - {client},
       requestOwners := o.requestOwners - IdsOf(o.clientRequests, client),
       sessionOwners := o.sessionOwners - IdsOf(o.clientSessions, client))
  }

  function Registered(o: Owners, client: nat, request: string): Owners {
    if TrimSpace(request) == "" then o
    else o.(requestOwners := o.requestOwners[TrimSpace(request) := client],
            clientRequests := o.clientRequests[client := IdsOf(o.clientRequests, client) + {TrimSpace(request)}])
  }

  function Bound(o: Owners, client: nat, session: string): Owners {
    if TrimSpace(session) == "" then o
    else o.(sessionOwners := o.sessionOwners[TrimSpace(session) := client],
            clientSessions := o.clientSessions[client := IdsOf(o.clientSessions, client) + {TrimSpace(session)}])
  }

  /** The owner of an outgoing packet: by request first, then by session. */
  function PacketOwner(o: Owners, request: string, session: string): Option<nat> {
    if request != "" && request in o.requestOwners then Some(o.requestOwners[request])
    else if session != "" && session in o.sessionOwners then Some(o.sessionOwners[session])
    else None
  }

  /** Looking up a packet's owner by request also gives that owner the packet's session. */
  function Routed(o: Owners, request: string, session: string): Owners {
    if request != "" && request in o.requestOwners && session != "" then Bound(o, o.requestOwners[request], session) else o
  }

  function Targets(o: Owners, request: string, session: string): set<nat> {
    var owner := PacketOwner(o, request, session);
    if owner.Some? then {owner.value} else o.clients
  }

  // ---------------------------------------------------------------- the server object

  class EdgeServer {
    var clients: set<nat>
    var clientRequests: map<nat, set<string>>
    var clientSessions: map<nat, set<string>>
    var requestOwners: map<string, nat>
    var sessionOwners: map<string, nat>

    ghost function View(): Owners
      reads this
    {
      Owners(clients, clientRequests, clientSessions, requestOwners, sessionOwners)
    }

    constructor ()
      ensures View() == NOBODY
    {
      clients, clientRequests, clientSessions := {}, map[], map[];
      requestOwners, sessionOwners := map[], map[];
    }

    method AddClient(client: nat)
      modifies this
      ensures View() == Joined(old(View()), client)
      ensures clients == old(clients) + {client} && client in clientRequests && client in clientSessions
      ensures clientRequests[client] == {} && clientSessions[client] == {}
    {
      clients := clients + {client};
      clientRequests := clientRequests[client := {}];
      clientSessions := clientSessions[client := {}];
    }

    /** Removes a client with all owner entries of its ids, and lists each of its sessions once for stopping. */
    method RemoveClient(client: nat) returns (stopped: seq<string>)
      modifies this
      ensures View() == Left(old(View()), client)
      ensures clients == old(clients) - {client} && client !in clientRequests && client !in clientSessions
      ensures forall id :: id in requestOwners <==> id in old(requestOwners) && !(client in old(clientRequests) && id in old(clientRequests)[client])
      ensures forall id :: id in sessionOwners <==> id in old(sessionOwners) && !(client in old(clientSessions) && id in old(clientSessions)[client])
      ensures (set x | x in stopped) == IdsOf(old(clientSessions), client)
      ensures |stopped| == |IdsOf(old(clientSessions), client)|
    {
      stopped := [];
      if client in clientRequests {
        var requests := clientRequests[client];
        requestOwners := DeleteAll(requestOwners, requests);
        clientRequests := clientRequests - {client};
      }
      if client in clientSessions {
        var sessions := clientSessions[client];
        stopped := Listing(sessions);
        sessionOwners := DeleteAll(sessionOwners, sessions);
        clientSessions := clientSessions - {client};
      }
      clients := clients - {client};
      assert old(requestOwners) - {} == old(requestOwners) && old(sessionOwners) - {} == old(sessionOwners);
      assert client !in old(clientRequests) ==> old(clientRequests) - {client} == old(clientRequests);
      assert client !in old(clientSessions) ==> old(clientSessions) - {client} == old(clientSessions);
    }

    method RegisterRequestOwner(client: nat, requestId: string)
      modifies this
      ensures View() == Registered(old(View()), client, requestId)
      ensures var id := TrimSpace(requestId);
        if id == "" then View() == old(View())
        else
          && requestOwners == old(requestOwners)[id := client] && client in clientRequests
          && clientRequests[client] == {id} + (if client in old(clientRequests) then old(clientRequests)[client] else {})
          && clients == old(clients) && sessionOwners == old(sessionOwners) && clientSessions == old(clientSessions)
    {
      var id := TrimSpace(requestId);
      if id == "" {
        return;
      }
      if client !in clientRequests {
        clientRequests := clientRequests[client := {}];
      }
      requestOwners := requestOwners[id := client];
      clientRequests := clientRequests[client := clientRequests[client] + {id}];
      assert View().clientRequests == Registered(old(View()), client, requestId).clientRequests;
    }

    method BindSessionOwner(client: nat, sessionId: string)
      modifies this
      ensures View() == Bound(old(View()), client, sessionId)
      ensures var id := TrimSpace(sessionId);
        if id == "" then View() == old(View())
        else
          && sessionOwners == old(sessionOwners)[id := client] && client in clientSessions
          && clientSessions[client] == {id} + (if client in old(clientSessions) then old(clientSessions)[client] else {})
          && clients == old(clients) && requestOwners == old(requestOwners) && clientRequests == old(clientRequests)
    {
      var id := TrimSpace(sessionId);
      if id == "" {
        return;
      }
      if client !in clientSessions {
        clientSessions := clientSessions[client := {}];
      }
      sessionOwners := sessionOwners[id := client];
      clientSessions := clientSessions[client := clientSessions[client] + {id}];
      assert View().clientSessions == Bound(old(View()), client, sessionId).clientSessions;
    }

    method BroadcastTargets(requestId: string, sessionId: string) returns (targets: set<nat>)
      modifies this
      ensures targets == Targets(old(View()), requestId, sessionId)
      ensures View() == Routed(old(View()), requestId, sessionId)
      ensures targets ==
        if requestId != "" && requestId in old(requestOwners) then {old(requestOwners)[requestId]}
        else if sessionId != "" && sessionId in old(sessionOwners) then {old(sessionOwners)[sessionId]}
        else old(clients)
      ensures clients == old(clients) && requestOwners == old(requestOwners)
      ensures sessionOwners ==
        if requestId != "" && requestId in old(requestOwners) && TrimSpace(sessionId) != ""
        then old(sessionOwners)[TrimSpace(sessionId) := old(requestOwners)[requestId]] else old(sessionOwners)
    {
      assert TrimSpace("") == "";
      if requestId != "" && requestId in requestOwners {
        var owner := requestOwners[requestId];
        if sessionId != "" {
          BindSessionOwner(owner, sessionId);
        }
        return {owner};
      }
      if sessionId != "" && sessionId in sessionOwners {
        return {sessionOwners[sessionId]};
      }
      return clients;
    }

    /** An inbound packet: its request is registered, and it is passed on unless another client owns its session. */
    method HandlePacket(client: nat, requestId: string, sessionId: string) returns (dispatched: bool)
      modifies this
      ensures View() == if requestId == "" then old(View()) else Registered(old(View()), client, requestId)
      ensures requestOwners == if TrimSpace(requestId) == "" then old(requestOwners) else old(requestOwners)[TrimSpace(requestId) := client]
      ensures sessionOwners == old(sessionOwners) && clients == old(clients) && clientSessions == old(clientSessions)
      ensures dispatched <==> sessionId == "" || TrimSpace(sessionId) !in old(sessionOwners) || old(sessionOwners)[TrimSpace(sessionId)] == client
    {
      assert TrimSpace("") == "";
      if requestId != "" {
        RegisterRequestOwner(client, requestId);
      }
      var id := TrimSpace(sessionId);
      if sessionId != "" && !(id !in sessionOwners || sessionOwners[id] == client) {
        return false;
      }
      return true;
    }
  }

  method DeleteAll(owners: map<string, nat>, ids: set<string>) returns (left: map<string, nat>)
    ensures left == owners - ids
  {
    left := owners;
    var rest := ids;
    while rest != {}
      invariant rest <= ids && left == owners - (ids - rest)
      decreases |rest|
    {
      var id :| id in rest;
      left := left - {id};
      rest := rest - {id};
    }
    assert ids - rest == ids;
  }

  method Listing(ids: set<string>) returns (list: seq<string>)
    ensures (set x | x in list) == ids && |list| == |ids|
  {
    list := [];
    var rest := ids;
    while rest != {}
      invariant rest <= ids && (set x | x in list) == ids - rest && |list| + |rest| == |ids|
      decreases |rest|
    {
      var id :| id in rest;
      assert (set x | x in list + [id]) == (set x | x in list) + {id};
      list := list + [id];
      rest := rest - {id};
    }
  }

  // ---------------------------------------------------------------- runs of the server

  /** `running` are the clients whose handler has not returned; `bound` and `stopped` count, per client and session,
      how often the session entered the client's set and how often stop-live was sent for it. */
  datatype System = System(
    owners: Owners,
    running: set<nat>,
    seen: set<nat>,
    bound: map<(nat, string), nat>,
    stopped: map<(nat, string), nat>)

  datatype Event =
    | Connect(client: nat)
    | Message(client: nat, request: string, session: string)
    | Outgoing(request: string, session: string)
    | WriteFailed(client: nat)
    | Exit(client: nat)
    | Shutdown

  function Count(m: map<(nat, string), nat>, client: nat, session: string): nat {
    if (client, session) in m then m[(client, session)] else 0
  }

  /** `m` with one more for every session in `ids`. */
  function Counted(m: map<(nat, string), nat>, client: nat, ids: set<string>): map<(nat, string), nat> {
    m + map id | id in ids :: (client, id) := Count(m, client, id) + 1
  }

  /** The sessions that a change of the maps adds to a client's set. */
  function Entering(o: Owners, o': Owners, client: nat): set<string> {
    IdsOf(o'.clientSessions, client) - IdsOf(o.clientSessions, client)
  }

  function Removed(s: System, client: nat): System {
    s.(owners := Left(s.owners, client), stopped := Counted(s.stopped, client, IdsOf(s.owners.clientSessions, client)))
  }

  ghost predicate Step(s: System, e: Event, s': System) {
    match e
    case Connect(client) =>
      client !in s.seen && s' == s.(owners := Joined(s.owners, client), running := s.running + {client}, seen := s.seen + {client})
    case Message(client, request, session) =>
      client in s.running && s' == s.(owners := if request == "" then s.owners else Registered(s.owners, client, request))
    case Outgoing(request, session) =>
      var o := Routed(s.owners, request, session);
      s' == s.(owners := o,
               bound := if request != "" && request in s.owners.requestOwners
                        then Counted(s.bound, s.owners.requestOwners[request], Entering(s.owners, o, s.owners.requestOwners[request]))
                        else s.bound)
    case WriteFailed(client) =>
      client in s.seen && s' == Removed(s, client)
    case Exit(client) =>
      client in s.running && s' == Removed(s, client).(running := s.running - {client})
    case Shutdown =>
      s' == s.(owners := s.owners.(clients := {}))
  }

  ghost predicate Initial(s: System) {
    s == System(NOBODY, {}, {}, map[], map[])
  }

  /** Only running clients own anything. */
  ghost predicate LiveOwners(s: System) {
    && s.running <= s.seen && s.owners.clients <= s.running
    && s.owners.clientRequests.Keys <= s.running && s.owners.clientSessions.Keys <= s.running
  }

  function Member(o: Owners, client: nat, session: string): nat {
    if session in IdsOf(o.clientSessions, client) then 1 else 0
  }

  ghost predicate Balanced(s: System) {
    forall c, id :: Count(s.stopped, c, id) + Member(s.owners, c, id) == Count(s.bound, c, id)
  }

  lemma CountedOne(m: map<(nat, string), nat>, client: nat, ids: set<string>, c: nat, id: string)
    ensures Count(Counted(m, client, ids), c, id) == Count(m, c, id) + if c == client && id in ids then 1 else 0
  {
  }

  lemma EnterKnown(owners: map<string, nat>, sets: map<nat, set<string>>, client: nat, id: string)
    requires Known(owners, sets)
    ensures Known(owners[id := client], sets[client := IdsOf(sets, client) + {id}])
  {
  }

  lemma LeaveKnown(owners: map<string, nat>, sets: map<nat, set<string>>, client: nat)
    requires Known(owners, sets)
    ensures Known(owners - IdsOf(sets, client), sets - {client})
  {
  }

  lemma RegisteredOneWay(o: Owners, client: nat, request: string)
    requires OneWay(o)
    ensures OneWay(Registered(o, client, request))
  {
    EnterKnown(o.requestOwners, o.clientRequests, client, TrimSpace(request));
    hide Known, TrimSpace;
  }

  lemma BoundOneWay(o: Owners, client: nat, session: string)
    requires OneWay(o)
    ensures OneWay(Bound(o, client, session))
  {
    EnterKnown(o.sessionOwners, o.clientSessions, client, TrimSpace(session));
    hide Known, TrimSpace;
  }

  lemma LeftOneWay(o: Owners, client: nat)
    requires OneWay(o)
    ensures OneWay(Left(o, client))
  {
    LeaveKnown(o.requestOwners, o.clientRequests, client);
    LeaveKnown(o.sessionOwners, o.clientSessions, client);
    hide Known;
  }

  lemma JoinedOneWay(o: Owners, client: nat)
    requires OneWay(o) && client !in o.clientRequests && client !in o.clientSessions
    ensures OneWay(Joined(o, client))
  {
  }

  lemma OneWayStep(s: System, e: Event, s': System)
    requires OneWay(s.owners) && Step(s, e, s') && s.owners.clientRequests.Keys <= s.seen && s.owners.clientSessions.Keys <= s.seen
    ensures OneWay(s'.owners)
  {
    hide TrimSpace, Known, Registered, Bound, Left, Joined;
    match e
    case Connect(client) => JoinedOneWay(s.owners, client);
    case Message(client, request, _) => RegisteredOneWay(s.owners, client, request);
    case Outgoing(request, session) =>
      if request in s.owners.requestOwners {
        BoundOneWay(s.owners, s.owners.requestOwners[request], session);
      }
    case WriteFailed(client) => LeftOneWay(s.owners, client);
    case Exit(client) => LeftOneWay(s.owners, client);
    case Shutdown =>
  }

  lemma LiveOwnersStep(s: System, e: Event, s': System)
    requires OneWay(s.owners) && LiveOwners(s) && Step(s, e, s')
    ensures LiveOwners(s')
  {
    if e.Outgoing? && e.request in s.owners.requestOwners {
      var c := s.owners.requestOwners[e.request];
      assert e.request in IdsOf(s.owners.clientRequests, c);
      assert c in s.owners.clientRequests;
    }
  }

  /** A removal moves the client's sessions from its set to the stops. */
  lemma RemovedBalanced(s: System, client: nat)
    requires Balanced(s)
    ensures Balanced(Removed(s, client))
  {
    var s', ids := Removed(s, client), IdsOf(s.owners.clientSessions, client);
    hide Counted, Count;
    forall c, id
      ensures Count(s'.stopped, c, id) + Member(s'.owners, c, id) == Count(s'.bound, c, id)
    {
      assert Count(s.stopped, c, id) + Member(s.owners, c, id) == Count(s.bound, c, id);
      CountedOne(s.stopped, client, ids, c, id);
    }
  }

  /** A binding counts exactly the session that enters the set. */
  lemma BoundBalanced(s: System, client: nat, session: string, s': System)
    requires Balanced(s) && s'.owners == Bound(s.owners, client, session) && s'.stopped == s.stopped
    requires s'.bound == Counted(s.bound, client, Entering(s.owners, s'.owners, client))
    ensures Balanced(s')
  {
    var ids := Entering(s.owners, s'.owners, client);
    hide Counted, Count, TrimSpace;
    forall c, id
      ensures Count(s'.stopped, c, id) + Member(s'.owners, c, id) == Count(s'.bound, c, id)
    {
      assert Count(s.stopped, c, id) + Member(s.owners, c, id) == Count(s.bound, c, id);
      CountedOne(s.bound, client, ids, c, id);
    }
  }

  /** A step that changes no client's sessions. */
  lemma SameSessionsBalanced(s: System, s': System)
    requires Balanced(s) && s'.stopped == s.stopped && s'.bound == s.bound
    requires forall c :: IdsOf(s'.owners.clientSessions, c) == IdsOf(s.owners.clientSessions, c)
    ensures Balanced(s')
  {
    hide Count, IdsOf;
    forall c, id
      ensures Count(s'.stopped, c, id) + Member(s'.owners, c, id) == Count(s'.bound, c, id)
    {
      assert Count(s.stopped, c, id) + Member(s.owners, c, id) == Count(s.bound, c, id);
    }
  }

  lemma BalancedStep(s: System, e: Event, s': System)
    requires LiveOwners(s) && Balanced(s) && Step(s, e, s')
    ensures Balanced(s')
  {
    hide TrimSpace, Balanced, Count, Counted, Left, Bound;
    match e
    case Outgoing(request, session) =>
      if request != "" && request in s.owners.requestOwners {
        OutgoingBalanced(s, request, session, s');
      } else {
        SameSessionsBalanced(s, s');
      }
    case WriteFailed(client) => RemovedBalanced(s, client);
    case Exit(client) =>
      RemovedBalanced(s, client);
      SameSessionsBalanced(Removed(s, client), s');
    case _ => SameSessionsBalanced(s, s');
  }

  lemma OutgoingBalanced(s: System, request: string, session: string, s': System)
    requires Balanced(s) && Step(s, Outgoing(request, session), s') && request != "" && request in s.owners.requestOwners
    ensures Balanced(s')
  {
    var owner := s.owners.requestOwners[request];
    hide TrimSpace, Balanced, Count;
    if session != "" {
      BoundBalanced(s, owner, session, s');
    } else {
      CountNothing(s.bound, owner, Entering(s.owners, s'.owners, owner));
      SameSessionsBalanced(s, s');
    }
  }

  ghost predicate Run(states: seq<System>, events: seq<Event>) {
    && |states| == |events| + 1 && Initial(states[0])
    && forall i :: 0 <= i < |events| ==> Step(states[i], events[i], states[i + 1])
  }

  /** In every state of every run: owner entries are known to their owners, only clients with a running handler own
      anything, and for every client and session the stops sent and the current membership add up to the bindings. */
  lemma {:induction false} OwnershipHolds(states: seq<System>, events: seq<Event>, i: nat)
    requires Run(states, events) && i < |states|
    ensures OneWay(states[i].owners) && LiveOwners(states[i]) && Balanced(states[i])
  {
    hide Step, Balanced, OneWay;
    if i > 0 {
      OwnershipHolds(states, events, i - 1);
      OneWayStep(states[i - 1], events[i - 1], states[i]);
      LiveOwnersStep(states[i - 1], events[i - 1], states[i]);
      BalancedStep(states[i - 1], events[i - 1], states[i]);
    } else {
      NobodyIsFine(states[0]);
    }
  }

  lemma NobodyIsFine(s: System)
    requires Initial(s)
    ensures OneWay(s.owners) && LiveOwners(s) && Balanced(s)
  {
  }

  /** After a client's handler has returned no packet is routed to it, and each of its sessions has been stopped as
      often as it was bound, however often removal ran. */
  lemma DepartedClient(states: seq<System>, events: seq<Event>, i: nat, client: nat, request: string, session: string)
    requires Run(states, events) && i < |states|
    requires client in states[i].seen && client !in states[i].running
    ensures client !in Targets(states[i].owners, request, session)
    ensures Count(states[i].stopped, client, session) == Count(states[i].bound, client, session)
  {
    OwnershipHolds(states, events, i);
    var o := states[i].owners;
    assert Count(states[i].stopped, client, session) + Member(o, client, session) == Count(states[i].bound, client, session);
    assert request in o.requestOwners ==> request in IdsOf(o.clientRequests, o.requestOwners[request]);
    assert session in o.sessionOwners ==> session in IdsOf(o.clientSessions, o.sessionOwners[session]);
  }

  /** The client has connected and has since been neither removed nor dropped by a shutdown. */
  predicate Present(events: seq<Event>, client: nat)
    decreases |events|
  {
    && events != []
    && match events[|events| - 1]
       case Connect(c) => c == client || Present(events[..|events| - 1], client)
       case WriteFailed(c) => c != client && Present(events[..|events| - 1], client)
       case Exit(c) => c != client && Present(events[..|events| - 1], client)
       case Shutdown => false
       case _ => Present(events[..|events| - 1], client)
  }

  lemma {:induction false} PresentClients(states: seq<System>, events: seq<Event>, i: nat, client: nat)
    requires Run(states, events) && i < |states|
    ensures client in states[i].owners.clients <==> Present(events[..i], client)
  {
    if i > 0 {
      PresentClients(states, events, i - 1, client);
      assert events[..i][..i - 1] == events[..i - 1] && events[..i][i - 1] == events[i - 1];
      assert Step(states[i - 1], events[i - 1], states[i - 1 + 1]);
      hide TrimSpace, Counted;
    }
  }

  /** A packet whose request and session nobody owns goes to exactly the clients that are present. */
  lemma UnownedReachesEverybody(states: seq<System>, events: seq<Event>, i: nat, request: string, session: string, client: nat)
    requires Run(states, events) && i < |states|
    requires request == "" || request !in states[i].owners.requestOwners
    requires session == "" || session !in states[i].owners.sessionOwners
    ensures client in Targets(states[i].owners, request, session) <==> Present(events[..i], client)
  {
    PresentClients(states, events, i, client);
    hide Run;
  }

  lemma LeftTwice(o: Owners, client: nat)
    ensures Left(Left(o, client), client) == Left(o, client)
    ensures IdsOf(Left(o, client).clientSessions, client) == {}
  {
    var p := Left(o, client);
    assert p.clientRequests - {client} == p.clientRequests && p.clientSessions - {client} == p.clientSessions;
    assert p.requestOwners - {} == p.requestOwners && p.sessionOwners - {} == p.sessionOwners;
    assert p.clients - {client} == p.clients;
  }

  lemma CountNothing(m: map<(nat, string), nat>, client: nat, ids: set<string>)
    requires ids == {}
    ensures Counted(m, client, ids) == m
  {
  }

  /** Removing a client that was just removed changes nothing and stops nothing. */
  lemma RemovalIsIdempotent(s: System, client: nat)
    ensures Removed(Removed(s, client), client) == Removed(s, client)
  {
    LeftTwice(s.owners, client);
    CountNothing(Removed(s, client).stopped, client, IdsOf(Left(s.owners, client).clientSessions, client));
    hide Left, Counted, IdsOf;
  }
}
