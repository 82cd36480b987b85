/** When the owner maps and the reverse maps of the edge WebSocket server are exact inverses. */
module EdgeExactness {
  import opened Common
  import opened EdgeOwnership

  /** Every id in a client's set has its owner entry at that client. */
  ghost predicate Exact(owners: map<string, nat>, sets: map<nat, set<string>>) {
    forall c, id :: id in IdsOf(sets, c) ==> id in owners && owners[id] == c
  }

  ghost predicate ExactRequests(o: Owners) { Exact(o.requestOwners, o.clientRequests) }
  ghost predicate ExactSessions(o: Owners) { Exact(o.sessionOwners, o.clientSessions) }
  ghost predicate BothExact(o: Owners) { ExactRequests(o) && ExactSessions(o) }

  /** The id has another owner. */
  predicate OwnedByOther(owners: map<string, nat>, client: nat, id: string) {
    TrimSpace(id) != "" && TrimSpace(id) in owners && owners[TrimSpace(id)] != client
  }

  // ---------------------------------------------------------------- one operation

  /** Entering `id` keeps one pair of maps exact exactly when no other client owned it. */
  lemma EnterExact(owners: map<string, nat>, sets: map<nat, set<string>>, client: nat, id: string)
    requires Known(owners, sets) && Exact(owners, sets)
    ensures Exact(owners[id := client], sets[client := IdsOf(sets, client) + {id}]) <==> id !in owners || owners[id] == client
  {
    var owners', sets' := owners[id := client], sets[client := IdsOf(sets, client) + {id}];
    if id in owners && owners[id] != client {
      var other := owners[id];
      assert id in IdsOf(sets, other);
      assert id in IdsOf(sets', other) && owners'[id] != other;
    } else {
      forall c, x | x in IdsOf(sets', c)
        ensures x in owners' && owners'[x] == c
      {
        assert x in IdsOf(sets, c) || (c == client && x == id);
      }
    }
  }

  /** A departure keeps one pair of maps exact and drops only the leaver's own entries. */
  lemma LeaveExact(owners: map<string, nat>, sets: map<nat, set<string>>, client: nat)
    requires Exact(owners, sets)
    ensures Exact(owners - IdsOf(sets, client), sets - {client})
    ensures forall id :: id in owners && owners[id] != client ==> id in owners - IdsOf(sets, client)
  {
    var left, gone := sets - {client}, IdsOf(sets, client);
    forall c, x | x in IdsOf(left, c)
      ensures x in owners - gone && owners[x] == c
    {
      assert c != client && x in IdsOf(sets, c);
    }
    forall x | x in owners && owners[x] != client
      ensures x !in gone
    {
    }
  }

  lemma JoinExact(owners: map<string, nat>, sets: map<nat, set<string>>, client: nat)
    requires Exact(owners, sets) && client !in sets
    ensures Exact(owners, sets[client := {}])
  {
    var sets' := sets[client := {}];
    forall c, x | x in IdsOf(sets', c)
      ensures x in owners && owners[x] == c
    {
      assert x in IdsOf(sets, c);
    }
  }

  /** Registering a request keeps the maps exact if and only if no other client owns it. */
  lemma RegisteredExact(o: Owners, client: nat, request: string)
    requires OneWay(o) && ExactRequests(o)
    ensures ExactRequests(Registered(o, client, request)) <==> !OwnedByOther(o.requestOwners, client, request)
    ensures ExactSessions(Registered(o, client, request)) <==> ExactSessions(o)
  {
    hide TrimSpace, Exact;
    if TrimSpace(request) != "" {
      EnterExact(o.requestOwners, o.clientRequests, client, TrimSpace(request));
    }
  }

  /** Binding a session keeps the maps exact if and only if no other client owns it. */
  lemma BoundExact(o: Owners, client: nat, session: string)
    requires OneWay(o) && ExactSessions(o)
    ensures ExactSessions(Bound(o, client, session)) <==> !OwnedByOther(o.sessionOwners, client, session)
    ensures ExactRequests(Bound(o, client, session)) <==> ExactRequests(o)
  {
    hide TrimSpace, Exact;
    if TrimSpace(session) != "" {
      EnterExact(o.sessionOwners, o.clientSessions, client, TrimSpace(session));
    }
  }

  /** While the maps are exact, a departure keeps them exact and drops exactly the leaver's own entries. */
  lemma LeftExact(o: Owners, client: nat)
    requires BothExact(o)
    ensures BothExact(Left(o, client))
    ensures forall id :: id in o.requestOwners && o.requestOwners[id] != client ==> id in Left(o, client).requestOwners
    ensures forall id :: id in o.sessionOwners && o.sessionOwners[id] != client ==> id in Left(o, client).sessionOwners
  {
    LeaveExact(o.requestOwners, o.clientRequests, client);
    LeaveExact(o.sessionOwners, o.clientSessions, client);
    hide Exact;
  }

  // ---------------------------------------------------------------- runs

  /** The event registers or binds an id that another client owns. */
  ghost predicate Takeover(s: System, e: Event) {
    match e
    case Message(client, request, _) => OwnedByOther(s.owners.requestOwners, client, request)
    case Outgoing(request, session) =>
      && request != "" && request in s.owners.requestOwners
      && OwnedByOther(s.owners.sessionOwners, s.owners.requestOwners[request], session)
    case _ => false
  }

  lemma JoinedExact(o: Owners, client: nat)
    requires BothExact(o) && client !in o.clientRequests && client !in o.clientSessions
    ensures BothExact(Joined(o, client))
  {
    JoinExact(o.requestOwners, o.clientRequests, client);
    JoinExact(o.sessionOwners, o.clientSessions, client);
    hide Exact;
  }

  /** A step keeps the maps exact if and only if it takes nothing over. */
  lemma ExactStep(s: System, e: Event, s': System)
    requires OneWay(s.owners) && LiveOwners(s) && BothExact(s.owners) && Step(s, e, s')
    ensures BothExact(s'.owners) <==> !Takeover(s, e)
  {
    hide TrimSpace, Exact, OneWay;
    match e
    case Connect(client) => JoinedExact(s.owners, client);
    case Message(client, request, _) => RegisteredExact(s.owners, client, request); NothingBlank("");
    case Outgoing(request, session) =>
      NothingBlank("");
      if request != "" && request in s.owners.requestOwners {
        BoundExact(s.owners, s.owners.requestOwners[request], session);
      }
    case WriteFailed(client) => LeftExact(s.owners, client);
    case Exit(client) => LeftExact(s.owners, client);
    case Shutdown =>
  }

  lemma NothingBlank(id: string)
    requires id == ""
    ensures TrimSpace(id) == ""
  {
  }

  lemma {:induction false} ExactUpTo(states: seq<System>, events: seq<Event>, n: nat)
    requires Run(states, events) && n < |states|
    requires forall i :: 0 <= i < n ==> !Takeover(states[i], events[i])
    ensures BothExact(states[n].owners)
  {
    hide Step, Takeover;
    if n > 0 {
      ExactUpTo(states, events, n - 1);
      OwnershipHolds(states, events, n - 1);
      ExactStep(states[n - 1], events[n - 1], states[n]);
    } else {
      NobodyIsExact(states[0]);
    }
  }

  lemma NobodyIsExact(s: System)
    requires Initial(s)
    ensures BothExact(s.owners)
  {
  }

  /** The maps are exact inverses in every state of a run if and only if no event of it takes over an id that another
      client owns. */
  lemma ExactExactlyWithoutTakeover(states: seq<System>, events: seq<Event>)
    requires Run(states, events)
    ensures (forall i :: 0 <= i < |states| ==> BothExact(states[i].owners) && OneWay(states[i].owners))
       <==> (forall i :: 0 <= i < |events| ==> !Takeover(states[i], events[i]))
  {
    hide Step, Takeover, BothExact, OneWay;
    forall i | 0 <= i < |states|
      ensures OneWay(states[i].owners)
    {
      OwnershipHolds(states, events, i);
    }
    if forall i :: 0 <= i < |events| ==> !Takeover(states[i], events[i]) {
      forall i | 0 <= i < |states|
        ensures BothExact(states[i].owners)
      {
        ExactUpTo(states, events, i);
      }
    } else if forall i :: 0 <= i < |states| ==> BothExact(states[i].owners) && OneWay(states[i].owners) {
      var i :| 0 <= i < |events| && Takeover(states[i], events[i]);
      OwnershipHolds(states, events, i);
      ExactStep(states[i], events[i], states[i + 1]);
    }
  }

  // ---------------------------------------------------------------- a takeover

  const REQUEST := "r"

  function At(n: nat): System {
    if n == 0 then System(NOBODY, {}, {}, map[], map[])
    else if n == 1 then System(Joined(At(0).owners, 1), {1}, {1}, map[], map[])
    else if n == 2 then System(Joined(At(1).owners, 2), {1, 2}, {1, 2}, map[], map[])
    else if n == 3 then System(Registered(At(2).owners, 1, REQUEST), {1, 2}, {1, 2}, map[], map[])
    else if n == 4 then System(Registered(At(3).owners, 2, REQUEST), {1, 2}, {1, 2}, map[], map[])
    else System(Left(At(4).owners, 1), {2}, {1, 2}, map[], map[])
  }

  function Happens(n: nat): Event {
    if n == 0 then Connect(1)
    else if n == 1 then Connect(2)
    else if n == 2 then Message(1, REQUEST, "")
    else if n == 3 then Message(2, REQUEST, "")
    else Exit(1)
  }

  lemma Happened(n: nat)
    requires n < 5
    ensures Step(At(n), Happens(n), At(n + 1))
  {
    hide TrimSpace;
    assert {1} + {2} == {1, 2} && {1, 2} - {1} == {2} && {} + {1} == {1};
    if n == 4 {
      assert IdsOf(At(4).owners.clientSessions, 1) == {};
      CountNothing(map[], 1, {});
    }
  }

  /** A run in which the maps stop being inverses: two clients connect, the second registers the request of the first,
      and when the first one's handler returns the second one's owner entry is gone while its set still holds the id. */
  lemma TakeoverIsNotUndone() returns (states: seq<System>, events: seq<Event>)
    ensures Run(states, events) && |events| == 5 && events[..2] == [Connect(1), Connect(2)]
    ensures PacketOwner(states[4].owners, REQUEST, "") == Some(2) && REQUEST in IdsOf(states[4].owners.clientRequests, 1)
    ensures events[4] == Exit(1)
    ensures PacketOwner(states[5].owners, REQUEST, "") == None && REQUEST in IdsOf(states[5].owners.clientRequests, 2)
  {
    states, events := seq(6, n requires 0 <= n => At(n)), seq(5, n requires 0 <= n => Happens(n));
    forall i | 0 <= i < |events|
      ensures Step(states[i], events[i], states[i + 1])
    {
      Happened(i);
    }
    assert TrimSpace(REQUEST) == REQUEST;
    hide Step, TrimSpace;
  }
}
