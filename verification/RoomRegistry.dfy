/** Who is in which room: three tables that have to agree. */
module RoomRegistry {

  type ClientId = string
  type Room = string

  /** Each connected client's own rooms, each room's clients, and the rooms kept in
      the connection metadata, which outlives the connection. */
  datatype State = State(
    clients: map<ClientId, set<Room>>,
    rooms: map<Room, set<ClientId>>,
    metadata: map<ClientId, set<Room>>)

  const EMPTY := State(map[], map[], map[])

  function Members(s: State, r: Room): set<ClientId> { if r in s.rooms then s.rooms[r] else {} }

  function Join(s: State, id: ClientId, r: Room): State {
    State(if id in s.clients then s.clients[id := s.clients[id] + {r}] else s.clients,
          s.rooms[r := Members(s, r) + {id}],
          if id in s.metadata then s.metadata[id := s.metadata[id] + {r}] else s.metadata)
  }

  /** The rooms without one client; a room left empty goes. */
  function Without(rooms: map<Room, set<ClientId>>, id: ClientId, gone: set<Room>): map<Room, set<ClientId>> {
    map r | r in rooms && !(r in gone && rooms[r] - {id} == {}) :: if r in gone then rooms[r] - {id} else rooms[r]
  }

  function Leave(s: State, id: ClientId, r: Room): State {
    State(if id in s.clients then s.clients[id := s.clients[id] - {r}] else s.clients,
          Without(s.rooms, id, {r}),
          if id in s.metadata then s.metadata[id := s.metadata[id] - {r}] else s.metadata)
  }

  function Register(s: State, id: ClientId): State {
    State(s.clients[id := {}], s.rooms, s.metadata[id := {}])
  }

  /** A disconnect takes the client out of every room its metadata lists and drops
      its connection, but keeps its metadata. */
  function Unregister(s: State, id: ClientId): State {
    var mine := if id in s.metadata then s.metadata[id] else {};
    State(s.clients - {id},
          Without(s.rooms, id, mine),
          if id in s.metadata then s.metadata[id := {}] else s.metadata)
  }

  // ----- agreement

  /** The tables agree: a client is in a room's set iff the room is in its metadata;
      connected clients' own rooms are those of their metadata; no room is empty and
      none has a client that was never registered. */
  ghost predicate Linked(s: State) {
    && (forall id, r :: id in s.metadata ==> (r in s.metadata[id] <==> id in Members(s, r)))
    && (forall id :: id in s.clients ==> id in s.metadata && s.clients[id] == s.metadata[id])
    && (forall r :: r in s.rooms ==> s.rooms[r] != {} && s.rooms[r] <= s.metadata.Keys)
  }

  datatype Op = OpJoin(id: ClientId, room: Room) | OpLeave(id: ClientId, room: Room)
              | OpRegister(id: ClientId) | OpUnregister(id: ClientId)

  function Step(s: State, op: Op): State {
    match op
    case OpJoin(id, room) => Join(s, id, room)
    case OpLeave(id, room) => Leave(s, id, room)
    case OpRegister(id) => Register(s, id)
    case OpUnregister(id) => Unregister(s, id)
  }

  /** What the server's use of the registry guarantees: only registered clients join,
      and a client id that is registered again is in no room. */
  predicate Allowed(s: State, op: Op) {
    match op
    case OpJoin(id, _) => id in s.metadata
    case OpRegister(id) => id in s.metadata ==> s.metadata[id] == {}
    case _ => true
  }

  lemma WithoutMembers(s: State, id: ClientId, gone: set<Room>, r: Room, s': State)
    requires s'.rooms == Without(s.rooms, id, gone)
    requires forall q :: q in s.rooms ==> s.rooms[q] != {}
    ensures Members(s', r) == Members(s, r) - (if r in gone then {id} else {})
    ensures forall q :: q in s'.rooms ==> s'.rooms[q] != {}
  {
  }

  lemma JoinLinks(s: State, id: ClientId, r: Room)
    requires Linked(s)
    ensures Linked(Join(s, id, r)) <==> id in s.metadata
  {
    var s' := Join(s, id, r);
    if id in s.metadata {
      forall c, q | c in s'.metadata
        ensures q in s'.metadata[c] <==> c in Members(s', q)
      {
        assert q in s.metadata[c] <==> c in Members(s, q);
      }
    } else {
      assert id in s'.rooms[r];
    }
  }

  lemma LeaveLinks(s: State, id: ClientId, r: Room)
    requires Linked(s)
    ensures Linked(Leave(s, id, r))
  {
    var s' := Leave(s, id, r);
    forall c, q | c in s'.metadata
      ensures q in s'.metadata[c] <==> c in Members(s', q)
    {
      WithoutMembers(s, id, {r}, q, s');
      assert q in s.metadata[c] <==> c in Members(s, q);
    }
  }

  /** Joining and leaving change one client's place in one room and nobody else's. */
  lemma MembersMove(s: State, id: ClientId, r: Room, q: Room)
    requires Linked(s)
    ensures Members(Join(s, id, r), q) == Members(s, q) + if q == r then {id} else {}
    ensures Members(Leave(s, id, r), q) == Members(s, q) - if q == r then {id} else {}
  {
    WithoutMembers(s, id, {r}, q, Leave(s, id, r));
  }

  /** Leaving undoes joining: every table is as before. */
  lemma LeaveUndoesJoin(s: State, id: ClientId, r: Room)
    requires Linked(s) && id in s.metadata && r !in s.metadata[id]
    ensures Leave(Join(s, id, r), id, r) == s
  {
    var t := Join(s, id, r);
    assert id !in Members(s, r);
    assert Members(t, r) - {id} == Members(s, r);
    assert Leave(t, id, r).rooms == s.rooms;
    assert s.metadata[id] + {r} - {r} == s.metadata[id];
    assert Leave(t, id, r).metadata == s.metadata;
    assert Leave(t, id, r).clients == s.clients;
  }

  lemma RegisterLinks(s: State, id: ClientId)
    requires Linked(s)
    ensures Linked(Register(s, id)) <==> (id in s.metadata ==> s.metadata[id] == {})
  {
    var s' := Register(s, id);
    if id in s.metadata && s.metadata[id] != {} {
      var r :| r in s.metadata[id];
      assert id in Members(s, r);
      assert id in Members(s', r);
    } else {
      forall c, q | c in s'.metadata
        ensures q in s'.metadata[c] <==> c in Members(s', q)
      {
        assert Members(s', q) == Members(s, q);
        if c in s.metadata {
          assert q in s.metadata[c] <==> c in Members(s, q);
        }
      }
    }
  }

  /** A disconnected client is in no room at all. */
  lemma UnregisterLinks(s: State, id: ClientId)
    requires Linked(s)
    ensures Linked(Unregister(s, id))
    ensures forall r :: id !in Members(Unregister(s, id), r)
  {
    var s' := Unregister(s, id);
    var mine := if id in s.metadata then s.metadata[id] else {};
    forall r
      ensures id !in Members(s', r)
    {
      WithoutMembers(s, id, mine, r, s');
    }
    forall c, q | c in s'.metadata
      ensures q in s'.metadata[c] <==> c in Members(s', q)
    {
      WithoutMembers(s, id, mine, q, s');
      assert q in s.metadata[c] <==> c in Members(s, q);
    }
  }

  /** Exactly the allowed steps keep the tables in agreement. */
  lemma StepLinksExactly(s: State, op: Op)
    requires Linked(s)
    ensures Linked(Step(s, op)) <==> Allowed(s, op)
  {
    match op
    case OpJoin(id, room) => JoinLinks(s, id, room);
    case OpLeave(id, room) => LeaveLinks(s, id, room);
    case OpRegister(id) => RegisterLinks(s, id);
    case OpUnregister(id) => UnregisterLinks(s, id);
  }

  function After(ops: seq<Op>): State {
    if ops == [] then EMPTY else Step(After(ops[..|ops| - 1]), ops[|ops| - 1])
  }

  /** The tables agree after the run and after each of its prefixes. */
  ghost predicate AlwaysLinked(ops: seq<Op>) {
    Linked(After(ops)) && (ops != [] ==> AlwaysLinked(ops[..|ops| - 1]))
  }

  predicate AlwaysAllowed(ops: seq<Op>) {
    ops != [] ==>
      var before := ops[..|ops| - 1];
      AlwaysAllowed(before) && Allowed(After(before), ops[|ops| - 1])
  }

  /** A run keeps the tables in agreement all along exactly when all its steps are allowed. */
  lemma {:induction false} RunLinksExactly(ops: seq<Op>)
    ensures AlwaysLinked(ops) <==> AlwaysAllowed(ops)
  {
    hide Linked;
    hide Allowed;
    hide Step;
    if ops == [] {
      EmptyLinked();
    } else {
      var before := ops[..|ops| - 1];
      RunLinksExactly(before);
      if AlwaysLinked(before) {
        StepLinksExactly(After(before), ops[|ops| - 1]);
      }
    }
  }

  lemma EmptyLinked()
    ensures Linked(EMPTY)
  {
  }

  lemma StillLinked(ops: seq<Op>)
    requires AlwaysAllowed(ops)
    ensures Linked(After(ops))
  {
    RunLinksExactly(ops);
  }

  lemma OneMore(history: seq<Op>, op: Op)
    ensures After(history + [op]) == Step(After(history), op)
  {
    assert (history + [op])[..|history|] == history;
  }

  // ----- who is connected, and who is where

  predicate RegisteredAt(ops: seq<Op>, id: ClientId, i: nat)
    requires i < |ops|
  {
    ops[i] == OpRegister(id) && forall j :: i < j < |ops| ==> ops[j] != OpUnregister(id)
  }

  /** Registered, and not disconnected since. */
  predicate Connected(ops: seq<Op>, id: ClientId) {
    exists i :: 0 <= i < |ops| && RegisteredAt(ops, id, i)
  }

  /** Registered at some time. */
  predicate EverRegistered(ops: seq<Op>, id: ClientId) { OpRegister(id) in ops }

  predicate JoinedAt(ops: seq<Op>, id: ClientId, r: Room, i: nat)
    requires i < |ops|
  {
    ops[i] == OpJoin(id, r) && forall j :: i < j < |ops| ==> ops[j] != OpLeave(id, r) && ops[j] != OpUnregister(id)
  }

  /** Joined the room, and neither left it nor disconnected since. */
  predicate Joined(ops: seq<Op>, id: ClientId, r: Room) {
    exists i :: 0 <= i < |ops| && JoinedAt(ops, id, r, i)
  }

  lemma ConnectedStep(ops: seq<Op>, op: Op, id: ClientId)
    ensures Connected(ops + [op], id) <==> op == OpRegister(id) || (op != OpUnregister(id) && Connected(ops, id))
    ensures EverRegistered(ops + [op], id) <==> op == OpRegister(id) || EverRegistered(ops, id)
  {
    var longer := ops + [op];
    if i :| 0 <= i < |ops| && RegisteredAt(ops, id, i) && op != OpUnregister(id) {
      assert RegisteredAt(longer, id, i);
    }
    if i :| 0 <= i < |longer| && RegisteredAt(longer, id, i) {
      assert longer[|ops|] == op;
      if i < |ops| {
        assert forall j :: i <= j < |ops| ==> longer[j] == ops[j];
        assert RegisteredAt(ops, id, i);
      }
    }
    if op == OpRegister(id) {
      assert RegisteredAt(longer, id, |ops|);
    }
  }

  lemma JoinedStep(ops: seq<Op>, op: Op, id: ClientId, r: Room)
    ensures Joined(ops + [op], id, r)
            <==> op == OpJoin(id, r) || (op != OpLeave(id, r) && op != OpUnregister(id) && Joined(ops, id, r))
  {
    var longer := ops + [op];
    if i :| 0 <= i < |ops| && JoinedAt(ops, id, r, i) && op != OpLeave(id, r) && op != OpUnregister(id) {
      assert JoinedAt(longer, id, r, i);
    }
    if i :| 0 <= i < |longer| && JoinedAt(longer, id, r, i) {
      assert longer[|ops|] == op;
      if i < |ops| {
        assert forall j :: i <= j < |ops| ==> longer[j] == ops[j];
        assert JoinedAt(ops, id, r, i);
      }
    }
    if op == OpJoin(id, r) {
      assert JoinedAt(longer, id, r, |ops|);
    }
  }

  /** On every run exactly those clients have a connection that registered and have not
      disconnected since; metadata is kept of everybody that ever registered. */
  lemma {:induction false} ClientsAreConnected(ops: seq<Op>, id: ClientId)
    ensures id in After(ops).clients <==> Connected(ops, id)
    ensures id in After(ops).metadata <==> EverRegistered(ops, id)
  {
    if ops != [] {
      var before, op := ops[..|ops| - 1], ops[|ops| - 1];
      assert ops == before + [op];
      ClientsAreConnected(before, id);
      ConnectedStep(before, op, id);
      hide Connected;
    }
  }

  lemma StepMembers(s: State, op: Op, id: ClientId, r: Room)
    requires Linked(s) && Allowed(s, op)
    ensures id in Members(Step(s, op), r)
            <==> op == OpJoin(id, r) || (op != OpLeave(id, r) && op != OpUnregister(id) && id in Members(s, r))
  {
    match op
    case OpLeave(c, q) => WithoutMembers(s, c, {q}, r, Leave(s, c, q));
    case OpUnregister(c) =>
      WithoutMembers(s, c, if c in s.metadata then s.metadata[c] else {}, r, Unregister(s, c));
    case _ =>
  }

  /** While all steps are allowed, a room's members are exactly the clients that joined it
      and have neither left it nor disconnected since. */
  lemma {:induction false} MembersAreJoined(ops: seq<Op>, id: ClientId, r: Room)
    requires AlwaysAllowed(ops)
    ensures id in Members(After(ops), r) <==> Joined(ops, id, r)
  {
    if ops != [] {
      var before, op := ops[..|ops| - 1], ops[|ops| - 1];
      assert ops == before + [op];
      MembersAreJoined(before, id, r);
      StillLinked(before);
      StepMembers(After(before), op, id, r);
      JoinedStep(before, op, id, r);
      hide Joined;
      hide Step;
      hide Linked;
    }
  }

  // ----- the registry object

  class Registry {
    var clients: map<ClientId, set<Room>>
    var rooms: map<Room, set<ClientId>>
    var metadata: map<ClientId, set<Room>>
    ghost var history: seq<Op>

    function View(): State
      reads this
    {
      State(clients, rooms, metadata)
    }

    /** The tables are what the operations so far made of empty ones. */
    ghost predicate Valid()
      reads this
    {
      View() == After(history)
    }

    constructor ()
      ensures Valid() && history == [] && View() == EMPTY
    {
      clients, rooms, metadata, history := map[], map[], map[], [];
    }

    method JoinRoom(id: ClientId, r: Room)
      requires Valid()
      modifies this
      ensures Valid() && history == old(history) + [OpJoin(id, r)]
      ensures View() == Join(old(View()), id, r)
      ensures forall q :: Members(View(), q) == old(Members(View(), q)) + if q == r then {id} else {}
      ensures AlwaysAllowed(old(history)) ==> (Linked(View()) <==> id in old(metadata))
    {
      if AlwaysAllowed(history) {
        StillLinked(history);
        JoinLinks(View(), id, r);
      }
      hide Linked;
      hide AlwaysAllowed;
      OneMore(history, OpJoin(id, r));
      hide After;
      history := history + [OpJoin(id, r)];
      var members := if r in rooms then rooms[r] else {};
      rooms := rooms[r := members + {id}];
      if id in clients {
        clients := clients[id := clients[id] + {r}];
      }
      if id in metadata {
        metadata := metadata[id := metadata[id] + {r}];
      }
    }

    method LeaveRoom(id: ClientId, r: Room)
      requires Valid()
      modifies this
      ensures Valid() && history == old(history) + [OpLeave(id, r)]
      ensures View() == Leave(old(View()), id, r)
      ensures AlwaysAllowed(old(history)) ==> Linked(View())
      ensures AlwaysAllowed(old(history)) ==>
                forall q :: Members(View(), q) == old(Members(View(), q)) - if q == r then {id} else {}
    {
      ghost var s := View();
      if AlwaysAllowed(history) {
        StillLinked(history);
        LeaveLinks(s, id, r);
        forall q
          ensures Members(Leave(s, id, r), q) == Members(s, q) - if q == r then {id} else {}
        {
          MembersMove(s, id, r, q);
        }
      }
      hide Linked;
      hide AlwaysAllowed;
      OneMore(history, OpLeave(id, r));
      hide After;
      history := history + [OpLeave(id, r)];
      TakeOut(id, r);
    }

    /** Takes a client out of one room, in all three tables. */
    method TakeOut(id: ClientId, r: Room)
      modifies this`clients, this`rooms, this`metadata
      ensures View() == Leave(old(View()), id, r)
    {
      if r in rooms {
        var members := rooms[r] - {id};
        if members == {} {
          rooms := rooms - {r};
        } else {
          rooms := rooms[r := members];
        }
      }
      assert rooms == Without(old(rooms), id, {r});
      if id in clients {
        clients := clients[id := clients[id] - {r}];
      }
      if id in metadata {
        metadata := metadata[id := metadata[id] - {r}];
      }
    }

    method RegisterClient(id: ClientId)
      requires Valid()
      modifies this
      ensures Valid() && history == old(history) + [OpRegister(id)]
      ensures View() == Register(old(View()), id)
      ensures forall q :: Members(View(), q) == old(Members(View(), q))
      ensures AlwaysAllowed(history) ==> Linked(View()) && forall q :: id !in Members(View(), q)
    {
      ghost var s := View();
      assert (history + [OpRegister(id)])[..|history|] == history;
      if AlwaysAllowed(history + [OpRegister(id)]) {
        StillLinked(history + [OpRegister(id)]);
        assert forall q :: id !in Members(Register(s, id), q);
      }
      hide Linked;
      hide AlwaysAllowed;
      OneMore(history, OpRegister(id));
      hide After;
      history := history + [OpRegister(id)];
      clients := clients[id := {}];
      metadata := metadata[id := {}];
    }

    method UnregisterClient(id: ClientId)
      requires Valid()
      modifies this
      ensures Valid() && history == old(history) + [OpUnregister(id)]
      ensures View() == Unregister(old(View()), id)
      ensures AlwaysAllowed(old(history)) ==> Linked(View()) && forall q :: id !in Members(View(), q)
    {
      if AlwaysAllowed(history) {
        StillLinked(history);
        UnregisterLinks(View(), id);
      }
      hide Linked;
      hide AlwaysAllowed;
      OneMore(history, OpUnregister(id));
      hide After;
      history := history + [OpUnregister(id)];
      var toRemove := if id in metadata then metadata[id] else {};
      ghost var mine := toRemove;
      ghost var left: set<Room> := {};
      ghost var s := View();
      NothingLeft(s, id);
      while toRemove != {}
        invariant left !! toRemove && left + toRemove == mine
        invariant View() == AfterLeaving(s, id, left) && history == old(history) + [OpUnregister(id)]
        decreases toRemove
      {
        var r :| r in toRemove;
        TakeOut(id, r);
        LeaveMore(s, id, left, r);
        toRemove, left := toRemove - {r}, left + {r};
      }
      assert left == mine;
      clients := clients - {id};
      AllLeft(s, id);
    }
  }

  // ----- the disconnect loop, room by room

  function Drop(m: map<ClientId, set<Room>>, id: ClientId, gone: set<Room>): map<ClientId, set<Room>> {
    if id in m then m[id := m[id] - gone] else m
  }

  function AfterLeaving(s: State, id: ClientId, gone: set<Room>): State {
    State(Drop(s.clients, id, gone), Without(s.rooms, id, gone), Drop(s.metadata, id, gone))
  }

  lemma DropMore(m: map<ClientId, set<Room>>, id: ClientId, gone: set<Room>, r: Room)
    ensures Drop(Drop(m, id, gone), id, {r}) == Drop(m, id, gone + {r})
  {
    if id in m {
      assert m[id] - gone - {r} == m[id] - (gone + {r});
    }
  }

  lemma NothingLeft(s: State, id: ClientId)
    ensures AfterLeaving(s, id, {}) == s
  {
    assert Without(s.rooms, id, {}) == s.rooms;
    assert id in s.clients ==> s.clients[id] - {} == s.clients[id];
    assert id in s.metadata ==> s.metadata[id] - {} == s.metadata[id];
    assert Drop(s.clients, id, {}) == s.clients;
    assert Drop(s.metadata, id, {}) == s.metadata;
  }

  /** Leaving room by room is leaving them all at once. */
  lemma LeaveMore(s: State, id: ClientId, gone: set<Room>, r: Room)
    requires r !in gone
    ensures Leave(AfterLeaving(s, id, gone), id, r) == AfterLeaving(s, id, gone + {r})
  {
    var t := AfterLeaving(s, id, gone);
    WithoutMore(s.rooms, id, gone, r);
    DropMore(s.clients, id, gone, r);
    DropMore(s.metadata, id, gone, r);
    assert Leave(t, id, r) == State(Drop(t.clients, id, {r}), Without(t.rooms, id, {r}), Drop(t.metadata, id, {r}));
  }

  lemma WithoutMore(rooms: map<Room, set<ClientId>>, id: ClientId, gone: set<Room>, r: Room)
    requires r !in gone
    ensures Without(Without(rooms, id, gone), id, {r}) == Without(rooms, id, gone + {r})
  {
  }

  lemma AllLeft(s: State, id: ClientId)
    ensures var mine := if id in s.metadata then s.metadata[id] else {};
            var t := AfterLeaving(s, id, mine);
            t.(clients := t.clients - {id}) == Unregister(s, id)
  {
    var mine := if id in s.metadata then s.metadata[id] else {};
    assert Drop(s.clients, id, mine) - {id} == s.clients - {id};
    if id in s.metadata {
      assert s.metadata[id] - mine == {};
    }
  }
}
