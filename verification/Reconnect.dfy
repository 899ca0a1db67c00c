/** What a client that comes back is sent, once a disconnect has cleared its rooms. */
module Reconnect {
  import opened MachineInts
  import B = EventBuffer
  import R = RoomRegistry

  /** The rooms that `get_replay_events` finds in the metadata. */
  function RoomsOf(parse: R.Room -> B.Room, s: R.State, id: R.ClientId): set<B.Room> {
    if id in s.metadata then set r | r in s.metadata[id] :: parse(r) else {}
  }

  /** The whole history from i up to j, rooms or not. */
  function All(history: seq<B.Pushed>, i: nat, j: nat): seq<B.WsEvent>
    requires j <= |history|
  {
    if j <= i then [] else All(history, i, j - 1) + [history[j - 1].event]
  }

  lemma {:induction false} Unfiltered(history: seq<B.Pushed>, i: nat, j: nat)
    requires j <= |history|
    ensures B.Live(history, {}, i, j) == All(history, i, j)
  {
    if i < j {
      Unfiltered(history, i, j - 1);
    }
  }

  lemma {:induction false} SentDrops(history: seq<B.Pushed>, rooms: set<B.Room>, i: nat, j: nat)
    requires j <= |history|
    ensures |B.Sent(history, rooms, i, j)| <= |All(history, i, j)|
    ensures B.Sent(history, rooms, i, j) == All(history, i, j)
            <==> forall p :: i <= p < j ==> B.Delivered(history[p], rooms)
  {
    hide B.Delivered;
    if i < j {
      SentDrops(history, rooms, i, j - 1);
      B.LastPicked(B.Sent(history, rooms, i, j - 1), All(history, i, j - 1), history[j - 1].event);
    }
  }

  /** What the tables make of a publication: to everybody, the client's own rooms decide;
      to a room, the room's members. */
  ghost predicate SendsTo(parse: R.Room -> B.Room, s: R.State, id: R.ClientId, p: B.Pushed) {
    && id in s.clients
    && match p.path
       case ToAll => B.ShouldSend(p.event, set r | r in s.clients[id] :: parse(r))
       case ToRoom(room) => exists r :: r in s.rooms && parse(r) == room && id in R.Members(s, r)
  }

  /** While the tables agree, both go by the rooms in the client's metadata. */
  lemma SendsByRooms(parse: R.Room -> B.Room, s: R.State, id: R.ClientId, p: B.Pushed)
    requires R.Linked(s) && id in s.clients
    ensures SendsTo(parse, s, id, p) <==> B.Delivered(p, RoomsOf(parse, s, id))
  {
    if p.path.ToRoom? && p.path.room in RoomsOf(parse, s, id) {
      var r :| r in s.metadata[id] && parse(r) == p.path.room;
      assert id in R.Members(s, r);
    }
    hide B.ShouldSend;
  }

  /** A disconnect leaves the client without rooms. */
  lemma DisconnectClears(parse: R.Room -> B.Room, s: R.State, id: R.ClientId)
    ensures RoomsOf(parse, R.Unregister(s, id), id) == {}
  {
  }

  /** After a disconnect the replay holds every later event, whatever rooms the client had.
      It is what a client in those rooms would have been sent exactly when that is all. */
  lemma ReplayAfterDisconnect(parse: R.Room -> B.Room, s: R.State, id: R.ClientId,
                              limits: B.Limits, history: seq<B.Pushed>, since: nat)
    requires B.Monotone(history)
    requires since + 1 >= B.Oldest(history, B.BufferAfter(limits, history))
    ensures var before, after := RoomsOf(parse, s, id), RoomsOf(parse, R.Unregister(s, id), id);
            var replay := B.ReplayEvents(B.BufferAfter(limits, history), after, Some(since));
            && replay == All(history, since + 1, |history|)
            && (replay == B.Sent(history, before, since + 1, |history|)
                <==> forall p :: since < p < |history| ==> B.Delivered(history[p], before))
  {
    DisconnectClears(parse, s, id);
    B.ReplayIsLive(limits, history, {}, since);
    Unfiltered(history, since + 1, |history|);
    SentDrops(history, RoomsOf(parse, s, id), since + 1, |history|);
    hide *;
  }
}
