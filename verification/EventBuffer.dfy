/** The WebSocket server's event buffer: what it holds after any history of
    events, and what a reconnecting client is sent from it. */
module EventBuffer {
  import opened MachineInts

  datatype EscrowKind = Created | Activated | Released | Cancelled | TimedOut | Disputed | StatusUpdated
  datatype LoanKind = LoanCreated | Funded | Repaid | Defaulted | LoanStatusUpdated

  datatype WsEvent =
    | EscrowEvent(escrowKind: EscrowKind, escrowId: int, data: string)
    | LoanEvent(loanKind: LoanKind, loanId: int, data: string)
    | SystemEvent(data: string)

  /** Room names: "escrow:<id>", "loan:<id>" and any other string. */
  datatype Room = EscrowRoom(id: int) | LoanRoom(id: int) | OtherRoom(name: string)

  datatype Buffered = Buffered(event: WsEvent, timestamp: int, id: nat)

  // ----- the buffer as a function of what was pushed

  /** How an event is published: to everybody, for their own filters to pick, or to the
      members of one room only. It is buffered either way. */
  datatype Path = ToAll | ToRoom(room: Room)

  datatype Pushed = Pushed(event: WsEvent, time: int, path: Path)

  datatype Limits = Limits(maxDuration: nat, maxEvents: nat)

  function Young(events: seq<Buffered>, cutoff: int): seq<Buffered> {
    if events == [] then []
    else if events[0].timestamp > cutoff then [events[0]] + Young(events[1..], cutoff)
    else Young(events[1..], cutoff)
  }

  function LastOf(events: seq<Buffered>, n: nat): seq<Buffered> {
    if |events| <= n then events else events[|events| - n..]
  }

  function Push(limits: Limits, events: seq<Buffered>, id: nat, p: Pushed): seq<Buffered> {
    LastOf(Young(events, p.time - limits.maxDuration) + [Buffered(p.event, p.time, id)], limits.maxEvents)
  }

  function BufferAfter(limits: Limits, history: seq<Pushed>): seq<Buffered> {
    if history == [] then [] else
      var n := |history| - 1;
      Push(limits, BufferAfter(limits, history[..n]), n, history[n])
  }

  /** The clock is monotonic. */
  predicate Monotone(history: seq<Pushed>) {
    forall i, j :: 0 <= i < j < |history| ==> history[i].time <= history[j].time
  }

  /** Entry j belongs in the buffer: it is among the last maxEvents, and it is the
      latest or younger than the time limit counted from the latest. */
  predicate InWindow(limits: Limits, history: seq<Pushed>, j: nat)
    requires j < |history|
  {
    && j >= |history| - limits.maxEvents
    && (j == |history| - 1 || history[j].time > history[|history| - 1].time - limits.maxDuration)
  }

  /** Entry j of the history as the buffer stores it, under its place as id. */
  function Entry(history: seq<Pushed>, j: nat): Buffered
    requires j < |history|
  {
    Buffered(history[j].event, history[j].time, j)
  }

  /** The entries from k on. */
  function Entries(history: seq<Pushed>, k: nat): seq<Buffered>
    requires k <= |history|
  {
    seq(|history| - k, i requires 0 <= i < |history| - k => Entry(history, k + i))
  }

  /** The buffer is the suffix of the history from k on, and that suffix is exactly
      the window. */
  ghost predicate ExactFrom(limits: Limits, history: seq<Pushed>, events: seq<Buffered>, k: nat) {
    && k <= |history| && events == Entries(history, k)
    && (forall j :: 0 <= j < |history| ==> (InWindow(limits, history, j) <==> j >= k))
  }

  predicate Ordered(events: seq<Buffered>) {
    forall i, j :: 0 <= i < j < |events| ==> events[i].timestamp <= events[j].timestamp
  }

  lemma {:induction false} AllYoung(events: seq<Buffered>, cutoff: int)
    requires forall j :: 0 <= j < |events| ==> events[j].timestamp > cutoff
    ensures Young(events, cutoff) == events
  {
    if events != [] {
      AllYoung(events[1..], cutoff);
    }
  }

  /** In an ordered buffer the young entries are a suffix. */
  lemma {:induction false} YoungIsSuffix(events: seq<Buffered>, cutoff: int) returns (m: nat)
    requires Ordered(events)
    ensures m <= |events| && Young(events, cutoff) == events[m..]
    ensures forall j :: 0 <= j < |events| ==> (events[j].timestamp > cutoff <==> j >= m)
  {
    if events == [] {
      m := 0;
    } else if events[0].timestamp > cutoff {
      AllYoung(events, cutoff);
      m := 0;
    } else {
      var rest := events[1..];
      var r := YoungIsSuffix(rest, cutoff);
      m := r + 1;
      assert rest[r..] == events[m..];
      forall j | 0 <= j < |events|
        ensures events[j].timestamp > cutoff <==> j >= m
      {
        if j > 0 {
          assert events[j] == rest[j - 1];
        }
      }
    }
  }

  lemma EntriesOrdered(history: seq<Pushed>, k: nat)
    requires Monotone(history) && k <= |history|
    ensures Ordered(Entries(history, k))
  {
    var events := Entries(history, k);
    forall i, j | 0 <= i < j < |events|
      ensures events[i].timestamp <= events[j].timestamp
    {
      assert events[i] == Entry(history, k + i) && events[j] == Entry(history, k + j);
      assert history[k + i].time <= history[k + j].time;
    }
  }

  lemma EntriesDrop(history: seq<Pushed>, k: nat, m: nat)
    requires k + m <= |history|
    ensures Entries(history, k)[m..] == Entries(history, k + m)
  {
  }

  lemma EntriesSnoc(history: seq<Pushed>, k: nat)
    requires history != [] && k < |history|
    ensures var n := |history| - 1;
            Entries(history, k) == Entries(history[..n], k) + [Entry(history, n)]
  {
    var n := |history| - 1;
    var longer, shorter := Entries(history, k), Entries(history[..n], k) + [Entry(history, n)];
    forall i | 0 <= i < |longer|
      ensures longer[i] == shorter[i]
    {
      assert longer[i] == Entry(history, k + i);
    }
  }

  /** One push takes the suffix from k to the suffix from the later of two places:
      the first young entry and the last maxEvents. */
  lemma PushEntries(limits: Limits, history: seq<Pushed>, k: nat, m: nat) returns (k': nat)
    requires history != [] && k + m < |history|
    requires var n := |history| - 1;
             Young(Entries(history[..n], k), history[n].time - limits.maxDuration) == Entries(history[..n], k)[m..]
    ensures k' <= |history| && k' == if |history| - limits.maxEvents > k + m then |history| - limits.maxEvents else k + m
    ensures Push(limits, Entries(history[..|history| - 1], k), |history| - 1, history[|history| - 1]) == Entries(history, k')
  {
    var n := |history| - 1;
    EntriesDrop(history[..n], k, m);
    EntriesSnoc(history, k + m);
    k' := if |history| - limits.maxEvents > k + m then |history| - limits.maxEvents else k + m;
    EntriesDrop(history, k + m, k' - (k + m));
    assert |Entries(history, k + m)| == |history| - (k + m);
    hide Young;
    hide Entries;
  }

  /** The window after one more push, compared with the window before. */
  lemma WindowMoves(limits: Limits, history: seq<Pushed>, h: seq<Pushed>, k: nat, m: nat, k': nat)
    requires Monotone(history) && history != [] && h == history[..|history| - 1] && k + m < |history|
    requires forall j :: 0 <= j < |h| ==> (InWindow(limits, h, j) <==> j >= k)
    requires forall j :: k <= j < |h| ==>
               (h[j].time > history[|history| - 1].time - limits.maxDuration <==> j >= k + m)
    requires k' == if |history| - limits.maxEvents > k + m then |history| - limits.maxEvents else k + m
    ensures forall j :: 0 <= j < |history| ==> (InWindow(limits, history, j) <==> j >= k')
  {
    var n := |history| - 1;
    forall j | 0 <= j < |history|
      ensures InWindow(limits, history, j) <==> j >= k'
    {
      if j < n {
        var inside := InWindow(limits, h, j);
        assert h[j] == history[j] && h[n - 1] == history[n - 1];
      }
    }
  }

  /** After every push the buffer is exactly the window. */
  lemma {:induction false} BufferIsWindow(limits: Limits, history: seq<Pushed>) returns (k: nat)
    requires Monotone(history)
    ensures ExactFrom(limits, history, BufferAfter(limits, history), k)
  {
    if history == [] {
      k := 0;
    } else {
      var n := |history| - 1;
      var h := history[..n];
      var k0 := BufferIsWindow(limits, h);
      var events := BufferAfter(limits, h);
      EntriesOrdered(h, k0);
      var m := YoungIsSuffix(events, history[n].time - limits.maxDuration);
      k := PushEntries(limits, history, k0, m);
      forall j | k0 <= j < |h|
        ensures h[j].time > history[n].time - limits.maxDuration <==> j >= k0 + m
      {
        assert events[j - k0] == Entry(h, j);
      }
      WindowMoves(limits, history, h, k0, m, k);
      hide Young;
      hide Entries;
    }
  }

  // ----- the two filters

  /** The filter of live broadcasts: a client without rooms gets everything. */
  predicate ShouldSend(event: WsEvent, rooms: set<Room>) {
    rooms == {} ||
    match event
    case EscrowEvent(_, id, _) => EscrowRoom(id) in rooms
    case LoanEvent(_, id, _) => LoanRoom(id) in rooms
    case SystemEvent(_) => false
  }

  /** The filter of the buffer. */
  predicate MatchesRooms(event: WsEvent, rooms: set<Room>) {
    match event
    case EscrowEvent(_, id, _) => EscrowRoom(id) in rooms
    case LoanEvent(_, id, _) => LoanRoom(id) in rooms
    case SystemEvent(_) => false
  }

  /** The buffered events with an id above `since` that pass the test. */
  function Since(events: seq<Buffered>, since: nat, all: bool, rooms: set<Room>): seq<WsEvent> {
    if events == [] then [] else
      var last := events[|events| - 1];
      Since(events[..|events| - 1], since, all, rooms)
      + if last.id > since && (all || MatchesRooms(last.event, rooms)) then [last.event] else []
  }

  /** What a reconnecting client is sent. Without a last id it counts from 0. */
  function ReplayEvents(events: seq<Buffered>, rooms: set<Room>, lastEventId: Option<nat>): seq<WsEvent> {
    Since(events, if lastEventId.Some? then lastEventId.value else 0, rooms == {}, rooms)
  }

  /** What the filter for the rooms picks of the history from i up to j. */
  function Live(history: seq<Pushed>, rooms: set<Room>, i: nat, j: nat): seq<WsEvent>
    requires j <= |history|
  {
    if j <= i then [] else
      Live(history, rooms, i, j - 1) + if ShouldSend(history[j - 1].event, rooms) then [history[j - 1].event] else []
  }

  lemma {:induction false} LiveSplit(history: seq<Pushed>, rooms: set<Room>, i: nat, m: nat, j: nat)
    requires i <= m <= j <= |history|
    ensures Live(history, rooms, i, j) == Live(history, rooms, i, m) + Live(history, rooms, m, j)
  {
    if m < j {
      LiveSplit(history, rooms, i, m, j - 1);
    }
  }

  lemma {:induction false} LiveEmpty(history: seq<Pushed>, rooms: set<Room>, i: nat, j: nat)
    requires j <= |history|
    ensures Live(history, rooms, i, j) == [] <==> forall p :: i <= p < j ==> !ShouldSend(history[p].event, rooms)
  {
    if i < j {
      LiveEmpty(history, rooms, i, j - 1);
    }
  }

  /** The buffered part of a replay is what the filter picks of the same entries. */
  lemma {:induction false} SinceIsLive(history: seq<Pushed>, k: nat, j: nat, since: nat, rooms: set<Room>)
    requires k <= j <= |history|
    ensures Since(Entries(history[..j], k), since, rooms == {}, rooms)
         == Live(history, rooms, if since + 1 > k then since + 1 else k, j)
  {
    if k < j {
      SinceIsLive(history, k, j - 1, since, rooms);
      assert history[..j][..j - 1] == history[..j - 1];
      EntriesSnoc(history[..j], k);
      assert Entries(history[..j], k)[..j - 1 - k] == Entries(history[..j - 1], k);
    }
  }

  lemma SinceWhole(history: seq<Pushed>, k: nat, since: nat, rooms: set<Room>)
    requires k <= |history|
    ensures Since(Entries(history, k), since, rooms == {}, rooms)
         == Live(history, rooms, if since + 1 > k then since + 1 else k, |history|)
  {
    SinceIsLive(history, k, |history|, since, rooms);
    assert history[..|history|] == history;
    hide *;
  }

  /** The id of the oldest buffered event, or the next id if there is none. */
  function Oldest(history: seq<Pushed>, events: seq<Buffered>): int { |history| - |events| }

  lemma PrefixEmpty(a: seq<WsEvent>, b: seq<WsEvent>)
    ensures a + b == b <==> a == []
  {
    assert |a + b| == |a| + |b|;
  }

  /** A client that reconnects with an id not older than the buffer is sent, in order
      and without gap or repeat, exactly the later events that the filter picks for its
      rooms; nothing, for an id that was never given out. With an older id that is still
      true precisely when none of the lost events in between was for its rooms. */
  lemma ReplayIsLive(limits: Limits, history: seq<Pushed>, rooms: set<Room>, since: nat)
    requires Monotone(history)
    ensures var events := BufferAfter(limits, history);
            var k := Oldest(history, events);
            && 0 <= k <= |history|
            && (since + 1 >= k ==> ReplayEvents(events, rooms, Some(since)) == Live(history, rooms, since + 1, |history|))
            && (ReplayEvents(events, rooms, Some(since)) == Live(history, rooms, since + 1, |history|)
                <==> forall p :: since < p < k ==> !ShouldSend(history[p].event, rooms))
  {
    var k := BufferIsWindow(limits, history);
    assert BufferAfter(limits, history) == Entries(history, k) && |Entries(history, k)| == |history| - k;
    hide ExactFrom;
    hide Monotone;
    hide BufferAfter;
    hide Entries;
    hide Live;
    hide ShouldSend;
    ReplayOfEntries(history, k, rooms, since);
    hide ReplayEvents;
  }

  lemma ReplayOfEntries(history: seq<Pushed>, k: nat, rooms: set<Room>, since: nat)
    requires k <= |history|
    ensures since + 1 >= k ==> ReplayEvents(Entries(history, k), rooms, Some(since)) == Live(history, rooms, since + 1, |history|)
    ensures ReplayEvents(Entries(history, k), rooms, Some(since)) == Live(history, rooms, since + 1, |history|)
            <==> forall p :: since < p < k ==> !ShouldSend(history[p].event, rooms)
  {
    SinceWhole(history, k, since, rooms);
    hide Entries;
    hide Live;
    hide Since;
    hide ShouldSend;
    if since + 1 < k {
      LiveSplit(history, rooms, since + 1, k, |history|);
      LiveEmpty(history, rooms, since + 1, k);
      PrefixEmpty(Live(history, rooms, since + 1, k), Live(history, rooms, k, |history|));
    }
  }

  lemma LiveFirst(history: seq<Pushed>, rooms: set<Room>)
    requires history != []
    ensures Live(history, rooms, 0, |history|)
         == (if ShouldSend(history[0].event, rooms) then [history[0].event] else []) + Live(history, rooms, 1, |history|)
  {
    LiveSplit(history, rooms, 0, 1, |history|);
    assert Live(history, rooms, 0, 0) == [];
    assert Live(history, rooms, 0, 1) == if ShouldSend(history[0].event, rooms) then [history[0].event] else [];
  }

  lemma ReplayFromStart(history: seq<Pushed>, rooms: set<Room>)
    requires history != []
    ensures Live(history, rooms, 1, |history|) == Live(history, rooms, 0, |history|)
            <==> !ShouldSend(history[0].event, rooms)
  {
    LiveFirst(history, rooms);
    var tail := Live(history, rooms, 1, |history|);
    hide Live;
    PrefixEmpty([history[0].event], tail);
    assert [] + tail == tail;
  }

  /** A client that gives no last id is treated as if it had seen event 0, so it
      misses that event exactly when it is still buffered and was for it. */
  lemma ReplayWithoutId(limits: Limits, history: seq<Pushed>, rooms: set<Room>)
    requires Monotone(history) && history != []
    ensures var events := BufferAfter(limits, history);
            var k := Oldest(history, events);
            && k >= 0
            && (ReplayEvents(events, rooms, None) == Live(history, rooms, k, |history|)
                <==> !(k == 0 && ShouldSend(history[0].event, rooms)))
  {
    var k := BufferIsWindow(limits, history);
    assert BufferAfter(limits, history) == Entries(history, k) && |Entries(history, k)| == |history| - k;
    SinceWhole(history, k, 0, rooms);
    hide ExactFrom;
    hide Monotone;
    hide BufferAfter;
    hide Entries;
    hide Live;
    hide Since;
    hide ShouldSend;
    ReplayFromStart(history, rooms);
  }

  // ----- what was delivered at the time

  /** The room an event is about. */
  function OwnRoom(event: WsEvent): Option<Room> {
    match event
    case EscrowEvent(_, id, _) => Some(EscrowRoom(id))
    case LoanEvent(_, id, _) => Some(LoanRoom(id))
    case SystemEvent(_) => None
  }

  /** A client in these rooms was sent the event when it was published. */
  predicate Delivered(p: Pushed, rooms: set<Room>) {
    match p.path
    case ToAll => ShouldSend(p.event, rooms)
    case ToRoom(room) => room in rooms
  }

  /** Events for one room only go to the room they are about, as all callers see to. */
  predicate ToOwnRooms(history: seq<Pushed>) {
    forall j :: 0 <= j < |history| && history[j].path.ToRoom? ==> OwnRoom(history[j].event) == Some(history[j].path.room)
  }

  /** What a client in these rooms was sent of the history from i up to j. */
  function Sent(history: seq<Pushed>, rooms: set<Room>, i: nat, j: nat): seq<WsEvent>
    requires j <= |history|
  {
    if j <= i then [] else
      Sent(history, rooms, i, j - 1) + if Delivered(history[j - 1], rooms) then [history[j - 1].event] else []
  }

  /** Whatever the filter picks from i up to j was delivered. */
  predicate AllDelivered(history: seq<Pushed>, rooms: set<Room>, i: nat, j: nat)
    requires j <= |history|
  {
    forall p :: i <= p < j && ShouldSend(history[p].event, rooms) ==> Delivered(history[p], rooms)
  }

  lemma {:induction false} SentWithin(history: seq<Pushed>, rooms: set<Room>, i: nat, j: nat)
    requires j <= |history| && ToOwnRooms(history)
    ensures |Sent(history, rooms, i, j)| <= |Live(history, rooms, i, j)|
    ensures Sent(history, rooms, i, j) == Live(history, rooms, i, j) <==> AllDelivered(history, rooms, i, j)
  {
    if i < j {
      SentWithin(history, rooms, i, j - 1);
      var p := history[j - 1];
      assert Delivered(p, rooms) ==> ShouldSend(p.event, rooms);
      hide ShouldSend;
      hide Delivered;
      hide ToOwnRooms;
      LastPicked(Sent(history, rooms, i, j - 1), Live(history, rooms, i, j - 1), p.event);
    }
  }

  lemma LastPicked(a: seq<WsEvent>, b: seq<WsEvent>, e: WsEvent)
    requires |a| <= |b|
    ensures a + [e] == b + [e] <==> a == b
    ensures a != b + [e]
  {
    assert |b + [e]| == |b| + 1;
    assert a + [e] == b + [e] ==> (a + [e])[..|a|] == a && (b + [e])[..|b|] == b;
  }

  lemma AllDeliveredExactly(history: seq<Pushed>, rooms: set<Room>, i: nat, j: nat)
    requires j <= |history| && ToOwnRooms(history)
    ensures AllDelivered(history, rooms, i, j) <==> rooms != {} || forall p :: i <= p < j ==> history[p].path.ToAll?
  {
  }

  /** A replay is what the client was sent at the time, or would have been, exactly when
      the client has rooms or no later event went to one room only: without rooms it is
      replayed those, which it was never sent. */
  lemma ReplayIsDelivered(limits: Limits, history: seq<Pushed>, rooms: set<Room>, since: nat)
    requires Monotone(history) && ToOwnRooms(history)
    requires since + 1 >= Oldest(history, BufferAfter(limits, history))
    ensures ReplayEvents(BufferAfter(limits, history), rooms, Some(since)) == Sent(history, rooms, since + 1, |history|)
            <==> rooms != {} || forall p :: since < p < |history| ==> history[p].path.ToAll?
  {
    ReplayIsLive(limits, history, rooms, since);
    SentWithin(history, rooms, since + 1, |history|);
    AllDeliveredExactly(history, rooms, since + 1, |history|);
    hide *;
  }

  // ----- the id that comes with a replay

  /** The last id that the reply names: the given one plus the number of events sent. */
  function NextId(lastEventId: Option<nat>, replay: seq<WsEvent>): nat {
    (if lastEventId.Some? then lastEventId.value else 0) + |replay|
  }

  lemma {:induction false} LiveLength(history: seq<Pushed>, rooms: set<Room>, i: nat, j: nat)
    requires i <= j <= |history|
    ensures |Live(history, rooms, i, j)| <= j - i
    ensures |Live(history, rooms, i, j)| == j - i <==> forall p :: i <= p < j ==> ShouldSend(history[p].event, rooms)
  {
    hide ShouldSend;
    if i < j {
      LiveLength(history, rooms, i, j - 1);
    }
  }

  /** An event for the rooms comes after one that is not. */
  predicate Mixed(history: seq<Pushed>, rooms: set<Room>, i: nat) {
    exists p, q :: i <= p < q < |history| && !ShouldSend(history[p].event, rooms) && ShouldSend(history[q].event, rooms)
  }

  lemma LiveAfterCount(history: seq<Pushed>, rooms: set<Room>, i: nat)
    requires i <= |history|
    ensures var m := |Live(history, rooms, i, |history|)|;
            i + m <= |history| && (Live(history, rooms, i + m, |history|) == [] <==> !Mixed(history, rooms, i))
  {
    var n := |history|;
    LiveLength(history, rooms, i, n);
    var m := |Live(history, rooms, i, n)|;
    LiveSplit(history, rooms, i, i + m, n);
    LiveLength(history, rooms, i, i + m);
    LiveEmpty(history, rooms, i + m, n);
    hide ShouldSend;
    hide Live;
  }

  /** A client that comes back with the id a replay named is sent some events again, exactly
      when a later event was for its rooms after one that was not: the id counts the events
      sent and not those passed over. It names the latest event iff all were for the client. */
  lemma SecondReplay(limits: Limits, history: seq<Pushed>, rooms: set<Room>, since: nat)
    requires Monotone(history) && since < |history|
    requires since + 1 >= Oldest(history, BufferAfter(limits, history))
    ensures var events := BufferAfter(limits, history);
            var next := NextId(Some(since), ReplayEvents(events, rooms, Some(since)));
            && (next == |history| - 1 <==> forall p :: since < p < |history| ==> ShouldSend(history[p].event, rooms))
            && (ReplayEvents(events, rooms, Some(next)) == [] <==> !Mixed(history, rooms, since + 1))
  {
    var events := BufferAfter(limits, history);
    hide BufferAfter;
    hide ReplayEvents;
    hide ShouldSend;
    hide Live;
    hide Mixed;
    hide Monotone;
    ReplayIsLive(limits, history, rooms, since);
    LiveLength(history, rooms, since + 1, |history|);
    LiveAfterCount(history, rooms, since + 1);
    ReplayIsLive(limits, history, rooms, since + |ReplayEvents(events, rooms, Some(since))|);
  }

  // ----- the buffer object

  class Buffer {
    const limits: Limits
    var events: seq<Buffered>
    var nextEventId: nat
    ghost var history: seq<Pushed>

    /** The buffer is what the pushes so far make it. */
    ghost predicate Valid()
      reads this
    {
      events == BufferAfter(limits, history) && nextEventId == |history|
    }

    constructor (limits: Limits)
      ensures Valid() && history == [] && this.limits == limits
    {
      this.limits := limits;
      events, nextEventId, history := [], 0, [];
    }

    method PushEvent(event: WsEvent, now: int, ghost path: Path) returns (ghost oldest: nat)
      requires Valid()
      modifies this
      ensures Valid() && history == old(history) + [Pushed(event, now, path)]
      ensures Monotone(history) ==> ExactFrom(limits, history, events, oldest)
    {
      hide Young;
      hide LastOf;
      hide Monotone;
      hide ExactFrom;
      var id := nextEventId;
      nextEventId := nextEventId + 1;
      Retain(now - limits.maxDuration);
      events := events + [Buffered(event, now, id)];
      TrimToLimit();
      history := history + [Pushed(event, now, path)];
      assert history[..|history| - 1] == old(history);
      oldest := 0;
      if Monotone(history) {
        oldest := BufferIsWindow(limits, history);
      }
    }

    /** Drops the entries that are not younger than the cutoff. */
    method Retain(cutoff: int)
      modifies this`events
      ensures events == Young(old(events), cutoff)
    {
      var kept: seq<Buffered> := [];
      for i := 0 to |events|
        invariant events == old(events)
        invariant kept + Young(events[i..], cutoff) == Young(events, cutoff)
      {
        assert events[i..][0] == events[i] && events[i..][1..] == events[i + 1..];
        if events[i].timestamp > cutoff {
          assert kept + ([events[i]] + Young(events[i + 1..], cutoff)) == kept + [events[i]] + Young(events[i + 1..], cutoff);
          kept := kept + [events[i]];
        }
      }
      events := kept;
    }

    /** Drops the oldest entries while there are too many. */
    method TrimToLimit()
      modifies this`events
      ensures events == LastOf(old(events), limits.maxEvents)
    {
      ghost var all := events;
      while |events| > limits.maxEvents
        invariant |events| <= |all| && events == all[|all| - |events|..]
        invariant |events| >= limits.maxEvents || events == all
      {
        events := events[1..];
      }
    }

    method GetEventsSince(since: nat) returns (r: seq<WsEvent>)
      ensures r == Since(events, since, true, {})
    {
      r := [];
      for i := 0 to |events|
        invariant r == Since(events[..i], since, true, {})
      {
        assert events[..i + 1][..i] == events[..i];
        if events[i].id > since {
          r := r + [events[i].event];
        }
      }
      assert events[..|events|] == events;
    }

    method GetEventsForRooms(rooms: set<Room>, since: nat) returns (r: seq<WsEvent>)
      ensures r == Since(events, since, false, rooms)
    {
      r := [];
      for i := 0 to |events|
        invariant r == Since(events[..i], since, false, rooms)
      {
        assert events[..i + 1][..i] == events[..i];
        if events[i].id > since && MatchesRooms(events[i].event, rooms) {
          r := r + [events[i].event];
        }
      }
      assert events[..|events|] == events;
    }

    method GetReplayEvents(rooms: set<Room>, lastEventId: Option<nat>) returns (r: seq<WsEvent>)
      requires Valid()
      ensures r == ReplayEvents(events, rooms, lastEventId)
      ensures Monotone(history) && lastEventId.Some? && lastEventId.value + 1 >= Oldest(history, events)
              ==> r == Live(history, rooms, lastEventId.value + 1, |history|)
    {
      var since := if lastEventId.Some? then lastEventId.value else 0;
      if rooms == {} {
        r := GetEventsSince(since);
      } else {
        r := GetEventsForRooms(rooms, since);
      }
      if Monotone(history) && lastEventId.Some? {
        ReplayIsLive(limits, history, rooms, since);
      }
    }
  }
}
