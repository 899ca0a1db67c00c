/** What the indexer's batches come to, over every stream of events and every pattern of
    failures, retries and resets. */
module IndexerRuns {
  import opened MachineInts
  import opened Indexer

  // ----- writes that are made again

  /** Later writes to the same columns hide an earlier difference. */
  lemma ChangesOverwrite(r1: Row, r2: Row, c: Change, d: Change)
    requires Changed(r1, c) == Changed(r2, c)
    ensures Changed(Changed(r1, d), c) == Changed(Changed(r2, d), c)
  {
  }

  predicate Touches(w: Write, key: Key) { !w.NoWrite? && w.key == key }

  /** Two tables that a write w makes equal stay so under any write v, as long as v
      leaves alone the row that w inserts. */
  lemma DifferenceHidden(a: Tables, b: Tables, w: Write, v: Write)
    requires Apply(a, w) == Apply(b, w)
    requires w.Insert? ==> !Touches(v, w.key)
    ensures Apply(Apply(a, v), w) == Apply(Apply(b, v), w)
  {
    var a1, b1 := Apply(Apply(a, v), w), Apply(Apply(b, v), w);
    forall k
      ensures (k in a1 <==> k in b1) && (k in a1 ==> a1[k] == b1[k])
    {
      assert (k in Apply(a, w) <==> k in Apply(b, w)) && (k in Apply(a, w) ==> Apply(a, w)[k] == Apply(b, w)[k]);
      if w.Update? && v.Update? && k == w.key == v.key && k in a && k in b {
        ChangesOverwrite(a[k], b[k], w.change, v.change);
      }
    }
    assert a1 == b1;
  }

  lemma ApplyTwice(t: Tables, w: Write)
    ensures Apply(Apply(t, w), w) == Apply(t, w)
  {
  }

  lemma {:induction false} ReplaySplit(setup: Setup, stream: seq<Event>, t: Tables, i: nat, m: nat, j: nat)
    requires i <= m <= j <= |stream|
    ensures Replay(setup, stream, t, i, j) == Replay(setup, stream, Replay(setup, stream, t, i, m), m, j)
  {
    if m < j {
      ReplaySplit(setup, stream, t, i, m, j - 1);
    }
  }

  lemma {:induction false} KeysGrow(setup: Setup, stream: seq<Event>, t: Tables, i: nat, j: nat)
    requires j <= |stream|
    ensures t.Keys <= Replay(setup, stream, t, i, j).Keys
    ensures forall p :: i <= p < j && WriteOf(setup, stream[p]).Insert? ==>
              WriteOf(setup, stream[p]).key in Replay(setup, stream, t, i, j)
  {
    hide WriteOf;
    if i < j {
      KeysGrow(setup, stream, t, i, j - 1);
    }
  }

  lemma {:induction false} DifferenceHiddenUntil(
      setup: Setup, stream: seq<Event>, a: Tables, b: Tables, w: Write, d: nat, i: nat)
    requires i <= |stream| && Apply(a, w) == Apply(b, w)
    requires w.Insert? ==> forall p :: d <= p < i ==> !Touches(WriteOf(setup, stream[p]), w.key)
    ensures Apply(Replay(setup, stream, a, d, i), w) == Apply(Replay(setup, stream, b, d, i), w)
  {
    hide WriteOf;
    hide Apply;
    if d < i {
      DifferenceHiddenUntil(setup, stream, a, b, w, d, i - 1);
      DifferenceHidden(Replay(setup, stream, a, d, i - 1), Replay(setup, stream, b, d, i - 1), w, WriteOf(setup, stream[i - 1]));
    }
  }

  // ----- one row through a stretch of events

  predicate Updates(w: Write, key: Key) { w.Update? && w.key == key }

  predicate Inserts(w: Write, key: Key) { w.Insert? && w.key == key }

  /** What the updates from event d up to i make of a row that is there throughout. */
  function Traced(setup: Setup, stream: seq<Event>, row: Row, key: Key, d: nat, i: nat): Row
    requires i <= |stream|
  {
    if i <= d then row else
      var r := Traced(setup, stream, row, key, d, i - 1);
      var w := WriteOf(setup, stream[i - 1]);
      if Updates(w, key) then Changed(r, w.change) else r
  }

  lemma {:induction false} TracedRow(setup: Setup, stream: seq<Event>, t: Tables, key: Key, d: nat, i: nat)
    requires i <= |stream| && key in t
    ensures key in Replay(setup, stream, t, d, i)
    ensures Replay(setup, stream, t, d, i)[key] == Traced(setup, stream, t[key], key, d, i)
  {
    hide WriteOf;
    if d < i {
      TracedRow(setup, stream, t, key, d, i - 1);
    }
  }

  /** A row inserted early lives beside the rest and changes nothing else. */
  lemma {:induction false} TracedApart(setup: Setup, stream: seq<Event>, t: Tables, key: Key, row: Row, d: nat, i: nat)
    requires i <= |stream| && key !in t
    requires forall p :: d <= p < i ==> !Inserts(WriteOf(setup, stream[p]), key)
    ensures key !in Replay(setup, stream, t, d, i)
    ensures Replay(setup, stream, t[key := row], d, i)
            == Replay(setup, stream, t, d, i)[key := Traced(setup, stream, row, key, d, i)]
  {
    hide WriteOf;
    if d < i {
      TracedApart(setup, stream, t, key, row, d, i - 1);
      ApplyApart(Replay(setup, stream, t, d, i - 1), key, Traced(setup, stream, row, key, d, i - 1),
                 WriteOf(setup, stream[i - 1]));
    }
  }

  lemma ApplyApart(t: Tables, key: Key, row: Row, w: Write)
    requires key !in t && !Inserts(w, key)
    ensures key !in Apply(t, w)
    ensures Apply(t[key := row], w) == Apply(t, w)[key := if Updates(w, key) then Changed(row, w.change) else row]
  {
  }

  /** If event i inserts a new row, no event from d up to i inserts it, and what they
      update of it they leave as inserted. */
  predicate FreshInsertAllowed(setup: Setup, stream: seq<Event>, t: Tables, d: nat, i: nat)
    requires i < |stream|
  {
    var w := WriteOf(setup, stream[i]);
    w.Insert? && w.key !in t ==>
      && (forall p :: d <= p < i ==> !Inserts(WriteOf(setup, stream[p]), w.key))
      && Traced(setup, stream, w.row, w.key, d, i) == w.row
  }

  /** Making the write of event i early changes nothing that a replay across event i
      does not make good, unless it inserts a row that the replay would have changed
      before. */
  lemma EarlyWriteAbsorbed(setup: Setup, stream: seq<Event>, t: Tables, d: nat, i: nat, n: nat)
    requires d <= i < n <= |stream|
    requires FreshInsertAllowed(setup, stream, t, d, i)
    ensures Replay(setup, stream, Apply(t, WriteOf(setup, stream[i])), d, n) == Replay(setup, stream, t, d, n)
  {
    var t' := Apply(t, WriteOf(setup, stream[i]));
    AbsorbedAtOnce(setup, stream, t, d, i);
    hide WriteOf;
    hide Apply;
    hide FreshInsertAllowed;
    hide Replay;
    ReplaySplit(setup, stream, t', d, i + 1, n);
    ReplaySplit(setup, stream, t, d, i + 1, n);
  }

  lemma AbsorbedAtOnce(setup: Setup, stream: seq<Event>, t: Tables, d: nat, i: nat)
    requires d <= i < |stream| && FreshInsertAllowed(setup, stream, t, d, i)
    ensures Replay(setup, stream, Apply(t, WriteOf(setup, stream[i])), d, i + 1) == Replay(setup, stream, t, d, i + 1)
  {
    var w := WriteOf(setup, stream[i]);
    hide WriteOf;
    if w.Insert? && w.key in t {
      assert Apply(t, w) == t;
    } else if w.Insert? {
      TracedApart(setup, stream, t, w.key, w.row, d, i);
      hide Traced;
    } else {
      ApplyTwice(t, w);
      DifferenceHiddenUntil(setup, stream, Apply(t, w), t, w, d, i);
      hide Apply;
      hide FreshInsertAllowed;
    }
  }

  /** The same for a whole run of events from c up to m. */
  lemma {:induction false} EarlyRunAbsorbed(setup: Setup, stream: seq<Event>, t: Tables, d: nat, c: nat, m: nat, n: nat)
    requires d <= c <= m <= n <= |stream|
    requires forall i :: c <= i < m ==> FreshInsertAllowed(setup, stream, Replay(setup, stream, t, c, i), d, i)
    ensures Replay(setup, stream, Replay(setup, stream, t, c, m), d, n) == Replay(setup, stream, t, d, n)
  {
    if c < m {
      EarlyRunAbsorbed(setup, stream, t, d, c, m - 1, n);
      var t' := Replay(setup, stream, t, c, m - 1);
      assert FreshInsertAllowed(setup, stream, t', d, m - 1);
      EarlyWriteAbsorbed(setup, stream, t', d, m - 1, n);
    }
  }

  // ----- the order of events

  /** How many events from the start are handled one after the other. */
  function Passable(setup: Setup, stream: seq<Event>, i: nat := 0): (n: nat)
    requires i <= |stream|
    ensures i <= n <= |stream|
    ensures forall p :: i <= p < n ==> Handle(setup, stream[p]).Some?
    ensures n < |stream| ==> Handle(setup, stream[n]).None?
    decreases |stream| - i
  {
    if i < |stream| && Handle(setup, stream[i]).Some? then Passable(setup, stream, i + 1) else i
  }

  /** Event j is the first to insert its row. */
  predicate FirstCreate(setup: Setup, stream: seq<Event>, j: nat)
    requires j < |stream|
  {
    var w := WriteOf(setup, stream[j]);
    w.Insert? && forall k :: 0 <= k < j ==> !Inserts(WriteOf(setup, stream[k]), w.key)
  }

  /** Event i updates a row, and none after it and before j does. */
  predicate LastUpdate(setup: Setup, stream: seq<Event>, key: Key, i: nat, j: nat)
    requires i < j <= |stream|
  {
    Updates(WriteOf(setup, stream[i]), key) && forall m :: i < m < j ==> !Updates(WriteOf(setup, stream[m]), key)
  }

  /** The last update of a row before its creation, if there is one, is an unlock. An
      escrow is therefore never updated before its creation. */
  predicate Orderly(setup: Setup, stream: seq<Event>) {
    forall i, j :: 0 <= i < j < Passable(setup, stream) && FirstCreate(setup, stream, j)
                   && LastUpdate(setup, stream, WriteOf(setup, stream[j]).key, i, j)
                   ==> WriteOf(setup, stream[i]).change == SetLock(false)
  }

  predicate SameRecord(r1: Row, r2: Row) {
    && (r1.CollateralRow? <==> r2.CollateralRow?)
    && (r1.CollateralRow? ==> r1.owner == r2.owner && r1.faceValue == r2.faceValue && r1.expiry == r2.expiry)
  }

  lemma {:induction false} TracedSame(setup: Setup, stream: seq<Event>, row: Row, key: Key, d: nat, i: nat)
    requires i <= |stream|
    ensures SameRecord(Traced(setup, stream, row, key, d, i), row)
  {
    hide WriteOf;
    if d < i {
      TracedSame(setup, stream, row, key, d, i - 1);
    }
  }

  lemma {:induction false} NoUpdates(setup: Setup, stream: seq<Event>, row: Row, key: Key, d: nat, m: nat, i: nat)
    requires d <= m <= i <= |stream|
    requires forall p :: m <= p < i ==> !Updates(WriteOf(setup, stream[p]), key)
    ensures Traced(setup, stream, row, key, d, i) == Traced(setup, stream, row, key, d, m)
  {
    hide WriteOf;
    if m < i {
      NoUpdates(setup, stream, row, key, d, m, i - 1);
    }
  }

  /** What a handler inserts, and what it changes. */
  lemma HandlerWrites(setup: Setup, e: Event)
    ensures var w := WriteOf(setup, e);
            && (w.Insert? && setup.contract == CollateralContract ==>
                  w.row.CollateralRow? && !w.row.locked && w.row.collateralStatus == Active)
            && (w.Insert? && setup.contract == EscrowContract ==> w.row.EscrowRow? && w.row.status == Pending)
            && (w.Update? && setup.contract == CollateralContract ==> w.change.SetLock?)
            && (w.Update? && setup.contract == EscrowContract ==> !w.change.SetLock? && w.change.status != Pending)
            && (setup.contract == OtherContract ==> w.NoWrite?)
  {
  }

  /** The last update in a stretch, if there is any. */
  lemma {:induction false} FindLastUpdate(setup: Setup, stream: seq<Event>, key: Key, d: nat, i: nat) returns (q: nat)
    requires i <= |stream| && exists p :: d <= p < i && Updates(WriteOf(setup, stream[p]), key)
    ensures d <= q < i && LastUpdate(setup, stream, key, q, i)
  {
    hide WriteOf;
    if Updates(WriteOf(setup, stream[i - 1]), key) {
      q := i - 1;
    } else {
      q := FindLastUpdate(setup, stream, key, d, i - 1);
    }
  }

  /** In an orderly stream what came before a creation leaves the new row as created. */
  lemma OrderlyTrace(setup: Setup, stream: seq<Event>, d: nat, j: nat)
    requires Orderly(setup, stream) && d <= j < Passable(setup, stream) && FirstCreate(setup, stream, j)
    ensures var w := WriteOf(setup, stream[j]);
            Traced(setup, stream, w.row, w.key, d, j) == w.row
  {
    var w := WriteOf(setup, stream[j]);
    HandlerWrites(setup, stream[j]);
    hide WriteOf;
    hide FirstCreate;
    if exists p :: d <= p < j && Updates(WriteOf(setup, stream[p]), w.key) {
      var q := FindLastUpdate(setup, stream, w.key, d, j);
      HandlerWrites(setup, stream[q]);
      assert WriteOf(setup, stream[q]).change == SetLock(false);
      TracedSame(setup, stream, w.row, w.key, d, q);
      NoUpdates(setup, stream, w.row, w.key, d, q + 1, j);
    } else {
      NoUpdates(setup, stream, w.row, w.key, d, d, j);
    }
  }

  lemma FirstInsertAllowed(setup: Setup, stream: seq<Event>, d: nat, i: nat)
    requires Orderly(setup, stream) && d <= i < Passable(setup, stream)
    ensures FreshInsertAllowed(setup, stream, CleanPass(setup, stream, i), d, i)
  {
    KeysGrow(setup, stream, map[], 0, i);
    var w := WriteOf(setup, stream[i]);
    hide WriteOf;
    hide Replay;
    hide Orderly;
    hide Traced;
    if w.Insert? && w.key !in CleanPass(setup, stream, i) {
      assert FirstCreate(setup, stream, i);
      OrderlyTrace(setup, stream, d, i);
    }
  }

  // ----- convergence

  /** Events d up to n may be applied once more on top of a clean pass. */
  lemma SuffixAgain(setup: Setup, stream: seq<Event>, d: nat, n: nat)
    requires Orderly(setup, stream) && d <= n <= Passable(setup, stream)
    ensures Replay(setup, stream, CleanPass(setup, stream, n), d, n) == CleanPass(setup, stream, n)
  {
    var t := CleanPass(setup, stream, d);
    forall i | d <= i < n
      ensures FreshInsertAllowed(setup, stream, Replay(setup, stream, t, d, i), d, i)
    {
      ReplaySplit(setup, stream, map[], 0, d, i);
      FirstInsertAllowed(setup, stream, d, i);
    }
    hide Orderly;
    hide FreshInsertAllowed;
    EarlyRunAbsorbed(setup, stream, t, d, d, n, n);
    ReplaySplit(setup, stream, map[], 0, d, n);
  }

  /** What the attempts keep on any stream: the cursor stays behind the furthest applied
      event, and that behind the first event that cannot be handled. */
  predicate Bounded(setup: Setup, stream: seq<Event>, s: State) {
    s.cursor <= s.furthest <= Passable(setup, stream)
  }

  /** Replaying from the cursor, or from the start, up to the furthest applied event
      brings the tables to the clean pass, and every row created so far is there. */
  ghost predicate Inv(setup: Setup, stream: seq<Event>, s: State) {
    && Bounded(setup, stream, s)
    && Replay(setup, stream, s.tables, s.cursor, s.furthest) == CleanPass(setup, stream, s.furthest)
    && Replay(setup, stream, s.tables, 0, s.furthest) == CleanPass(setup, stream, s.furthest)
    && (forall p :: 0 <= p < s.furthest && WriteOf(setup, stream[p]).Insert? ==> WriteOf(setup, stream[p]).key in s.tables)
  }

  /** Applying events again that have been applied before. */
  lemma Reapplied(setup: Setup, stream: seq<Event>, s: State, m: nat)
    requires Inv(setup, stream, s) && s.cursor <= m <= s.furthest
    ensures var t := Replay(setup, stream, s.tables, s.cursor, m);
            && Replay(setup, stream, t, s.cursor, s.furthest) == CleanPass(setup, stream, s.furthest)
            && Replay(setup, stream, t, 0, s.furthest) == CleanPass(setup, stream, s.furthest)
            && Replay(setup, stream, t, m, s.furthest) == CleanPass(setup, stream, s.furthest)
            && s.tables.Keys <= t.Keys
  {
    KeysGrow(setup, stream, s.tables, s.cursor, m);
    forall i | s.cursor <= i < m
      ensures FreshInsertAllowed(setup, stream, Replay(setup, stream, s.tables, s.cursor, i), s.cursor, i)
      ensures FreshInsertAllowed(setup, stream, Replay(setup, stream, s.tables, s.cursor, i), 0, i)
    {
      KeysGrow(setup, stream, s.tables, s.cursor, i);
    }
    hide WriteOf;
    hide FreshInsertAllowed;
    EarlyRunAbsorbed(setup, stream, s.tables, s.cursor, s.cursor, m, s.furthest);
    EarlyRunAbsorbed(setup, stream, s.tables, 0, s.cursor, m, s.furthest);
    ReplaySplit(setup, stream, s.tables, s.cursor, m, s.furthest);
  }

  /** Applying events that have not been applied before. */
  lemma Advanced(setup: Setup, stream: seq<Event>, s: State, m: nat)
    requires Inv(setup, stream, s) && s.furthest <= m <= |stream|
    ensures Replay(setup, stream, s.tables, s.cursor, m) == CleanPass(setup, stream, m)
  {
    ReplaySplit(setup, stream, s.tables, s.cursor, s.furthest, m);
    ReplaySplit(setup, stream, map[], 0, s.furthest, m);
  }

  lemma AppliedKeepsInv(setup: Setup, stream: seq<Event>, s: State, s': State, m: nat)
    requires Orderly(setup, stream) && Inv(setup, stream, s) && s.cursor <= m <= Passable(setup, stream)
    requires s'.tables == Replay(setup, stream, s.tables, s.cursor, m) && s'.furthest == Max(s.furthest, m)
    requires s'.cursor == s.cursor || s'.cursor == m
    ensures Inv(setup, stream, s')
  {
    hide Orderly;
    if m <= s.furthest {
      Reapplied(setup, stream, s, m);
    } else {
      Advanced(setup, stream, s, m);
      SuffixAgain(setup, stream, s.cursor, m);
      SuffixAgain(setup, stream, m, m);
      SuffixAgain(setup, stream, 0, m);
      KeysGrow(setup, stream, map[], 0, m);
    }
    hide Replay;
    hide WriteOf;
    hide Handle;
  }

  lemma StopsInTime(setup: Setup, stream: seq<Event>, s: State, a: Attempt)
    requires Bounded(setup, stream, s) && Feasible(setup, stream, s, a)
    ensures StopAt(setup, stream, s.tables, s.cursor, s.cursor + a.count, a.failAt, a.now) <= Passable(setup, stream)
  {
    var stop := StopAt(setup, stream, s.tables, s.cursor, s.cursor + a.count, a.failAt, a.now);
    hide StopAt;
    var n := Passable(setup, stream);
    hide Passable;
    assert n < |stream| ==> Handle(setup, stream[n]).None?;
  }

  lemma BatchKeepsBounded(setup: Setup, stream: seq<Event>, s: State, a: Attempt)
    requires Bounded(setup, stream, s) && Feasible(setup, stream, s, a)
    ensures Bounded(setup, stream, Batch(setup, stream, s, a))
  {
    StopsInTime(setup, stream, s, a);
    hide Replay;
    hide Handle;
    hide StopAt;
    hide Passable;
  }

  lemma {:induction false} ReachableBounded(setup: Setup, stream: seq<Event>, attempts: seq<Attempt>)
    ensures Bounded(setup, stream, After(setup, stream, attempts))
  {
    hide Batch;
    if attempts != [] {
      var before := attempts[..|attempts| - 1];
      ReachableBounded(setup, stream, before);
      var s := After(setup, stream, before);
      if Feasible(setup, stream, s, attempts[|attempts| - 1]) {
        BatchKeepsBounded(setup, stream, s, attempts[|attempts| - 1]);
      }
    }
  }

  lemma BatchKeepsInv(setup: Setup, stream: seq<Event>, s: State, a: Attempt)
    requires Orderly(setup, stream) && Inv(setup, stream, s) && Feasible(setup, stream, s, a)
    ensures Inv(setup, stream, Batch(setup, stream, s, a))
  {
    StopsInTime(setup, stream, s, a);
    hide StopAt;
    hide Replay;
    hide WriteOf;
    hide Handle;
    hide Orderly;
    hide Passable;
    var s' := Batch(setup, stream, s, a);
    if !(s.lastLedger > 0 && a.latestLedger < s.lastLedger) && a.count > 0 {
      var stop := StopAt(setup, stream, s.tables, s.cursor, s.cursor + a.count, a.failAt, a.now);
      AppliedKeepsInv(setup, stream, s, s', stop);
    } else {
      ResetKeepsInv(setup, stream, s, s');
    }
    hide Inv;
  }

  /** Going back to the start, or staying, with the tables as they are. */
  lemma ResetKeepsInv(setup: Setup, stream: seq<Event>, s: State, s': State)
    requires Inv(setup, stream, s) && s'.tables == s.tables && s'.furthest == s.furthest
    requires s'.cursor == s.cursor || s'.cursor == 0
    ensures Inv(setup, stream, s')
  {
    hide Replay;
    hide WriteOf;
    hide Passable;
  }

  lemma {:induction false} ReachableInv(setup: Setup, stream: seq<Event>, attempts: seq<Attempt>)
    requires Orderly(setup, stream)
    ensures Inv(setup, stream, After(setup, stream, attempts))
  {
    hide Orderly;
    hide Batch;
    if attempts != [] {
      hide Inv;
      var before := attempts[..|attempts| - 1];
      ReachableInv(setup, stream, before);
      var s := After(setup, stream, before);
      if Feasible(setup, stream, s, attempts[|attempts| - 1]) {
        BatchKeepsInv(setup, stream, s, attempts[|attempts| - 1]);
      }
    }
  }

  /** Whatever failed and was retried or reset on the way, once the saved cursor has
      caught up with the furthest event ever applied, the tables are those of one
      clean pass over the stream up to there. */
  lemma Converges(setup: Setup, stream: seq<Event>, attempts: seq<Attempt>)
    requires Orderly(setup, stream)
    ensures var s := After(setup, stream, attempts);
            && s.cursor <= s.furthest <= Passable(setup, stream)
            && (s.cursor == s.furthest ==> s.tables == CleanPass(setup, stream, s.cursor))
            && Replay(setup, stream, s.tables, s.cursor, s.furthest) == CleanPass(setup, stream, s.furthest)
  {
    ReachableInv(setup, stream, attempts);
    hide After;
    hide Orderly;
    hide Passable;
  }

  // ----- expired rows

  /** Every collateral row of t is one of t0, with the same expiry, or expires after now. */
  predicate Alive(t0: Tables, t: Tables, now: int) {
    forall k :: k in t && t[k].CollateralRow? ==> (k in t0 && SameRecord(t0[k], t[k])) || t[k].expiry > now
  }

  lemma {:induction false} ReplayAlive(setup: Setup, stream: seq<Event>, t: Tables, i: nat, j: nat, now: int)
    requires i <= j <= |stream|
    requires forall p :: i <= p < j ==> !Expired(t, WriteOf(setup, stream[p]), now)
    ensures Alive(t, Replay(setup, stream, t, i, j), now)
  {
    hide WriteOf;
    if i < j {
      ReplayAlive(setup, stream, t, i, j - 1, now);
    }
  }

  /** Events that have not expired for the tables at the start have not when they come up. */
  lemma NotExpiredYet(setup: Setup, stream: seq<Event>, t: Tables, i: nat, j: nat, now: int)
    requires i <= j < |stream|
    requires forall p :: i <= p <= j ==> !Expired(t, WriteOf(setup, stream[p]), now)
    ensures !Expired(Replay(setup, stream, t, i, j), WriteOf(setup, stream[j]), now)
  {
    ReplayAlive(setup, stream, t, i, j, now);
    hide WriteOf;
    hide Replay;
  }

  lemma HandledInTime(setup: Setup, t: Tables, e: Event)
    requires Alive(map[], t, setup.since)
    ensures !Expired(t, WriteOf(setup, e), setup.since)
  {
  }

  /** At the start nothing that can be handled has expired. */
  lemma {:induction false} StartsAlive(setup: Setup, stream: seq<Event>, t: Tables, i: nat, j: nat)
    requires i <= j <= |stream| && Alive(map[], t, setup.since)
    ensures Alive(map[], Replay(setup, stream, t, i, j), setup.since)
  {
    if i < j {
      StartsAlive(setup, stream, t, i, j - 1);
      HandledInTime(setup, Replay(setup, stream, t, i, j - 1), stream[j - 1]);
      hide WriteOf;
    }
  }

  // ----- walking through a stream, once and once more

  function OneEvent(now: int): Attempt { Attempt(1, MAX_U64, 1, true, now) }

  /** Single-event attempts that nothing but the clock disturbs. */
  function Walk(n: nat, now: int): seq<Attempt> { seq(n, _ => OneEvent(now)) }

  /** A node that seems to fall behind makes the indexer start again. */
  function Restart(now: int): seq<Attempt> { [Attempt(0, 1, 0, true, now), Attempt(0, 0, 0, true, now)] }

  lemma OneStep(setup: Setup, stream: seq<Event>, s: State, now: int)
    requires s.cursor < |stream| && Handle(setup, stream[s.cursor]).Some? && now >= setup.since
    requires !Expired(s.tables, WriteOf(setup, stream[s.cursor]), now)
    ensures Feasible(setup, stream, s, OneEvent(now))
    ensures var s' := Batch(setup, stream, s, OneEvent(now));
            && s'.cursor == s.cursor + 1 && s'.furthest == Max(s.furthest, s.cursor + 1)
            && s'.tables == Apply(s.tables, WriteOf(setup, stream[s.cursor]))
  {
    hide Handle;
    hide WriteOf;
    hide Expired;
    hide Apply;
    var t := Apply(s.tables, WriteOf(setup, stream[s.cursor]));
    assert StopAt(setup, stream, t, s.cursor + 1, s.cursor + 1, 0, now) == s.cursor + 1;
    assert Replay(setup, stream, s.tables, s.cursor, s.cursor) == s.tables;
  }

  lemma AfterOneMore(setup: Setup, stream: seq<Event>, before: seq<Attempt>, a: Attempt)
    ensures var s := After(setup, stream, before);
            After(setup, stream, before + [a]) == if Feasible(setup, stream, s, a) then Batch(setup, stream, s, a) else s
  {
    hide Batch;
    hide Feasible;
    assert (before + [a])[..|before|] == before;
  }

  /** Events that can be handled and have not expired can be walked through. */
  lemma {:induction false} Walked(setup: Setup, stream: seq<Event>, attempts: seq<Attempt>, n: nat, now: int)
    requires now >= setup.since && After(setup, stream, attempts).cursor + n <= Passable(setup, stream)
    requires var s := After(setup, stream, attempts);
             forall p :: s.cursor <= p < s.cursor + n ==> !Expired(s.tables, WriteOf(setup, stream[p]), now)
    ensures var s, s' := After(setup, stream, attempts), After(setup, stream, attempts + Walk(n, now));
            && s'.cursor == s.cursor + n && s'.furthest == Max(s.furthest, s.cursor + n)
            && s'.tables == Replay(setup, stream, s.tables, s.cursor, s.cursor + n)
  {
    ReachableBounded(setup, stream, attempts);
    hide Batch;
    hide WriteOf;
    hide Handle;
    hide After;
    hide Expired;
    hide Feasible;
    hide Passable;
    if n == 0 {
      assert attempts + Walk(0, now) == attempts;
    } else {
      Walked(setup, stream, attempts, n - 1, now);
      var s, before := After(setup, stream, attempts), attempts + Walk(n - 1, now);
      assert attempts + Walk(n, now) == before + [OneEvent(now)];
      NotExpiredYet(setup, stream, s.tables, s.cursor, s.cursor + n - 1, now);
      AfterOneMore(setup, stream, before, OneEvent(now));
      OneStep(setup, stream, After(setup, stream, before), now);
    }
  }

  lemma Restarted(setup: Setup, stream: seq<Event>, attempts: seq<Attempt>, now: int)
    requires now >= setup.since
    ensures var s, s' := After(setup, stream, attempts), After(setup, stream, attempts + Restart(now));
            s'.cursor == 0 && s'.furthest == s.furthest && s'.tables == s.tables
  {
    ReachableBounded(setup, stream, attempts);
    hide Passable;
    hide After;
    hide StopAt;
    hide Replay;
    var first := attempts + [Attempt(0, 1, 0, true, now)];
    AfterOneMore(setup, stream, attempts, Attempt(0, 1, 0, true, now));
    AfterOneMore(setup, stream, first, Attempt(0, 0, 0, true, now));
    assert attempts + Restart(now) == first + [Attempt(0, 0, 0, true, now)];
  }

  function Again(n: nat, now: int): seq<Attempt> { Walk(n, now) + Restart(now) + Walk(n, now) }

  /** A clean pass over n events can be had, before any of their rows expires. */
  lemma OnePass(setup: Setup, stream: seq<Event>, n: nat)
    requires n <= Passable(setup, stream)
    ensures var s := After(setup, stream, Walk(n, setup.since));
            s.cursor == s.furthest == n && s.tables == CleanPass(setup, stream, n)
  {
    assert After(setup, stream, []) == EMPTY;
    hide After;
    forall p | 0 <= p < n
      ensures !Expired(map[], WriteOf(setup, stream[p]), setup.since)
    {
      HandledInTime(setup, map[], stream[p]);
    }
    hide WriteOf;
    hide Expired;
    hide Passable;
    hide Replay;
    Walked(setup, stream, [], n, setup.since);
    assert [] + Walk(n, setup.since) == Walk(n, setup.since);
  }

  /** And so can a second pass on top of it. */
  lemma TwoPasses(setup: Setup, stream: seq<Event>, n: nat)
    requires n <= Passable(setup, stream)
    ensures var s := After(setup, stream, Again(n, setup.since));
            s.cursor == s.furthest == n && s.tables == Replay(setup, stream, CleanPass(setup, stream, n), 0, n)
  {
    var now := setup.since;
    StartsAlive(setup, stream, map[], 0, n);
    hide After;
    hide Replay;
    hide Passable;
    forall p | 0 <= p < n
      ensures !Expired(CleanPass(setup, stream, n), WriteOf(setup, stream[p]), now)
    {
      HandledInTime(setup, CleanPass(setup, stream, n), stream[p]);
    }
    hide WriteOf;
    hide Expired;
    OnePass(setup, stream, n);
    Restarted(setup, stream, Walk(n, now), now);
    Walked(setup, stream, Walk(n, now) + Restart(now), n, now);
  }

  // ----- which streams stop an indexer, and where

  /** Some attempts bring the saved cursor to n. */
  ghost predicate Reaches(setup: Setup, stream: seq<Event>, n: nat) {
    exists attempts :: After(setup, stream, attempts).cursor == n
  }

  /** The cursor can get past the first n events exactly when each of them is handled: an
      event whose handler fails stops its indexer for good, and while nothing has expired
      nothing else does. */
  lemma StopsExactly(setup: Setup, stream: seq<Event>, n: nat)
    requires n <= |stream|
    ensures Reaches(setup, stream, n) <==> forall p :: 0 <= p < n ==> Handle(setup, stream[p]).Some?
  {
    hide After;
    hide Handle;
    if attempts :| After(setup, stream, attempts).cursor == n {
      ReachableBounded(setup, stream, attempts);
    }
    if forall p :: 0 <= p < n ==> Handle(setup, stream[p]).Some? {
      var m := Passable(setup, stream);
      assert m < |stream| ==> Handle(setup, stream[m]).None?;
      OnePass(setup, stream, n);
    }
  }

  /** So on any stream, whatever the attempts, neither the cursor nor any write gets past
      an event whose handler fails. */
  lemma StuckAtBadEvent(setup: Setup, stream: seq<Event>, attempts: seq<Attempt>, bad: nat)
    requires bad < |stream| && Handle(setup, stream[bad]).None?
    ensures var s := After(setup, stream, attempts);
            s.cursor <= s.furthest <= bad
  {
    ReachableBounded(setup, stream, attempts);
    hide After;
    hide Handle;
    Barrier(setup, stream, bad);
  }

  lemma Barrier(setup: Setup, stream: seq<Event>, bad: nat)
    requires bad < |stream| && Handle(setup, stream[bad]).None?
    ensures Passable(setup, stream) <= bad
  {
    hide Handle;
  }

  // ----- the same once the clock has moved on

  lemma ExpiredStays(t: Tables, v: Write, w: Write, past: int, now: int)
    requires Expired(t, w, past) && past <= now
    ensures Expired(Apply(t, v), w, now)
  {
  }

  /** A batch does not get past a write that has expired for the tables it starts from. */
  lemma {:induction false} StopsAtExpired(
      setup: Setup, stream: seq<Event>, t: Tables, i: nat, end: nat, failAt: nat, now: int, p: nat)
    requires i <= end <= |stream| && i <= p < |stream| && Expired(t, WriteOf(setup, stream[p]), now)
    ensures StopAt(setup, stream, t, i, end, failAt, now) <= p
    decreases end - i
  {
    if i < end && i < p && failAt > 0 {
      ExpiredStays(t, WriteOf(setup, stream[i]), WriteOf(setup, stream[p]), now, now);
      hide WriteOf;
      hide Handle;
      hide Expired;
      hide Apply;
      StopsAtExpired(setup, stream, Apply(t, WriteOf(setup, stream[i])), i + 1, end, failAt - 1, now, p);
    }
  }

  lemma {:induction false} ReplayKeepsExpired(
      setup: Setup, stream: seq<Event>, t: Tables, i: nat, j: nat, w: Write, past: int, now: int)
    requires j <= |stream| && Expired(t, w, past) && past <= now
    ensures Expired(Replay(setup, stream, t, i, j), w, now)
  {
    hide WriteOf;
    if i < j {
      ReplayKeepsExpired(setup, stream, t, i, j - 1, w, past, now);
      ExpiredStays(Replay(setup, stream, t, i, j - 1), WriteOf(setup, stream[j - 1]), w, now, now);
    } else {
      ExpiredStays(t, NoWrite, w, past, now);
    }
  }

  /** The cursor is at most at event p, whose write has expired at the given time. */
  predicate Blocked(setup: Setup, stream: seq<Event>, s: State, p: nat, now: int)
    requires p < |stream|
  {
    s.cursor <= p && Expired(s.tables, WriteOf(setup, stream[p]), now)
  }

  lemma StaysBlocked(setup: Setup, stream: seq<Event>, s: State, a: Attempt, p: nat, past: int)
    requires p < |stream| && Blocked(setup, stream, s, p, past) && Feasible(setup, stream, s, a) && a.now >= past
    ensures Blocked(setup, stream, Batch(setup, stream, s, a), p, past)
  {
    var w, end := WriteOf(setup, stream[p]), s.cursor + a.count;
    ReplayKeepsExpired(setup, stream, s.tables, 0, 0, w, past, a.now);
    StopsAtExpired(setup, stream, s.tables, s.cursor, end, a.failAt, a.now, p);
    var stop := StopAt(setup, stream, s.tables, s.cursor, end, a.failAt, a.now);
    hide StopAt;
    ReplayKeepsExpired(setup, stream, s.tables, s.cursor, stop, w, past, past);
    hide Replay;
    hide Handle;
    hide WriteOf;
    hide Expired;
  }

  predicate NotBefore(attempts: seq<Attempt>, now: int) {
    forall i :: 0 <= i < |attempts| ==> attempts[i].now >= now
  }

  /** Once the write of an event has expired that the cursor has not passed, or has been set
      back behind, no later attempt gets past it. */
  lemma {:induction false} StuckOnceExpired(
      setup: Setup, stream: seq<Event>, before: seq<Attempt>, later: seq<Attempt>, p: nat, now: int)
    requires p < |stream| && Blocked(setup, stream, After(setup, stream, before), p, now) && NotBefore(later, now)
    ensures Blocked(setup, stream, After(setup, stream, before + later), p, now)
  {
    hide Blocked;
    hide Batch;
    hide After;
    if later == [] {
      assert before + later == before;
    } else {
      var n := |later| - 1;
      StuckOnceExpired(setup, stream, before, later[..n], p, now);
      assert before + later == before + later[..n] + [later[n]];
      AfterOneMore(setup, stream, before + later[..n], later[n]);
      var s := After(setup, stream, before + later[..n]);
      if Feasible(setup, stream, s, later[n]) {
        StaysBlocked(setup, stream, s, later[n], p, now);
      }
    }
  }

  /** Some attempts, none of them before the given time, bring the cursor to n. */
  ghost predicate ReachesFrom(setup: Setup, stream: seq<Event>, before: seq<Attempt>, now: int, n: nat) {
    exists later :: NotBefore(later, now) && After(setup, stream, before + later).cursor == n
  }

  /** From where it stands the cursor can get on to n from some moment on exactly when every
      event in between is handled and its write has not expired for the present tables. */
  lemma ReachesExactly(setup: Setup, stream: seq<Event>, before: seq<Attempt>, now: int, n: nat)
    requires now >= setup.since && After(setup, stream, before).cursor <= n <= |stream|
    ensures var s := After(setup, stream, before);
            ReachesFrom(setup, stream, before, now, n)
            <==> forall p :: s.cursor <= p < n ==>
                   Handle(setup, stream[p]).Some? && !Expired(s.tables, WriteOf(setup, stream[p]), now)
  {
    var s := After(setup, stream, before);
    hide After;
    hide Handle;
    hide WriteOf;
    hide Expired;
    if later :| NotBefore(later, now) && After(setup, stream, before + later).cursor == n {
      ReachableBounded(setup, stream, before + later);
      forall p | s.cursor <= p < n
        ensures Handle(setup, stream[p]).Some? && !Expired(s.tables, WriteOf(setup, stream[p]), now)
      {
        if Expired(s.tables, WriteOf(setup, stream[p]), now) {
          StuckOnceExpired(setup, stream, before, later, p, now);
        }
      }
    }
    if forall p :: s.cursor <= p < n ==>
         Handle(setup, stream[p]).Some? && !Expired(s.tables, WriteOf(setup, stream[p]), now) {
      ReachableBounded(setup, stream, before);
      assert n <= Passable(setup, stream) by {
        var m := Passable(setup, stream);
        assert m < |stream| ==> Handle(setup, stream[m]).None?;
      }
      Walked(setup, stream, before, n - s.cursor, now);
      assert NotBefore(Walk(n - s.cursor, now), now);
    }
  }

  /** So an indexer that starts again after a collateral has expired never gets past the
      registration of it. */
  lemma NoRestartAfterExpiry(setup: Setup, stream: seq<Event>, before: seq<Attempt>, later: seq<Attempt>, p: nat, now: int)
    requires now >= setup.since && NotBefore(later, now) && p < |stream|
    requires var w := WriteOf(setup, stream[p]);
             w.Insert? && w.row.CollateralRow? && w.row.expiry <= now
    ensures After(setup, stream, before + Restart(now) + later).cursor <= p
  {
    Restarted(setup, stream, before, now);
    StuckOnceExpired(setup, stream, before + Restart(now), later, p, now);
    hide After;
    hide WriteOf;
  }

  /** And a lock or an unlock of a collateral that has expired is never passed. */
  lemma NoLockAfterExpiry(setup: Setup, stream: seq<Event>, before: seq<Attempt>, later: seq<Attempt>, p: nat, id: int, now: int)
    requires p < |stream| && NotBefore(later, now) && Updates(WriteOf(setup, stream[p]), CollateralKey(id))
    requires var s := After(setup, stream, before);
             && s.cursor <= p && CollateralKey(id) in s.tables
             && s.tables[CollateralKey(id)].CollateralRow? && s.tables[CollateralKey(id)].expiry <= now
    ensures After(setup, stream, before + later).cursor <= p
  {
    StuckOnceExpired(setup, stream, before, later, p, now);
    hide After;
    hide WriteOf;
  }

  // ----- what the migrations leave out

  /** With the statuses of the migrations, a refund decision is such an event. */
  lemma RefundStops(setup: Setup, stream: seq<Event>, attempts: seq<Attempt>, at: nat, args: seq<ScVal>, ledger: U64)
    requires setup.contract == EscrowContract && setup.statuses == MIGRATED
    requires at < |stream| && stream[at] == Named(EscRslv, Some(args), ledger)
    requires |args| >= 2 && ToU64(args[1]) == Some(1)
    ensures var s := After(setup, stream, attempts);
            s.cursor <= s.furthest <= at
  {
    assert Handle(setup, stream[at]).None?;
    StuckAtBadEvent(setup, stream, attempts, at);
  }

  /** A creation, of a collateral or an escrow as the contract may be. */
  predicate Creation(setup: Setup, e: Event) {
    && e.Named? && e.args.Some?
    && ((setup.contract == CollateralContract && e.name == CollReg) || (setup.contract == EscrowContract && e.name == EscCrtd))
  }

  /** Without the column for addresses in the users table, which no migration adds, no
      creation is ever passed and nothing is ever written. */
  lemma NothingWithoutColumn(setup: Setup, stream: seq<Event>, attempts: seq<Attempt>, at: nat)
    requires !setup.addressColumn
    ensures var s := After(setup, stream, attempts);
            s.tables == map[] && (at < |stream| && Creation(setup, stream[at]) ==> s.cursor <= s.furthest <= at)
  {
    forall j | 0 <= j < Passable(setup, stream)
      ensures !WriteOf(setup, stream[j]).Insert?
    {
    }
    StaysEmpty(setup, stream, attempts);
    if at < |stream| && Creation(setup, stream[at]) {
      assert Handle(setup, stream[at]).None?;
      StuckAtBadEvent(setup, stream, attempts, at);
    }
    hide After;
    hide WriteOf;
  }

  /** The tables stay empty for ever exactly when no create event is within reach. */
  lemma EmptyExactly(setup: Setup, stream: seq<Event>)
    ensures (forall attempts :: After(setup, stream, attempts).tables == map[])
            <==> forall j :: 0 <= j < Passable(setup, stream) ==> !WriteOf(setup, stream[j]).Insert?
  {
    hide WriteOf;
    hide After;
    if forall j :: 0 <= j < Passable(setup, stream) ==> !WriteOf(setup, stream[j]).Insert? {
      forall attempts
        ensures After(setup, stream, attempts).tables == map[]
      {
        StaysEmpty(setup, stream, attempts);
      }
    } else {
      var j :| 0 <= j < Passable(setup, stream) && WriteOf(setup, stream[j]).Insert?;
      OnePass(setup, stream, j + 1);
      KeysGrow(setup, stream, map[], 0, j + 1);
      assert After(setup, stream, Walk(j + 1, setup.since)).tables != map[];
    }
  }

  lemma {:induction false} NothingCreated(setup: Setup, stream: seq<Event>, i: nat, j: nat)
    requires i <= j <= |stream| && forall p :: i <= p < j ==> !WriteOf(setup, stream[p]).Insert?
    ensures Replay(setup, stream, map[], i, j) == map[]
  {
    hide WriteOf;
    if i < j {
      NothingCreated(setup, stream, i, j - 1);
    }
  }

  lemma {:induction false} StaysEmpty(setup: Setup, stream: seq<Event>, attempts: seq<Attempt>)
    requires forall j :: 0 <= j < Passable(setup, stream) ==> !WriteOf(setup, stream[j]).Insert?
    ensures After(setup, stream, attempts).tables == map[]
  {
    hide WriteOf;
    hide Passable;
    if attempts != [] {
      var before, a := attempts[..|attempts| - 1], attempts[|attempts| - 1];
      StaysEmpty(setup, stream, before);
      var s := After(setup, stream, before);
      ReachableBounded(setup, stream, before);
      if Feasible(setup, stream, s, a) {
        StopsInTime(setup, stream, s, a);
        NothingCreated(setup, stream, s.cursor, StopAt(setup, stream, s.tables, s.cursor, s.cursor + a.count, a.failAt, a.now));
        hide StopAt;
        hide Replay;
      }
    }
  }

  // ----- exactly which streams converge

  /** Whenever the cursor has caught up, the tables are those of a clean pass. */
  ghost predicate AlwaysConverges(setup: Setup, stream: seq<Event>) {
    forall attempts :: Caught(setup, stream, attempts)
  }

  predicate Caught(setup: Setup, stream: seq<Event>, attempts: seq<Attempt>) {
    var s := After(setup, stream, attempts);
    s.cursor == s.furthest <= |stream| ==> s.tables == CleanPass(setup, stream, s.cursor)
  }

  /** An update other than an unlock, made to a row that was created later, shows in a
      second pass. */
  lemma SecondPassDiffers(setup: Setup, stream: seq<Event>, i: nat, j: nat)
    requires i < j < Passable(setup, stream) && FirstCreate(setup, stream, j)
    requires LastUpdate(setup, stream, WriteOf(setup, stream[j]).key, i, j)
    requires WriteOf(setup, stream[i]).change != SetLock(false)
    ensures Replay(setup, stream, CleanPass(setup, stream, j + 1), 0, j + 1) != CleanPass(setup, stream, j + 1)
  {
    var w := WriteOf(setup, stream[j]);
    var key, t := w.key, CleanPass(setup, stream, j + 1);
    NotYet(setup, stream, key, j);
    assert key in t && t[key] == w.row;
    TracedRow(setup, stream, t, key, 0, j + 1);
    NoUpdates(setup, stream, w.row, key, 0, i + 1, j + 1);
    TracedSame(setup, stream, w.row, key, 0, i);
    HandlerWrites(setup, stream[i]);
    HandlerWrites(setup, stream[j]);
    hide WriteOf;
    hide Replay;
    var before, c := Traced(setup, stream, w.row, key, 0, i), WriteOf(setup, stream[i]).change;
    assert Traced(setup, stream, w.row, key, 0, i + 1) == Changed(before, c);
    hide Changed;
    hide Traced;
    ChangeShows(before, w.row, c);
  }

  lemma ChangeShows(before: Row, row: Row, c: Change)
    requires SameRecord(before, row) && c != SetLock(false)
    requires if row.CollateralRow? then c.SetLock? && !row.locked else !c.SetLock? && row.status == Pending && c.status != Pending
    ensures Changed(before, c) != row
  {
  }

  lemma {:induction false} NotYet(setup: Setup, stream: seq<Event>, key: Key, n: nat)
    requires n <= |stream| && forall p :: 0 <= p < n ==> !Inserts(WriteOf(setup, stream[p]), key)
    ensures key !in CleanPass(setup, stream, n)
  {
    hide WriteOf;
    if n > 0 {
      NotYet(setup, stream, key, n - 1);
    }
  }

  /** Retries, repeats and resets are harmless exactly on the orderly streams: where no
      escrow is updated before it is created, and the last lock or unlock of a
      collateral before its registration, if there is one, is an unlock. */
  lemma ConvergesExactly(setup: Setup, stream: seq<Event>)
    ensures AlwaysConverges(setup, stream) <==> Orderly(setup, stream)
  {
    hide After;
    hide Orderly;
    hide WriteOf;
    if Orderly(setup, stream) {
      forall attempts
        ensures Caught(setup, stream, attempts)
      {
        Converges(setup, stream, attempts);
      }
    } else {
      var i, j := Disorder(setup, stream);
      OnePass(setup, stream, j + 1);
      TwoPasses(setup, stream, j + 1);
      SecondPassDiffers(setup, stream, i, j);
      assert !Caught(setup, stream, Again(j + 1, setup.since));
    }
  }

  lemma Disorder(setup: Setup, stream: seq<Event>) returns (i: nat, j: nat)
    requires !Orderly(setup, stream)
    ensures i < j < Passable(setup, stream) && FirstCreate(setup, stream, j)
    ensures LastUpdate(setup, stream, WriteOf(setup, stream[j]).key, i, j)
    ensures WriteOf(setup, stream[i]).change != SetLock(false)
  {
    hide WriteOf;
    i, j :| 0 <= i < j < Passable(setup, stream) && FirstCreate(setup, stream, j)
            && LastUpdate(setup, stream, WriteOf(setup, stream[j]).key, i, j)
            && WriteOf(setup, stream[i]).change != SetLock(false);
  }

  /** An escrow that is updated before it is created is never orderly, whatever the update. */
  lemma EscrowsCreatedFirst(setup: Setup, stream: seq<Event>)
    requires setup.contract == EscrowContract
    ensures Orderly(setup, stream) <==>
              forall i, j :: 0 <= i < j < Passable(setup, stream) && FirstCreate(setup, stream, j)
                             ==> !Updates(WriteOf(setup, stream[i]), WriteOf(setup, stream[j]).key)
  {
    forall i, j | 0 <= i < j < Passable(setup, stream) && FirstCreate(setup, stream, j)
                  && Updates(WriteOf(setup, stream[i]), WriteOf(setup, stream[j]).key)
      ensures !Orderly(setup, stream)
    {
      var q := FindLastUpdate(setup, stream, WriteOf(setup, stream[j]).key, 0, j);
      HandlerWrites(setup, stream[q]);
    }
    hide WriteOf;
  }
}
