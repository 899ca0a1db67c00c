/** The saved ledger and the reorganization check: what an attempt moves, and that a node
    which never falls behind never sets the indexer back. */
module IndexerLedger {
  import opened MachineInts
  import opened Indexer
  import opened IndexerRuns

  /** The node seems to have fallen behind what was saved. */
  predicate LooksReset(s: State, a: Attempt) { 0 < s.lastLedger && a.latestLedger < s.lastLedger }

  /** All fetched events can be applied at the time of the attempt, and nothing else fails. */
  predicate Undisturbed(setup: Setup, stream: seq<Event>, s: State, a: Attempt)
    requires s.cursor + a.count <= |stream|
  {
    && a.saves && a.failAt >= a.count
    && forall p :: s.cursor <= p < s.cursor + a.count ==>
         Handle(setup, stream[p]).Some? && !Expired(s.tables, WriteOf(setup, stream[p]), a.now)
  }

  lemma {:induction false} StopsNowhere(
      setup: Setup, stream: seq<Event>, t: Tables, i: nat, m: nat, end: nat, failAt: nat, now: int)
    requires i <= m <= end <= |stream| && failAt >= end - i
    requires forall p :: i <= p < end ==>
               Handle(setup, stream[p]).Some? && !Expired(t, WriteOf(setup, stream[p]), now)
    ensures StopAt(setup, stream, Replay(setup, stream, t, i, m), m, end, failAt - (m - i), now) == end
    decreases end - m
  {
    hide Handle;
    hide WriteOf;
    hide Expired;
    hide Apply;
    if m < end {
      NotExpiredYet(setup, stream, t, i, m, now);
      StopsNowhere(setup, stream, t, i, m + 1, end, failAt, now);
    }
  }

  /** Up to a hundred events go through in one undisturbed attempt, and then the ledger of the
      last of them is saved with the cursor. */
  lemma WholeBatch(setup: Setup, stream: seq<Event>, s: State, a: Attempt)
    requires 0 < a.count <= 100 && s.cursor + a.count <= |stream| && a.now >= setup.since
    requires Undisturbed(setup, stream, s, a) && !LooksReset(s, a)
    ensures Feasible(setup, stream, s, a)
    ensures var s' := Batch(setup, stream, s, a);
            && s'.cursor == s.cursor + a.count && s'.lastLedger == stream[s'.cursor - 1].ledger
            && s'.tables == Replay(setup, stream, s.tables, s.cursor, s'.cursor)
  {
    StopsNowhere(setup, stream, s.tables, s.cursor, s.cursor, s.cursor + a.count, a.failAt, a.now);
    hide Handle;
    hide WriteOf;
    hide Expired;
    hide StopAt;
  }

  /** What an attempt saves. Nothing, if the save fails; after a seeming reset, the start and
      no ledger; without events, a newer ledger; and with events cursor and ledger together. */
  lemma SavedExactly(setup: Setup, stream: seq<Event>, s: State, a: Attempt)
    requires Feasible(setup, stream, s, a)
    ensures var s' := Batch(setup, stream, s, a);
            && (!a.saves ==> s'.cursor == s.cursor && s'.lastLedger == s.lastLedger)
            && (a.saves && LooksReset(s, a) ==> s'.cursor == 0 && s'.lastLedger == 0 && s'.tables == s.tables)
            && (a.saves && !LooksReset(s, a) && a.count == 0 ==>
                  && s'.cursor == s.cursor && s'.tables == s.tables
                  && s'.lastLedger == if a.latestLedger > s.lastLedger then a.latestLedger else s.lastLedger)
            && (a.saves && !LooksReset(s, a) && a.count > 0 ==>
                  || (s'.cursor == s.cursor && s'.lastLedger == s.lastLedger)
                  || (s'.cursor == s.cursor + a.count && s'.lastLedger == stream[s'.cursor - 1].ledger))
  {
    hide StopAt;
    hide Replay;
    hide Handle;
  }

  /** The saved cursor goes back exactly when the node seems to have fallen behind. */
  lemma GoesBackExactly(setup: Setup, stream: seq<Event>, s: State, a: Attempt)
    requires Feasible(setup, stream, s, a)
    ensures Batch(setup, stream, s, a).cursor < s.cursor <==> a.saves && LooksReset(s, a) && s.cursor > 0
  {
    SavedExactly(setup, stream, s, a);
    hide Batch;
  }

  /** A node that never falls behind: its latest ledger never shrinks, and it returns only
      events of ledgers up to its latest. */
  ghost predicate Honest(setup: Setup, stream: seq<Event>, attempts: seq<Attempt>) {
    && (forall i, j :: 0 <= i < j < |attempts| ==> attempts[i].latestLedger <= attempts[j].latestLedger)
    && (forall i, p :: 0 <= i < |attempts| && Fetched(setup, stream, attempts, i, p) ==>
          stream[p].ledger <= attempts[i].latestLedger)
  }

  /** Event p is among those that attempt i fetched. */
  predicate Fetched(setup: Setup, stream: seq<Event>, attempts: seq<Attempt>, i: nat, p: int)
    requires i < |attempts|
  {
    0 <= p < |stream| && var c := After(setup, stream, attempts[..i]).cursor; c <= p < c + attempts[i].count
  }

  lemma HonestPrefix(setup: Setup, stream: seq<Event>, attempts: seq<Attempt>)
    requires attempts != [] && Honest(setup, stream, attempts)
    ensures Honest(setup, stream, attempts[..|attempts| - 1])
  {
    var before := attempts[..|attempts| - 1];
    hide After;
    forall i, p | 0 <= i < |before| && Fetched(setup, stream, before, i, p)
      ensures stream[p].ledger <= before[i].latestLedger
    {
      assert before[..i] == attempts[..i];
      assert Fetched(setup, stream, attempts, i, p);
    }
  }

  lemma {:induction false} LedgerBehindNode(setup: Setup, stream: seq<Event>, attempts: seq<Attempt>, latest: U64)
    requires Honest(setup, stream, attempts)
    requires forall i :: 0 <= i < |attempts| ==> attempts[i].latestLedger <= latest
    ensures After(setup, stream, attempts).lastLedger <= latest
  {
    if attempts != [] {
      var n := |attempts| - 1;
      var before, a := attempts[..n], attempts[n];
      HonestPrefix(setup, stream, attempts);
      LedgerBehindNode(setup, stream, before, a.latestLedger);
      var s := After(setup, stream, before);
      if Feasible(setup, stream, s, a) {
        SavedExactly(setup, stream, s, a);
        assert a.count > 0 ==> Fetched(setup, stream, attempts, n, s.cursor + a.count - 1);
        hide Batch;
      }
    }
  }

  /** So with a node that never falls behind, whatever else fails, the saved cursor never goes
      back, and no event is fetched again once the cursor has passed it. */
  lemma NoResetByHonestNode(setup: Setup, stream: seq<Event>, attempts: seq<Attempt>)
    requires attempts != [] && Honest(setup, stream, attempts)
    ensures After(setup, stream, attempts[..|attempts| - 1]).cursor <= After(setup, stream, attempts).cursor
  {
    var n := |attempts| - 1;
    HonestPrefix(setup, stream, attempts);
    LedgerBehindNode(setup, stream, attempts[..n], attempts[n].latestLedger);
    var s := After(setup, stream, attempts[..n]);
    if Feasible(setup, stream, s, attempts[n]) {
      GoesBackExactly(setup, stream, s, attempts[n]);
    }
    hide Batch;
    hide Honest;
  }

  /** A reset forgets the ledger, so the attempt after it is none, whatever the node says. */
  lemma NoSecondReset(setup: Setup, stream: seq<Event>, s: State, a: Attempt, b: Attempt)
    requires Feasible(setup, stream, s, a) && a.saves && LooksReset(s, a)
    ensures !LooksReset(Batch(setup, stream, s, a), b)
  {
    SavedExactly(setup, stream, s, a);
    hide Batch;
  }
}
