/** What the indexer's tables mean: each row says what the last events about its id said. */
module IndexerTables {
  import opened MachineInts
  import opened Indexer
  import opened IndexerRuns

  /** A handled event of the given name about the given id. */
  predicate About(setup: Setup, e: Event, name: Name, id: int) {
    && e.Named? && e.name == name && e.args.Some? && Handle(setup, e).Some?
    && e.args.value != [] && ToU64(e.args.value[0]).Some? && AsI64(ToU64(e.args.value[0]).value) == id
  }

  /** Event i is of one name about the id, and none after it is of the other name. */
  predicate LastAt(setup: Setup, stream: seq<Event>, n: nat, id: int, name: Name, undone: Name, i: nat)
    requires i < n <= |stream|
  {
    About(setup, stream[i], name, id) && forall j :: i < j < n ==> !About(setup, stream[j], undone, id)
  }

  predicate LastIs(setup: Setup, stream: seq<Event>, n: nat, id: int, name: Name, undone: Name)
    requires n <= |stream|
  {
    exists i :: 0 <= i < n && LastAt(setup, stream, n, id, name, undone, i)
  }

  lemma LastIsStep(setup: Setup, stream: seq<Event>, n: nat, id: int, name: Name, undone: Name)
    requires 0 < n <= |stream|
    ensures LastIs(setup, stream, n, id, name, undone)
            <==> About(setup, stream[n - 1], name, id)
                 || (LastIs(setup, stream, n - 1, id, name, undone) && !About(setup, stream[n - 1], undone, id))
  {
    hide About;
    if About(setup, stream[n - 1], name, id) {
      assert LastAt(setup, stream, n, id, name, undone, n - 1);
    } else {
      if i :| 0 <= i < n && LastAt(setup, stream, n, id, name, undone, i) {
        LastAtStep(setup, stream, n, id, name, undone, i);
      }
      var m := n - 1;
      if i :| 0 <= i < m && LastAt(setup, stream, m, id, name, undone, i) {
        LastAtStep(setup, stream, n, id, name, undone, i);
      }
      hide LastAt;
    }
  }

  lemma LastAtStep(setup: Setup, stream: seq<Event>, n: nat, id: int, name: Name, undone: Name, i: nat)
    requires i < n - 1 < |stream|
    ensures LastAt(setup, stream, n, id, name, undone, i)
            <==> LastAt(setup, stream, n - 1, id, name, undone, i) && !About(setup, stream[n - 1], undone, id)
  {
    hide About;
  }

  /** How the write of a collateral event depends on its name. */
  lemma CollateralEvents(setup: Setup, e: Event, id: int)
    requires setup.contract == CollateralContract
    ensures var w, key := WriteOf(setup, e), CollateralKey(id);
            && (About(setup, e, CollLock, id) <==> w == Update(key, SetLock(true)))
            && (About(setup, e, CollUnlk, id) <==> w == Update(key, SetLock(false)))
            && (About(setup, e, CollReg, id) <==> w.Insert? && w.key == key)
            && (w.Insert? && w.key == key ==> w.row.CollateralRow? && !w.row.locked && w.row.collateralStatus == Active)
            && (w.Update? && w.key == key ==> w.change.SetLock?)
  {
  }

  lemma EscrowEvents(setup: Setup, e: Event, id: int)
    requires setup.contract == EscrowContract
    ensures var w, key := WriteOf(setup, e), EscrowKey(id);
            && (About(setup, e, EscDisp, id) <==> w == Update(key, SetDispute(DisputedStatus, true)))
            && (About(setup, e, EscRslv, id) <==> w.Update? && w.key == key && w.change.SetDispute? && !w.change.disputed)
            && (w.Insert? && w.key == key ==> w.row.EscrowRow? && !w.row.disputed && w.row.status == Pending)
            && (w.Update? && w.key == key ==> !w.change.SetLock?)
            && (w.Update? && w.key == key && w.change.SetDispute? && w.change.disputed ==> w.change.status == DisputedStatus)
  {
  }

  lemma NewRow(setup: Setup, stream: seq<Event>, n: nat, key: Key)
    requires n < |stream| && key !in CleanPass(setup, stream, n) && Inserts(WriteOf(setup, stream[n]), key)
    ensures FirstCreate(setup, stream, n)
  {
    KeysGrow(setup, stream, map[], 0, n);
    hide WriteOf;
    hide Replay;
  }

  /** In an orderly stream no lock is the last word before a registration. */
  lemma NoLockBefore(setup: Setup, stream: seq<Event>, n: nat, id: int)
    requires setup.contract == CollateralContract && Orderly(setup, stream) && n < Passable(setup, stream)
    requires FirstCreate(setup, stream, n) && WriteOf(setup, stream[n]).key == CollateralKey(id)
    ensures !LastIs(setup, stream, n, id, CollLock, CollUnlk)
  {
    hide WriteOf;
    hide About;
    var key := CollateralKey(id);
    if i :| 0 <= i < n && LastAt(setup, stream, n, id, CollLock, CollUnlk, i) {
      CollateralEvents(setup, stream[i], id);
      assert Updates(WriteOf(setup, stream[i]), key);
      var q := FindLastUpdate(setup, stream, key, i, n);
      CollateralEvents(setup, stream[q], id);
    }
  }

  lemma NoUpdateBefore(setup: Setup, stream: seq<Event>, n: nat)
    requires setup.contract == EscrowContract && Orderly(setup, stream) && n < Passable(setup, stream)
    requires FirstCreate(setup, stream, n)
    ensures forall i :: 0 <= i < n ==> !Updates(WriteOf(setup, stream[i]), WriteOf(setup, stream[n]).key)
  {
    EscrowsCreatedFirst(setup, stream);
    hide WriteOf;
    hide Orderly;
    hide FirstCreate;
  }

  /** A collateral row is locked exactly when the last lock or unlock event about its id
      is a lock, and its status says the same. */
  lemma {:induction false} LockedExactly(setup: Setup, stream: seq<Event>, n: nat, id: int)
    requires setup.contract == CollateralContract && Orderly(setup, stream) && n <= Passable(setup, stream)
    requires CollateralKey(id) in CleanPass(setup, stream, n)
    ensures var row := CleanPass(setup, stream, n)[CollateralKey(id)];
            && row.CollateralRow?
            && (row.locked <==> LastIs(setup, stream, n, id, CollLock, CollUnlk))
            && row.collateralStatus == if row.locked then Locked else Active
  {
    hide WriteOf;
    hide About;
    hide LastIs;
    hide Orderly;
    hide Passable;
    hide FirstCreate;
    var key, t := CollateralKey(id), CleanPass(setup, stream, n - 1);
    CollateralEvents(setup, stream[n - 1], id);
    LastIsStep(setup, stream, n, id, CollLock, CollUnlk);
    if key in t {
      LockedExactly(setup, stream, n - 1, id);
    } else {
      NewRow(setup, stream, n - 1, key);
      NoLockBefore(setup, stream, n - 1, id);
    }
  }

  lemma NeverDisputed(setup: Setup, stream: seq<Event>, n: nat, id: int)
    requires setup.contract == EscrowContract && n <= |stream|
    requires forall i :: 0 <= i < n ==> !Updates(WriteOf(setup, stream[i]), EscrowKey(id))
    ensures !LastIs(setup, stream, n, id, EscDisp, EscRslv)
  {
    hide WriteOf;
    hide About;
    forall i | 0 <= i < n
      ensures !About(setup, stream[i], EscDisp, id)
    {
      assert !Updates(WriteOf(setup, stream[i]), EscrowKey(id));
      EscrowEvents(setup, stream[i], id);
    }
  }

  /** An escrow row is flagged as disputed exactly when the last dispute or resolution
      event about its id is a dispute. */
  lemma {:induction false} DisputedExactly(setup: Setup, stream: seq<Event>, n: nat, id: int)
    requires setup.contract == EscrowContract && Orderly(setup, stream) && n <= Passable(setup, stream)
    requires EscrowKey(id) in CleanPass(setup, stream, n)
    ensures var row := CleanPass(setup, stream, n)[EscrowKey(id)];
            && row.EscrowRow?
            && (row.disputed <==> LastIs(setup, stream, n, id, EscDisp, EscRslv))
  {
    hide WriteOf;
    hide About;
    hide LastIs;
    hide Orderly;
    hide Passable;
    hide FirstCreate;
    var key, t := EscrowKey(id), CleanPass(setup, stream, n - 1);
    EscrowEvents(setup, stream[n - 1], id);
    LastIsStep(setup, stream, n, id, EscDisp, EscRslv);
    if key in t {
      DisputedExactly(setup, stream, n - 1, id);
    } else {
      NewRow(setup, stream, n - 1, key);
      NoUpdateBefore(setup, stream, n - 1);
      NeverDisputed(setup, stream, n - 1, id);
    }
  }

  /** The status an event gives to an escrow, by its name and decision. */
  function StatusGiven(setup: Setup, e: Event, id: int): Option<Status> {
    if About(setup, e, EscAct, id) then Some(Active)
    else if About(setup, e, EscRel, id) then Some(Released)
    else if About(setup, e, EscDisp, id) then Some(DisputedStatus)
    else if About(setup, e, EscRslv, id) then
      if |e.args.value| > 1 && ToU64(e.args.value[1]) == Some(0) then Some(Released) else Some(RefundedStatus)
    else None
  }

  /** The status the last event that gives one gave, before any of them pending. */
  function LastStatus(setup: Setup, stream: seq<Event>, n: nat, id: int): Status
    requires n <= |stream|
  {
    if n == 0 then Pending else
      match StatusGiven(setup, stream[n - 1], id)
      case Some(status) => status
      case None => LastStatus(setup, stream, n - 1, id)
  }

  lemma StatusEvents(setup: Setup, e: Event, id: int)
    requires setup.contract == EscrowContract
    ensures var w, key := WriteOf(setup, e), EscrowKey(id);
            && (StatusGiven(setup, e, id).Some? <==> w.Update? && w.key == key)
            && (w.Update? && w.key == key ==>
                  !w.change.SetLock? && StatusGiven(setup, e, id) == Some(w.change.status) && w.change.status in setup.statuses)
            && (w.Insert? ==> Pending in setup.statuses)
  {
  }

  /** An escrow row shows the status that the last handled event about it gave, which is one
      that the column's type has. */
  lemma {:induction false} StatusIsLast(setup: Setup, stream: seq<Event>, n: nat, id: int)
    requires setup.contract == EscrowContract && Orderly(setup, stream) && n <= Passable(setup, stream)
    requires EscrowKey(id) in CleanPass(setup, stream, n)
    ensures var row := CleanPass(setup, stream, n)[EscrowKey(id)];
            row.EscrowRow? && row.status == LastStatus(setup, stream, n, id) && row.status in setup.statuses
  {
    hide WriteOf;
    hide StatusGiven;
    hide Orderly;
    hide Passable;
    hide FirstCreate;
    var key, t := EscrowKey(id), CleanPass(setup, stream, n - 1);
    EscrowEvents(setup, stream[n - 1], id);
    StatusEvents(setup, stream[n - 1], id);
    hide About;
    if key in t {
      StatusIsLast(setup, stream, n - 1, id);
    } else {
      NewRow(setup, stream, n - 1, key);
      NoUpdateBefore(setup, stream, n - 1);
      StillPending(setup, stream, n - 1, id);
    }
  }

  lemma {:induction false} StillPending(setup: Setup, stream: seq<Event>, n: nat, id: int)
    requires setup.contract == EscrowContract && n <= |stream|
    requires forall i :: 0 <= i < n ==> !Updates(WriteOf(setup, stream[i]), EscrowKey(id))
    ensures LastStatus(setup, stream, n, id) == Pending
  {
    hide WriteOf;
    hide StatusGiven;
    if n > 0 {
      StillPending(setup, stream, n - 1, id);
      StatusEvents(setup, stream[n - 1], id);
      assert !Updates(WriteOf(setup, stream[n - 1]), EscrowKey(id));
    }
  }
}
