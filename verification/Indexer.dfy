/** The event indexer: it applies a contract's events to tables at least once,
    and saves its place after each whole batch. */
module Indexer {
  import opened MachineInts

  // ----- events

  datatype ScVal =
    | U64Val(u: U64) | I64Val(i: int) | U32Val(w: U32) | I32Val(j: int)
    | I128Val(n: I128) | AddressVal(a: string) | OtherVal

  datatype Name = CollReg | CollLock | CollUnlk | EscCrtd | EscAct | EscRel | EscDisp | EscRslv | OtherName

  /** An event whose topic or payload does not decode; one without a symbol as its
      first topic, which is skipped; and one with a name and, if the payload is a
      vector, its arguments. */
  datatype Event =
    | Undecodable(ledger: U64)
    | Skipped(ledger: U64)
    | Named(name: Name, args: Option<seq<ScVal>>, ledger: U64)

  datatype ContractType = CollateralContract | EscrowContract | OtherContract

  // ----- tables

  datatype Status = Pending | Active | Locked | Released | RefundedStatus | DisputedStatus

  /** The two tables as one map, keyed by table and id. */
  datatype Key = CollateralKey(id: int) | EscrowKey(id: int)

  datatype Row =
    | CollateralRow(owner: nat, faceValue: int, expiry: int, locked: bool, collateralStatus: Status)
    | EscrowRow(buyer: nat, seller: nat, amount: int, status: Status, disputed: bool)

  type Tables = map<Key, Row>

  /** The columns that an UPDATE sets. */
  datatype Change =
    | SetLock(locked: bool)
    | SetStatus(status: Status)
    | SetDispute(status: Status, disputed: bool)

  datatype Write =
    | NoWrite
    | Insert(key: Key, row: Row)
    | Update(key: Key, change: Change)

  function Changed(r: Row, c: Change): Row {
    match c
    case SetLock(locked) =>
      if r.CollateralRow? then r.(locked := locked, collateralStatus := if locked then Locked else Active) else r
    case SetStatus(status) => if r.EscrowRow? then r.(status := status) else r
    case SetDispute(status, disputed) => if r.EscrowRow? then r.(status := status, disputed := disputed) else r
  }

  /** INSERT ... ON CONFLICT DO NOTHING, and UPDATE ... WHERE id = ... */
  function Apply(t: Tables, w: Write): Tables {
    match w
    case NoWrite => t
    case Insert(key, row) => if key in t then t else t[key := row]
    case Update(key, change) => if key in t then t[key := Changed(t[key], change)] else t
  }

  // ----- handlers

  const MIN_I64: int := -0x8000_0000_0000_0000
  const MAX_I64: int := 0x7FFF_FFFF_FFFF_FFFF

  /** A Rust `u64 as i64` cast. */
  function AsI64(x: U64): int { if x <= MAX_I64 then x else x - (MAX_U64 + 1) }

  function ToU64(v: ScVal): Option<U64> {
    match v
    case U64Val(u) => Some(u)
    case I64Val(i) => Some(AsU64(i))
    case U32Val(w) => Some(w)
    case I32Val(j) => Some(AsU64(j))
    case _ => None
  }

  function ToI128(v: ScVal): Option<int> {
    match v
    case I128Val(n) => Some(n)
    case U64Val(u) => Some(u)
    case I64Val(i) => Some(i)
    case _ => None
  }

  function ToAddress(v: ScVal): Option<string> {
    if v.AddressVal? then Some(v.a) else None
  }

  predicate FitsI64(x: int) { MIN_I64 <= x <= MAX_I64 }

  function User(users: map<string, nat>, a: string): Option<nat> { if a in users then Some(users[a]) else None }

  /** What an indexer is set up with: the kind of contract; the users table, and whether it
      has the column in which handlers look addresses up; the statuses that the type of the
      escrow status column has; and the moment, in whole seconds, since which it has run. */
  datatype Setup = Setup(contract: ContractType, users: map<string, nat>, addressColumn: bool, statuses: set<Status>, since: int)

  /** The statuses of the repository's migrations, among those that handlers write. */
  const MIGRATED: set<Status> := {Pending, Active, Released, DisputedStatus}

  /** The statement that `handle_collateral_event` runs; `None` is an error. A null owner is
      one, a face value that is not positive, and an expiry that has passed before the
      indexer first ran. */
  function CollateralWrite(setup: Setup, name: Name, args: seq<ScVal>): Option<Write> {
    match name
    case CollReg =>
      if |args| < 4 then None else
        var id, owner := ToU64(args[0]), ToAddress(args[1]);
        var face, expiry := ToI128(args[2]), ToU64(args[3]);
        if id.None? || owner.None? || face.None? || expiry.None? || !FitsI64(face.value) then None
        else if !setup.addressColumn || User(setup.users, owner.value).None? then None
        else if face.value <= 0 || AsI64(expiry.value) <= setup.since then None
        else Some(Insert(CollateralKey(AsI64(id.value)),
                         CollateralRow(User(setup.users, owner.value).value, face.value, AsI64(expiry.value), false, Active)))
    case CollLock =>
      if args == [] || ToU64(args[0]).None? then None
      else Some(Update(CollateralKey(AsI64(ToU64(args[0]).value)), SetLock(true)))
    case CollUnlk =>
      if args == [] || ToU64(args[0]).None? then None
      else Some(Update(CollateralKey(AsI64(ToU64(args[0]).value)), SetLock(false)))
    case _ => Some(NoWrite)
  }

  /** A statement that sets an escrow's status; one the column's type lacks is an error. */
  function WithStatus(setup: Setup, status: Status, w: Write): Option<Write> {
    if status in setup.statuses then Some(w) else None
  }

  /** The statement that `handle_escrow_event` runs; `None` is an error. A creation
      between unknown users is skipped; one with an amount that is not positive, or with
      one user on both sides, is refused. */
  function EscrowWrite(setup: Setup, name: Name, args: seq<ScVal>): Option<Write> {
    match name
    case EscCrtd =>
      if |args| < 4 then None else
        var id, buyer := ToU64(args[0]), ToAddress(args[1]);
        var seller, amount := ToAddress(args[2]), ToI128(args[3]);
        if id.None? || buyer.None? || seller.None? || amount.None? || !setup.addressColumn then None
        else
          var bid, sid := User(setup.users, buyer.value), User(setup.users, seller.value);
          if bid.None? || sid.None? then Some(NoWrite)
          else if !FitsI64(amount.value) || amount.value <= 0 || bid == sid then None
          else WithStatus(setup, Pending,
                          Insert(EscrowKey(AsI64(id.value)), EscrowRow(bid.value, sid.value, amount.value, Pending, false)))
    case EscAct =>
      if args == [] || ToU64(args[0]).None? then None
      else WithStatus(setup, Active, Update(EscrowKey(AsI64(ToU64(args[0]).value)), SetStatus(Active)))
    case EscRel =>
      if args == [] || ToU64(args[0]).None? then None
      else WithStatus(setup, Released, Update(EscrowKey(AsI64(ToU64(args[0]).value)), SetStatus(Released)))
    case EscDisp =>
      if |args| < 2 || ToU64(args[0]).None? || ToAddress(args[1]).None? then None
      else WithStatus(setup, DisputedStatus,
                      Update(EscrowKey(AsI64(ToU64(args[0]).value)), SetDispute(DisputedStatus, true)))
    case EscRslv =>
      if |args| < 2 || ToU64(args[0]).None? || ToU64(args[1]).None? || ToU64(args[1]).value > 1 then None
      else
        var status := if ToU64(args[1]).value == 0 then Released else RefundedStatus;
        WithStatus(setup, status, Update(EscrowKey(AsI64(ToU64(args[0]).value)), SetDispute(status, false)))
    case _ => Some(NoWrite)
  }

  /** The write of an event, as far as anything but the passing of time can refuse it. */
  function Handle(setup: Setup, e: Event): Option<Write> {
    match e
    case Undecodable(_) => None
    case Skipped(_) => Some(NoWrite)
    case Named(name, args, _) =>
      if args.None? then Some(NoWrite)
      else match setup.contract
        case CollateralContract => CollateralWrite(setup, name, args.value)
        case EscrowContract => EscrowWrite(setup, name, args.value)
        case OtherContract => Some(NoWrite)
  }

  /** The database refuses the write at this moment: a collateral row may be written, or
      written to, only before it expires. A conflicting insert is checked all the same. */
  predicate Expired(t: Tables, w: Write, now: int) {
    match w
    case NoWrite => false
    case Insert(_, row) => row.CollateralRow? && row.expiry <= now
    case Update(key, _) => key.CollateralKey? && key in t && t[key].CollateralRow? && t[key].expiry <= now
  }

  // ----- the batch protocol

  /** The write of an event, none if its handler fails. */
  function WriteOf(setup: Setup, e: Event): Write {
    match Handle(setup, e)
    case Some(w) => w
    case None => NoWrite
  }

  /** The tables after applying events i up to j in order. */
  function Replay(setup: Setup, stream: seq<Event>, t: Tables, i: nat, j: nat): Tables
    requires j <= |stream|
  {
    if j <= i then t else Apply(Replay(setup, stream, t, i, j - 1), WriteOf(setup, stream[j - 1]))
  }

  /** One clean pass over the first n events, from empty tables. */
  function CleanPass(setup: Setup, stream: seq<Event>, n: nat): Tables
    requires n <= |stream|
  {
    Replay(setup, stream, map[], 0, n)
  }

  /** The saved row of `indexer_state`, the tables, and the furthest event ever
      applied. The cursor is the number of events before it; the empty cursor is 0. */
  datatype State = State(tables: Tables, cursor: nat, lastLedger: U64, furthest: nat)

  /** How one run of `process_batch` meets the world: how many events the RPC node
      returned and its latest ledger; before which event of the batch the database
      fails (not at all if there are not so many); whether the final save of the cursor
      goes through; and the time. */
  datatype Attempt = Attempt(count: nat, latestLedger: U64, failAt: nat, saves: bool, now: int)

  const BATCH_LIMIT: nat := 100

  /** Where the loop over the batch stops: at a database failure, at an event whose
      handler fails or whose write has expired, or at the end. */
  function StopAt(setup: Setup, stream: seq<Event>, t: Tables, i: nat, end: nat, failAt: nat, now: int): (k: nat)
    requires i <= end <= |stream|
    ensures i <= k <= end
    ensures forall p :: i <= p < k ==> Handle(setup, stream[p]).Some?
    decreases end - i
  {
    if i == end || failAt == 0 || Handle(setup, stream[i]).None? || Expired(t, WriteOf(setup, stream[i]), now) then i
    else StopAt(setup, stream, Apply(t, WriteOf(setup, stream[i])), i + 1, end, failAt - 1, now)
  }

  function Max(a: nat, b: nat): nat { if a >= b then a else b }

  function Batch(setup: Setup, stream: seq<Event>, s: State, a: Attempt): State
    requires s.cursor + a.count <= |stream|
  {
    if s.lastLedger > 0 && a.latestLedger < s.lastLedger then
      if a.saves then s.(cursor := 0, lastLedger := 0) else s
    else if a.count == 0 then
      if a.latestLedger > s.lastLedger && a.saves then s.(lastLedger := a.latestLedger) else s
    else
      var end := s.cursor + a.count;
      var stop := StopAt(setup, stream, s.tables, s.cursor, end, a.failAt, a.now);
      var s' := s.(tables := Replay(setup, stream, s.tables, s.cursor, stop), furthest := Max(s.furthest, stop));
      if stop == end && a.saves then s'.(cursor := end, lastLedger := stream[end - 1].ledger) else s'
  }

  /** An attempt takes what the stream still holds, and comes after the indexer first ran.
      The times of a list of attempts need not even be in order. */
  predicate Feasible(setup: Setup, stream: seq<Event>, s: State, a: Attempt) {
    a.count <= BATCH_LIMIT && s.cursor + a.count <= |stream| && a.now >= setup.since
  }

  const EMPTY := State(map[], 0, 0, 0)

  function After(setup: Setup, stream: seq<Event>, attempts: seq<Attempt>): State {
    if attempts == [] then EMPTY else
      var s := After(setup, stream, attempts[..|attempts| - 1]);
      var a := attempts[|attempts| - 1];
      if Feasible(setup, stream, s, a) then Batch(setup, stream, s, a) else s
  }

  /** The batch has gone through events up to k, and its stop is still ahead. */
  ghost predicate InBatch(setup: Setup, stream: seq<Event>, before: State, a: Attempt, s: State, k: nat)
    requires before.cursor <= k <= before.cursor + a.count <= |stream| && k - before.cursor <= a.failAt
  {
    var end := before.cursor + a.count;
    && s.tables == Replay(setup, stream, before.tables, before.cursor, k)
    && s.furthest == Max(before.furthest, k)
    && StopAt(setup, stream, before.tables, before.cursor, end, a.failAt, a.now)
       == StopAt(setup, stream, s.tables, k, end, a.failAt - (k - before.cursor), a.now)
  }

  lemma BatchStarts(setup: Setup, stream: seq<Event>, before: State, a: Attempt, s: State)
    requires before.cursor + a.count <= |stream|
    requires s.tables == before.tables && s.furthest == Max(before.furthest, before.cursor)
    ensures InBatch(setup, stream, before, a, s, before.cursor)
  {
    hide StopAt;
  }

  lemma BatchGoesOn(setup: Setup, stream: seq<Event>, before: State, a: Attempt, s: State, s': State, k: nat)
    requires before.cursor < k <= before.cursor + a.count <= |stream| && k - before.cursor <= a.failAt
    requires InBatch(setup, stream, before, a, s, k - 1)
    requires Handle(setup, stream[k - 1]).Some? && !Expired(s.tables, WriteOf(setup, stream[k - 1]), a.now)
    requires s'.tables == Apply(s.tables, WriteOf(setup, stream[k - 1])) && s'.furthest == Max(s.furthest, k)
    ensures InBatch(setup, stream, before, a, s', k)
  {
    hide Handle;
    hide WriteOf;
    hide Apply;
    hide Expired;
  }

  lemma BatchStops(setup: Setup, stream: seq<Event>, before: State, a: Attempt, s: State, k: nat)
    requires before.cursor <= k <= before.cursor + a.count <= |stream| && k - before.cursor <= a.failAt
    requires InBatch(setup, stream, before, a, s, k)
    requires k == before.cursor + a.count || k - before.cursor == a.failAt || Handle(setup, stream[k]).None?
             || Expired(s.tables, WriteOf(setup, stream[k]), a.now)
    ensures StopAt(setup, stream, before.tables, before.cursor, before.cursor + a.count, a.failAt, a.now) == k
    ensures s.tables == Replay(setup, stream, before.tables, before.cursor, k) && s.furthest == Max(before.furthest, k)
  {
    hide Handle;
    hide WriteOf;
    hide Apply;
    hide Expired;
    hide Replay;
  }

  lemma EscrowsNeverExpire(setup: Setup, t: Tables, name: Name, args: seq<ScVal>, now: int)
    ensures EscrowWrite(setup, name, args).Some? ==> !Expired(t, EscrowWrite(setup, name, args).value, now)
  {
  }

  // ----- the indexer

  /** One contract's indexer with the database rows it owns. */
  class ContractIndexer {
    const setup: Setup
    const stream: seq<Event>
    var tables: Tables
    var cursor: nat
    var lastLedger: U64
    ghost var furthest: nat
    ghost var attempts: seq<Attempt>

    ghost function View(): State
      reads this
    {
      State(tables, cursor, lastLedger, furthest)
    }

    /** Tables and cursor are what the attempts so far made of empty ones. */
    ghost predicate Valid()
      reads this
    {
      View() == After(setup, stream, attempts)
    }

    constructor (setup: Setup, stream: seq<Event>)
      ensures Valid() && attempts == []
      ensures View() == EMPTY && this.setup == setup && this.stream == stream
    {
      this.setup, this.stream := setup, stream;
      tables, cursor, lastLedger, furthest, attempts := map[], 0, 0, 0, [];
    }

    method SetLocked(id: U64, locked: bool, now: int) returns (ok: bool)
      modifies this`tables
      ensures ok <==> !Expired(old(tables), Update(CollateralKey(AsI64(id)), SetLock(locked)), now)
      ensures tables == if ok then Apply(old(tables), Update(CollateralKey(AsI64(id)), SetLock(locked))) else old(tables)
    {
      var key := CollateralKey(AsI64(id));
      ok := true;
      if key in tables && tables[key].CollateralRow? {
        if tables[key].expiry <= now {
          return false;
        }
        tables := tables[key := tables[key].(locked := locked, collateralStatus := if locked then Locked else Active)];
      }
    }

    method HandleCollateralEvent(name: Name, args: seq<ScVal>, now: int) returns (ok: bool)
      requires now >= setup.since
      modifies this`tables
      ensures ok <==> CollateralWrite(setup, name, args).Some?
                      && !Expired(old(tables), CollateralWrite(setup, name, args).value, now)
      ensures tables == if ok then Apply(old(tables), CollateralWrite(setup, name, args).value) else old(tables)
    {
      ok := true;
      match name {
        case CollReg =>
          if |args| < 4 {
            return false;
          }
          var id, owner := ToU64(args[0]), ToAddress(args[1]);
          var face, expiry := ToI128(args[2]), ToU64(args[3]);
          if id.None? || owner.None? || face.None? || expiry.None? || !FitsI64(face.value) {
            return false;
          }
          if !setup.addressColumn || owner.value !in setup.users {
            return false;
          }
          if face.value <= 0 || AsI64(expiry.value) <= now {
            return false;
          }
          var key := CollateralKey(AsI64(id.value));
          if key !in tables {
            tables := tables[key := CollateralRow(setup.users[owner.value], face.value, AsI64(expiry.value), false, Active)];
          }
        case CollLock =>
          if args == [] || ToU64(args[0]).None? {
            return false;
          }
          ok := SetLocked(ToU64(args[0]).value, true, now);
        case CollUnlk =>
          if args == [] || ToU64(args[0]).None? {
            return false;
          }
          ok := SetLocked(ToU64(args[0]).value, false, now);
        case _ =>
      }
    }

    method SetEscrow(id: U64, change: Change) returns (ok: bool)
      requires !change.SetLock?
      modifies this`tables
      ensures ok <==> change.status in setup.statuses
      ensures tables == if ok then Apply(old(tables), Update(EscrowKey(AsI64(id)), change)) else old(tables)
    {
      if change.status !in setup.statuses {
        return false;
      }
      ok := true;
      var key := EscrowKey(AsI64(id));
      if key in tables && tables[key].EscrowRow? {
        var row := tables[key].(status := change.status);
        if change.SetDispute? {
          row := row.(disputed := change.disputed);
        }
        tables := tables[key := row];
      }
    }

    method HandleEscrowEvent(name: Name, args: seq<ScVal>) returns (ok: bool)
      modifies this`tables
      ensures ok <==> EscrowWrite(setup, name, args).Some?
      ensures tables == if ok then Apply(old(tables), EscrowWrite(setup, name, args).value) else old(tables)
    {
      ok := true;
      match name {
        case EscCrtd =>
          if |args| < 4 {
            return false;
          }
          var id, buyer := ToU64(args[0]), ToAddress(args[1]);
          var seller, amount := ToAddress(args[2]), ToI128(args[3]);
          if id.None? || buyer.None? || seller.None? || amount.None? || !setup.addressColumn {
            return false;
          }
          if buyer.value in setup.users && seller.value in setup.users {
            if !FitsI64(amount.value) || Pending !in setup.statuses {
              return false;
            }
            if amount.value <= 0 || setup.users[buyer.value] == setup.users[seller.value] {
              return false;
            }
            var key := EscrowKey(AsI64(id.value));
            if key !in tables {
              tables := tables[key := EscrowRow(setup.users[buyer.value], setup.users[seller.value], amount.value,
                                                Pending, false)];
            }
          }
        case EscAct =>
          if args == [] || ToU64(args[0]).None? {
            return false;
          }
          ok := SetEscrow(ToU64(args[0]).value, SetStatus(Active));
        case EscRel =>
          if args == [] || ToU64(args[0]).None? {
            return false;
          }
          ok := SetEscrow(ToU64(args[0]).value, SetStatus(Released));
        case EscDisp =>
          if |args| < 2 || ToU64(args[0]).None? || ToAddress(args[1]).None? {
            return false;
          }
          ok := SetEscrow(ToU64(args[0]).value, SetDispute(DisputedStatus, true));
        case EscRslv =>
          if |args| < 2 || ToU64(args[0]).None? || ToU64(args[1]).None? {
            return false;
          }
          if ToU64(args[1]).value == 0 {
            ok := SetEscrow(ToU64(args[0]).value, SetDispute(Released, false));
          } else if ToU64(args[1]).value == 1 {
            ok := SetEscrow(ToU64(args[0]).value, SetDispute(RefundedStatus, false));
          } else {
            return false;
          }
        case _ =>
      }
    }

    method HandleEvent(e: Event, now: int) returns (ok: bool)
      requires now >= setup.since
      modifies this`tables
      ensures ok <==> Handle(setup, e).Some? && !Expired(old(tables), WriteOf(setup, e), now)
      ensures tables == if ok then Apply(old(tables), WriteOf(setup, e)) else old(tables)
    {
      hide CollateralWrite;
      hide EscrowWrite;
      match e {
        case Undecodable(_) => ok := false;
        case Skipped(_) => ok := true;
        case Named(name, args, _) =>
          ok := true;
          if args.Some? {
            if setup.contract.CollateralContract? {
              ok := HandleCollateralEvent(name, args.value, now);
            } else if setup.contract.EscrowContract? {
              EscrowsNeverExpire(setup, tables, name, args.value, now);
              ok := HandleEscrowEvent(name, args.value);
            }
          }
      }
    }

    /** One batch: apply the fetched events in order, and save the cursor once all of
        them went through. Returns whether the batch ended without an error. */
    method ProcessBatch(a: Attempt) returns (ok: bool)
      requires Valid() && Feasible(setup, stream, View(), a)
      modifies this
      ensures Valid() && attempts == old(attempts) + [a]
      ensures View() == Batch(setup, stream, old(View()), a)
    {
      ok := RunBatch(a);
      attempts := attempts + [a];
      assert attempts[..|attempts| - 1] == old(attempts);
    }

    method RunBatch(a: Attempt) returns (ok: bool)
      requires Feasible(setup, stream, View(), a)
      modifies this`tables, this`cursor, this`lastLedger, this`furthest
      ensures View() == Batch(setup, stream, old(View()), a)
    {
      hide WriteOf;
      hide Handle;
      hide Expired;
      hide InBatch;
      hide StopAt;
      hide Replay;
      if lastLedger > 0 && a.latestLedger < lastLedger {
        if a.saves {
          cursor, lastLedger := 0, 0;
        }
        return a.saves;
      }
      if a.count == 0 {
        if a.latestLedger > lastLedger && a.saves {
          lastLedger := a.latestLedger;
        }
        return a.saves;
      }
      ghost var before := View();
      var end := cursor + a.count;
      var lastCursor, maxLedger := cursor, lastLedger;
      furthest := Max(furthest, cursor);
      BatchStarts(setup, stream, before, a, View());
      while lastCursor < end
        invariant cursor == before.cursor && lastLedger == before.lastLedger
        invariant before.cursor <= lastCursor <= end && lastCursor - before.cursor <= a.failAt
        invariant InBatch(setup, stream, before, a, View(), lastCursor)
        invariant lastCursor > before.cursor ==> maxLedger == stream[lastCursor - 1].ledger
      {
        var event := stream[lastCursor];
        ghost var t := View();
        if lastCursor - cursor == a.failAt {
          BatchStops(setup, stream, before, a, t, lastCursor);
          return false;
        }
        var handled := HandleEvent(event, a.now);
        if !handled {
          BatchStops(setup, stream, before, a, t, lastCursor);
          return false;
        }
        lastCursor := lastCursor + 1;
        maxLedger := event.ledger;
        furthest := Max(furthest, lastCursor);
        BatchGoesOn(setup, stream, before, a, t, View(), lastCursor);
      }
      BatchStops(setup, stream, before, a, View(), lastCursor);
      if a.saves {
        cursor, lastLedger := lastCursor, maxLedger;
      }
      ok := a.saves;
    }
  }
}
