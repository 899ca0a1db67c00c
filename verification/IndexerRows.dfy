/** Which rows the indexer's tables hold, and what their lasting columns say: after any
    attempts each row is that of the first creation about its id. */
module IndexerRows {
  import opened MachineInts
  import opened Indexer
  import opened IndexerRuns

  // ----- what creation events say

  /** The parts of an event's payload, none if it is not a vector. */
  function Parts(e: Event): seq<ScVal> {
    if e.Named? && e.args.Some? then e.args.value else []
  }

  predicate KnownUser(setup: Setup, v: ScVal) { v.AddressVal? && v.a in setup.users }

  predicate AboutId(e: Event, id: int) {
    Parts(e) != [] && ToU64(Parts(e)[0]).Some? && AsI64(ToU64(Parts(e)[0]).value) == id
  }

  /** A handled creation of escrow id between known users. */
  predicate CreatesEscrow(setup: Setup, e: Event, id: int) {
    && Handle(setup, e).Some? && setup.contract == EscrowContract
    && e.Named? && e.name == EscCrtd && |Parts(e)| >= 4 && AboutId(e, id)
    && KnownUser(setup, Parts(e)[1]) && KnownUser(setup, Parts(e)[2]) && ToI128(Parts(e)[3]).Some?
  }

  /** A handled registration of collateral id. */
  predicate RegistersCollateral(setup: Setup, e: Event, id: int) {
    && Handle(setup, e).Some? && setup.contract == CollateralContract
    && e.Named? && e.name == CollReg && |Parts(e)| >= 4 && AboutId(e, id)
    && KnownUser(setup, Parts(e)[1]) && ToI128(Parts(e)[2]).Some? && ToU64(Parts(e)[3]).Some?
  }

  predicate Creates(setup: Setup, e: Event, key: Key) {
    match key
    case EscrowKey(id) => CreatesEscrow(setup, e, id)
    case CollateralKey(id) => RegistersCollateral(setup, e, id)
  }

  /** The columns that only a creation sets, as the event says them: of an escrow the users
      of its second and third part and the number in its fourth; of a collateral the user of
      the second part, the number in the third and the expiry in the fourth. */
  predicate RowSays(setup: Setup, e: Event, key: Key, row: Row)
    requires Creates(setup, e, key)
  {
    var parts := Parts(e);
    match key
    case EscrowKey(_) =>
      && row.EscrowRow? && row.buyer == setup.users[parts[1].a] && row.seller == setup.users[parts[2].a]
      && Some(row.amount) == ToI128(parts[3])
    case CollateralKey(_) =>
      && row.CollateralRow? && row.owner == setup.users[parts[1].a] && Some(row.faceValue) == ToI128(parts[2])
      && row.expiry == AsI64(ToU64(parts[3]).value)
  }

  /** Inserts are made by creations, with the columns the event says. */
  lemma InsertsExactly(setup: Setup, e: Event, key: Key)
    ensures Inserts(WriteOf(setup, e), key) <==> Creates(setup, e, key)
    ensures Creates(setup, e, key) ==> RowSays(setup, e, key, WriteOf(setup, e).row)
  {
  }

  /** The columns that only a creation sets. */
  predicate SameBasis(r1: Row, r2: Row) {
    && SameRecord(r1, r2)
    && (r1.EscrowRow? ==> r1.buyer == r2.buyer && r1.seller == r2.seller && r1.amount == r2.amount)
  }

  lemma BasisSays(setup: Setup, e: Event, key: Key, row: Row, inserted: Row)
    requires Creates(setup, e, key) && RowSays(setup, e, key, inserted) && SameBasis(row, inserted)
    ensures RowSays(setup, e, key, row)
  {
  }

  /** The parts a handled event of each kind has to have. */
  predicate WellMade(setup: Setup, name: Name, parts: seq<ScVal>) {
    match setup.contract
    case OtherContract => true
    case CollateralContract =>
      (match name
       case CollReg =>
         && |parts| >= 4 && ToU64(parts[0]).Some? && KnownUser(setup, parts[1]) && setup.addressColumn
         && ToI128(parts[2]).Some? && 0 < ToI128(parts[2]).value <= MAX_I64
         && ToU64(parts[3]).Some? && AsI64(ToU64(parts[3]).value) > setup.since
       case CollLock => parts != [] && ToU64(parts[0]).Some?
       case CollUnlk => parts != [] && ToU64(parts[0]).Some?
       case _ => true)
    case EscrowContract =>
      match name
      case EscCrtd =>
        && |parts| >= 4 && ToU64(parts[0]).Some? && parts[1].AddressVal? && parts[2].AddressVal? && ToI128(parts[3]).Some?
        && setup.addressColumn
        && (KnownUser(setup, parts[1]) && KnownUser(setup, parts[2]) ==>
              && setup.users[parts[1].a] != setup.users[parts[2].a]
              && 0 < ToI128(parts[3]).value <= MAX_I64 && Pending in setup.statuses)
      case EscAct => parts != [] && ToU64(parts[0]).Some? && Active in setup.statuses
      case EscRel => parts != [] && ToU64(parts[0]).Some? && Released in setup.statuses
      case EscDisp =>
        |parts| >= 2 && ToU64(parts[0]).Some? && parts[1].AddressVal? && DisputedStatus in setup.statuses
      case EscRslv =>
        && |parts| >= 2 && ToU64(parts[0]).Some?
        && ((ToU64(parts[1]) == Some(0) && Released in setup.statuses)
            || (ToU64(parts[1]) == Some(1) && RefundedStatus in setup.statuses))
      case _ => true
  }

  /** An event is handled exactly when it decodes and, if it has a payload to look at, is well
      made for what the contract's handler does with its name. */
  lemma HandledExactly(setup: Setup, e: Event)
    ensures Handle(setup, e).Some? <==> !e.Undecodable? && (e.Named? && e.args.Some? ==> WellMade(setup, e.name, e.args.value))
  {
  }

  // ----- the rows after any attempts

  /** The row under key has its basis from event j, the first to insert it. */
  predicate FromFirst(setup: Setup, stream: seq<Event>, t: Tables, key: Key, j: nat)
    requires j < |stream|
  {
    key in t && FirstCreate(setup, stream, j) && WriteOf(setup, stream[j]).key == key
    && SameBasis(t[key], WriteOf(setup, stream[j]).row)
  }

  /** The tables hold exactly the rows that the first n events insert, each from the first. */
  ghost predicate RowsOfFirst(setup: Setup, stream: seq<Event>, t: Tables, n: nat)
    requires n <= |stream|
  {
    && (forall k :: 0 <= k < n && WriteOf(setup, stream[k]).Insert? ==> WriteOf(setup, stream[k]).key in t)
    && (forall key :: key in t ==> exists j :: 0 <= j < n && FromFirst(setup, stream, t, key, j))
  }

  lemma ApplyBasis(t: Tables, w: Write, key: Key)
    requires key in t
    ensures key in Apply(t, w) && SameBasis(Apply(t, w)[key], t[key])
  {
  }

  /** Applying an event that comes at or before the furthest one keeps that. */
  lemma ApplyKeepsRows(setup: Setup, stream: seq<Event>, t: Tables, n: nat, i: nat)
    requires i <= n <= |stream| && i < |stream| && RowsOfFirst(setup, stream, t, n)
    ensures RowsOfFirst(setup, stream, Apply(t, WriteOf(setup, stream[i])), Max(n, i + 1))
  {
    var w := WriteOf(setup, stream[i]);
    var t' := Apply(t, w);
    var n' := Max(n, i + 1);
    hide WriteOf;
    forall key | key in t'
      ensures exists j :: 0 <= j < n' && FromFirst(setup, stream, t', key, j)
    {
      if key in t {
        var j :| 0 <= j < n && FromFirst(setup, stream, t, key, j);
        ApplyBasis(t, w, key);
        hide Apply;
        assert FromFirst(setup, stream, t', key, j);
      } else {
        assert w.Insert? && w.key == key && t'[key] == w.row;
        assert FirstCreate(setup, stream, i);
        assert FromFirst(setup, stream, t', key, i);
      }
    }
    hide FromFirst;
  }

  lemma {:induction false} ReplayKeepsRows(setup: Setup, stream: seq<Event>, t: Tables, n: nat, i: nat, j: nat)
    requires i <= n <= |stream| && i <= j <= |stream| && RowsOfFirst(setup, stream, t, n)
    ensures RowsOfFirst(setup, stream, Replay(setup, stream, t, i, j), Max(n, j))
  {
    hide RowsOfFirst;
    hide WriteOf;
    hide Apply;
    if i < j {
      ReplayKeepsRows(setup, stream, t, n, i, j - 1);
      ApplyKeepsRows(setup, stream, Replay(setup, stream, t, i, j - 1), Max(n, j - 1), j - 1);
    }
  }

  lemma BatchKeepsRows(setup: Setup, stream: seq<Event>, s: State, a: Attempt)
    requires Bounded(setup, stream, s) && Feasible(setup, stream, s, a) && RowsOfFirst(setup, stream, s.tables, s.furthest)
    ensures var s' := Batch(setup, stream, s, a);
            s'.furthest <= |stream| && RowsOfFirst(setup, stream, s'.tables, s'.furthest)
  {
    hide RowsOfFirst;
    hide Replay;
    hide Passable;
    hide StopAt;
    hide Handle;
    if !(s.lastLedger > 0 && a.latestLedger < s.lastLedger) && a.count > 0 {
      var stop := StopAt(setup, stream, s.tables, s.cursor, s.cursor + a.count, a.failAt, a.now);
      ReplayKeepsRows(setup, stream, s.tables, s.furthest, s.cursor, stop);
    }
  }

  lemma {:induction false} ReachableRows(setup: Setup, stream: seq<Event>, attempts: seq<Attempt>)
    ensures var s := After(setup, stream, attempts);
            Bounded(setup, stream, s) && RowsOfFirst(setup, stream, s.tables, s.furthest)
  {
    ReachableBounded(setup, stream, attempts);
    if attempts != [] {
      hide RowsOfFirst;
      hide Batch;
      hide Bounded;
      var before := attempts[..|attempts| - 1];
      ReachableRows(setup, stream, before);
      var s := After(setup, stream, before);
      if Feasible(setup, stream, s, attempts[|attempts| - 1]) {
        BatchKeepsRows(setup, stream, s, attempts[|attempts| - 1]);
      }
    }
  }

  /** Event j creates the row, and none before it does. */
  predicate FirstAbout(setup: Setup, stream: seq<Event>, key: Key, j: nat)
    requires j < |stream|
  {
    Creates(setup, stream[j], key) && forall k :: 0 <= k < j ==> !Creates(setup, stream[k], key)
  }

  /** On every stream and after any attempts, with all their failures, repeats and resets: a
      row is there exactly when a handled creation about its id has been applied, and its
      parties, amount and expiry are those of the first such event. */
  lemma RowIsFirstCreation(setup: Setup, stream: seq<Event>, attempts: seq<Attempt>, key: Key) returns (j: nat)
    ensures var s := After(setup, stream, attempts);
            && s.furthest <= |stream|
            && (key in s.tables <==> exists k :: 0 <= k < s.furthest && Creates(setup, stream[k], key))
            && (key in s.tables ==>
                  j < s.furthest && FirstAbout(setup, stream, key, j) && RowSays(setup, stream[j], key, s.tables[key]))
  {
    var s := After(setup, stream, attempts);
    ReachableRows(setup, stream, attempts);
    hide After;
    forall k | 0 <= k < s.furthest
      ensures Inserts(WriteOf(setup, stream[k]), key) <==> Creates(setup, stream[k], key)
    {
      InsertsExactly(setup, stream[k], key);
    }
    hide Creates;
    hide WriteOf;
    hide RowSays;
    hide SameBasis;
    j := 0;
    if key in s.tables {
      j :| 0 <= j < s.furthest && FromFirst(setup, stream, s.tables, key, j);
      InsertsExactly(setup, stream[j], key);
      BasisSays(setup, stream[j], key, s.tables[key], WriteOf(setup, stream[j]).row);
    }
  }

  // ----- numbers on their way into the tables

  /** A number keeps its value modulo 2^64 from the chain to a BIGINT column, so two ids
      never share a row. */
  lemma IdsKeptApart(x: U64, y: U64)
    ensures FitsI64(AsI64(x)) && (AsI64(x) - x) % 0x1_0000_0000_0000_0000 == 0
    ensures AsI64(x) == AsI64(y) ==> x == y
  {
  }

  /** The kinds of integers that are read as ids, decisions and times, modulo 2^64, and those
      that are read as amounts, unchanged. */
  lemma NumbersRead(v: ScVal)
    ensures ToU64(v).Some? <==> v.U64Val? || v.I64Val? || v.U32Val? || v.I32Val?
    ensures v.U64Val? ==> ToU64(v) == Some(v.u)
    ensures v.U32Val? ==> ToU64(v) == Some(v.w)
    ensures v.I64Val? ==> (ToU64(v).value - v.i) % 0x1_0000_0000_0000_0000 == 0
    ensures v.I32Val? ==> (ToU64(v).value - v.j) % 0x1_0000_0000_0000_0000 == 0
    ensures ToI128(v).Some? <==> v.I128Val? || v.U64Val? || v.I64Val?
    ensures v.I128Val? ==> ToI128(v) == Some(v.n)
    ensures v.U64Val? ==> ToI128(v) == Some(v.u)
    ensures v.I64Val? ==> ToI128(v) == Some(v.i)
  {
  }
}
