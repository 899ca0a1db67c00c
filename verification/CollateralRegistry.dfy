/** The collateral registry: a record per collateral, an index by document hash and
    an index by owner. */
module CollateralRegistry {
  import opened MachineInts

  type Address = nat
  type Hash = nat

  datatype Error =
    | Unauthorized | AlreadyInitialized | CollateralNotFound | InvalidValuation | CollateralLocked
    | CollateralNotLocked | InvalidTransfer | MetadataHashMismatch | DuplicateCollateral | CollateralExpired | Trap

  datatype Collateral = Collateral(
    id: U64, owner: Address, assetHash: Hash, metadataUri: string, assetType: nat,
    currentValuation: I128, previousValuation: I128, valuationTimestamp: U64,
    locked: bool, lockedByEscrow: U64,
    verifiedBy: Option<Address>, verifiedAt: U64, createdAt: U64, updatedAt: U64, expiryDate: U64)

  datatype Revaluation = Revaluation(oldValuation: I128, newValuation: I128, oracle: Address)

  /** What the contract stores, one map per kind of key, and the ledger clock. */
  datatype State = State(
    admin: Option<Address>, oracle: Option<Address>, nextId: Option<U64>,
    records: map<U64, Collateral>,
    byHash: map<Hash, U64>,
    ownerKeys: map<(Address, U64), U64>,
    valuations: map<(U64, U64), Revaluation>,
    clock: U64)

  datatype Result = Result(state: State, outcome: Outcome<U64, Error>)

  function Fail(s: State, e: Error): Result { Result(s, Err(e)) }

  // ----- entry points

  function Initialize(s: State, admin: Address, oracle: Address): Result {
    if s.admin.Some? then Fail(s, AlreadyInitialized)
    else Result(s.(admin := Some(admin), oracle := Some(oracle), nextId := Some(1)), Ok(0))
  }

  function NextId(s: State): U64 { if s.nextId.Some? then s.nextId.value else 1 }

  function Register(s: State, owner: Address, assetHash: Hash, uri: string, assetType: nat, valuation: I128): Result {
    if valuation <= 0 then Fail(s, InvalidValuation)
    else if assetHash in s.byHash then Fail(s, DuplicateCollateral)
    else if !FitsU64(NextId(s) + 1) then Fail(s, Trap)
    else
      var id := NextId(s);
      Result(s.(records := s.records[id := Collateral(id, owner, assetHash, uri, assetType, valuation, 0, s.clock,
                                                      false, 0, None, 0, s.clock, s.clock, 0)],
                byHash := s.byHash[assetHash := id],
                ownerKeys := s.ownerKeys[(owner, id) := id],
                nextId := Some(id + 1)),
             Ok(id))
  }

  function UpdateValuation(s: State, id: U64, valuation: I128): Result {
    if s.oracle.None? then Fail(s, Unauthorized)
    else if valuation <= 0 then Fail(s, InvalidValuation)
    else if id !in s.records then Fail(s, CollateralNotFound)
    else
      var c := s.records[id];
      if c.expiryDate > 0 && c.expiryDate < s.clock then Fail(s, CollateralExpired)
      else
        Result(s.(records := s.records[id := c.(previousValuation := c.currentValuation, currentValuation := valuation,
                                                valuationTimestamp := s.clock, updatedAt := s.clock)],
                  valuations := s.valuations[(id, s.clock) := Revaluation(c.currentValuation, valuation, s.oracle.value)]),
               Ok(0))
  }

  function Transfer(s: State, id: U64, newOwner: Address): Result {
    if id !in s.records then Fail(s, CollateralNotFound)
    else
      var c := s.records[id];
      if c.locked then Fail(s, CollateralLocked)
      else if newOwner == c.owner then Fail(s, InvalidTransfer)
      else
        Result(s.(records := s.records[id := c.(owner := newOwner, updatedAt := s.clock)],
                  ownerKeys := (s.ownerKeys - {(c.owner, id)})[(newOwner, id) := id]),
               Ok(0))
  }

  function Lock(s: State, id: U64, escrowId: U64): Result {
    if id !in s.records then Fail(s, CollateralNotFound)
    else if s.records[id].locked then Fail(s, CollateralLocked)
    else
      var c := s.records[id];
      Result(s.(records := s.records[id := c.(locked := true, lockedByEscrow := escrowId, updatedAt := s.clock)]), Ok(0))
  }

  function Unlock(s: State, id: U64): Result {
    if id !in s.records then Fail(s, CollateralNotFound)
    else if !s.records[id].locked then Fail(s, CollateralNotLocked)
    else
      var c := s.records[id];
      Result(s.(records := s.records[id := c.(locked := false, lockedByEscrow := 0, updatedAt := s.clock)]), Ok(0))
  }

  function Verify(s: State, id: U64, documentHash: Hash): Result {
    if s.admin.None? then Fail(s, Unauthorized)
    else if id !in s.records then Fail(s, CollateralNotFound)
    else if s.records[id].assetHash != documentHash then Fail(s, MetadataHashMismatch)
    else
      var c := s.records[id];
      Result(s.(records := s.records[id := c.(verifiedBy := s.admin, verifiedAt := s.clock, updatedAt := s.clock)]), Ok(0))
  }

  function GetByHash(s: State, assetHash: Hash): Outcome<U64, Error> {
    if assetHash in s.byHash then Ok(s.byHash[assetHash]) else Err(CollateralNotFound)
  }

  // ----- runs

  datatype Op =
    | OpInitialize(admin: Address, oracle: Address)
    | OpRegister(owner: Address, assetHash: Hash, uri: string, assetType: nat, valuation: I128)
    | OpUpdateValuation(id: U64, valuation: I128)
    | OpTransfer(id: U64, newOwner: Address)
    | OpLock(id: U64, escrowId: U64)
    | OpUnlock(id: U64)
    | OpVerify(id: U64, documentHash: Hash)
    | OpTick(time: U64)

  function Step(s: State, op: Op): Result {
    match op
    case OpInitialize(admin, oracle) => Initialize(s, admin, oracle)
    case OpRegister(owner, h, uri, assetType, valuation) => Register(s, owner, h, uri, assetType, valuation)
    case OpUpdateValuation(id, valuation) => UpdateValuation(s, id, valuation)
    case OpTransfer(id, newOwner) => Transfer(s, id, newOwner)
    case OpLock(id, escrowId) => Lock(s, id, escrowId)
    case OpUnlock(id) => Unlock(s, id)
    case OpVerify(id, h) => Verify(s, id, h)
    case OpTick(time) => Result(if time >= s.clock then s.(clock := time) else s, Ok(0))
  }

  /** Storage before anything is called. */
  function Deployed(clock: U64): State { State(None, None, None, map[], map[], map[], map[], clock) }

  function After(clock: U64, ops: seq<Op>): State {
    if ops == [] then Deployed(clock) else Step(After(clock, ops[..|ops| - 1]), ops[|ops| - 1]).state
  }

  // ----- agreement of the indexes

  ghost predicate Dense(s: State) {
    && 1 <= NextId(s)
    && (forall id :: id in s.records <==> 1 <= id < NextId(s))
    && (s.oracle.Some? <==> s.admin.Some?)
  }

  /** The hash index is a bijection between the documents' hashes and the ids. */
  predicate HashesAgree(s: State) {
    && (forall id :: id in s.records ==> s.records[id].id == id && s.records[id].assetHash in s.byHash
                                         && s.byHash[s.records[id].assetHash] == id)
    && (forall h :: h in s.byHash ==> s.byHash[h] in s.records && s.records[s.byHash[h]].assetHash == h)
  }

  /** The owner keys are exactly the current pairs of owner and id. */
  ghost predicate OwnersAgree(s: State) {
    && (forall k :: k in s.ownerKeys <==> k.1 in s.records && s.records[k.1].owner == k.0)
    && (forall k :: k in s.ownerKeys ==> s.ownerKeys[k] == k.1)
  }

  /** Valuations are positive, nothing expires, an unlocked collateral names no escrow,
      and the last revaluation is on record. */
  predicate RecordsSound(s: State) {
    forall id :: id in s.records ==>
      var c := s.records[id];
      && c.currentValuation > 0 && c.previousValuation >= 0 && c.expiryDate == 0
      && (!c.locked ==> c.lockedByEscrow == 0)
      && (c.previousValuation > 0 ==>
            && (id, c.valuationTimestamp) in s.valuations
            && s.valuations[(id, c.valuationTimestamp)].oldValuation == c.previousValuation
            && s.valuations[(id, c.valuationTimestamp)].newValuation == c.currentValuation)
  }

  ghost predicate Agree(s: State) { Dense(s) && HashesAgree(s) && OwnersAgree(s) && RecordsSound(s) }

  /** An initialization that finds collateral already registered starts the ids over. */
  predicate StartsOver(s: State, op: Op) { op.OpInitialize? && s.admin.None? && s.records != map[] }

  lemma RegisterHashes(s: State, owner: Address, h: Hash, uri: string, assetType: nat, valuation: I128)
    requires Dense(s) && HashesAgree(s)
    ensures HashesAgree(Register(s, owner, h, uri, assetType, valuation).state)
  {
  }

  lemma RegisterOwners(s: State, owner: Address, h: Hash, uri: string, assetType: nat, valuation: I128)
    requires Dense(s) && OwnersAgree(s)
    ensures OwnersAgree(Register(s, owner, h, uri, assetType, valuation).state)
  {
  }

  lemma RegisterRecords(s: State, owner: Address, h: Hash, uri: string, assetType: nat, valuation: I128)
    requires RecordsSound(s)
    ensures RecordsSound(Register(s, owner, h, uri, assetType, valuation).state)
  {
  }

  lemma RegisterAgrees(s: State, owner: Address, h: Hash, uri: string, assetType: nat, valuation: I128)
    requires Agree(s)
    ensures Agree(Register(s, owner, h, uri, assetType, valuation).state)
  {
    hide HashesAgree;
    hide OwnersAgree;
    hide RecordsSound;
    RegisterHashes(s, owner, h, uri, assetType, valuation);
    RegisterOwners(s, owner, h, uri, assetType, valuation);
    RegisterRecords(s, owner, h, uri, assetType, valuation);
  }

  lemma TransferHashes(s: State, id: U64, newOwner: Address)
    requires Dense(s) && HashesAgree(s)
    ensures HashesAgree(Transfer(s, id, newOwner).state)
  {
  }

  lemma TransferOwners(s: State, id: U64, newOwner: Address)
    requires Dense(s) && OwnersAgree(s)
    ensures OwnersAgree(Transfer(s, id, newOwner).state)
  {
  }

  lemma TransferRecords(s: State, id: U64, newOwner: Address)
    requires RecordsSound(s)
    ensures RecordsSound(Transfer(s, id, newOwner).state)
  {
  }

  lemma TransferAgrees(s: State, id: U64, newOwner: Address)
    requires Agree(s)
    ensures Agree(Transfer(s, id, newOwner).state)
  {
    hide HashesAgree;
    hide OwnersAgree;
    hide RecordsSound;
    TransferHashes(s, id, newOwner);
    TransferOwners(s, id, newOwner);
    TransferRecords(s, id, newOwner);
  }

  /** A record that keeps its id, hash and owner changes no index. */
  lemma RecordAgrees(s: State, id: U64, c: Collateral, s': State)
    requires Agree(s) && id in s.records
    requires s' == s.(records := s.records[id := c], valuations := s'.valuations)
    requires c.id == s.records[id].id && c.assetHash == s.records[id].assetHash && c.owner == s.records[id].owner
    ensures Dense(s') && HashesAgree(s') && OwnersAgree(s')
  {
    hide RecordsSound;
  }

  lemma UpdateRecords(s: State, id: U64, valuation: I128)
    requires RecordsSound(s)
    ensures RecordsSound(UpdateValuation(s, id, valuation).state)
  {
  }

  lemma UpdateAgrees(s: State, id: U64, valuation: I128)
    requires Agree(s)
    ensures Agree(UpdateValuation(s, id, valuation).state)
  {
    hide Dense;
    hide HashesAgree;
    hide OwnersAgree;
    UpdateRecords(s, id, valuation);
    hide RecordsSound;
    var s' := UpdateValuation(s, id, valuation).state;
    if s' != s {
      RecordAgrees(s, id, s'.records[id], s');
    }
  }

  lemma LockAgrees(s: State, id: U64, escrowId: U64)
    requires Agree(s)
    ensures Agree(Lock(s, id, escrowId).state) && Agree(Unlock(s, id).state)
  {
    hide Dense;
    hide HashesAgree;
    hide OwnersAgree;
    var s', t := Lock(s, id, escrowId).state, Unlock(s, id).state;
    if s' != s {
      RecordAgrees(s, id, s'.records[id], s');
    }
    if t != s {
      RecordAgrees(s, id, t.records[id], t);
    }
  }

  lemma VerifyAgrees(s: State, id: U64, h: Hash)
    requires Agree(s)
    ensures Agree(Verify(s, id, h).state)
  {
    hide Dense;
    hide HashesAgree;
    hide OwnersAgree;
    var s' := Verify(s, id, h).state;
    if s' != s {
      RecordAgrees(s, id, s'.records[id], s');
    }
  }

  lemma TickAgrees(s: State, time: U64)
    requires Agree(s)
    ensures Agree(Step(s, OpTick(time)).state)
  {
  }

  lemma InitializeAgreesExactly(s: State, op: Op)
    requires Agree(s) && op.OpInitialize?
    ensures Agree(Step(s, op).state) <==> !StartsOver(s, op)
  {
    if StartsOver(s, op) {
      var id :| id in s.records;
      assert 1 <= id;
    }
  }

  /** Every step keeps the indexes in agreement, except an initialization that starts over. */
  lemma StepAgreesExactly(s: State, op: Op)
    requires Agree(s)
    ensures Agree(Step(s, op).state) <==> !StartsOver(s, op)
  {
    hide Agree;
    hide UpdateValuation;
    hide Lock;
    hide Unlock;
    hide Verify;
    hide Transfer;
    hide Register;
    match op
    case OpRegister(owner, h, uri, assetType, valuation) => RegisterAgrees(s, owner, h, uri, assetType, valuation);
    case OpUpdateValuation(id, valuation) => UpdateAgrees(s, id, valuation);
    case OpTransfer(id, newOwner) => TransferAgrees(s, id, newOwner);
    case OpLock(id, escrowId) => LockAgrees(s, id, escrowId);
    case OpUnlock(id) => LockAgrees(s, id, 0);
    case OpVerify(id, h) => VerifyAgrees(s, id, h);
    case OpTick(time) => TickAgrees(s, time);
    case OpInitialize(_, _) => InitializeAgreesExactly(s, op);
  }

  ghost predicate AlwaysAgree(clock: U64, ops: seq<Op>) {
    Agree(After(clock, ops)) && (ops != [] ==> AlwaysAgree(clock, ops[..|ops| - 1]))
  }

  predicate NeverStartsOver(clock: U64, ops: seq<Op>) {
    ops != [] ==>
      var before := ops[..|ops| - 1];
      NeverStartsOver(clock, before) && !StartsOver(After(clock, before), ops[|ops| - 1])
  }

  /** From deployment on, the indexes agree with the records all along exactly when
      nothing is registered before the successful initialization. */
  lemma {:induction false} RunAgreesExactly(clock: U64, ops: seq<Op>)
    ensures AlwaysAgree(clock, ops) <==> NeverStartsOver(clock, ops)
  {
    hide Agree;
    hide Step;
    hide StartsOver;
    if ops == [] {
      DeployedAgrees(clock);
    } else {
      var before := ops[..|ops| - 1];
      RunAgreesExactly(clock, before);
      if AlwaysAgree(clock, before) {
        StepAgreesExactly(After(clock, before), ops[|ops| - 1]);
      }
    }
  }

  lemma DeployedAgrees(clock: U64)
    ensures Agree(Deployed(clock))
  {
  }

  /** A contract that is initialized first never starts over. */
  lemma {:induction false} InitializedFirst(clock: U64, ops: seq<Op>)
    requires ops != [] && ops[0].OpInitialize?
    ensures NeverStartsOver(clock, ops) && Agree(After(clock, ops))
    ensures After(clock, ops).admin.Some?
  {
    hide Agree;
    hide Step;
    var before, op := ops[..|ops| - 1], ops[|ops| - 1];
    var s := After(clock, before);
    if |ops| == 1 {
      assert before == [];
      DeployedAgrees(clock);
      StepAgreesExactly(s, op);
      AdminStays(s, op);
    } else {
      InitializedFirst(clock, before);
      StepAgreesExactly(s, op);
      AdminStays(s, op);
    }
  }

  lemma AdminStays(s: State, op: Op)
    ensures s.admin.Some? || op.OpInitialize? ==> Step(s, op).state.admin.Some?
  {
  }

  /** What the hash index answers, on every run of an initialized contract. */
  lemma HashLookup(clock: U64, ops: seq<Op>, h: Hash, id: U64)
    requires ops != [] && ops[0].OpInitialize?
    ensures GetByHash(After(clock, ops), h) == Ok(id)
            <==> id in After(clock, ops).records && After(clock, ops).records[id].assetHash == h
  {
    InitializedFirst(clock, ops);
  }

  /** No reachable collateral is ever expired, so that refusal cannot happen. */
  lemma NeverExpired(clock: U64, ops: seq<Op>, id: U64, valuation: I128)
    requires ops != [] && ops[0].OpInitialize?
    ensures UpdateValuation(After(clock, ops), id, valuation).outcome.Ok?
            <==> valuation > 0 && id in After(clock, ops).records
  {
    hide Step;
    InitializedFirst(clock, ops);
  }

  /** Starting over loses a collateral: the next registration overwrites the first record
      while its hash and its owner key still point to it. */
  lemma StartingOverOverwrites(clock: U64)
    ensures var ops := [OpRegister(7, 100, "", 0, 5), OpInitialize(1, 2), OpRegister(8, 200, "", 0, 6)];
            var s := After(clock, ops);
            && s.records.Keys == {1} && s.records[1].owner == 8 && s.records[1].assetHash == 200
            && GetByHash(s, 100) == Ok(1) && (7, 1) in s.ownerKeys
  {
    var first := OpRegister(7, 100, "", 0, 5);
    var ops := [first, OpInitialize(1, 2), OpRegister(8, 200, "", 0, 6)];
    assert ops[..2] == [first, OpInitialize(1, 2)] && ops[..2][..1] == [first] && ops[..2][..1][..0] == [];
    var s1 := Step(Deployed(clock), first).state;
    assert After(clock, []) == Deployed(clock);
    assert After(clock, ops[..2][..1]) == s1;
    var s2 := Step(s1, OpInitialize(1, 2)).state;
    assert After(clock, ops[..2]) == s2;
    assert After(clock, ops) == Step(s2, OpRegister(8, 200, "", 0, 6)).state;
  }

  // ----- locks and permanent facts

  /** What one step leaves alone: a record is never dropped, its document never changes,
      and while it stays locked neither owner nor escrow does. */
  predicate Carried(c: Collateral, d: Collateral) {
    && d.id == c.id && d.assetHash == c.assetHash && d.metadataUri == c.metadataUri && d.assetType == c.assetType
    && d.createdAt == c.createdAt
    && (c.locked && d.locked ==> d.owner == c.owner && d.lockedByEscrow == c.lockedByEscrow)
  }

  lemma StepCarries(s: State, op: Op, id: U64)
    requires Dense(s) && id in s.records
    ensures id in Step(s, op).state.records
    ensures Carried(s.records[id], Step(s, op).state.records[id])
  {
  }

  lemma DenseOf(s: State)
    requires Agree(s)
    ensures Dense(s)
  {
  }

  /** Between two points of a run the document stays, and if the collateral was locked at
      every point between them, it kept its owner and its lock. */
  lemma {:induction false} LockHolds(clock: U64, ops: seq<Op>, i: nat, id: U64)
    requires ops != [] && ops[0].OpInitialize? && 1 <= i <= |ops|
    requires id in After(clock, ops[..i]).records
    ensures id in After(clock, ops).records
    ensures var c, d := After(clock, ops[..i]).records[id], After(clock, ops).records[id];
            && d.assetHash == c.assetHash && d.metadataUri == c.metadataUri && d.createdAt == c.createdAt
            && (LockedFrom(clock, ops, i, id) ==> d.owner == c.owner && d.lockedByEscrow == c.lockedByEscrow)
  {
    hide Agree;
    hide Step;
    if i == |ops| {
      assert ops[..i] == ops;
    } else {
      var before := ops[..|ops| - 1];
      assert before[..i] == ops[..i];
      LockHolds(clock, before, i, id);
      InitializedFirst(clock, before);
      assert Dense(After(clock, before)) by { DenseOf(After(clock, before)); }
      StepCarries(After(clock, before), ops[|ops| - 1], id);
      if LockedFrom(clock, ops, i, id) {
        LockedBefore(clock, ops, i, id);
      }
    }
  }

  /** Locked after every prefix of at least i steps. */
  ghost predicate LockedFrom(clock: U64, ops: seq<Op>, i: nat, id: U64) {
    forall n :: i <= n <= |ops| ==> LockedAfter(clock, ops, n, id)
  }

  predicate LockedAfter(clock: U64, ops: seq<Op>, n: nat, id: U64)
    requires n <= |ops|
  {
    var s := After(clock, ops[..n]);
    id in s.records && s.records[id].locked
  }

  lemma LockedBefore(clock: U64, ops: seq<Op>, i: nat, id: U64)
    requires i < |ops| && LockedFrom(clock, ops, i, id)
    ensures LockedFrom(clock, ops[..|ops| - 1], i, id)
    ensures LockedAfter(clock, ops, |ops| - 1, id) && LockedAfter(clock, ops, |ops|, id)
    ensures ops[..|ops|] == ops
  {
    var before := ops[..|ops| - 1];
    forall n | i <= n <= |before|
      ensures LockedAfter(clock, before, n, id)
    {
      assert before[..n] == ops[..n];
      assert LockedAfter(clock, ops, n, id);
    }
  }

  // ----- valuations

  /** The valuations a collateral was given, in order, by the calls that succeeded. */
  function Given(clock: U64, ops: seq<Op>, id: U64): seq<I128> {
    if ops == [] then [] else
      var before, op := ops[..|ops| - 1], ops[|ops| - 1];
      var r := Step(After(clock, before), op);
      Given(clock, before, id) +
      if r.outcome.Err? then []
      else if op.OpRegister? && r.outcome.value == id then [op.valuation]
      else if op.OpUpdateValuation? && op.id == id then [op.valuation]
      else []
  }

  predicate Values(given: seq<I128>, s: State, id: U64) {
    if id !in s.records then given == []
    else
      && given != [] && s.records[id].currentValuation == given[|given| - 1]
      && s.records[id].previousValuation == if |given| == 1 then 0 else given[|given| - 2]
  }

  /** A record holds the last two valuations it was given. */
  lemma {:induction false} LastTwoValuations(clock: U64, ops: seq<Op>, id: U64)
    requires ops != [] && ops[0].OpInitialize?
    ensures Values(Given(clock, ops, id), After(clock, ops), id)
  {
    hide Agree;
    hide Step;
    var before, op := ops[..|ops| - 1], ops[|ops| - 1];
    if |ops| == 1 {
      assert before == [];
      DeployedAgrees(clock);
    } else {
      LastTwoValuations(clock, before, id);
      InitializedFirst(clock, before);
    }
    assert Values(Given(clock, before, id), After(clock, before), id);
    DenseOf(After(clock, before));
    StepValues(Given(clock, before, id), After(clock, before), op, id);
  }

  lemma StepValues(given: seq<I128>, s: State, op: Op, id: U64)
    requires Dense(s) && Values(given, s, id)
    ensures var r := Step(s, op);
            var added :=
              if r.outcome.Err? then []
              else if op.OpRegister? && r.outcome.value == id then [op.valuation]
              else if op.OpUpdateValuation? && op.id == id then [op.valuation]
              else [];
            Values(given + added, r.state, id)
  {
  }

  // ----- owners and locks

  /** The owner that the last accepted registration or transfer of a collateral named. */
  function LastOwner(clock: U64, ops: seq<Op>, id: U64): Option<Address> {
    if ops == [] then None else
      var before, op := ops[..|ops| - 1], ops[|ops| - 1];
      var r := Step(After(clock, before), op);
      if r.outcome.Ok? && op.OpRegister? && r.outcome.value == id then Some(op.owner)
      else if r.outcome.Ok? && op.OpTransfer? && op.id == id then Some(op.newOwner)
      else LastOwner(clock, before, id)
  }

  /** The escrow of the last accepted lock, if no unlock was accepted since. */
  function Holder(clock: U64, ops: seq<Op>, id: U64): Option<U64> {
    if ops == [] then None else
      var before, op := ops[..|ops| - 1], ops[|ops| - 1];
      var r := Step(After(clock, before), op);
      if r.outcome.Ok? && op.OpLock? && op.id == id then Some(op.escrowId)
      else if r.outcome.Ok? && op.OpUnlock? && op.id == id then None
      else Holder(clock, before, id)
  }

  predicate Told(s: State, id: U64, owner: Option<Address>, holder: Option<U64>) {
    if id !in s.records then owner == None && holder == None
    else
      var c := s.records[id];
      && owner == Some(c.owner) && holder == (if c.locked then Some(c.lockedByEscrow) else None)
  }

  /** Owner and lock of a record are what the accepted calls of the run made them. */
  lemma {:induction false} RecordIsTold(clock: U64, ops: seq<Op>, id: U64)
    requires ops != [] && ops[0].OpInitialize?
    ensures Told(After(clock, ops), id, LastOwner(clock, ops, id), Holder(clock, ops, id))
  {
    hide Agree;
    hide Told;
    var before, op := ops[..|ops| - 1], ops[|ops| - 1];
    if |ops| == 1 {
      assert before == [];
      DeployedAgrees(clock);
      assert Told(Deployed(clock), id, None, None) by { NobodyTold(clock, id); }
    } else {
      RecordIsTold(clock, before, id);
      InitializedFirst(clock, before);
    }
    hide Step;
    DenseOf(After(clock, before));
    StepTells(After(clock, before), op, id, LastOwner(clock, before, id), Holder(clock, before, id));
  }

  lemma NobodyTold(clock: U64, id: U64)
    ensures Told(Deployed(clock), id, None, None)
  {
  }

  lemma StepTells(s: State, op: Op, id: U64, owner: Option<Address>, holder: Option<U64>)
    requires Dense(s) && Told(s, id, owner, holder)
    ensures var r := Step(s, op);
            var owner' :=
              if r.outcome.Ok? && op.OpRegister? && r.outcome.value == id then Some(op.owner)
              else if r.outcome.Ok? && op.OpTransfer? && op.id == id then Some(op.newOwner)
              else owner;
            var holder' :=
              if r.outcome.Ok? && op.OpLock? && op.id == id then Some(op.escrowId)
              else if r.outcome.Ok? && op.OpUnlock? && op.id == id then None
              else holder;
            Told(r.state, id, owner', holder')
  {
  }

  /** A registration is accepted exactly for a positive valuation and a document that no
      record has yet. */
  lemma RegistrationAcceptedExactly(clock: U64, ops: seq<Op>, a: Address, h: Hash, uri: string, assetType: nat, valuation: I128)
    requires ops != [] && ops[0].OpInitialize?
    ensures var s := After(clock, ops);
            Register(s, a, h, uri, assetType, valuation).outcome.Ok?
            <==> && valuation > 0 && FitsU64(NextId(s) + 1)
                 && forall id :: id in s.records ==> s.records[id].assetHash != h
  {
    hide After;
    hide Agree;
    hide HashesAgree;
    var s := After(clock, ops);
    InitializedFirst(clock, ops);
    HashesOf(s);
    NewDocument(s, h);
  }

  lemma HashesOf(s: State)
    requires Agree(s)
    ensures HashesAgree(s)
  {
  }

  lemma NewDocument(s: State, h: Hash)
    requires HashesAgree(s)
    ensures h !in s.byHash <==> forall id :: id in s.records ==> s.records[id].assetHash != h
  {
  }

  /** A transfer is accepted exactly while no escrow holds the collateral and to a new
      owner, a lock while nobody holds it, an unlock while somebody does. */
  lemma HoldersDecide(clock: U64, ops: seq<Op>, id: U64, newOwner: Address, escrowId: U64)
    requires ops != [] && ops[0].OpInitialize?
    ensures var s := After(clock, ops);
            var owner, holder := LastOwner(clock, ops, id), Holder(clock, ops, id);
            && (Transfer(s, id, newOwner).outcome.Ok? <==> owner.Some? && holder == None && owner != Some(newOwner))
            && (Lock(s, id, escrowId).outcome.Ok? <==> owner.Some? && holder == None)
            && (Unlock(s, id).outcome.Ok? <==> holder.Some?)
  {
    RecordIsTold(clock, ops, id);
    hide After;
    hide LastOwner;
    hide Holder;
  }

  // ----- the contract object

  class Registry {
    var admin: Option<Address>
    var oracle: Option<Address>
    var nextId: Option<U64>
    var records: map<U64, Collateral>
    var byHash: map<Hash, U64>
    var ownerKeys: map<(Address, U64), U64>
    var valuations: map<(U64, U64), Revaluation>
    var clock: U64
    ghost const startClock: U64
    ghost var history: seq<Op>

    function View(): State
      reads this
    {
      State(admin, oracle, nextId, records, byHash, ownerKeys, valuations, clock)
    }

    /** The storage is what the calls so far made of an empty one. */
    ghost predicate Valid()
      reads this
    {
      View() == After(startClock, history)
    }

    /** The first call was the initialization, so ids are dense and all indexes agree. */
    ghost predicate InUse()
      reads this
    {
      Valid() && history != [] && history[0].OpInitialize?
    }

    constructor (clock: U64)
      ensures Valid() && history == [] && View() == Deployed(clock)
    {
      this.clock, this.startClock, this.history := clock, clock, [];
      admin, oracle, nextId, records, byHash, ownerKeys, valuations := None, None, None, map[], map[], map[], map[];
    }

    method InitializeRegistry(admin: Address, oracle: Address) returns (r: Outcome<U64, Error>)
      requires Valid()
      modifies this
      ensures Valid() && history == old(history) + [OpInitialize(admin, oracle)]
      ensures Result(View(), r) == Initialize(old(View()), admin, oracle)
      ensures r.Ok? <==> old(this.admin).None?
      ensures old(Agree(View())) ==> (Agree(View()) <==> r.Err? || old(records) == map[])
    {
      if Agree(View()) {
        InitializeAgreesExactly(View(), OpInitialize(admin, oracle));
      }
      hide Agree;
      hide After;
      OneMore(startClock, history, OpInitialize(admin, oracle));
      history := history + [OpInitialize(admin, oracle)];
      if this.admin.Some? {
        return Err(AlreadyInitialized);
      }
      this.admin := Some(admin);
      this.oracle := Some(oracle);
      nextId := Some(1);
      r := Ok(0);
    }

    method RegisterCollateral(owner: Address, assetHash: Hash, uri: string, assetType: nat, valuation: I128)
      returns (r: Outcome<U64, Error>)
      requires Valid()
      modifies this
      ensures Valid() && history == old(history) + [OpRegister(owner, assetHash, uri, assetType, valuation)]
      ensures Result(View(), r) == Register(old(View()), owner, assetHash, uri, assetType, valuation)
      ensures old(Agree(View())) ==> Agree(View())
      ensures r.Ok? ==> GetByHash(View(), assetHash) == Ok(r.value) && LastOwner(startClock, history, r.value) == Some(owner)
    {
      Registered(startClock, history, owner, assetHash, uri, assetType, valuation);
      hide GetByHash;
      hide LastOwner;
      hide Agree;
      hide After;
      history := history + [OpRegister(owner, assetHash, uri, assetType, valuation)];
      if valuation <= 0 {
        return Err(InvalidValuation);
      }
      if assetHash in byHash {
        return Err(DuplicateCollateral);
      }
      var id := if nextId.Some? then nextId.value else 1;
      if !FitsU64(id + 1) {
        return Err(Trap);
      }
      var c := Collateral(id, owner, assetHash, uri, assetType, valuation, 0, clock, false, 0, None, 0, clock, clock, 0);
      records := records[id := c];
      byHash := byHash[assetHash := id];
      ownerKeys := ownerKeys[(owner, id) := id];
      nextId := Some(id + 1);
      r := Ok(id);
    }

    method Revalue(id: U64, valuation: I128) returns (r: Outcome<U64, Error>)
      requires Valid()
      modifies this
      ensures Valid() && history == old(history) + [OpUpdateValuation(id, valuation)]
      ensures Result(View(), r) == UpdateValuation(old(View()), id, valuation)
      ensures old(InUse()) ==> (r.Ok? <==> valuation > 0 && id in old(records))
      ensures old(InUse()) ==> InUse() && Values(Given(startClock, history, id), View(), id)
      ensures old(InUse()) ==> Given(startClock, history, id)
                               == old(Given(startClock, history, id)) + if r.Ok? then [valuation] else []
    {
      if InUse() {
        NeverExpired(startClock, history, id, valuation);
        FirstStays(history, OpUpdateValuation(id, valuation));
        LastTwoValuations(startClock, history + [OpUpdateValuation(id, valuation)], id);
      }
      assert (history + [OpUpdateValuation(id, valuation)])[..|history|] == history;
      hide Values;
      hide Agree;
      hide After;
      OneMore(startClock, history, OpUpdateValuation(id, valuation));
      history := history + [OpUpdateValuation(id, valuation)];
      if oracle.None? {
        return Err(Unauthorized);
      }
      if valuation <= 0 {
        return Err(InvalidValuation);
      }
      if id !in records {
        return Err(CollateralNotFound);
      }
      var c := records[id];
      if c.expiryDate > 0 && c.expiryDate < clock {
        return Err(CollateralExpired);
      }
      c := c.(previousValuation := c.currentValuation);
      c := c.(currentValuation := valuation, valuationTimestamp := clock, updatedAt := clock);
      records := records[id := c];
      valuations := valuations[(id, clock) := Revaluation(c.previousValuation, valuation, oracle.value)];
      r := Ok(0);
    }

    method TransferCollateral(id: U64, newOwner: Address) returns (r: Outcome<U64, Error>)
      requires Valid()
      modifies this
      ensures Valid() && history == old(history) + [OpTransfer(id, newOwner)]
      ensures Result(View(), r) == Transfer(old(View()), id, newOwner)
      ensures old(Agree(View())) ==> Agree(View())
      ensures old(InUse()) ==> (r.Ok? <==> old(LastOwner(startClock, history, id)) !in {None, Some(newOwner)}
                                            && old(Holder(startClock, history, id)) == None)
      ensures r.Ok? ==> LastOwner(startClock, history, id) == Some(newOwner)
    {
      if Agree(View()) {
        TransferAgrees(View(), id, newOwner);
      }
      if InUse() {
        HoldersDecide(startClock, history, id, newOwner, 0);
      }
      ToldOneMore(startClock, history, OpTransfer(id, newOwner), id);
      hide LastOwner;
      hide Holder;
      hide Agree;
      hide After;
      OneMore(startClock, history, OpTransfer(id, newOwner));
      history := history + [OpTransfer(id, newOwner)];
      if id !in records {
        return Err(CollateralNotFound);
      }
      var c := records[id];
      if c.locked {
        return Err(CollateralLocked);
      }
      if newOwner == c.owner {
        return Err(InvalidTransfer);
      }
      var previousOwner := c.owner;
      c := c.(owner := newOwner, updatedAt := clock);
      records := records[id := c];
      ownerKeys := ownerKeys - {(previousOwner, id)};
      ownerKeys := ownerKeys[(newOwner, id) := id];
      r := Ok(0);
    }

    method LockCollateral(id: U64, escrowId: U64) returns (r: Outcome<U64, Error>)
      requires Valid()
      modifies this
      ensures Valid() && history == old(history) + [OpLock(id, escrowId)]
      ensures Result(View(), r) == Lock(old(View()), id, escrowId)
      ensures old(InUse()) ==> (r.Ok? <==> old(LastOwner(startClock, history, id)) != None && old(Holder(startClock, history, id)) == None)
      ensures r.Ok? ==> Holder(startClock, history, id) == Some(escrowId)
      ensures r.Ok? ==> forall newOwner :: Transfer(View(), id, newOwner).outcome == Err(CollateralLocked)
    {
      if InUse() {
        HoldersDecide(startClock, history, id, 0, escrowId);
      }
      ToldOneMore(startClock, history, OpLock(id, escrowId), id);
      hide LastOwner;
      hide Holder;
      hide Agree;
      hide After;
      OneMore(startClock, history, OpLock(id, escrowId));
      history := history + [OpLock(id, escrowId)];
      if id !in records {
        return Err(CollateralNotFound);
      }
      var c := records[id];
      if c.locked {
        return Err(CollateralLocked);
      }
      c := c.(locked := true, lockedByEscrow := escrowId, updatedAt := clock);
      records := records[id := c];
      r := Ok(0);
    }

    method UnlockCollateral(id: U64) returns (r: Outcome<U64, Error>)
      requires Valid()
      modifies this
      ensures Valid() && history == old(history) + [OpUnlock(id)]
      ensures Result(View(), r) == Unlock(old(View()), id)
      ensures old(InUse()) ==> (r.Ok? <==> old(Holder(startClock, history, id)) != None)
      ensures r.Ok? ==> Holder(startClock, history, id) == None
    {
      if InUse() {
        HoldersDecide(startClock, history, id, 0, 0);
      }
      ToldOneMore(startClock, history, OpUnlock(id), id);
      hide LastOwner;
      hide Holder;
      hide Agree;
      hide After;
      OneMore(startClock, history, OpUnlock(id));
      history := history + [OpUnlock(id)];
      if id !in records {
        return Err(CollateralNotFound);
      }
      var c := records[id];
      if !c.locked {
        return Err(CollateralNotLocked);
      }
      c := c.(locked := false, lockedByEscrow := 0, updatedAt := clock);
      records := records[id := c];
      r := Ok(0);
    }

    method VerifyCollateral(id: U64, documentHash: Hash) returns (r: Outcome<U64, Error>)
      requires Valid()
      modifies this
      ensures Valid() && history == old(history) + [OpVerify(id, documentHash)]
      ensures Result(View(), r) == Verify(old(View()), id, documentHash)
      ensures old(InUse()) ==> (r.Ok? <==> old(GetByHash(View(), documentHash)) == Ok(id))
      ensures old(InUse()) ==> forall h :: GetByHash(View(), h) == old(GetByHash(View(), h))
    {
      if InUse() {
        HashLookup(startClock, history, documentHash, id);
        InitializedFirst(startClock, history);
      }
      hide Agree;
      hide After;
      OneMore(startClock, history, OpVerify(id, documentHash));
      history := history + [OpVerify(id, documentHash)];
      if admin.None? {
        return Err(Unauthorized);
      }
      if id !in records {
        return Err(CollateralNotFound);
      }
      var c := records[id];
      if c.assetHash != documentHash {
        return Err(MetadataHashMismatch);
      }
      c := c.(verifiedBy := admin, verifiedAt := clock, updatedAt := clock);
      records := records[id := c];
      r := Ok(0);
    }

    /** The ledger closes and its clock moves on. */
    method Tick(time: U64)
      requires Valid()
      modifies this
      ensures Valid() && history == old(history) + [OpTick(time)]
    {
      OneMore(startClock, history, OpTick(time));
      history := history + [OpTick(time)];
      if time >= clock {
        clock := time;
      }
    }
  }

  /** What one more registration adds to a run. */
  lemma Registered(clock: U64, history: seq<Op>, owner: Address, h: Hash, uri: string, assetType: nat, valuation: I128)
    ensures var s := After(clock, history);
            var r := Register(s, owner, h, uri, assetType, valuation);
            var longer := history + [OpRegister(owner, h, uri, assetType, valuation)];
            && After(clock, longer) == r.state
            && (Agree(s) ==> Agree(r.state))
            && (r.outcome.Ok? ==> GetByHash(r.state, h) == r.outcome && LastOwner(clock, longer, r.outcome.value) == Some(owner))
  {
    var s, op := After(clock, history), OpRegister(owner, h, uri, assetType, valuation);
    OneMore(clock, history, op);
    if Register(s, owner, h, uri, assetType, valuation).outcome.Ok? {
      ToldOneMore(clock, history, op, NextId(s));
    }
    hide After;
    hide LastOwner;
    hide Agree;
    if Agree(s) {
      RegisterAgrees(s, owner, h, uri, assetType, valuation);
    }
  }

  /** What one more call says about owner and holder. */
  lemma ToldOneMore(clock: U64, history: seq<Op>, op: Op, id: U64)
    ensures var r := Step(After(clock, history), op);
            && LastOwner(clock, history + [op], id) ==
               (if r.outcome.Ok? && op.OpRegister? && r.outcome.value == id then Some(op.owner)
                else if r.outcome.Ok? && op.OpTransfer? && op.id == id then Some(op.newOwner)
                else LastOwner(clock, history, id))
            && Holder(clock, history + [op], id) ==
               (if r.outcome.Ok? && op.OpLock? && op.id == id then Some(op.escrowId)
                else if r.outcome.Ok? && op.OpUnlock? && op.id == id then None
                else Holder(clock, history, id))
  {
    hide Step;
    assert (history + [op])[..|history|] == history;
  }

  lemma OneMore(clock: U64, history: seq<Op>, op: Op)
    ensures After(clock, history + [op]) == Step(After(clock, history), op).state
  {
    hide Step;
    assert (history + [op])[..|history|] == history;
  }

  lemma FirstStays(history: seq<Op>, op: Op)
    ensures history != [] ==> history + [op] != [] && (history + [op])[0] == history[0]
  {
  }
}
