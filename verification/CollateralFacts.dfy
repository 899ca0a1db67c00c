/** What a collateral's record says about its past: who registered it and when, when it was
    last valued, verified and changed; and why the registry refuses a call. */
module CollateralFacts {
  import opened MachineInts
  import opened CollateralRegistry

  // ----- the registry's own settings

  /** Administrator and oracle are those of the first call, for good. */
  lemma {:induction false} SettingsStay(clock: U64, ops: seq<Op>)
    requires ops != [] && ops[0].OpInitialize?
    ensures After(clock, ops).admin == Some(ops[0].admin) && After(clock, ops).oracle == Some(ops[0].oracle)
  {
    hide Step;
    var before, op := ops[..|ops| - 1], ops[|ops| - 1];
    StepSettings(After(clock, before), op);
    if |ops| > 1 {
      SettingsStay(clock, before);
    } else {
      assert before == [];
    }
  }

  lemma StepSettings(s: State, op: Op)
    ensures var s' := Step(s, op).state;
            if s.admin.None? && op.OpInitialize? then s'.admin == Some(op.admin) && s'.oracle == Some(op.oracle)
            else s'.admin == s.admin && s'.oracle == s.oracle
    ensures op.OpInitialize? ==> (Step(s, op).outcome.Ok? <==> s.admin.None?)
  {
  }

  /** The clock of the ledger as the contract sees it: the latest time that was reached. */
  lemma {:induction false} ClockIsLatest(clock: U64, ops: seq<Op>)
    ensures After(clock, ops).clock >= clock
    ensures forall i :: 0 <= i < |ops| && ops[i].OpTick? ==> ops[i].time <= After(clock, ops).clock
    ensures After(clock, ops).clock == clock || OpTick(After(clock, ops).clock) in ops
  {
    hide Step;
    if ops != [] {
      ClockIsLatest(clock, ops[..|ops| - 1]);
      ClockAfter(After(clock, ops[..|ops| - 1]), ops[|ops| - 1]);
    }
  }

  lemma ClockAfter(s: State, op: Op)
    ensures Step(s, op).state.clock == if op.OpTick? && op.time > s.clock then op.time else s.clock
  {
  }

  // ----- how a record came about

  /** An accepted registration that gave out this id. */
  predicate RegisteredBy(s: State, op: Op, id: U64, c: Collateral) {
    && op.OpRegister? && Step(s, op).outcome == Ok(id) && c.id == id
    && c.assetHash == op.assetHash && c.metadataUri == op.uri && c.assetType == op.assetType && c.createdAt == s.clock
  }

  lemma FirstSeen(s: State, op: Op, id: U64)
    requires id !in s.records && id in Step(s, op).state.records
    ensures RegisteredBy(s, op, id, Step(s, op).state.records[id])
  {
  }

  /** Every record has the document, description and type of the call that registered it, and
      the time of that call. */
  lemma {:induction false} CreatedBy(clock: U64, ops: seq<Op>, id: U64) returns (i: nat)
    requires ops != [] && ops[0].OpInitialize? && id in After(clock, ops).records
    ensures i < |ops| && RegisteredBy(After(clock, ops[..i]), ops[i], id, After(clock, ops).records[id])
  {
    hide Step;
    hide Agree;
    var before, op := ops[..|ops| - 1], ops[|ops| - 1];
    var s := After(clock, before);
    if id in s.records {
      assert |before| > 0;
      i := CreatedBy(clock, before, id);
      assert before[..i] == ops[..i];
      InitializedFirst(clock, before);
      DenseOf(s);
      StepCarries(s, op, id);
    } else {
      i := |ops| - 1;
      FirstSeen(s, op, id);
    }
  }

  // ----- the times on a record

  /** An accepted call about the collateral. */
  predicate About(s: State, op: Op, id: U64) {
    var r := Step(s, op);
    r.outcome.Ok? &&
    match op
    case OpRegister(_, _, _, _, _) => r.outcome.value == id
    case OpUpdateValuation(i, _) => i == id
    case OpTransfer(i, _) => i == id
    case OpLock(i, _) => i == id
    case OpUnlock(i) => i == id
    case OpVerify(i, _) => i == id
    case _ => false
  }

  /** What happened last to a collateral: any accepted call, a valuation, a verification. */
  datatype History = History(touched: Option<U64>, valued: Option<U64>, verified: Option<(Address, U64)>)

  function Happened(s: State, op: Op, id: U64, h: History): History {
    if !About(s, op, id) then h else
      History(Some(s.clock),
              if op.OpRegister? || op.OpUpdateValuation? then Some(s.clock) else h.valued,
              if op.OpVerify? && s.admin.Some? then Some((s.admin.value, s.clock)) else h.verified)
  }

  function HistoryOf(clock: U64, ops: seq<Op>, id: U64): History {
    if ops == [] then History(None, None, None) else
      var n := |ops| - 1;
      Happened(After(clock, ops[..n]), ops[n], id, HistoryOf(clock, ops[..n], id))
  }

  predicate TimesTold(s: State, id: U64, h: History) {
    if id !in s.records then h == History(None, None, None)
    else
      var c := s.records[id];
      && h.touched == Some(c.updatedAt) && h.valued == Some(c.valuationTimestamp)
      && h.verified == (if c.verifiedBy.Some? then Some((c.verifiedBy.value, c.verifiedAt)) else None)
      && (c.verifiedBy.None? ==> c.verifiedAt == 0)
  }

  lemma StepTellsTimes(s: State, op: Op, id: U64, h: History)
    requires Dense(s) && TimesTold(s, id, h)
    ensures TimesTold(Step(s, op).state, id, Happened(s, op, id, h))
  {
    if op.OpUpdateValuation? || op.OpTransfer? {
      RevisionTellsTimes(s, op, id, h);
      hide *;
    } else if op.OpLock? || op.OpUnlock? || op.OpVerify? {
      HolderTellsTimes(s, op, id, h);
      hide *;
    } else {
      hide UpdateValuation;
      hide Transfer;
      hide Lock;
      hide Unlock;
      hide Verify;
    }
  }

  lemma RevisionTellsTimes(s: State, op: Op, id: U64, h: History)
    requires (op.OpUpdateValuation? || op.OpTransfer?) && TimesTold(s, id, h)
    ensures TimesTold(Step(s, op).state, id, Happened(s, op, id, h))
  {
  }

  lemma HolderTellsTimes(s: State, op: Op, id: U64, h: History)
    requires (op.OpLock? || op.OpUnlock? || op.OpVerify?) && TimesTold(s, id, h)
    ensures TimesTold(Step(s, op).state, id, Happened(s, op, id, h))
  {
  }

  /** On every run the times on a record are those of the last accepted call about it, of its
      last valuation, and of its last verification, with the administrator who made it. */
  lemma {:induction false} TimesAreTold(clock: U64, ops: seq<Op>, id: U64)
    requires ops != [] && ops[0].OpInitialize?
    ensures TimesTold(After(clock, ops), id, HistoryOf(clock, ops, id))
  {
    hide Agree;
    hide Step;
    hide Happened;
    var before, op := ops[..|ops| - 1], ops[|ops| - 1];
    if |ops| == 1 {
      assert before == [];
      DeployedAgrees(clock);
    } else {
      TimesAreTold(clock, before, id);
      InitializedFirst(clock, before);
    }
    DenseOf(After(clock, before));
    StepTellsTimes(After(clock, before), op, id, HistoryOf(clock, before, id));
  }

  /** A revaluation is put on record with what it replaced and the oracle that made it. */
  lemma RevaluationOnRecord(s: State, id: U64, valuation: I128)
    requires UpdateValuation(s, id, valuation).outcome.Ok?
    ensures id in s.records && s.oracle.Some?
    ensures UpdateValuation(s, id, valuation).state.valuations
            == s.valuations[(id, s.clock) := Revaluation(s.records[id].currentValuation, valuation, s.oracle.value)]
  {
  }

  // ----- refusals

  /** Each error is returned exactly in its case, the first one checked. */
  lemma RecordRefusals(s: State, id: U64, valuation: I128, newOwner: Address, escrowId: U64, h: Hash)
    ensures var r := UpdateValuation(s, id, valuation).outcome;
            && (r == Err(Unauthorized) <==> s.oracle.None?)
            && (r == Err(InvalidValuation) <==> s.oracle.Some? && valuation <= 0)
            && (r == Err(CollateralNotFound) <==> s.oracle.Some? && valuation > 0 && id !in s.records)
            && (r == Err(CollateralExpired)
                <==> s.oracle.Some? && valuation > 0 && id in s.records && 0 < s.records[id].expiryDate < s.clock)
    ensures var r := Transfer(s, id, newOwner).outcome;
            && (r == Err(CollateralNotFound) <==> id !in s.records)
            && (r == Err(CollateralLocked) <==> id in s.records && s.records[id].locked)
            && (r == Err(InvalidTransfer) <==> id in s.records && !s.records[id].locked && newOwner == s.records[id].owner)
    ensures Lock(s, id, escrowId).outcome == Err(CollateralNotFound) <==> id !in s.records
    ensures Lock(s, id, escrowId).outcome == Err(CollateralLocked) <==> id in s.records && s.records[id].locked
    ensures Unlock(s, id).outcome == Err(CollateralNotFound) <==> id !in s.records
    ensures Unlock(s, id).outcome == Err(CollateralNotLocked) <==> id in s.records && !s.records[id].locked
    ensures var r := Verify(s, id, h).outcome;
            && (r == Err(Unauthorized) <==> s.admin.None?)
            && (r == Err(CollateralNotFound) <==> s.admin.Some? && id !in s.records)
            && (r == Err(MetadataHashMismatch) <==> s.admin.Some? && id in s.records && s.records[id].assetHash != h)
            && (r.Ok? <==> s.admin.Some? && id in s.records && s.records[id].assetHash == h)
  {
  }

  lemma RegistrationRefusals(s: State, op: Op)
    ensures op.OpRegister? ==>
              var r := Step(s, op).outcome;
              && (r == Err(InvalidValuation) <==> op.valuation <= 0)
              && (r == Err(DuplicateCollateral) <==> op.valuation > 0 && op.assetHash in s.byHash)
    ensures op.OpInitialize? ==> (Step(s, op).outcome == Err(AlreadyInitialized) <==> s.admin.Some?)
    ensures forall h :: (GetByHash(s, h) == Err(CollateralNotFound) <==> h !in s.byHash)
  {
  }
}
