/** When the escrow manager closes an escrow, and that it can. */
module EscrowRules {
  import opened MachineInts
  import opened Sums
  import opened Escrow
  import opened EscrowRuns

  /** The oracles confirmed what the terms ask for: enough of the oracle set, or, with
      no set, one verified confirmation of the required kind. */
  predicate Confirmed(t: Terms, answers: Answers) {
    && answers.oracleReturns
    && (t.requiredConfirmations > 0 ==> answers.consensus)
    && (t.requiredConfirmations == 0 ==>
          && answers.confirmations.Some?
          && Confirmation(t.requiredConfirmation, true) in answers.confirmations.value)
  }

  /** The oracle settings a creation accepts. */
  predicate OraclesUsable(t: Terms) {
    t.requiredConfirmations > 0 ==>
      t.requiredConfirmations <= |t.oracleSet| && forall i, j :: 0 <= i < j < |t.oracleSet| ==> t.oracleSet[i] != t.oracleSet[j]
  }

  lemma ConfirmedExactly(t: Terms, answers: Answers)
    requires OraclesUsable(t)
    ensures OracleCheck(t, answers).Ok? <==> Confirmed(t, answers)
  {
    if answers.confirmations.Some? {
      var cs, want := answers.confirmations.value, Confirmation(t.requiredConfirmation, true);
      assert HasConfirmation(answers.confirmations, t.requiredConfirmation) ==> want in cs by {
        if i :| 0 <= i < |cs| && cs[i].eventType == t.requiredConfirmation && cs[i].verified {
          assert cs[i] == want;
        }
      }
    }
  }

  /** The step op, taken in state s, is a proper reason for the status of an escrow. */
  predicate Justifies(s: State, op: Op, id: U64, status: Status) {
    if status == Active then
      op.OpCreate? && s.nextId == id && Step(s, op).outcome == Ok(id)
    else
      && id in s.escrows && Step(s, op).outcome.Ok?
      && var e := s.escrows[id]; var t := e.terms;
      match op
      case OpRaise(i, who, _) =>
        i == id && status == Disputed && e.status == Active && who in {t.buyer, t.seller}
      case OpDispute(i, who) =>
        i == id && status == Disputed && e.status == Active && who in {t.buyer, t.seller, t.lender}
      case OpRelease(i, answers) =>
        i == id && status == Released && e.status == Active && Confirmed(t, answers)
      case OpRefund(i, _) =>
        i == id && status == Refunded && e.status == Active && s.clock > t.expiryTs
      case OpResolve(i, toSeller, _) =>
        i == id && e.status == Disputed && status == if toSeller then Released else Refunded
      case _ => false
  }

  predicate AllOraclesUsable(s: State) {
    forall id :: id in s.escrows ==> OraclesUsable(s.escrows[id].terms)
  }

  lemma CreateOracles(s: State, op: Op)
    requires op.OpCreate? && Step(s, op).outcome.Ok?
    ensures OraclesUsable(op.terms)
  {
    hide Transfer;
  }

  lemma StepOracles(s: State, op: Op)
    requires Inv(s) && AllOraclesUsable(s)
    ensures AllOraclesUsable(Step(s, op).state)
  {
    hide OraclesUsable;
    forall id | id in Step(s, op).state.escrows
      ensures OraclesUsable(Step(s, op).state.escrows[id].terms)
    {
      if id in s.escrows {
        StepKeepsEscrow(s, op, id);
        hide Step;
      } else {
        NewEscrow(s, op, id);
        CreateOracles(s, op);
        hide Step;
      }
    }
  }

  /** An escrow enters the table with the terms its creation was called with. */
  lemma NewEscrow(s: State, op: Op, id: U64)
    requires Inv(s) && id !in s.escrows && id in Step(s, op).state.escrows
    ensures op.OpCreate? && Justifies(s, op, id, Active)
    ensures Step(s, op).state.escrows[id] == Escrow(id, op.terms, Active, s.clock, None)
  {
    FailedCallChangesNothing(s, op);
    if op.OpCreate? {
      CreateEffect(s, op);
      hide Step;
    } else if Closing(op) {
      var status, p := ClosingStep(s, op);
      hide Step;
    } else {
      hide Transfer;
    }
  }

  /** Whatever changes an escrow's status is justified. */
  lemma StatusChange(s: State, op: Op, id: U64)
    requires Inv(s) && AllOraclesUsable(s) && id in s.escrows
    ensures id in Step(s, op).state.escrows
    ensures var status := Step(s, op).state.escrows[id].status;
            status != s.escrows[id].status ==> Justifies(s, op, id, status)
  {
    StepKeepsEscrow(s, op, id);
    FailedCallChangesNothing(s, op);
    if Step(s, op).outcome.Ok? {
      if Closing(op) {
        ClosingChange(s, op, id);
        hide Step;
      } else if op.OpCreate? {
        CreateEffect(s, op);
        hide Step;
      } else {
        hide Transfer;
        hide OraclesUsable;
        hide Confirmed;
      }
    }
  }

  lemma ClosingChange(s: State, op: Op, id: U64)
    requires Inv(s) && AllOraclesUsable(s) && id in s.escrows && Closing(op) && Step(s, op).outcome.Ok?
    ensures id in Step(s, op).state.escrows
    ensures var status := Step(s, op).state.escrows[id].status;
            status != s.escrows[id].status ==> Justifies(s, op, id, status)
  {
    assert op.id in s.escrows;
    ConfirmedExactly(s.escrows[op.id].terms, if op.OpRelease? then op.answers else Answers(false, false, None, false, 0, false));
    hide Inv;
    hide OracleCheck;
    hide Confirmed;
    hide OraclesUsable;
    hide ReleasePayout;
    hide ProcessRefund;
    PayoutOutcome(s, op);
    hide PayAndRelease;
    hide PayAndRefund;
  }

  /** A payout changes the status of the one escrow it is for. */
  lemma PayoutOutcome(s: State, op: Op)
    requires Closing(op) && op.id in s.escrows
    ensures var r := PayAndRelease(s, op.id, op.answers);
            r.outcome.Ok? ==> r.state.escrows == s.escrows[op.id := s.escrows[op.id].(status := Released)]
    ensures var r := PayAndRefund(s, op.id, op.answers);
            r.outcome.Ok? ==> r.state.escrows == s.escrows[op.id := s.escrows[op.id].(status := Refunded)]
  {
    hide Transfer;
  }

  /** In every run each escrow's present status was reached by a step that justifies it:
      a release confirmed by the oracles, a refund after expiry, a resolved dispute, a
      dispute opened by a party, or its creation. */
  lemma {:induction false} StatusJustified(s0: State, ops: seq<Op>, id: U64) returns (i: nat)
    requires Initial(s0) && id in After(s0, ops).escrows
    ensures i < |ops| && Justifies(After(s0, ops[..i]), ops[i], id, After(s0, ops).escrows[id].status)
    ensures AllOraclesUsable(After(s0, ops))
  {
    hide Step;
    hide Justifies;
    hide AllOraclesUsable;
    hide Inv;
    NothingYet(s0);
    hide Initial;
    var before, op := ops[..|ops| - 1], ops[|ops| - 1];
    var s := After(s0, before);
    ReachableInv(s0, before);
    OraclesReachable(s0, before);
    StepOracles(s, op);
    if id in s.escrows {
      StatusChange(s, op, id);
      if After(s0, ops).escrows[id].status == s.escrows[id].status {
        i := StatusJustified(s0, before, id);
        assert before[..i] == ops[..i];
      } else {
        i := |ops| - 1;
      }
    } else {
      NewEscrow(s, op, id);
      i := |ops| - 1;
    }
  }

  /** Every escrow has the terms and the time of the call that created it. */
  lemma {:induction false} CreatedBy(s0: State, ops: seq<Op>, id: U64) returns (i: nat)
    requires Initial(s0) && id in After(s0, ops).escrows
    ensures i < |ops| && ops[i].OpCreate? && Step(After(s0, ops[..i]), ops[i]).outcome == Ok(id)
    ensures After(s0, ops).escrows[id].terms == ops[i].terms
    ensures After(s0, ops).escrows[id].createdAt == After(s0, ops[..i]).clock
  {
    hide Step;
    hide Inv;
    NothingYet(s0);
    hide Initial;
    hide OraclesUsable;
    var before, op := ops[..|ops| - 1], ops[|ops| - 1];
    ReachableInv(s0, before);
    if id in After(s0, before).escrows {
      i := CreatedBy(s0, before, id);
      assert before[..i] == ops[..i];
      StepKeepsEscrow(After(s0, before), op, id);
    } else {
      i := |ops| - 1;
      NewEscrow(After(s0, before), op, id);
    }
  }

  lemma NothingYet(s: State)
    requires Initial(s)
    ensures s.escrows == map[] && AllOraclesUsable(s)
  {
  }

  lemma {:induction false} OraclesReachable(s0: State, ops: seq<Op>)
    requires Initial(s0)
    ensures AllOraclesUsable(After(s0, ops))
  {
    hide Step;
    hide AllOraclesUsable;
    hide Inv;
    NothingYet(s0);
    if ops != [] {
      var before := ops[..|ops| - 1];
      OraclesReachable(s0, before);
      ReachableInv(s0, before);
      StepOracles(After(s0, before), ops[|ops| - 1]);
    }
  }

  /** The recipient can hold what it is paid. */
  predicate CanReceive(s: State, token: Address, to: Address, amount: int) {
    to != s.self ==> FitsI128(TokenBalance(s.balances, token, to) + amount)
  }

  /** Once expired, an escrow can be refunded: with same-asset escrows a refund is
      accepted exactly when the escrow is Active and expired, the registry answers, and
      the buyer's balance has room. Nothing other escrows do can stop it. */
  lemma RefundAcceptedExactly(s0: State, ops: seq<Op>, id: U64, answers: Answers)
    requires Initial(s0) && SameAssetOnly(After(s0, ops))
    ensures var s := After(s0, ops);
            Refund(s, id, answers).outcome.Ok?
            <==> && id in s.escrows && s.escrows[id].status == Active
                 && var t := s.escrows[id].terms;
                    s.clock > t.expiryTs && answers.registryReturns && CanReceive(s, t.asset, t.buyer, t.amount)
  {
    var s := After(s0, ops);
    ReachableInv(s0, ops);
    hide After;
    if id in s.escrows && Open(s.escrows[id]) {
      PoolHasAmount(s0, ops, id);
    }
    hide SellersIndexed;
    hide PaidIffClosed;
    hide Dense;
  }

  lemma PoolHasAmount(s0: State, ops: seq<Op>, id: U64)
    requires Initial(s0) && SameAssetOnly(After(s0, ops)) && id in After(s0, ops).escrows && Open(After(s0, ops).escrows[id])
    ensures Pool(After(s0, ops), After(s0, ops).escrows[id].terms.asset) >= After(s0, ops).escrows[id].terms.amount
  {
    var s := After(s0, ops);
    var t := s.escrows[id].terms.asset;
    ReachableInv(s0, ops);
    PoolCovers(s0, ops, t);
    hide After;
    hide SellersIndexed;
    hide PaidIffClosed;
    assert id in OpenAmounts(s.escrows, t);
    TotalNonNegative(OpenAmounts(s.escrows, t));
  }

  /** Likewise a confirmed release of an Active escrow. */
  lemma ReleaseAcceptedExactly(s0: State, ops: seq<Op>, id: U64, answers: Answers)
    requires Initial(s0) && SameAssetOnly(After(s0, ops))
    ensures var s := After(s0, ops);
            Release(s, id, answers).outcome.Ok?
            <==> && id in s.escrows && s.escrows[id].status == Active
                 && var t := s.escrows[id].terms;
                    && Confirmed(t, answers) && answers.registryReturns
                    && answers.treasuryReturns && FitsI128(t.amount * answers.feeBps)
                    && CanReceive(s, t.asset, t.seller, t.amount)
  {
    var s := After(s0, ops);
    ReachableInv(s0, ops);
    OraclesReachable(s0, ops);
    if id in s.escrows && Open(s.escrows[id]) {
      PoolHasAmount(s0, ops, id);
      ConfirmedExactly(s.escrows[id].terms, answers);
    }
    hide After;
    hide OracleCheck;
    hide Confirmed;
    hide OraclesUsable;
    hide SellersIndexed;
    hide PaidIffClosed;
    hide Dense;
  }

  // ----- what single calls mean

  /** Neither a release nor a refund gets past a dispute. */
  ghost predicate HeldByDispute(s: State, id: U64) {
    && id in s.escrows && s.escrows[id].status == Disputed
    && forall answers :: Release(s, id, answers).outcome == Err(EscrowDisputed)
                         && Refund(s, id, answers).outcome == Err(EscrowDisputed)
  }

  /** No token's pool moved, and no token's books. */
  ghost predicate SameMoney(s: State, s': State) {
    forall t :: Pool(s', t) == Pool(s, t) && Books(s', t) == Books(s, t)
  }

  /** A dispute moves no money and holds the escrow. */
  lemma DisputeHolds(s: State, op: Op)
    requires Disputing(op) && Step(s, op).outcome.Ok?
    ensures HeldByDispute(Step(s, op).state, op.id) && SameMoney(s, Step(s, op).state)
  {
    var s' := Step(s, op).state;
    DisputeEffect(s, op);
    forall t
      ensures Pool(s', t) == Pool(s, t) && Books(s', t) == Books(s, t)
    {
      DisputeBalances(s, op, t);
    }
    hide Step;
    hide Books;
    hide Pool;
  }

  /** A closing call pays the escrow's one payment, or nothing. */
  lemma ClosingPays(s0: State, ops: seq<Op>, op: Op)
    requires Initial(s0) && Closing(op)
    ensures var s := After(s0, ops);
            var r := Step(s, op);
            && (r.outcome.Ok? ==> PaymentCount(s.log, op.id) == 0 && PaymentCount(r.state.log, op.id) == 1)
            && (r.outcome.Err? ==> r.state == s)
  {
    var s := After(s0, ops);
    ReachableInv(s0, ops);
    PaidExactlyOnce(s0, ops, op.id);
    hide *;
    FailedCallChangesNothing(s, op);
    if Step(s, op).outcome.Ok? {
      var status, p := ClosingStep(s, op);
      CountAfterStep(s, op, op.id);
      ClosesIs(s, Step(s, op).state, op.id, status, p);
    }
  }

  lemma ClosesIs(s: State, s': State, id: U64, status: Status, p: Payment)
    requires Closes(s, s', id, status, p) && CountMoves(s, s', id)
    requires PaymentCount(s.log, id) == if id in s.escrows && !Open(s.escrows[id]) then 1 else 0
    ensures PaymentCount(s.log, id) == 0 && PaymentCount(s'.log, id) == 1
  {
    hide PaymentCount;
    hide Transfer;
    hide PaidRight;
  }
}
