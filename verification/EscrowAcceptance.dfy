/** Exactly when the escrow manager accepts each call, in every reachable state, with
    cross-asset escrows and fees; and what each accepted call does to every balance. */
module EscrowAcceptance {
  import opened MachineInts
  import opened Escrow
  import opened EscrowRuns
  import opened EscrowRules

  // ----- what a payout needs

  predicate Holds(s: State, token: Address, amount: int) { amount <= Pool(s, token) }

  function RateOf(s: State): I128 { if s.rate.Some? then s.rate.value else 1000000 }

  /** The pool holds what the seller is owed, in the destination asset, which is at least the
      agreed minimum, and the seller has room for it. Across assets that is the amount at
      the stored rate, in millionths, rounded down. */
  predicate SellerPayable(s: State, t: Terms) {
    if t.asset == t.destinationAsset then
      Holds(s, t.asset, t.amount) && CanReceive(s, t.asset, t.seller, t.amount)
    else
      var quote := t.amount * RateOf(s) / 1000000;
      && FitsI128(t.amount * RateOf(s)) && quote >= t.minDestinationAmount
      && Holds(s, t.destinationAsset, quote) && CanReceive(s, t.destinationAsset, t.seller, quote)
  }

  predicate BuyerPayable(s: State, t: Terms) {
    Holds(s, t.asset, t.amount) && CanReceive(s, t.asset, t.buyer, t.amount)
  }

  lemma QuoteIsFloor(s: State, t: Terms)
    requires t.minDestinationAmount > 0
    ensures var x := t.amount * RateOf(s);
            && (EstimatePathPayment(s, t.amount).Ok? <==> FitsI128(x))
            && (FitsI128(x) && x >= 0 ==> EstimatePathPayment(s, t.amount) == Ok(x / 1000000))
            && (FitsI128(x) && x < 0 ==> EstimatePathPayment(s, t.amount).value < t.minDestinationAmount && x / 1000000 < 0)
  {
    NegativeQuote(t.amount * RateOf(s));
  }

  lemma PayoutPossibleExactly(s: State, id: U64, t: Terms)
    requires t.amount > 0 && t.minDestinationAmount > 0
    ensures ReleasePayout(s, id, t).Ok? <==> SellerPayable(s, t)
    ensures ProcessRefund(s, id, t).Ok? <==> BuyerPayable(s, t)
  {
    QuoteIsFloor(s, t);
    hide EstimatePathPayment;
  }

  lemma PayExactly(s: State, id: U64, answers: Answers)
    requires id in s.escrows && s.escrows[id].terms.amount > 0 && s.escrows[id].terms.minDestinationAmount > 0
    ensures var t := s.escrows[id].terms;
            && (PayAndRelease(s, id, answers).outcome.Ok?
                <==> SellerPayable(s, t) && answers.treasuryReturns && FitsI128(t.amount * answers.feeBps) && answers.registryReturns)
            && (PayAndRefund(s, id, answers).outcome.Ok? <==> BuyerPayable(s, t) && answers.registryReturns)
  {
    PayoutPossibleExactly(s, id, s.escrows[id].terms);
    hide ReleasePayout;
    hide ProcessRefund;
    hide SellerPayable;
    hide BuyerPayable;
  }

  // ----- closing calls

  /** Whether a closing call should be accepted. A fee has to be computable for a seller to
      be paid; it need not be zero. */
  predicate ShouldClose(s: State, op: Op)
    requires Closing(op)
  {
    && op.id in s.escrows && op.answers.registryReturns
    && var status, t := s.escrows[op.id].status, s.escrows[op.id].terms;
       match op
       case OpRelease(_, answers) =>
         && status == Active && Confirmed(t, answers) && SellerPayable(s, t)
         && answers.treasuryReturns && FitsI128(t.amount * answers.feeBps)
       case OpRefund(_, _) =>
         status == Active && s.clock > t.expiryTs && BuyerPayable(s, t)
       case OpResolve(_, toSeller, answers) =>
         && status == Disputed
         && if toSeller then SellerPayable(s, t) && answers.treasuryReturns && FitsI128(t.amount * answers.feeBps)
            else BuyerPayable(s, t)
  }

  /** A release is accepted exactly for an Active escrow that the oracles confirmed and whose
      seller can be paid; a refund for an Active, expired one whose buyer can be paid; a
      decision for a Disputed one whose winner can be paid. */
  lemma ClosingAcceptedExactly(s0: State, ops: seq<Op>, op: Op)
    requires Initial(s0) && Closing(op)
    ensures Step(After(s0, ops), op).outcome.Ok? <==> ShouldClose(After(s0, ops), op)
  {
    var s := After(s0, ops);
    ReachableInv(s0, ops);
    OraclesReachable(s0, ops);
    hide After;
    if op.id in s.escrows {
      PayExactly(s, op.id, op.answers);
      ConfirmedExactly(s.escrows[op.id].terms, op.answers);
    }
    hide PayAndRelease;
    hide PayAndRefund;
    hide OracleCheck;
    hide Confirmed;
    hide OraclesUsable;
    hide SellerPayable;
    hide BuyerPayable;
    hide SellersIndexed;
    hide PaidIffClosed;
    hide Dense;
  }

  /** The fee rate plays no part in what a call does, as long as the fee can be computed. */
  lemma FeeRateIrrelevant(s: State, id: U64, answers: Answers, feeBps: U32)
    requires id in s.escrows ==>
               FitsI128(s.escrows[id].terms.amount * answers.feeBps) && FitsI128(s.escrows[id].terms.amount * feeBps)
    ensures Release(s, id, answers) == Release(s, id, answers.(feeBps := feeBps))
    ensures Resolve(s, id, true, answers) == Resolve(s, id, true, answers.(feeBps := feeBps))
  {
    hide ReleasePayout;
  }

  /** Why a closing call is refused, as far as the caller can see it coming. */
  lemma ClosingRefusals(s: State, id: U64, toSeller: bool, answers: Answers)
    ensures Release(s, id, answers).outcome == Err(EscrowNotFound) <==> id !in s.escrows
    ensures Refund(s, id, answers).outcome == Err(EscrowNotFound) <==> id !in s.escrows
    ensures Release(s, id, answers).outcome == Err(EscrowDisputed) <==> id in s.escrows && s.escrows[id].status == Disputed
    ensures Refund(s, id, answers).outcome == Err(EscrowDisputed) <==> id in s.escrows && s.escrows[id].status == Disputed
    ensures Release(s, id, answers).outcome == Err(EscrowNotActive) <==> Closed(s, id)
    ensures Refund(s, id, answers).outcome == Err(EscrowNotActive) <==> Closed(s, id)
    ensures Refund(s, id, answers).outcome == Err(EscrowNotExpired)
            <==> id in s.escrows && s.escrows[id].status == Active && s.clock <= s.escrows[id].terms.expiryTs
    ensures Resolve(s, id, toSeller, answers).outcome == Err(EscrowNotFound) <==> id !in s.escrows
    ensures Resolve(s, id, toSeller, answers).outcome == Err(EscrowNotDisputed)
            <==> id in s.escrows && s.escrows[id].status != Disputed
  {
    hide Transfer;
    hide TruncDiv;
  }

  /** A release that is not confirmed is refused as such, with the error of its oracle mode;
      and one that would pay too little across assets as slippage. */
  lemma ReleaseRefusals(s0: State, ops: seq<Op>, id: U64, answers: Answers)
    requires Initial(s0) && id in After(s0, ops).escrows && After(s0, ops).escrows[id].status == Active
    ensures var s := After(s0, ops);
            var t := s.escrows[id].terms;
            var r := Release(s, id, answers).outcome;
            && (r == Err(ConsensusNotMet) <==> t.requiredConfirmations > 0 && answers.oracleReturns && !answers.consensus)
            && (r == Err(ConfirmationNotMet)
                <==> t.requiredConfirmations == 0 && answers.oracleReturns && !Confirmed(t, answers))
            && (r == Err(SlippageExceeded)
                <==> && Confirmed(t, answers) && t.asset != t.destinationAsset && FitsI128(t.amount * RateOf(s))
                     && t.amount * RateOf(s) / 1000000 < t.minDestinationAmount)
            && (r == Err(PathPaymentFailed)
                <==> Confirmed(t, answers) && t.asset != t.destinationAsset && !FitsI128(t.amount * RateOf(s)))
  {
    var s := After(s0, ops);
    var t := s.escrows[id].terms;
    ReachableInv(s0, ops);
    OraclesReachable(s0, ops);
    TermsAt(s, id);
    ConfirmedExactly(t, answers);
    OracleErrors(t, answers);
    PayoutErrors(s, id, t);
    hide *;
    ReleaseIs(s, id, answers);
  }

  /** An unusable oracle set is reported at release only if it got past creation, which it does not. */
  lemma OracleSetErrors(s0: State, ops: seq<Op>, id: U64, t: Terms, answers: Answers)
    ensures OracleCheck(t, answers) == Err(InvalidOracleSet) <==> t.requiredConfirmations > 0 && t.oracleSet == []
    ensures OracleCheck(t, answers) == Err(InvalidThreshold)
            <==> t.oracleSet != [] && t.requiredConfirmations > |t.oracleSet|
    ensures Initial(s0) ==> Release(After(s0, ops), id, answers).outcome !in {Err(InvalidOracleSet), Err(InvalidThreshold)}
  {
    if Initial(s0) {
      var s := After(s0, ops);
      OraclesReachable(s0, ops);
      hide After;
      if id in s.escrows {
        var terms := s.escrows[id].terms;
        assert OraclesUsable(terms);
        assert OracleCheck(terms, answers).Err? ==> OracleCheck(terms, answers).error !in {InvalidOracleSet, InvalidThreshold};
        PayErrors(s, id, answers);
      }
      hide PayAndRelease;
      hide OracleCheck;
    }
  }

  lemma PayErrors(s: State, id: U64, answers: Answers)
    requires id in s.escrows
    ensures PayAndRelease(s, id, answers).outcome !in {Err(InvalidOracleSet), Err(InvalidThreshold)}
  {
    hide Transfer;
    hide TruncDiv;
  }

  lemma TermsAt(s: State, id: U64)
    requires Inv(s) && AllOraclesUsable(s) && id in s.escrows
    ensures s.escrows[id].terms.amount > 0 && s.escrows[id].terms.minDestinationAmount > 0 && OraclesUsable(s.escrows[id].terms)
  {
  }

  lemma OracleErrors(t: Terms, answers: Answers)
    requires OraclesUsable(t)
    ensures var r := OracleCheck(t, answers);
            && (r.Err? && r.error == ConsensusNotMet
                <==> t.requiredConfirmations > 0 && answers.oracleReturns && !answers.consensus)
            && (r.Err? && r.error == ConfirmationNotMet
                <==> t.requiredConfirmations == 0 && answers.oracleReturns && r.Err?)
            && (r.Err? ==> r.error in {ConsensusNotMet, ConfirmationNotMet, Trap})
  {
  }

  lemma PayoutErrors(s: State, id: U64, t: Terms)
    requires t.minDestinationAmount > 0
    ensures var r := ReleasePayout(s, id, t);
            && (r.Err? && r.error == SlippageExceeded
                <==> && t.asset != t.destinationAsset && FitsI128(t.amount * RateOf(s))
                     && t.amount * RateOf(s) / 1000000 < t.minDestinationAmount)
            && (r.Err? && r.error == PathPaymentFailed <==> t.asset != t.destinationAsset && !FitsI128(t.amount * RateOf(s)))
            && (r.Err? ==> r.error in {SlippageExceeded, PathPaymentFailed, Trap})
  {
    QuoteIsFloor(s, t);
    assert EstimatePathPayment(s, t.amount).Err? ==> EstimatePathPayment(s, t.amount).error == PathPaymentFailed;
    hide EstimatePathPayment;
    hide Transfer;
  }

  lemma ReleaseIs(s: State, id: U64, answers: Answers)
    requires id in s.escrows && s.escrows[id].status == Active
    ensures var t := s.escrows[id].terms;
            var r := Release(s, id, answers).outcome;
            if OracleCheck(t, answers).Err? then r == Err(OracleCheck(t, answers).error)
            else if ReleasePayout(s, id, t).Err? then r == Err(ReleasePayout(s, id, t).error)
            else r.Ok? || r == Err(Trap)
  {
    hide OracleCheck;
    hide ReleasePayout;
  }

  // ----- creation

  /** Positive amounts, a threshold that distinct named oracles can reach, a registry that
      locks the collateral, a lender other than the contract that has the amount, and room
      for it and for one more id. */
  predicate ShouldCreate(s: State, t: Terms, answers: Answers) {
    && t.amount > 0 && t.minDestinationAmount > 0 && OraclesUsable(t) && answers.registryReturns
    && t.lender != s.self && TokenBalance(s.balances, t.asset, t.lender) >= t.amount
    && FitsI128(Pool(s, t.asset) + t.amount) && FitsU64(s.nextId + 1)
  }

  /** A creation is accepted exactly then. */
  lemma CreationAcceptedExactly(s: State, t: Terms, answers: Answers)
    ensures Create(s, t, answers).outcome.Ok? <==> ShouldCreate(s, t, answers)
  {
  }

  /** Which mistake in the terms is reported, when there is one. */
  lemma CreationRefusals(s: State, t: Terms, answers: Answers)
    requires t.lender != s.self
    ensures var r := Create(s, t, answers).outcome;
            && (r == Err(InvalidAmount) <==> t.amount <= 0 || t.minDestinationAmount <= 0)
            && (r == Err(InvalidThreshold)
                <==> t.amount > 0 && t.minDestinationAmount > 0 && 0 < |t.oracleSet| < t.requiredConfirmations)
            && (r == Err(InvalidOracleSet)
                <==> && t.amount > 0 && t.minDestinationAmount > 0 && t.requiredConfirmations > 0
                     && (t.oracleSet == [] || (t.requiredConfirmations <= |t.oracleSet| && !OraclesUsable(t))))
  {
    hide Transfer;
  }

  // ----- every balance

  /** A token moves any amount that is not negative and that its owner has, if the other side
      has room. */
  lemma TransferAcceptedExactly(balances: map<(Address, Address), I128>, token: Address, from: Address, to: Address,
                                amount: I128)
    ensures Transfer(balances, token, from, to, amount).Some?
            <==> && 0 <= amount <= TokenBalance(balances, token, from)
                 && (from == to || FitsI128(TokenBalance(balances, token, to) + amount))
  {
  }

  /** The payment that a log ends with. */
  function LastPayment(log: seq<TokenEvent>): Option<Payment> {
    if log != [] && log[|log| - 1].Paid? then Some(log[|log| - 1].payment) else None
  }

  function Move(token: Address, from: Address, to: Address, amount: int, t: Address, holder: Address): int {
    (if t == token && holder == to then amount else 0) - (if t == token && holder == from then amount else 0)
  }

  /** What one step brings to a holder of token t: an accepted creation takes the amount
      from the lender to the contract, an accepted closing call pays out what it logs, and
      outsiders make their own transfers. */
  function Brought(s: State, op: Op, t: Address, holder: Address): int {
    var r := Step(s, op);
    if r.outcome.Err? then 0
    else if op.OpCreate? then Move(op.terms.asset, op.terms.lender, s.self, op.terms.amount, t, holder)
    else if op.OpTransfer? then Move(op.token, op.from, op.to, op.amount, t, holder)
    else if Closing(op) && LastPayment(r.state.log).Some? then
      var p := LastPayment(r.state.log).value;
      Move(p.token, s.self, p.to, p.amount, t, holder)
    else 0
  }

  function AllBrought(s0: State, ops: seq<Op>, t: Address, holder: Address): int {
    if ops == [] then 0 else
      var n := |ops| - 1;
      AllBrought(s0, ops[..n], t, holder) + Brought(After(s0, ops[..n]), ops[n], t, holder)
  }

  lemma StepBrings(s: State, op: Op, t: Address, holder: Address)
    requires Inv(s)
    ensures var s' := Step(s, op).state;
            TokenBalance(s'.balances, t, holder) == TokenBalance(s.balances, t, holder) + Brought(s, op, t, holder)
  {
    FailedCallChangesNothing(s, op);
    if Step(s, op).outcome.Ok? {
      if op.OpCreate? {
        CreateEffect(s, op);
        TransferMoves(s.balances, op.terms.asset, op.terms.lender, s.self, op.terms.amount, t, holder);
        hide Step;
        hide Transfer;
      } else if Closing(op) {
        var status, p := ClosingStep(s, op);
        hide Step;
        hide PaidRight;
        TransferMoves(s.balances, p.token, s.self, p.to, p.amount, t, holder);
        hide Transfer;
      } else if op.OpTransfer? {
        hide Transfer;
        TransferMoves(s.balances, op.token, op.from, op.to, op.amount, t, holder);
      }
    } else {
      hide Step;
    }
  }

  /** On every run each balance of each token, the contract's and anybody's, is its start and
      what the accepted calls and outside transfers brought: nothing is minted or lost. */
  lemma {:induction false} BalancesAreMoves(s0: State, ops: seq<Op>, t: Address, holder: Address)
    requires Initial(s0)
    ensures TokenBalance(After(s0, ops).balances, t, holder) == TokenBalance(s0.balances, t, holder) + AllBrought(s0, ops, t, holder)
  {
    hide Step;
    hide Brought;
    hide Inv;
    if ops != [] {
      var n := |ops| - 1;
      BalancesAreMoves(s0, ops[..n], t, holder);
      ReachableInv(s0, ops[..n]);
      StepBrings(After(s0, ops[..n]), ops[n], t, holder);
    }
  }

  // ----- the clock and the rate

  /** The rate is the last one set, and the clock the latest time that was reached. */
  lemma {:induction false} ClockAndRate(s0: State, ops: seq<Op>)
    ensures After(s0, ops).clock >= s0.clock
    ensures forall i :: 0 <= i < |ops| && ops[i].OpTick? ==> ops[i].time <= After(s0, ops).clock
    ensures After(s0, ops).clock == s0.clock || OpTick(After(s0, ops).clock) in ops
    ensures After(s0, ops).rate == LastRate(s0, ops)
  {
    hide Step;
    if ops != [] {
      ClockAndRate(s0, ops[..|ops| - 1]);
      StepClock(After(s0, ops[..|ops| - 1]), ops[|ops| - 1]);
    }
  }

  function LastRate(s0: State, ops: seq<Op>): Option<I128> {
    if ops == [] then s0.rate
    else if ops[|ops| - 1].OpSetRate? then Some(ops[|ops| - 1].rate)
    else LastRate(s0, ops[..|ops| - 1])
  }

  lemma StepClock(s: State, op: Op)
    ensures Step(s, op).state.clock == if op.OpTick? && op.time > s.clock then op.time else s.clock
    ensures Step(s, op).state.rate == if op.OpSetRate? then Some(op.rate) else s.rate
  {
    hide Transfer;
    hide OracleCheck;
  }

  // ----- disputes

  /** `raise_dispute` is for buyer and seller of an Active escrow, `dispute_escrow` for the
      lender as well; each error is returned exactly in its case, the first one checked. */
  lemma DisputesAcceptedExactly(s: State, id: U64, who: Address, reason: string)
    ensures var r := RaiseDispute(s, id, who, reason).outcome;
            && (r.Ok? <==> && id in s.escrows && s.escrows[id].status == Active
                           && who in {s.escrows[id].terms.buyer, s.escrows[id].terms.seller})
            && (r == Err(EscrowNotFound) <==> id !in s.escrows)
            && (r == Err(EscrowDisputed) <==> id in s.escrows && s.escrows[id].status == Disputed)
            && (r == Err(EscrowNotActive) <==> Closed(s, id))
            && (r == Err(Unauthorized)
                <==> && id in s.escrows && s.escrows[id].status == Active
                     && who !in {s.escrows[id].terms.buyer, s.escrows[id].terms.seller})
    ensures var r := DisputeEscrow(s, id, who).outcome;
            && (r.Ok? <==> && id in s.escrows && s.escrows[id].status == Active
                           && who in {s.escrows[id].terms.buyer, s.escrows[id].terms.seller, s.escrows[id].terms.lender})
            && (r == Err(EscrowNotFound) <==> id !in s.escrows)
            && (r == Err(Unauthorized)
                <==> && id in s.escrows
                     && who !in {s.escrows[id].terms.buyer, s.escrows[id].terms.seller, s.escrows[id].terms.lender})
            && (r == Err(EscrowNotActive)
                <==> && id in s.escrows && s.escrows[id].status != Active
                     && who in {s.escrows[id].terms.buyer, s.escrows[id].terms.seller, s.escrows[id].terms.lender})
  {
  }

  /** The dispute on record is the one that `raise_dispute` opened; `dispute_escrow` leaves none. */
  predicate RecordsDispute(s: State, op: Op, id: U64, dispute: Option<Dispute>) {
    && op.OpRaise? && op.id == id && Step(s, op).outcome.Ok?
    && dispute == Some(Dispute(s.clock, op.disputer, op.reason))
  }

  lemma StepDispute(s: State, op: Op, id: U64)
    requires Inv(s) && id in Step(s, op).state.escrows
    ensures var e := Step(s, op).state.escrows[id];
            if op.OpRaise? && op.id == id && Step(s, op).outcome.Ok? then RecordsDispute(s, op, id, e.dispute)
            else e.dispute == if id in s.escrows then s.escrows[id].dispute else None
  {
    FailedCallChangesNothing(s, op);
    if Step(s, op).outcome.Ok? && Closing(op) {
      var status, p := ClosingStep(s, op);
      hide Step;
    } else if Step(s, op).outcome.Ok? && op.OpCreate? {
      CreateEffect(s, op);
      hide Step;
    } else {
      hide Transfer;
      hide PayAndRelease;
      hide PayAndRefund;
      hide OracleCheck;
    }
  }

  /** Only an escrow that exists can be disputed, and it never goes away. */
  lemma {:induction false} RaiseNeedsEscrow(s0: State, ops: seq<Op>, k: nat, id: U64)
    requires Initial(s0) && k < |ops| && ops[k].OpRaise? && ops[k].id == id && id !in After(s0, ops).escrows
    ensures Step(After(s0, ops[..k]), ops[k]).outcome.Err?
    ensures id !in After(s0, ops[..k]).escrows
  {
    var before, op := ops[..|ops| - 1], ops[|ops| - 1];
    hide Inv;
    ReachableInv(s0, before);
    if id in After(s0, before).escrows {
      StepKeepsEscrow(After(s0, before), op, id);
      assert false;
    }
    if k < |before| {
      assert before[..k] == ops[..k];
      hide Step;
      RaiseNeedsEscrow(s0, before, k, id);
    }
  }

  lemma {:induction false} DisputeOnRecord(s0: State, ops: seq<Op>, id: U64) returns (i: nat)
    requires Initial(s0) && id in After(s0, ops).escrows
    ensures var e := After(s0, ops).escrows[id];
            if e.dispute.Some? then i < |ops| && RecordsDispute(After(s0, ops[..i]), ops[i], id, e.dispute)
            else forall k :: 0 <= k < |ops| && ops[k].OpRaise? && ops[k].id == id ==> Step(After(s0, ops[..k]), ops[k]).outcome.Err?
  {
    hide Step;
    hide Inv;
    NothingYet(s0);
    hide Initial;
    i := 0;
    if ops != [] {
      var before, op := ops[..|ops| - 1], ops[|ops| - 1];
      var s := After(s0, before);
      ReachableInv(s0, before);
      StepDispute(s, op, id);
      assert forall k :: 0 <= k < |before| ==> before[..k] == ops[..k] && before[k] == ops[k];
      if op.OpRaise? && op.id == id && Step(s, op).outcome.Ok? {
        i := |ops| - 1;
      } else if id in s.escrows {
        i := DisputeOnRecord(s0, before, id);
        assert ops[..|before|] == before;
      } else {
        NewEscrow(s, op, id);
        forall k | 0 <= k < |before| && before[k].OpRaise? && before[k].id == id
          ensures Step(After(s0, before[..k]), before[k]).outcome.Err?
        {
          RaiseNeedsEscrow(s0, before, k, id);
        }
      }
    }
  }
}
