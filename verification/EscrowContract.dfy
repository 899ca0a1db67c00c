/** The escrow manager as an object. Its storage, the token balances it moves and the log
    of those moves are fields. Its ghost history is the run that led to its present state:
    `Valid` says so, and every call keeps it, so all that is proved about runs holds of the
    object. A payout that a later step of the same call invalidates is undone, as the
    host's rollback does. */
module EscrowContract {
  import opened MachineInts
  import E = Escrow
  import ER = EscrowRuns
  import EL = EscrowRules
  import EA = EscrowAcceptance

  class Manager {
    const self: E.Address
    var escrows: map<U64, E.Escrow>
    var nextId: U64
    var bySeller: map<E.Address, seq<U64>>
    var rate: Option<I128>
    var balances: map<(E.Address, E.Address), I128>
    var log: seq<E.TokenEvent>
    var clock: U64
    ghost const start: E.State
    ghost var history: seq<E.Op>

    function View(): E.State
      reads this
    {
      E.State(self, escrows, nextId, bySeller, rate, balances, log, clock)
    }

    /** The storage is what the calls so far made of the initial one, and is consistent. */
    ghost predicate Valid()
      reads this
    {
      E.Initial(start) && View() == E.After(start, history) && ER.Inv(View())
    }

    constructor (self: E.Address, balances: map<(E.Address, E.Address), I128>, clock: U64)
      requires forall k :: k in balances ==> balances[k] >= 0
      ensures Valid() && history == [] && start == View()
      ensures E.Initial(View()) && this.self == self && this.balances == balances && this.clock == clock
    {
      this.self, this.balances, this.clock := self, balances, clock;
      this.escrows, this.nextId, this.bySeller, this.rate, this.log := map[], 1, map[], None, [];
      this.start := E.State(self, map[], 1, map[], None, balances, [], clock);
      this.history := [];
      new;
      ER.InitialInv(View());
    }

    /** The nested loop that looks for a repeated oracle. */
    method FindDuplicate(oracles: seq<E.Address>) returns (found: bool)
      ensures found <==> E.HasDuplicates(oracles)
    {
      var unique: seq<E.Address> := [];
      for i := 0 to |oracles|
        invariant unique == oracles[..i]
        invariant forall a, b :: 0 <= a < b < i ==> oracles[a] != oracles[b]
      {
        for j := 0 to |unique|
          invariant forall b :: 0 <= b < j ==> unique[b] != oracles[i]
        {
          if unique[j] == oracles[i] {
            return true;
          }
        }
        unique := unique + [oracles[i]];
      }
      found := false;
    }

    method CreateEscrow(t: E.Terms, answers: E.Answers) returns (r: Outcome<U64, E.Error>)
      requires Valid()
      modifies this
      ensures Valid() && history == old(history) + [E.OpCreate(t, answers)]
      ensures E.Result(View(), r) == E.Create(old(View()), t, answers)
      ensures r.Ok? <==> old(EA.ShouldCreate(View(), t, answers))
    {
      EA.CreationAcceptedExactly(View(), t, answers);
      hide EA.ShouldCreate;
      hide ER.Inv;
      hide E.After;
      hide E.Initial;
      OneMore(start, history, E.OpCreate(t, answers));
      history := history + [E.OpCreate(t, answers)];
      hide E.HasDuplicates;
      hide E.Transfer;
      if t.lender == self {
        return Err(E.Trap);
      }
      if t.amount <= 0 || t.minDestinationAmount <= 0 {
        return Err(E.InvalidAmount);
      }
      if t.requiredConfirmations > 0 {
        if t.oracleSet == [] {
          return Err(E.InvalidOracleSet);
        }
        if t.requiredConfirmations > |t.oracleSet| {
          return Err(E.InvalidThreshold);
        }
        var repeated := FindDuplicate(t.oracleSet);
        if repeated {
          return Err(E.InvalidOracleSet);
        }
      }
      if !answers.registryReturns {
        return Err(E.Trap);
      }
      var moved := E.Transfer(balances, t.asset, t.lender, self, t.amount);
      if moved == None || !FitsU64(nextId + 1) {
        return Err(E.Trap);
      }
      balances := moved.value;
      var id := nextId;
      escrows := escrows[id := E.Escrow(id, t, E.Active, clock, None)];
      nextId := id + 1;
      var list := if t.seller in bySeller then bySeller[t.seller] else [];
      bySeller := bySeller[t.seller := list + [id]];
      r := Ok(id);
    }

    method RaiseDispute(id: U64, disputer: E.Address, reason: string) returns (r: Outcome<U64, E.Error>)
      requires Valid()
      modifies this
      ensures Valid() && history == old(history) + [E.OpRaise(id, disputer, reason)]
      ensures E.Result(View(), r) == E.RaiseDispute(old(View()), id, disputer, reason)
      ensures r.Ok? <==> old(id in escrows && escrows[id].status == E.Active
                             && disputer in {escrows[id].terms.buyer, escrows[id].terms.seller})
      ensures r.Ok? ==> EL.HeldByDispute(View(), id) && EL.SameMoney(old(View()), View())
    {
      if E.Step(View(), E.OpRaise(id, disputer, reason)).outcome.Ok? {
        EL.DisputeHolds(View(), E.OpRaise(id, disputer, reason));
      }
      hide EL.HeldByDispute;
      hide EL.SameMoney;
      hide ER.Inv;
      hide E.After;
      hide E.Initial;
      OneMore(start, history, E.OpRaise(id, disputer, reason));
      history := history + [E.OpRaise(id, disputer, reason)];
      if id !in escrows {
        return Err(E.EscrowNotFound);
      }
      var e := escrows[id];
      match e.status {
        case Active =>
        case Disputed => return Err(E.EscrowDisputed);
        case _ => return Err(E.EscrowNotActive);
      }
      if disputer != e.terms.buyer && disputer != e.terms.seller {
        return Err(E.Unauthorized);
      }
      escrows := escrows[id := e.(status := E.Disputed, dispute := Some(E.Dispute(clock, disputer, reason)))];
      r := Ok(0);
    }

    method DisputeEscrow(id: U64, caller: E.Address) returns (r: Outcome<U64, E.Error>)
      requires Valid()
      modifies this
      ensures Valid() && history == old(history) + [E.OpDispute(id, caller)]
      ensures E.Result(View(), r) == E.DisputeEscrow(old(View()), id, caller)
      ensures r.Ok? <==> old(id in escrows && escrows[id].status == E.Active
                             && caller in {escrows[id].terms.buyer, escrows[id].terms.seller, escrows[id].terms.lender})
      ensures r.Ok? ==> EL.HeldByDispute(View(), id) && EL.SameMoney(old(View()), View())
    {
      if E.Step(View(), E.OpDispute(id, caller)).outcome.Ok? {
        EL.DisputeHolds(View(), E.OpDispute(id, caller));
      }
      hide EL.HeldByDispute;
      hide EL.SameMoney;
      hide ER.Inv;
      hide E.After;
      hide E.Initial;
      OneMore(start, history, E.OpDispute(id, caller));
      history := history + [E.OpDispute(id, caller)];
      if id !in escrows {
        return Err(E.EscrowNotFound);
      }
      var e := escrows[id];
      if caller != e.terms.buyer && caller != e.terms.seller && caller != e.terms.lender {
        return Err(E.Unauthorized);
      }
      if e.status != E.Active {
        return Err(E.EscrowNotActive);
      }
      escrows := escrows[id := e.(status := E.Disputed)];
      r := Ok(0);
    }

    /** Moves tokens out of the pool; on failure nothing has moved. */
    method Pay(p: E.Payment) returns (ok: bool)
      modifies this`balances, this`log
      ensures ok <==> E.PayFromPool(old(View()), p).Ok?
      ensures View() == if ok then E.PayFromPool(old(View()), p).value else old(View())
    {
      hide E.Transfer;
      var moved := E.Transfer(balances, p.token, self, p.to, p.amount);
      ok := moved.Some?;
      if ok {
        balances, log := moved.value, log + [E.Paid(p)];
      }
    }

    method ExecuteReleasePayout(id: U64, t: E.Terms) returns (r: Outcome<(), E.Error>)
      modifies this`balances, this`log
      ensures var paid := E.ReleasePayout(old(View()), id, t);
              && View() == (if paid.Ok? then paid.value else old(View()))
              && r == if paid.Ok? then Ok(()) else Err(paid.error)
    {
      hide E.Transfer;
      if t.asset == t.destinationAsset {
        var ok := Pay(E.Payment(id, t.asset, t.seller, t.amount));
        return if ok then Ok(()) else Err(E.Trap);
      }
      var quote := E.EstimatePathPayment(View(), t.amount);
      if quote.Err? {
        return Err(quote.error);
      }
      if quote.value < t.minDestinationAmount {
        return Err(E.SlippageExceeded);
      }
      var ok := Pay(E.Payment(id, t.destinationAsset, t.seller, quote.value));
      r := if ok then Ok(()) else Err(E.Trap);
    }

    /** The shared refund: a balance check, the transfer, and the new status of the
        caller's record. */
    method ProcessRefund(id: U64, e: E.Escrow) returns (r: Outcome<E.Escrow, E.Error>)
      modifies this`balances, this`log
      ensures var paid := E.ProcessRefund(old(View()), id, e.terms);
              && View() == (if paid.Ok? then paid.value else old(View()))
              && r == if paid.Ok? then Ok(e.(status := E.Refunded)) else Err(paid.error)
    {
      hide E.Transfer;
      var pool := E.TokenBalance(balances, e.terms.asset, self);
      if pool < e.terms.amount {
        return Err(E.InsufficientBalance);
      }
      var ok := Pay(E.Payment(id, e.terms.asset, e.terms.buyer, e.terms.amount));
      if !ok {
        return Err(E.Trap);
      }
      r := Ok(e.(status := E.Refunded));
    }

    method PayAndRelease(id: U64, answers: E.Answers) returns (r: Outcome<U64, E.Error>)
      requires id in escrows
      modifies this`escrows, this`balances, this`log
      ensures E.Result(View(), r) == E.PayAndRelease(old(View()), id, answers)
    {
      hide E.ReleasePayout;
      var e := escrows[id];
      var before, beforeLog := balances, log;
      var paid := ExecuteReleasePayout(id, e.terms);
      if paid.Err? {
        return Err(paid.error);
      }
      ReleasePayoutFrame(old(View()), id, e.terms);
      if !E.FeeCollected(e.terms, answers) || !answers.registryReturns {
        balances, log := before, beforeLog;
        return Err(E.Trap);
      }
      escrows := escrows[id := e.(status := E.Released)];
      r := Ok(0);
    }

    method PayAndRefund(id: U64, answers: E.Answers) returns (r: Outcome<U64, E.Error>)
      requires id in escrows
      modifies this`escrows, this`balances, this`log
      ensures E.Result(View(), r) == E.PayAndRefund(old(View()), id, answers)
    {
      hide E.Transfer;
      var before, beforeLog := balances, log;
      var refunded := ProcessRefund(id, escrows[id]);
      if refunded.Err? {
        return Err(refunded.error);
      }
      if !answers.registryReturns {
        balances, log := before, beforeLog;
        return Err(E.Trap);
      }
      escrows := escrows[id := refunded.value];
      r := Ok(0);
    }

    /** The search for a verified confirmation of the required kind. */
    method Confirmed(confirmations: Option<seq<E.Confirmation>>, eventType: U32) returns (found: bool)
      ensures found <==> E.HasConfirmation(confirmations, eventType)
    {
      found := false;
      if confirmations.Some? {
        for i := 0 to |confirmations.value|
          invariant forall j :: 0 <= j < i ==>
                      !(confirmations.value[j].eventType == eventType && confirmations.value[j].verified)
        {
          if confirmations.value[i].eventType == eventType && confirmations.value[i].verified {
            return true;
          }
        }
      }
    }

    method ReleaseFundsOnConfirmation(id: U64, answers: E.Answers) returns (r: Outcome<U64, E.Error>)
      requires Valid()
      modifies this
      ensures Valid() && history == old(history) + [E.OpRelease(id, answers)]
      ensures E.Result(View(), r) == E.Release(old(View()), id, answers)
      ensures r.Ok? <==> old(EA.ShouldClose(View(), E.OpRelease(id, answers)))
      ensures r.Ok? ==> old(ER.PaymentCount(log, id)) == 0 && ER.PaymentCount(log, id) == 1
      ensures r.Err? ==> View() == old(View())
    {
      EL.ClosingPays(start, history, E.OpRelease(id, answers));
      EA.ClosingAcceptedExactly(start, history, E.OpRelease(id, answers));
      hide EA.ShouldClose;
      hide ER.PaymentCount;
      hide ER.Inv;
      hide E.After;
      hide E.Initial;
      OneMore(start, history, E.OpRelease(id, answers));
      history := history + [E.OpRelease(id, answers)];
      hide E.HasConfirmation;
      hide E.PayAndRelease;
      if id !in escrows {
        return Err(E.EscrowNotFound);
      }
      var e := escrows[id];
      if e.status == E.Disputed {
        return Err(E.EscrowDisputed);
      }
      if e.status != E.Active {
        return Err(E.EscrowNotActive);
      }
      if e.terms.requiredConfirmations > 0 {
        if e.terms.oracleSet == [] {
          return Err(E.InvalidOracleSet);
        }
        if e.terms.requiredConfirmations > |e.terms.oracleSet| {
          return Err(E.InvalidThreshold);
        }
        if !answers.oracleReturns {
          return Err(E.Trap);
        }
        if !answers.consensus {
          return Err(E.ConsensusNotMet);
        }
      } else {
        if !answers.oracleReturns {
          return Err(E.Trap);
        }
        var found := Confirmed(answers.confirmations, e.terms.requiredConfirmation);
        if !found {
          return Err(E.ConfirmationNotMet);
        }
      }
      r := PayAndRelease(id, answers);
    }

    method RefundEscrow(id: U64, answers: E.Answers) returns (r: Outcome<U64, E.Error>)
      requires Valid()
      modifies this
      ensures Valid() && history == old(history) + [E.OpRefund(id, answers)]
      ensures E.Result(View(), r) == E.Refund(old(View()), id, answers)
      ensures r.Ok? <==> old(EA.ShouldClose(View(), E.OpRefund(id, answers)))
      ensures r.Ok? ==> old(ER.PaymentCount(log, id)) == 0 && ER.PaymentCount(log, id) == 1
      ensures r.Err? ==> View() == old(View())
    {
      EL.ClosingPays(start, history, E.OpRefund(id, answers));
      EA.ClosingAcceptedExactly(start, history, E.OpRefund(id, answers));
      hide EA.ShouldClose;
      hide ER.PaymentCount;
      hide ER.Inv;
      hide E.After;
      hide E.Initial;
      OneMore(start, history, E.OpRefund(id, answers));
      history := history + [E.OpRefund(id, answers)];
      hide E.PayAndRefund;
      if id !in escrows {
        return Err(E.EscrowNotFound);
      }
      var e := escrows[id];
      if e.status == E.Disputed {
        return Err(E.EscrowDisputed);
      }
      if e.status != E.Active {
        return Err(E.EscrowNotActive);
      }
      if clock <= e.terms.expiryTs {
        return Err(E.EscrowNotExpired);
      }
      r := PayAndRefund(id, answers);
    }

    method ResolveDispute(id: U64, toSeller: bool, answers: E.Answers) returns (r: Outcome<U64, E.Error>)
      requires Valid()
      modifies this
      ensures Valid() && history == old(history) + [E.OpResolve(id, toSeller, answers)]
      ensures E.Result(View(), r) == E.Resolve(old(View()), id, toSeller, answers)
      ensures r.Ok? <==> old(EA.ShouldClose(View(), E.OpResolve(id, toSeller, answers)))
      ensures r.Ok? ==> old(ER.PaymentCount(log, id)) == 0 && ER.PaymentCount(log, id) == 1
      ensures r.Err? ==> View() == old(View())
    {
      EL.ClosingPays(start, history, E.OpResolve(id, toSeller, answers));
      EA.ClosingAcceptedExactly(start, history, E.OpResolve(id, toSeller, answers));
      hide EA.ShouldClose;
      hide ER.PaymentCount;
      hide ER.Inv;
      hide E.After;
      hide E.Initial;
      OneMore(start, history, E.OpResolve(id, toSeller, answers));
      history := history + [E.OpResolve(id, toSeller, answers)];
      hide E.PayAndRelease;
      hide E.PayAndRefund;
      if id !in escrows {
        return Err(E.EscrowNotFound);
      }
      if escrows[id].status != E.Disputed {
        return Err(E.EscrowNotDisputed);
      }
      if toSeller {
        r := PayAndRelease(id, answers);
      } else {
        r := PayAndRefund(id, answers);
      }
    }

    method SetTestExchangeRate(rate: I128)
      requires Valid()
      modifies this
      ensures Valid() && history == old(history) + [E.OpSetRate(rate)]
    {
      hide ER.Inv;
      OneMore(start, history, E.OpSetRate(rate));
      history := history + [E.OpSetRate(rate)];
      this.rate := Some(rate);
    }

    /** A token transfer that somebody else makes, perhaps to the contract. */
    method OutsideTransfer(token: E.Address, from: E.Address, to: E.Address, amount: I128) returns (r: Outcome<U64, E.Error>)
      requires Valid()
      modifies this
      ensures Valid() && history == old(history) + [E.OpTransfer(token, from, to, amount)]
      ensures E.Result(View(), r) == E.OutsideTransfer(old(View()), token, from, to, amount)
    {
      hide ER.Inv;
      hide E.Transfer;
      hide E.After;
      hide E.Initial;
      OneMore(start, history, E.OpTransfer(token, from, to, amount));
      history := history + [E.OpTransfer(token, from, to, amount)];
      if from == self {
        return Err(E.Trap);
      }
      var moved := E.Transfer(balances, token, from, to, amount);
      if moved == None {
        return Err(E.Trap);
      }
      balances := moved.value;
      if to == self {
        log := log + [E.Deposited(token, from, amount)];
      }
      r := Ok(0);
    }

    /** The ledger closes and its clock moves on. */
    method Tick(time: U64)
      requires Valid()
      modifies this
      ensures Valid() && history == old(history) + [E.OpTick(time)]
    {
      hide ER.Inv;
      OneMore(start, history, E.OpTick(time));
      history := history + [E.OpTick(time)];
      if time >= clock {
        clock := time;
      }
    }
  }

  lemma OneMore(start: E.State, history: seq<E.Op>, op: E.Op)
    requires E.Initial(start)
    ensures E.After(start, history + [op]) == E.Step(E.After(start, history), op).state
    ensures ER.Inv(E.After(start, history + [op]))
  {
    assert (history + [op])[..|history|] == history;
    ER.ReachableInv(start, history + [op]);
    hide E.Step;
    hide ER.Inv;
  }

  /** A payout touches balances and the log only. */
  lemma ReleasePayoutFrame(s: E.State, id: U64, t: E.Terms)
    requires E.ReleasePayout(s, id, t).Ok?
    ensures var paid := E.ReleasePayout(s, id, t).value;
            paid == s.(balances := paid.balances, log := paid.log)
  {
    hide E.Transfer;
    hide E.EstimatePathPayment;
  }
}
