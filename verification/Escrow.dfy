/** The escrow manager: many escrows that share one pool per token. The state
    holds the contract's storage, the token balances of everybody, and the log of
    token transfers into and out of the pool that the token contracts publish. */
module Escrow {
  import opened MachineInts

  type Address = nat

  datatype Status = Active | Released | Refunded | Disputed

  /** Contract errors; `Trap` stands for a panic or a failing call to another
      contract, which also rolls the call back. */
  datatype Error =
    | EscrowNotFound | EscrowNotActive | InvalidAmount | ConfirmationNotMet | EscrowNotExpired
    | PathPaymentFailed | SlippageExceeded | InvalidOracleSet | InvalidThreshold | ConsensusNotMet
    | EscrowDisputed | EscrowNotDisputed | InsufficientBalance | Unauthorized | Trap

  datatype Terms = Terms(
    buyer: Address, seller: Address, lender: Address, collateralId: U64,
    amount: I128, asset: Address, requiredConfirmation: U32, expiryTs: U64,
    destinationAsset: Address, minDestinationAmount: I128,
    requiredConfirmations: U32, oracleSet: seq<Address>)

  datatype Dispute = Dispute(at: U64, disputer: Address, reason: string)

  datatype Escrow = Escrow(id: U64, terms: Terms, status: Status, createdAt: U64, dispute: Option<Dispute>)

  /** A payment out of the pool. */
  datatype Payment = Payment(id: U64, token: Address, to: Address, amount: I128)

  datatype TokenEvent =
    | Deposited(token: Address, from: Address, amount: I128)
    | Paid(payment: Payment)

  datatype Confirmation = Confirmation(eventType: U32, verified: bool)

  /** What the other contracts answer during one call: whether the calls to the
      oracle adapter, the treasury and the collateral registry return at all, and
      what the first two say. */
  datatype Answers = Answers(
    oracleReturns: bool, consensus: bool, confirmations: Option<seq<Confirmation>>,
    treasuryReturns: bool, feeBps: U32, registryReturns: bool)

  datatype State = State(
    self: Address,
    escrows: map<U64, Escrow>,
    nextId: U64,
    bySeller: map<Address, seq<U64>>,
    rate: Option<I128>,
    balances: map<(Address, Address), I128>,
    log: seq<TokenEvent>,
    clock: U64)

  datatype Result = Result(state: State, outcome: Outcome<U64, Error>)

  function Fail(s: State, e: Error): Result { Result(s, Err(e)) }

  // ----- tokens

  function TokenBalance(balances: map<(Address, Address), I128>, token: Address, holder: Address): I128 {
    if (token, holder) in balances then balances[(token, holder)] else 0
  }

  /** The contract's own balance of a token, shared by all its escrows. */
  function Pool(s: State, token: Address): I128 {
    TokenBalance(s.balances, token, s.self)
  }

  /** A transfer by the token contract; `None` when it refuses. */
  function Transfer(balances: map<(Address, Address), I128>, token: Address, from: Address, to: Address, amount: I128)
    : Option<map<(Address, Address), I128>>
  {
    var f := TokenBalance(balances, token, from);
    var t := TokenBalance(balances, token, to);
    if amount < 0 || f < amount then None
    else if from == to then Some(balances)
    else if !FitsI128(t + amount) then None
    else Some(balances[(token, from) := f - amount][(token, to) := t + amount])
  }

  // ----- creation

  predicate HasDuplicates(xs: seq<Address>) {
    exists i, j :: 0 <= i < j < |xs| && xs[i] == xs[j]
  }

  function SellerList(s: State, seller: Address): seq<U64> {
    if seller in s.bySeller then s.bySeller[seller] else []
  }

  function Create(s: State, terms: Terms, answers: Answers): Result {
    // The contract itself cannot sign as lender.
    if terms.lender == s.self then Fail(s, Trap)
    else if terms.amount <= 0 || terms.minDestinationAmount <= 0 then Fail(s, InvalidAmount)
    else if terms.requiredConfirmations > 0 && terms.oracleSet == [] then Fail(s, InvalidOracleSet)
    else if terms.requiredConfirmations > 0 && terms.requiredConfirmations > |terms.oracleSet| then Fail(s, InvalidThreshold)
    else if terms.requiredConfirmations > 0 && HasDuplicates(terms.oracleSet) then Fail(s, InvalidOracleSet)
    else if !answers.registryReturns then Fail(s, Trap)
    else match Transfer(s.balances, terms.asset, terms.lender, s.self, terms.amount)
      case None => Fail(s, Trap)
      case Some(balances) =>
        if !FitsU64(s.nextId + 1) then Fail(s, Trap)
        else
          var id := s.nextId;
          Result(s.(escrows := s.escrows[id := Escrow(id, terms, Active, s.clock, None)],
                    nextId := id + 1,
                    bySeller := s.bySeller[terms.seller := SellerList(s, terms.seller) + [id]],
                    balances := balances),
                 Ok(id))
  }

  // ----- disputes

  function RaiseDispute(s: State, id: U64, disputer: Address, reason: string): Result {
    if id !in s.escrows then Fail(s, EscrowNotFound) else
      var e := s.escrows[id];
      if e.status == Disputed then Fail(s, EscrowDisputed)
      else if e.status != Active then Fail(s, EscrowNotActive)
      else if disputer != e.terms.buyer && disputer != e.terms.seller then Fail(s, Unauthorized)
      else
        var e' := e.(status := Disputed, dispute := Some(Dispute(s.clock, disputer, reason)));
        Result(s.(escrows := s.escrows[id := e']), Ok(0))
  }

  function DisputeEscrow(s: State, id: U64, caller: Address): Result {
    if id !in s.escrows then Fail(s, EscrowNotFound) else
      var e := s.escrows[id];
      if caller != e.terms.buyer && caller != e.terms.seller && caller != e.terms.lender then Fail(s, Unauthorized)
      else if e.status != Active then Fail(s, EscrowNotActive)
      else Result(s.(escrows := s.escrows[id := e.(status := Disputed)]), Ok(0))
  }

  // ----- payouts

  const RATE_ONE: I128 := 1000000

  function EstimatePathPayment(s: State, amount: I128): Outcome<I128, Error> {
    var rate := if s.rate.Some? then s.rate.value else RATE_ONE;
    if FitsI128(amount * rate) then Ok(TruncDiv(amount * rate, RATE_ONE)) else Err(PathPaymentFailed)
  }

  /** Pays out of the pool and logs the payment. */
  function PayFromPool(s: State, p: Payment): Outcome<State, Error> {
    match Transfer(s.balances, p.token, s.self, p.to, p.amount)
    case None => Err(Trap)
    case Some(balances) => Ok(s.(balances := balances, log := s.log + [Paid(p)]))
  }

  function ReleasePayout(s: State, id: U64, t: Terms): Outcome<State, Error> {
    if t.asset == t.destinationAsset then PayFromPool(s, Payment(id, t.asset, t.seller, t.amount))
    else match EstimatePathPayment(s, t.amount)
      case Err(e) => Err(e)
      case Ok(dest) =>
        if dest < t.minDestinationAmount then Err(SlippageExceeded)
        else PayFromPool(s, Payment(id, t.destinationAsset, t.seller, dest))
  }

  /** The fee goes through the treasury and moves nothing out of the pool, but
      its computation or the treasury's calls can stop the whole call. */
  predicate FeeCollected(t: Terms, answers: Answers) {
    answers.treasuryReturns && FitsI128(t.amount * answers.feeBps)
  }

  function CloseAs(s: State, id: U64, status: Status): State
    requires id in s.escrows
  {
    s.(escrows := s.escrows[id := s.escrows[id].(status := status)])
  }

  function PayAndRelease(s: State, id: U64, answers: Answers): Result
    requires id in s.escrows
  {
    match ReleasePayout(s, id, s.escrows[id].terms)
    case Err(e) => Fail(s, e)
    case Ok(paid) =>
      if !FeeCollected(s.escrows[id].terms, answers) || !answers.registryReturns then Fail(s, Trap)
      else Result(CloseAs(paid, id, Released), Ok(0))
  }

  function ProcessRefund(s: State, id: U64, t: Terms): Outcome<State, Error> {
    if Pool(s, t.asset) < t.amount then Err(InsufficientBalance)
    else PayFromPool(s, Payment(id, t.asset, t.buyer, t.amount))
  }

  function PayAndRefund(s: State, id: U64, answers: Answers): Result
    requires id in s.escrows
  {
    match ProcessRefund(s, id, s.escrows[id].terms)
    case Err(e) => Fail(s, e)
    case Ok(paid) =>
      if !answers.registryReturns then Fail(s, Trap)
      else Result(CloseAs(paid, id, Refunded), Ok(0))
  }

  predicate HasConfirmation(confirmations: Option<seq<Confirmation>>, eventType: U32) {
    confirmations.Some?
    && exists i :: 0 <= i < |confirmations.value|
         && confirmations.value[i].eventType == eventType && confirmations.value[i].verified
  }

  function OracleCheck(t: Terms, answers: Answers): Outcome<(), Error> {
    if t.requiredConfirmations > 0 then
      if t.oracleSet == [] then Err(InvalidOracleSet)
      else if t.requiredConfirmations > |t.oracleSet| then Err(InvalidThreshold)
      else if !answers.oracleReturns then Err(Trap)
      else if !answers.consensus then Err(ConsensusNotMet)
      else Ok(())
    else
      if !answers.oracleReturns then Err(Trap)
      else if !HasConfirmation(answers.confirmations, t.requiredConfirmation) then Err(ConfirmationNotMet)
      else Ok(())
  }

  function Release(s: State, id: U64, answers: Answers): Result {
    if id !in s.escrows then Fail(s, EscrowNotFound) else
      var e := s.escrows[id];
      if e.status == Disputed then Fail(s, EscrowDisputed)
      else if e.status != Active then Fail(s, EscrowNotActive)
      else if OracleCheck(e.terms, answers).Err? then Fail(s, OracleCheck(e.terms, answers).error)
      else PayAndRelease(s, id, answers)
  }

  function Refund(s: State, id: U64, answers: Answers): Result {
    if id !in s.escrows then Fail(s, EscrowNotFound) else
      var e := s.escrows[id];
      if e.status == Disputed then Fail(s, EscrowDisputed)
      else if e.status != Active then Fail(s, EscrowNotActive)
      else if s.clock <= e.terms.expiryTs then Fail(s, EscrowNotExpired)
      else PayAndRefund(s, id, answers)
  }

  function Resolve(s: State, id: U64, toSeller: bool, answers: Answers): Result {
    if id !in s.escrows then Fail(s, EscrowNotFound)
    else if s.escrows[id].status != Disputed then Fail(s, EscrowNotDisputed)
    else if toSeller then PayAndRelease(s, id, answers)
    else PayAndRefund(s, id, answers)
  }

  // ----- runs

  datatype Op =
    | OpCreate(terms: Terms, answers: Answers)
    | OpRaise(id: U64, disputer: Address, reason: string)
    | OpDispute(id: U64, disputer: Address)
    | OpRelease(id: U64, answers: Answers)
    | OpRefund(id: U64, answers: Answers)
    | OpResolve(id: U64, toSeller: bool, answers: Answers)
    | OpSetRate(rate: I128)
    | OpTransfer(token: Address, from: Address, to: Address, amount: I128)
    | OpTick(time: U64)

  /** Anybody's own token transfer. One that reaches the pool is a deposit from
      outside; the contract makes no transfer except through its entry points. */
  function OutsideTransfer(s: State, token: Address, from: Address, to: Address, amount: I128): Result {
    if from == s.self then Fail(s, Trap)
    else match Transfer(s.balances, token, from, to, amount)
      case None => Fail(s, Trap)
      case Some(balances) =>
        Result(s.(balances := balances,
                  log := if to == s.self then s.log + [Deposited(token, from, amount)] else s.log),
               Ok(0))
  }

  function Step(s: State, op: Op): Result {
    match op
    case OpCreate(terms, answers) => Create(s, terms, answers)
    case OpRaise(id, disputer, reason) => RaiseDispute(s, id, disputer, reason)
    case OpDispute(id, disputer) => DisputeEscrow(s, id, disputer)
    case OpRelease(id, answers) => Release(s, id, answers)
    case OpRefund(id, answers) => Refund(s, id, answers)
    case OpResolve(id, toSeller, answers) => Resolve(s, id, toSeller, answers)
    case OpSetRate(rate) => Result(s.(rate := Some(rate)), Ok(0))
    case OpTransfer(token, from, to, amount) => OutsideTransfer(s, token, from, to, amount)
    case OpTick(time) => Result(if time >= s.clock then s.(clock := time) else s, Ok(0))
  }

  function After(s: State, ops: seq<Op>): State {
    if ops == [] then s else Step(After(s, ops[..|ops| - 1]), ops[|ops| - 1]).state
  }

  /** The state after `initialize`, with whatever token balances exist by then. */
  predicate Initial(s: State) {
    && s.escrows == map[] && s.nextId == 1 && s.bySeller == map[] && s.log == []
    && forall k :: k in s.balances ==> s.balances[k] >= 0
  }
}
