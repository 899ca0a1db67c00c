/** The governance contract: proposals to change one risk parameter, quadratic
    votes, delegation, a timelock and an administrator. Every entry point is a
    function from the stored state to a new state and an outcome; an `Err`
    outcome always comes with the old state. */
module Governance {
  import opened MachineInts
  import opened Newton

  type Address = nat

  /** Contract errors. `Trap` stands for a panic or a host error, which also
      rolls the call back. */
  datatype Error =
    | AlreadyInitialized | ProposalNotFound | ProposalNotActive | ProposalAlreadyExecuted
    | VotingEnded | AlreadyVoted | InsufficientVotingPower
    | TimelockNotExpired | QuorumNotReached | MajorityNotReached
    | InvalidParameter | InvalidValue | MathOverflow | InvalidDelegation | Trap

  datatype Symbol = LiqThr | LiqPen | MinHf | MaxLiq | GracePd | LiqBon | Other(name: string)

  datatype Proposal = Proposal(
    id: U64, proposer: Address, target: Address, parameter: Symbol, newValue: I128,
    votingEnd: U64, votesFor: I128, votesAgainst: I128,
    executed: bool, executionTs: U64, createdAt: U64)

  datatype Vote = Vote(voter: Address, proposalId: U64, support: bool, power: I128, timestamp: U64)

  datatype ProposalStatus = Active | Succeeded | Failed | Executed | Tallying

  datatype Config = Config(
    votingPeriod: U64, timelockPeriod: U64, tallyPeriod: U64,
    quorumBps: U32, majorityBps: U32, minVotingPower: I128)

  datatype RiskParameters = RiskParameters(
    liquidationThreshold: U32, liquidationPenalty: U32, minHealthFactor: U32,
    maxLiquidationRatio: U32, gracePeriod: U64, liquidatorBonus: U32)

  const DEFAULT_CONFIG := Config(604800, 86400, 3600, 1000, 5000, 1000)
  const DEFAULT_BALANCE: I128 := 100
  const DEFAULT_TOTAL_POWER: I128 := 1000000

  /** Everything in storage, the ledger clock, and the risk registers of other
      contracts that an executed proposal writes to. */
  datatype State = State(
    config: Config,
    count: U64,
    totalPower: I128,
    balances: map<Address, I128>,
    delegateOf: map<Address, Address>,
    delegators: map<Address, seq<Address>>,
    proposals: map<U64, Proposal>,
    votes: map<(U64, Address), Vote>,
    risk: map<Address, RiskParameters>,
    clock: U64)

  datatype Result = Result(state: State, outcome: Outcome<U64, Error>)

  function Fail(s: State, e: Error): Result { Result(s, Err(e)) }

  // ----- tokens and delegation

  function Balance(s: State, a: Address): I128 {
    if a in s.balances then s.balances[a] else DEFAULT_BALANCE
  }

  function DelegatorList(s: State, v: Address): seq<Address> {
    if v in s.delegators then s.delegators[v] else []
  }

  predicate DelegatesTo(s: State, d: Address, v: Address) {
    d in s.delegateOf && s.delegateOf[d] == v
  }

  /** The running total after k entries of the voter's delegator list; `None`
      once an addition has left the i128 range. */
  function Scan(s: State, v: Address, k: nat): Option<I128>
    requires k <= |DelegatorList(s, v)|
  {
    if k == 0 then Some(Balance(s, v)) else
      var d := DelegatorList(s, v)[k - 1];
      match Scan(s, v, k - 1)
      case None => None
      case Some(t) =>
        if !DelegatesTo(s, d, v) then Some(t)
        else if FitsI128(t + Balance(s, d)) then Some(t + Balance(s, d)) else None
  }

  function ControlledTokens(s: State, v: Address): Option<I128> {
    Scan(s, v, |DelegatorList(s, v)|)
  }

  function RootOf(n: I128): I128 {
    if n <= 0 then 0 else SqrtSmall(n); ISqrt(n)
  }

  function VotingPower(s: State, v: Address): Option<I128> {
    match ControlledTokens(s, v)
    case None => None
    case Some(t) => Some(RootOf(t))
  }

  // ----- parameters

  predicate InRange(p: Symbol, v: int) {
    match p
    case LiqThr => 5000 <= v <= 9500
    case LiqPen => 100 <= v <= 1000
    case MinHf => 10000 <= v <= 15000
    case MaxLiq => 2500 <= v <= 5000
    case GracePd => 300 <= v <= 86400
    case LiqBon => 100 <= v <= 1000
    case Other(_) => false
  }

  function ValidateParameter(p: Symbol, v: I128): Outcome<(), Error> {
    if p.Other? then Err(InvalidParameter)
    else if InRange(p, v) then Ok(())
    else Err(InvalidValue)
  }

  /** The new register contents, with the casts the contract makes. */
  function ApplyParameter(r: RiskParameters, p: Symbol, v: I128): RiskParameters {
    match p
    case LiqThr => r.(liquidationThreshold := AsU32(v))
    case LiqPen => r.(liquidationPenalty := AsU32(v))
    case MinHf => r.(minHealthFactor := AsU32(v))
    case MaxLiq => r.(maxLiquidationRatio := AsU32(v))
    case GracePd => r.(gracePeriod := AsU64(v))
    case LiqBon => r.(liquidatorBonus := AsU32(v))
    case Other(_) => r
  }

  // ----- entry points

  function CreateProposal(s: State, proposer: Address, target: Address, parameter: Symbol, newValue: I128): Result {
    match ControlledTokens(s, proposer)
    case None => Fail(s, Trap)
    case Some(tokens) =>
      if tokens < s.config.minVotingPower then Fail(s, InsufficientVotingPower)
      else if ValidateParameter(parameter, newValue).Err? then
        Fail(s, ValidateParameter(parameter, newValue).error)
      else if !FitsU64(s.count + 1) then Fail(s, MathOverflow)
      else if !FitsU64(s.clock + s.config.votingPeriod) then Fail(s, MathOverflow)
      else if !FitsU64(s.clock + s.config.votingPeriod + s.config.timelockPeriod) then Fail(s, MathOverflow)
      else
        var end: U64 := s.clock + s.config.votingPeriod;
        var p := Proposal(s.count, proposer, target, parameter, newValue, end, 0, 0, false,
                          end + s.config.timelockPeriod, s.clock);
        Result(s.(count := s.count + 1, proposals := s.proposals[s.count := p]), Ok(s.count))
  }

  function AddVote(p: Proposal, support: bool, power: I128): Outcome<Proposal, Error> {
    if support then
      if FitsI128(p.votesFor + power) then Ok(p.(votesFor := p.votesFor + power)) else Err(MathOverflow)
    else
      if FitsI128(p.votesAgainst + power) then Ok(p.(votesAgainst := p.votesAgainst + power)) else Err(MathOverflow)
  }

  /** The balance left to a voter: the cost is taken from the voter alone, down to zero. */
  function AfterCost(balance: I128, cost: I128): I128
    requires cost >= 0
  {
    if balance >= cost then balance - cost else 0
  }

  function CastVote(s: State, id: U64, voter: Address, support: bool, n: I128): Result {
    if n <= 0 then Fail(s, InsufficientVotingPower)
    else if id !in s.proposals then Fail(s, ProposalNotFound)
    else if s.clock >= s.proposals[id].votingEnd then Fail(s, VotingEnded)
    else if (id, voter) in s.votes then Fail(s, AlreadyVoted)
    else match VotingPower(s, voter)
      case None => Fail(s, Trap)
      case Some(max) =>
        if n > max then Fail(s, InsufficientVotingPower)
        else if !FitsI128(n * n) then Fail(s, MathOverflow)
        else match AddVote(s.proposals[id], support, n)
          case Err(e) => Fail(s, e)
          case Ok(p) =>
            CostNonNegative(n);
            Result(s.(balances := s.balances[voter := AfterCost(Balance(s, voter), n * n)],
                      votes := s.votes[(id, voter) := Vote(voter, id, support, n, s.clock)],
                      proposals := s.proposals[id := p]),
                   Ok(0))
  }

  lemma CostNonNegative(n: int)
    ensures n * n >= 0
  {
  }

  // ----- the three places that decide whether a proposal passed

  function TotalVotes(p: Proposal): Option<I128> {
    if FitsI128(p.votesFor + p.votesAgainst) then Some(p.votesFor + p.votesAgainst) else None
  }

  /** A share of `whole` in basis points; `None` when the product overflows. */
  function Share(whole: I128, bps: U32): (r: Option<I128>) {
    if FitsI128(whole * bps) then Some(TruncDiv(whole * bps, 10000)) else None
  }

  function VoteChecks(s: State, p: Proposal): Outcome<(), Error> {
    match TotalVotes(p)
    case None => Err(MathOverflow)
    case Some(total) =>
      match Share(s.totalPower, s.config.quorumBps)
      case None => Err(MathOverflow)
      case Some(quorum) =>
        if total < quorum then Err(QuorumNotReached)
        else match Share(total, s.config.majorityBps)
          case None => Err(MathOverflow)
          case Some(majority) =>
            if p.votesFor < majority then Err(MajorityNotReached) else Ok(())
  }

  function HasPassed(s: State, id: U64): Outcome<bool, Error> {
    if id !in s.proposals then Err(ProposalNotFound) else
      var p := s.proposals[id];
      match TotalVotes(p)
      case None => Err(MathOverflow)
      case Some(total) =>
        match Share(s.totalPower, s.config.quorumBps)
        case None => Err(MathOverflow)
        case Some(quorum) =>
          if total < quorum then Ok(false)
          else match Share(total, s.config.majorityBps)
            case None => Err(MathOverflow)
            case Some(majority) => Ok(p.votesFor >= majority)
  }

  function OrZero(x: Option<I128>): I128 {
    if x.Some? then x.value else 0
  }

  /** The status shown to users. Overflows are replaced by zero here. */
  function Status(s: State, id: U64): Outcome<ProposalStatus, Error> {
    if id !in s.proposals then Err(ProposalNotFound) else
      var p := s.proposals[id];
      if p.executed then Ok(Executed)
      else if s.clock < p.votingEnd then Ok(Active)
      else if !FitsU64(p.votingEnd + s.config.tallyPeriod) then Err(Trap)
      else if s.clock < p.votingEnd + s.config.tallyPeriod then Ok(Tallying)
      else
        var total := OrZero(TotalVotes(p));
        if total < OrZero(Share(s.totalPower, s.config.quorumBps)) then Ok(Failed)
        else if p.votesFor >= OrZero(Share(total, s.config.majorityBps)) then Ok(Succeeded)
        else Ok(Failed)
  }

  function Execute(s: State, id: U64): Result {
    if id !in s.proposals then Fail(s, ProposalNotFound) else
      var p := s.proposals[id];
      if p.executed then Fail(s, ProposalAlreadyExecuted)
      else if s.clock < p.votingEnd then Fail(s, ProposalNotActive)
      else if s.clock < p.executionTs then Fail(s, TimelockNotExpired)
      else if VoteChecks(s, p).Err? then Fail(s, VoteChecks(s, p).error)
      else if p.target !in s.risk then Fail(s, Trap)
      else
        Result(s.(risk := s.risk[p.target := ApplyParameter(s.risk[p.target], p.parameter, p.newValue)],
                  proposals := s.proposals[id := p.(executed := true)]),
               Ok(0))
  }

  function Cancel(s: State, id: U64): Result {
    if id !in s.proposals then Fail(s, ProposalNotFound)
    else if s.proposals[id].executed then Fail(s, ProposalAlreadyExecuted)
    else Result(s.(proposals := s.proposals[id := s.proposals[id].(executed := true)]), Ok(0))
  }

  function Delegate(s: State, delegator: Address, delegatee: Address): Result {
    if delegator == delegatee then Fail(s, InvalidDelegation) else
      var list := DelegatorList(s, delegatee);
      var list' := if delegator in list then list else list + [delegator];
      Result(s.(delegateOf := s.delegateOf[delegator := delegatee],
                delegators := if delegator in list then s.delegators else s.delegators[delegatee := list']),
             Ok(0))
  }

  // ----- runs

  datatype Op =
    | OpInitialize
    | OpCreate(proposer: Address, target: Address, parameter: Symbol, newValue: I128)
    | OpVote(id: U64, voter: Address, support: bool, n: I128)
    | OpExecute(id: U64)
    | OpCancel(id: U64)
    | OpDelegate(delegator: Address, delegatee: Address)
    | OpUpdateConfig(config: Config)
    | OpSetTotalPower(power: I128)
    | OpTick(time: U64)

  /** One call, or one advance of the ledger clock. */
  function Step(s: State, op: Op): Result {
    match op
    case OpInitialize => Fail(s, AlreadyInitialized)
    case OpCreate(proposer, target, parameter, newValue) => CreateProposal(s, proposer, target, parameter, newValue)
    case OpVote(id, voter, support, n) => CastVote(s, id, voter, support, n)
    case OpExecute(id) => Execute(s, id)
    case OpCancel(id) => Cancel(s, id)
    case OpDelegate(delegator, delegatee) => Delegate(s, delegator, delegatee)
    case OpUpdateConfig(config) => Result(s.(config := config), Ok(0))
    case OpSetTotalPower(power) => Result(s.(totalPower := power), Ok(0))
    case OpTick(time) => Result(if time >= s.clock then s.(clock := time) else s, Ok(0))
  }

  function After(s: State, ops: seq<Op>): State {
    if ops == [] then s else Step(After(s, ops[..|ops| - 1]), ops[|ops| - 1]).state
  }

  /** The state `initialize` leaves behind. Token balances and the registers of
      the other contracts are whatever they were. */
  predicate Initial(s: State) {
    && s.config == DEFAULT_CONFIG && s.count == 0 && s.totalPower == DEFAULT_TOTAL_POWER
    && s.delegateOf == map[] && s.delegators == map[] && s.proposals == map[] && s.votes == map[]
    && forall a :: a in s.balances ==> s.balances[a] >= 0
  }
}
