/** Why the governance contract refuses a call: each error is returned exactly in the case
    it is named for. Of several mistakes the first one checked is reported. */
module GovernanceRefusals {
  import opened MachineInts
  import opened Governance
  import opened GovernanceRuns
  import opened GovernanceRules

  // ----- parameters

  /** The smallest and the largest value that each parameter may be given. */
  function Bounds(p: Symbol): Option<(int, int)> {
    match p
    case LiqThr => Some((5000, 9500))
    case LiqPen => Some((100, 1000))
    case MinHf => Some((10000, 15000))
    case MaxLiq => Some((2500, 5000))
    case GracePd => Some((300, 86400))
    case LiqBon => Some((100, 1000))
    case Other(_) => None
  }

  lemma ValuesRefused(p: Symbol, v: I128)
    ensures ValidateParameter(p, v) == Err(InvalidParameter) <==> Bounds(p).None?
    ensures ValidateParameter(p, v) == Err(InvalidValue) <==> Bounds(p).Some? && !(Bounds(p).value.0 <= v <= Bounds(p).value.1)
    ensures ValidateParameter(p, v).Ok? <==> Bounds(p).Some? && Bounds(p).value.0 <= v <= Bounds(p).value.1
  {
  }

  // ----- proposals

  predicate Entitled(s: State, tokens: int) { FitsI128(tokens) && tokens >= s.config.minVotingPower }

  /** A proposal is refused for want of tokens, for an unknown parameter, for a value out of
      range, or because a counter or a time is at its end. */
  lemma ProposalRefusals(s0: State, ops: seq<Op>, proposer: Address, target: Address, p: Symbol, v: I128)
    requires Initial(s0)
    ensures var s := After(s0, ops);
            var tokens := Controlled(s, proposer);
            var r := CreateProposal(s, proposer, target, p, v).outcome;
            && (r == Err(InsufficientVotingPower) <==> FitsI128(tokens) && tokens < s.config.minVotingPower)
            && (r == Err(InvalidParameter) <==> Entitled(s, tokens) && p.Other?)
            && (r == Err(InvalidValue) <==> Entitled(s, tokens) && !p.Other? && !InRange(p, v))
            && (r == Err(MathOverflow)
                <==> && Entitled(s, tokens) && InRange(p, v)
                     && !(FitsU64(s.count + 1) && FitsU64(s.clock + s.config.votingPeriod + s.config.timelockPeriod)))
            && (r == Err(Trap) <==> !FitsI128(tokens))
  {
    hide After;
    hide Controlled;
    hide CreateProposal;
    hide ControlledTokens;
    hide VotingPower;
    hide RootOf;
    hide Initial;
    hide InRange;
    PowerOf(s0, ops, proposer);
    ProposalRefused(After(s0, ops), proposer, target, p, v, Controlled(After(s0, ops), proposer));
  }

  lemma ProposalRefused(s: State, proposer: Address, target: Address, p: Symbol, v: I128, tokens: nat)
    requires ControlledTokens(s, proposer) == if FitsI128(tokens) then Some(tokens) else None
    ensures var r := CreateProposal(s, proposer, target, p, v).outcome;
            && (r == Err(InsufficientVotingPower) <==> FitsI128(tokens) && tokens < s.config.minVotingPower)
            && (r == Err(InvalidParameter) <==> Entitled(s, tokens) && p.Other?)
            && (r == Err(InvalidValue) <==> Entitled(s, tokens) && !p.Other? && !InRange(p, v))
            && (r == Err(MathOverflow)
                <==> && Entitled(s, tokens) && InRange(p, v)
                     && !(FitsU64(s.count + 1) && FitsU64(s.clock + s.config.votingPeriod + s.config.timelockPeriod)))
            && (r == Err(Trap) <==> !FitsI128(tokens))
  {
    hide ControlledTokens;
  }

  // ----- votes

  /** A first vote in time, for a proposal that exists. */
  predicate Timely(s: State, id: U64, voter: Address) {
    id in s.proposals && s.clock < s.proposals[id].votingEnd && (id, voter) !in s.votes
  }

  /** A vote is refused when it is not positive or its square is more than the voter controls,
      when there is no such proposal, when voting has ended, or as a second vote; and a tally
      that would leave the i128 range is an overflow. */
  lemma VoteRefusals(s0: State, ops: seq<Op>, id: U64, voter: Address, support: bool, n: I128)
    requires Initial(s0)
    ensures var s := After(s0, ops);
            var tokens := Controlled(s, voter);
            var r := CastVote(s, id, voter, support, n).outcome;
            && (r == Err(InsufficientVotingPower)
                <==> n <= 0 || (Timely(s, id, voter) && FitsI128(tokens) && n * n > tokens))
            && (r == Err(ProposalNotFound) <==> n > 0 && id !in s.proposals)
            && (r == Err(VotingEnded) <==> n > 0 && id in s.proposals && s.clock >= s.proposals[id].votingEnd)
            && (r == Err(AlreadyVoted)
                <==> n > 0 && id in s.proposals && s.clock < s.proposals[id].votingEnd && (id, voter) in s.votes)
            && (r == Err(MathOverflow)
                <==> && n > 0 && Timely(s, id, voter) && FitsI128(tokens) && n * n <= tokens
                     && !FitsI128(n + if support then s.proposals[id].votesFor else s.proposals[id].votesAgainst))
            && (r == Err(Trap) <==> n > 0 && Timely(s, id, voter) && !FitsI128(tokens))
  {
    hide After;
    hide Inv;
    hide Controlled;
    hide CastVote;
    hide ControlledTokens;
    hide VotingPower;
    hide RootOf;
    hide Initial;
    PowerOf(s0, ops, voter);
    VoteRefused(After(s0, ops), id, voter, support, n, Controlled(After(s0, ops), voter));
  }

  lemma VoteRefused(s: State, id: U64, voter: Address, support: bool, n: I128, tokens: nat)
    requires VotingPower(s, voter) == if FitsI128(tokens) then Some(RootOf(tokens)) else None
    ensures var r := CastVote(s, id, voter, support, n).outcome;
            && (r == Err(InsufficientVotingPower)
                <==> n <= 0 || (Timely(s, id, voter) && FitsI128(tokens) && n * n > tokens))
            && (r == Err(ProposalNotFound) <==> n > 0 && id !in s.proposals)
            && (r == Err(VotingEnded) <==> n > 0 && id in s.proposals && s.clock >= s.proposals[id].votingEnd)
            && (r == Err(AlreadyVoted)
                <==> n > 0 && id in s.proposals && s.clock < s.proposals[id].votingEnd && (id, voter) in s.votes)
            && (r == Err(MathOverflow)
                <==> && n > 0 && Timely(s, id, voter) && FitsI128(tokens) && n * n <= tokens
                     && !FitsI128(n + if support then s.proposals[id].votesFor else s.proposals[id].votesAgainst))
            && (r == Err(Trap) <==> n > 0 && Timely(s, id, voter) && !FitsI128(tokens))
  {
    hide VotingPower;
    if n > 0 && FitsI128(tokens) {
      RootCovers(tokens, n);
    }
    hide RootOf;
    hide Balance;
  }

  // ----- execution, cancellation, delegation

  /** Open, with voting and timelock over. */
  predicate Due(s: State, id: U64) {
    id in s.proposals && !s.proposals[id].executed
    && s.clock >= s.proposals[id].votingEnd && s.clock >= s.proposals[id].executionTs
  }

  /** An execution is refused when there is no such proposal, when it is closed, before voting
      has ended, before the timelock is over, for an overflow, or for want of votes or support. */
  lemma ExecutionRefusals(s: State, id: U64)
    ensures var r := Execute(s, id).outcome;
            && (r == Err(ProposalNotFound) <==> id !in s.proposals)
            && (r == Err(ProposalAlreadyExecuted) <==> id in s.proposals && s.proposals[id].executed)
            && (r == Err(ProposalNotActive)
                <==> id in s.proposals && !s.proposals[id].executed && s.clock < s.proposals[id].votingEnd)
            && (r == Err(TimelockNotExpired)
                <==> && id in s.proposals && !s.proposals[id].executed
                     && s.proposals[id].votingEnd <= s.clock < s.proposals[id].executionTs)
            && (r == Err(MathOverflow) <==> Due(s, id) && Overflows(s, s.proposals[id]))
    ensures Due(s, id) && !Overflows(s, s.proposals[id]) ==>
              var p := s.proposals[id];
              var total := p.votesFor + p.votesAgainst;
              var enough := total >= TruncDiv(s.totalPower * s.config.quorumBps, 10000);
              && (Execute(s, id).outcome == Err(QuorumNotReached) <==> !enough)
              && (Execute(s, id).outcome == Err(MajorityNotReached)
                  <==> enough && p.votesFor < TruncDiv(total * s.config.majorityBps, 10000))
  {
    hide ApplyParameter;
    if Due(s, id) {
      ChecksAgree(s, id);
      ChecksRefused(s, s.proposals[id]);
    }
    hide VoteChecks;
    hide HasPassed;
    hide Overflows;
  }

  lemma ChecksRefused(s: State, p: Proposal)
    ensures VoteChecks(s, p).Err? ==> VoteChecks(s, p).error in {MathOverflow, QuorumNotReached, MajorityNotReached}
    ensures !Overflows(s, p) ==>
              var total := p.votesFor + p.votesAgainst;
              var enough := total >= TruncDiv(s.totalPower * s.config.quorumBps, 10000);
              && (VoteChecks(s, p) == Err(QuorumNotReached) <==> !enough)
              && (VoteChecks(s, p) == Err(MajorityNotReached)
                  <==> enough && p.votesFor < TruncDiv(total * s.config.majorityBps, 10000))
  {
  }

  lemma OtherRefusals(s: State, id: U64, delegator: Address, delegatee: Address)
    ensures Cancel(s, id).outcome == Err(ProposalNotFound) <==> id !in s.proposals
    ensures Cancel(s, id).outcome == Err(ProposalAlreadyExecuted) <==> id in s.proposals && s.proposals[id].executed
    ensures Cancel(s, id).outcome.Ok? <==> id in s.proposals && !s.proposals[id].executed
    ensures Delegate(s, delegator, delegatee).outcome == Err(InvalidDelegation) <==> delegator == delegatee
    ensures Delegate(s, delegator, delegatee).outcome.Ok? <==> delegator != delegatee
    ensures HasPassed(s, id) == Err(ProposalNotFound) <==> id !in s.proposals
    ensures Step(s, OpInitialize).outcome == Err(AlreadyInitialized)
  {
  }
}
