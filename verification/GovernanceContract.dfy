/** The governance contract as an object whose calls update its storage. Its ghost history
    is the run that led to its present state: `Valid` says so, and every call keeps it, so
    all that is proved about runs holds of the object. A call that fails writes nothing:
    the host rolls back whatever the original had written before the error. */
module GovernanceContract {
  import opened MachineInts
  import opened Newton
  import G = Governance
  import GR = GovernanceRuns
  import GL = GovernanceRules

  class Contract {
    var config: G.Config
    var count: U64
    var totalPower: I128
    var balances: map<G.Address, I128>
    var delegateOf: map<G.Address, G.Address>
    var delegators: map<G.Address, seq<G.Address>>
    var proposals: map<U64, G.Proposal>
    var votes: map<(U64, G.Address), G.Vote>
    var risk: map<G.Address, G.RiskParameters>
    var clock: U64
    ghost const start: G.State
    ghost var history: seq<G.Op>

    function View(): G.State
      reads this
    {
      G.State(config, count, totalPower, balances, delegateOf, delegators, proposals, votes, risk, clock)
    }

    /** The storage is what the calls so far made of the initial one, and is consistent. */
    ghost predicate Valid()
      reads this
    {
      G.Initial(start) && View() == G.After(start, history) && GR.Inv(View())
    }

    constructor (balances: map<G.Address, I128>, risk: map<G.Address, G.RiskParameters>, clock: U64)
      requires forall a :: a in balances ==> balances[a] >= 0
      ensures Valid() && history == [] && start == View()
      ensures G.Initial(View()) && this.balances == balances && this.risk == risk && this.clock == clock
    {
      this.config := G.DEFAULT_CONFIG;
      this.count := 0;
      this.totalPower := G.DEFAULT_TOTAL_POWER;
      this.balances, this.risk, this.clock := balances, risk, clock;
      this.delegateOf, this.delegators, this.proposals, this.votes := map[], map[], map[], map[];
      this.start := G.State(G.DEFAULT_CONFIG, 0, G.DEFAULT_TOTAL_POWER, balances, map[], map[], map[], map[], risk, clock);
      this.history := [];
      new;
      GR.InitialInv(View());
    }

    method TokenBalance(a: G.Address) returns (b: I128)
      ensures b == G.Balance(View(), a)
    {
      if a in balances {
        b := balances[a];
      } else {
        b := G.DEFAULT_BALANCE;
      }
    }

    /** The loop over the delegator list; `None` when an addition overflows. */
    method TotalControlledTokens(voter: G.Address) returns (r: Option<I128>)
      ensures r == G.ControlledTokens(View(), voter)
    {
      var total := TokenBalance(voter);
      var list := if voter in delegators then delegators[voter] else [];
      for k := 0 to |list|
        invariant G.Scan(View(), voter, k) == Some(total)
      {
        var d := list[k];
        if d in delegateOf && delegateOf[d] == voter {
          var b := TokenBalance(d);
          if !FitsI128(total as int + b as int) {
            OverflowSticks(View(), voter, k + 1, |list|);
            return None;
          }
          total := total + b;
        }
      }
      r := Some(total);
    }

    method VotingPower(voter: G.Address) returns (r: Option<I128>)
      ensures r == G.VotingPower(View(), voter)
    {
      var total := TotalControlledTokens(voter);
      if total == None {
        return None;
      }
      var root := GovernanceSqrt(total.value);
      r := Some(root);
    }

    method ValidateParameter(parameter: G.Symbol, value: I128) returns (r: Outcome<(), G.Error>)
      ensures r.Ok? <==> G.InRange(parameter, value)
      ensures r == G.ValidateParameter(parameter, value)
    {
      match parameter {
        case LiqThr =>
          if value < 5000 || value > 9500 {
            return Err(G.InvalidValue);
          }
        case LiqPen =>
          if value < 100 || value > 1000 {
            return Err(G.InvalidValue);
          }
        case MinHf =>
          if value < 10000 || value > 15000 {
            return Err(G.InvalidValue);
          }
        case MaxLiq =>
          if value < 2500 || value > 5000 {
            return Err(G.InvalidValue);
          }
        case GracePd =>
          if value < 300 || value > 86400 {
            return Err(G.InvalidValue);
          }
        case LiqBon =>
          if value < 100 || value > 1000 {
            return Err(G.InvalidValue);
          }
        case Other(_) =>
          return Err(G.InvalidParameter);
      }
      r := Ok(());
    }

    method CreateProposal(proposer: G.Address, target: G.Address, parameter: G.Symbol, newValue: I128)
      returns (r: Outcome<U64, G.Error>)
      requires Valid()
      modifies this
      ensures Valid() && history == old(history) + [G.OpCreate(proposer, target, parameter, newValue)]
      ensures G.Result(View(), r) == G.CreateProposal(old(View()), proposer, target, parameter, newValue)
    {
      hide G.ControlledTokens;
      hide G.InRange;
      hide GR.Inv;
      hide G.After;
      hide G.Initial;
      OneMore(start, history, G.OpCreate(proposer, target, parameter, newValue));
      history := history + [G.OpCreate(proposer, target, parameter, newValue)];
      var tokens := TotalControlledTokens(proposer);
      if tokens == None {
        return Err(G.Trap);
      }
      if tokens.value < config.minVotingPower {
        return Err(G.InsufficientVotingPower);
      }
      var valid := ValidateParameter(parameter, newValue);
      if valid.Err? {
        return Err(valid.error);
      }
      var id := count;
      if !FitsU64(count + 1) {
        return Err(G.MathOverflow);
      }
      if !FitsU64(clock + config.votingPeriod) {
        return Err(G.MathOverflow);
      }
      var end := clock + config.votingPeriod;
      if !FitsU64(end + config.timelockPeriod) {
        return Err(G.MathOverflow);
      }
      count := count + 1;
      proposals := proposals[id := G.Proposal(id, proposer, target, parameter, newValue, end, 0, 0, false,
                                              end + config.timelockPeriod, clock)];
      r := Ok(id);
    }

    /** The tally of one side with n more votes. */
    method CountVote(p: G.Proposal, support: bool, n: I128) returns (r: Outcome<G.Proposal, G.Error>)
      ensures r == G.AddVote(p, support, n)
    {
      if support {
        if !FitsI128(p.votesFor + n) {
          return Err(G.MathOverflow);
        }
        return Ok(p.(votesFor := p.votesFor + n));
      } else {
        if !FitsI128(p.votesAgainst + n) {
          return Err(G.MathOverflow);
        }
        return Ok(p.(votesAgainst := p.votesAgainst + n));
      }
    }

    method CastVote(id: U64, voter: G.Address, support: bool, n: I128) returns (r: Outcome<U64, G.Error>)
      requires Valid()
      modifies this
      ensures Valid() && history == old(history) + [G.OpVote(id, voter, support, n)]
      ensures G.Result(View(), r) == G.CastVote(old(View()), id, voter, support, n)
    {
      hide GR.Inv;
      hide G.After;
      hide G.Initial;
      OneMore(start, history, G.OpVote(id, voter, support, n));
      history := history + [G.OpVote(id, voter, support, n)];
      hide G.CastVote;
      r := CheckAndVote(id, voter, support, n);
    }

    method CheckAndVote(id: U64, voter: G.Address, support: bool, n: I128) returns (r: Outcome<U64, G.Error>)
      modifies this`balances, this`votes, this`proposals
      ensures G.Result(View(), r) == G.CastVote(old(View()), id, voter, support, n)
    {
      hide G.VotingPower;
      hide G.ControlledTokens;
      hide G.RootOf;
      hide G.AddVote;
      if n <= 0 {
        return Err(G.InsufficientVotingPower);
      }
      if id !in proposals {
        return Err(G.ProposalNotFound);
      }
      var p := proposals[id];
      if clock >= p.votingEnd {
        return Err(G.VotingEnded);
      }
      if (id, voter) in votes {
        return Err(G.AlreadyVoted);
      }
      var max := VotingPower(voter);
      if max == None {
        return Err(G.Trap);
      }
      if n > max.value {
        return Err(G.InsufficientVotingPower);
      }
      var cost := n * n;
      if !FitsI128(cost) {
        return Err(G.MathOverflow);
      }
      var counted := CountVote(p, support, n);
      if counted.Err? {
        return Err(counted.error);
      }
      var own := TokenBalance(voter);
      G.CostNonNegative(n);
      if own >= cost {
        balances := balances[voter := own - cost];
      } else {
        balances := balances[voter := 0];
      }
      votes := votes[(id, voter) := G.Vote(voter, id, support, n, clock)];
      proposals := proposals[id := counted.value];
      r := Ok(0);
    }

    /** Quorum and majority, with the overflow checks in the order they are made. */
    method CheckVotes(p: G.Proposal) returns (r: Outcome<(), G.Error>)
      ensures r == G.VoteChecks(View(), p)
      ensures r.Ok? <==> !GR.Overflows(View(), p) && GR.MeetsThresholds(View(), p.votesFor, p.votesAgainst)
    {
      if !FitsI128(p.votesFor + p.votesAgainst) {
        return Err(G.MathOverflow);
      }
      var total := p.votesFor + p.votesAgainst;
      if !FitsI128(totalPower * config.quorumBps) {
        return Err(G.MathOverflow);
      }
      var quorum := TruncDiv(totalPower * config.quorumBps, 10000);
      if total < quorum {
        return Err(G.QuorumNotReached);
      }
      if !FitsI128(total * config.majorityBps) {
        return Err(G.MathOverflow);
      }
      var majority := TruncDiv(total * config.majorityBps, 10000);
      if p.votesFor < majority {
        return Err(G.MajorityNotReached);
      }
      r := Ok(());
    }

    method ExecuteParameterUpdate(target: G.Address, parameter: G.Symbol, value: I128) returns (ok: bool)
      modifies this`risk
      ensures ok <==> target in old(risk)
      ensures risk == if ok then old(risk)[target := G.ApplyParameter(old(risk)[target], parameter, value)] else old(risk)
    {
      if target !in risk {
        return false;
      }
      var params := risk[target];
      match parameter {
        case LiqThr => params := params.(liquidationThreshold := AsU32(value));
        case LiqPen => params := params.(liquidationPenalty := AsU32(value));
        case MinHf => params := params.(minHealthFactor := AsU32(value));
        case MaxLiq => params := params.(maxLiquidationRatio := AsU32(value));
        case GracePd => params := params.(gracePeriod := AsU64(value));
        case LiqBon => params := params.(liquidatorBonus := AsU32(value));
        case Other(_) =>
      }
      risk := risk[target := params];
      ok := true;
    }

    /** Accepted exactly when the proposal was neither executed nor cancelled before, its
        timelock is over and its votes meet the thresholds; it is then the one call of the
        history that closed the proposal, and the approved value stands in its field. */
    method ExecuteProposal(id: U64) returns (r: Outcome<U64, G.Error>)
      requires Valid()
      modifies this
      ensures Valid() && history == old(history) + [G.OpExecute(id)]
      ensures G.Result(View(), r) == G.Execute(old(View()), id)
      ensures r.Ok? <==> old(Executable(start, history, id))
      ensures r.Ok? ==> GR.Executions(start, history, id) == 1 && GR.Cancellations(start, history, id) == 0
      ensures r.Ok? ==> Approved(View(), id)
    {
      Executed(start, history, id);
      hide G.VoteChecks;
      hide GR.Inv;
      hide G.After;
      hide G.Initial;
      hide G.ApplyParameter;
      hide Executable;
      hide Approved;
      hide GR.Executions;
      hide GR.Cancellations;
      OneMore(start, history, G.OpExecute(id));
      history := history + [G.OpExecute(id)];
      hide G.Execute;
      r := CheckAndExecute(id);
    }

    method CheckAndExecute(id: U64) returns (r: Outcome<U64, G.Error>)
      modifies this`proposals, this`risk
      ensures G.Result(View(), r) == G.Execute(old(View()), id)
    {
      hide G.VoteChecks;
      hide G.ApplyParameter;
      if id !in proposals {
        return Err(G.ProposalNotFound);
      }
      var p := proposals[id];
      if p.executed {
        return Err(G.ProposalAlreadyExecuted);
      }
      if clock < p.votingEnd {
        return Err(G.ProposalNotActive);
      }
      if clock < p.executionTs {
        return Err(G.TimelockNotExpired);
      }
      var checks := CheckVotes(p);
      if checks.Err? {
        return Err(checks.error);
      }
      var updated := ExecuteParameterUpdate(p.target, p.parameter, p.newValue);
      if !updated {
        return Err(G.Trap);
      }
      p := p.(executed := true);
      proposals := proposals[id := p];
      r := Ok(0);
    }

    /** Accepted exactly for a proposal that no call of the history executed or cancelled;
        from then on it is the one call that closed it, and no execution ever will. */
    method CancelProposal(id: U64) returns (r: Outcome<U64, G.Error>)
      requires Valid()
      modifies this
      ensures Valid() && history == old(history) + [G.OpCancel(id)]
      ensures G.Result(View(), r) == G.Cancel(old(View()), id)
      ensures r.Ok? <==> old(id in proposals
                             && GR.Executions(start, history, id) + GR.Cancellations(start, history, id) == 0)
      ensures r.Ok? ==> forall later ::
                GR.Executions(start, history + later, id) == 0 && GR.Cancellations(start, history + later, id) == 1
      ensures votes == old(votes) && risk == old(risk)
    {
      Cancelled(start, history, id);
      hide GR.Inv;
      hide G.After;
      hide G.Initial;
      hide GR.Executions;
      hide GR.Cancellations;
      OneMore(start, history, G.OpCancel(id));
      history := history + [G.OpCancel(id)];
      if id !in proposals {
        return Err(G.ProposalNotFound);
      }
      var p := proposals[id];
      if p.executed {
        return Err(G.ProposalAlreadyExecuted);
      }
      p := p.(executed := true);
      proposals := proposals[id := p];
      r := Ok(0);
    }

    /** Moves the delegator's balance from what its old delegate controls to what the new
        one does; what anybody else controls stays. */
    method Delegate(delegator: G.Address, delegatee: G.Address) returns (r: Outcome<U64, G.Error>)
      requires Valid()
      modifies this
      ensures Valid() && history == old(history) + [G.OpDelegate(delegator, delegatee)]
      ensures G.Result(View(), r) == G.Delegate(old(View()), delegator, delegatee)
      ensures r.Ok? <==> delegator != delegatee
      ensures r.Ok? ==> GL.MovesTokens(old(View()), View(), delegator, delegatee)
    {
      if delegator != delegatee {
        GL.DelegationMovesTokens(View(), delegator, delegatee);
      }
      hide GL.MovesTokens;
      hide GR.Inv;
      hide G.After;
      hide G.Initial;
      OneMore(start, history, G.OpDelegate(delegator, delegatee));
      history := history + [G.OpDelegate(delegator, delegatee)];
      if delegator == delegatee {
        return Err(G.InvalidDelegation);
      }
      delegateOf := delegateOf[delegator := delegatee];
      var list := if delegatee in delegators then delegators[delegatee] else [];
      if delegator !in list {
        delegators := delegators[delegatee := list + [delegator]];
      }
      r := Ok(0);
    }

    method UpdateConfig(config: G.Config)
      requires Valid()
      modifies this
      ensures Valid() && history == old(history) + [G.OpUpdateConfig(config)]
    {
      hide GR.Inv;
      OneMore(start, history, G.OpUpdateConfig(config));
      history := history + [G.OpUpdateConfig(config)];
      this.config := config;
    }

    method SetTotalVotingPower(power: I128)
      requires Valid()
      modifies this
      ensures Valid() && history == old(history) + [G.OpSetTotalPower(power)]
    {
      hide GR.Inv;
      OneMore(start, history, G.OpSetTotalPower(power));
      history := history + [G.OpSetTotalPower(power)];
      totalPower := power;
    }

    /** The ledger closes and its clock moves on. */
    method Tick(time: U64)
      requires Valid()
      modifies this
      ensures Valid() && history == old(history) + [G.OpTick(time)]
    {
      hide GR.Inv;
      OneMore(start, history, G.OpTick(time));
      history := history + [G.OpTick(time)];
      if time >= clock {
        clock := time;
      }
    }
  }

  lemma OneMore(start: G.State, history: seq<G.Op>, op: G.Op)
    requires G.Initial(start)
    ensures G.After(start, history + [op]) == G.Step(G.After(start, history), op).state
    ensures GR.Inv(G.After(start, history + [op]))
  {
    assert (history + [op])[..|history|] == history;
    GR.ReachableInv(start, history + [op]);
    hide G.Step;
    hide GR.Inv;
  }

  /** What the run must have come to for an execution: no execution or cancellation yet,
      the timelock over, an existing target, and votes that meet the thresholds. */
  predicate Executable(start: G.State, history: seq<G.Op>, id: U64) {
    var s := G.After(start, history);
    && id in s.proposals
    && GR.Executions(start, history, id) + GR.Cancellations(start, history, id) == 0
    && s.clock >= s.proposals[id].executionTs && s.proposals[id].target in s.risk
    && !GR.Overflows(s, s.proposals[id])
    && GR.MeetsThresholds(s, s.proposals[id].votesFor, s.proposals[id].votesAgainst)
  }

  /** The proposed value stands in the proposed field. */
  predicate Approved(s: G.State, id: U64) {
    && id in s.proposals && s.proposals[id].target in s.risk
    && GR.Field(s.risk[s.proposals[id].target], s.proposals[id].parameter) == Some(s.proposals[id].newValue)
  }

  /** What an accepted execution adds to a run. */
  lemma Executed(start: G.State, history: seq<G.Op>, id: U64)
    requires G.Initial(start)
    ensures var r := G.Execute(G.After(start, history), id);
            && (r.outcome.Ok? <==> Executable(start, history, id))
            && (r.outcome.Ok? ==>
                  && GR.Executions(start, history + [G.OpExecute(id)], id) == 1
                  && GR.Cancellations(start, history + [G.OpExecute(id)], id) == 0
                  && Approved(r.state, id))
  {
    var s := G.After(start, history);
    GR.ReachableInv(start, history);
    GR.ExecutedOrCancelledOnce(start, history, id);
    GL.ExecutionAcceptedExactly(s, id);
    assert (history + [G.OpExecute(id)])[..|history|] == history;
    if G.Execute(s, id).outcome.Ok? {
      GR.ExecutionWritesOneField(s, id);
      ExecutionKeepsTerms(s, id);
    }
    hide GR.Inv;
    hide G.Execute;
    hide G.After;
    hide GR.Overflows;
    hide GR.MeetsThresholds;
    hide GR.Field;
  }

  lemma ExecutionKeepsTerms(s: G.State, id: U64)
    requires G.Execute(s, id).outcome.Ok?
    ensures var s' := G.Execute(s, id).state;
            && id in s.proposals && id in s'.proposals && s'.proposals[id] == s.proposals[id].(executed := true)
  {
    hide G.VoteChecks;
    hide G.ApplyParameter;
  }

  /** What an accepted cancellation settles for ever. */
  lemma Cancelled(start: G.State, history: seq<G.Op>, id: U64)
    requires G.Initial(start)
    ensures var s := G.After(start, history);
            && (G.Cancel(s, id).outcome.Ok? <==>
                  id in s.proposals && GR.Executions(start, history, id) + GR.Cancellations(start, history, id) == 0)
            && (G.Cancel(s, id).outcome.Ok? ==> forall later ::
                  && GR.Executions(start, history + [G.OpCancel(id)] + later, id) == 0
                  && GR.Cancellations(start, history + [G.OpCancel(id)] + later, id) == 1)
  {
    var s := G.After(start, history);
    GR.ExecutedOrCancelledOnce(start, history, id);
    var now := history + [G.OpCancel(id)];
    assert now[..|history|] == history;
    if G.Cancel(s, id).outcome.Ok? {
      assert GR.Cancellations(start, now, id) == 1;
      forall later
        ensures GR.Executions(start, now + later, id) == 0 && GR.Cancellations(start, now + later, id) == 1
      {
        CountsGrow(start, now, later, id);
        GR.ExecutedOrCancelledOnce(start, now + later, id);
      }
    }
  }

  lemma {:induction false} CountsGrow(start: G.State, a: seq<G.Op>, b: seq<G.Op>, id: U64)
    ensures GR.Executions(start, a, id) <= GR.Executions(start, a + b, id)
    ensures GR.Cancellations(start, a, id) <= GR.Cancellations(start, a + b, id)
  {
    hide G.Step;
    if b == [] {
      assert a + b == a;
    } else {
      CountsGrow(start, a, b[..|b| - 1], id);
      assert (a + b)[..|a + b| - 1] == a + b[..|b| - 1];
    }
  }

  /** A total that has overflowed stays overflowed. */
  lemma {:induction false} OverflowSticks(s: G.State, v: G.Address, j: nat, k: nat)
    requires j <= k <= |G.DelegatorList(s, v)| && G.Scan(s, v, j) == None
    ensures G.Scan(s, v, k) == None
  {
    if j < k {
      OverflowSticks(s, v, j, k - 1);
    }
  }
}
