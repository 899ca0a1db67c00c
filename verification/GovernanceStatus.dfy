/** What `get_proposal_status` shows: exactly when it shows which status, and how the
    status moves over a run. */
module GovernanceStatus {
  import opened MachineInts
  import opened Governance
  import opened GovernanceRuns

  /** A product or sum as the status page sees it: zero once it has left the i128 range. */
  function Shown(x: int): I128 { if FitsI128(x) then x else 0 }

  /** What the page holds against the proposal: too few votes, or too little support. */
  predicate ShownBelow(s: State, p: Proposal) {
    var total := Shown(p.votesFor + p.votesAgainst);
    || total < TruncDiv(Shown(s.totalPower * s.config.quorumBps), 10000)
    || p.votesFor < TruncDiv(Shown(total * s.config.majorityBps), 10000)
  }

  /** Voting is over and the tally window is not, for a proposal that is open. */
  predicate InTally(s: State, p: Proposal) {
    !p.executed && FitsU64(p.votingEnd + s.config.tallyPeriod) && p.votingEnd <= s.clock < p.votingEnd + s.config.tallyPeriod
  }

  /** Each status is shown exactly when it should be: executed for a closed proposal; of the
      open ones, active before the end of voting, tallying within the window after it, and
      then failed or succeeded by the thresholds. Only an end of the tally window beyond 64
      bits is a panic. */
  lemma StatusExactly(s: State, id: U64)
    ensures id !in s.proposals <==> Status(s, id) == Err(ProposalNotFound)
    ensures id in s.proposals ==>
              var p := s.proposals[id];
              && (Status(s, id) == Ok(Executed) <==> p.executed)
              && (Status(s, id) == Ok(Active) <==> !p.executed && s.clock < p.votingEnd)
              && (Status(s, id) == Ok(Tallying) <==> InTally(s, p))
              && (Status(s, id) == Ok(Failed) <==> Settled(s, p) && ShownBelow(s, p))
              && (Status(s, id) == Ok(Succeeded) <==> Settled(s, p) && !ShownBelow(s, p))
              && (Status(s, id) == Err(Trap) <==>
                    !p.executed && s.clock >= p.votingEnd && !FitsU64(p.votingEnd + s.config.tallyPeriod))
  {
    if id in s.proposals {
      var p := s.proposals[id];
      ShownShare(p.votesFor + p.votesAgainst, s.config.majorityBps);
      assert OrZero(TotalVotes(p)) == Shown(p.votesFor + p.votesAgainst);
      assert OrZero(Share(s.totalPower, s.config.quorumBps)) == TruncDiv(Shown(s.totalPower * s.config.quorumBps), 10000) by {
        assert TruncDiv(0, 10000) == 0;
      }
      hide Share;
      hide TotalVotes;
      hide Shown;
      hide TruncDiv;
    }
  }

  lemma ShownShare(total: int, bps: U32)
    ensures OrZero(Share(Shown(total), bps)) == TruncDiv(Shown(Shown(total) * bps), 10000)
  {
    assert TruncDiv(0, 10000) == 0;
  }

  // ----- the order of the statuses

  /** How far a proposal has come: voting, tallying, settled, closed. A tally window that
      ends beyond 64 bits never ends. */
  function Phase(s: State, id: U64): nat {
    match Status(s, id)
    case Ok(Executed) => 3
    case Ok(Failed) => 2
    case Ok(Succeeded) => 2
    case Ok(Tallying) => 1
    case Ok(Active) => 0
    case Err(_) => 1
  }

  lemma PhaseExactly(s: State, id: U64)
    requires id in s.proposals
    ensures var p := s.proposals[id];
            Phase(s, id) == if p.executed then 3
                            else if s.clock < p.votingEnd then 0
                            else if s.clock < p.votingEnd + s.config.tallyPeriod then 1 else 2
  {
    StatusExactly(s, id);
    hide Status;
    hide ShownBelow;
  }

  /** A longer tally period reopens the tally window of a settled proposal. */
  predicate Reopens(s: State, op: Op, id: U64)
    requires id in s.proposals
  {
    op.OpUpdateConfig? && Settled(s, s.proposals[id]) && s.clock < s.proposals[id].votingEnd + op.config.tallyPeriod
  }

  /** A step never takes a proposal back, except exactly a new configuration whose tally
      period is so long that a settled proposal is within it again. */
  lemma GoesBackExactly(s: State, op: Op, id: U64)
    requires ProposalsWellFormed(s) && id in s.proposals
    ensures id in Step(s, op).state.proposals
    ensures Phase(Step(s, op).state, id) < Phase(s, id) <==> Reopens(s, op, id)
  {
    var s' := Step(s, op).state;
    StepKeepsRecords(s, op, id);
    ClosedAfterStep(s, op, id);
    ConfigAfter(s, op);
    hide Step;
    PhaseExactly(s, id);
    PhaseExactly(s', id);
    hide Phase;
  }

  lemma ConfigAfter(s: State, op: Op)
    ensures var s' := Step(s, op).state;
            && s'.config == (if op.OpUpdateConfig? then op.config else s.config)
            && s'.totalPower == (if op.OpSetTotalPower? then op.power else s.totalPower)
            && (op.OpUpdateConfig? ==> s'.clock == s.clock && s'.proposals == s.proposals)
  {
    hide ControlledTokens;
    hide VotingPower;
    hide VoteChecks;
    hide AddVote;
    hide ApplyParameter;
  }

  /** The clock of the ledger as the contract sees it: the latest time that was reached. */
  lemma {:induction false} ClockIsLatest(s: State, ops: seq<Op>)
    ensures After(s, ops).clock >= s.clock
    ensures forall i :: 0 <= i < |ops| && ops[i].OpTick? ==> ops[i].time <= After(s, ops).clock
    ensures After(s, ops).clock == s.clock || OpTick(After(s, ops).clock) in ops
  {
    hide Step;
    if ops != [] {
      ClockIsLatest(s, ops[..|ops| - 1]);
      ClockAfter(After(s, ops[..|ops| - 1]), ops[|ops| - 1]);
    }
  }

  lemma ClockAfter(s: State, op: Op)
    ensures Step(s, op).state.clock == if op.OpTick? && op.time > s.clock then op.time else s.clock
  {
    hide ControlledTokens;
    hide VotingPower;
    hide VoteChecks;
    hide AddVote;
    hide ApplyParameter;
  }

  predicate NeverReopens(s: State, ops: seq<Op>, id: U64) {
    forall i :: 0 <= i < |ops| ==>
      id in After(s, ops[..i]).proposals ==> !Reopens(After(s, ops[..i]), ops[i], id)
  }

  /** Over any run on from a reachable state the status only moves forward, in the order
      active, tallying, settled, executed, as long as no new configuration reopens the tally. */
  lemma {:induction false} StatusMovesForward(s: State, ops: seq<Op>, id: U64)
    requires Inv(s) && id in s.proposals && NeverReopens(s, ops, id)
    ensures id in After(s, ops).proposals && Phase(s, id) <= Phase(After(s, ops), id)
  {
    hide Phase;
    hide Inv;
    hide Step;
    hide Reopens;
    FrozenAfterClose(s, ops, id);
    if ops != [] {
      var before, op := ops[..|ops| - 1], ops[|ops| - 1];
      assert forall i :: 0 <= i < |before| ==> before[..i] == ops[..i];
      StatusMovesForward(s, before, id);
      FrozenAfterClose(s, before, id);
      WellFormed(After(s, before));
      GoesBackExactly(After(s, before), op, id);
    }
  }

  lemma WellFormed(s: State)
    requires Inv(s)
    ensures ProposalsWellFormed(s)
  {
  }

  /** Once settled, the verdict itself changes only by a new configuration or a new total
      power; nothing else but the closing of the proposal changes what is shown. */
  lemma VerdictStays(s: State, op: Op, id: U64)
    requires ProposalsWellFormed(s) && id in s.proposals && Settled(s, s.proposals[id])
    requires !op.OpUpdateConfig? && !op.OpSetTotalPower?
    ensures Status(Step(s, op).state, id) == Status(s, id) || Status(Step(s, op).state, id) == Ok(Executed)
  {
    var s' := Step(s, op).state;
    StepKeepsRecords(s, op, id);
    ConfigAfter(s, op);
    hide Step;
    StatusExactly(s, id);
    StatusExactly(s', id);
    hide Status;
  }

  /** Such a configuration is within reach: a proposal that failed is tallied again. */
  lemma StatusCanGoBack() returns (s0: State, ops: seq<Op>, op: Op)
    ensures Initial(s0) && 0 in After(s0, ops).proposals
    ensures Status(After(s0, ops), 0) == Ok(Failed) && Status(After(s0, ops + [op]), 0) == Ok(Tallying)
  {
    s0 := State(DEFAULT_CONFIG, 0, DEFAULT_TOTAL_POWER, map[7 := 2000], map[], map[], map[], map[], map[], 0);
    var create, tick := OpCreate(7, 9, LiqThr, 8000), OpTick(700000);
    ops := [create] + [tick];
    op := OpUpdateConfig(DEFAULT_CONFIG.(tallyPeriod := 200000));
    AfterOne(s0, create);
    AfterConcat(s0, [create], [tick]);
    AfterOne(After(s0, [create]), tick);
    AfterConcat(s0, ops, [op]);
    AfterOne(After(s0, ops), op);
    hide After;
    ExampleCreated(s0, create);
    var s := s0.(count := 1, proposals := map[0 := ExampleProposal()], clock := 700000);
    assert After(s0, ops) == s;
    StatusExactly(s, 0);
    StatusExactly(Step(s, op).state, 0);
  }
}
