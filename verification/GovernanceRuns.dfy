/** What every run of the governance contract keeps. */
module GovernanceRuns {
  import opened MachineInts
  import opened Sums
  import opened Newton
  import opened Governance

  // ----- runs

  lemma {:induction false} AfterConcat(s: State, a: seq<Op>, b: seq<Op>)
    ensures After(s, a + b) == After(After(s, a), b)
  {
    hide Step;
    if b == [] {
      assert a + b == a;
    } else {
      var c := b[..|b| - 1];
      assert (a + b)[..|a + b| - 1] == a + c;
      AfterConcat(s, a, c);
    }
  }

  // ----- the delegation index

  predicate NoDuplicates(list: seq<Address>) {
    forall i, j :: 0 <= i < j < |list| ==> list[i] != list[j]
  }

  /** Every current delegator is in its delegatee's list, and no list repeats an
      address. Lists may also hold addresses that have delegated elsewhere since. */
  predicate DelegationIndexed(s: State) {
    && (forall d :: d in s.delegateOf ==> d != s.delegateOf[d] && d in DelegatorList(s, s.delegateOf[d]))
    && (forall v :: v in s.delegators ==> NoDuplicates(s.delegators[v]))
  }

  predicate BalancesNonNegative(s: State) {
    forall a :: a in s.balances ==> s.balances[a] >= 0
  }

  /** The balances of the addresses whose current delegate is v. */
  function Delegated(s: State, v: Address): map<Address, int> {
    map d | d in s.delegateOf && s.delegateOf[d] == v :: Balance(s, d)
  }

  /** What v controls by the rule the contract documents: its own balance and
      those of its current delegators. */
  ghost function Controlled(s: State, v: Address): int {
    Balance(s, v) + Total(Delegated(s, v))
  }

  /** The part of `Delegated` found in the first k entries of the list. */
  function FoundBy(s: State, v: Address, k: nat): map<Address, int>
    requires k <= |DelegatorList(s, v)|
  {
    map d | d in DelegatorList(s, v)[..k] && DelegatesTo(s, d, v) :: Balance(s, d)
  }

  /** What the list entry at k adds. */
  lemma FoundByStep(s: State, v: Address, k: nat)
    requires 0 < k <= |DelegatorList(s, v)| && NoDuplicates(DelegatorList(s, v))
    ensures var d := DelegatorList(s, v)[k - 1];
            Total(FoundBy(s, v, k)) == Total(FoundBy(s, v, k - 1)) + if DelegatesTo(s, d, v) then Balance(s, d) else 0
  {
    var list := DelegatorList(s, v);
    var d := list[k - 1];
    assert list[..k] == list[..k - 1] + [d];
    if DelegatesTo(s, d, v) {
      assert FoundBy(s, v, k) == FoundBy(s, v, k - 1)[d := Balance(s, d)];
      TotalInsert(FoundBy(s, v, k - 1), d, Balance(s, d));
    } else {
      assert FoundBy(s, v, k) == FoundBy(s, v, k - 1);
    }
  }

  lemma {:induction false} ScanPrefix(s: State, v: Address, k: nat)
    requires k <= |DelegatorList(s, v)| && NoDuplicates(DelegatorList(s, v)) && BalancesNonNegative(s)
    ensures var t := Balance(s, v) + Total(FoundBy(s, v, k));
            && t >= Balance(s, v)
            && Scan(s, v, k) == if FitsI128(t) then Some(t) else None
  {
    hide FoundBy;
    if k == 0 {
      assert FoundBy(s, v, 0) == map[] by { EmptyFound(s, v); }
    } else {
      ScanPrefix(s, v, k - 1);
      FoundByStep(s, v, k);
    }
  }

  lemma EmptyFound(s: State, v: Address)
    ensures FoundBy(s, v, 0) == map[]
  {
  }

  /** The delegation loop computes exactly the documented total, stale entries
      and repeated delegations notwithstanding. It fails only when that total
      does not fit an i128. */
  lemma ScanIsControlled(s: State, v: Address)
    requires DelegationIndexed(s) && BalancesNonNegative(s)
    ensures ControlledTokens(s, v) == if FitsI128(Controlled(s, v)) then Some(Controlled(s, v)) else None
    ensures Controlled(s, v) >= Balance(s, v)
  {
    var list := DelegatorList(s, v);
    ScanPrefix(s, v, |list|);
    assert list[..|list|] == list;
    assert FoundBy(s, v, |list|) == Delegated(s, v);
  }

  /** The balances of the addresses whose delegate is one of vs. */
  function DelegatedToAny(s: State, vs: set<Address>): map<Address, int> {
    map d | d in s.delegateOf && s.delegateOf[d] in vs :: Balance(s, d) as int
  }

  /** The delegated sum of each of vs. */
  ghost function DelegatedSums(s: State, vs: set<Address>): map<Address, int> {
    map v | v in vs :: Total(Delegated(s, v))
  }

  /** Each delegator's balance is counted for one delegatee and for no other:
      over any set of delegatees, the delegated sums add up to the balances of
      the addresses that delegate into the set. */
  lemma {:induction false} DelegatedOnce(s: State, vs: set<Address>)
    ensures Total(DelegatedSums(s, vs)) == Total(DelegatedToAny(s, vs))
    decreases |vs|
  {
    hide Total;
    EmptyTotal<Address>();
    if vs == {} {
      assert DelegatedSums(s, vs) == map[] && DelegatedToAny(s, vs) == map[];
    } else {
      var v :| v in vs;
      DelegatedOnce(s, vs - {v});
      OneMoreSum(s, vs - {v}, vs, v);
      OneMoreDelegatee(s, vs - {v}, vs, v);
    }
  }

  lemma OneMoreSum(s: State, rest: set<Address>, vs: set<Address>, v: Address)
    requires v !in rest && vs == rest + {v}
    ensures Total(DelegatedSums(s, vs)) == Total(DelegatedSums(s, rest)) + Total(Delegated(s, v))
  {
    hide Total;
    hide Delegated;
    assert DelegatedSums(s, vs) == DelegatedSums(s, rest)[v := Total(Delegated(s, v))];
    TotalInsert(DelegatedSums(s, rest), v, Total(Delegated(s, v)));
  }

  lemma OneMoreDelegatee(s: State, rest: set<Address>, vs: set<Address>, v: Address)
    requires v !in rest && vs == rest + {v}
    ensures Total(DelegatedToAny(s, vs)) == Total(DelegatedToAny(s, rest)) + Total(Delegated(s, v))
  {
    hide Total;
    hide Balance;
    assert DelegatedToAny(s, vs) == DelegatedToAny(s, rest) + Delegated(s, v);
    TotalUnion(DelegatedToAny(s, rest), Delegated(s, v));
  }

  // ----- tallies

  /** The stored votes of one side of one proposal, with their power. */
  function Ballots(votes: map<(U64, Address), Vote>, id: U64, support: bool): map<(U64, Address), int> {
    map k | k in votes && k.0 == id && votes[k].support == support :: votes[k].power as int
  }

  ghost predicate TalliesMatch(s: State) {
    forall id :: id in s.proposals ==>
      && s.proposals[id].votesFor == Total(Ballots(s.votes, id, true))
      && s.proposals[id].votesAgainst == Total(Ballots(s.votes, id, false))
  }

  predicate VotesWellFormed(s: State) {
    forall k :: k in s.votes ==>
      && k.0 in s.proposals && s.votes[k].power > 0
      && s.votes[k].proposalId == k.0 && s.votes[k].voter == k.1
      && s.votes[k].timestamp < s.proposals[k.0].votingEnd
  }

  predicate ProposalsWellFormed(s: State) {
    forall id :: id in s.proposals ==>
      var p := s.proposals[id];
      id < s.count && p.id == id && InRange(p.parameter, p.newValue)
      && p.createdAt <= p.votingEnd <= p.executionTs && p.createdAt <= s.clock
  }

  ghost predicate Inv(s: State) {
    && DelegationIndexed(s) && BalancesNonNegative(s)
    && ProposalsWellFormed(s) && VotesWellFormed(s) && TalliesMatch(s)
  }

  lemma InitialInv(s: State)
    requires Initial(s)
    ensures Inv(s)
  {
  }

  lemma BallotsAfterVote(votes: map<(U64, Address), Vote>, key: (U64, Address), v: Vote, id: U64, side: bool)
    requires key !in votes
    ensures Total(Ballots(votes[key := v], id, side))
         == Total(Ballots(votes, id, side)) + if key.0 == id && v.support == side then v.power else 0
  {
    var old' := Ballots(votes, id, side);
    var new' := Ballots(votes[key := v], id, side);
    if key.0 == id && v.support == side {
      assert new' == old'[key := v.power as int];
      TotalInsert(old', key, v.power);
    } else {
      assert new' == old';
    }
  }

  /** What an accepted creation changes: one new proposal under the next id. */
  lemma CreateEffect(s: State, op: Op)
    requires op.OpCreate? && Step(s, op).outcome.Ok?
    ensures var s' := Step(s, op).state;
            && Step(s, op).outcome == Ok(s.count) && InRange(op.parameter, op.newValue)
            && FitsU64(s.count + 1) && FitsU64(s.clock + s.config.votingPeriod)
            && FitsU64(s.clock + s.config.votingPeriod + s.config.timelockPeriod)
            && s' == s.(count := s.count + 1,
                        proposals := s.proposals[s.count :=
                          Proposal(s.count, op.proposer, op.target, op.parameter, op.newValue,
                                   s.clock + s.config.votingPeriod, 0, 0, false,
                                   s.clock + s.config.votingPeriod + s.config.timelockPeriod, s.clock)])
  {
    hide ControlledTokens;
  }

  lemma NewTally(s: State, s': State, p: Proposal)
    requires TalliesMatch(s) && VotesWellFormed(s) && s.count !in s.proposals
    requires s'.votes == s.votes && s'.proposals == s.proposals[s.count := p]
    requires p.votesFor == 0 && p.votesAgainst == 0
    ensures TalliesMatch(s')
  {
    hide Total;
    assert Ballots(s.votes, s.count, true) == map[];
    assert Ballots(s.votes, s.count, false) == map[];
    EmptyTotal<(U64, Address)>();
  }

  lemma CreateKeepsInv(s: State, op: Op)
    requires Inv(s) && op.OpCreate?
    ensures Inv(Step(s, op).state)
  {
    hide ControlledTokens;
    hide TalliesMatch;
    var s' := Step(s, op).state;
    if Step(s, op).outcome.Ok? {
      CreateEffect(s, op);
      hide Step;
      NewTally(s, s', s'.proposals[s.count]);
    }
  }

  /** What an accepted vote changes: one new record, one tally, one balance. */
  lemma VoteEffect(s: State, id: U64, voter: Address, support: bool, n: I128)
    requires CastVote(s, id, voter, support, n).outcome.Ok?
    ensures var s' := CastVote(s, id, voter, support, n).state;
            && n > 0 && n * n >= 0 && id in s.proposals && s.clock < s.proposals[id].votingEnd
            && (id, voter) !in s.votes
            && VotingPower(s, voter).Some? && n <= VotingPower(s, voter).value && FitsI128(n * n)
            && AddVote(s.proposals[id], support, n).Ok?
            && s' == s.(balances := s.balances[voter := AfterCost(Balance(s, voter), n * n)],
                        votes := s.votes[(id, voter) := Vote(voter, id, support, n, s.clock)],
                        proposals := s.proposals[id := AddVote(s.proposals[id], support, n).value])
  {
    hide VotingPower;
    hide AddVote;
    CostNonNegative(n);
  }

  lemma VoteKeepsTallies(s: State, s': State, id: U64, voter: Address, support: bool, n: I128)
    requires TalliesMatch(s) && id in s.proposals && (id, voter) !in s.votes
    requires AddVote(s.proposals[id], support, n).Ok?
    requires s'.votes == s.votes[(id, voter) := Vote(voter, id, support, n, s.clock)]
    requires s'.proposals == s.proposals[id := AddVote(s.proposals[id], support, n).value]
    ensures TalliesMatch(s')
  {
    hide Ballots;
    hide Total;
    var v := Vote(voter, id, support, n, s.clock);
    forall j | j in s'.proposals
      ensures s'.proposals[j].votesFor == Total(Ballots(s'.votes, j, true))
      ensures s'.proposals[j].votesAgainst == Total(Ballots(s'.votes, j, false))
    {
      BallotsAfterVote(s.votes, (id, voter), v, j, true);
      BallotsAfterVote(s.votes, (id, voter), v, j, false);
    }
  }

  // The other parts of the invariant, each by what it reads.

  lemma SameDelegation(s: State, s': State)
    requires DelegationIndexed(s) && s'.delegateOf == s.delegateOf && s'.delegators == s.delegators
    ensures DelegationIndexed(s')
  {
  }

  lemma OneBalance(s: State, s': State, a: Address, b: I128)
    requires BalancesNonNegative(s) && b >= 0 && s'.balances == s.balances[a := b]
    ensures BalancesNonNegative(s')
  {
  }

  /** One proposal changed at most in its tallies and its flag. */
  lemma OneProposal(s: State, s': State, id: U64, p: Proposal)
    requires ProposalsWellFormed(s) && id in s.proposals && SameTerms(s.proposals[id], p)
    requires s'.proposals == s.proposals[id := p] && s'.count == s.count && s'.clock == s.clock
    ensures ProposalsWellFormed(s')
  {
  }

  lemma OneVote(s: State, s': State, id: U64, voter: Address, v: Vote)
    requires VotesWellFormed(s) && id in s.proposals
    requires v.power > 0 && v.proposalId == id && v.voter == voter && v.timestamp < s.proposals[id].votingEnd
    requires s'.votes == s.votes[(id, voter) := v] && SameEnds(s, s')
    ensures VotesWellFormed(s')
  {
  }

  lemma SameVotes(s: State, s': State)
    requires VotesWellFormed(s) && s'.votes == s.votes && SameEnds(s, s')
    ensures VotesWellFormed(s')
  {
  }

  lemma SameProposals(s: State, s': State)
    requires ProposalsWellFormed(s) && s'.proposals == s.proposals && s'.count == s.count && s'.clock >= s.clock
    ensures ProposalsWellFormed(s')
  {
  }

  predicate SameEnds(s: State, s': State) {
    forall id :: id in s.proposals ==> id in s'.proposals && s'.proposals[id].votingEnd == s.proposals[id].votingEnd
  }

  /** The other parts of the invariant, given the effect of a vote. */
  lemma VoteKeepsRest(s: State, s': State, id: U64, voter: Address, support: bool, n: I128, b: I128)
    requires DelegationIndexed(s) && BalancesNonNegative(s) && ProposalsWellFormed(s) && VotesWellFormed(s)
    requires id in s.proposals && n > 0 && s.clock < s.proposals[id].votingEnd && b >= 0
    requires AddVote(s.proposals[id], support, n).Ok?
    requires s' == s.(balances := s.balances[voter := b],
                      votes := s.votes[(id, voter) := Vote(voter, id, support, n, s.clock)],
                      proposals := s.proposals[id := AddVote(s.proposals[id], support, n).value])
    ensures DelegationIndexed(s') && BalancesNonNegative(s') && ProposalsWellFormed(s') && VotesWellFormed(s')
  {
    hide DelegationIndexed;
    hide BalancesNonNegative;
    hide ProposalsWellFormed;
    hide VotesWellFormed;
    SameDelegation(s, s');
    OneBalance(s, s', voter, b);
    OneProposal(s, s', id, AddVote(s.proposals[id], support, n).value);
    OneVote(s, s', id, voter, Vote(voter, id, support, n, s.clock));
  }

  lemma VoteKeepsInv(s: State, id: U64, voter: Address, support: bool, n: I128)
    requires Inv(s)
    ensures Inv(CastVote(s, id, voter, support, n).state)
  {
    var r := CastVote(s, id, voter, support, n);
    if r.outcome.Ok? {
      VoteEffect(s, id, voter, support, n);
      hide CastVote;
      hide VotingPower;
      hide DelegationIndexed;
      hide ProposalsWellFormed;
      hide VotesWellFormed;
      hide TalliesMatch;
      VoteKeepsTallies(s, r.state, id, voter, support, n);
      VoteKeepsRest(s, r.state, id, voter, support, n, AfterCost(Balance(s, voter), n * n));
    }
  }

  lemma DelegateKeepsInv(s: State, delegator: Address, delegatee: Address)
    requires Inv(s)
    ensures Inv(Delegate(s, delegator, delegatee).state)
  {
    hide TalliesMatch;
    hide ProposalsWellFormed;
    hide VotesWellFormed;
    var s' := Delegate(s, delegator, delegatee).state;
    SameTallies(s, s');
    SameVotes(s, s');
    SameProposals(s, s');
    if delegator != delegatee {
      forall d | d in s'.delegateOf
        ensures d != s'.delegateOf[d] && d in DelegatorList(s', s'.delegateOf[d])
      {
        if d != delegator {
          assert d in DelegatorList(s, s.delegateOf[d]);
        }
      }
    }
  }

  lemma SameTallies(s: State, s': State)
    requires TalliesMatch(s) && s'.votes == s.votes && s'.proposals.Keys == s.proposals.Keys
    requires forall id :: id in s.proposals ==>
               && s'.proposals[id].votesFor == s.proposals[id].votesFor
               && s'.proposals[id].votesAgainst == s.proposals[id].votesAgainst
    ensures TalliesMatch(s')
  {
  }

  /** Execution and cancellation only set the flag of one proposal. */
  lemma FlagKeepsInv(s: State, s': State, id: U64)
    requires Inv(s) && id in s.proposals
    requires s' == s.(risk := s'.risk, proposals := s.proposals[id := s.proposals[id].(executed := true)])
    ensures Inv(s')
  {
    SameTallies(s, s');
    hide TalliesMatch;
    hide DelegationIndexed;
    hide ProposalsWellFormed;
    hide VotesWellFormed;
    SameDelegation(s, s');
    OneProposal(s, s', id, s.proposals[id].(executed := true));
    SameVotes(s, s');
  }

  /** Settings and the clock. */
  lemma SettingsKeepInv(s: State, s': State)
    requires Inv(s) && s'.clock >= s.clock
    requires s' == s.(config := s'.config, totalPower := s'.totalPower, clock := s'.clock)
    ensures Inv(s')
  {
    SameTallies(s, s');
    hide TalliesMatch;
    hide DelegationIndexed;
    hide VotesWellFormed;
    SameDelegation(s, s');
    SameVotes(s, s');
  }

  lemma StepKeepsInv(s: State, op: Op)
    requires Inv(s)
    ensures Inv(Step(s, op).state)
  {
    hide Inv;
    hide CreateProposal;
    hide CastVote;
    hide Delegate;
    hide VoteChecks;
    match op
    case OpInitialize =>
    case OpCreate(_, _, _, _) => CreateKeepsInv(s, op);
    case OpVote(id, voter, support, n) => VoteKeepsInv(s, id, voter, support, n);
    case OpDelegate(delegator, delegatee) => DelegateKeepsInv(s, delegator, delegatee);
    case OpExecute(id) =>
      if Execute(s, id).outcome.Ok? { FlagKeepsInv(s, Execute(s, id).state, id); }
    case OpCancel(id) =>
      if Cancel(s, id).outcome.Ok? { FlagKeepsInv(s, Cancel(s, id).state, id); }
    case OpUpdateConfig(_) => SettingsKeepInv(s, Step(s, op).state);
    case OpSetTotalPower(_) => SettingsKeepInv(s, Step(s, op).state);
    case OpTick(_) => SettingsKeepInv(s, Step(s, op).state);
  }

  /** The invariant holds in every reachable state. */
  lemma {:induction false} ReachableInv(s: State, ops: seq<Op>)
    requires Initial(s)
    ensures Inv(After(s, ops))
  {
    hide Step;
    hide Inv;
    if ops == [] {
      InitialInv(s);
    } else {
      var before := ops[..|ops| - 1];
      ReachableInv(s, before);
      StepKeepsInv(After(s, before), ops[|ops| - 1]);
    }
  }

  /** In every reachable state the delegation loop gives the documented total
      and voting power is its floor square root. */
  lemma VotingPowerReachable(s0: State, ops: seq<Op>, v: Address)
    requires Initial(s0)
    ensures var s := After(s0, ops);
            var t := Controlled(s, v);
            && 0 <= Balance(s, v) <= t
            && (if FitsI128(t) then
                  ControlledTokens(s, v) == Some(t)
                  && VotingPower(s, v).Some? && VotingPower(s, v).value >= 0
                  && IsFloorSqrt(t, VotingPower(s, v).value)
                else ControlledTokens(s, v) == None && VotingPower(s, v) == None)
  {
    hide After;
    hide Total;
    hide ISqrt;
    hide Delegated;
    ReachableInv(s0, ops);
    ScanIsControlled(After(s0, ops), v);
  }

  /** Tallies are the sums of the stored votes, and each stored vote was cast
      while voting was open. */
  lemma TalliesReachable(s0: State, ops: seq<Op>, id: U64)
    requires Initial(s0) && id in After(s0, ops).proposals
    ensures var s := After(s0, ops);
            && s.proposals[id].votesFor == Total(Ballots(s.votes, id, true)) >= 0
            && s.proposals[id].votesAgainst == Total(Ballots(s.votes, id, false)) >= 0
            && forall a :: (id, a) in s.votes ==> s.votes[(id, a)].timestamp < s.proposals[id].votingEnd
  {
    hide After;
    ReachableInv(s0, ops);
    TotalNonNegative(Ballots(After(s0, ops).votes, id, true));
    TotalNonNegative(Ballots(After(s0, ops).votes, id, false));
  }

  // ----- what never changes once written

  /** The part of a proposal that no call changes after its creation. */
  predicate SameTerms(p: Proposal, q: Proposal) {
    q == p.(votesFor := q.votesFor, votesAgainst := q.votesAgainst, executed := q.executed)
  }

  /** One step, as far as stored votes and the terms and tallies of proposal id go. */
  ghost predicate RecordsKept(s: State, s': State, id: U64)
    requires id in s.proposals
  {
    && s'.clock >= s.clock
    && (forall k :: k in s.votes ==> k in s'.votes && s'.votes[k] == s.votes[k])
    && id in s'.proposals && SameTerms(s.proposals[id], s'.proposals[id])
    && (s.clock >= s.proposals[id].votingEnd ==>
          && s'.proposals[id].votesFor == s.proposals[id].votesFor
          && s'.proposals[id].votesAgainst == s.proposals[id].votesAgainst
          && forall a :: (id, a) in s'.votes ==> (id, a) in s.votes)
  }

  /** A call that fails leaves everything as it was. */
  lemma FailedCallChangesNothing(s: State, op: Op)
    ensures Step(s, op).outcome.Err? ==> Step(s, op).state == s
  {
    hide ControlledTokens;
    hide VoteChecks;
    hide ApplyParameter;
    hide VotingPower;
    hide AddVote;
  }

  lemma NewVoteKeepsRecords(s: State, s': State, key: (U64, Address), v: Vote, p: Proposal, id: U64)
    requires id in s.proposals && key !in s.votes && key.0 in s.proposals
    requires s.clock < s.proposals[key.0].votingEnd && SameTerms(s.proposals[key.0], p)
    requires p.executed == s.proposals[key.0].executed
    requires s' == s.(balances := s'.balances, votes := s.votes[key := v], proposals := s.proposals[key.0 := p])
    ensures RecordsKept(s, s', id)
  {
    assert s'.votes == s.votes[key := v] && s'.proposals == s.proposals[key.0 := p];
  }

  lemma VoteKeepsRecords(s: State, op: Op, id: U64)
    requires op.OpVote? && Step(s, op).outcome.Ok? && id in s.proposals
    ensures RecordsKept(s, Step(s, op).state, id)
  {
    hide RecordsKept;
    hide VotingPower;
    VoteEffect(s, op.id, op.voter, op.support, op.n);
    hide CastVote;
    NewVoteKeepsRecords(s, Step(s, op).state, (op.id, op.voter), Vote(op.voter, op.id, op.support, op.n, s.clock),
                        AddVote(s.proposals[op.id], op.support, op.n).value, id);
  }

  lemma CreateKeepsRecords(s: State, op: Op, id: U64)
    requires op.OpCreate? && Step(s, op).outcome.Ok? && id in s.proposals && id < s.count
    ensures RecordsKept(s, Step(s, op).state, id)
  {
    CreateEffect(s, op);
    hide Step;
  }

  lemma StepKeepsRecords(s: State, op: Op, id: U64)
    requires ProposalsWellFormed(s) && id in s.proposals
    ensures RecordsKept(s, Step(s, op).state, id)
  {
    FailedCallChangesNothing(s, op);
    if Step(s, op).outcome.Ok? {
      hide CreateProposal;
      hide CastVote;
      hide VoteChecks;
      hide ApplyParameter;
      if op.OpVote? {
        VoteKeepsRecords(s, op, id);
      } else if op.OpCreate? {
        CreateKeepsRecords(s, op, id);
      } else {
        var s' := Step(s, op).state;
        assert s'.votes == s.votes;
      }
    } else {
      hide Step;
    }
  }

  lemma RecordsTransitive(s: State, s1: State, s2: State, id: U64)
    requires id in s.proposals && RecordsKept(s, s1, id) && RecordsKept(s1, s2, id)
    ensures RecordsKept(s, s2, id)
  {
  }

  /** Votes and proposal terms are permanent, and once the clock has reached the
      end of voting neither the tallies nor the set of votes moves again. */
  lemma {:induction false} FrozenAfterClose(s: State, ops: seq<Op>, id: U64)
    requires Inv(s) && id in s.proposals
    ensures RecordsKept(s, After(s, ops), id) && Inv(After(s, ops))
  {
    hide Step;
    if ops != [] {
      var before := ops[..|ops| - 1];
      var op := ops[|ops| - 1];
      FrozenAfterClose(s, before, id);
      StepKeepsRecords(After(s, before), op, id);
      StepKeepsInv(After(s, before), op);
      RecordsTransitive(s, After(s, before), Step(After(s, before), op).state, id);
      hide Inv;
      hide RecordsKept;
    }
  }

  // ----- execution

  /** How many calls of the run executed proposal id, and how many cancelled it. */
  function Executions(s: State, ops: seq<Op>, id: U64): nat {
    if ops == [] then 0 else
      var before := ops[..|ops| - 1];
      var op := ops[|ops| - 1];
      Executions(s, before, id)
      + if op == OpExecute(id) && Step(After(s, before), op).outcome.Ok? then 1 else 0
  }

  function Cancellations(s: State, ops: seq<Op>, id: U64): nat {
    if ops == [] then 0 else
      var before := ops[..|ops| - 1];
      var op := ops[|ops| - 1];
      Cancellations(s, before, id)
      + if op == OpCancel(id) && Step(After(s, before), op).outcome.Ok? then 1 else 0
  }

  predicate Closed(s: State, id: U64) {
    id in s.proposals && s.proposals[id].executed
  }

  /** Only an accepted execution or cancellation closes a proposal, and neither
      is accepted for a closed one. */
  lemma ClosedAfterStep(s: State, op: Op, id: U64)
    requires ProposalsWellFormed(s)
    ensures var closing := (op == OpExecute(id) || op == OpCancel(id)) && Step(s, op).outcome.Ok?;
            && (closing ==> !Closed(s, id))
            && (Closed(Step(s, op).state, id) <==> Closed(s, id) || closing)
  {
    hide ControlledTokens;
    hide VoteChecks;
    hide ApplyParameter;
    if Step(s, op).outcome.Ok? {
      match op
      case OpCreate(_, _, _, _) =>
        CreateEffect(s, op);
        hide Step;
      case OpVote(j, voter, support, n) =>
        VoteEffect(s, j, voter, support, n);
        hide CastVote;
      case _ =>
        hide CastVote;
        hide CreateProposal;
    }
  }

  /** A proposal is executed at most once or cancelled at most once, never both,
      and its flag says whether one of the two happened. */
  lemma {:induction false} ExecutedOrCancelledOnce(s0: State, ops: seq<Op>, id: U64)
    requires Initial(s0)
    ensures Executions(s0, ops, id) + Cancellations(s0, ops, id) == if Closed(After(s0, ops), id) then 1 else 0
  {
    hide Step;
    hide Initial;
    if ops == [] {
      NothingAtFirst(s0);
    } else {
      var before := ops[..|ops| - 1];
      ExecutedOrCancelledOnce(s0, before, id);
      ReachableInv(s0, before);
      ClosedAfterStep(After(s0, before), ops[|ops| - 1], id);
      hide Inv;
    }
  }

  lemma NothingAtFirst(s: State)
    requires Initial(s)
    ensures s.proposals == map[] && s.votes == map[] && s.delegateOf == map[]
  {
  }

  /** Every proposal goes back to one accepted creation, which fixed its terms
      from the configuration and the clock of that moment. */
  predicate CreatedFrom(s: State, op: Op, p: Proposal) {
    && op.OpCreate? && Step(s, op).outcome == Ok(p.id)
    && p.proposer == op.proposer && p.target == op.target
    && p.parameter == op.parameter && p.newValue == op.newValue
    && p.createdAt == s.clock
    && p.votingEnd == s.clock + s.config.votingPeriod
    && p.executionTs == p.votingEnd + s.config.timelockPeriod
  }

  lemma FirstSeen(s: State, op: Op, id: U64)
    requires id !in s.proposals && id in Step(s, op).state.proposals
    ensures CreatedFrom(s, op, Step(s, op).state.proposals[id])
  {
    hide ControlledTokens;
    hide VoteChecks;
    if op.OpCreate? && Step(s, op).outcome.Ok? {
      CreateEffect(s, op);
    }
  }

  lemma {:induction false} CreatedBy(s0: State, ops: seq<Op>, id: U64) returns (i: nat)
    requires Initial(s0) && id in After(s0, ops).proposals
    ensures i < |ops| && CreatedFrom(After(s0, ops[..i]), ops[i], After(s0, ops).proposals[id])
    ensures After(s0, ops).proposals[id].id == id
  {
    hide Step;
    NothingAtFirst(s0);
    hide Initial;
    ReachableInv(s0, ops);
    var before := ops[..|ops| - 1];
    var s := After(s0, before);
    var op := ops[|ops| - 1];
    ReachableInv(s0, before);
    if id in s.proposals {
      i := CreatedBy(s0, before, id);
      assert before[..i] == ops[..i];
      StepKeepsRecords(s, op, id);
      hide Inv;
    } else {
      i := |ops| - 1;
      FirstSeen(s, op, id);
    }
  }

  /** The vote checks, said without the code's early exits. */
  predicate MeetsThresholds(s: State, votesFor: int, votesAgainst: int) {
    var total := votesFor + votesAgainst;
    && total >= TruncDiv(s.totalPower * s.config.quorumBps, 10000)
    && votesFor >= TruncDiv(total * s.config.majorityBps, 10000)
  }

  /** What the contract checked before an accepted execution. */
  lemma ExecuteChecked(s: State, id: U64)
    requires Execute(s, id).outcome.Ok?
    ensures id in s.proposals && !s.proposals[id].executed
    ensures s.clock >= s.proposals[id].executionTs
    ensures MeetsThresholds(s, s.proposals[id].votesFor, s.proposals[id].votesAgainst)
  {
    hide ApplyParameter;
  }

  /** What an accepted execution says about the run before it. The split of the
      run into `a` and `b` is any point at which voting on the proposal was
      already over: the tallies of that point are the ones that were judged. */
  lemma ExecutionJustified(s0: State, a: seq<Op>, b: seq<Op>, id: U64)
    requires Initial(s0) && id in After(s0, a).proposals
    requires After(s0, a).clock >= After(s0, a).proposals[id].votingEnd
    requires Execute(After(s0, a + b), id).outcome.Ok?
    ensures var s := After(s0, a + b);
            var p := After(s0, a).proposals[id];
            && s.clock >= p.executionTs >= p.votingEnd
            && MeetsThresholds(s, p.votesFor, p.votesAgainst)
            && Executions(s0, a + b, id) == 0 && Cancellations(s0, a + b, id) == 0
  {
    hide After;
    hide Execute;
    hide MeetsThresholds;
    ExecuteChecked(After(s0, a + b), id);
    AfterConcat(s0, a, b);
    ReachableInv(s0, a);
    FrozenAfterClose(After(s0, a), b, id);
    ExecutedOrCancelledOnce(s0, a + b, id);
  }

  /** One field of the register by name. */
  function Field(r: RiskParameters, p: Symbol): Option<int> {
    match p
    case LiqThr => Some(r.liquidationThreshold)
    case LiqPen => Some(r.liquidationPenalty)
    case MinHf => Some(r.minHealthFactor)
    case MaxLiq => Some(r.maxLiquidationRatio)
    case GracePd => Some(r.gracePeriod)
    case LiqBon => Some(r.liquidatorBonus)
    case Other(_) => None
  }

  ghost predicate ParametersInRange(r: RiskParameters) {
    forall p: Symbol :: !p.Other? ==> Field(r, p).Some? && InRange(p, Field(r, p).value)
  }

  /** An accepted execution writes the approved value, unchanged by the cast,
      into the one field it names, and touches nothing else in any register. */
  lemma ExecutionWritesOneField(s: State, id: U64)
    requires Inv(s) && Execute(s, id).outcome.Ok?
    ensures var p := s.proposals[id];
            var s' := Execute(s, id).state;
            && p.target in s.risk && s'.risk.Keys == s.risk.Keys
            && Field(s'.risk[p.target], p.parameter) == Some(p.newValue)
            && (forall q: Symbol :: q != p.parameter ==> Field(s'.risk[p.target], q) == Field(s.risk[p.target], q))
            && (forall a :: a in s.risk && a != p.target ==> s'.risk[a] == s.risk[a])
  {
    var p := s.proposals[id];
    assert InRange(p.parameter, p.newValue);
  }

  ghost predicate RegistersInRange(s: State) {
    forall a :: a in s.risk ==> ParametersInRange(s.risk[a])
  }

  lemma OnlyExecutionWrites(s: State, op: Op)
    ensures !(op.OpExecute? && Step(s, op).outcome.Ok?) ==> Step(s, op).state.risk == s.risk
  {
    hide ControlledTokens;
    hide VotingPower;
    hide VoteChecks;
    hide AddVote;
    hide ApplyParameter;
  }

  lemma StepKeepsRange(s: State, op: Op)
    requires Inv(s) && RegistersInRange(s)
    ensures RegistersInRange(Step(s, op).state)
  {
    hide Execute;
    hide CastVote;
    hide CreateProposal;
    OnlyExecutionWrites(s, op);
    if op.OpExecute? && Step(s, op).outcome.Ok? {
      ExecuteChecked(s, op.id);
      ExecutionWritesOneField(s, op.id);
      var s' := Step(s, op).state;
      var p := s.proposals[op.id];
      assert InRange(p.parameter, p.newValue);
      forall a | a in s'.risk
        ensures ParametersInRange(s'.risk[a])
      {
        assert ParametersInRange(s.risk[a]);
      }
    }
  }

  /** Registers that start in the validated ranges stay there over every run. */
  lemma {:induction false} ParametersStayInRange(s0: State, ops: seq<Op>)
    requires Initial(s0) && RegistersInRange(s0)
    ensures RegistersInRange(After(s0, ops))
  {
    hide Step;
    hide RegistersInRange;
    hide Inv;
    if ops != [] {
      var before := ops[..|ops| - 1];
      ParametersStayInRange(s0, before);
      ReachableInv(s0, before);
      StepKeepsRange(After(s0, before), ops[|ops| - 1]);
    }
  }

  // ----- the cost of votes

  lemma WithinRoot(t: I128, n: int)
    requires 0 < n <= RootOf(t)
    ensures n * n <= t
  {
    SquareMonotone(n, RootOf(t));
  }

  /** Within the voting power, the cost of a vote is at most what the voter
      controls, so the checked multiplication never overflows. */
  lemma CostWithinControlled(s: State, voter: Address, n: I128)
    requires Inv(s) && 0 < n && VotingPower(s, voter).Some? && n <= VotingPower(s, voter).value
    ensures n * n <= Controlled(s, voter) <= MAX_I128
  {
    ScanIsControlled(s, voter);
    hide RootOf;
    hide Controlled;
    hide ControlledTokens;
    WithinRoot(Controlled(s, voter), n);
  }

  /** Hence every accepted vote was paid for by tokens its voter controls. */
  lemma VoteCostCovered(s: State, id: U64, voter: Address, support: bool, n: I128)
    requires Inv(s) && CastVote(s, id, voter, support, n).outcome.Ok?
    ensures n * n <= Controlled(s, voter) <= MAX_I128
  {
    hide Inv;
    hide Controlled;
    VoteEffect(s, id, voter, support, n);
    hide CastVote;
    hide VotingPower;
    CostWithinControlled(s, voter, n);
  }

  /** Balances never go below zero and never grow. */
  lemma {:induction false} BalancesOnlyFall(s0: State, ops: seq<Op>, a: Address)
    requires Initial(s0)
    ensures 0 <= Balance(After(s0, ops), a) <= Balance(s0, a)
  {
    hide Step;
    if ops != [] {
      var before := ops[..|ops| - 1];
      BalancesOnlyFall(s0, before, a);
      VoteFallsByCost(After(s0, before), ops[|ops| - 1], a);
    }
  }

  lemma VoteFallsByCost(s: State, op: Op, a: Address)
    ensures var s' := Step(s, op).state;
            var r := Step(s, op).outcome;
            Balance(s', a) == if op.OpVote? && op.voter == a && r.Ok?
                              then (if op.n * op.n <= Balance(s, a) then Balance(s, a) - op.n * op.n else 0)
                              else Balance(s, a)
    ensures op.OpVote? ==> op.n * op.n >= 0
  {
    hide VotingPower;
    hide AddVote;
    hide ControlledTokens;
    hide VoteChecks;
    if op.OpVote? {
      CostNonNegative(op.n);
    }
  }

  /** The cost of each vote a has cast, over all proposals. */
  function Costs(s: State, a: Address): map<(U64, Address), int> {
    map k | k in s.votes && k.1 == a :: s.votes[k].power * s.votes[k].power
  }

  lemma VotesAfterStep(s: State, op: Op)
    ensures var accepted := op.OpVote? && Step(s, op).outcome.Ok?;
            && Step(s, op).state.votes
               == (if accepted then s.votes[(op.id, op.voter) := Vote(op.voter, op.id, op.support, op.n, s.clock)]
                   else s.votes)
            && (accepted ==> (op.id, op.voter) !in s.votes)
  {
    hide ControlledTokens;
    hide VotingPower;
    hide VoteChecks;
    hide AddVote;
    hide ApplyParameter;
  }

  lemma CostsAfterStep(s: State, op: Op, a: Address)
    ensures var s' := Step(s, op).state;
            Total(Costs(s', a)) == Total(Costs(s, a))
            + if op.OpVote? && op.voter == a && Step(s, op).outcome.Ok? then op.n * op.n else 0
  {
    hide Total;
    var s' := Step(s, op).state;
    VotesAfterStep(s, op);
    if op.OpVote? && Step(s, op).outcome.Ok? {
      hide Step;
      var v := Vote(op.voter, op.id, op.support, op.n, s.clock);
      CostsAfterVote(s, s', (op.id, op.voter), v, a);
    } else {
      hide Step;
      assert Costs(s', a) == Costs(s, a);
    }
  }

  lemma CostsAfterVote(s: State, s': State, key: (U64, Address), v: Vote, a: Address)
    requires key !in s.votes && s'.votes == s.votes[key := v]
    ensures Total(Costs(s', a)) == Total(Costs(s, a)) + if key.1 == a then v.power * v.power else 0
  {
    hide Total;
    if key.1 == a {
      assert Costs(s', a) == Costs(s, a)[key := v.power * v.power];
      TotalInsert(Costs(s, a), key, v.power * v.power);
    } else {
      assert Costs(s', a) == Costs(s, a);
    }
  }

  /** No voter loses more than its votes cost. */
  lemma {:induction false} SpentAtMostCosts(s0: State, ops: seq<Op>, a: Address)
    requires Initial(s0)
    ensures Balance(s0, a) <= Balance(After(s0, ops), a) + Total(Costs(After(s0, ops), a))
  {
    hide Step;
    if ops == [] {
      assert Costs(s0, a) == map[];
    } else {
      var before := ops[..|ops| - 1];
      SpentAtMostCosts(s0, before, a);
      VoteFallsByCost(After(s0, before), ops[|ops| - 1], a);
      CostsAfterStep(After(s0, before), ops[|ops| - 1], a);
    }
  }

  /** Nobody ever names v as delegate during the run. */
  predicate NeverDelegatedTo(ops: seq<Op>, v: Address) {
    forall i :: 0 <= i < |ops| && ops[i].OpDelegate? ==> ops[i].delegatee != v
  }

  predicate NobodyDelegatesTo(s: State, v: Address) {
    forall d :: d in s.delegateOf ==> s.delegateOf[d] != v
  }

  lemma StaysAloneStep(s: State, op: Op, v: Address)
    requires NobodyDelegatesTo(s, v) && (op.OpDelegate? ==> op.delegatee != v)
    ensures NobodyDelegatesTo(Step(s, op).state, v)
  {
    hide ControlledTokens;
    hide VotingPower;
    hide AddVote;
    hide VoteChecks;
    hide ApplyParameter;
  }

  lemma {:induction false} StaysAlone(s0: State, ops: seq<Op>, v: Address)
    requires Initial(s0) && NeverDelegatedTo(ops, v)
    ensures NobodyDelegatesTo(After(s0, ops), v)
  {
    hide Step;
    if ops != [] {
      var before := ops[..|ops| - 1];
      StaysAlone(s0, before, v);
      StaysAloneStep(After(s0, before), ops[|ops| - 1], v);
    }
  }

  /** For a voter nobody delegates to, tokens are conserved: what it started with
      is what it has plus the squares of all its votes on all proposals. */
  lemma {:induction false} LoneVoterConservation(s0: State, ops: seq<Op>, v: Address)
    requires Initial(s0) && NeverDelegatedTo(ops, v)
    ensures Balance(s0, v) == Balance(After(s0, ops), v) + Total(Costs(After(s0, ops), v))
  {
    hide Step;
    hide Total;
    EmptyTotal<(U64, Address)>();
    if ops == [] {
      assert Costs(s0, v) == map[];
    } else {
      var before := ops[..|ops| - 1];
      var op := ops[|ops| - 1];
      var s := After(s0, before);
      LoneVoterConservation(s0, before, v);
      VoteFallsByCost(s, op, v);
      CostsAfterStep(s, op, v);
      if op.OpVote? && op.voter == v && Step(s, op).outcome.Ok? {
        StepIsVote(s, op);
        LoneVoterPaysInFull(s0, before, op.id, v, op.support, op.n);
      }
    }
  }

  lemma StepIsVote(s: State, op: Op)
    requires op.OpVote?
    ensures Step(s, op) == CastVote(s, op.id, op.voter, op.support, op.n)
  {
  }

  /** The branch that sets a balance to zero is out of reach for such a voter. */
  lemma LoneVoterPaysInFull(s0: State, ops: seq<Op>, id: U64, v: Address, support: bool, n: I128)
    requires Initial(s0) && NeverDelegatedTo(ops, v)
    requires CastVote(After(s0, ops), id, v, support, n).outcome.Ok?
    ensures n * n <= Balance(After(s0, ops), v)
  {
    hide After;
    hide CastVote;
    hide Inv;
    ReachableInv(s0, ops);
    StaysAlone(s0, ops, v);
    VoteCostCovered(After(s0, ops), id, v, support, n);
    assert Delegated(After(s0, ops), v) == map[];
  }

  // ----- the three deciders

  /** The products and sums that the decision needs, in the order it needs them,
      do not all fit an i128. */
  predicate Overflows(s: State, p: Proposal) {
    var total := p.votesFor + p.votesAgainst;
    var quorum := s.totalPower * s.config.quorumBps;
    || !FitsI128(total)
    || !FitsI128(quorum)
    || (total >= TruncDiv(quorum, 10000) && !FitsI128(total * s.config.majorityBps))
  }

  /** When nothing overflows, `has_proposal_passed` and the checks of
      `execute_proposal` both decide exactly the documented thresholds; when
      something does, both refuse with the same error. */
  lemma ChecksAgree(s: State, id: U64)
    requires id in s.proposals
    ensures var p := s.proposals[id];
            && (Overflows(s, p) <==> HasPassed(s, id).Err?)
            && (Overflows(s, p) <==> VoteChecks(s, p) == Err(MathOverflow))
            && (HasPassed(s, id) == Ok(true) <==> VoteChecks(s, p) == Ok(()))
            && (!Overflows(s, p) ==>
                  (HasPassed(s, id) == Ok(true) <==> MeetsThresholds(s, p.votesFor, p.votesAgainst)))
  {
  }

  /** The proposal is open and its tally window is over. */
  predicate Settled(s: State, p: Proposal) {
    && !p.executed && FitsU64(p.votingEnd + s.config.tallyPeriod)
    && s.clock >= p.votingEnd + s.config.tallyPeriod
  }

  /** The overflows that the status page turns into a success. */
  predicate ShownAsSuccess(s: State, p: Proposal) {
    var total := p.votesFor + p.votesAgainst;
    var quorum := s.totalPower * s.config.quorumBps;
    var majority := total * s.config.majorityBps;
    if !FitsI128(total) then !FitsI128(quorum) || TruncDiv(quorum, 10000) <= 0
    else if !FitsI128(quorum) then !FitsI128(majority) || p.votesFor >= TruncDiv(majority, 10000)
    else total >= TruncDiv(quorum, 10000) && !FitsI128(majority)
  }

  /** For a settled proposal with non-negative tallies, the status agrees with
      `has_proposal_passed` except on exactly one family of overflows, where the
      status shows a success that can never be executed. */
  lemma StatusAgreesUnlessOverflow(s: State, id: U64)
    requires id in s.proposals && Settled(s, s.proposals[id])
    requires s.proposals[id].votesFor >= 0 && s.proposals[id].votesAgainst >= 0
    ensures (Status(s, id) == Ok(Succeeded) <==> HasPassed(s, id) == Ok(true))
            <==> !ShownAsSuccess(s, s.proposals[id])
    ensures ShownAsSuccess(s, s.proposals[id]) ==>
              Status(s, id) == Ok(Succeeded) && Execute(s, id).outcome.Err?
    ensures ShownAsSuccess(s, s.proposals[id]) ==> Overflows(s, s.proposals[id])
  {
    var p := s.proposals[id];
    if !FitsI128(p.votesFor + p.votesAgainst) {
      assert Share(0, s.config.majorityBps) == Some(0);
    }
  }

  /** Such a proposal is within reach: an administrator stores a total power whose
      product with the quorum share leaves the i128 range. */
  lemma StatusCanMislead() returns (s0: State, ops: seq<Op>)
    ensures Initial(s0) && 0 in After(s0, ops).proposals
    ensures Settled(After(s0, ops), After(s0, ops).proposals[0])
    ensures Status(After(s0, ops), 0) == Ok(Succeeded)
    ensures Execute(After(s0, ops), 0).outcome == Err(MathOverflow)
  {
    s0 := State(DEFAULT_CONFIG, 0, DEFAULT_TOTAL_POWER, map[7 := 2000], map[], map[], map[], map[], map[], 0);
    var create, power, tick := OpCreate(7, 9, LiqThr, 8000), OpSetTotalPower(MAX_I128), OpTick(700000);
    ops := [create] + [power] + [tick];
    AfterOne(s0, create);
    AfterConcat(s0, [create], [power]);
    AfterOne(After(s0, [create]), power);
    AfterConcat(s0, [create] + [power], [tick]);
    AfterOne(After(s0, [create] + [power]), tick);
    hide After;
    ExampleCreated(s0, create);
    var s := s0.(count := 1, proposals := map[0 := ExampleProposal()], totalPower := MAX_I128, clock := 700000);
    assert After(s0, ops) == s;
    ExampleMisleads(s);
  }

  function ExampleProposal(): Proposal {
    Proposal(0, 7, 9, LiqThr, 8000, 604800, 0, 0, false, 691200, 0)
  }

  lemma ExampleCreated(s: State, op: Op)
    requires op == OpCreate(7, 9, LiqThr, 8000)
    requires s == State(DEFAULT_CONFIG, 0, DEFAULT_TOTAL_POWER, map[7 := 2000], map[], map[], map[], map[], map[], 0)
    ensures Step(s, op).state == s.(count := 1, proposals := map[0 := ExampleProposal()])
  {
    assert ControlledTokens(s, 7) == Some(2000);
    hide ControlledTokens;
  }

  lemma ExampleMisleads(s: State)
    requires s.config == DEFAULT_CONFIG && s.totalPower == MAX_I128 && s.clock == 700000
    requires 0 in s.proposals && s.proposals[0] == ExampleProposal()
    ensures Settled(s, s.proposals[0]) && Status(s, 0) == Ok(Succeeded)
    ensures Execute(s, 0).outcome == Err(MathOverflow)
  {
    var p := ExampleProposal();
    ExampleShares();
    hide TotalVotes;
    hide Share;
    ExampleChecked(s, p);
    hide VoteChecks;
  }

  lemma ExampleShares()
    ensures TotalVotes(ExampleProposal()) == Some(0)
    ensures Share(MAX_I128, 1000) == None && Share(0, 5000) == Some(0)
  {
  }

  lemma ExampleChecked(s: State, p: Proposal)
    requires TotalVotes(p) == Some(0) && Share(s.totalPower, s.config.quorumBps) == None
    ensures VoteChecks(s, p) == Err(MathOverflow)
  {
  }

  lemma AfterOne(s: State, op: Op)
    ensures After(s, [op]) == Step(s, op).state
  {
    assert [op][..0] == [];
    assert After(s, [op][..0]) == s;
  }

  lemma ShareGrowsSlower(x: nat, y: nat, more: nat)
    requires y <= more * 10000
    ensures TruncDiv(x + y, 10000) <= TruncDiv(x, 10000) + more
  {
  }

  lemma MajorityGrowsSlower(total: nat, more: nat, bps: nat)
    requires bps <= 10000
    ensures TruncDiv((total + more) * bps, 10000) <= TruncDiv(total * bps, 10000) + more
  {
    assert (total + more) * bps == total * bps + more * bps;
    assert more * bps <= more * 10000;
    ShareGrowsSlower(total * bps, more * bps, more);
  }

  lemma MoreSupportMeets(s: State, votesFor: int, votesAgainst: int, more: nat)
    requires votesFor >= 0 && votesAgainst >= 0 && s.config.majorityBps <= 10000
    requires MeetsThresholds(s, votesFor, votesAgainst)
    ensures MeetsThresholds(s, votesFor + more, votesAgainst)
  {
    hide TruncDiv;
    MajorityGrowsSlower(votesFor + votesAgainst, more, s.config.majorityBps);
    assert votesFor + more + votesAgainst == votesFor + votesAgainst + more;
  }

  /** The proposal with more support. */
  function Supported(s: State, id: U64, more: nat): State
    requires id in s.proposals && FitsI128(s.proposals[id].votesFor + more)
  {
    s.(proposals := s.proposals[id := s.proposals[id].(votesFor := s.proposals[id].votesFor + more)])
  }

  /** With a majority share of at most 100%, more supporting votes never turn a passed
      proposal into a failed one: it still passes, for both deciders, unless a product
      leaves the i128 range, and then both say so. */
  lemma MoreSupportStillPasses(s: State, id: U64, more: nat)
    requires id in s.proposals && FitsI128(s.proposals[id].votesFor + more)
    requires s.proposals[id].votesFor >= 0 && s.proposals[id].votesAgainst >= 0 && s.config.majorityBps <= 10000
    requires HasPassed(s, id) == Ok(true)
    ensures var s' := Supported(s, id, more);
            var over := Overflows(s', s'.proposals[id]);
            && HasPassed(s', id) == (if over then Err(MathOverflow) else Ok(true))
            && VoteChecks(s', s'.proposals[id]) == (if over then Err(MathOverflow) else Ok(()))
  {
    var s' := Supported(s, id, more);
    var p := s.proposals[id];
    ChecksAgree(s, id);
    ChecksAgree(s', id);
    if HasPassed(s', id).Err? {
      OverflowIsOverflow(s', id);
    }
    MoreSupportMeets(s, p.votesFor, p.votesAgainst, more);
    assert MeetsThresholds(s', p.votesFor + more, p.votesAgainst);
    hide HasPassed;
    hide VoteChecks;
    hide Overflows;
    hide MeetsThresholds;
  }

  lemma OverflowIsOverflow(s: State, id: U64)
    requires id in s.proposals && HasPassed(s, id).Err?
    ensures HasPassed(s, id) == Err(MathOverflow)
  {
  }
}
