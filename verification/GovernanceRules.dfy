/** When the governance contract accepts a call: exactly under the documented rules,
    in every reachable state. The rules speak of the tokens an address controls and
    of squares, never of the delegation loop or the square root. */
module GovernanceRules {
  import opened MachineInts
  import opened Newton
  import opened Sums
  import opened Governance
  import opened GovernanceRuns

  /** A share of voting power n is within reach exactly when its cost n * n is covered. */
  lemma RootCovers(t: I128, n: int)
    requires t >= 0 && n > 0
    ensures n <= RootOf(t) <==> n * n <= t
  {
    if n <= RootOf(t) {
      WithinRoot(t, n);
    } else {
      SquareMonotone(RootOf(t) + 1, n);
    }
  }

  /** A vote is accepted exactly when it is a first vote, cast in time, whose squared
      cost the voter's controlled tokens cover (and no sum leaves the i128 range). */
  lemma VoteAcceptedExactly(s0: State, ops: seq<Op>, id: U64, voter: Address, support: bool, n: I128)
    requires Initial(s0)
    ensures var s := After(s0, ops);
            CastVote(s, id, voter, support, n).outcome.Ok?
            <==> && n > 0 && id in s.proposals && s.clock < s.proposals[id].votingEnd
                 && (id, voter) !in s.votes
                 && n * n <= Controlled(s, voter) && FitsI128(Controlled(s, voter))
                 && FitsI128(n + if support then s.proposals[id].votesFor else s.proposals[id].votesAgainst)
  {
    hide After;
    hide Inv;
    hide Controlled;
    hide CastVote;
    hide ControlledTokens;
    hide VotingPower;
    hide RootOf;
    hide Initial;
    hide InRange;
    PowerOf(s0, ops, voter);
    VoteAccepted(After(s0, ops), id, voter, support, n, Controlled(After(s0, ops), voter));
  }

  lemma VoteAccepted(s: State, id: U64, voter: Address, support: bool, n: I128, tokens: nat)
    requires VotingPower(s, voter) == if FitsI128(tokens) then Some(RootOf(tokens)) else None
    ensures CastVote(s, id, voter, support, n).outcome.Ok?
            <==> && n > 0 && id in s.proposals && s.clock < s.proposals[id].votingEnd
                 && (id, voter) !in s.votes && n * n <= tokens && FitsI128(tokens)
                 && FitsI128(n + if support then s.proposals[id].votesFor else s.proposals[id].votesAgainst)
  {
    hide VotingPower;
    if n > 0 && FitsI128(tokens) {
      RootCovers(tokens, n);
    }
    hide RootOf;
    hide Balance;
  }

  /** What an address controls in a reachable state, and the power that gives it. */
  lemma PowerOf(s0: State, ops: seq<Op>, v: Address)
    requires Initial(s0)
    ensures var s := After(s0, ops);
            var tokens := Controlled(s, v);
            && tokens >= 0
            && ControlledTokens(s, v) == (if FitsI128(tokens) then Some(tokens) else None)
            && VotingPower(s, v) == (if FitsI128(tokens) then Some(RootOf(tokens)) else None)
  {
    var s := After(s0, ops);
    ReachableInv(s0, ops);
    hide After;
    hide TalliesMatch;
    ScanIsControlled(s, v);
    assert Balance(s, v) >= 0;
    hide Inv;
    hide Controlled;
    hide ControlledTokens;
    hide RootOf;
  }

  /** A proposal is accepted exactly from an address that controls enough tokens, for a
      known parameter and a value in its range. */
  lemma ProposalAcceptedExactly(s0: State, ops: seq<Op>, proposer: Address, target: Address, p: Symbol, v: I128)
    requires Initial(s0)
    ensures var s := After(s0, ops);
            CreateProposal(s, proposer, target, p, v).outcome.Ok?
            <==> && FitsI128(Controlled(s, proposer)) && Controlled(s, proposer) >= s.config.minVotingPower
                 && InRange(p, v) && FitsU64(s.count + 1)
                 && FitsU64(s.clock + s.config.votingPeriod + s.config.timelockPeriod)
  {
    hide After;
    hide Inv;
    hide Controlled;
    hide CreateProposal;
    hide ControlledTokens;
    hide VotingPower;
    hide RootOf;
    hide Initial;
    hide InRange;
    PowerOf(s0, ops, proposer);
    ProposalAccepted(After(s0, ops), proposer, target, p, v, Controlled(After(s0, ops), proposer));
  }

  lemma ProposalAccepted(s: State, proposer: Address, target: Address, p: Symbol, v: I128, tokens: nat)
    requires ControlledTokens(s, proposer) == if FitsI128(tokens) then Some(tokens) else None
    ensures CreateProposal(s, proposer, target, p, v).outcome.Ok?
            <==> && FitsI128(tokens) && tokens >= s.config.minVotingPower
                 && InRange(p, v) && FitsU64(s.count + 1)
                 && FitsU64(s.clock + s.config.votingPeriod + s.config.timelockPeriod)
  {
    hide ControlledTokens;
  }

  /** A proposal is executed exactly when it is open, its timelock is over, its target
      exists, and its tallies meet the thresholds without an overflow. */
  lemma ExecutionAcceptedExactly(s: State, id: U64)
    requires ProposalsWellFormed(s)
    ensures Execute(s, id).outcome.Ok?
            <==> && id in s.proposals && !Closed(s, id)
                 && s.clock >= s.proposals[id].executionTs && s.proposals[id].target in s.risk
                 && !Overflows(s, s.proposals[id])
                 && MeetsThresholds(s, s.proposals[id].votesFor, s.proposals[id].votesAgainst)
  {
    if id in s.proposals {
      ChecksAgree(s, id);
    }
    hide VoteChecks;
    hide HasPassed;
    hide Overflows;
    hide MeetsThresholds;
    hide ApplyParameter;
  }

  /** A delegation moves the delegator's balance from the tokens its old delegate
      controls to those the new one does, and changes what nobody else controls. */
  lemma DelegationMoves(s: State, d: Address, v: Address, w: Address)
    requires d != v
    ensures var s' := Delegate(s, d, v).state;
            && Delegate(s, d, v).outcome.Ok?
            && Controlled(s', w) == Controlled(s, w)
                                    - (if DelegatesTo(s, d, w) then Balance(s, d) else 0)
                                    + (if w == v then Balance(s, d) else 0)
  {
    var s' := Delegate(s, d, v).state;
    var before: map<Address, int>, after: map<Address, int> := Delegated(s, w), Delegated(s', w);
    if DelegatesTo(s, d, w) {
      TotalRemove(before, d);
    }
    assert before - {d} == after - {d};
    assert d !in before ==> before - {d} == before;
    assert d !in after ==> after - {d} == after;
    if w == v {
      assert d in after && after[d] == Balance(s, d);
      TotalRemove(after, d);
    }
    hide Total;
  }

  /** From s to s', d's balance left what its old delegate controls for what v does, and
      what anybody else controls stayed. */
  ghost predicate MovesTokens(s: State, s': State, d: Address, v: Address) {
    forall w :: Controlled(s', w) == Controlled(s, w)
                                     - (if DelegatesTo(s, d, w) then Balance(s, d) else 0)
                                     + (if w == v then Balance(s, d) else 0)
  }

  lemma DelegationMovesTokens(s: State, d: Address, v: Address)
    requires d != v
    ensures MovesTokens(s, Delegate(s, d, v).state, d, v)
  {
    hide Controlled;
    forall w
      ensures var s' := Delegate(s, d, v).state;
              Controlled(s', w) == Controlled(s, w)
                                   - (if DelegatesTo(s, d, w) then Balance(s, d) else 0)
                                   + (if w == v then Balance(s, d) else 0)
    {
      DelegationMoves(s, d, v, w);
    }
  }

  // ----- votes that nobody paid for

  /** An accepted vote of a that costs more than a's own balance: the branch that sets the
      balance to zero. */
  predicate Overdraws(s: State, op: Op, a: Address) {
    op.OpVote? && op.voter == a && Step(s, op).outcome.Ok? && op.n * op.n > Balance(s, a)
  }

  predicate Overdrew(s0: State, ops: seq<Op>, a: Address) {
    exists i :: 0 <= i < |ops| && Overdraws(After(s0, ops[..i]), ops[i], a)
  }

  /** The part of a's votes' costs that went beyond a's own balance at the time, which the
      contract takes from nobody. */
  function Unpaid(s0: State, ops: seq<Op>, a: Address): int {
    if ops == [] then 0 else
      var s, op := After(s0, ops[..|ops| - 1]), ops[|ops| - 1];
      Unpaid(s0, ops[..|ops| - 1], a) + if Overdraws(s, op, a) then op.n * op.n - Balance(s, a) else 0
  }

  /** Tokens and votes balance for every voter, delegates included: what it started with
      and what nobody paid is what it has left and the squares of all its votes. */
  lemma {:induction false} CostsAccounted(s0: State, ops: seq<Op>, a: Address)
    requires Initial(s0)
    ensures Balance(s0, a) + Unpaid(s0, ops, a) == Balance(After(s0, ops), a) + Total(Costs(After(s0, ops), a))
  {
    hide Step;
    hide Balance;
    if ops == [] {
      NothingAtFirst(s0);
      EmptyTotal<(U64, Address)>();
    } else {
      hide Initial;
      var s, op := After(s0, ops[..|ops| - 1]), ops[|ops| - 1];
      CostsAccounted(s0, ops[..|ops| - 1], a);
      VoteFallsByCost(s, op, a);
      CostsAfterStep(s, op, a);
      hide Costs;
      hide Total;
    }
  }

  lemma OverdrewStep(s0: State, ops: seq<Op>, a: Address)
    requires ops != []
    ensures var n := |ops| - 1;
            Overdrew(s0, ops, a) <==> Overdrew(s0, ops[..n], a) || Overdraws(After(s0, ops[..n]), ops[n], a)
  {
    hide Overdraws;
    hide After;
    var n := |ops| - 1;
    assert ops[..n] + [ops[n]] == ops;
    assert forall i :: 0 <= i < n ==> ops[..n][..i] == ops[..i] && ops[..n][i] == ops[i];
    if i :| 0 <= i < n && Overdraws(After(s0, ops[..n][..i]), ops[..n][i], a) {
      assert Overdraws(After(s0, ops[..i]), ops[i], a);
    }
    if i :| 0 <= i < n && Overdraws(After(s0, ops[..i]), ops[i], a) {
      assert Overdraws(After(s0, ops[..n][..i]), ops[..n][i], a);
    }
  }

  /** Something goes unpaid exactly by an overdraft, and after one the balance is zero for good. */
  lemma {:induction false} UnpaidByOverdraft(s0: State, ops: seq<Op>, a: Address)
    requires Initial(s0)
    ensures Unpaid(s0, ops, a) >= 0
    ensures Unpaid(s0, ops, a) > 0 <==> Overdrew(s0, ops, a)
    ensures Overdrew(s0, ops, a) ==> Balance(After(s0, ops), a) == 0
  {
    if ops != [] {
      hide Initial;
      var n := |ops| - 1;
      UnpaidByOverdraft(s0, ops[..n], a);
      OverdrewStep(s0, ops, a);
      BalancesOnlyFall(s0, ops[..n], a);
      VoteFallsByCost(After(s0, ops[..n]), ops[n], a);
      hide Step;
      hide Balance;
      hide Overdrew;
    }
  }

  /** A voter's squared votes exceed the tokens it started with exactly when some accepted
      vote of its cost more than the balance it then had; and exactly when none did, its
      tokens are what it has left and the squares of its votes. */
  lemma OverspentExactly(s0: State, ops: seq<Op>, a: Address)
    requires Initial(s0)
    ensures Total(Costs(After(s0, ops), a)) > Balance(s0, a) <==> Overdrew(s0, ops, a)
    ensures Balance(s0, a) == Balance(After(s0, ops), a) + Total(Costs(After(s0, ops), a)) <==> !Overdrew(s0, ops, a)
  {
    CostsAccounted(s0, ops, a);
    UnpaidByOverdraft(s0, ops, a);
    BalancesOnlyFall(s0, ops, a);
    hide *;
  }

  // ----- the votes of a set of voters

  /** The cost of each vote that the given voters have cast. */
  function CostsOfAll(s: State, vs: set<Address>): map<(U64, Address), int> {
    map k | k in s.votes && k.1 in vs :: s.votes[k].power * s.votes[k].power
  }

  /** The same on one proposal. */
  function CostsOn(s: State, id: U64, vs: set<Address>): map<(U64, Address), int> {
    map k | k in s.votes && k.0 == id && k.1 in vs :: s.votes[k].power * s.votes[k].power
  }

  function Tokens(s: State, vs: set<Address>): map<Address, int> {
    map v | v in vs :: Balance(s, v)
  }

  lemma OneMoreVoter(s: State, vs: set<Address>, v: Address)
    requires v in vs
    ensures Total(CostsOfAll(s, vs)) == Total(CostsOfAll(s, vs - {v})) + Total(Costs(s, v))
    ensures Total(Tokens(s, vs)) == Total(Tokens(s, vs - {v})) + Balance(s, v)
  {
    hide Total;
    assert CostsOfAll(s, vs) == CostsOfAll(s, vs - {v}) + Costs(s, v);
    TotalUnion(CostsOfAll(s, vs - {v}), Costs(s, v));
    TotalRemove(Tokens(s, vs), v);
    assert Tokens(s, vs) - {v} == Tokens(s, vs - {v});
  }

  predicate NobodyOverdrew(s0: State, ops: seq<Op>, vs: set<Address>) {
    forall v :: v in vs ==> !Overdrew(s0, ops, v)
  }

  /** The tokens of any set of voters never exceed what they have left and the squares of
      all their votes, and are exactly that exactly when none of them overdrew. */
  lemma {:induction false} VotersAccounted(s0: State, ops: seq<Op>, vs: set<Address>)
    requires Initial(s0)
    ensures var spent := Total(Tokens(After(s0, ops), vs)) + Total(CostsOfAll(After(s0, ops), vs));
            && Total(Tokens(s0, vs)) <= spent
            && (Total(Tokens(s0, vs)) == spent <==> NobodyOverdrew(s0, ops, vs))
    decreases vs
  {
    hide Overdrew;
    if vs == {} {
      NoVoters(s0, After(s0, ops));
    } else {
      var v :| v in vs;
      assert NobodyOverdrew(s0, ops, vs) <==> NobodyOverdrew(s0, ops, vs - {v}) && !Overdrew(s0, ops, v);
      VotersAccounted(s0, ops, vs - {v});
      OneMoreVoter(s0, vs, v);
      OneMoreVoter(After(s0, ops), vs, v);
      SpentAtMostCosts(s0, ops, v);
      OverspentExactly(s0, ops, v);
      hide *;
    }
  }

  lemma NoVoters(s0: State, s: State)
    ensures Total(Tokens(s0, {})) == Total(Tokens(s, {})) == Total(CostsOfAll(s, {})) == 0
  {
    assert Tokens(s0, {}) == Tokens(s, {}) == map[] && CostsOfAll(s, {}) == map[];
    EmptyTotal<Address>();
    EmptyTotal<(U64, Address)>();
  }

  /** Every group among the voters has cast squares within its tokens. */
  ghost predicate GroupsWithinTokens(s0: State, s: State, vs: set<Address>) {
    forall ws :: ws <= vs ==> Total(CostsOfAll(s, ws)) <= Total(Tokens(s0, ws))
  }

  lemma TokensNonNegative(s0: State, ops: seq<Op>, vs: set<Address>)
    requires Initial(s0)
    ensures Total(Tokens(After(s0, ops), vs)) >= 0
  {
    var s := After(s0, ops);
    forall v | v in vs
      ensures Balance(s, v) >= 0
    {
      BalancesOnlyFall(s0, ops, v);
    }
    hide After;
    TotalNonNegative(Tokens(s, vs));
  }

  /** Every group among some voters keeps its squared votes within its tokens exactly when
      none of the voters overdrew. */
  lemma GroupsExactly(s0: State, ops: seq<Op>, vs: set<Address>)
    requires Initial(s0)
    ensures GroupsWithinTokens(s0, After(s0, ops), vs) <==> NobodyOverdrew(s0, ops, vs)
  {
    var s := After(s0, ops);
    hide Overdrew;
    hide Total;
    hide After;
    if NobodyOverdrew(s0, ops, vs) {
      forall ws | ws <= vs
        ensures Total(CostsOfAll(s, ws)) <= Total(Tokens(s0, ws))
      {
        VotersAccounted(s0, ops, ws);
        TokensNonNegative(s0, ops, ws);
      }
    } else {
      var v :| v in vs && Overdrew(s0, ops, v);
      OverspentExactly(s0, ops, v);
      OneMoreVoter(s, {v}, v);
      OneMoreVoter(s0, {v}, v);
      assert {v} - {v} == {};
      NoVoters(s0, s);
      assert {v} <= vs;
    }
  }

  /** On every proposal the squares of any voters stay within the tokens these started with,
      unless one of them overdrew. */
  lemma ProposalWithinTokens(s0: State, ops: seq<Op>, id: U64, vs: set<Address>)
    requires Initial(s0) && NobodyOverdrew(s0, ops, vs)
    ensures Total(CostsOn(After(s0, ops), id, vs)) <= Total(Tokens(s0, vs))
  {
    var s := After(s0, ops);
    GroupsExactly(s0, ops, vs);
    hide Total;
    hide After;
    assert vs <= vs;
    forall k | k in CostsOfAll(s, vs)
      ensures CostsOfAll(s, vs)[k] >= 0
    {
      CostNonNegative(s.votes[k].power);
    }
    TotalSubmap(CostsOn(s, id, vs), CostsOfAll(s, vs));
  }

  /** Delegated tokens can stand behind two votes on one proposal: the delegate votes with
      them, and then their owner does. The squares exceed the tokens of both together. */
  lemma DelegatedTokensVoteTwice() returns (s0: State, ops: seq<Op>)
    ensures Initial(s0)
    ensures var s := After(s0, ops);
            && (0, 1) in s.votes && (0, 2) in s.votes
            && s.votes[(0, 1)].power * s.votes[(0, 1)].power + s.votes[(0, 2)].power * s.votes[(0, 2)].power
               > Balance(s0, 1) + Balance(s0, 2)
  {
    s0 := State(DEFAULT_CONFIG, 0, DEFAULT_TOTAL_POWER, map[7 := 2000], map[], map[], map[], map[], map[], 0);
    var create, delegate := OpCreate(7, 9, LiqThr, 8000), OpDelegate(2, 1);
    var first, second := OpVote(0, 1, true, 14), OpVote(0, 2, true, 10);
    ops := [create] + [delegate] + [first] + [second];
    assert Initial(s0) && Balance(s0, 1) == Balance(s0, 2) == 100;
    hide *;
    AfterOne(s0, create);
    AfterConcat(s0, [create], [delegate]);
    AfterOne(After(s0, [create]), delegate);
    AfterConcat(s0, [create] + [delegate], [first]);
    AfterOne(After(s0, [create] + [delegate]), first);
    AfterConcat(s0, [create] + [delegate] + [first], [second]);
    AfterOne(After(s0, [create] + [delegate] + [first]), second);
    ExampleCreated(s0, create);
    var s1 := s0.(count := 1, proposals := map[0 := ExampleProposal()]);
    var s2 := Step(s1, delegate).state;
    var s3 := Step(s2, first).state;
    ExampleDelegated(s1);
    StepIsVote(s2, first);
    StepIsVote(s3, second);
    FirstVote(s0, [create] + [delegate], s1, s2);
    SecondVote(s0, [create] + [delegate] + [first], s2, s3);
  }

  lemma ExampleDelegated(s: State)
    requires s.delegateOf == map[] && s.delegators == map[]
    ensures Step(s, OpDelegate(2, 1)).state == Delegate(s, 2, 1).state
    ensures Delegate(s, 2, 1).state == s.(delegateOf := map[2 := 1], delegators := map[1 := [2]])
  {
    var s' := Delegate(s, 2, 1).state;
    assert s'.delegators[1] == [2];
    assert s'.delegators == map[1 := [2]] && s'.delegateOf == map[2 := 1];
  }

  lemma FirstVote(s0: State, ops: seq<Op>, s1: State, s: State)
    requires Initial(s0) && s == After(s0, ops) && s.clock == 0 && s.votes == map[] && s.balances == map[7 := 2000]
    requires s.proposals == map[0 := ExampleProposal()]
    requires s1.delegateOf == map[] && s1.balances == s.balances && s == Delegate(s1, 2, 1).state
    ensures CastVote(s, 0, 1, true, 14).outcome.Ok?
  {
    VoteAcceptedExactly(s0, ops, 0, 1, true, 14);
    DelegationMoves(s1, 2, 1, 1);
    assert Delegated(s1, 1) == map[];
    EmptyTotal<Address>();
    hide After;
    hide CastVote;
  }

  lemma SecondVote(s0: State, ops: seq<Op>, before: State, s: State)
    requires Initial(s0) && s == After(s0, ops) && before.clock == 0 && before.votes == map[]
    requires before.balances == map[7 := 2000] && before.proposals == map[0 := ExampleProposal()] && before.delegateOf == map[2 := 1]
    requires CastVote(before, 0, 1, true, 14).outcome.Ok? && s == CastVote(before, 0, 1, true, 14).state
    ensures s.votes == map[(0, 1) := Vote(1, 0, true, 14, 0)]
    ensures var r := CastVote(s, 0, 2, true, 10);
            r.outcome.Ok? && r.state.votes == s.votes[(0, 2) := Vote(2, 0, true, 10, 0)]
  {
    VoteEffect(before, 0, 1, true, 14);
    VoteAcceptedExactly(s0, ops, 0, 2, true, 10);
    hide CastVote;
    hide After;
    assert Delegated(s, 2) == map[];
    EmptyTotal<Address>();
    assert CastVote(s, 0, 2, true, 10).outcome.Ok?;
    VoteEffect(s, 0, 2, true, 10);
  }
}
