/** When the example contract accepts a proposal, a vote and an execution, and what every
    run makes of its proposals, locks and settings. */
module QuadraticRules {
  import opened MachineInts
  import opened Newton
  import opened QuadraticVote

  // ----- proposals

  /** The accepted call that a proposal goes back to fixed its terms and its end. */
  predicate ProposedBy(s: State, op: Op, p: Proposal) {
    && op.OpPropose? && Step(s, op).outcome == Ok(p.id)
    && p.proposer == op.proposer && p.title == op.title && p.desc == op.desc && p.action == op.action
    && p.endTime == s.clock + op.duration
  }

  lemma StepKeepsTerms(s: State, op: Op, id: U64)
    requires Inv(s) && id in s.proposals
    ensures id in Step(s, op).state.proposals
    ensures var p, q := s.proposals[id], Step(s, op).state.proposals[id];
            && q == p.(voteCount := q.voteCount, executed := q.executed)
            && (q.executed <==> p.executed || (op == OpExecute(id) && Step(s, op).outcome.Ok?))
            && (op == OpExecute(id) && Step(s, op).outcome.Ok? ==> !p.executed)
  {
    hide Transfer;
    hide ISqrt;
    hide RootSum;
    hide Apply;
  }

  lemma FirstSeen(s: State, op: Op, id: U64)
    requires id !in s.proposals && id in Step(s, op).state.proposals
    ensures ProposedBy(s, op, Step(s, op).state.proposals[id])
    ensures Step(s, op).state.proposals[id].id == id && !Step(s, op).state.proposals[id].executed
  {
    hide Transfer;
    hide ISqrt;
  }

  /** Every proposal has the author, title, description and action it was proposed with, and
      an end that lies its duration after the moment of that call. */
  lemma {:induction false} CreatedBy(s0: State, ops: seq<Op>, id: U64) returns (i: nat)
    requires Initial(s0) && id in After(s0, ops).proposals
    ensures i < |ops| && ProposedBy(After(s0, ops[..i]), ops[i], After(s0, ops).proposals[id])
    ensures After(s0, ops).proposals[id].id == id
  {
    hide Step;
    hide Inv;
    var before, op := ops[..|ops| - 1], ops[|ops| - 1];
    var s := After(s0, before);
    ReachableInv(s0, before);
    if id in s.proposals {
      i := CreatedBy(s0, before, id);
      assert before[..i] == ops[..i];
      StepKeepsTerms(s, op, id);
    } else {
      i := |ops| - 1;
      FirstSeen(s, op, id);
    }
  }

  /** Executions of one proposal in a run. */
  function Executions(s0: State, ops: seq<Op>, id: U64): nat {
    if ops == [] then 0 else
      var n := |ops| - 1;
      Executions(s0, ops[..n], id)
      + if ops[n] == OpExecute(id) && Step(After(s0, ops[..n]), ops[n]).outcome.Ok? then 1 else 0
  }

  /** A proposal is marked as executed exactly when it was, and never twice. */
  lemma {:induction false} ExecutedOnce(s0: State, ops: seq<Op>, id: U64)
    requires Initial(s0)
    ensures var s := After(s0, ops);
            Executions(s0, ops, id) == if id in s.proposals && s.proposals[id].executed then 1 else 0
  {
    hide Step;
    hide Inv;
    if ops != [] {
      var before, op := ops[..|ops| - 1], ops[|ops| - 1];
      var s := After(s0, before);
      ExecutedOnce(s0, before, id);
      ReachableInv(s0, before);
      if id in s.proposals {
        StepKeepsTerms(s, op, id);
      } else {
        NothingToExecute(s, id);
        if id in Step(s, op).state.proposals {
          FirstSeen(s, op, id);
        }
      }
    }
  }

  lemma NothingToExecute(s: State, id: U64)
    requires id !in s.proposals
    ensures Step(s, OpExecute(id)).outcome == Err(ProposalNotFound)
  {
  }

  // ----- votes

  /** A vote is accepted exactly when it has weight, names a proposal that is open and not
      past its end, is the voter's first, and the voter can lock its weight. */
  lemma VoteAcceptedExactly(s0: State, ops: seq<Op>, voter: Address, id: U64, weight: U128)
    requires Initial(s0)
    ensures Positive(After(s0, ops).locks)
    ensures var s := After(s0, ops);
            CastVote(s, voter, id, weight).outcome.Ok?
            <==> && weight > 0 && id in s.proposals && s.clock <= s.proposals[id].endTime && !s.proposals[id].executed
                 && voter !in Voters(s.locks, id)
                 && voter != s.self && weight <= Balance(s, voter) && FitsI128(Balance(s, s.self) + weight)
                 && RootSum(s.locks, id) + ISqrt(weight) <= MAX_U128
  {
    var s := After(s0, ops);
    ReachableInv(s0, ops);
    hide After;
    assert (id, voter) in s.voted <==> voter in Voters(s.locks, id);
    hide RootSum;
    hide ISqrt;
  }

  /** A first vote with weight, in time, for a proposal that is open. */
  predicate Timely(s: State, voter: Address, id: U64, weight: U128) {
    && weight > 0 && id in s.proposals && s.clock <= s.proposals[id].endTime && !s.proposals[id].executed
    && (id, voter) !in s.voted
  }

  predicate CanLock(s: State, voter: Address, weight: U128) {
    voter != s.self && weight <= Balance(s, voter) && FitsI128(Balance(s, s.self) + weight)
  }

  /** Why a vote is refused: each error exactly in its case, the first one checked. */
  lemma VoteRefusals(s: State, voter: Address, id: U64, weight: U128)
    requires voter != s.self
    ensures var r := CastVote(s, voter, id, weight).outcome;
            && (r == Err(ZeroWeight) <==> weight == 0)
            && (r == Err(ProposalNotFound) <==> weight > 0 && id !in s.proposals)
            && (r == Err(VotePeriodEnded) <==> weight > 0 && id in s.proposals && s.clock > s.proposals[id].endTime)
            && (r == Err(ProposalNotActive)
                <==> weight > 0 && id in s.proposals && s.clock <= s.proposals[id].endTime && s.proposals[id].executed)
            && (r == Err(AlreadyVoted)
                <==> && weight > 0 && id in s.proposals && s.clock <= s.proposals[id].endTime
                     && !s.proposals[id].executed && (id, voter) in s.voted)
            && (r == Err(Trap) <==> Timely(s, voter, id, weight) && !CanLock(s, voter, weight))
            && (r == Err(VoteOverflow)
                <==> && Timely(s, voter, id, weight) && CanLock(s, voter, weight)
                     && s.proposals[id].voteCount + ISqrt(weight) > MAX_U128)
  {
    hide ISqrt;
  }

  /** Why an execution is refused. */
  lemma ExecutionRefusals(s: State, id: U64)
    ensures var r := Execute(s, id).outcome;
            && (r == Err(ProposalNotFound) <==> id !in s.proposals)
            && (r == Err(VotePeriodActive) <==> id in s.proposals && s.clock <= s.proposals[id].endTime)
            && (r == Err(ProposalNotActive)
                <==> id in s.proposals && s.clock > s.proposals[id].endTime && s.proposals[id].executed)
            && (r == Err(QuorumNotMet)
                <==> && id in s.proposals && s.clock > s.proposals[id].endTime && !s.proposals[id].executed
                     && s.proposals[id].voteCount < s.quorum)
  {
  }

  /** The accepted votes of a run, in order. */
  function VotesCast(s0: State, ops: seq<Op>): seq<Lock> {
    if ops == [] then [] else
      var before, op := ops[..|ops| - 1], ops[|ops| - 1];
      VotesCast(s0, before)
      + if op.OpVote? && op.weight <= MAX_I128 && Step(After(s0, before), op).outcome.Ok?
        then [Lock(op.id, op.voter, op.weight)] else []
  }

  /** The log of locks is that of the accepted votes: each locks its weight, for its voter and
      its proposal. */
  lemma {:induction false} LocksAreVotes(s0: State, ops: seq<Op>)
    requires Initial(s0)
    ensures After(s0, ops).locks == VotesCast(s0, ops)
  {
    hide Step;
    if ops != [] {
      var before := ops[..|ops| - 1];
      LocksAreVotes(s0, before);
      StepLocks(After(s0, before), ops[|ops| - 1]);
    }
  }

  lemma StepLocks(s: State, op: Op)
    ensures var accepted := op.OpVote? && Step(s, op).outcome.Ok?;
            && (accepted ==> op.weight <= MAX_I128)
            && Step(s, op).state.locks == s.locks + if accepted && op.weight <= MAX_I128
                                                    then [Lock(op.id, op.voter, op.weight)] else []
  {
    if op.OpVote? && Step(s, op).outcome.Ok? {
      VoteEffect(s, op);
      hide Step;
    } else {
      hide Transfer;
      hide ISqrt;
    }
  }

  /** The token moves any amount that is not negative and that its owner has, if the other
      side has room. */
  lemma TransferAcceptedExactly(s: State, from: Address, to: Address, amount: I128)
    ensures Transfer(s, from, to, amount).Some?
            <==> 0 <= amount <= Balance(s, from) && (from == to || FitsI128(Balance(s, to) + amount))
  {
  }

  /** A proposal is accepted whenever its end and the next id fit. */
  lemma ProposalAcceptedExactly(s: State, proposer: Address, title: string, desc: string, action: Action, duration: U64)
    ensures Propose(s, proposer, title, desc, action, duration).outcome.Ok?
            <==> FitsU64(s.clock + duration) && FitsU64(s.next + 1)
  {
  }

  /** Ids are given out one after the other: exactly those below the next one have a proposal. */
  lemma IdsAreDense(s0: State, ops: seq<Op>, id: U64)
    requires Initial(s0)
    ensures id in After(s0, ops).proposals <==> 1 <= id < After(s0, ops).next
  {
    ReachableInv(s0, ops);
    hide After;
  }

  /** An accepted proposal is there, under the id that is returned, without votes. */
  lemma ProposedIsThere(s: State, op: Op)
    requires op.OpPropose? && Step(s, op).outcome.Ok?
    ensures var r := Step(s, op);
            && r.outcome.value == s.next && s.next in r.state.proposals
            && ProposedBy(s, op, r.state.proposals[s.next]) && r.state.proposals[s.next].voteCount == 0
  {
  }

  /** The clock of the ledger as the contract sees it: the latest time that was reached. */
  lemma {:induction false} ClockIsLatest(s0: State, ops: seq<Op>)
    ensures After(s0, ops).clock >= s0.clock
    ensures forall i :: 0 <= i < |ops| && ops[i].OpTick? ==> ops[i].time <= After(s0, ops).clock
    ensures After(s0, ops).clock == s0.clock || OpTick(After(s0, ops).clock) in ops
  {
    hide Step;
    if ops != [] {
      ClockIsLatest(s0, ops[..|ops| - 1]);
      ClockAfter(After(s0, ops[..|ops| - 1]), ops[|ops| - 1]);
    }
  }

  lemma ClockAfter(s: State, op: Op)
    ensures Step(s, op).state.clock == if op.OpTick? && op.time > s.clock then op.time else s.clock
  {
    hide Transfer;
    hide ISqrt;
  }

  // ----- settings

  /** What the last executed action about a setting asked for, before any what there was. */
  function LastAsked(s0: State, ops: seq<Op>, k: Setting): Option<Value> {
    if ops == [] then Read(s0.parameters, k) else
      var s, op := After(s0, ops[..|ops| - 1]), ops[|ops| - 1];
      if op.OpExecute? && Step(s, op).outcome.Ok? && op.id in s.proposals && Asked(s.proposals[op.id].action).0 == k
      then Some(Asked(s.proposals[op.id].action).1)
      else LastAsked(s0, ops[..|ops| - 1], k)
  }

  /** Nothing but an execution changes a setting, and nothing changes the quorum. */
  lemma OnlyExecutionSets(s: State, op: Op)
    ensures !(op.OpExecute? && Step(s, op).outcome.Ok?) ==> Step(s, op).state.parameters == s.parameters
    ensures Step(s, op).state.quorum == s.quorum
  {
    hide Transfer;
    hide ISqrt;
  }

  /** On every run each setting has the value that the last executed proposal about it asked for. */
  lemma {:induction false} SettingIsLastAsked(s0: State, ops: seq<Op>, k: Setting)
    ensures Read(After(s0, ops).parameters, k) == LastAsked(s0, ops, k)
    ensures After(s0, ops).quorum == s0.quorum
  {
    hide Read;
    hide Step;
    if ops != [] {
      var s, op := After(s0, ops[..|ops| - 1]), ops[|ops| - 1];
      SettingIsLastAsked(s0, ops[..|ops| - 1], k);
      OnlyExecutionSets(s, op);
      if op.OpExecute? && Step(s, op).outcome.Ok? {
        StepExecutes(s, op.id);
      }
    }
  }

  lemma StepExecutes(s: State, id: U64)
    requires Step(s, OpExecute(id)).outcome.Ok?
    ensures id in s.proposals
    ensures SetsAsAsked(s.parameters, Step(s, OpExecute(id)).state.parameters, s.proposals[id].action)
  {
    ExecutionSets(s, id);
  }

  /** With the quorum of 100 votes that the contract starts with, voters times tokens locked
      is at least ten thousand for every executed proposal of every run. */
  lemma ExecutedHadTenThousand(s0: State, ops: seq<Op>, id: U64)
    requires Initial(s0)
    ensures var s := After(s0, ops);
            id in s.proposals && s.proposals[id].executed ==> |Voters(s.locks, id)| * Locked(s.locks, id) >= 10000
  {
    assert s0.quorum == 100;
    SettingIsLastAsked(s0, ops, Code);
    ExecutedHadQuorum(s0, ops, id);
    hide After;
    hide Voters;
    hide Locked;
  }
}
