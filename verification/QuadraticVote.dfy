/** The governance half of the example contract: a voter locks tokens in the
    contract and gets their floor square root in votes. The log of the token
    contract records every lock. */
module QuadraticVote {
  import opened MachineInts
  import opened Newton
  import opened Sums

  type Address = nat

  datatype Error =
    | ProposalNotFound | ProposalNotActive | AlreadyVoted | VotePeriodEnded | ZeroWeight
    | VoteOverflow | VotePeriodActive | QuorumNotMet | Trap

  datatype Action =
    | UpdateMaxLTV(ltv: U32)
    | UpdateCollateralWhitelist(asset: string, allowed: bool)
    | UpdateOracleWhitelist(oracle: Address, allowed: bool)
    | UpgradeContract(wasm: string)

  datatype Proposal = Proposal(
    id: U64, proposer: Address, title: string, desc: string, action: Action,
    voteCount: U128, endTime: U64, executed: bool)

  /** Tokens moved from a voter to the contract for one vote. */
  datatype Lock = Lock(id: U64, voter: Address, weight: I128)

  /** What executed proposals change. */
  datatype Parameters = Parameters(
    maxLtv: U32, collateral: map<string, bool>, oracles: map<Address, bool>, wasm: Option<string>)

  datatype State = State(
    self: Address, proposals: map<U64, Proposal>, next: U64, voted: set<(U64, Address)>,
    quorum: U128, parameters: Parameters,
    balances: map<Address, I128>, locks: seq<Lock>, clock: U64)

  datatype Result = Result(state: State, outcome: Outcome<U64, Error>)

  function Fail(s: State, e: Error): Result { Result(s, Err(e)) }

  function Balance(s: State, a: Address): I128 { if a in s.balances then s.balances[a] else 0 }

  function Propose(s: State, proposer: Address, title: string, desc: string, action: Action, duration: U64): Result {
    if !FitsU64(s.clock + duration) || !FitsU64(s.next + 1) then Fail(s, Trap)
    else
      var p := Proposal(s.next, proposer, title, desc, action, 0, s.clock + duration, false);
      Result(s.(proposals := s.proposals[s.next := p], next := s.next + 1), Ok(s.next))
  }

  /** The governance token's transfer. It refuses negative amounts, so a weight that the
      cast to i128 turns negative is refused. */
  function Transfer(s: State, from: Address, to: Address, amount: I128): Option<map<Address, I128>> {
    if amount < 0 || Balance(s, from) < amount then None
    else if from == to then Some(s.balances)
    else if !FitsI128(Balance(s, to) + amount) then None
    else Some(s.balances[from := Balance(s, from) - amount][to := Balance(s, to) + amount])
  }

  function CastVote(s: State, voter: Address, id: U64, weight: U128): Result {
    // The contract cannot sign as voter.
    if voter == s.self then Fail(s, Trap)
    else if weight == 0 then Fail(s, ZeroWeight)
    else if id !in s.proposals then Fail(s, ProposalNotFound)
    else if s.clock > s.proposals[id].endTime then Fail(s, VotePeriodEnded)
    else if s.proposals[id].executed then Fail(s, ProposalNotActive)
    else if (id, voter) in s.voted then Fail(s, AlreadyVoted)
    else match Transfer(s, voter, s.self, U128AsI128(weight))
      case None => Fail(s, Trap)
      case Some(balances) =>
        var count := s.proposals[id].voteCount + ISqrt(weight);
        if count > MAX_U128 then Fail(s, VoteOverflow)
        else
          Result(s.(balances := balances,
                    proposals := s.proposals[id := s.proposals[id].(voteCount := count)],
                    voted := s.voted + {(id, voter)},
                    locks := s.locks + [Lock(id, voter, U128AsI128(weight))]),
                 Ok(0))
  }

  function Apply(p: Parameters, action: Action): Parameters {
    match action
    case UpdateMaxLTV(ltv) => p.(maxLtv := ltv)
    case UpdateCollateralWhitelist(asset, allowed) => p.(collateral := p.collateral[asset := allowed])
    case UpdateOracleWhitelist(oracle, allowed) => p.(oracles := p.oracles[oracle := allowed])
    case UpgradeContract(wasm) => p.(wasm := Some(wasm))
  }

  function Execute(s: State, id: U64): Result {
    if id !in s.proposals then Fail(s, ProposalNotFound) else
      var p := s.proposals[id];
      if s.clock <= p.endTime then Fail(s, VotePeriodActive)
      else if p.executed then Fail(s, ProposalNotActive)
      else if p.voteCount < s.quorum then Fail(s, QuorumNotMet)
      else Result(s.(parameters := Apply(s.parameters, p.action),
                     proposals := s.proposals[id := p.(executed := true)]), Ok(0))
  }

  /** Anybody's own transfer of governance tokens. The contract makes none. */
  function OutsideTransfer(s: State, from: Address, to: Address, amount: I128): Result {
    if from == s.self then Fail(s, Trap)
    else match Transfer(s, from, to, amount)
      case None => Fail(s, Trap)
      case Some(balances) => Result(s.(balances := balances), Ok(0))
  }

  datatype Op =
    | OpPropose(proposer: Address, title: string, desc: string, action: Action, duration: U64)
    | OpVote(voter: Address, id: U64, weight: U128)
    | OpExecute(id: U64)
    | OpTransfer(from: Address, to: Address, amount: I128)
    | OpTick(time: U64)

  function Step(s: State, op: Op): Result {
    match op
    case OpPropose(proposer, title, desc, action, duration) => Propose(s, proposer, title, desc, action, duration)
    case OpVote(voter, id, weight) => CastVote(s, voter, id, weight)
    case OpExecute(id) => Execute(s, id)
    case OpTransfer(from, to, amount) => OutsideTransfer(s, from, to, amount)
    case OpTick(time) => Result(if time >= s.clock then s.(clock := time) else s, Ok(0))
  }

  function After(s: State, ops: seq<Op>): State {
    if ops == [] then s else Step(After(s, ops[..|ops| - 1]), ops[|ops| - 1]).state
  }

  predicate Initial(s: State) {
    && s.proposals == map[] && s.next == 1 && s.voted == {} && s.locks == [] && s.quorum == 100
  }

  // ----- sums over the log of locks

  predicate Positive(locks: seq<Lock>) {
    forall l :: l in locks ==> l.weight > 0
  }

  /** Votes that the locks for a proposal are worth. */
  function RootSum(locks: seq<Lock>, id: U64): nat
    requires Positive(locks)
  {
    if locks == [] then 0 else
      var l := locks[|locks| - 1];
      RootSum(locks[..|locks| - 1], id) + if l.id == id then ISqrt(l.weight) else 0
  }

  /** Tokens locked for a proposal. */
  function Locked(locks: seq<Lock>, id: U64): int {
    if locks == [] then 0 else
      var l := locks[|locks| - 1];
      Locked(locks[..|locks| - 1], id) + if l.id == id then l.weight else 0
  }

  /** Everybody who locked tokens for a proposal. */
  function Voters(locks: seq<Lock>, id: U64): set<Address> {
    set l | l in locks && l.id == id :: l.voter
  }

  predicate Distinct(locks: seq<Lock>) {
    forall i, j :: 0 <= i < j < |locks| ==> locks[i].id != locks[j].id || locks[i].voter != locks[j].voter
  }

  lemma VotersGrow(locks: seq<Lock>, l: Lock, id: U64)
    requires Distinct(locks + [l])
    ensures Voters(locks + [l], id) == Voters(locks, id) + if l.id == id then {l.voter} else {}
    ensures l.id == id ==> l.voter !in Voters(locks, id)
    ensures |Voters(locks + [l], id)| == |Voters(locks, id)| + if l.id == id then 1 else 0
  {
    assert Voters(locks + [l], id) == Voters(locks, id) + if l.id == id then {l.voter} else {};
    forall m | m in locks && m.id == l.id
      ensures m.voter != l.voter
    {
      var i :| 0 <= i < |locks| && locks[i] == m;
      assert (locks + [l])[i] == m && (locks + [l])[|locks|] == l;
    }
  }

  lemma VoterCount(locks: seq<Lock>, l: Lock, id: U64)
    requires Distinct(locks + [l])
    ensures |Voters(locks + [l], id)| == |Voters(locks, id)| + if l.id == id then 1 else 0
  {
    VotersGrow(locks, l, id);
  }

  /** One step of the Cauchy-Schwarz inequality, over the naturals. */
  lemma CauchyStep(sum: nat, root: nat, count: nat, locked: nat, weight: nat)
    requires sum * sum <= count * locked && root * root <= weight
    ensures (sum + root) * (sum + root) <= (count + 1) * (locked + weight)
  {
    CrossBelow(sum, root, count, locked, weight);
    SquareOfSum(sum, root);
    OneMoreTerm(count, locked, weight);
  }

  lemma SquareOfSum(a: nat, b: nat)
    ensures (a + b) * (a + b) == a * a + 2 * (a * b) + b * b
  {
  }

  lemma OneMoreTerm(count: nat, locked: nat, weight: nat)
    ensures (count + 1) * (locked + weight) == count * locked + count * weight + locked + weight
  {
  }

  /** The mixed term of the square is within the mixed terms of the bound. */
  lemma CrossBelow(sum: nat, root: nat, count: nat, locked: nat, weight: nat)
    requires sum * sum <= count * locked && root * root <= weight
    ensures 2 * (sum * root) <= count * weight + locked
  {
    CrossSquare(sum, root, count * locked, weight);
    MeanOfProducts(count, locked, weight);
    RootOrder(2 * (sum * root), count * weight + locked);
  }

  lemma RootOrder(a: nat, b: nat)
    requires a * a <= b * b
    ensures a <= b
  {
    if a > b {
      SquareStrict(b, a);
    }
  }

  lemma SquareStrict(a: nat, b: nat)
    requires a < b
    ensures a * a < b * b
  {
    SquareMonotone(a + 1, b);
    assert (a + 1) * (a + 1) == a * a + 2 * a + 1;
  }

  lemma CrossSquare(sum: nat, root: nat, product: nat, weight: nat)
    requires sum * sum <= product && root * root <= weight
    ensures (2 * (sum * root)) * (2 * (sum * root)) <= 4 * (product * weight)
  {
    assert (sum * root) * (sum * root) == (sum * sum) * (root * root);
    assert (sum * sum) * (root * root) <= product * (root * root) <= product * weight;
  }

  lemma MeanOfProducts(count: nat, locked: nat, weight: nat)
    ensures 4 * ((count * locked) * weight) <= (count * weight + locked) * (count * weight + locked)
  {
    var cw := count * weight;
    assert (count * locked) * weight == cw * locked;
    MeanInequality2(cw, locked);
  }

  lemma MeanInequality2(a: nat, b: nat)
    ensures 4 * (a * b) <= (a + b) * (a + b)
  {
    SquareNonNegative(a - b);
    assert (a + b) * (a + b) == (a - b) * (a - b) + 4 * (a * b);
  }

  lemma RootSumAfter(locks: seq<Lock>, l: Lock, id: U64)
    requires l.weight > 0 && Positive(locks)
    ensures RootSum(locks + [l], id) == RootSum(locks, id) + if l.id == id then ISqrt(l.weight) else 0
    ensures Locked(locks + [l], id) == Locked(locks, id) + if l.id == id then l.weight else 0
  {
    assert (locks + [l])[..|locks|] == locks;
  }

  predicate SquareBounded(sum: nat, count: nat, locked: nat) {
    sum * sum <= count * locked
  }

  /** One more vote keeps the bound. */
  lemma BoundedAfterVote(sum: nat, count: nat, locked: nat, weight: nat)
    requires SquareBounded(sum, count, locked)
    ensures SquareBounded(sum + ISqrt(weight), count + 1, locked + weight)
  {
    CauchyStep(sum, ISqrt(weight), count, locked, weight);
  }

  /** The bound for one log of locks. */
  predicate BoundHolds(locks: seq<Lock>, id: U64)
    requires Positive(locks)
  {
    Locked(locks, id) >= 0 && SquareBounded(RootSum(locks, id), |Voters(locks, id)|, Locked(locks, id))
  }

  lemma BoundAfterLock(locks: seq<Lock>, l: Lock, id: U64)
    requires Positive(locks) && l.weight > 0 && Distinct(locks + [l]) && BoundHolds(locks, id)
    ensures Positive(locks + [l]) && BoundHolds(locks + [l], id)
  {
    PositiveSnoc(locks, l);
    hide *;
    VoterCount(locks, l, id);
    RootSumAfter(locks, l, id);
    BoundParts(locks, id);
    BoundParts(locks + [l], id);
    if l.id == id {
      BoundedAfterVote(RootSum(locks, id), |Voters(locks, id)|, Locked(locks, id), l.weight);
    }
  }

  lemma PositiveSnoc(locks: seq<Lock>, l: Lock)
    requires Positive(locks) && l.weight > 0
    ensures Positive(locks + [l])
  {
  }

  lemma BoundParts(locks: seq<Lock>, id: U64)
    requires Positive(locks)
    ensures BoundHolds(locks, id)
            <==> Locked(locks, id) >= 0 && SquareBounded(RootSum(locks, id), |Voters(locks, id)|, Locked(locks, id))
  {
  }

  /** The square of the votes never exceeds voters times tokens. */
  lemma {:induction false} CauchySchwarz(locks: seq<Lock>, id: U64)
    requires Distinct(locks) && Positive(locks)
    ensures BoundHolds(locks, id)
  {
    if locks == [] {
      assert Voters(locks, id) == {};
    } else {
      hide BoundHolds;
      var before := locks[..|locks| - 1];
      CauchySchwarz(before, id);
      assert locks == before + [locks[|locks| - 1]];
      BoundAfterLock(before, locks[|locks| - 1], id);
    }
  }

  // ----- what every run keeps

  ghost predicate Inv(s: State) {
    && s.next >= 1
    && (forall id: U64 :: id in s.proposals <==> 1 <= id < s.next)
    && Positive(s.locks)
    && (forall l :: l in s.locks ==> (l.id, l.voter) in s.voted)
    && (forall k :: k in s.voted ==> k.1 in Voters(s.locks, k.0))
    && (forall k :: k in s.voted ==> k.0 in s.proposals)
    && Distinct(s.locks)
    && (forall id :: id in s.proposals ==> s.proposals[id].voteCount == RootSum(s.locks, id))
  }

  lemma {:induction false} NoLocksYet(locks: seq<Lock>, id: U64)
    requires forall l :: l in locks ==> l.weight > 0 && l.id != id
    ensures RootSum(locks, id) == 0
  {
    if locks != [] {
      NoLocksYet(locks[..|locks| - 1], id);
    }
  }

  lemma VoteEffect(s: State, op: Op)
    requires op.OpVote? && Step(s, op).outcome.Ok?
    ensures var s' := Step(s, op).state;
            && op.id in s.proposals && (op.id, op.voter) !in s.voted && op.voter != s.self
            && 0 < op.weight <= MAX_I128 && op.weight <= Balance(s, op.voter)
            && s'.balances == s.balances[op.voter := Balance(s, op.voter) - op.weight][s.self := Balance(s, s.self) + op.weight]
            && s'.proposals == s.proposals[op.id := s'.proposals[op.id]]
            && s'.proposals[op.id].voteCount == s.proposals[op.id].voteCount + ISqrt(op.weight)
            && s' == s.(balances := s'.balances, proposals := s'.proposals, voted := s.voted + {(op.id, op.voter)},
                        locks := s.locks + [Lock(op.id, op.voter, op.weight)])
  {
    hide ISqrt;
  }

  lemma VoterRecorded(locks: seq<Lock>, l: Lock, id: U64)
    ensures Voters(locks + [l], id) == Voters(locks, id) + if l.id == id then {l.voter} else {}
  {
  }

  lemma StillDistinct(s: State, l: Lock)
    requires Distinct(s.locks) && forall m :: m in s.locks ==> (m.id, m.voter) in s.voted
    requires (l.id, l.voter) !in s.voted
    ensures Distinct(s.locks + [l])
  {
    forall i | 0 <= i < |s.locks|
      ensures s.locks[i].id != l.id || s.locks[i].voter != l.voter
    {
      assert s.locks[i] in s.locks;
    }
  }

  lemma VoteKeepsInv(s: State, op: Op)
    requires Inv(s) && op.OpVote? && Step(s, op).outcome.Ok?
    ensures Inv(Step(s, op).state)
  {
    VoteEffect(s, op);
    var s' := Step(s, op).state;
    var l := Lock(op.id, op.voter, op.weight);
    StillDistinct(s, l);
    hide Step;
    hide ISqrt;
    hide Distinct;
    forall id | id in s'.proposals
      ensures s'.proposals[id].voteCount == RootSum(s'.locks, id)
    {
      RootSumAfter(s.locks, l, id);
    }
    hide RootSum;
    forall k | k in s'.voted
      ensures k.1 in Voters(s'.locks, k.0)
    {
      VoterRecorded(s.locks, l, k.0);
    }
    hide Voters;
  }

  lemma StepKeepsInv(s: State, op: Op)
    requires Inv(s)
    ensures Inv(Step(s, op).state)
  {
    if op.OpVote? && Step(s, op).outcome.Ok? {
      VoteKeepsInv(s, op);
      hide *;
    } else {
      if op.OpPropose? {
        forall l | l in s.locks
          ensures l.id != s.next
        {
          assert (l.id, l.voter) in s.voted;
        }
        NoLocksYet(s.locks, s.next);
      }
      hide RootSum;
      hide Transfer;
      hide ISqrt;
    }
  }

  lemma {:induction false} ReachableInv(s0: State, ops: seq<Op>)
    requires Initial(s0)
    ensures Inv(After(s0, ops))
  {
    hide Step;
    if ops != [] {
      hide Inv;
      ReachableInv(s0, ops[..|ops| - 1]);
      StepKeepsInv(After(s0, ops[..|ops| - 1]), ops[|ops| - 1]);
    }
  }

  /** Whatever run led there, an executed proposal had voters and locked tokens
      whose product is at least the quorum squared. */
  lemma QuorumNeedsTokens(s0: State, ops: seq<Op>, id: U64)
    requires Initial(s0) && Execute(After(s0, ops), id).outcome.Ok?
    ensures var s := After(s0, ops);
            |Voters(s.locks, id)| * Locked(s.locks, id) >= s.quorum * s.quorum
  {
    var s := After(s0, ops);
    ReachableInv(s0, ops);
    CauchySchwarz(s.locks, id);
    SquareMonotone(s.quorum, RootSum(s.locks, id));
    hide After;
    hide RootSum;
    hide Locked;
    hide Voters;
  }

  /** Each voter's lock for a proposal is one entry, and the vote count is the sum
      of the floor roots of those entries. */
  lemma CountIsRootSum(s0: State, ops: seq<Op>, id: U64)
    requires Initial(s0) && id in After(s0, ops).proposals
    ensures var s := After(s0, ops);
            && Distinct(s.locks) && Positive(s.locks)
            && s.proposals[id].voteCount == RootSum(s.locks, id)
  {
    ReachableInv(s0, ops);
    hide After;
    hide RootSum;
  }

  /** An execution is accepted exactly once voting is over, for a proposal not executed
      yet whose voters' floor roots add up to the quorum. */
  lemma ExecutionAcceptedExactly(s0: State, ops: seq<Op>, id: U64)
    requires Initial(s0)
    ensures Positive(After(s0, ops).locks)
    ensures var s := After(s0, ops);
            Execute(s, id).outcome.Ok?
            <==> && id in s.proposals && !s.proposals[id].executed
                 && s.clock > s.proposals[id].endTime && RootSum(s.locks, id) >= s.quorum
  {
    ReachableInv(s0, ops);
    hide After;
    hide RootSum;
  }

  predicate ExecutedWithQuorum(s: State, id: U64) {
    id in s.proposals && s.proposals[id].executed ==> s.proposals[id].voteCount >= s.quorum
  }

  lemma StepKeepsQuorum(s: State, op: Op, id: U64)
    requires ExecutedWithQuorum(s, id)
    ensures ExecutedWithQuorum(Step(s, op).state, id)
  {
    hide Transfer;
    hide ISqrt;
  }

  /** Every executed proposal of every run had, and still has, such voters and tokens. */
  lemma {:induction false} ExecutedHadQuorum(s0: State, ops: seq<Op>, id: U64)
    requires Initial(s0)
    ensures ExecutedWithQuorum(After(s0, ops), id)
    ensures var s := After(s0, ops);
            id in s.proposals && s.proposals[id].executed ==>
              |Voters(s.locks, id)| * Locked(s.locks, id) >= s.quorum * s.quorum
  {
    hide Step;
    hide RootSum;
    hide Locked;
    hide Voters;
    var s := After(s0, ops);
    if ops != [] {
      ExecutedHadQuorum(s0, ops[..|ops| - 1], id);
      StepKeepsQuorum(After(s0, ops[..|ops| - 1]), ops[|ops| - 1], id);
    }
    ReachableInv(s0, ops);
    if id in s.proposals && s.proposals[id].executed {
      CauchySchwarz(s.locks, id);
      SquareMonotone(s.quorum, RootSum(s.locks, id));
    }
  }

  function LockedByAll(locks: seq<Lock>): int {
    if locks == [] then 0 else LockedByAll(locks[..|locks| - 1]) + locks[|locks| - 1].weight
  }

  function LockedBy(locks: seq<Lock>, a: Address): int {
    if locks == [] then 0 else
      var l := locks[|locks| - 1];
      LockedBy(locks[..|locks| - 1], a) + if l.voter == a then l.weight else 0
  }

  /** What outside transfers of the run brought to a, less what they took from it. */
  function NetReceived(s0: State, ops: seq<Op>, a: Address): int {
    if ops == [] then 0 else
      NetReceived(s0, ops[..|ops| - 1], a) + NetOf(After(s0, ops[..|ops| - 1]), ops[|ops| - 1], a)
  }

  function NetOf(s: State, op: Op, a: Address): int {
    if op.OpTransfer? && Step(s, op).outcome.Ok?
    then (if op.to == a then op.amount else 0) - (if op.from == a then op.amount else 0) else 0
  }

  /** Tokens are accounted for on every run: the contract holds what it started with plus
      all locks and what was transferred to it otherwise, and everybody else what it
      started with minus its own locks, with its other transfers. */
  lemma {:induction false} TokensConserved(s0: State, ops: seq<Op>, a: Address)
    requires Initial(s0) && a != s0.self
    ensures var s := After(s0, ops);
            && s.self == s0.self
            && Balance(s, s0.self) == Balance(s0, s0.self) + LockedByAll(s.locks) + NetReceived(s0, ops, s0.self)
            && Balance(s, a) == Balance(s0, a) - LockedBy(s.locks, a) + NetReceived(s0, ops, a)
    ensures NetReceived(s0, ops, s0.self) >= 0
  {
    hide Step;
    if ops != [] {
      var s := After(s0, ops[..|ops| - 1]);
      TokensConserved(s0, ops[..|ops| - 1], a);
      LockAccounted(s, ops[|ops| - 1], a);
      hide LockedByAll;
      hide LockedBy;
      hide NetOf;
    }
  }

  lemma LockAccounted(s: State, op: Op, a: Address)
    requires a != s.self
    ensures var s' := Step(s, op).state;
            && s'.self == s.self
            && Balance(s', s.self) - Balance(s, s.self)
               == LockedByAll(s'.locks) - LockedByAll(s.locks) + NetOf(s, op, s.self)
            && Balance(s', a) - Balance(s, a) == LockedBy(s.locks, a) - LockedBy(s'.locks, a) + NetOf(s, op, a)
    ensures NetOf(s, op, s.self) >= 0
  {
    if op.OpVote? && Step(s, op).outcome.Ok? {
      VoteEffect(s, op);
      LocksAfterVote(s.locks, Lock(op.id, op.voter, op.weight), a);
      hide Step;
      hide LockedByAll;
      hide LockedBy;
    } else if op.OpTransfer? {
      TransferMoves(s, op, s.self);
      TransferMoves(s, op, a);
      hide Step;
      hide NetOf;
      hide LockedByAll;
      hide LockedBy;
    } else {
      hide Transfer;
      hide ISqrt;
      hide LockedByAll;
      hide LockedBy;
    }
  }

  lemma LocksAfterVote(locks: seq<Lock>, l: Lock, a: Address)
    ensures LockedByAll(locks + [l]) == LockedByAll(locks) + l.weight
    ensures LockedBy(locks + [l], a) == LockedBy(locks, a) + if l.voter == a then l.weight else 0
  {
    assert (locks + [l])[..|locks|] == locks;
  }

  lemma TransferMoves(s: State, op: Op, a: Address)
    requires op.OpTransfer?
    ensures var s' := Step(s, op).state;
            s'.self == s.self && s'.locks == s.locks && Balance(s', a) == Balance(s, a) + NetOf(s, op, a)
    ensures NetOf(s, op, s.self) >= 0
  {
  }

  // ----- what an executed proposal changes

  /** One thing that a proposal can set. */
  datatype Setting = MaxLtv | CollateralAllowed(asset: string) | OracleAllowed(oracle: Address) | Code

  datatype Value = Number(n: U32) | Flag(allowed: bool) | Wasm(hash: string)

  /** What stands under a setting, if anything was ever set. */
  function Read(p: Parameters, k: Setting): Option<Value> {
    match k
    case MaxLtv => Some(Number(p.maxLtv))
    case CollateralAllowed(asset) => if asset in p.collateral then Some(Flag(p.collateral[asset])) else None
    case OracleAllowed(oracle) => if oracle in p.oracles then Some(Flag(p.oracles[oracle])) else None
    case Code => if p.wasm.Some? then Some(Wasm(p.wasm.value)) else None
  }

  /** The setting that an action is about, and the value it asks for. */
  function Asked(action: Action): (Setting, Value) {
    match action
    case UpdateMaxLTV(ltv) => (MaxLtv, Number(ltv))
    case UpdateCollateralWhitelist(asset, allowed) => (CollateralAllowed(asset), Flag(allowed))
    case UpdateOracleWhitelist(oracle, allowed) => (OracleAllowed(oracle), Flag(allowed))
    case UpgradeContract(wasm) => (Code, Wasm(wasm))
  }

  /** The one setting the action is about has the value it asks for, and all others stayed. */
  ghost predicate SetsAsAsked(before: Parameters, after: Parameters, action: Action) {
    forall k :: Read(after, k) == if k == Asked(action).0 then Some(Asked(action).1) else Read(before, k)
  }

  lemma ExecutionSets(s: State, id: U64)
    requires Execute(s, id).outcome.Ok?
    ensures id in s.proposals && SetsAsAsked(s.parameters, Execute(s, id).state.parameters, s.proposals[id].action)
  {
  }

  // ----- the contract

  /** Voting is over, nothing was executed, and the voters' floor roots reach the quorum. */
  predicate Executable(s: State, id: U64) {
    && Positive(s.locks) && id in s.proposals && !s.proposals[id].executed
    && s.clock > s.proposals[id].endTime && RootSum(s.locks, id) >= s.quorum
  }

  /** Voters times tokens locked is at least the quorum squared. */
  predicate Backed(s: State, id: U64) {
    |Voters(s.locks, id)| * Locked(s.locks, id) >= s.quorum * s.quorum
  }

  /** Votes and executions of a proposal are over for good. */
  ghost predicate Decided(s: State, id: U64) {
    && Execute(s, id).outcome.Err?
    && forall voter, weight :: CastVote(s, voter, id, weight).outcome.Err?
  }

  lemma ExecutedIsDecided(s: State, id: U64)
    requires Execute(s, id).outcome.Ok?
    ensures Decided(Execute(s, id).state, id)
    ensures Backed(s, id) ==> Backed(Execute(s, id).state, id)
  {
    hide Transfer;
  }

  lemma NothingLockedYet(s: State)
    requires Inv(s)
    ensures s.next !in s.proposals && Positive(s.locks)
    ensures Voters(s.locks, s.next) == {} && RootSum(s.locks, s.next) == 0
  {
    assert forall l :: l in s.locks ==> (l.id, l.voter) in s.voted && l.id in s.proposals;
    NoLocksYet(s.locks, s.next);
    hide RootSum;
  }

  lemma OneMore(start: State, history: seq<Op>, op: Op)
    requires Initial(start)
    ensures After(start, history + [op]) == Step(After(start, history), op).state
    ensures Inv(After(start, history + [op]))
  {
    assert (history + [op])[..|history|] == history;
    ReachableInv(start, history + [op]);
    hide Step;
    hide Inv;
  }

  class Contract {
    const self: Address
    var proposals: map<U64, Proposal>
    var next: U64
    var voted: set<(U64, Address)>
    var quorum: U128
    var parameters: Parameters
    var balances: map<Address, I128>
    var locks: seq<Lock>
    var clock: U64
    ghost const start: State
    ghost var history: seq<Op>

    function View(): State
      reads this
    {
      State(self, proposals, next, voted, quorum, parameters, balances, locks, clock)
    }

    /** The storage is what the calls so far made of the initial one, and is consistent. */
    ghost predicate Valid()
      reads this
    {
      Initial(start) && View() == After(start, history) && Inv(View())
    }

    constructor (self: Address, balances: map<Address, I128>, clock: U64)
      ensures Valid() && history == [] && start == View()
      ensures Initial(View()) && this.self == self && this.balances == balances && this.clock == clock
    {
      this.self, this.balances, this.clock := self, balances, clock;
      proposals, next, voted, quorum, locks := map[], 1, {}, 100, [];
      parameters := Parameters(7000, map[], map[], None);
      this.start := State(self, map[], 1, {}, 100, Parameters(7000, map[], map[], None), balances, [], clock);
      this.history := [];
      new;
      ReachableInv(start, []);
    }

    method ProposeAction(proposer: Address, title: string, desc: string, action: Action, duration: U64)
      returns (r: Outcome<U64, Error>)
      requires Valid()
      modifies this
      ensures Valid() && history == old(history) + [OpPropose(proposer, title, desc, action, duration)]
      ensures Result(View(), r) == Propose(old(View()), proposer, title, desc, action, duration)
      ensures r.Ok? ==> r.value !in old(proposals) && Positive(locks)
                        && Voters(locks, r.value) == {} && RootSum(locks, r.value) == 0
    {
      NothingLockedYet(View());
      hide Voters;
      hide RootSum;
      hide Positive;
      hide Inv;
      hide After;
      hide Initial;
      OneMore(start, history, OpPropose(proposer, title, desc, action, duration));
      history := history + [OpPropose(proposer, title, desc, action, duration)];
      if !FitsU64(clock + duration) || !FitsU64(next + 1) {
        return Err(Trap);
      }
      var id := next;
      proposals := proposals[id := Proposal(id, proposer, title, desc, action, 0, clock + duration, false)];
      next := id + 1;
      r := Ok(id);
    }

    method Vote(voter: Address, id: U64, weight: U128) returns (r: Outcome<U64, Error>)
      requires Valid()
      modifies this
      ensures Valid() && history == old(history) + [OpVote(voter, id, weight)]
      ensures Result(View(), r) == CastVote(old(View()), voter, id, weight)
    {
      hide Inv;
      hide After;
      hide Initial;
      OneMore(start, history, OpVote(voter, id, weight));
      history := history + [OpVote(voter, id, weight)];
      hide ISqrt;
      hide Transfer;
      if voter == self {
        return Err(Trap);
      }
      if weight == 0 {
        return Err(ZeroWeight);
      }
      if id !in proposals {
        return Err(ProposalNotFound);
      }
      var p := proposals[id];
      if clock > p.endTime {
        return Err(VotePeriodEnded);
      }
      if p.executed {
        return Err(ProposalNotActive);
      }
      if (id, voter) in voted {
        return Err(AlreadyVoted);
      }
      var moved := Transfer(View(), voter, self, U128AsI128(weight));
      if moved == None {
        return Err(Trap);
      }
      var votes := ExampleSqrt(weight);
      if p.voteCount as int + votes as int > MAX_U128 {
        return Err(VoteOverflow);
      }
      balances := moved.value;
      proposals := proposals[id := p.(voteCount := p.voteCount + votes)];
      voted := voted + {(id, voter)};
      locks := locks + [Lock(id, voter, U128AsI128(weight))];
      r := Ok(0);
    }

    method ExecuteProposal(id: U64) returns (r: Outcome<U64, Error>)
      requires Valid()
      modifies this
      ensures Valid() && history == old(history) + [OpExecute(id)]
      ensures Result(View(), r) == Execute(old(View()), id)
      ensures r.Ok? <==> old(Executable(View(), id))
      ensures r.Ok? ==> Backed(View(), id) && Decided(View(), id)
      ensures r.Ok? ==> SetsAsAsked(old(parameters), parameters, old(proposals)[id].action)
    {
      ExecutionAcceptedExactly(start, history, id);
      if Execute(View(), id).outcome.Ok? {
        QuorumNeedsTokens(start, history, id);
        ExecutedIsDecided(View(), id);
        ExecutionSets(View(), id);
      }
      hide SetsAsAsked;
      hide Executable;
      hide Backed;
      hide Decided;
      hide Inv;
      hide After;
      hide Initial;
      OneMore(start, history, OpExecute(id));
      history := history + [OpExecute(id)];
      hide Execute;
      r := CheckAndExecute(id);
    }

    method CheckAndExecute(id: U64) returns (r: Outcome<U64, Error>)
      modifies this`proposals, this`parameters
      ensures Result(View(), r) == Execute(old(View()), id)
    {
      if id !in proposals {
        return Err(ProposalNotFound);
      }
      var p := proposals[id];
      if clock <= p.endTime {
        return Err(VotePeriodActive);
      }
      if p.executed {
        return Err(ProposalNotActive);
      }
      if p.voteCount < quorum {
        return Err(QuorumNotMet);
      }
      match p.action {
        case UpdateMaxLTV(ltv) => parameters := parameters.(maxLtv := ltv);
        case UpdateCollateralWhitelist(asset, allowed) =>
          parameters := parameters.(collateral := parameters.collateral[asset := allowed]);
        case UpdateOracleWhitelist(oracle, allowed) =>
          parameters := parameters.(oracles := parameters.oracles[oracle := allowed]);
        case UpgradeContract(wasm) => parameters := parameters.(wasm := Some(wasm));
      }
      proposals := proposals[id := p.(executed := true)];
      r := Ok(0);
    }

    /** A token transfer that somebody else makes, perhaps to the contract. */
    method TransferTokens(from: Address, to: Address, amount: I128) returns (r: Outcome<U64, Error>)
      requires Valid()
      modifies this
      ensures Valid() && history == old(history) + [OpTransfer(from, to, amount)]
      ensures Result(View(), r) == OutsideTransfer(old(View()), from, to, amount)
    {
      hide Inv;
      hide After;
      hide Initial;
      hide Transfer;
      OneMore(start, history, OpTransfer(from, to, amount));
      history := history + [OpTransfer(from, to, amount)];
      if from == self {
        return Err(Trap);
      }
      var moved := Transfer(View(), from, to, amount);
      if moved == None {
        return Err(Trap);
      }
      balances := moved.value;
      r := Ok(0);
    }

    /** The ledger closes and its clock moves on. */
    method Tick(time: U64)
      requires Valid()
      modifies this
      ensures Valid() && history == old(history) + [OpTick(time)]
    {
      hide Inv;
      OneMore(start, history, OpTick(time));
      history := history + [OpTick(time)];
      if time >= clock {
        clock := time;
      }
    }
  }
}
