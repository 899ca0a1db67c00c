/** What every run of the escrow manager keeps: the pool equation, one payout
    per escrow, and indexes that agree with the table. */
module EscrowRuns {
  import opened MachineInts
  import opened Sums
  import opened Escrow

  // ----- the books

  predicate Open(e: Escrow) { e.status == Active || e.status == Disputed }

  predicate CrossReleased(e: Escrow) {
    e.status == Released && e.terms.asset != e.terms.destinationAsset
  }

  /** The payment made for each escrow, read off the log of token transfers. */
  function Payments(log: seq<TokenEvent>): map<U64, Payment> {
    if log == [] then map[] else
      var before := Payments(log[..|log| - 1]);
      match log[|log| - 1]
      case Paid(p) => before[p.id := p]
      case Deposited(_, _, _) => before
  }

  function PaymentCount(log: seq<TokenEvent>, id: U64): nat {
    if log == [] then 0 else
      var last := log[|log| - 1];
      PaymentCount(log[..|log| - 1], id) + if last.Paid? && last.payment.id == id then 1 else 0
  }

  /** What outsiders sent to the pool. */
  function Deposits(log: seq<TokenEvent>, t: Address): int {
    if log == [] then 0 else
      var last := log[|log| - 1];
      Deposits(log[..|log| - 1], t) + if last.Deposited? && last.token == t then last.amount else 0
  }

  /** The amounts of the open escrows in token t. */
  function OpenAmounts(escrows: map<U64, Escrow>, t: Address): map<U64, int> {
    map id | id in escrows && Open(escrows[id]) && escrows[id].terms.asset == t :: escrows[id].terms.amount as int
  }

  /** The source amounts kept from released escrows that were paid out in another token. */
  function KeptAmounts(escrows: map<U64, Escrow>, t: Address): map<U64, int> {
    map id | id in escrows && CrossReleased(escrows[id]) && escrows[id].terms.asset == t :: escrows[id].terms.amount as int
  }

  /** The destination amounts paid for those. */
  function CrossAmounts(escrows: map<U64, Escrow>, pays: map<U64, Payment>, t: Address): map<U64, int> {
    map id | id in escrows && CrossReleased(escrows[id]) && id in pays && pays[id].token == t :: pays[id].amount as int
  }

  /** Payments whose recipient was the contract itself, so that they stayed in the pool. */
  function ReturnedAmounts(self: Address, pays: map<U64, Payment>, t: Address): map<U64, int> {
    map id | id in pays && pays[id].token == t && pays[id].to == self :: pays[id].amount as int
  }

  ghost function Books(s: State, t: Address): int {
    var pays := Payments(s.log);
    Deposits(s.log, t) + Total(OpenAmounts(s.escrows, t)) + Total(KeptAmounts(s.escrows, t))
    - Total(CrossAmounts(s.escrows, pays, t)) + Total(ReturnedAmounts(s.self, pays, t))
  }

  // ----- the invariant

  predicate Dense(s: State) {
    && s.nextId >= 1
    && (forall id :: id in s.escrows ==> 1 <= id < s.nextId)
    && (forall id: U64 :: 1 <= id < s.nextId ==> id in s.escrows)
  }

  predicate TermsOk(s: State) {
    forall id :: id in s.escrows ==>
      var e := s.escrows[id];
      e.id == id && e.terms.amount > 0 && e.terms.minDestinationAmount > 0 && e.terms.lender != s.self
  }

  /** The payment an escrow's final status calls for: the right recipient, token
      and amount; a cross-asset seller gets at least the agreed minimum. */
  predicate PaidRight(e: Escrow, p: Payment) {
    && p.id == e.id
    && (e.status == Released || e.status == Refunded)
    && (e.status == Refunded ==> p.to == e.terms.buyer && p.token == e.terms.asset && p.amount == e.terms.amount)
    && (e.status == Released ==> p.to == e.terms.seller && p.token == e.terms.destinationAsset)
    && (e.status == Released && e.terms.asset == e.terms.destinationAsset ==> p.amount == e.terms.amount)
    && (CrossReleased(e) ==> p.amount >= e.terms.minDestinationAmount)
  }

  predicate PaidIffClosed(escrows: map<U64, Escrow>, pays: map<U64, Payment>) {
    && (forall id :: id in pays ==> id in escrows && PaidRight(escrows[id], pays[id]))
    && (forall id :: id in escrows && !Open(escrows[id]) ==> id in pays)
  }

  predicate BalancesNonNegative(s: State) {
    forall k :: k in s.balances ==> s.balances[k] >= 0
  }

  predicate Ascending(list: seq<U64>) {
    forall i, j :: 0 <= i < j < |list| ==> list[i] < list[j]
  }

  /** Each seller's list is the ascending list of exactly that seller's escrows. */
  ghost predicate SellersIndexed(s: State) {
    forall v :: Ascending(SellerList(s, v))
             && forall id :: id in SellerList(s, v) <==> id in s.escrows && s.escrows[id].terms.seller == v
  }

  ghost predicate Inv(s: State) {
    && Dense(s) && TermsOk(s) && BalancesNonNegative(s) && SellersIndexed(s)
    && PaidIffClosed(s.escrows, Payments(s.log))
  }

  lemma InitialInv(s: State)
    requires Initial(s)
    ensures Inv(s)
  {
  }

  // ----- token transfers

  /** A transfer moves `amount` from one balance to the other and touches no other. */
  lemma TransferMoves(balances: map<(Address, Address), I128>, token: Address, from: Address, to: Address, amount: I128,
                      t: Address, holder: Address)
    requires Transfer(balances, token, from, to, amount).Some?
    ensures var after := Transfer(balances, token, from, to, amount).value;
            TokenBalance(after, t, holder) == TokenBalance(balances, t, holder)
              + (if t == token && holder == to then amount else 0)
              - (if t == token && holder == from then amount else 0)
    ensures amount >= 0
  {
  }

  lemma TransferKeepsNonNegative(balances: map<(Address, Address), I128>, token: Address, from: Address, to: Address,
                                 amount: I128)
    requires forall k :: k in balances ==> balances[k] >= 0
    requires Transfer(balances, token, from, to, amount).Some?
    ensures var after := Transfer(balances, token, from, to, amount).value;
            forall k :: k in after ==> after[k] >= 0
  {
  }

  // ----- what each step does to the books

  lemma LogPaid(log: seq<TokenEvent>, p: Payment, t: Address)
    ensures Payments(log + [Paid(p)]) == Payments(log)[p.id := p]
    ensures Deposits(log + [Paid(p)], t) == Deposits(log, t)
  {
    assert (log + [Paid(p)])[..|log|] == log;
  }

  lemma LogDeposited(log: seq<TokenEvent>, token: Address, from: Address, amount: I128, t: Address)
    ensures Payments(log + [Deposited(token, from, amount)]) == Payments(log)
    ensures Deposits(log + [Deposited(token, from, amount)], t) == Deposits(log, t) + if t == token then amount else 0
  {
    assert (log + [Deposited(token, from, amount)])[..|log|] == log;
  }

  /** A closing step: escrow id leaves the open ones with the given status and payment. */
  ghost predicate Closes(s: State, s': State, id: U64, status: Status, p: Payment) {
    && id in s.escrows && Open(s.escrows[id]) && (status == Released || status == Refunded)
    && p.id == id && PaidRight(s.escrows[id].(status := status), p)
    && s'.escrows == s.escrows[id := s.escrows[id].(status := status)]
    && s'.log == s.log + [Paid(p)]
    && Transfer(s.balances, p.token, s.self, p.to, p.amount) == Some(s'.balances)
    && s'.self == s.self && s'.nextId == s.nextId && s'.bySeller == s.bySeller && s'.clock == s.clock
  }

  lemma OpenAfterClose(escrows: map<U64, Escrow>, id: U64, status: Status, t: Address)
    requires id in escrows && Open(escrows[id]) && (status == Released || status == Refunded)
    ensures var e := escrows[id];
            var escrows' := escrows[id := e.(status := status)];
            && Total(OpenAmounts(escrows', t)) == Total(OpenAmounts(escrows, t)) - (if e.terms.asset == t then e.terms.amount else 0)
            && Total(KeptAmounts(escrows', t)) == Total(KeptAmounts(escrows, t))
                 + (if e.terms.asset == t && CrossReleased(e.(status := status)) then e.terms.amount else 0)
  {
    hide Total;
    var e := escrows[id];
    var escrows' := escrows[id := e.(status := status)];
    if e.terms.asset == t {
      assert OpenAmounts(escrows', t) == OpenAmounts(escrows, t) - {id};
      TotalRemove(OpenAmounts(escrows, t), id);
    } else {
      assert OpenAmounts(escrows', t) == OpenAmounts(escrows, t);
    }
    if e.terms.asset == t && CrossReleased(e.(status := status)) {
      assert KeptAmounts(escrows', t) == KeptAmounts(escrows, t)[id := e.terms.amount as int];
      TotalInsert(KeptAmounts(escrows, t), id, e.terms.amount);
    } else {
      assert KeptAmounts(escrows', t) == KeptAmounts(escrows, t);
    }
  }

  lemma CrossAfterClose(escrows: map<U64, Escrow>, pays: map<U64, Payment>, id: U64, status: Status, p: Payment, t: Address)
    requires id in escrows && Open(escrows[id]) && (status == Released || status == Refunded) && id !in pays
    ensures var e' := escrows[id].(status := status);
            Total(CrossAmounts(escrows[id := e'], pays[id := p], t))
            == Total(CrossAmounts(escrows, pays, t)) + if CrossReleased(e') && p.token == t then p.amount else 0
  {
    hide Total;
    var e' := escrows[id].(status := status);
    if CrossReleased(e') && p.token == t {
      assert CrossAmounts(escrows[id := e'], pays[id := p], t) == CrossAmounts(escrows, pays, t)[id := p.amount as int];
      TotalInsert(CrossAmounts(escrows, pays, t), id, p.amount);
    } else {
      assert CrossAmounts(escrows[id := e'], pays[id := p], t) == CrossAmounts(escrows, pays, t);
    }
  }

  lemma ReturnedAfterPayment(self: Address, pays: map<U64, Payment>, id: U64, p: Payment, t: Address)
    requires id !in pays
    ensures Total(ReturnedAmounts(self, pays[id := p], t))
         == Total(ReturnedAmounts(self, pays, t)) + if p.token == t && p.to == self then p.amount else 0
  {
    hide Total;
    if p.token == t && p.to == self {
      assert ReturnedAmounts(self, pays[id := p], t) == ReturnedAmounts(self, pays, t)[id := p.amount as int];
      TotalInsert(ReturnedAmounts(self, pays, t), id, p.amount);
    } else {
      assert ReturnedAmounts(self, pays[id := p], t) == ReturnedAmounts(self, pays, t);
    }
  }

  /** Closing an escrow changes the pool and the books by the same amount. */
  lemma CloseBalances(s: State, s': State, id: U64, status: Status, p: Payment, t: Address)
    requires Closes(s, s', id, status, p) && id !in Payments(s.log)
    ensures Pool(s', t) - Pool(s, t) == Books(s', t) - Books(s, t)
  {
    hide Total;
    hide Payments;
    hide Deposits;
    hide OpenAmounts;
    hide KeptAmounts;
    hide CrossAmounts;
    hide ReturnedAmounts;
    LogPaid(s.log, p, t);
    OpenAfterClose(s.escrows, id, status, t);
    CrossAfterClose(s.escrows, Payments(s.log), id, status, p, t);
    ReturnedAfterPayment(s.self, Payments(s.log), id, p, t);
    TransferMoves(s.balances, p.token, s.self, p.to, p.amount, t, s.self);
    hide Transfer;
  }

  lemma CloseKeepsInv(s: State, s': State, id: U64, status: Status, p: Payment)
    requires Inv(s) && Closes(s, s', id, status, p)
    ensures id !in Payments(s.log) && Inv(s')
  {
    TransferKeepsNonNegative(s.balances, p.token, s.self, p.to, p.amount);
    hide Transfer;
    LogPaid(s.log, p, 0);
    hide Payments;
    assert s'.escrows[id].terms == s.escrows[id].terms;
    SellersUnchanged(s, s', id);
    hide SellersIndexed;
  }

  lemma SellersUnchanged(s: State, s': State, id: U64)
    requires SellersIndexed(s) && s'.bySeller == s.bySeller
    requires id in s.escrows && id in s'.escrows && s'.escrows[id].terms == s.escrows[id].terms
    requires s'.escrows == s.escrows[id := s'.escrows[id]]
    ensures SellersIndexed(s')
  {
    forall v
      ensures Ascending(SellerList(s', v))
      ensures forall j :: j in SellerList(s', v) <==> j in s'.escrows && s'.escrows[j].terms.seller == v
    {
      assert SellerList(s', v) == SellerList(s, v);
    }
  }

  // ----- the effect of each call

  lemma ReleaseCloses(s: State, id: U64, answers: Answers) returns (p: Payment)
    requires Inv(s) && id in s.escrows && Open(s.escrows[id]) && PayAndRelease(s, id, answers).outcome.Ok?
    ensures Closes(s, PayAndRelease(s, id, answers).state, id, Released, p)
  {
    var t := s.escrows[id].terms;
    p := if t.asset == t.destinationAsset then Payment(id, t.asset, t.seller, t.amount)
         else Payment(id, t.destinationAsset, t.seller, EstimatePathPayment(s, t.amount).value);
    hide Transfer;
    hide Dense;
    hide SellersIndexed;
    hide PaidIffClosed;
  }

  lemma RefundCloses(s: State, id: U64, answers: Answers) returns (p: Payment)
    requires Inv(s) && id in s.escrows && Open(s.escrows[id]) && PayAndRefund(s, id, answers).outcome.Ok?
    ensures Closes(s, PayAndRefund(s, id, answers).state, id, Refunded, p)
  {
    var t := s.escrows[id].terms;
    p := Payment(id, t.asset, t.buyer, t.amount);
    hide Transfer;
    hide Dense;
    hide SellersIndexed;
    hide PaidIffClosed;
  }

  /** Which calls close escrow id. */
  predicate Closing(op: Op) { op.OpRelease? || op.OpRefund? || op.OpResolve? }

  lemma ClosingStep(s: State, op: Op) returns (status: Status, p: Payment)
    requires Inv(s) && Closing(op) && Step(s, op).outcome.Ok?
    ensures Closes(s, Step(s, op).state, op.id, status, p)
  {
    hide PayAndRelease;
    hide PayAndRefund;
    hide Inv;
    hide Closes;
    if op.OpRelease? || (op.OpResolve? && op.toSeller) {
      status := Released;
      p := ReleaseCloses(s, op.id, op.answers);
    } else {
      status := Refunded;
      p := RefundCloses(s, op.id, op.answers);
    }
  }

  lemma FailedCallChangesNothing(s: State, op: Op)
    ensures Step(s, op).outcome.Err? ==> Step(s, op).state == s
  {
    hide Transfer;
    hide ReleasePayout;
    hide ProcessRefund;
    hide OracleCheck;
  }

  lemma CreateEffect(s: State, op: Op)
    requires op.OpCreate? && Step(s, op).outcome.Ok?
    ensures var t := op.terms;
            var s' := Step(s, op).state;
            && t.lender != s.self && t.amount > 0 && t.minDestinationAmount > 0 && FitsU64(s.nextId + 1)
            && Step(s, op).outcome == Ok(s.nextId)
            && Transfer(s.balances, t.asset, t.lender, s.self, t.amount) == Some(s'.balances)
            && s' == s.(escrows := s.escrows[s.nextId := Escrow(s.nextId, t, Active, s.clock, None)],
                        nextId := s.nextId + 1,
                        bySeller := s.bySeller[t.seller := SellerList(s, t.seller) + [s.nextId]],
                        balances := s'.balances)
  {
    hide Transfer;
    hide HasDuplicates;
  }

  lemma CreateKeepsIndex(s: State, s': State, e: Escrow)
    requires SellersIndexed(s) && Dense(s) && s.nextId == e.id
    requires s'.escrows == s.escrows[s.nextId := e]
    requires s'.bySeller == s.bySeller[e.terms.seller := SellerList(s, e.terms.seller) + [s.nextId]]
    ensures SellersIndexed(s')
  {
    forall v
      ensures Ascending(SellerList(s', v))
      ensures forall j :: j in SellerList(s', v) <==> j in s'.escrows && s'.escrows[j].terms.seller == v
    {
      if v == e.terms.seller {
        assert SellerList(s', v) == SellerList(s, v) + [s.nextId];
        forall i | 0 <= i < |SellerList(s, v)|
          ensures SellerList(s, v)[i] < s.nextId
        {
          assert SellerList(s, v)[i] in s.escrows;
        }
      } else {
        assert SellerList(s', v) == SellerList(s, v);
      }
    }
  }

  lemma CreateKeepsInv(s: State, op: Op)
    requires Inv(s) && op.OpCreate? && Step(s, op).outcome.Ok?
    ensures Inv(Step(s, op).state)
  {
    CreateEffect(s, op);
    var s' := Step(s, op).state;
    hide Step;
    TransferKeepsNonNegative(s.balances, op.terms.asset, op.terms.lender, s.self, op.terms.amount);
    CreateKeepsIndex(s, s', s'.escrows[s.nextId]);
    hide SellersIndexed;
    hide Payments;
    hide Transfer;
  }

  lemma CreateBalances(s: State, op: Op, t: Address)
    requires Inv(s) && op.OpCreate? && Step(s, op).outcome.Ok?
    ensures Pool(Step(s, op).state, t) - Pool(s, t) == Books(Step(s, op).state, t) - Books(s, t)
  {
    CreateEffect(s, op);
    var s' := Step(s, op).state;
    hide Step;
    hide Total;
    TransferMoves(s.balances, op.terms.asset, op.terms.lender, s.self, op.terms.amount, t, s.self);
    hide Transfer;
    hide SellersIndexed;
    NewEscrowInBooks(s, s'.escrows[s.nextId], t);
    hide Payments;
    hide Deposits;
  }

  lemma NewEscrowOpen(s: State, e: Escrow, t: Address)
    requires Dense(s) && e.status == Active
    ensures OpenAmounts(s.escrows[s.nextId := e], t)
            == if e.terms.asset == t then OpenAmounts(s.escrows, t)[s.nextId := e.terms.amount as int] else OpenAmounts(s.escrows, t)
    ensures s.nextId !in OpenAmounts(s.escrows, t)
  {
  }

  lemma NewEscrowKept(s: State, e: Escrow, t: Address)
    requires Dense(s) && e.status == Active
    ensures KeptAmounts(s.escrows[s.nextId := e], t) == KeptAmounts(s.escrows, t)
  {
  }

  lemma NewEscrowCross(s: State, e: Escrow, pays: map<U64, Payment>, t: Address)
    requires Dense(s) && e.status == Active
    ensures CrossAmounts(s.escrows[s.nextId := e], pays, t) == CrossAmounts(s.escrows, pays, t)
  {
  }

  lemma NewEscrowInBooks(s: State, e: Escrow, t: Address)
    requires Dense(s) && e.status == Active
    ensures var escrows' := s.escrows[s.nextId := e];
            && Total(OpenAmounts(escrows', t)) == Total(OpenAmounts(s.escrows, t)) + (if e.terms.asset == t then e.terms.amount else 0)
            && KeptAmounts(escrows', t) == KeptAmounts(s.escrows, t)
            && forall pays :: CrossAmounts(escrows', pays, t) == CrossAmounts(s.escrows, pays, t)
  {
    NewEscrowOpen(s, e, t);
    NewEscrowKept(s, e, t);
    forall pays
      ensures CrossAmounts(s.escrows[s.nextId := e], pays, t) == CrossAmounts(s.escrows, pays, t)
    {
      NewEscrowCross(s, e, pays, t);
    }
    TotalInsert(OpenAmounts(s.escrows, t), s.nextId, e.terms.amount);
    hide *;
  }

  predicate Disputing(op: Op) { op.OpRaise? || op.OpDispute? }

  lemma DisputeEffect(s: State, op: Op)
    requires Disputing(op) && Step(s, op).outcome.Ok?
    ensures var s' := Step(s, op).state;
            && op.id in s.escrows && s.escrows[op.id].status == Active
            && s'.escrows[op.id] == s.escrows[op.id].(status := Disputed, dispute := s'.escrows[op.id].dispute)
            && s' == s.(escrows := s.escrows[op.id := s'.escrows[op.id]])
  {
  }

  lemma DisputeKeepsInv(s: State, op: Op)
    requires Inv(s) && Disputing(op) && Step(s, op).outcome.Ok?
    ensures Inv(Step(s, op).state)
  {
    DisputeEffect(s, op);
    var s' := Step(s, op).state;
    hide Step;
    SellersUnchanged(s, s', op.id);
    hide SellersIndexed;
    hide Payments;
  }

  lemma DisputedBooks(escrows: map<U64, Escrow>, pays: map<U64, Payment>, id: U64, e: Escrow, t: Address)
    requires id in escrows && escrows[id].status == Active && e.status == Disputed && e.terms == escrows[id].terms
    ensures OpenAmounts(escrows[id := e], t) == OpenAmounts(escrows, t)
    ensures KeptAmounts(escrows[id := e], t) == KeptAmounts(escrows, t)
    ensures CrossAmounts(escrows[id := e], pays, t) == CrossAmounts(escrows, pays, t)
  {
  }

  lemma DisputeBalances(s: State, op: Op, t: Address)
    requires Disputing(op) && Step(s, op).outcome.Ok?
    ensures Pool(Step(s, op).state, t) == Pool(s, t) && Books(Step(s, op).state, t) == Books(s, t)
  {
    DisputeEffect(s, op);
    var s' := Step(s, op).state;
    hide Step;
    hide Total;
    hide Payments;
    hide Deposits;
    hide OpenAmounts;
    hide KeptAmounts;
    hide CrossAmounts;
    DisputedBooks(s.escrows, Payments(s.log), op.id, s'.escrows[op.id], t);
  }

  lemma OutsideEffect(s: State, op: Op, t: Address)
    requires op.OpTransfer? && Step(s, op).outcome.Ok?
    ensures var s' := Step(s, op).state;
            && s' == s.(balances := s'.balances, log := s'.log)
            && Transfer(s.balances, op.token, op.from, op.to, op.amount) == Some(s'.balances)
            && Payments(s'.log) == Payments(s.log)
            && Pool(s', t) - Pool(s, t) == Deposits(s'.log, t) - Deposits(s.log, t)
  {
    TransferMoves(s.balances, op.token, op.from, op.to, op.amount, t, s.self);
    LogDeposited(s.log, op.token, op.from, op.amount, t);
    hide Transfer;
    hide Payments;
    hide Deposits;
  }

  lemma OutsideKeepsInv(s: State, op: Op)
    requires Inv(s) && op.OpTransfer? && Step(s, op).outcome.Ok?
    ensures Inv(Step(s, op).state)
  {
    OutsideEffect(s, op, 0);
    var s' := Step(s, op).state;
    hide Step;
    TransferKeepsNonNegative(s.balances, op.token, op.from, op.to, op.amount);
    hide Transfer;
    hide Payments;
    forall v
      ensures SellerList(s', v) == SellerList(s, v)
    {
    }
  }

  lemma StepKeepsInv(s: State, op: Op)
    requires Inv(s)
    ensures Inv(Step(s, op).state)
  {
    FailedCallChangesNothing(s, op);
    if Step(s, op).outcome.Ok? {
      if Closing(op) {
        var status, p := ClosingStep(s, op);
        CloseKeepsInv(s, Step(s, op).state, op.id, status, p);
        hide *;
      } else if op.OpCreate? {
        CreateKeepsInv(s, op);
        hide *;
      } else if Disputing(op) {
        DisputeKeepsInv(s, op);
        hide *;
      } else if op.OpTransfer? {
        OutsideKeepsInv(s, op);
        hide *;
      } else {
        hide Payments;
        hide Create;
        forall v
          ensures SellerList(Step(s, op).state, v) == SellerList(s, v)
        {
        }
      }
    } else {
      hide *;
    }
  }

  /** Every step moves the pool of every token exactly as it moves the books. */
  lemma StepBalances(s: State, op: Op, t: Address)
    requires Inv(s)
    ensures Pool(Step(s, op).state, t) - Pool(s, t) == Books(Step(s, op).state, t) - Books(s, t)
  {
    FailedCallChangesNothing(s, op);
    if Step(s, op).outcome.Ok? {
      if Closing(op) {
        var status, p := ClosingStep(s, op);
        CloseKeepsInv(s, Step(s, op).state, op.id, status, p);
        CloseBalances(s, Step(s, op).state, op.id, status, p, t);
        hide *;
      } else if op.OpCreate? {
        CreateBalances(s, op, t);
        hide *;
      } else if Disputing(op) {
        DisputeBalances(s, op, t);
        hide *;
      } else if op.OpTransfer? {
        OutsideEffect(s, op, t);
        hide Step;
        hide Total;
      } else {
        hide Create;
        hide Payments;
        hide Deposits;
        hide Total;
      }
    } else {
      hide *;
    }
  }

  // ----- results about runs

  lemma {:induction false} ReachableInv(s0: State, ops: seq<Op>)
    requires Initial(s0)
    ensures Inv(After(s0, ops))
  {
    hide Step;
    hide Inv;
    if ops == [] {
      InitialInv(s0);
    } else {
      var before := ops[..|ops| - 1];
      ReachableInv(s0, before);
      StepKeepsInv(After(s0, before), ops[|ops| - 1]);
    }
  }

  /** The pool equation. For every token and every run, the contract's balance is
      what it held at the start, plus outside deposits, plus the amounts of the
      open escrows, plus the source amounts kept from cross-asset releases, minus
      the destination amounts paid for those, plus whatever was paid to the
      contract itself. */
  lemma {:induction false} PoolEquation(s0: State, ops: seq<Op>, t: Address)
    requires Initial(s0)
    ensures Pool(After(s0, ops), t) == Pool(s0, t) + Books(After(s0, ops), t)
  {
    hide Step;
    hide Inv;
    hide Pool;
    if ops == [] {
      EmptyBooks(s0, t);
    } else {
      hide Books;
      var before := ops[..|ops| - 1];
      PoolEquation(s0, before, t);
      ReachableInv(s0, before);
      StepBalances(After(s0, before), ops[|ops| - 1], t);
    }
  }

  lemma EmptyBooks(s: State, t: Address)
    requires Initial(s)
    ensures Books(s, t) == 0
  {
    assert OpenAmounts(s.escrows, t) == map[];
    assert KeptAmounts(s.escrows, t) == map[];
    assert CrossAmounts(s.escrows, Payments(s.log), t) == map[];
    assert ReturnedAmounts(s.self, Payments(s.log), t) == map[];
  }

  /** No party of any escrow is the contract itself. */
  predicate PartiesOutside(s: State) {
    forall id :: id in s.escrows ==> s.escrows[id].terms.buyer != s.self && s.escrows[id].terms.seller != s.self
  }

  predicate SameAssetOnly(s: State) {
    forall id :: id in s.escrows ==> s.escrows[id].terms.asset == s.escrows[id].terms.destinationAsset
  }

  /** With outside parties nothing is ever paid back to the pool. */
  lemma NothingReturned(s: State, t: Address)
    requires Inv(s) && PartiesOutside(s)
    ensures ReturnedAmounts(s.self, Payments(s.log), t) == map[]
  {
    hide Payments;
    hide SellersIndexed;
  }

  lemma NothingCrossed(s: State, t: Address)
    requires SameAssetOnly(s)
    ensures KeptAmounts(s.escrows, t) == map[]
    ensures CrossAmounts(s.escrows, Payments(s.log), t) == map[]
  {
    hide Payments;
  }

  /** With same-asset escrows between outside parties, the pool is exactly what it
      started with, the deposits and the open amounts. */
  lemma SameAssetPool(s0: State, ops: seq<Op>, t: Address)
    requires Initial(s0) && PartiesOutside(After(s0, ops)) && SameAssetOnly(After(s0, ops))
    ensures var s := After(s0, ops);
            Pool(s, t) == Pool(s0, t) + Deposits(s.log, t) + Total(OpenAmounts(s.escrows, t))
  {
    PoolEquation(s0, ops, t);
    ReachableInv(s0, ops);
    hide After;
    hide Inv;
    hide Pool;
    NothingReturned(After(s0, ops), t);
    NothingCrossed(After(s0, ops), t);
    EmptyTotal<U64>();
    hide Total;
    hide Deposits;
    hide OpenAmounts;
  }

  /** The open escrows that are not disputed. */
  function ActiveAmounts(escrows: map<U64, Escrow>, t: Address): map<U64, int> {
    map id | id in escrows && escrows[id].status == Active && escrows[id].terms.asset == t :: escrows[id].terms.amount as int
  }

  function DisputedAmounts(escrows: map<U64, Escrow>, t: Address): map<U64, int> {
    map id | id in escrows && escrows[id].status == Disputed && escrows[id].terms.asset == t :: escrows[id].terms.amount as int
  }

  /** The claim of the fuzz target, that the contract holds exactly the amounts of its
      Active escrows, holds of a token after a run exactly when what else the pool took in
      (its start, deposits, disputed escrows, kept source amounts, payments to itself)
      equals what it paid out across assets. */
  lemma FuzzClaimExactly(s0: State, ops: seq<Op>, t: Address)
    requires Initial(s0)
    ensures var s := After(s0, ops);
            var pays := Payments(s.log);
            Pool(s, t) == Total(ActiveAmounts(s.escrows, t))
            <==> Pool(s0, t) + Deposits(s.log, t) + Total(DisputedAmounts(s.escrows, t))
                 + Total(KeptAmounts(s.escrows, t)) + Total(ReturnedAmounts(s.self, pays, t))
                 == Total(CrossAmounts(s.escrows, pays, t))
  {
    PoolEquation(s0, ops, t);
    ReachableInv(s0, ops);
    hide Inv;
    hide After;
    hide Pool;
    hide Payments;
    hide Deposits;
    hide Total;
    ActiveOrDisputed(After(s0, ops), t);
  }

  /** So in the fuzz target's own setting, with same-asset escrows between outside parties,
      no deposits and an empty start, it holds exactly while no escrow is disputed. */
  lemma FuzzClaimSameAsset(s0: State, ops: seq<Op>, t: Address)
    requires Initial(s0) && PartiesOutside(After(s0, ops)) && SameAssetOnly(After(s0, ops))
    requires Pool(s0, t) == 0 && Deposits(After(s0, ops).log, t) == 0
    ensures var s := After(s0, ops);
            Pool(s, t) == Total(ActiveAmounts(s.escrows, t))
            <==> forall id :: id in s.escrows && s.escrows[id].terms.asset == t ==> s.escrows[id].status != Disputed
  {
    FuzzClaimExactly(s0, ops, t);
    ReachableInv(s0, ops);
    NothingReturned(After(s0, ops), t);
    NothingCrossed(After(s0, ops), t);
    EmptyTotal<U64>();
    hide Inv;
    ActiveOrDisputed(After(s0, ops), t);
    NoneDisputed(After(s0, ops).escrows, t);
    hide *;
  }

  lemma NoneDisputed(escrows: map<U64, Escrow>, t: Address)
    ensures DisputedAmounts(escrows, t) == map[]
            <==> forall id :: id in escrows && escrows[id].terms.asset == t ==> escrows[id].status != Disputed
  {
    if DisputedAmounts(escrows, t) == map[] {
      forall id | id in escrows && escrows[id].terms.asset == t
        ensures escrows[id].status != Disputed
      {
        assert id !in DisputedAmounts(escrows, t);
      }
    }
  }

  lemma ActiveOrDisputed(s: State, t: Address)
    requires Inv(s)
    ensures Total(OpenAmounts(s.escrows, t)) == Total(ActiveAmounts(s.escrows, t)) + Total(DisputedAmounts(s.escrows, t))
    ensures Total(DisputedAmounts(s.escrows, t)) == 0 <==> DisputedAmounts(s.escrows, t) == map[]
  {
    hide SellersIndexed;
    hide PaidIffClosed;
    assert OpenAmounts(s.escrows, t) == ActiveAmounts(s.escrows, t) + DisputedAmounts(s.escrows, t);
    TotalUnion(ActiveAmounts(s.escrows, t), DisputedAmounts(s.escrows, t));
    TotalPositive(DisputedAmounts(s.escrows, t));
  }

  /** The cross-asset payouts in an escrow's token have eaten what the books hold for
      everybody else, and some of its own amount. */
  ghost predicate Starved(s0: State, s: State, id: U64)
    requires id in s.escrows
  {
    var t := s.escrows[id].terms.asset;
    var pays := Payments(s.log);
    Pool(s0, t) + Deposits(s.log, t) + Total(OpenAmounts(s.escrows, t) - {id})
    + Total(KeptAmounts(s.escrows, t)) + Total(ReturnedAmounts(s.self, pays, t))
    < Total(CrossAmounts(s.escrows, pays, t))
  }

  lemma StarvedExactly(s0: State, ops: seq<Op>, id: U64)
    requires Initial(s0) && id in After(s0, ops).escrows && Open(After(s0, ops).escrows[id])
    ensures var s := After(s0, ops);
            Pool(s, s.escrows[id].terms.asset) < s.escrows[id].terms.amount <==> Starved(s0, s, id)
  {
    var s := After(s0, ops);
    var t := s.escrows[id].terms.asset;
    PoolEquation(s0, ops, t);
    hide After;
    hide Total;
    assert id in OpenAmounts(s.escrows, t);
    TotalRemove(OpenAmounts(s.escrows, t), id);
    hide Payments;
    hide Deposits;
  }

  /** A refund, by expiry or by a decision on a dispute, stops for lack of balance exactly
      when it is due and the escrow is starved. */
  lemma RefundStarvedExactly(s0: State, ops: seq<Op>, id: U64, answers: Answers)
    requires Initial(s0)
    ensures var s := After(s0, ops);
            && (Refund(s, id, answers).outcome == Err(InsufficientBalance)
                <==> id in s.escrows && s.escrows[id].status == Active && s.clock > s.escrows[id].terms.expiryTs
                     && Starved(s0, s, id))
            && (Resolve(s, id, false, answers).outcome == Err(InsufficientBalance)
                <==> id in s.escrows && s.escrows[id].status == Disputed && Starved(s0, s, id))
  {
    var s := After(s0, ops);
    if id in s.escrows && Open(s.escrows[id]) {
      StarvedExactly(s0, ops, id);
    }
    hide After;
    hide Starved;
    hide PayFromPool;
  }

  lemma DepositsNonNegative(s: State, op: Op, t: Address)
    requires Inv(s)
    ensures Deposits(Step(s, op).state.log, t) >= Deposits(s.log, t)
  {
    FailedCallChangesNothing(s, op);
    if Step(s, op).outcome.Ok? {
      if op.OpTransfer? {
        LogDeposited(s.log, op.token, op.from, op.amount, t);
        hide Deposits;
        hide Inv;
      } else if Closing(op) {
        var status, p := ClosingStep(s, op);
        LogPaid(s.log, p, t);
        hide Deposits;
        hide Step;
        hide Inv;
        hide Transfer;
        hide PaidRight;
      } else if op.OpCreate? {
        CreateEffect(s, op);
        hide *;
      } else if Disputing(op) {
        DisputeEffect(s, op);
        hide *;
      } else {
        hide Deposits;
        hide Inv;
      }
    }
  }

  lemma {:induction false} DepositsGrow(s0: State, ops: seq<Op>, t: Address)
    requires Initial(s0)
    ensures Deposits(After(s0, ops).log, t) >= 0
  {
    hide Step;
    if ops != [] {
      hide Deposits;
      DepositsGrow(s0, ops[..|ops| - 1], t);
      ReachableInv(s0, ops[..|ops| - 1]);
      hide Inv;
      DepositsNonNegative(After(s0, ops[..|ops| - 1]), ops[|ops| - 1], t);
    }
  }

  /** While every escrow pays out in its own token, the pool of each token covers
      all its open escrows together, so no refund can lack the balance. */
  lemma SameAssetNeverStarves(s0: State, ops: seq<Op>, id: U64, answers: Answers)
    requires Initial(s0) && SameAssetOnly(After(s0, ops))
    ensures var s := After(s0, ops);
            && (forall t :: Pool(s, t) >= Total(OpenAmounts(s.escrows, t)))
            && Refund(s, id, answers).outcome != Err(InsufficientBalance)
            && Resolve(s, id, false, answers).outcome != Err(InsufficientBalance)
  {
    var s := After(s0, ops);
    ReachableInv(s0, ops);
    hide After;
    forall t
      ensures Pool(s, t) >= Total(OpenAmounts(s.escrows, t))
    {
      PoolCovers(s0, ops, t);
    }
    if id in s.escrows && Open(s.escrows[id]) {
      var t := s.escrows[id].terms.asset;
      hide SellersIndexed;
      hide PaidIffClosed;
      assert id in OpenAmounts(s.escrows, t);
      TotalNonNegative(OpenAmounts(s.escrows, t));
      assert OpenAmounts(s.escrows, t)[id] <= Pool(s, t);
    }
    hide PayFromPool;
    hide Inv;
  }

  lemma PoolCovers(s0: State, ops: seq<Op>, t: Address)
    requires Initial(s0) && SameAssetOnly(After(s0, ops))
    ensures Pool(After(s0, ops), t) >= Total(OpenAmounts(After(s0, ops).escrows, t))
  {
    var s := After(s0, ops);
    PoolEquation(s0, ops, t);
    ReachableInv(s0, ops);
    DepositsGrow(s0, ops, t);
    hide After;
    NothingCrossed(s, t);
    EmptyTotal<U64>();
    assert forall id :: id in Payments(s.log) ==> Payments(s.log)[id].amount >= 0 by {
      hide SellersIndexed;
      hide Payments;
      hide Dense;
    }
    TotalNonNegative(ReturnedAmounts(s.self, Payments(s.log), t));
    hide Total;
    hide Inv;
    hide Payments;
    hide Deposits;
    hide OpenAmounts;
    hide ReturnedAmounts;
  }

  // ----- one payout per escrow

  /** Each escrow's payments in the log number one once it is Released or
      Refunded, and none before. */
  lemma {:induction false} PaidExactlyOnce(s0: State, ops: seq<Op>, id: U64)
    requires Initial(s0)
    ensures var s := After(s0, ops);
            PaymentCount(s.log, id) == if id in s.escrows && !Open(s.escrows[id]) then 1 else 0
  {
    hide Step;
    hide Inv;
    if ops != [] {
      hide PaymentCount;
      var before := ops[..|ops| - 1];
      PaidExactlyOnce(s0, before, id);
      ReachableInv(s0, before);
      CountAfterStep(After(s0, before), ops[|ops| - 1], id);
    }
  }

  predicate Closed(s: State, id: U64) { id in s.escrows && !Open(s.escrows[id]) }

  lemma CountAfterClosing(s: State, op: Op, id: U64)
    requires Inv(s) && Closing(op) && Step(s, op).outcome.Ok?
    ensures CountMoves(s, Step(s, op).state, id)
  {
    var status, p := ClosingStep(s, op);
    hide Step;
    hide Inv;
    assert (s.log + [Paid(p)])[..|s.log|] == s.log;
    hide Transfer;
    hide PaidRight;
  }

  lemma CountAfterOutside(s: State, op: Op, id: U64)
    requires op.OpTransfer? && Step(s, op).outcome.Ok?
    ensures CountMoves(s, Step(s, op).state, id)
  {
    var last := Deposited(op.token, op.from, op.amount);
    assert (s.log + [last])[..|s.log|] == s.log;
    assert PaymentCount(s.log + [last], id) == PaymentCount(s.log, id);
    hide PaymentCount;
    hide Transfer;
  }

  /** Closed escrows stay closed, and a payment is logged for id in the very step
      that closes it and in no other. */
  predicate CountMoves(s: State, s': State, id: U64) {
    && (Closed(s, id) ==> Closed(s', id))
    && PaymentCount(s'.log, id) == PaymentCount(s.log, id) + if Closed(s', id) && !Closed(s, id) then 1 else 0
  }

  lemma CountAfterStep(s: State, op: Op, id: U64)
    requires Inv(s)
    ensures CountMoves(s, Step(s, op).state, id)
  {
    FailedCallChangesNothing(s, op);
    if Step(s, op).outcome.Ok? {
      if Closing(op) {
        CountAfterClosing(s, op, id);
        hide *;
      } else if op.OpCreate? {
        CreateEffect(s, op);
        hide Step;
        hide PaymentCount;
      } else if op.OpTransfer? {
        CountAfterOutside(s, op, id);
        hide *;
      } else {
        hide PaymentCount;
        hide Create;
        hide Release;
        hide Refund;
        hide Resolve;
      }
    } else {
      hide Step;
      hide PaymentCount;
    }
  }

  /** The final status tells who was paid: the seller the agreed amount, or at
      least the agreed minimum in another token; or the buyer the full amount. */
  lemma PaidAsAgreed(s0: State, ops: seq<Op>, id: U64)
    requires Initial(s0) && Closed(After(s0, ops), id)
    ensures var s := After(s0, ops);
            id in Payments(s.log) && PaidRight(s.escrows[id], Payments(s.log)[id])
  {
    ReachableInv(s0, ops);
    hide After;
    hide SellersIndexed;
    hide Payments;
  }

  /** What later steps leave alone: terms always, and everything once closed. */
  predicate EscrowKept(s: State, s': State, id: U64)
    requires id in s.escrows
  {
    && id in s'.escrows && s'.escrows[id].terms == s.escrows[id].terms
    && s'.escrows[id].createdAt == s.escrows[id].createdAt
    && (!Open(s.escrows[id]) ==> s'.escrows[id] == s.escrows[id])
    && (s.escrows[id].status == Disputed ==> s'.escrows[id].status != Active)
  }

  lemma StepKeepsEscrow(s: State, op: Op, id: U64)
    requires Inv(s) && id in s.escrows
    ensures EscrowKept(s, Step(s, op).state, id)
  {
    FailedCallChangesNothing(s, op);
    if Step(s, op).outcome.Ok? {
      if Closing(op) {
        var status, p := ClosingStep(s, op);
        hide Step;
      } else if op.OpCreate? {
        CreateEffect(s, op);
        hide Step;
      } else {
        hide Create;
        hide Release;
        hide Refund;
        hide Resolve;
        hide Transfer;
      }
    }
  }

  /** Released and Refunded are final; a dispute never goes back to Active. */
  lemma {:induction false} ClosedForGood(s0: State, a: seq<Op>, b: seq<Op>, id: U64)
    requires Initial(s0) && id in After(s0, a).escrows
    ensures EscrowKept(After(s0, a), After(s0, a + b), id)
  {
    hide Step;
    hide Inv;
    if b == [] {
      assert a + b == a;
    } else {
      var c := b[..|b| - 1];
      assert (a + b)[..|a + b| - 1] == a + c;
      ClosedForGood(s0, a, c, id);
      ReachableInv(s0, a + c);
      StepKeepsEscrow(After(s0, a + c), b[|b| - 1], id);
    }
  }

  /** Ids are dense and each seller's list is the ascending list of exactly that
      seller's escrows. */
  lemma IndexesAgree(s0: State, ops: seq<Op>, seller: Address)
    requires Initial(s0)
    ensures var s := After(s0, ops);
            && (forall id: U64 :: id in s.escrows <==> 1 <= id < s.nextId)
            && Ascending(SellerList(s, seller))
            && (forall id :: id in SellerList(s, seller) <==> id in s.escrows && s.escrows[id].terms.seller == seller)
  {
    ReachableInv(s0, ops);
    hide After;
    hide Payments;
  }

  /** A cross-asset release pays the seller the source amount at the stored rate,
      rounded down, and never less than the agreed minimum. */
  lemma ReleaseAtRate(s: State, id: U64, answers: Answers)
    requires Inv(s) && id in s.escrows && PayAndRelease(s, id, answers).outcome.Ok?
    requires s.escrows[id].terms.asset != s.escrows[id].terms.destinationAsset
    ensures var t := s.escrows[id].terms;
            var rate := if s.rate.Some? then s.rate.value else 1000000;
            var log := PayAndRelease(s, id, answers).state.log;
            exists dest: I128 ::
              && log == s.log + [Paid(Payment(id, t.destinationAsset, t.seller, dest))]
              && dest * 1000000 <= t.amount * rate < (dest + 1) * 1000000
              && dest >= t.minDestinationAmount > 0
  {
    var t := s.escrows[id].terms;
    var rate := if s.rate.Some? then s.rate.value else 1000000;
    var dest := EstimatePathPayment(s, t.amount).value;
    assert dest >= t.minDestinationAmount > 0 && dest == TruncDiv(t.amount * rate, 1000000) by {
      hide Transfer;
      hide Dense;
      hide SellersIndexed;
      hide PaidIffClosed;
      hide TruncDiv;
    }
    NegativeQuote(t.amount * rate);
    hide Inv;
    hide Transfer;
    hide TruncDiv;
    assert PayAndRelease(s, id, answers).state.log == s.log + [Paid(Payment(id, t.destinationAsset, t.seller, dest))];
  }

  lemma NegativeQuote(x: int)
    ensures x < 0 ==> TruncDiv(x, 1000000) <= 0
  {
  }

  // ----- a refund that cannot be paid

  const BUYER: Address := 1
  const SELLER: Address := 2
  const LENDER: Address := 3
  const SELF: Address := 9
  const GOLD: Address := 20
  const COIN: Address := 21

  function ExampleTerms(asset: Address): Terms {
    Terms(BUYER, SELLER, LENDER, 0, 10, asset, 1, 100, COIN, 10, 0, [])
  }

  const FINE := Answers(true, true, Some([Confirmation(1, true)]), true, 0, true)

  function Lender10Each(): map<(Address, Address), I128> {
    map[(GOLD, LENDER) := 10, (COIN, LENDER) := 10]
  }

  /** With cross-asset releases the pool can run dry: the seller of a GOLD escrow
      is paid in COIN that was put in for another escrow, whose refund then fails. */
  lemma CrossAssetCanStarve() returns (s0: State, ops: seq<Op>)
    ensures Initial(s0) && PartiesOutside(After(s0, ops))
    ensures Refund(After(s0, ops), 1, FINE).outcome == Err(InsufficientBalance)
  {
    var s := State(SELF, map[], 1, map[], None, Lender10Each(), [], 0);
    s0 := s;
    var coin, gold, release, tick :=
      OpCreate(ExampleTerms(COIN), FINE), OpCreate(ExampleTerms(GOLD), FINE), OpRelease(2, FINE), OpTick(200);
    ops := [coin] + [gold] + [release] + [tick];
    AfterFour(s0, coin, gold, release, tick);
    hide After;
    hide Step;
    var s1 := Step(s0, coin).state;
    var s2 := Step(s1, gold).state;
    var s3 := Step(s2, release).state;
    ExampleCreated(s0, COIN, s1);
    ExampleCreated(s1, GOLD, s2);
    ExampleReleased(s2, s3);
    ExampleTicked(s3, After(s0, ops));
    hide Refund;
    ExampleStarved(After(s0, ops));
  }

  lemma AfterFour(s: State, a: Op, b: Op, c: Op, d: Op)
    ensures After(s, [a] + [b] + [c] + [d]) == Step(Step(Step(Step(s, a).state, b).state, c).state, d).state
  {
    hide Step;
    var ops := [a] + [b] + [c] + [d];
    assert ops[..3] == [a] + [b] + [c] && ([a] + [b] + [c])[..2] == [a] + [b] && ([a] + [b])[..1] == [a] && [a][..0] == [];
    assert After(s, []) == s;
    assert After(s, [a]) == Step(s, a).state;
    assert After(s, [a] + [b]) == Step(Step(s, a).state, b).state;
    assert After(s, [a] + [b] + [c]) == Step(Step(Step(s, a).state, b).state, c).state;
  }

  lemma ExampleTicked(s: State, s': State)
    requires s' == Step(s, OpTick(200)).state && s.clock == 0
    ensures s' == s.(clock := 200)
  {
  }

  lemma ExampleStarved(s: State)
    requires s.self == SELF && s.clock == 200 && (COIN, SELF) in s.balances && s.balances[(COIN, SELF)] == 0
    requires 1 in s.escrows && s.escrows[1].terms == ExampleTerms(COIN) && s.escrows[1].status == Active
    ensures Refund(s, 1, FINE).outcome == Err(InsufficientBalance)
  {
  }

  lemma ExampleCreated(s: State, asset: Address, s': State)
    requires s' == Step(s, OpCreate(ExampleTerms(asset), FINE)).state
    requires s.self == SELF && s.nextId < 5 && (asset, LENDER) in s.balances && s.balances[(asset, LENDER)] == 10
    requires (asset, SELF) !in s.balances
    ensures s'.self == SELF && s'.nextId == s.nextId + 1 && s'.rate == s.rate && s'.clock == s.clock
    ensures s'.escrows == s.escrows[s.nextId := Escrow(s.nextId, ExampleTerms(asset), Active, s.clock, None)]
    ensures s'.balances == s.balances[(asset, LENDER) := 0][(asset, SELF) := 10] && s'.log == s.log
  {
  }

  lemma ExampleReleased(s: State, s': State)
    requires s' == Step(s, OpRelease(2, FINE)).state
    requires s.self == SELF && s.rate == None && (COIN, SELF) in s.balances && s.balances[(COIN, SELF)] == 10
    requires (COIN, SELLER) !in s.balances
    requires 2 in s.escrows && s.escrows[2].terms == ExampleTerms(GOLD) && s.escrows[2].status == Active
    ensures s'.self == SELF && s'.clock == s.clock
    ensures s'.escrows == s.escrows[2 := s.escrows[2].(status := Released)]
    ensures (COIN, SELF) in s'.balances && s'.balances[(COIN, SELF)] == 0
  {
    assert FINE.confirmations.value[0].eventType == 1;
    assert HasConfirmation(FINE.confirmations, 1);
  }

  /** One disputed escrow is enough to falsify the fuzz target's claim. */
  lemma FuzzClaimFails() returns (s0: State, ops: seq<Op>)
    ensures Initial(s0) && PartiesOutside(After(s0, ops)) && SameAssetOnly(After(s0, ops))
    ensures Pool(s0, COIN) == 0 && Deposits(After(s0, ops).log, COIN) == 0
    ensures Pool(After(s0, ops), COIN) != Total(ActiveAmounts(After(s0, ops).escrows, COIN))
  {
    s0 := State(SELF, map[], 1, map[], None, Lender10Each(), [], 0);
    var create, dispute := OpCreate(ExampleTerms(COIN), FINE), OpDispute(1, BUYER);
    ops := [create] + [dispute];
    var s1 := Step(s0, create).state;
    var s2 := Step(s1, dispute).state;
    ExampleCreated(s0, COIN, s1);
    assert s2 == s1.(escrows := map[1 := Escrow(1, ExampleTerms(COIN), Disputed, 0, None)]) by { ExampleDisputed(s1); }
    assert After(s0, ops) == s2 by { AfterTwo(s0, create, dispute); }
    hide After;
    hide Step;
    FuzzClaimSameAsset(s0, ops, COIN);
    assert s2.escrows[1].status == Disputed;
  }

  lemma ExampleDisputed(s: State)
    requires s.escrows == map[1 := Escrow(1, ExampleTerms(COIN), Active, 0, None)]
    ensures Step(s, OpDispute(1, BUYER)).state
            == s.(escrows := map[1 := Escrow(1, ExampleTerms(COIN), Disputed, 0, None)])
  {
  }

  lemma AfterTwo(s: State, a: Op, b: Op)
    ensures After(s, [a] + [b]) == Step(Step(s, a).state, b).state
  {
    hide Step;
    assert ([a] + [b])[..1] == [a] && [a][..0] == [];
    assert After(s, []) == s;
    assert After(s, [a]) == Step(s, a).state;
  }
}
