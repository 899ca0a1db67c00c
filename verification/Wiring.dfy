/** What the contracts publish against what the indexer waits for: the events of every run
    of the escrow manager and of the collateral registry, fed to their indexers. */
module Wiring {
  import opened MachineInts
  import opened Indexer
  import opened IndexerRuns
  import E = Escrow
  import ER = EscrowRuns
  import EA = EscrowAcceptance
  import C = CollateralRegistry
  import CF = CollateralFacts

  /** The topics that the handlers match. */
  function NameOf(symbol: string): Name {
    if symbol == "coll_reg" then CollReg
    else if symbol == "coll_lock" then CollLock
    else if symbol == "coll_unlk" then CollUnlk
    else if symbol == "esc_crtd" then EscCrtd
    else if symbol == "esc_act" then EscAct
    else if symbol == "esc_rel" then EscRel
    else if symbol == "esc_disp" then EscDisp
    else if symbol == "esc_rslv" then EscRslv
    else OtherName
  }

  /** A published tuple arrives as a vector of its parts. */
  function Publish(symbol: string, args: seq<ScVal>, ledger: U64): Event {
    Named(NameOf(symbol), Some(args), ledger)
  }

  /** Something no handler waits for, such as what `initialize` publishes. */
  predicate Unnoticed(e: Event) { e.Skipped? || (e.Named? && e.name == OtherName) }

  // ----- the escrow manager

  function Addr(show: E.Address -> string, a: E.Address): ScVal { AddressVal(show(a)) }

  /** What the payout of a release publishes on the way. */
  function PayoutEvents(show: E.Address -> string, s: E.State, t: E.Terms, id: U64, answers: E.Answers, ledger: U64): seq<Event> {
    var dest := E.EstimatePathPayment(s, t.amount);
    var fee := TruncDiv(t.amount * answers.feeBps, 10000);
    (if t.asset == t.destinationAsset || dest.Err? || !FitsI128(dest.value) then []
     else [Publish("path_pay", [U64Val(id), I128Val(t.amount), I128Val(dest.value)], ledger)])
    + (if fee <= 0 || !FitsI128(fee) then []
       else [Publish("fee_col", [U64Val(id), I128Val(fee), Addr(show, t.asset)], ledger)])
  }

  /** The events that one accepted call publishes. */
  function EscrowEvents(show: E.Address -> string, s: E.State, op: E.Op, ledger: U64): seq<Event> {
    var r := E.Step(s, op);
    if r.outcome.Err? then [] else
      match op
      case OpCreate(t, _) =>
        [Publish("esc_crtd", [U64Val(r.outcome.value), Addr(show, t.buyer), Addr(show, t.seller), Addr(show, t.lender),
                              I128Val(t.amount)], ledger)]
      case OpRaise(id, disputer, _) => [Publish("esc_disp", [U64Val(id), Addr(show, disputer), OtherVal], ledger)]
      case OpDispute(id, _) => [Publish("esc_dsp", [U64Val(id)], ledger)]
      case OpRelease(id, answers) =>
        (if id in s.escrows then PayoutEvents(show, s, s.escrows[id].terms, id, answers, ledger) else [])
        + [Publish("esc_rel", [U64Val(id)], ledger)]
      case OpRefund(id, _) => [Publish("esc_rfnd", [U64Val(id)], ledger)]
      case OpResolve(id, toSeller, answers) =>
        (if toSeller && id in s.escrows then PayoutEvents(show, s, s.escrows[id].terms, id, answers, ledger) else [])
        + [Publish("esc_rslv", [U64Val(id), U32Val(if toSeller then 0 else 1)], ledger)]
      case _ => []
  }

  /** The events of a run, call by call, in the ledgers they were made in. */
  function EscrowStream(show: E.Address -> string, s0: E.State, ops: seq<E.Op>, ledgers: seq<U64>): seq<Event>
    requires |ledgers| == |ops|
  {
    if ops == [] then [] else
      var n := |ops| - 1;
      EscrowStream(show, s0, ops[..n], ledgers[..n]) + EscrowEvents(show, E.After(s0, ops[..n]), ops[n], ledgers[n])
  }

  /** A creation as the manager publishes it cannot be handled: its fourth part is the
      lender, where the handler reads the amount. */
  lemma CreationRefused(setup: Setup, e: Event)
    requires setup.contract == EscrowContract && e.Named? && e.name == EscCrtd && e.args.Some?
    requires |e.args.value| >= 4 && e.args.value[3].AddressVal?
    ensures Handle(setup, e).None?
  {
  }

  /** What an event about a new escrow would have to look like, once addresses can be looked
      up: an id, two addresses and a
      number; and if both users are known, they must differ and the number must be positive
      and within 64 bits. */
  lemma CreationHandledExactly(setup: Setup, args: seq<ScVal>, ledger: U64)
    requires setup.contract == EscrowContract
    ensures Handle(setup, Named(EscCrtd, Some(args), ledger)).Some?
            <==> && setup.addressColumn && |args| >= 4 && ToU64(args[0]).Some? && args[1].AddressVal? && args[2].AddressVal? && ToI128(args[3]).Some?
                 && (args[1].a in setup.users && args[2].a in setup.users ==>
                       && 0 < ToI128(args[3]).value <= MAX_I64 && Pending in setup.statuses
                       && setup.users[args[1].a] != setup.users[args[2].a])
  {
  }

  /** The example contract's creation has the amount where the handler reads it. */
  lemma ExampleCreationHandled(show: E.Address -> string, setup: Setup, id: U64, buyer: E.Address, seller: E.Address,
                               amount: I128, ledger: U64)
    requires setup.contract == EscrowContract && setup.addressColumn && Pending in setup.statuses
    requires show(buyer) in setup.users && show(seller) in setup.users
    ensures var e := Publish("esc_crtd", [U64Val(id), Addr(show, buyer), Addr(show, seller), I128Val(amount)], ledger);
            Handle(setup, e).Some? <==> 0 < amount <= MAX_I64 && setup.users[show(buyer)] != setup.users[show(seller)]
  {
    assert NameOf("esc_crtd") == EscCrtd;
    CreationHandledExactly(setup, [U64Val(id), Addr(show, buyer), Addr(show, seller), I128Val(amount)], ledger);
    hide Handle;
  }

  predicate IsCreation(e: Event) {
    e.Named? && e.name == EscCrtd && e.args.Some? && |e.args.value| == 5 && e.args.value[3].AddressVal?
  }

  /** Before its first creation a manager publishes nothing. */
  lemma {:induction false} FirstIsCreation(show: E.Address -> string, s0: E.State, ops: seq<E.Op>, ledgers: seq<U64>)
    requires E.Initial(s0) && |ledgers| == |ops|
    ensures var stream := EscrowStream(show, s0, ops, ledgers);
            if stream == [] then E.After(s0, ops).escrows == map[] else IsCreation(stream[0])
  {
    hide EscrowEvents;
    if ops != [] {
      var n := |ops| - 1;
      FirstIsCreation(show, s0, ops[..n], ledgers[..n]);
      hide IsCreation;
      hide E.Step;
      if EscrowStream(show, s0, ops[..n], ledgers[..n]) == [] {
        FirstEvent(show, E.After(s0, ops[..n]), ops[n], ledgers[n]);
      }
    }
  }

  lemma FirstEvent(show: E.Address -> string, s: E.State, op: E.Op, ledger: U64)
    requires s.escrows == map[]
    ensures var events := EscrowEvents(show, s, op, ledger);
            if events == [] then E.Step(s, op).state.escrows == map[] else IsCreation(events[0])
  {
    hide E.Transfer;
    hide E.HasDuplicates;
    hide PayoutEvents;
    assert NameOf("esc_crtd") == EscCrtd;
  }

  /** On every run of the escrow manager, whatever came before it and whatever the
      indexer's attempts: its cursor never gets past the first creation, and its table
      stays empty. */
  lemma EscrowIndexerStops(show: E.Address -> string, setup: Setup, s0: E.State, ops: seq<E.Op>, ledgers: seq<U64>,
                           head: seq<Event>, attempts: seq<Attempt>)
    requires E.Initial(s0) && |ledgers| == |ops|
    requires setup.contract == EscrowContract && forall e :: e in head ==> Unnoticed(e)
    ensures var s := After(setup, head + EscrowStream(show, s0, ops, ledgers), attempts);
            s.cursor <= s.furthest <= |head| && s.tables == map[]
  {
    var stream := head + EscrowStream(show, s0, ops, ledgers);
    FirstIsCreation(show, s0, ops, ledgers);
    hide EscrowStream;
    if EscrowStream(show, s0, ops, ledgers) != [] {
      CreationRefused(setup, stream[|head|]);
      Barrier(setup, stream, |head|);
    }
    forall j | 0 <= j < Passable(setup, stream)
      ensures !WriteOf(setup, stream[j]).Insert?
    {
      assert stream[j] == head[j];
      UnnoticedWrites(setup, head[j]);
    }
    StaysEmpty(setup, stream, attempts);
    ReachableBounded(setup, stream, attempts);
    hide After;
    hide Passable;
  }

  // ----- what the events of one call say

  predicate IsFee(e: Event) { e.Named? && e.args.Some? && |e.args.value| == 3 && e.args.value[2].AddressVal? }

  predicate IsPathPayment(e: Event) { e.Named? && e.args.Some? && |e.args.value| == 3 && e.args.value[2].I128Val? }

  /** A payout publishes a fee exactly when the rate in ten-thousandths makes at least one, and
      a conversion exactly across assets, each with the amount rounded down. */
  lemma PayoutPublished(show: E.Address -> string, s: E.State, t: E.Terms, id: U64, answers: E.Answers, ledger: U64)
    requires t.amount > 0 && FitsI128(t.amount * answers.feeBps)
    requires t.asset != t.destinationAsset ==> 0 <= t.amount * EA.RateOf(s) <= MAX_I128
    ensures var events := PayoutEvents(show, s, t, id, answers, ledger);
            && ((exists e :: e in events && IsFee(e)) <==> t.amount * answers.feeBps >= 10000)
            && (forall e :: e in events && IsFee(e) ==>
                  e.args.value == [U64Val(id), I128Val(t.amount * answers.feeBps / 10000), Addr(show, t.asset)])
            && ((exists e :: e in events && IsPathPayment(e)) <==> t.asset != t.destinationAsset)
            && (forall e :: e in events && IsPathPayment(e) ==>
                  e.args.value == [U64Val(id), I128Val(t.amount), I128Val(t.amount * EA.RateOf(s) / 1000000)])
  {
    var events := PayoutEvents(show, s, t, id, answers, ledger);
    hide NameOf;
    if t.asset != t.destinationAsset {
      assert E.EstimatePathPayment(s, t.amount) == Ok(t.amount * EA.RateOf(s) / 1000000);
      assert IsPathPayment(events[0]) && events[0] in events;
    }
    if t.amount * answers.feeBps >= 10000 {
      assert IsFee(events[|events| - 1]) && events[|events| - 1] in events;
    }
  }

  function ApplyAll(setup: Setup, t: Tables, events: seq<Event>): Tables {
    if events == [] then t else Apply(ApplyAll(setup, t, events[..|events| - 1]), WriteOf(setup, events[|events| - 1]))
  }

  /** The row shows the escrow's status. An Active escrow is shown as pending. */
  predicate Shows(row: Row, status: E.Status) {
    && row.EscrowRow? && (row.disputed <==> status == E.Disputed)
    && row.status == match status
                     case Active => Pending
                     case Released => Released
                     case Refunded => RefundedStatus
                     case Disputed => DisputedStatus
  }

  /** With a status type that has them all, an accepted call about an escrow with a row leaves
      the row showing the escrow's new status, exactly when the call is not a refund and not a
      `dispute_escrow`: the indexer waits for neither of their topics. */
  lemma RowFollowsExactly(show: E.Address -> string, setup: Setup, s: E.State, op: E.Op, ledger: U64, t: Tables)
    requires setup.contract == EscrowContract && {Pending, Released, RefundedStatus, DisputedStatus} <= setup.statuses
    requires (ER.Closing(op) || ER.Disputing(op)) && E.Step(s, op).outcome.Ok? && op.id in s.escrows
    requires EscrowKey(AsI64(op.id)) in t && Shows(t[EscrowKey(AsI64(op.id))], s.escrows[op.id].status)
    ensures op.id in E.Step(s, op).state.escrows
    ensures var key, t' := EscrowKey(AsI64(op.id)), ApplyAll(setup, t, EscrowEvents(show, s, op, ledger));
            && key in t'
            && (Shows(t'[key], E.Step(s, op).state.escrows[op.id].status) <==> !op.OpRefund? && !op.OpDispute?)
  {
    StatusAfter(s, op);
    AppliesAnnounced(show, setup, s, op, ledger, t);
    LastWrite(setup, op, Announced(show, op, ledger));
    var row, status := t[EscrowKey(AsI64(op.id))], E.Step(s, op).state.escrows[op.id].status;
    hide *;
    RowAfter(t, op, row, s.escrows[op.id].status, status);
  }

  /** The write that the announcement of a call makes. */
  function AnnouncedWrite(op: E.Op): Write
    requires ER.Closing(op) || ER.Disputing(op)
  {
    if op.OpRefund? || op.OpDispute? then NoWrite
    else Update(EscrowKey(AsI64(op.id)),
                if op.OpRaise? then SetDispute(DisputedStatus, true)
                else if op.OpRelease? then SetStatus(Released)
                else SetDispute(if op.toSeller then Released else RefundedStatus, false))
  }

  /** What an accepted call makes of an escrow's status. */
  predicate Becomes(op: E.Op, before: E.Status, after: E.Status)
    requires ER.Closing(op) || ER.Disputing(op)
  {
    && before == (if op.OpResolve? then E.Disputed else E.Active)
    && after == if ER.Disputing(op) then E.Disputed
                else if op.OpRelease? || (op.OpResolve? && op.toSeller) then E.Released else E.Refunded
  }

  lemma RowAfter(t: Tables, op: E.Op, row: Row, before: E.Status, after: E.Status)
    requires (ER.Closing(op) || ER.Disputing(op)) && Becomes(op, before, after)
    requires EscrowKey(AsI64(op.id)) in t && t[EscrowKey(AsI64(op.id))] == row && Shows(row, before)
    ensures var key, t' := EscrowKey(AsI64(op.id)), Apply(t, AnnouncedWrite(op));
            key in t' && (Shows(t'[key], after) <==> !op.OpRefund? && !op.OpDispute?)
  {
  }

  lemma FoldsToLast(setup: Setup, t: Tables, events: seq<Event>)
    requires events != [] && forall e :: e in events[..|events| - 1] ==> Unnoticed(e)
    ensures ApplyAll(setup, t, events) == Apply(t, WriteOf(setup, events[|events| - 1]))
  {
    hide WriteOf;
    hide Unnoticed;
    hide Apply;
    Skipped(setup, t, events[..|events| - 1]);
  }

  /** Of a call's events only the one that announces it writes. */
  lemma AppliesAnnounced(show: E.Address -> string, setup: Setup, s: E.State, op: E.Op, ledger: U64, t: Tables)
    requires (ER.Closing(op) || ER.Disputing(op)) && E.Step(s, op).outcome.Ok?
    ensures ApplyAll(setup, t, EscrowEvents(show, s, op, ledger)) == Apply(t, WriteOf(setup, Announced(show, op, ledger)))
  {
    CallEvents(show, s, op, ledger);
    hide *;
    FoldsToLast(setup, t, EscrowEvents(show, s, op, ledger));
  }

  /** The status that an accepted call leaves. */
  lemma StatusAfter(s: E.State, op: E.Op)
    requires (ER.Closing(op) || ER.Disputing(op)) && E.Step(s, op).outcome.Ok? && op.id in s.escrows
    ensures op.id in E.Step(s, op).state.escrows
    ensures Becomes(op, s.escrows[op.id].status, E.Step(s, op).state.escrows[op.id].status)
  {
    hide E.Transfer;
    hide E.OracleCheck;
  }

  /** An accepted creation publishes one event: the new id, and of the escrow stored under it
      the buyer, the seller, the lender and the amount. */
  lemma CreationPublished(show: E.Address -> string, s: E.State, op: E.Op, ledger: U64)
    requires op.OpCreate? && E.Step(s, op).outcome.Ok?
    ensures var id := E.Step(s, op).outcome.value;
            && id in E.Step(s, op).state.escrows
            && var t := E.Step(s, op).state.escrows[id].terms;
               EscrowEvents(show, s, op, ledger)
               == [Named(EscCrtd, Some([U64Val(id), AddressVal(show(t.buyer)), AddressVal(show(t.seller)),
                                        AddressVal(show(t.lender)), I128Val(t.amount)]), ledger)]
  {
    ER.CreateEffect(s, op);
    hide E.Step;
    assert NameOf("esc_crtd") == EscCrtd;
    hide NameOf;
  }

  /** The event that names what an accepted call did, as the last of its events. */
  function Announced(show: E.Address -> string, op: E.Op, ledger: U64): Event
    requires ER.Closing(op) || ER.Disputing(op)
  {
    match op
    case OpRaise(id, who, _) => Named(EscDisp, Some([U64Val(id), AddressVal(show(who)), OtherVal]), ledger)
    case OpRelease(id, _) => Named(EscRel, Some([U64Val(id)]), ledger)
    case OpResolve(id, toSeller, _) => Named(EscRslv, Some([U64Val(id), U32Val(if toSeller then 0 else 1)]), ledger)
    case OpRefund(id, _) => Named(OtherName, Some([U64Val(id)]), ledger)
    case OpDispute(id, _) => Named(OtherName, Some([U64Val(id)]), ledger)
  }

  lemma CallEvents(show: E.Address -> string, s: E.State, op: E.Op, ledger: U64)
    requires (ER.Closing(op) || ER.Disputing(op)) && E.Step(s, op).outcome.Ok?
    ensures var events := EscrowEvents(show, s, op, ledger);
            && events != [] && events[|events| - 1] == Announced(show, op, ledger)
            && (forall e :: e in events[..|events| - 1] ==> Unnoticed(e))
            && (op.id in s.escrows && (op.OpRelease? || (op.OpResolve? && op.toSeller)) ==>
                  events[..|events| - 1] == PayoutEvents(show, s, s.escrows[op.id].terms, op.id, op.answers, ledger))
            && (!op.OpRelease? && !(op.OpResolve? && op.toSeller) ==> |events| == 1)
  {
    hide E.Step;
    if op.id in s.escrows && (op.OpRelease? || (op.OpResolve? && op.toSeller)) {
      PayoutUnnoticed(show, s, s.escrows[op.id].terms, op.id, op.answers, ledger);
    }
    hide PayoutEvents;
    assert NameOf("esc_disp") == EscDisp && NameOf("esc_rel") == EscRel && NameOf("esc_rslv") == EscRslv;
    assert NameOf("esc_rfnd") == NameOf("esc_dsp") == OtherName;
    hide NameOf;
  }

  lemma PayoutUnnoticed(show: E.Address -> string, s: E.State, t: E.Terms, id: U64, answers: E.Answers, ledger: U64)
    ensures forall e :: e in PayoutEvents(show, s, t, id, answers, ledger) ==> Unnoticed(e)
  {
    assert NameOf("path_pay") == NameOf("fee_col") == OtherName;
    hide NameOf;
    hide E.EstimatePathPayment;
  }

  lemma {:induction false} Skipped(setup: Setup, t: Tables, events: seq<Event>)
    requires forall e :: e in events ==> Unnoticed(e)
    ensures ApplyAll(setup, t, events) == t
  {
    if events != [] {
      Skipped(setup, t, events[..|events| - 1]);
      UnnoticedWrites(setup, events[|events| - 1]);
    }
  }

  lemma LastWrite(setup: Setup, op: E.Op, e: Event)
    requires setup.contract == EscrowContract && {Pending, Released, RefundedStatus, DisputedStatus} <= setup.statuses
    requires (ER.Closing(op) || ER.Disputing(op)) && exists show, ledger :: e == Announced(show, op, ledger)
    ensures WriteOf(setup, e) == AnnouncedWrite(op)
  {
  }

  lemma UnnoticedWrites(setup: Setup, e: Event)
    requires Unnoticed(e)
    ensures WriteOf(setup, e) == NoWrite
  {
  }

  // ----- the collateral registry

  function RegistryEvents(show: C.Address -> string, s: C.State, op: C.Op, ledger: U64): seq<Event> {
    var r := C.Step(s, op);
    if r.outcome.Err? then [] else
      match op
      case OpInitialize(admin, oracle) => [Publish("reg_init", [AddressVal(show(admin)), AddressVal(show(oracle))], ledger)]
      case OpRegister(owner, _, _, _, valuation) =>
        [Publish("col_regd", [U64Val(r.outcome.value), AddressVal(show(owner)), I128Val(valuation)], ledger)]
      case OpUpdateValuation(id, valuation) => [Publish("val_updt", [U64Val(id), I128Val(valuation)], ledger)]
      case OpTransfer(id, newOwner) =>
        [Publish("col_xfer", [U64Val(id), if id in s.records then AddressVal(show(s.records[id].owner)) else OtherVal,
                              AddressVal(show(newOwner))], ledger)]
      case OpLock(id, escrowId) => [Publish("col_lock", [U64Val(id), U64Val(escrowId)], ledger)]
      case OpUnlock(id) =>
        [Publish("col_unlk", [U64Val(id), if id in s.records then U64Val(s.records[id].lockedByEscrow) else OtherVal], ledger)]
      case OpVerify(id, _) =>
        [Publish("col_verf", [U64Val(id), if s.admin.Some? then AddressVal(show(s.admin.value)) else OtherVal], ledger)]
      case OpTick(_) => []
  }

  function RegistryStream(show: C.Address -> string, clock: U64, ops: seq<C.Op>, ledgers: seq<U64>): seq<Event>
    requires |ledgers| == |ops|
  {
    if ops == [] then [] else
      var n := |ops| - 1;
      RegistryStream(show, clock, ops[..n], ledgers[..n]) + RegistryEvents(show, C.After(clock, ops[..n]), ops[n], ledgers[n])
  }

  lemma RegistryUnnoticed(show: C.Address -> string, s: C.State, op: C.Op, ledger: U64)
    ensures forall e :: e in RegistryEvents(show, s, op, ledger) ==> Unnoticed(e)
  {
    hide C.Step;
    NamesMissed();
    hide NameOf;
  }

  /** What an accepted call publishes, read off the records before and after it. */
  function RegistryParts(show: C.Address -> string, before: C.State, after: C.State, op: C.Op, id: U64): seq<ScVal>
    requires id in after.records && (!op.OpRegister? ==> id in before.records)
  {
    var c := after.records[id];
    match op
    case OpRegister(_, _, _, _, _) => [U64Val(id), AddressVal(show(c.owner)), I128Val(c.currentValuation)]
    case OpUpdateValuation(_, _) => [U64Val(id), I128Val(c.currentValuation)]
    case OpTransfer(_, _) => [U64Val(id), AddressVal(show(before.records[id].owner)), AddressVal(show(c.owner))]
    case OpLock(_, _) => [U64Val(id), U64Val(c.lockedByEscrow)]
    case OpUnlock(_) => [U64Val(id), U64Val(before.records[id].lockedByEscrow)]
    case OpVerify(_, _) => [U64Val(id), if c.verifiedBy.Some? then AddressVal(show(c.verifiedBy.value)) else OtherVal]
    case _ => []
  }

  /** Every accepted call about a collateral publishes one event, under a topic that the indexer
      does not match, with what the record then says. */
  lemma RegistryPublished(show: C.Address -> string, s: C.State, op: C.Op, id: U64, ledger: U64)
    requires CF.About(s, op, id)
    ensures id in C.Step(s, op).state.records && (!op.OpRegister? ==> id in s.records)
    ensures RegistryEvents(show, s, op, ledger)
            == [Named(OtherName, Some(RegistryParts(show, s, C.Step(s, op).state, op, id)), ledger)]
  {
    NamesMissed();
    hide NameOf;
  }

  /** No topic of the registry is one that the indexer matches. */
  lemma NamesMissed()
    ensures NameOf("reg_init") == NameOf("col_regd") == NameOf("val_updt") == NameOf("col_xfer") == OtherName
    ensures NameOf("col_lock") == NameOf("col_unlk") == NameOf("col_verf") == OtherName
  {
  }

  lemma {:induction false} StreamUnnoticed(show: C.Address -> string, clock: U64, ops: seq<C.Op>, ledgers: seq<U64>)
    requires |ledgers| == |ops|
    ensures forall e :: e in RegistryStream(show, clock, ops, ledgers) ==> Unnoticed(e)
  {
    hide RegistryEvents;
    hide Unnoticed;
    if ops != [] {
      var n := |ops| - 1;
      StreamUnnoticed(show, clock, ops[..n], ledgers[..n]);
      RegistryUnnoticed(show, C.After(clock, ops[..n]), ops[n], ledgers[n]);
    }
  }

  /** On every run of the registry its indexer passes over all events and writes nothing. */
  lemma RegistryIndexerSeesNothing(show: C.Address -> string, setup: Setup, clock: U64, ops: seq<C.Op>, ledgers: seq<U64>,
                                   attempts: seq<Attempt>)
    requires |ledgers| == |ops| && setup.contract == CollateralContract
    ensures var stream := RegistryStream(show, clock, ops, ledgers);
            After(setup, stream, attempts).tables == map[] && Reaches(setup, stream, |stream|)
  {
    var stream := RegistryStream(show, clock, ops, ledgers);
    StreamUnnoticed(show, clock, ops, ledgers);
    hide RegistryStream;
    forall j | 0 <= j < |stream|
      ensures !WriteOf(setup, stream[j]).Insert? && Handle(setup, stream[j]).Some?
    {
      assert stream[j] in stream;
      UnnoticedWrites(setup, stream[j]);
    }
    StaysEmpty(setup, stream, attempts);
    StopsExactly(setup, stream, |stream|);
  }

  /** A registration as the indexer wants it. */
  predicate Registration(setup: Setup, e: Event) {
    && setup.addressColumn && e.Named? && e.name == CollReg && e.args.Some? && |e.args.value| >= 4
    && ToU64(e.args.value[0]).Some? && e.args.value[1].AddressVal? && e.args.value[1].a in setup.users
    && ToI128(e.args.value[2]).Some? && 0 < ToI128(e.args.value[2]).value <= MAX_I64
    && ToU64(e.args.value[3]).Some? && AsI64(ToU64(e.args.value[3]).value) > setup.since
  }

  lemma RegistrationInserts(setup: Setup, e: Event)
    requires setup.contract == CollateralContract
    ensures WriteOf(setup, e).Insert? <==> Registration(setup, e)
  {
  }

  /** The collateral table stays empty for ever exactly when no such registration, with four
      parts, a known owner, a positive value and an expiry to come, comes before the first
      event that cannot be handled. */
  lemma CollateralEmptyExactly(setup: Setup, stream: seq<Event>)
    requires setup.contract == CollateralContract
    ensures (forall attempts :: After(setup, stream, attempts).tables == map[])
            <==> forall j :: 0 <= j < Passable(setup, stream) ==> !Registration(setup, stream[j])
  {
    EmptyExactly(setup, stream);
    hide WriteOf;
    hide Registration;
    hide After;
    hide Passable;
    forall j | 0 <= j < Passable(setup, stream)
      ensures WriteOf(setup, stream[j]).Insert? <==> Registration(setup, stream[j])
    {
      RegistrationInserts(setup, stream[j]);
    }
  }
}
