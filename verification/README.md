# StelloVault verification

Dafny models of the stateful parts of StelloVault, with proofs of what every run of them keeps.

| files | what they model |
|---|---|
| `Governance.dfy`, `GovernanceRuns.dfy`, `GovernanceRules.dfy`, `GovernanceStatus.dfy`, `GovernanceRefusals.dfy`, `GovernanceContract.dfy`, `Newton.dfy` | the governance contract: delegation, quadratic votes, tallies, timelock, parameter updates, the integer square root |
| `Escrow.dfy`, `EscrowRuns.dfy`, `EscrowRules.dfy`, `EscrowAcceptance.dfy`, `EscrowContract.dfy` | the escrow manager: many escrows over one pool per token |
| `CollateralRegistry.dfy`, `CollateralFacts.dfy` | the collateral registry, its two indexes and the history on its records |
| `QuadraticVote.dfy`, `QuadraticRules.dfy` | the governance half of the example contract |
| `Indexer.dfy`, `IndexerRuns.dfy`, `IndexerTables.dfy`, `IndexerRows.dfy`, `IndexerLedger.dfy` | the backend's event indexer, a retry protocol |
| `Wiring.dfy` | the events that the escrow manager and the registry publish, fed to their indexers |
| `EventBuffer.dfy`, `RoomRegistry.dfy`, `Reconnect.dfy` | the WebSocket server's replay buffer and subscription tables, and the two together |
| `RateLimiter.dfy` | both token-bucket limiters |
| `Crc16.dfy`, `StellarAddress.dfy`, `AddressBursts.dfy`, `Base64.dfy` | the decoders of signatures and addresses |
| `MachineInts.dfy`, `Sums.dfy` | Rust integers, sums over tables |

How the models are built:

- A contract's storage is a `State` value. Each entry point is a function from a state to a state and an outcome, and
  `After` folds a list of calls into a run. A failing call leaves the state unchanged: the host rolls it back. The
  contracts are built with overflow checks on, so an arithmetic overflow is a panic, modelled as the error `Trap`.
- Beside the functions stands a class with the same state in mutable fields, whose methods make the source's checks and
  updates in the source's order, loops included. A ghost history records the calls; `Valid` says that the fields are what
  the history made of the initial state, every method keeps it, and so what is proved about runs holds of the object.
  Where the source calls a library or another contract (trimming and searching a string, a token transfer, a retain over a
  map), the method calls a function.
- Invariants are predicates on states; main results are lemmas over all runs from the initial state.
- What other contracts, the database, the clock and the network answer are parameters of each call; the constraints of the
  two tables that the indexer writes are part of the model, the expiry check with the time of each attempt.

What the proofs brought to light:

- `get_proposal_status` replaces an overflow by zero, so it can show `Succeeded` for a proposal that neither
  `has_proposal_passed` nor `execute_proposal` accepts (`StatusAgreesUnlessOverflow`, `StatusCanMislead`).
- A status moves only forward, from active over tallying to failed or succeeded and executed, unless a new configuration
  with a longer tally period reopens the tally of a settled proposal (`GoesBackExactly`, `StatusCanGoBack`).
- The fuzz target's claim that the escrow contract holds exactly the Active amounts fails as soon as an escrow is
  disputed (`FuzzClaimExactly`, `FuzzClaimFails`). Cross-asset releases can leave too little for another escrow's refund
  (`RefundStarvedExactly`, `CrossAssetCanStarve`); without them a refund never lacks the balance.
- Delegated tokens can stand behind two votes on one proposal, because a vote is charged to the voter alone
  (`DelegatedTokensVoteTwice`). A voter's squared votes exceed its tokens exactly when it once cast a vote that cost more
  than its own balance at that moment (`OverspentExactly`), and without such a vote the squares of any voters on any
  proposal stay within their tokens (`ProposalWithinTokens`).
- A registry that is used before it is initialized hands out its ids twice (`RunAgreesExactly`,
  `StartingOverOverwrites`). No collateral can expire (`NeverExpired`).
- The indexer's retries are harmless exactly on streams where no escrow is updated before it is created and no collateral's
  last word before its registration is a lock (`ConvergesExactly`). One event whose handler fails stops its indexer for
  good (`StopsExactly`); with the statuses of the migrations every refund decision is such an event (`RefundStops`).
- The collateral table refuses every write to a row whose expiry has passed, so an indexer that starts again after that
  never gets past the row's registration (`ReachesExactly`, `NoRestartAfterExpiry`).
- The handlers look addresses up in the column `stellar_address` of `users`, which no migration adds. As long as it is
  missing, no creation is ever passed and nothing is ever written (`NothingWithoutColumn`).
- The escrow manager's creation event has the lender where the handler reads the amount. An indexer that is given the
  manager's id therefore never gets past the first creation (`EscrowIndexerStops`). By default all indexers are given the one
  CONTRACT_ID instead (backend/src/main.rs:65-69); the example contract's creation event has the amount where the handler
  reads it (`ExampleCreationHandled`). No topic of the registry is one that the indexer matches, so the collateral table of
  an indexer that is given the registry's id stays empty (`RegistryIndexerSeesNothing`). Even where a row exists, refunds and
  lenders' disputes never reach it (`RowFollowsExactly`).
- A client that reconnects without a last event id misses event 0 (`ReplayWithoutId`). A disconnect clears the rooms that
  the replay reads, so the replay after it is unfiltered (`ReplayAfterDisconnect`). A client without rooms is replayed
  events that went to a room's members only (`ReplayIsDelivered`). The id that a replay names counts the events sent, so
  coming back with it repeats some of them as soon as any was passed over in between (`SecondReplay`).
- An address stores its checksum low byte first, so twelve bursts of at most 16 bits across the border between payload and
  checksum go unnoticed (`BurstAcceptedExactly`, `EscapeGoesUnnoticed`); all others are noticed.
- A limiter cleanup is harmless exactly when its age is at least two of the limiter's periods (`SafeAgesOfBoth`).

## Model

| member | source | states |
|---|---|---|
| Newton.GovernanceSqrt | contracts/governance/src/lib.rs:755-770 | the Newton loop ends with x strictly falling and every value in an i128, and returns the floor square root, or 0 for n <= 0 |
| Newton.ExampleSqrt | contracts/example/src/lib.rs:657-668 | the other loop, from its other starting point, gives the floor square root of every u128 |
| Newton.SqrtsAgree | contracts/governance/src/lib.rs:755-770 | the two loops give the same r with r² <= n < (r+1)² |
| GovernanceRuns.ScanIsControlled | contracts/governance/src/lib.rs:721-741 | despite stale and repeated entries the delegation loop computes own balance plus the balances of exactly the current delegators; it fails only when that sum leaves i128 |
| GovernanceRuns.DelegatedOnce | contracts/governance/src/lib.rs:861-886 | over any set of delegatees the delegated sums add up to the balances of the addresses delegating into it: nobody is counted twice |
| GovernanceRuns.ReachableInv | contracts/governance/src/lib.rs:198-237 | after any run from initialize the delegation index, balances, tallies, votes and proposals are consistent |
| GovernanceRuns.VotingPowerReachable | contracts/governance/src/lib.rs:695-718 | in every reachable state voting power is the floor square root of the documented total |
| GovernanceRuns.TalliesReachable | contracts/governance/src/lib.rs:460-489 | votes_for and votes_against are the sums of voting power over the stored records of each side, all cast before voting ended |
| GovernanceRuns.FrozenAfterClose | contracts/governance/src/lib.rs:424-434 | votes and proposal terms are permanent; once the clock reaches voting_end_ts neither tallies nor records change in any continuation |
| GovernanceRuns.CreatedBy | contracts/governance/src/lib.rs:314-381 | every proposal was created by one accepted call with its proposer, target, parameter and value, its voting end and timelock fixed from the configuration of that moment |
| GovernanceRuns.ClosedAfterStep | contracts/governance/src/lib.rs:645-669 | only an accepted execution or cancellation closes a proposal, and neither is accepted for a closed one |
| GovernanceRuns.ExecutedOrCancelledOnce | contracts/governance/src/lib.rs:510-587 | over any run executions plus cancellations of a proposal number one if it is closed, else none |
| GovernanceRuns.ExecutionJustified | contracts/governance/src/lib.rs:510-587 | an accepted execution comes after the stored timelock, with the tallies of voting close meeting quorum and majority, and after no execution or cancellation |
| GovernanceRuns.ExecutionWritesOneField | contracts/governance/src/lib.rs:821-858 | the approved value, unchanged by the casts, goes into the one named field; every other field and register stays |
| GovernanceRuns.OnlyExecutionWrites | contracts/governance/src/lib.rs:563-575 | nothing else touches a risk register |
| GovernanceRuns.ParametersStayInRange | contracts/governance/src/lib.rs:773-818 | registers that start in the validated ranges stay there over every run |
| GovernanceRuns.CostWithinControlled | contracts/governance/src/lib.rs:437-446 | within the voting power the squared cost is at most the controlled tokens, so the checked multiply cannot overflow |
| GovernanceRuns.VoteCostCovered | contracts/governance/src/lib.rs:437-446 | every accepted vote of n had n² controlled tokens behind it |
| GovernanceRuns.BalancesOnlyFall | contracts/governance/src/lib.rs:448-458 | balances never go negative and never grow |
| GovernanceRuns.SpentAtMostCosts | contracts/governance/src/lib.rs:448-458 | no voter loses more than the squares of its votes |
| GovernanceRuns.LoneVoterConservation | contracts/governance/src/lib.rs:448-458 | for a voter nobody delegates to, initial balance equals current balance plus the squares of all its votes on all proposals |
| GovernanceRuns.LoneVoterPaysInFull | contracts/governance/src/lib.rs:452-458 | for such a voter the branch that zeroes the balance is unreachable |
| GovernanceRuns.ChecksAgree | contracts/governance/src/lib.rs:590-621 | execute's checks and has_proposal_passed decide alike, by the documented thresholds, and both fail exactly on the same overflows |
| GovernanceRuns.StatusAgreesUnlessOverflow | contracts/governance/src/lib.rs:905-959 | for a settled open proposal the status is Succeeded iff it has passed, except exactly on one family of overflows, which it shows as a success that cannot be executed |
| GovernanceRuns.StatusCanMislead | contracts/governance/src/lib.rs:940-953 | such a state is reachable: a run after which the status is Succeeded and execution fails |
| GovernanceStatus.StatusExactly | contracts/governance/src/lib.rs:905-959 | for every proposal one iff per status: executed iff closed, active iff open before voting end, tallying iff open within the tally period after it, failed or succeeded iff settled below or not below the thresholds with every overflow counted as zero |
| GovernanceStatus.GoesBackExactly | contracts/governance/src/lib.rs:917-926 | a step takes a proposal back in that order iff it is a new configuration whose tally period a settled proposal is still within |
| GovernanceStatus.StatusMovesForward | contracts/governance/src/lib.rs:905-959 | over any run from a reachable state without such a configuration the status only moves forward: active, tallying, settled, executed |
| GovernanceStatus.VerdictStays | contracts/governance/src/lib.rs:928-959 | once settled, what is shown changes only by a new configuration, a new total power, or to executed |
| GovernanceStatus.StatusCanGoBack | contracts/governance/src/lib.rs:917-926 | a run in which a failed proposal is shown as tallying again |
| GovernanceStatus.ClockIsLatest | contracts/governance/src/lib.rs:424-427 | the clock that all deadlines are held against is the latest time reached |
| GovernanceRuns.MoreSupportStillPasses | contracts/governance/src/lib.rs:590-621 | with majority_bps at most 10000, more support on a passed proposal leaves it passed for both deciders, unless a product then leaves i128, and both report exactly that |
| GovernanceRules.VoteAcceptedExactly | contracts/governance/src/lib.rs:409-494 | in every reachable state a vote of n is accepted iff it is positive, in time, the voter's first, and n² is at most what the voter controls (sums fitting i128) |
| GovernanceRules.ProposalAcceptedExactly | contracts/governance/src/lib.rs:314-381 | a proposal is accepted iff its author controls min_voting_power tokens and the value is in the parameter's range (counters fitting) |
| GovernanceRules.ExecutionAcceptedExactly | contracts/governance/src/lib.rs:510-587 | execution is accepted iff the proposal is open, its timelock is over, its target exists and the thresholds are met without overflow |
| GovernanceRefusals.ValuesRefused | contracts/governance/src/lib.rs:773-818 | the smallest and largest value accepted for each parameter, and which of the two errors anything else gets |
| GovernanceRefusals.ProposalRefusals | contracts/governance/src/lib.rs:314-381 | in every reachable state each error of a proposal iff in its case: too few controlled tokens, unknown parameter, value out of range, a counter or time at its end |
| GovernanceRefusals.VoteRefusals | contracts/governance/src/lib.rs:409-494 | each error of a vote iff in its case: not positive or square above the controlled tokens, no proposal, voting ended, second vote, tally overflow |
| GovernanceRefusals.ExecutionRefusals | contracts/governance/src/lib.rs:510-561 | each error of an execution iff in its case: no proposal, closed, voting not over, timelock not over, overflow, too few votes, too little support |
| GovernanceRefusals.OtherRefusals | contracts/governance/src/lib.rs:645-669 | the same for cancellation, delegation to oneself and a second initialization |
| GovernanceRules.DelegationMoves | contracts/governance/src/lib.rs:861-886 | delegating moves the delegator's balance from what the old delegate controls to what the new one controls, and nothing else |
| GovernanceRules.CostsAccounted | contracts/governance/src/lib.rs:443-458 | for every voter, delegates included, initial balance plus what its votes cost beyond its own balance equals current balance plus the squares of all its votes |
| GovernanceRules.OverspentExactly | contracts/governance/src/lib.rs:452-458 | for every voter, its squared votes exceed its initial tokens iff some accepted vote of its cost more than its own balance at that moment, which is when the contract sets the balance to zero; iff none did, initial tokens equal what is left plus the squares |
| GovernanceRules.VotersAccounted | contracts/governance/src/lib.rs:448-458 | for any set of voters, initial tokens are at most what they have left plus the squares of all their votes, and equal iff none of them cast such a vote |
| GovernanceRules.GroupsExactly | contracts/governance/src/lib.rs:452-458 | every group among some voters keeps its squares within its initial tokens iff none of them cast such a vote |
| GovernanceRules.ProposalWithinTokens | contracts/governance/src/lib.rs:437-458 | on every proposal the squares of any voters stay within their initial tokens unless one of them cast such a vote |
| GovernanceRules.DelegatedTokensVoteTwice | contracts/governance/src/lib.rs:437-458 | a run in which a delegate and then the delegator vote on one proposal with squares above the tokens of both |
| GovernanceContract.Contract.constructor | contracts/governance/src/lib.rs:198-237 | the storage that initialize leaves is an initial state, with an empty history |
| GovernanceContract.Contract.TotalControlledTokens | contracts/governance/src/lib.rs:721-741 | the loop over the delegator list computes the scan of the model |
| GovernanceContract.Contract.VotingPower | contracts/governance/src/lib.rs:695-718 | the total and its root by the Newton loop |
| GovernanceContract.Contract.CreateProposal | contracts/governance/src/lib.rs:314-381 | outcome and new storage are those of the model's step on the history, the tokens summed by the loop |
| GovernanceContract.Contract.CastVote | contracts/governance/src/lib.rs:409-494 | outcome and new storage are those of the model's step on the history, with the loop and the Newton root |
| GovernanceContract.Contract.ExecuteProposal | contracts/governance/src/lib.rs:510-587 | accepted iff the history neither executed nor cancelled the proposal, its timelock is over, its target exists and its votes meet the thresholds; then it is the one closing call of the history and the approved value stands in its field |
| GovernanceContract.Contract.CancelProposal | contracts/governance/src/lib.rs:645-669 | accepted iff the history neither executed nor cancelled the proposal; then in every continuation it is cancelled once and never executed |
| GovernanceContract.Contract.Delegate | contracts/governance/src/lib.rs:861-886 | moves the delegator's balance from what its old delegate controls to what the new one does, for nobody else |
| GovernanceContract.Contract.CheckVotes | contracts/governance/src/lib.rs:530-561 | the checks pass iff nothing overflows and the documented thresholds are met |
| GovernanceContract.Contract.ValidateParameter | contracts/governance/src/lib.rs:773-818 | a value is accepted iff it is in its parameter's range |
| EscrowRuns.PoolEquation | contracts/escrow-manager/src/lib.rs:544-586 | on every run and for each token the pool is its start plus outside deposits plus open amounts plus source amounts kept from cross-asset releases, minus destination amounts paid for them, plus payments to the contract itself |
| EscrowRuns.NothingReturned | contracts/escrow-manager/src/refund.rs:9-35 | with outside parties that last term is empty |
| EscrowRuns.SameAssetPool | contracts/escrow-manager/src/lib.rs:551-558 | with only same-asset escrows the pool is its start plus deposits plus open amounts |
| EscrowRuns.FuzzClaimExactly | contracts/fuzz/fuzz_targets/fuzz_escrow_invariants.rs:3-5 | after any run and for any token the fuzz target's claim holds iff start, deposits, disputed escrows, kept source amounts and payments to the contract together equal the destination amounts paid across assets |
| EscrowRuns.FuzzClaimSameAsset | contracts/fuzz/fuzz_targets/fuzz_escrow_invariants.rs:3-5 | with same-asset escrows, outside parties, no deposits and an empty start, it holds iff no escrow of the token is disputed |
| EscrowRuns.FuzzClaimFails | contracts/fuzz/fuzz_targets/fuzz_escrow_invariants.rs:3-5 | a run with one disputed escrow in which it is false |
| EscrowRuns.RefundStarvedExactly | contracts/escrow-manager/src/refund.rs:14-21 | on any run a refund, by expiry or by a decision on a dispute, stops for lack of balance iff it is due and the cross-asset payouts in its token exceed what the books hold for everybody else |
| EscrowRuns.SameAssetNeverStarves | contracts/escrow-manager/src/refund.rs:14-21 | with only same-asset escrows the pool covers all open escrows and InsufficientBalance is unreachable |
| EscrowRuns.CrossAssetCanStarve | contracts/escrow-manager/src/lib.rs:560-577 | a run after which an expired escrow cannot be refunded |
| EscrowRuns.PaidExactlyOnce | contracts/escrow-manager/src/lib.rs:421-515 | an escrow has one payment in the log once it is Released or Refunded and none before |
| EscrowRuns.PaidAsAgreed | contracts/escrow-manager/src/lib.rs:544-586 | the payment went to the right party in the right token and amount; a cross-asset seller got at least min_destination_amount |
| EscrowRuns.ReleaseAtRate | contracts/escrow-manager/src/lib.rs:521-542 | a cross-asset release pays the amount at the stored rate, rounded down, in the destination asset |
| EscrowRuns.ClosedForGood | contracts/escrow-manager/src/lib.rs:695-743 | terms never change, Released and Refunded are final, a dispute never goes back to Active |
| EscrowRuns.IndexesAgree | contracts/escrow-manager/src/lib.rs:342-355 | ids are dense and each seller's list is the ascending list of exactly that seller's escrows |
| EscrowRules.StatusJustified | contracts/escrow-manager/src/lib.rs:371-407 | every escrow's present status was reached by a justifying step: a confirmed release, a refund after expiry, a resolution of a dispute, a dispute by a party, or creation |
| EscrowRules.CreatedBy | contracts/escrow-manager/src/lib.rs:265-369 | every escrow has the terms and the time of the call that created it |
| EscrowRules.ReleaseAcceptedExactly | contracts/escrow-manager/src/lib.rs:421-515 | with same-asset escrows a release is accepted iff the escrow is Active, the oracles confirmed, the treasury and registry calls return, the product of amount and fee rate fits i128 and the seller can hold the amount |
| EscrowRules.RefundAcceptedExactly | contracts/escrow-manager/src/lib.rs:643-693 | with same-asset escrows a refund is accepted iff the escrow is Active and expired, the registry answers and the buyer can hold the amount |
| EscrowAcceptance.ClosingAcceptedExactly | contracts/escrow-manager/src/lib.rs:421-743 | on every run, cross-asset escrows and fees included: a release is accepted iff the escrow is Active, confirmed and its seller payable, a refund iff Active, expired and its buyer payable, a decision iff Disputed and its winner payable; payable at the stored rate, rounded down, at least the minimum, and held by the pool |
| EscrowAcceptance.FeeRateIrrelevant | contracts/escrow-manager/src/lib.rs:588-613 | two fee rates that can both be computed give the same outcome and the same state, for a release and for a decision in the seller's favour |
| EscrowAcceptance.ClosingRefusals | contracts/escrow-manager/src/lib.rs:643-743 | each error about existence, status and expiry iff in its case, for release, refund and decision |
| EscrowAcceptance.ReleaseRefusals | contracts/escrow-manager/src/lib.rs:441-542 | of an Active escrow: consensus or confirmation not met iff the oracles answer and do not confirm; slippage iff confirmed and the rated amount is below the minimum; path failure iff its product overflows |
| EscrowAcceptance.CreationAcceptedExactly | contracts/escrow-manager/src/lib.rs:265-369 | a creation is accepted iff both amounts are positive, the threshold is within a set of distinct oracles, the registry locks the collateral, and the lender, not the contract itself, has the amount (pool and ids fitting) |
| EscrowAcceptance.CreationRefusals | contracts/escrow-manager/src/lib.rs:268-294 | each error about the terms iff in its case |
| EscrowAcceptance.DisputesAcceptedExactly | contracts/escrow-manager/src/lib.rs:371-407 | raise_dispute is accepted iff the escrow is Active and the caller its buyer or seller, dispute_escrow iff the caller may also be the lender; each error iff in its case |
| EscrowAcceptance.OracleSetErrors | contracts/escrow-manager/src/lib.rs:441-455 | a release reports an empty oracle set or a threshold out of reach iff it finds one, and in no reachable state does it |
| EscrowAcceptance.BalancesAreMoves | contracts/escrow-manager/src/lib.rs:544-586 | on every run each balance of each token, anybody's, is its start plus what the logged payments, the accepted creations and the outside transfers moved |
| EscrowAcceptance.ClockAndRate | contracts/escrow-manager/src/lib.rs:615-625 | the rate is the last one set and the clock the latest time reached |
| EscrowAcceptance.DisputeOnRecord | contracts/escrow-manager/src/lib.rs:396-401 | the dispute stored with an escrow is that of the one accepted raise_dispute about it, with its time, party and reason; without one there is none |
| EscrowContract.Manager.FindDuplicate | contracts/escrow-manager/src/lib.rs:284-294 | the nested loop finds a repeated oracle iff there is one |
| EscrowContract.Manager.CreateEscrow | contracts/escrow-manager/src/lib.rs:265-369 | outcome and new storage and balances are those of the model's step on the history; accepted iff the terms and the lender's balance allow it |
| EscrowContract.Manager.RaiseDispute | contracts/escrow-manager/src/lib.rs:371-407 | accepted iff the escrow is Active and the caller its buyer or seller; then it is held, no release or refund gets past it, and no pool and no books moved |
| EscrowContract.Manager.DisputeEscrow | contracts/escrow-manager/src/lib.rs:758-791 | the same, for the lender too |
| EscrowContract.Manager.ExecuteReleasePayout | contracts/escrow-manager/src/lib.rs:544-586 | the direct or rated payout, or no change at all |
| EscrowContract.Manager.ProcessRefund | contracts/escrow-manager/src/refund.rs:9-35 | the balance check, the payout and the record's new status, or no change at all |
| EscrowContract.Manager.Confirmed | contracts/escrow-manager/src/lib.rs:484-497 | the search finds a verified confirmation of the required kind iff there is one |
| EscrowContract.Manager.ReleaseFundsOnConfirmation | contracts/escrow-manager/src/lib.rs:421-515 | outcome and new storage are those of the model's step on the history; accepted iff ClosingAcceptedExactly says so, and then it logs the escrow's one payment; refused, nothing changes |
| EscrowContract.Manager.RefundEscrow | contracts/escrow-manager/src/lib.rs:643-693 | outcome and new storage are those of the model's step on the history; accepted iff ClosingAcceptedExactly says so, and then it logs the escrow's one payment; refused, nothing changes |
| EscrowContract.Manager.ResolveDispute | contracts/escrow-manager/src/lib.rs:695-743 | outcome and new storage are those of the model's step on the history; accepted iff ClosingAcceptedExactly says so, and then it logs the escrow's one payment; refused, nothing changes |
| EscrowRules.ClosingPays | contracts/escrow-manager/src/lib.rs:421-515 | on every run an accepted closing call takes the escrow's payments from none to one |
| CollateralRegistry.RunAgreesExactly | contracts/collateral-registry/src/lib.rs:90-109 | from deployment on, ids dense, hash index a bijection, owner keys exactly the current pairs and records sound hold all along iff nothing is registered before the successful initialization |
| CollateralRegistry.StepAgreesExactly | contracts/collateral-registry/src/lib.rs:125-199 | each single step keeps that agreement, except exactly such an initialization |
| CollateralRegistry.InitializedFirst | contracts/collateral-registry/src/lib.rs:90-109 | a contract initialized first is in agreement after every run |
| CollateralRegistry.StartingOverOverwrites | contracts/collateral-registry/src/lib.rs:101-103 | the other order loses a record while its hash and owner key still point to it |
| CollateralRegistry.HashLookup | contracts/collateral-registry/src/lib.rs:528-534 | the lookup by hash gives an id iff that id's record has the hash |
| CollateralRegistry.NeverExpired | contracts/collateral-registry/src/lib.rs:240-243 | a revaluation is accepted iff it is positive and the collateral exists: CollateralExpired is unreachable |
| CollateralRegistry.LockHolds | contracts/collateral-registry/src/lib.rs:283-441 | a record is never dropped, its document never changes, and as long as it stays locked neither owner nor locking escrow changes |
| CollateralRegistry.LastTwoValuations | contracts/collateral-registry/src/lib.rs:210-273 | current and previous valuation are the last two the accepted calls gave, 0 if there was one |
| CollateralRegistry.RecordIsTold | contracts/collateral-registry/src/lib.rs:283-441 | owner and locking escrow of every record are those of the last accepted registration, transfer, lock or unlock |
| CollateralRegistry.RegistrationAcceptedExactly | contracts/collateral-registry/src/lib.rs:125-199 | after any run a registration is accepted iff its valuation is positive and no record has its hash (ids fitting) |
| CollateralRegistry.HoldersDecide | contracts/collateral-registry/src/lib.rs:283-441 | after any run a transfer is accepted iff no escrow holds the collateral and the owner changes, a lock iff nobody holds it, an unlock iff somebody does |
| CollateralFacts.SettingsStay | contracts/collateral-registry/src/lib.rs:90-109 | administrator and oracle are those of the first call for good |
| CollateralFacts.CreatedBy | contracts/collateral-registry/src/lib.rs:125-199 | every record has the document, description, type and time of the registration that gave out its id |
| CollateralFacts.TimesAreTold | contracts/collateral-registry/src/lib.rs:245-504 | on every run the times on a record are those of the last accepted call about it, of its last valuation and of its last verification, with the verifying administrator |
| CollateralFacts.RevaluationOnRecord | contracts/collateral-registry/src/lib.rs:245-262 | a revaluation is stored with the value it replaced, the new one and the oracle |
| CollateralFacts.RecordRefusals | contracts/collateral-registry/src/lib.rs:210-504 | each error of revaluation, transfer, lock, unlock and verification iff in its case |
| CollateralFacts.RegistrationRefusals | contracts/collateral-registry/src/lib.rs:125-150 | each error of registration and initialization iff in its case |
| CollateralRegistry.Registry.InitializeRegistry | contracts/collateral-registry/src/lib.rs:90-109 | accepted iff never before; keeps the indexes in agreement iff it is refused or nothing was registered yet |
| CollateralRegistry.Registry.RegisterCollateral | contracts/collateral-registry/src/lib.rs:125-199 | keeps the indexes in agreement; accepted, the hash index then answers the new id, whose last owner in the history is the caller |
| CollateralRegistry.Registry.Revalue | contracts/collateral-registry/src/lib.rs:210-273 | accepted iff the valuation is positive and the collateral exists; the record then holds the last two valuations of the history |
| CollateralRegistry.Registry.TransferCollateral | contracts/collateral-registry/src/lib.rs:283-346 | keeps the indexes in agreement; accepted iff by the history no escrow holds the collateral and the owner changes |
| CollateralRegistry.Registry.LockCollateral | contracts/collateral-registry/src/lib.rs:356-401 | accepted iff by the history the collateral exists and nobody holds it; then the escrow is its holder and every transfer is refused |
| CollateralRegistry.Registry.UnlockCollateral | contracts/collateral-registry/src/lib.rs:410-441 | accepted iff by the history somebody holds the collateral; then nobody does |
| CollateralRegistry.Registry.VerifyCollateral | contracts/collateral-registry/src/lib.rs:451-504 | accepted iff the hash index answers this id for the document; the index stays as it is |
| QuadraticVote.CauchySchwarz | contracts/example/src/lib.rs:528-595 | over any log of positive locks by distinct voters, (sum of floor roots)² <= voters × tokens locked |
| QuadraticVote.QuorumNeedsTokens | contracts/example/src/lib.rs:598-654 | for every proposal executed in any run, voters × tokens locked for it is at least quorum² |
| QuadraticVote.ExecutedHadQuorum | contracts/example/src/lib.rs:598-654 | the same for every proposal marked executed in any reachable state |
| QuadraticVote.ExecutionAcceptedExactly | contracts/example/src/lib.rs:598-654 | execution is accepted iff voting is over, the proposal was not executed, and the floor roots of its distinct voters' locks add up to the quorum |
| QuadraticVote.ExecutionSets | contracts/example/src/lib.rs:623-641 | an accepted execution gives the one setting its action is about the value the action asks for and leaves all others |
| QuadraticRules.SettingIsLastAsked | contracts/example/src/lib.rs:623-641 | on every run each setting has the value that the last executed proposal about it asked for, before any its start; the quorum never changes |
| QuadraticRules.OnlyExecutionSets | contracts/example/src/lib.rs:623-641 | no other call changes a setting |
| QuadraticRules.CreatedBy | contracts/example/src/lib.rs:482-525 | every proposal has the author, title, description and action of one accepted call, and an end its duration after that call |
| QuadraticRules.ProposedIsThere | contracts/example/src/lib.rs:500-524 | an accepted proposal stands under the returned id, as proposed and without votes |
| QuadraticRules.IdsAreDense | contracts/example/src/lib.rs:492-517 | on every run exactly the ids below the next one have a proposal |
| QuadraticRules.ExecutedOnce | contracts/example/src/lib.rs:598-654 | a proposal is marked executed iff one execution of it was accepted, and never a second |
| QuadraticRules.ProposalAcceptedExactly | contracts/example/src/lib.rs:482-525 | a proposal is accepted iff its end and the next id fit |
| QuadraticRules.VoteAcceptedExactly | contracts/example/src/lib.rs:528-595 | on every run a vote is accepted iff it has weight, the proposal is open and not past its end, it is the voter's first lock for it, and the voter can lock the weight (sums fitting) |
| QuadraticRules.VoteRefusals | contracts/example/src/lib.rs:528-589 | each error of a vote iff in its case |
| QuadraticRules.ExecutionRefusals | contracts/example/src/lib.rs:598-621 | each error of an execution iff in its case |
| QuadraticRules.ExecutedHadTenThousand | contracts/example/src/lib.rs:171-174 | with the quorum of 100 that the contract starts with, voters × tokens locked is at least 10000 for every proposal executed in any run |
| QuadraticRules.LocksAreVotes | contracts/example/src/lib.rs:565-573 | the log of locks is that of the accepted votes in order, each with its proposal, voter and weight |
| QuadraticVote.CountIsRootSum | contracts/example/src/lib.rs:575-589 | vote_count is the sum of the floor roots of distinct voters' locks |
| QuadraticVote.TokensConserved | contracts/example/src/lib.rs:565-573 | on every run, with outside transfers in between, the contract holds its start plus all locks plus what was transferred to it, and everybody else its start minus its own locks, with its other transfers |
| QuadraticVote.Contract.ProposeAction | contracts/example/src/lib.rs:482-525 | a new proposal gets an id that no lock of the history names, so it starts without voters and votes |
| QuadraticVote.Contract.Vote | contracts/example/src/lib.rs:528-595 | outcome, balances and storage are those of the model's step on the history, with the Newton root |
| QuadraticVote.Contract.ExecuteProposal | contracts/example/src/lib.rs:598-654 | accepted iff voting is over and the floor roots of the locks reach the quorum; then the action's setting has the value asked for and no other changed, voters × tokens is at least quorum², and no vote or execution is accepted any more |
| IndexerRuns.Converges | backend/src/indexer/mod.rs:107-148 | for every orderly stream and every pattern of failures, expiries, retries and resets, the tables are those of one clean pass whenever the cursor has caught up with the furthest event applied |
| IndexerRuns.ConvergesExactly | backend/src/indexer/mod.rs:107-148 | all attempts converge iff, among the events within reach, the last update of a row before its first creation, if any, is an unlock |
| IndexerRuns.EscrowsCreatedFirst | backend/src/indexer/handlers.rs:102-246 | for an escrow indexer that means: iff no escrow is updated before its first creation |
| IndexerRuns.EarlyWriteAbsorbed | backend/src/indexer/handlers.rs:46-100 | a write made early changes nothing that a replay across its event does not make good, unless it inserts a row that the replay would have changed before |
| IndexerRuns.StopsExactly | backend/src/indexer/mod.rs:136-145 | some attempts bring the cursor past the first n events iff each of them is handled: its parts fit, its users and statuses exist and the tables' constraints hold |
| IndexerRuns.ReachesExactly | backend/migrations/002_create_collateral.sql:23-24 | from any state and from any moment on, the cursor can get on past n events iff each of them in between is handled and writes to no collateral row that has expired by then |
| IndexerRuns.StuckOnceExpired | backend/migrations/002_create_collateral.sql:23-24 | once the write of an event at or after the cursor has expired, no later attempt gets past that event |
| IndexerRuns.NoRestartAfterExpiry | backend/src/indexer/mod.rs:112-121 | an indexer that starts again after a collateral has expired never gets past its registration |
| IndexerRuns.NoLockAfterExpiry | backend/migrations/002_create_collateral.sql:23-24 | a lock or unlock at or after the cursor, of a collateral that has expired, is never passed |
| IndexerRuns.NothingWithoutColumn | backend/src/indexer/handlers.rs:315-323 | while the users table lacks the column for addresses, on any stream no creation is passed and nothing is written |
| IndexerRuns.StuckAtBadEvent | backend/src/indexer/mod.rs:136-145 | on any stream neither the cursor nor a write gets past an event whose handler fails |
| IndexerRuns.RefundStops | backend/migrations/001_create_escrows.sql:5-7 | with the statuses of the migrations a refund decision is such an event |
| IndexerRuns.EmptyExactly | backend/src/indexer/handlers.rs:46-100 | the tables stay empty under all attempts iff no create event comes before the first event that fails |
| IndexerRuns.OnePass | backend/src/indexer/mod.rs:107-148 | a clean pass over any events that are handled can be had, at the moment the indexer first runs |
| IndexerRuns.TwoPasses | backend/src/indexer/mod.rs:112-121 | so can a second pass on top of it, at the same moment |
| IndexerLedger.WholeBatch | backend/src/indexer/mod.rs:136-145 | up to a hundred events that can all be applied go through in one attempt, which saves the last one's place and ledger |
| IndexerLedger.SavedExactly | backend/src/indexer/mod.rs:107-148 | what every attempt saves: nothing if the save fails, the start after a seeming reset, a newer ledger without events, place and ledger together with them |
| IndexerLedger.GoesBackExactly | backend/src/indexer/mod.rs:112-121 | the cursor goes back iff the node's latest ledger is behind the saved one and the save goes through |
| IndexerLedger.NoResetByHonestNode | backend/src/indexer/mod.rs:112-121 | with a node whose latest ledger never shrinks and bounds the events it returns, the cursor never goes back on any run of attempts |
| IndexerLedger.NoSecondReset | backend/src/indexer/mod.rs:112-121 | the attempt after a reset is not a reset, whatever the node says |
| Wiring.EscrowIndexerStops | contracts/escrow-manager/src/lib.rs:357-366 | on every run of the escrow manager and under all attempts the escrow indexer's cursor stays at or before the first creation and its table stays empty |
| Wiring.CreationHandledExactly | backend/src/indexer/handlers.rs:102-139 | a creation event is handled iff addresses can be looked up, it has an id, two addresses and a number as fourth part, and, if both users are known, they differ and the number is positive and within 64 bits |
| Wiring.ExampleCreationHandled | contracts/example/src/lib.rs:375-378 | the example contract's creation event, between known users, is handled iff they differ and its amount is positive and within 64 bits |
| Wiring.FirstIsCreation | contracts/escrow-manager/src/lib.rs:265-369 | the first event a manager publishes in any run is a creation, with the lender as fourth part |
| Wiring.RowFollowsExactly | backend/src/indexer/handlers.rs:141-243 | where a row shows an escrow's status, an accepted call's events leave it showing the new status iff the call is neither a refund nor a dispute_escrow |
| Wiring.CallEvents | contracts/escrow-manager/src/lib.rs:371-791 | the events of each accepted call: unnoticed ones of the payout first, then the one that announces it, with its id and decision |
| Wiring.CreationPublished | contracts/escrow-manager/src/lib.rs:357-366 | an accepted creation publishes one event with the new id and the stored buyer, seller, lender and amount |
| Wiring.PayoutPublished | contracts/escrow-manager/src/lib.rs:579-613 | a payout publishes a fee iff amount × rate reaches one ten-thousandth part, and a conversion iff the assets differ, each with its amount rounded down |
| Wiring.RegistryIndexerSeesNothing | contracts/collateral-registry/src/lib.rs:193-196 | on every run of the registry its indexer passes over all events and the collateral table stays empty |
| Wiring.RegistryPublished | contracts/collateral-registry/src/lib.rs:190-504 | every accepted call about a collateral publishes one event, with what the record then says |
| Wiring.CollateralEmptyExactly | backend/src/indexer/handlers.rs:48-71 | the collateral table stays empty for ever iff no registration with four fitting parts, a known owner, a positive value and an expiry to come comes before the first event that fails |
| IndexerTables.LockedExactly | backend/src/indexer/handlers.rs:46-100 | on orderly streams a collateral row is locked, with status to match, iff the last lock or unlock event about its id is a lock |
| IndexerTables.DisputedExactly | backend/src/indexer/handlers.rs:185-243 | on orderly streams an escrow row is flagged disputed iff the last dispute or resolution event about its id is a dispute |
| IndexerTables.StatusIsLast | backend/src/indexer/handlers.rs:102-246 | on orderly streams an escrow row has the status that the last handled event about it gave, one that the column's type has |
| IndexerRows.RowIsFirstCreation | backend/src/indexer/handlers.rs:46-139 | on every stream and after any attempts a row is there iff a handled creation about its id was applied, and its buyer, seller and amount, or owner, value and expiry, are the users and numbers in the parts of the first such event |
| IndexerRows.HandledExactly | backend/src/indexer/handlers.rs:21-246 | an event is handled iff it decodes and has, for its contract and name, the parts, users, statuses and values that the handler and the tables' constraints ask for |
| IndexerRows.IdsKeptApart | backend/src/indexer/handlers.rs:65-66 | ids keep their value modulo 2^64 as BIGINT, so two ids never share a row |
| IndexerRows.NumbersRead | backend/src/indexer/handlers.rs:337-353 | which kinds of integers are read as ids and as amounts, and with what value |
| Indexer.ContractIndexer.HandleCollateralEvent | backend/src/indexer/handlers.rs:46-100 | success and the new tables are those of the model's write; what the collateral table's constraints refuse at the time is an error |
| Indexer.ContractIndexer.HandleEscrowEvent | backend/src/indexer/handlers.rs:102-246 | success and the new tables are those of the model's write; a status that the column's type lacks is an error, and so is what the escrow table's constraints refuse |
| Indexer.ContractIndexer.HandleEvent | backend/src/indexer/handlers.rs:21-44 | it succeeds iff the event is handled and its write has not expired, and the new tables are then those of the model's write |
| Indexer.ContractIndexer.ProcessBatch | backend/src/indexer/mod.rs:107-148 | tables, saved cursor and ledger after a batch, wherever it breaks off, are those of the model's step on the attempts so far |
| EventBuffer.BufferIsWindow | backend/src/websocket/mod.rs:193-213 | after every push the buffer is exactly the suffix of the history that is young enough, cut to the last max_events, with consecutive ids |
| EventBuffer.ReplayIsLive | backend/src/websocket/mod.rs:485-505 | replay from any id not older than the buffer is, in order and without gap or repeat, what the filter of live broadcasts picks of the later events for the same rooms; from an older id iff no lost event was for them |
| EventBuffer.ReplayIsDelivered | backend/src/websocket/mod.rs:310-346 | it is what the client was sent at the time, by either way of publishing, iff the client has rooms or no later event went to one room only |
| EventBuffer.SecondReplay | backend/src/websocket/mod.rs:702-705 | the id that a replay names is the latest event's iff all later events were for the client; a replay from it is empty iff none for the client comes after one that was not |
| EventBuffer.ReplayWithoutId | backend/src/websocket/mod.rs:485-486 | without an id the replay misses something iff event 0 is still buffered and was for the client |
| Reconnect.ReplayAfterDisconnect | backend/src/websocket/mod.rs:440-505 | after a disconnect the replay holds every later event; that is what a client in its rooms would have been sent iff every one was sent to such a client |
| Reconnect.SendsByRooms | backend/src/websocket/mod.rs:310-346 | while the registry's tables agree, both ways of publishing reach a connected client iff the rooms in its metadata say so |
| EventBuffer.Buffer.PushEvent | backend/src/websocket/mod.rs:193-213 | the pushed buffer is the exact window of the longer history |
| EventBuffer.Buffer.TrimToLimit | backend/src/websocket/mod.rs:209-212 | the loop leaves the last max_events entries |
| EventBuffer.Buffer.GetEventsSince | backend/src/websocket/mod.rs:216-222 | the filter loop gives the model's later events |
| EventBuffer.Buffer.GetEventsForRooms | backend/src/websocket/mod.rs:225-231 | the filter loop gives the model's later events for the rooms |
| EventBuffer.Buffer.GetReplayEvents | backend/src/websocket/mod.rs:485-505 | the reply equals what the filter picks of the events since the given id |
| RoomRegistry.StepLinksExactly | backend/src/websocket/mod.rs:348-474 | a step keeps clients, rooms and metadata in agreement, with no empty room, iff only registered clients join and a client registered again is in no room |
| RoomRegistry.RunLinksExactly | backend/src/websocket/mod.rs:348-474 | so over a run: agreement all along iff every step is of that kind |
| RoomRegistry.UnregisterLinks | backend/src/websocket/mod.rs:440-474 | after a disconnect the client is in no room |
| RoomRegistry.MembersMove | backend/src/websocket/mod.rs:348-404 | joining and leaving change one client's place in one room and nobody else's |
| RoomRegistry.ClientsAreConnected | backend/src/websocket/mod.rs:407-474 | on every run exactly the clients that registered and have not disconnected since have a connection; metadata is kept of all that ever registered |
| RoomRegistry.MembersAreJoined | backend/src/websocket/mod.rs:348-404 | while all steps are allowed, a room's members are exactly the clients that joined it and have neither left it nor disconnected since |
| RoomRegistry.LeaveUndoesJoin | backend/src/websocket/mod.rs:375-404 | leaving right after joining restores all three tables |
| RoomRegistry.Registry.JoinRoom | backend/src/websocket/mod.rs:348-372 | adds the client to this room and to no other; keeps the tables in agreement iff the client is registered |
| RoomRegistry.Registry.LeaveRoom | backend/src/websocket/mod.rs:375-404 | takes the client out of this room and no other, dropping an empty room, and keeps the tables in agreement |
| RoomRegistry.Registry.RegisterClient | backend/src/websocket/mod.rs:407-437 | changes nobody's rooms; when the client was in none, the tables stay in agreement and it is in none |
| RoomRegistry.Registry.UnregisterClient | backend/src/websocket/mod.rs:440-474 | leaving room by room is leaving all of the client's rooms at once; the tables stay in agreement and the client is in no room |
| RateLimiter.AllowsExactly | backend/src/middleware/rate_limiter.rs:28-43 | a request is allowed iff every window ending with it stays within burst + rate × length: the bucket enforces the bound and refuses nothing it permits |
| RateLimiter.WindowBound | backend/src/middleware/rate_limiter.rs:65-73 | requests allowed for one key in any window of length T number at most max_tokens + rate × T |
| RateLimiter.CleanupsInvisible | backend/src/middleware/rate_limiter.rs:76-81 | with safe ages the limiter with cleanups decides like the one without, on every run |
| RateLimiter.CleanupHarmlessExactly | backend/src/middleware/rate_limiter.rs:76-81 | a cleanup changes no later decision iff every bucket it drops is full again |
| RateLimiter.SafeAgeExactly | backend/src/middleware/rate_limiter.rs:76-81 | an age is harmless on every run iff rate × max_age is at least the burst |
| RateLimiter.SafeAgesOfBoth | backend/src/oracle/rate_limiter.rs:50-57 | that is two seconds for the general limiter and two minutes for the oracle limiter |
| RateLimiter.RemainingIsPromised | backend/src/oracle/rate_limiter.rs:74-80 | that many further checks made at once are all allowed, and at the last update no more |
| RateLimiter.FreshKeyGetsBurst | backend/src/oracle/rate_limiter.rs:74-80 | a key without a bucket is promised the whole burst, and of checks made at once exactly that many are allowed |
| RateLimiter.EarnedBack | backend/src/middleware/rate_limiter.rs:28-43 | after its whole burst a key earns requests back at the configured rate, up to the burst |
| RateLimiter.BothLimits | backend/src/oracle/rate_limiter.rs:50-57 | for r configured requests both limiters give a fresh key 2r at once, and from then on r per second, or r per minute for oracles |
| RateLimiter.Limiter.Request | backend/src/middleware/rate_limiter.rs:65-73 | the decision is the window rule over the limiter's own history |
| RateLimiter.StepLevel | backend/src/oracle/rate_limiter.rs:23-37 | one request lowers what its key can draw by one if it is allowed and by nothing if not, other keys' not at all, and a safe cleanup lowers nothing |
| RateLimiter.Limiter.Forget | backend/src/oracle/rate_limiter.rs:84-88 | with a long enough age no later decision changes |
| Crc16.Crc16Xmodem | backend/src/auth/crypto.rs:106-122 | the nested loops give the checksum of the model, low byte first |
| Crc16.CrcIsRemainder | backend/src/auth/crypto.rs:106-122 | the byte-wise checksum is the bit-serial remainder modulo x^16 + x^12 + x^5 + 1 |
| Crc16.Generator | backend/src/auth/crypto.rs:111-117 | the generator is x^16 + x^12 + x^5 + 1 |
| Crc16.UpdateInjective | backend/src/auth/crypto.rs:109-118 | the update by one byte is injective in the running state and in the byte |
| Crc16.BurstDetected | backend/src/auth/crypto.rs:106-122 | messages that differ only within 16 consecutive bits have different remainders |
| StellarAddress.AcceptedExactly | backend/src/auth/crypto.rs:89-96 | 35 bytes are accepted iff payload and checksum together divide evenly |
| StellarAddress.OneByteDetected | backend/src/auth/crypto.rs:106-122 | changing one byte of any input changes its checksum |
| StellarAddress.AlteredByteRejected | backend/src/auth/crypto.rs:89-96 | altering any one byte of an accepted address, key or checksum, makes it rejected |
| AddressBursts.BurstAcceptedExactly | backend/src/auth/crypto.rs:89-96 | a change within 16 consecutive bits of an accepted address, in the order of the address, is accepted iff it crosses from payload to checksum as one of twelve listed differences |
| AddressBursts.OneSideRejected | backend/src/auth/crypto.rs:89-96 | a change within 16 consecutive bits on one side of the border is always rejected |
| AddressBursts.EscapeGoesUnnoticed | backend/src/auth/crypto.rs:120-121 | each of the twelve is such a burst and turns every accepted address into another accepted one |
| AddressBursts.TailAcceptedExactly | backend/src/auth/crypto.rs:89-96 | any change of the last four bytes is accepted iff sixteen rounds of the payload difference give the checksum difference, bytes swapped |
| StellarAddress.CodewordBurstRejected | backend/src/auth/crypto.rs:106-122 | counted with the checksum bytes swapped, every burst of up to 16 bits is rejected |
| StellarAddress.OddRejected | backend/src/auth/crypto.rs:89-96 | any odd number of flipped bits is rejected |
| StellarAddress.DecodeStellarPublicKey | backend/src/auth/crypto.rs:80-102 | the length and checksum tests accept exactly the codewords; what is returned is the 32 bytes between the version byte and the checksum of both |
| StellarAddress.DecodesEncoded | backend/src/auth/crypto.rs:80-102 | for every version byte and every 32-byte key, decoding version, key and their checksum gives the key back |
| Base64.Base64Decode | backend/src/auth/crypto.rs:125-155 | the loop gives the decoding of the model, or the first character that no alphabet has; output and leftover bits are exactly the symbols' bits |
| Base64.ReadCarries | backend/src/auth/crypto.rs:141-151 | leftover bits number 0, 2, 4 or 6, the buffer is below 2 to that power, and output and buffer read as one number are the symbols' number |
| Base64.RoundTrip | backend/src/auth/crypto.rs:125-155 | decoding undoes the encoding of RFC 4648 sections 4 and 5, padded or not, with any white space around it |
| Base64.EncodingsExactly | backend/src/auth/crypto.rs:125-155 | encoding undoes decoding iff the length is not 1 modulo 4 and the leftover bits are zero |
| Base64.ValueOfSymbol | backend/src/auth/crypto.rs:127-140 | every symbol of either alphabet has its value, although both are searched |
| Base64.AlphabetAt | backend/src/auth/crypto.rs:127-128 | the code point of every symbol of the alphabets of RFC 4648 sections 4 and 5 |
| Base64.ValueExactly | backend/src/auth/crypto.rs:131-140 | a character has a value iff it is that value's symbol in one of the two alphabets |

## Left out

- Authentication (`require_auth`), event publishing, storage lifetimes and the two-step admin transfer: host effects.
- The oracle adapter, treasury, risk assessment and token contracts: their answers are parameters, tokens are a balance map, the risk contract is a register of six fields.
- How the escrow manager's one-argument lock call meets the registry's two-argument function: a call that returns or not.
- The collateral and escrow half of the example contract: its records share bare u64 keys.
- Calls before `initialize` in the governance, escrow and example contracts, and code replaced by an upgrade: runs start at `initialize`.
- Transfer, lock, verification and classification histories of the registry, and its constant fields: written and never read.
- `tally_proposal`, which checks a deadline and stores nothing, and plain getters of the contracts.
- GovernanceRuns.LoneVoterConservation: only for voters nobody delegates to; for every voter GovernanceRules.OverspentExactly says exactly when the equation holds, and GovernanceRules.CostsAccounted by how much it fails.
- EscrowRules.RefundAcceptedExactly: for runs with cross-asset escrows the refund's balance condition is the one of RefundStarvedExactly.
- Crc16.BurstDetected: longer bursts and even numbers of scattered flips are not covered; a 16-bit checksum cannot detect them all.
- GovernanceRuns.FailedCallChangesNothing: rollback is assumed of the host, not derived from the writes made before an error; the same holds of EscrowRuns.FailedCallChangesNothing.
- Wiring: events of administrative calls (the two-step admin transfer, treasury settings, renewing a dispute) are among the unnoticed events before a run, not between its calls.
- Indexer: events are positions in one stream, so paging tokens are numbers; the loan handler, WebSocket notices, timestamps and the metadata_hash column, which the id determines, are not tables of the model. The constraints of the two tables, the owner's NOT NULL, the statuses' type and the expiry check are errors of the handlers; the clock is read once a batch, so what expires during a batch, and every other failure of the database, comes at an arbitrary place.
- EventBuffer: full or closed channels that lose live events, a client's rooms changing during a history, event payloads, the wrap-around of 64-bit ids, and an Instant before the process started.
- RoomRegistry: senders, heartbeats and tokens, and interleavings of two registry operations.
- RateLimiter: tokens and times are reals, so floating-point rounding is not modelled, nor is a configured rate above half of u32.
- StellarAddress: base32 decoding and the leading 'G' come before what is modelled.
- Ed25519, SHA-256 and JWT libraries, risk engines, document services, SQL plumbing, the frontend and the TypeScript server.
