# A verified model of block execution and of the gossip network

The repository executes blocks of intent-based transactions and gossips them over a peer-to-peer overlay. This project
models three parts of it and proves what they keep, over all inputs, all interleavings and all runs.

**Block execution.** Accounts live under hierarchical addresses and carry a Boolean tree of predicates. Executing a
transaction gathers the proposed diff, the context and the expanded trees of every account it proposes or that is a
parent of one (`Collect`, `Execution`), and judges the trees in parallel with a cancellation flag (`Outcome`,
`Cancellation`, `Soundness`, `Trust`), which gives the exact conditions of acceptance (`Acceptance`). A block is
scheduled by linking each transaction to its nearest earlier conflict (`Refs`, `Forest`), walking the resulting trees
in breadth-first rows (`Bfs`, `Schedule`), and running trees and rows in parallel over an overlay (`Executor`,
`Confluence`, `Refinement`, `Blocks`, `Counterexamples`). The successful diffs are merged into the chain state
(`State`, `Builder`).

**The token.** The example token predicate and the predicate that keeps trees immutable (`Token`, `Sums`, `Minting`),
tied to the execution above: what an accepted transaction, a run, a block scheduled in parallel, and a chain of blocks
do to the sum of all balances (`TokenRuns`).

**The network.** Expiring collections (`Cache`), the connection multiplexer (`Muxer`), the network object (`Network`,
`Connections`, `Conversations`, `Dialing`, `Windows`), one overlay node (`Topic`, `TopicNode`, `Rules`, `Views`), the
flooding of joins and shuffles (`Flood`), the gossip of one message through a whole network (`Gossiping`), and the
same among other messages (`Traffic`).

Where the source updates objects in place the model has classes (`StateDiff`, `InMemoryStateStore`, `BfsRows`,
`AncestorIterator`, `BlockStateBuilder`, `ExpiringMap`, `Multiplexer`, `Router`, `TopicInner`) whose methods are
proved against functions on values; the theorems are about those functions, and say for each operation what it does
without naming the function. What the code takes from elsewhere is a parameter: running a predicate (`invoke`, true,
false or crash as a function of context and predicate), how the trees of one transaction came to be judged (`judge`,
one for each transaction of a block, restricted by `Legal` to outcomes that some order and interleaving has), digests,
signatures and serialization, the clock (`now`, read once per operation), and random choices and iteration orders
(`Dice`, restricted by `Fair`).

## What the code does not keep, and exactly when it does

- A scheduled block does not always return what running it in order returns. `Counterexamples` holds three blocks of
  transactions, executed with every predicate accepting: a second conflict is lost (`SecondConflictIsLost`), a later
  writer is seen (`LaterWriterIsSeen`), a deleted account reappears (`DeletedAccountReappears`).
  `ForestRefinesExactlyWhen` gives the exact condition on links, accesses and possible deletions, which rules out all
  three. `BlockRefinesSerial` is the guarantee for transactions; its condition is read off the block and the store
  before it. It supposes that both runs judge trees alike, which they need not do; `TwoRunsAgree` lets each run be
  judged in its own order and interleaving, for blocks in whose serial run no predicate crashes, and then the same
  transactions succeed with the same diffs.
- Acceptance can depend on the interleaving, because a crash is absorbed by a disjunction with an accepted side, and
  under a negation by a conjunction with a rejected one (`CrashMakesOutcomeScheduleDependent`). Several trees are
  accepted in every interleaving exactly if none of their leaves crashes and all are true (`AlwaysAcceptedExactly`,
  for transactions `AlwaysAcceptedTransaction`); a single tree has one outcome (`OneTreeIsDeterministic`).
- Acceptance can be wrong: a negated disjunction can be accepted though it is false (`NegatedOrIsUnsound`). If any
  leaf may go undecided, acceptance is sound for exactly the trees without a disjunction under an odd number of
  negations (`SoundExactly`). In the code leaves go undecided only from some leaf on to the end of the tree, so it is
  sound for a few more: for exactly the trees, of leaves that differ, in which no negated disjunction is exposed, that
  is, has nothing to its right that is still needed (`AlwaysSoundExactly`, for transactions `AcceptedMeansTrue` and
  `TrustworthyExactly` and, for every shape of tree, `ShapeTrustworthyExactly`).
- A chain history that starts longer than its bound never shrinks to it (`OversizedHistoryStays`).
- The token predicate does not keep the sum of the balances in the hands of the mint authority. A transaction that
  only deletes the token account has equal sums and is accepted without any signature, whatever balances are
  outstanding (`DeletingIsAccepted`), though a comment in the source says that this needs all tokens to be burnt; and
  then anybody creates balances (`UnsignedRunMints`). This covers the deployment that the source describes, below an
  account with immutable state and tree (`ImmutableParentsAreIndifferent`). Over all runs the claim holds only for a
  token whose supply cannot be read (`ConservesAlwaysExactly`). Along a run it holds exactly until the token is
  deleted (`ConservesUntilDeletedExactly`); a step keeps the guards exactly if it neither deletes the token nor
  replaces their code (`StaysGuardedExactly`, over runs `RunStaysGuardedExactly`), and until then, and across the
  deletion itself, unsigned runs conserve (`UnsignedRunConserves`).
- A balanced transaction may rewrite the recorded supply of a token (`RewritingIsAccepted`);
  `SupplyStaysTotalExactlyWhen` says when supply and balances stay equal.
- A dialed connection panics the network object exactly if no dial to the peer is recorded any more, as after the
  pending timeout (`DialedConnectionPanicsExactly`); `LateConnectionPanics` is a run that ends so.
- The comments of `topic.rs` promise that a high-priority NEIGHBOUR finds a place in a full view, that shuffle replies
  teach new peers, and that an overfull view is trimmed. The code does none of it (`FullViewAdmitsNobody`,
  `ShuffleReplyTeachesNothing`, `TickHangsUpOnNobody`); the model follows the code.

## Model

| member | source | states |
|---|---|---|
| Address.New | primitives/src/address.rs:75-114 | accepts exactly the texts made of one or more non-empty segments over the allowed characters, each after a slash, and reports the right error otherwise |
| Address.ValidIsClean | primitives/src/address.rs:75-114 | an accepted address has no empty segment, no foreign character and no trailing slash |
| Address.AncestorIterator.Next | primitives/src/address.rs:40-56 | yields the text before the last slash while there is one, keeps the address valid, and stops otherwise |
| Address.CollectAncestors | primitives/src/address.rs:116-118 | the iteration ends; it yields only valid addresses that are parents of the start |
| Address.AncestorsAreParents | primitives/src/address.rs:40-56 | for all texts, a is among the ancestors of b iff a is non-empty and a parent of b: iterator and prefix test agree |
| Address.AncestorsDescend | primitives/src/address.rs:40-56 | later ancestors are shorter and parents of earlier ones |
| Address.AncestorsDistinct | primitives/src/address.rs:40-56 | no ancestor is yielded twice |
| Address.AncestorsValid | primitives/src/address.rs:40-56 | every ancestor of a valid address is valid |
| Address.PrefixValid | primitives/src/address.rs:40-56 | cutting a valid address at any inner slash leaves a valid address |
| Address.Combine | primitives/src/address.rs:120-128 | succeeds iff the segment text is itself acceptable, and the result is a child of the address |
| Address.SuffixValid | primitives/src/address.rs:120-128 | from any slash on, the rest of a valid address is a valid address |
| ExpressionTree.MapIsRelabel | primitives/src/predicate.rs:125-141 | mapping keeps the shape and replaces the leaves in visiting order |
| ExpressionTree.TryMapVisitsInOrder | primitives/src/predicate.rs:143-161 | mapping with failures stops at the first failing leaf in visiting order, and otherwise relabels the tree |
| ExpressionTree.TryMapCongruence | primitives/src/predicate.rs:143-161 | only the leaves that occur matter to the result |
| State.StateDiff.Set | vm/src/state.rs:30-33 | a set is the merge with a diff of one upsert, keeps upserts and deletes disjoint, and returns the old upsert |
| State.StateDiff.Remove | vm/src/state.rs:39-42 | a removal is the merge with a diff of one delete, keeps upserts and deletes disjoint, and returns the old upsert |
| State.StateDiff.ApplyDiff | vm/src/state.rs:84-87 | applying a diff to a diff is merging |
| State.MergeDiffs | vm/src/state.rs:49-61 | the two replay loops, in whatever order entries come, compute the merge |
| State.ReplayUpserts | vm/src/state.rs:49-55 | replaying upserts equals merging a diff of these upserts |
| State.ReplayDeletes | vm/src/state.rs:56-60 | replaying deletes equals merging a diff of these deletes |
| State.MergeThenApply | vm/src/state.rs:49-61 | applying a merge equals applying the two diffs one after the other, for every store |
| State.MergeAssociative | vm/src/state.rs:49-61 | merging disjoint diffs is associative |
| State.MergeIdentity | vm/src/state.rs:49-61 | the empty diff is neutral on both sides |
| State.MergeKeepsDisjoint | vm/src/state.rs:49-61 | merging keeps upserts and deletes disjoint and touches what either touches |
| State.EffectDeterminesDiff | vm/src/state.rs:20-61 | disjoint diffs with the same effect on every store are equal |
| State.MergeAllApplies | vm/src/state.rs:49-61 | applying a list merged from the left equals applying its diffs in order |
| State.OverlayExact | vm/src/state.rs:115-123 | an overlay shows what applying its diff would leave iff the diff deletes no account of the base |
| State.InMemoryStateStore.ApplyDiff | vm/src/state.rs:148-156 | the loops over upserts and deletes leave the store with the diff applied |
| Outcome.AndAssociative | vm/src/execution.rs:265-275 | conjunction of outcomes is associative, with four kinds of outcome |
| Outcome.FoldAndConcat | vm/src/execution.rs:157-165 | a fold can be cut anywhere |
| Outcome.GroupingIrrelevant | vm/src/execution.rs:157-165 | every grouping a parallel reduction may use gives the left fold |
| Outcome.FoldAndMeaning | vm/src/execution.rs:265-275 | the fold is Ok iff all outcomes are, otherwise the leftmost error that is not Cancelled if there is one |
| Outcome.AcceptanceIsFinal | vm/src/execution.rs:243-287 | with no disjunction under an odd number of negations, an accepted tree is true however crashed and cancelled leaves are read |
| Outcome.NotFreeHasNoNegatedOr | vm/src/execution.rs:243-287 | trees without negation meet that condition |
| Outcome.DecidedIsExact | vm/src/execution.rs:243-287 | with every leaf decided, the outcome is decided and Ok iff the tree is true |
| Outcome.OutcomeNamesLeaf | vm/src/execution.rs:243-287 | an accepted or refused tree names one of its leaves, with its entry point wrapped once for every negation above it |
| Cancellation.StepKeepsInv | vm/src/execution.rs:133-166 | every step of every worker (read the flag, invoke, raise the flag) keeps the evaluation invariant |
| Cancellation.ExecuteKeepsInv | vm/src/execution.rs:133-166 | so does every interleaving |
| Cancellation.StepProgresses | vm/src/execution.rs:133-166 | every step does work |
| Cancellation.CanFinish | vm/src/execution.rs:133-166 | every interleaving can be continued to an end |
| Cancellation.CrashFreeExact | vm/src/execution.rs:141-165 | if nothing crashes, every finished interleaving is Ok iff every tree is true |
| Cancellation.CrashMakesOutcomeScheduleDependent | vm/src/execution.rs:133-166 | an example: trees and two interleavings, one accepting and one rejecting, because a crash was absorbed; the exact condition is Soundness.AlwaysAcceptedExactly |
| Cancellation.NegatedOrIsUnsound | vm/src/execution.rs:277-287 | an example: a tree with a negated disjunction that is accepted though it can be read as false; the exact condition is Soundness.SoundExactly |
| Soundness.SoundExactly | vm/src/execution.rs:243-287 | acceptance forces truth, whichever leaves are undecided and however they are read, iff the tree has no disjunction under an odd number of negations |
| Soundness.WorkersAreCut | vm/src/execution.rs:133-156 | in every interleaving the leaves of a tree are decided up to a point, and from there on none is |
| Soundness.CancellationSound | vm/src/execution.rs:133-166 | Ok means that every tree in which no disjunction is exposed is true under every reading of crashed and cancelled leaves, in every interleaving |
| Soundness.AcceptedTreesHold | vm/src/execution.rs:133-166 | the same in terms of a truth of predicates that agrees with invocations that do not crash |
| Soundness.AlwaysSoundExactly | vm/src/execution.rs:133-166 | for a tree whose leaves differ: in every successful run, beside whatever other trees, it is true iff no disjunction is exposed |
| Soundness.AlwaysAcceptedExactly | vm/src/execution.rs:133-166 | several trees are accepted in every finished interleaving iff no leaf of theirs crashes and all are true |
| Soundness.OneTreeIsDeterministic | vm/src/execution.rs:133-166 | with at most one tree all finished interleavings end alike |
| Soundness.DependsExactly | vm/src/execution.rs:133-166 | there are both accepting and rejecting interleavings iff there are several trees, some leaf crashes and some interleaving accepts |
| Collect.CollectOutputs | vm/src/collect.rs:59-104 | the loop over proposals computes the proposed diff or the first refusal |
| Collect.OutputsSucceeds | vm/src/collect.rs:59-104 | it succeeds iff exactly the creations are of absent accounts; otherwise the error is that of the first other proposal |
| Collect.OutputsMeaning | vm/src/collect.rs:59-104 | the diff is disjoint, touches exactly the proposed addresses and leaves each account as proposed, with the other half kept |
| Collect.PredicateContext | vm/src/collect.rs:108-129 | the two loops compute the context |
| Collect.ExpandProposalsMeaning | vm/src/collect.rs:266-294 | each proposed address is expanded to the account before and after |
| Collect.ContextShowsDiff | vm/src/collect.rs:108-129 | the context shows exactly the accounts the diff touches, with the values before and after applying it |
| Collect.ContextHoldsCalldata | vm/src/collect.rs:108-129 | the calldata of every intent is in the context under the digest of the intent, if digests differ |
| Collect.CalldataByHashMeaning | vm/src/collect.rs:108-129 | a digest is in the context iff an intent has it, with the calldata of the last such intent |
| Collect.ExpandPredicateMeaning | vm/src/collect.rs:210-261 | a predicate expands iff its code and everything its parameters name is there, to that code, entry point and values; otherwise the first thing missing is the error |
| Collect.ExpandTreeMeaning | vm/src/collect.rs:210-261 | a tree expands leaf by leaf and keeps its shape; the first leaf that does not expand is the error |
| Collect.ExpandParams | vm/src/collect.rs:210-261 | the inner loop expands parameters in order up to the first that cannot be |
| Collect.MergedCalldataMeaning | vm/src/collect.rs:153-161 | a key is in the merged calldata iff some intent has it, and the intent with the greatest digest wins |
| Collect.VisitedMeaning | vm/src/collect.rs:163-184 | the addresses looked at are the proposed ones and their parents |
| Collect.GatherMeaning | vm/src/collect.rs:163-184 | gathering succeeds iff every tree on the way expands, and collects each existing account once |
| Collect.AccountsPredicates | vm/src/collect.rs:133-187 | the loops over proposals and ancestors compute that collection |
| Collect.AccountTreesMeaning | vm/src/collect.rs:133-187 | an account contributes its tree iff it exists and is proposed or a parent of a proposed account |
| Collect.AccountTreesExpand | vm/src/collect.rs:133-187 | the account trees can be gathered iff the trees of all existing accounts that are proposed or above a proposed one expand |
| Collect.IntentsPredicates | vm/src/collect.rs:189-204 | the loop over intents; Collect.IntentTreesMeaning says what it collects |
| Collect.IntentTreesMeaning | vm/src/collect.rs:189-204 | one tree per intent, in order, each expanded under the calldata of its own intent, or the error of the first intent whose tree does not expand |
| Acceptance.GatheredExactly | vm/src/execution.rs:87-126 | the inputs of a transaction are gathered iff its proposals fit the store and the trees of all its intents and of all existing accounts it proposes or that are above these expand; exactly those trees are judged |
| Acceptance.AcceptedHolds | vm/src/execution.rs:87-166 | in every order and interleaving, an accepted transaction has every one of these trees true in which no disjunction is exposed |
| Acceptance.AcceptedExactly | vm/src/execution.rs:87-166 | if nothing crashes, a transaction is accepted iff its proposals fit the store and every one of these trees expands and is true |
| Execution.SomeOutcomeIsPossible | vm/src/execution.rs:87-126 | some order and interleaving of the trees runs to an end |
| Execution.LegalJudgeExists | vm/src/execution.rs:87-126 | judges restricted to possible outcomes exist |
| Execution.AcceptedMeansTrue | vm/src/execution.rs:87-166 | in a transaction accepted in any order and interleaving every triggered tree in which no disjunction is exposed is true, however crashes are read |
| Execution.CrashFreeAcceptance | vm/src/execution.rs:87-166 | without crashes a transaction is accepted iff all its trees are true |
| Execution.AlwaysAcceptedTransaction | vm/src/execution.rs:87-166 | a transaction with several trees is accepted in every order and interleaving iff no predicate crashes and all trees are true |
| Trust.TrustworthyExactly | vm/src/execution.rs:87-166 | for a tree whose leaves differ and that some transaction triggers alone: every accepted transaction that triggers it has it true iff no disjunction of it is exposed |
| Trust.FalseIsAccepted | vm/src/execution.rs:87-166 | a transaction whose only tree is exposed is accepted, for some legal judge and invocation, though the tree is false |
| Trust.ShapeTrustworthyExactly | vm/src/execution.rs:87-166 | for every shape of tree there is a transaction with an intent whose expanded tree has that shape, and its acceptance can be trusted iff no disjunction of the shape is exposed |
| Execution.FrameTheorem | vm/src/execution.rs:87-126 | two stores that agree on the footprint (proposed accounts, their parents, and the accounts referred to by the trees found there and by the intents) give the same result and the same footprint |
| Execution.ExecutionTouchesProposals | vm/src/execution.rs:87-126 | a success touches exactly the proposed accounts and deletes exactly those proposed for deletion |
| Refs.New | vm/src/schedule.rs:244-325 | the loops compute the read and write sets: proposed addresses, and references found on the base store that are not themselves written |
| Refs.FootprintAgainstRefs | vm/src/schedule.rs:244-325 | what execution looks at is these references plus the parents of the proposed accounts plus what parents of accounts to be created refer to |
| Forest.BuildGraph | vm/src/schedule.rs:119-149 | each transaction gets at most one incoming edge, from the greatest earlier index it depends on |
| Forest.NearestBelow | vm/src/schedule.rs:135-143 | the scan from the back finds the greatest earlier index that is depended on, or none |
| Forest.AncestorsAreAChain | vm/src/schedule.rs:135-148 | the ancestors of a transaction form one chain, ordered alike by index and by depth |
| Forest.AncestorIsReached | vm/src/schedule.rs:135-148 | a transaction stands above another iff following the links from that one leads to it |
| Forest.Components | vm/src/schedule.rs:185-196 | union-find over the edges puts two transactions together iff they share a root |
| Forest.Roots | vm/src/schedule.rs:185-212 | the climb ends, and exactly the transactions without a parent are returned, each once |
| Bfs.WithinMeansPath | vm/src/schedule.rs:344-394 | being within k steps means that a path of at most k edges exists |
| Bfs.RowIsLevel | vm/src/schedule.rs:344-394 | row k is the set of nodes at distance k, without repetition, in every graph |
| Bfs.RowsDisjoint | vm/src/schedule.rs:344-394 | no node is in two rows |
| Bfs.EmptyRowEndsWalk | vm/src/schedule.rs:344-394 | an empty row means that everything reachable was returned |
| Bfs.BfsRows.Visit | vm/src/schedule.rs:371-375 | newly discovered neighbours are pushed for the next row, once each |
| Bfs.BfsRows.Pop | vm/src/schedule.rs:365-394 | a popped node of the current row is taken; one of the next row is put back with its neighbours already pushed |
| Bfs.BfsRows.TakeRow | vm/src/schedule.rs:365-394 | one call takes exactly the current row and leaves the next, in spite of the node that was put back |
| Bfs.BfsRows.Next | vm/src/schedule.rs:365-394 | the k-th call returns row k, or None iff there is none |
| Executor.OverlayShows | vm/src/schedule.rs:92-113 | the overlay of accumulated diffs shows an account as the accumulated transactions left it, if none of them deletes it from the base |
| Executor.RowStartAccumulates | vm/src/schedule.rs:75-113 | a row starts from the diffs of all earlier rows of its tree, each with its own result |
| Executor.ParallelRefinesSerial | vm/src/schedule.rs:66-117 | a transaction that sees the earlier writers of what it accesses, in order, none of which can delete an account of the base that it accesses, returns what it returns when the block is run in order |
| Executor.MisorderIsObservable | vm/src/schedule.rs:66-117 | if it does not see them in order, executions exist, determined by the declared accesses, that return something else |
| Executor.DeletionIsObservable | vm/src/state.rs:115-123 | if an earlier one can delete an account of the base that it accesses, executions exist that return something else |
| Executor.RefinesExactlyWhen | vm/src/schedule.rs:66-117 | the exact condition under which a plan of trees and rows can stand in for running in order: the order of writers is kept and no deletion from the base is accessed later |
| Schedule.RowIsDepth | vm/src/schedule.rs:75-90 | row k of a tree holds exactly the transactions k links below its root |
| Schedule.PlanIsWellPlaced | vm/src/schedule.rs:151-212 | every transaction stands in exactly one row of exactly one tree, once |
| Schedule.TakeCells | vm/src/schedule.rs:78-90 | every cell of a row is still full when taken, and is emptied |
| Schedule.RunTree | vm/src/schedule.rs:66-117 | a tree empties exactly its own cells and gives each transaction its result over the rows above |
| Schedule.TreeResultsAre | vm/src/schedule.rs:75-113 | the results of a tree are those of its transactions, one each |
| Schedule.SortByPosition | vm/src/schedule.rs:156-164 | results are put in ascending position without gain or loss |
| Schedule.Run | vm/src/schedule.rs:151-165 | result i belongs to transaction i, there are as many results as transactions, and every cell is emptied |
| Schedule.ExecuteMany | vm/src/schedule.rs:37-43 | the whole of scheduling and running, from references to ordered results |
| Confluence.CellIsFull | vm/src/syncell.rs:78-90 | in every reachable state of the interleaved machine the cell about to be taken is full |
| Confluence.StepKeepsInv | vm/src/schedule.rs:75-113 | every step of every tree and row worker keeps the machine invariant |
| Confluence.EveryInterleavingAgrees | vm/src/schedule.rs:75-113 | every finished interleaving empties every cell, never panics, and ends with the same results |
| Confluence.EveryInterleavingGivesTheResults | vm/src/schedule.rs:151-165 | for the plan of a forest, whatever the interleaving and the order in which the trees are collected, the sorted outputs are the result of each transaction at its own position |
| Confluence.SomethingIsEnabled | vm/src/schedule.rs:156-164 | the machine does not get stuck |
| Confluence.StepProgresses | vm/src/schedule.rs:156-164 | every step brings its tree one step closer to the end and leaves the others alone |
| Confluence.StepsAreCounted | vm/src/schedule.rs:151-164 | no run takes more steps than two per transaction and one per row, and it is finished iff it has taken as many, whatever the interleaving |
| Confluence.CanFinish | vm/src/schedule.rs:151-164 | every interleaving can be continued to a finished one |
| Refinement.ForestRefinesExactlyWhen | vm/src/schedule.rs:119-165 | for declared writes, deletions and accesses: a forest run stands in for the serial run iff each transaction finds above it the earlier writers of what it accesses, all, only these, in order, and accesses no account of the base that an earlier one can delete |
| Refinement.SeesExactlyTheEarlier | vm/src/schedule.rs:135-143 | what that condition demands of every reader and writer |
| Refinement.AncestorsSuffice | vm/src/schedule.rs:135-143 | it holds if earlier writers are ancestors and no later writer stands above |
| Refinement.DependsOnIs | vm/src/schedule.rs:239-242 | dependency means that the other writes something accessed |
| Refinement.ScheduledRunRefinesSerial | vm/src/schedule.rs:37-165 | the promised equality with running in order, for executions determined by their references, under these reservations |
| Counterexamples.SecondConflictIsLost | vm/src/schedule.rs:138-141 | three transactions on an empty store: the third reads what the first two create, succeeds in order and fails when scheduled, because only its nearest conflict is linked |
| Counterexamples.LaterWriterIsSeen | vm/src/schedule.rs:239-242 | four transactions in which every dependency is an ancestor: the third fails in order and succeeds when scheduled, because it sees what the fourth creates |
| Counterexamples.DeletedAccountReappears | vm/src/state.rs:118-123 | the second transaction reads what the first deletes: it fails in order and succeeds when scheduled, because the overlay does not hide deleted accounts |
| Blocks.BlockRefinesSerial | vm/src/schedule.rs:37-165 | a scheduled block returns what running it in order returns, judged alike, if each transaction finds above it exactly the earlier proposers of what it can look at, in order, and none of them proposes to delete an account of the store; the condition speaks of the block and the store only, and nothing is assumed of execution |
| Blocks.RefinesWith | vm/src/schedule.rs:37-165 | the same for any links and any access sets that cover what the serial run looks at |
| Blocks.SerialFootprintIsStatic | vm/src/schedule.rs:244-325 | whatever happened before, a transaction of a serial run looks only at what its proposals, its intents, and the trees its accounts had before the block or were since proposed refer to |
| Blocks.StableFootprints | vm/src/schedule.rs:244-325 | in a block that creates, deletes or gives a new tree to no account that is visited later, this is the footprint on the store before the block |
| Blocks.SerialRunsAgree | vm/src/execution.rs:87-166 | two serial runs of a block, judged in different orders and interleavings, have the same successes, diffs and states if no predicate crashes along one of them |
| Blocks.TwoRunsAgree | vm/src/schedule.rs:37-165 | a scheduled and a serial run that are judged in different orders and interleavings have the same successes and diffs, under the condition of Blocks.BlockRefinesSerial, if no predicate crashes along the serial run |
| Blocks.ExecuteBlock | vm/src/schedule.rs:37-43 | references on the base store, schedule, run: results per transaction |
| Blocks.SuccessesLeadToSerialState | sdk/offchain/src/builder.rs:114-121 | results with the effects of the serial ones, applied in block order, give the serial state |
| Builder.PushKeepsChain | sdk/offchain/src/builder.rs:81-96 | an accepted block extends the hash and height chain, and the history grows up to its bound only |
| Builder.HistoryStaysAChain | sdk/offchain/src/builder.rs:81-123 | over every run the history is a non-empty bounded chain |
| Builder.CheckExactly | sdk/offchain/src/builder.rs:82-91 | a block passes the check iff its parent is the digest of the newest block and its height one more, wrapping at 2^64; otherwise the error carries both values, the parent first |
| Builder.HistoryIsNumbered | sdk/offchain/src/builder.rs:81-123 | over every run each block of the history names the digest of the one before it and is one higher, up to the wrap |
| Builder.OversizedHistoryStays | sdk/offchain/src/builder.rs:93-96 | a history longer than its bound keeps its length for ever |
| Builder.ReplayIsRejected | sdk/offchain/src/builder.rs:81-91 | with a collision-free digest the same block is not accepted twice in a row |
| Builder.NewestIsLastAccepted | sdk/offchain/src/builder.rs:69-96 | after every run either nothing has changed, or the newest block is the last one of the run that was accepted |
| Builder.ConsumedBlockIsSerial | sdk/offchain/src/builder.rs:101-121 | consuming a block that meets the condition of Blocks.BlockRefinesSerial leaves the state of running its transactions in order, judged alike |
| Builder.ConsumedBlockIsAnySerialRun | sdk/offchain/src/builder.rs:101-121 | the same for a serial run that is judged in other orders and interleavings, if no predicate crashes along it |
| Builder.ChainIsSerial | sdk/offchain/src/builder.rs:81-121 | after every run of blocks the state is what running all transactions of the accepted blocks one after the other leaves, if each accepted block meets the condition of Blocks.BlockRefinesSerial on the state it found |
| Builder.BlockStateBuilder.New | sdk/offchain/src/builder.rs:49-67 | fails iff there is no initial block |
| Builder.BlockStateBuilder.ConsumeBlock | sdk/offchain/src/builder.rs:81-123 | succeeds iff the parent is the digest of the newest block and the height is one more; which error it gives otherwise, with its fields; the new history and state; that a rejection changes nothing, and that an accepted block is the newest from then on |
| Builder.MergeSuccesses | sdk/offchain/src/builder.rs:114-118 | successful diffs are merged from the left in block order |
| Sums.SumRemove | sdk/predicates/examples/token.rs:246-287 | a sum does not depend on the order of its keys |
| Sums.SumBalance | sdk/predicates/examples/token.rs:246-287 | values that balance key by key have balancing sums |
| Sums.FoldIsWrappedSum | sdk/predicates/examples/token.rs:254-284 | folding with 64-bit addition gives the sum modulo 2^64 in whatever order the proposals are iterated; Token.FoldsAreSums applies it |
| Sums.WrapMove | sdk/predicates/examples/token.rs:162-163 | adding one wrapped sum and taking another away is exact modulo 2^64, and equal wrapped sums mean an unchanged total |
| Token.TotalMoves | sdk/predicates/examples/token.rs:246-287 | a diff changes the sum of all balances below the token by exactly post minus pre, for every transaction |
| Token.FoldsAreSums | sdk/predicates/examples/token.rs:246-287 | the two folds over the proposals of a context are the sums of the balances before and after, modulo 2^64, in whatever order the proposals are iterated |
| Token.SignatureComesFromIntent | sdk/predicates/examples/token.rs:289-305 | a signature found in the context is one carried by an intent of the transaction |
| Token.SignatureCounts | sdk/predicates/examples/token.rs:289-305 | a valid signature in the calldata of any intent is found, if digests differ |
| Token.TokenAcceptsExactly | sdk/predicates/examples/token.rs:106-244 | the predicate accepts iff its parameters are well formed, all balances can be read, and either both sums are equal or the mint authority has signed and the token is proposed with the supply that follows: a creation when minting, a replacement, or a deletion when not minting and nothing is left |
| Token.TokenCrashesExactly | sdk/predicates/examples/token.rs:106-244 | it crashes iff its parameters are not well formed or a number it needs cannot be read |
| Token.GuardsExpand | vm/src/collect.rs:210-261 | the tree of a token expands to calls of the token predicate and of the immutability predicate with its own address, key and state |
| Token.GuardsAccept | vm/src/collect.rs:163-184 | an accepted transaction that proposes the token or anything below it has passed both predicates |
| Token.AcceptedConserves | sdk/predicates/examples/token.rs:106-244 | an accepted transaction changes the sum of balances only with a mint signature, and then the supply by as much; the guarding tree stays (Minting.TokenDecides says which are accepted) |
| Token.SupplyStaysTotalExactlyWhen | sdk/predicates/examples/token.rs:127-244 | supply stays the sum of balances iff a balanced transaction leaves the supply alone; a deletion of the token that is not balanced leaves no balances |
| Token.TokenAloneIsBalanced | sdk/predicates/examples/token.rs:129-134 | the token predicate accepts every context whose only proposal is for the token account, whatever it does to it |
| Token.RewritingIsAccepted | sdk/predicates/examples/token.rs:129-134 | a transaction of one proposal for the state of the token account, without intent or signature, is accepted in every interleaving and leaves what it wrote, if the accounts above the token let transactions pass that leave them alone |
| Token.DeletingIsAccepted | sdk/predicates/examples/token.rs:129-134 | so is the deletion of the token account, whatever balances are outstanding |
| Token.ImmutableParentsAreIndifferent | stdpred/src/constant.rs:23-75 | accounts under the two predicates that make their state and their tree immutable let every transaction pass that leaves them alone |
| Minting.TokenDecides | sdk/predicates/examples/token.rs:106-244 | a transaction that proposes the token or something below it, and that all other trees let pass, is accepted in every order and interleaving iff it leaves the tree of the token alone and obeys the rule of the token |
| Minting.MintOrBurnIsAccepted | sdk/predicates/examples/token.rs:137-244 | a signed mint or burn with the supply that follows is accepted, and the sum of balances and the supply move by as much |
| Minting.ImmutableExactly | stdpred/src/constant.rs:23-75 | an account under the two predicates that make its state and its tree immutable lets a transaction pass iff the transaction at most deletes it |
| TokenRuns.StaysGuardedExactly | sdk/predicates/examples/token.rs:106-244 | an accepted transaction leaves a guarded token guarded iff it neither deletes the token account nor proposes another program for the account that holds the code of a guard |
| TokenRuns.RunStaysGuardedExactly | sdk/predicates/examples/token.rs:106-244 | the token is guarded all along a run iff no accepted transaction of it does either |
| TokenRuns.UnsignedRunMints | sdk/predicates/examples/token.rs:127-134 | from every store with a guarded token of readable supply, below accounts that neither object nor refer to it, two unsigned accepted transactions, a deletion and a creation, raise the sum of balances by any amount |
| TokenRuns.ConservesAlwaysExactly | sdk/predicates/examples/token.rs:106-244 | every unsigned run from a store with a guarded token conserves the balances iff the supply cannot be read (inline guards) |
| TokenRuns.ConservesUntilDeletedExactly | sdk/predicates/examples/token.rs:106-244 | after a run that leaves the code of the guards and the accounts above alone and does not create the token anew, every unsigned continuation that keeps the guards conserves the balances iff no accepted transaction has deleted the token |
| TokenRuns.UnsignedRunConserves | sdk/predicates/examples/token.rs:106-244 | a run without a mint signature leaves the sum of balances as it was modulo 2^64, up to and with the first accepted transaction that deletes the token or replaces the code of a guard |
| TokenRuns.UnsignedRunConservesExactly | sdk/predicates/examples/token.rs:106-244 | and the sum itself when it fits 64 bits at both ends |
| TokenRuns.RunKeepsSupply | sdk/predicates/examples/token.rs:127-244 | supply equals the sum of balances after every run in which no accepted transaction deletes the token or replaces the code of a guard and balanced ones leave the supply alone, mints and burns included |
| TokenRuns.ConsumedBlockConserves | sdk/offchain/src/builder.rs:81-123 | a block scheduled in parallel under the condition of Blocks.BlockRefinesSerial and consumed by the builder conserves the balances like its run in order |
| TokenRuns.ChainConserves | sdk/offchain/src/builder.rs:81-123 | so does every run of blocks without mint signatures, up to and with the first disturbance of the guards |
| TokenRuns.ChainKeepsSupply | sdk/offchain/src/builder.rs:81-123 | supply equals the sum of balances after every run of blocks that meets the conditions of TokenRuns.RunKeepsSupply |
| Cache.ExpiringMap.Insert | network/src/cache.rs:44-53 | stores with the current time and returns the old value unless it is older than the lifespan |
| Cache.ExpiringMap.Find | network/src/cache.rs:59-67 | finds an entry up to and including its lifespan |
| Cache.ExpiringMap.Remove | network/src/cache.rs:73-81 | removes also an expired entry, without returning it |
| Cache.ExpiringMap.PruneExpired | network/src/cache.rs:83-85 | keeps the entries younger than the lifespan |
| Cache.PresentExactly | network/src/cache.rs:44-85 | over every run with a monotone clock, an entry is present iff its last operation put it and no prune came a lifespan later |
| Cache.AbsentExactly | network/src/cache.rs:44-85 | exactly when a lookup in a run finds nothing, with both expiry comparisons |
| Cache.AcceptedAfterSilence | network/src/network.rs:316-327 | in any sequence of puts and prunes, between a put that finds nothing and every earlier put of its key lies at least the lifespan; Windows.AcceptedOutsideWindow states it of the network object |
| Cache.SilenceIsAccepted | network/src/network.rs:316-327 | a lookup after a silence longer than the lifespan finds nothing; Windows.SilenceEndsWindow states it of the network object |
| Cache.PruneDecidesTheBoundary | network/src/cache.rs:47-84 | exactly one lifespan later an entry is found, unless a prune came first |
| Muxer.Multiplexer.RegisterConnection | network/src/muxer.rs:52-60 | does what Dialing.RegisteredExactly says |
| Muxer.Multiplexer.DropConnection | network/src/muxer.rs:62-74 | does what Dialing.DroppedExactly says |
| Muxer.Multiplexer.RequestDial | network/src/muxer.rs:83-94 | one requested dial per host and topic |
| Muxer.Multiplexer.PollDial | network/src/muxer.rs:96-102 | some requested dial iff there is one |
| Muxer.Multiplexer.NextDial | network/src/muxer.rs:104-119 | starts a dial iff it was requested and none to its host is under way |
| Muxer.Multiplexer.TakeDial | network/src/muxer.rs:123-149 | gives the connection to the topic of the first address that is being dialed and drops the entries passed on the way |
| Muxer.Multiplexer.AssignConnection | network/src/muxer.rs:154-182 | moves a waiting connection to its topic and returns its peer, once |
| Muxer.MatchTakes | network/src/muxer.rs:123-149 | a match takes the dial it completes and besides it only expired ones |
| Muxer.DialLasts | network/src/muxer.rs:104-149 | a started dial stays under way until completed or until the timeout has passed |
| Muxer.PruningForgets | network/src/muxer.rs:205-207 | pruning forgets the dials begun a timeout ago or longer, and no others |
| Muxer.DialsAreSpaced | network/src/muxer.rs:104-149 | two dials to one host are separated by a completion or by at least the timeout, in every run |
| Network.Router.JoinTopic | network/src/network.rs:164-182 | fails iff the topic was joined before |
| Network.Router.BeginConnection | network/src/network.rs:216-222 | does what Dialing.BegunExactly says |
| Network.Router.CompleteConnection | network/src/network.rs:226-260 | does what Conversations.EstablishedExactly, Dialing.RegisteredExactly and Dialing.AnsweredExactly say; panics without a recorded dial |
| Network.Router.CompleteDisconnection | network/src/network.rs:271-283 | does what Conversations.ClosedExactly and Dialing.DroppedExactly say |
| Network.Router.Accept | network/src/network.rs:294-351 | does what Conversations.ReceivedExactly says |
| Network.Router.Maintain | network/src/network.rs:396-420 | does what Dialing.TickedExactly and Conversations.BroadcastExactly say |
| Network.Router.AddLocalAddress | network/src/network.rs:285-292 | does what Conversations.BroadcastExactly says |
| Connections.StepKeepsInv | network/src/network.rs:216-351 | every well-formed event keeps every open connection tracked under its own peer and joined topic, and panics nowhere |
| Connections.ConversationsAreOrderly | network/src/network.rs:226-351 | over every well-formed run, what topics are told about a connection is a prefix of connected, messages, disconnected, by one peer on one topic, and "should be mapped by now" is not reached |
| Connections.ToldDialLasts | network/src/network.rs:216-260 | over every run with a monotone clock, a dial the run loop was told to make stays recorded until a connection finishes it or the timeout has passed |
| Connections.PromisedRunsAreOrderly | network/src/network.rs:226-351 | the same conclusion when the environment promises only fresh identifiers, messages and closings of open connections, and connections that answer a dial less than a timeout old |
| Connections.DialedConnectionPanicsExactly | network/src/network.rs:233-253 | a dialed connection panics iff no address of the peer has a dial under way |
| Connections.LateConnectionPanics | network/src/network.rs:233-253 | a run of join, dial, a tick at the timeout and the connection, which panics though the run loop was told to dial |
| Conversations.EstablishedExactly | network/src/network.rs:226-260 | a dialed connection is told at once to the topic that dials the first of the peer addresses under way; an inbound one to nobody |
| Conversations.ReceivedExactly | network/src/network.rs:294-351 | a message on an open connection: on a topic not joined the connection is closed; a duplicate is dropped; the first one tells its topic of the peer and of the message; a later one is told to the topic of the connection, and on another topic the peer is banned |
| Conversations.ClosedExactly | network/src/network.rs:271-283 | the topic that knew of a connection is told that it is closed; if none did, nobody is told |
| Conversations.ClosedIsFinished | network/src/network.rs:271-283 | over every well-formed run, once a connection was closed, what topics were told about it is what they had been told, followed by its end iff there was anything, and stays so |
| Conversations.BroadcastExactly | network/src/network.rs:285-292 | ticks and local addresses are told to every topic once |
| Dialing.RegisteredExactly | network/src/muxer.rs:52-60 | an inbound connection waits under its peer, and the first known addresses of the peer stay |
| Dialing.DroppedExactly | network/src/muxer.rs:62-74 | an assigned connection is forgotten; a waiting one only if its peer has none assigned; nothing else changes |
| Dialing.AssignedExactly | network/src/muxer.rs:154-182 | the first message assigns a waiting connection to its topic and yields its peer; otherwise nothing happens |
| Dialing.BegunExactly | network/src/network.rs:216-222 | a requested dial is told to the run loop at once and recorded, unless a dial to its host is recent; then it waits as requested |
| Dialing.TickedExactly | network/src/network.rs:396-420 | a tick forgets old dials and arrivals and dials one request if its host is free |
| Dialing.TickDialsRequest | network/src/muxer.rs:83-119 | over every run, a tick dials a requested address at its own host if there is a request, unless a dial to that host is still under way |
| Dialing.AnsweredExactly | network/src/network.rs:233-253 | a dialed connection ends the dials up to the one it answers, belongs to its topic, and lets that topic dial the first peer address it still waits for whose host is free |
| Windows.HistoryIsRun | network/src/network.rs:316-327 | over every run the history of the network object is the expiring map run on the arrivals it noted and the prunes of its ticks |
| Windows.AcceptedOutsideWindow | network/src/network.rs:316-327 | over every run with a monotone clock, a message not taken for a duplicate comes at least the dedupe interval after every noted arrival of its digest |
| Windows.SilenceEndsWindow | network/src/network.rs:316-327 | and one that comes later than the interval after all of them is not taken for a duplicate |
| TopicNode.TopicInner.constructor | network/src/topic.rs:190-231 | a new topic knows nobody and has dialed every bootstrap address |
| TopicNode.TopicInner.Disconnect | network/src/topic.rs:456-473 | does what Rules.HungUpExactly says |
| TopicNode.TopicInner.DialEach | network/src/topic.rs:475-487 | does what Rules.DialAllExactly says |
| TopicNode.TopicInner.SendAll | network/src/topic.rs:1154-1166 | does what Rules.CopiedExactly says |
| TopicNode.TopicInner.AddToPassiveView | network/src/topic.rs:560-582 | does what Rules.RememberedExactly says |
| TopicNode.TopicInner.TryNeighbouringWith | network/src/topic.rs:1182-1203 | does what Rules.TriedExactly says |
| TopicNode.TopicInner.HandlePeerConnected | network/src/topic.rs:391-405 | does what Rules.ConnectedExactly says |
| TopicNode.TopicInner.HandlePeerDisconnected | network/src/topic.rs:407-411 | does what Rules.DisconnectedExactly says |
| TopicNode.TopicInner.HandleTick | network/src/topic.rs:413-432 | does what Rules.TickExactly and Rules.TickActsExactly say |
| TopicNode.TopicInner.ConsumeJoin | network/src/topic.rs:684-731 | does what Rules.JoinExactly says |
| TopicNode.TopicInner.ConsumeForwardJoin | network/src/topic.rs:752-835 | does what Rules.ForwardJoinExactly says; the random choice cannot fail |
| TopicNode.TopicInner.ConsumeNeighbour | network/src/topic.rs:846-896 | does what Rules.NeighbourExactly says; with an optimal size of at least 1 the random choice cannot fail |
| TopicNode.TopicInner.ConsumeShuffle | network/src/topic.rs:914-1062 | does what Rules.ShuffleExactly says; every address looked up is known |
| TopicNode.TopicInner.ConsumeShuffleReply | network/src/topic.rs:1070-1128 | does what Rules.ShuffleReplyExactly says |
| TopicNode.TopicInner.ConsumeGossip | network/src/topic.rs:1136-1170 | does what Rules.GossipExactly says |
| TopicNode.TopicInner.InjectEvent | network/src/topic.rs:233-290 | every event leaves exactly the state and the commands that its rules prescribe |
| TopicNode.TopicInner.Gossiping | network/src/topic.rs:162-185 | does what Rules.PublishedExactly says |
| Rules.DialAllExactly | network/src/topic.rs:475-487 | of the addresses exactly those are dialed that are the first of their host, which was not dialed recently; all hosts are noted |
| Rules.HungUpExactly | network/src/topic.rs:456-473 | the connection is closed iff that was not asked for recently; the attempt is noted |
| Rules.CopiedExactly | network/src/topic.rs:1154-1166 | one copy to each active peer but those excepted, and to nobody else |
| Rules.RememberedExactly | network/src/topic.rs:560-582 | the peer is in the passive view with its addresses and everybody else stays; only if that passes the limit, one is gone |
| Rules.TriedExactly | network/src/topic.rs:1182-1203 | a peer that is neither active nor being dialed is noted as a neighbour to be, and dialed if it was not noted recently |
| Rules.ConnectedExactly | network/src/topic.rs:391-405 | the commands on a new connection, in order, each iff it is due: JOIN, NEIGHBOUR with high priority iff the node has no active peer, SHUFFLEREPLY, and closing after a mere reply; who becomes active; what is no longer pending |
| Rules.DisconnectedExactly | network/src/topic.rs:407-411 | a peer that was active is remembered as passive with its addresses; nothing is sent |
| Rules.TickExactly | network/src/topic.rs:413-432 | a tick step by step: what it forgets, when it shuffles, and whom it tries |
| Rules.TickActsExactly | network/src/topic.rs:413-432 | a tick dials iff the node is idle and starving: all hosts of one passive peer, which becomes a neighbour to be, or, knowing none and awaiting no join, those of the bootstrap addresses; it sends iff a shuffle is due and tossed for: a first hop, by the node itself, to one active peer |
| Rules.JoinExactly | network/src/topic.rs:684-731 | an impersonator is banned and an active sender ignored; otherwise every active peer gets a first hop, the connection is closed, the peer is tried as a neighbour below the optimal size, and remembered |
| Rules.ForwardJoinExactly | network/src/topic.rs:752-835 | inactive senders and cycles are ignored; the joining node is remembered; earlier hops try it below the optimal size and pass the join on; the last hop, unless it is a neighbour to be, tries it, after hanging up on some active peer of a full view |
| Rules.NeighbourExactly | network/src/topic.rs:846-896 | an impersonator is banned, a sender is admitted below the optimal size and hung up on otherwise, after some active peer at high priority |
| Rules.ShuffleExactly | network/src/topic.rs:914-1062 | the reply holds everybody known but those heard of, the passive view becomes a bounded mix of known and heard of, the originator is answered or dialed, and the shuffle goes on before the last hop |
| Rules.ShuffleReplyExactly | network/src/topic.rs:1070-1128 | the passive view becomes a part of itself, and an inactive sender is hung up on |
| Rules.GossipExactly | network/src/topic.rs:1136-1170 | an inactive sender is hung up on; otherwise the message goes to every other active peer and once to the listeners |
| Rules.AddressExactly | network/src/topic.rs:233-290 | a new local address becomes part of what the node says of itself, once |
| Rules.PublishedExactly | network/src/topic.rs:162-185 | publishing: the two errors, or one copy to each active peer |
| Views.ActiveExactly | network/src/topic.rs:588-618 | exactly who is active after any event: entered by its own NEIGHBOUR below the optimal size or by a connection to a pending neighbour, left by disconnection or by an impersonating JOIN |
| Views.EventKeepsSafe | network/src/topic.rs:560-618 | every event keeps the passive view within its limit and the node out of its own active view |
| Views.RunKeepsViews | network/src/topic.rs:560-1128 | the same over every run and all random choices, and every active peer was let in at some moment and not expelled since |
| Views.FullViewAdmitsNobody | network/src/topic.rs:870-896 | a NEIGHBOUR is admitted iff the view is below its optimal size, whatever its priority |
| Views.ShuffleReplyTeachesNothing | network/src/topic.rs:1082-1124 | the passive view after a shuffle reply is part of the one before |
| Views.TickHangsUpOnNobody | network/src/topic.rs:425-432 | no tick asks for a connection to be closed |
| Views.TickActsOnlyWhenIdle | network/src/topic.rs:413-432 | a tick sends at most one shuffle, only when due and when there is someone to send it to, and dials only below the starving size while no young dial or neighbour is pending |
| Views.HangupOncePerTimeout | network/src/topic.rs:456-473 | hanging up on a peer twice sends the second command iff the timeout has passed since the first; the attempt is noted either way |
| Views.DialOncePerTimeout | network/src/topic.rs:475-487 | the same for dialing two addresses of one host |
| Views.ReplyExactly | network/src/topic.rs:963-1011 | the reply to a shuffle holds exactly the known peers that were not drawn from it, at their known addresses |
| Views.ReshuffledIsKnown | network/src/topic.rs:963-1040 | the passive view after a shuffle holds only peers that were known or that it mentioned |
| Views.JoinIsSentAlone | network/src/topic.rs:356-383 | JOIN goes only to a dialed peer that is expected for nothing else, below the optimal size, and nothing else is sent with it |
| Flood.ForwardJoinPassesOn | network/src/topic.rs:781-835 | before the last hop a heeded FORWARDJOIN goes on, one hop further, to exactly the active peers but the sender; otherwise to nobody |
| Flood.ShufflePassesOn | network/src/topic.rs:1042-1061 | the same for SHUFFLE |
| Flood.JoinStartsFlood | network/src/topic.rs:712-725 | a JOIN starts a flood at hop 1 to exactly the active peers iff it is honest and new |
| Flood.DeliveryLowersPotential | network/src/topic.rs:781-835 | each delivery strictly lowers the sum of size^(walk length - hop) over the copies in flight, whatever the views are at that moment |
| Flood.FloodsDieOut | network/src/topic.rs:752-1061 | no run delivers more copies than the potential it starts with |
| Flood.HopsStayInRange | network/src/topic.rs:822-831 | hop counters of copies passed on never exceed the walk length |
| Gossiping.ReceiveMeans | network/src/network.rs:294-351 | an arrival goes through the duplicate filter, the multiplexer and the topic: delivered and passed on if new, dropped if not |
| Gossiping.StepKeepsInv | network/src/topic.rs:1136-1170 | every arrival keeps: hearers delivered once, copies on links, links of spreaders covered, hearers reachable; and lowers the measure |
| Gossiping.GossipIsDelivered | network/src/topic.rs:162-185 | within one dedupe interval flooding stops; no node delivers twice, unreachable ones never; with nothing in flight every reachable node but the originator has delivered exactly once, the originator at most once |
| Gossiping.GossipCanFinish | network/src/topic.rs:1136-1170 | every run within the interval can be continued until nothing is in flight |
| Traffic.EventKeeps | network/src/topic.rs:1136-1170 | arrivals and publications of other messages, with other digests, keep the invariant and the measure of this one; its own arrivals lower the measure |
| Traffic.DeliveredAmongOthers | network/src/topic.rs:162-185 | the same as Gossiping.GossipIsDelivered with any number of other messages in flight and published meanwhile, for the copies and deliveries of this one |

## Left out

- Running wasm: compilation, memory, calls, system calls and the module cache, whose entries are a function of the diff here.
- Digests, signatures, key encodings and MessagePack: parameters of the model.
- Caching of an intent's digest and of a message's digest: digests are functions of values here.
- The proposals of a transaction are a list with distinct addresses in iteration order instead of a sorted map.
- Union-find and sorting come from libraries; the model uses a plain implementation of each, proved against the same specification.
- The graph library hands out neighbours in an order of its own; rows are proved for every adjacency order.
- Memory orderings of the take-once cells: each atomic operation is one step.
- Swarm, transport, codec, run loop and stream plumbing: only their events occur, as steps of the environment.
- Connections.ConversationsAreOrderly: presupposes that a dial is still recorded when its connection is established; Connections.PromisedRunsAreOrderly derives that from the timeout.
- Traffic.DeliveredAmongOthers: gossip of other messages is part of the run, within one dedupe interval and over connections that already belong to the topic; joins, shuffles and changing views are not.
- Soundness.AlwaysSoundExactly: for trees whose leaves differ, as does Trust.TrustworthyExactly; equal leaves get equal answers, so whether a repeated leaf exposes a tree depends on what the answers can be. That no exposed disjunction suffices is proved for all trees.
- Blocks.TwoRunsAgree: for blocks without crashes along the serial run; with crashes either run may accept what the other rejects.
- TokenRuns.ConservesAlwaysExactly: for guards whose code is inline; for code held by an account TokenRuns.UnsignedRunMints gives the failing direction.
- Token.AcceptedConserves: stated modulo 2^64, as the arithmetic of an unchecked build is; a checked build would panic and thereby reject.
- Flood.FloodsDieOut: counts deliveries of copies that descend from those in flight at the start, not of floods begun later.
- TopicNode.TopicInner.StartShuffle: a sample may be smaller than the sample size, which covers samples drawn with repetition from both views.
- Float formulas for view sizes, walk length and sample size: natural-number parameters.
- The structural query language, the block watcher, the development node, macros, metrics and logging: glue without state of its own.
- The standard predicates other than the one that keeps trees immutable: single comparisons.
