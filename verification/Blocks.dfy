/** Blocks of real transactions: what each can look at, and when the scheduled run refines the serial one. */
module Blocks {
  import opened Address
  import opened Collect
  import opened Execution
  import opened Executor
  import opened Forest
  import opened Primitives
  import opened Refinement
  import opened Refs
  import opened Schedule
  import opened State
  import opened Wrappers

  /** How each transaction of the block is judged: another order of trees and another interleaving for every one. */
  type Judges = nat -> Judge

  /** The i-th transaction of a block, executed. */
  function BlockExec(judges: Judges, txs: seq<Transaction>): Exec {
    (i: nat, s: Accounts) => if i < |txs| then ExecuteTransaction(judges(i), txs[i], s) else Err(Cancelled)
  }

  function RefsOfBlock(txs: seq<Transaction>, base: Accounts): (block: Block)
    ensures |block| == |txs|
  {
    seq(|txs|, i requires 0 <= i < |txs| => RefsOf(txs[i], base))
  }

  /** The accounts every transaction looks at when the block is run in order. */
  function SerialFootprints(judges: Judges, txs: seq<Transaction>, base: Accounts): (access: seq<set<Address>>)
    ensures |access| == |txs|
  {
    seq(|txs|, i requires 0 <= i < |txs| => Footprint(SerialState(BlockExec(judges, txs), base, i), txs[i]))
  }

  function ProposedKeys(txs: seq<Transaction>): (writes: seq<set<Address>>)
    ensures |writes| == |txs|
  {
    seq(|txs|, i requires 0 <= i < |txs| => Keys(txs[i].proposals))
  }

  /** The accounts each transaction proposes to delete. */
  function ProposedDeletions(txs: seq<Transaction>): (deletable: seq<set<Address>>)
    ensures |deletable| == |txs|
  {
    seq(|txs|, i requires 0 <= i < |txs| =>
      set k | 0 <= k < |txs[i].proposals| && txs[i].proposals[k].change.DeleteAccount? :: txs[i].proposals[k].addr)
  }

  lemma BlockExecKeepsContract(judges: Judges, txs: seq<Transaction>)
    requires forall i :: 0 <= i < |txs| ==> DistinctKeys(txs[i].proposals)
    ensures Contract(BlockExec(judges, txs), ProposedKeys(txs), ProposedDeletions(txs))
  {
    var exec := BlockExec(judges, txs);
    forall i: nat, s | i < |txs| && exec(i, s).Ok?
      ensures exec(i, s).value.Disjoint() && exec(i, s).value.Touched() == ProposedKeys(txs)[i]
      ensures exec(i, s).value.deletes <= ProposedDeletions(txs)[i]
    {
      ExecutionTouchesProposals(judges(i), txs[i], s);
      var d, ps := exec(i, s).value, txs[i].proposals;
      forall a | a in d.deletes ensures a in ProposedDeletions(txs)[i] {
        assert a in Keys(ps);
        var k :| 0 <= k < |ps| && ps[k].addr == a;
      }
    }
  }

  lemma BlockExecDetermined(judges: Judges, txs: seq<Transaction>, base: Accounts, access: seq<set<Address>>)
    requires |access| == |txs| && forall i :: 0 <= i < |txs| ==> SerialFootprints(judges, txs, base)[i] <= access[i]
    ensures DeterminedInRun(BlockExec(judges, txs), base, access)
  {
    var exec := BlockExec(judges, txs);
    forall i: nat, t | i < |access| && SameOn(SerialState(exec, base, i), t, access[i])
      ensures exec(i, t) == SerialResult(exec, base, i)
    {
      assert SerialFootprints(judges, txs, base)[i] <= access[i];
      FrameTheorem(judges(i), txs[i], SerialState(exec, base, i), t);
    }
  }

  /** Nothing is assumed of execution: the frame theorem supplies what each transaction accesses. */
  lemma RefinesWith(judges: Judges, txs: seq<Transaction>, base: Accounts, links: Links, access: seq<set<Address>>,
                    i: nat)
    requires forall k :: 0 <= k < |txs| ==> DistinctKeys(txs[k].proposals)
    requires |access| == |txs| && forall k :: 0 <= k < |txs| ==> SerialFootprints(judges, txs, base)[k] <= access[k]
    requires |links| == |txs| && i < |txs| && SeesEarlierWriters(links, ProposedKeys(txs), access)
    requires NoDeletionSeen(base, ProposedKeys(txs), ProposedDeletions(txs), access)
    ensures BlockResult(BlockExec(judges, txs), base, links, i) == SerialResult(BlockExec(judges, txs), base, i)
  {
    var exec, roots := BlockExec(judges, txs), SomeRoots(links);
    var plan, writes := PlanOf(links, roots), ProposedKeys(txs);
    PlanIsWellPlaced(links, roots);
    OrderKeptIs(links, roots, writes, access);
    BlockExecKeepsContract(judges, txs);
    BlockExecDetermined(judges, txs, base, access);
    assert InPlan(plan, i);
    var t, r :| Placed(plan, i, t, r);
    PlanResult(exec, base, links, roots, i, t, r);
    ParallelRefinesSerial(exec, base, plan, writes, ProposedDeletions(txs), access, i, t, r);
  }

  // ---- What a transaction can come to look at, read off the block ----

  function ProposedTree(change: AccountChange): Option<PredicateTree> {
    match change
    case CreateAccount(account) => Some(account.predicates)
    case ReplacePredicates(predicates) => Some(predicates)
    case _ => None
  }

  /**
   * The trees the account can have when transaction i runs: the one it has before the block, and those proposed since.
   */
  function TreesAt(txs: seq<Transaction>, base: Accounts, i: nat, a: Address): set<PredicateTree>
    requires i <= |txs|
  {
    (if a in base then {base[a].predicates} else {}) +
    set j, k | 0 <= j < i && 0 <= k < |txs[j].proposals| && txs[j].proposals[k].addr == a
               && ProposedTree(txs[j].proposals[k].change).Some? :: ProposedTree(txs[j].proposals[k].change).value
  }

  /** Every account transaction i can look at, whatever becomes of the transactions before it. */
  function StaticFootprint(txs: seq<Transaction>, base: Accounts, i: nat): set<Address>
    requires i < |txs|
  {
    (set a | a in Visited(txs[i].proposals)) +
    (set a, tree, r | a in Visited(txs[i].proposals) && tree in TreesAt(txs, base, i, a) && r in TreeRefs(tree) :: r) +
    IntentRefs(txs[i].intents)
  }

  function StaticFootprints(txs: seq<Transaction>, base: Accounts): (access: seq<set<Address>>)
    ensures |access| == |txs|
  {
    seq(|txs|, i requires 0 <= i < |txs| => StaticFootprint(txs, base, i))
  }

  lemma TreesGrow(txs: seq<Transaction>, base: Accounts, i: nat, a: Address, k: nat)
    requires i < |txs|
    ensures TreesAt(txs, base, i, a) <= TreesAt(txs, base, i + 1, a)
    ensures
      k < |txs[i].proposals| && txs[i].proposals[k].addr == a && ProposedTree(txs[i].proposals[k].change).Some? ==>
        ProposedTree(txs[i].proposals[k].change).value in TreesAt(txs, base, i + 1, a)
  {
  }

  /** What one transaction leaves has the tree it had, or one the transaction proposes. */
  lemma StepTrees(judge: Judge, tx: Transaction, s: Accounts, a: Address) returns (k: nat)
    requires DistinctKeys(tx.proposals) && ExecuteTransaction(judge, tx, s).Ok?
    requires a in Apply(s, ExecuteTransaction(judge, tx, s).value)
    ensures var t := Apply(s, ExecuteTransaction(judge, tx, s).value);
            || (a in s && t[a].predicates == s[a].predicates)
            || (k < |tx.proposals| && tx.proposals[k].addr == a
                && ProposedTree(tx.proposals[k].change) == Some(t[a].predicates))
  {
    hide Outputs, ContextOf;
    var ps, d := tx.proposals, ExecuteTransaction(judge, tx, s).value;
    assert Outputs(s, ps) == Ok(d);
    OutputsMeaning(s, ps);
    OutputsSucceeds(s, ps);
    k := 0;
    if i :| 0 <= i < |ps| && ps[i].addr == a {
      assert Lookup(Apply(s, d), ps[i].addr) == Collect.After(s, ps[i]);
      k := i;
    } else {
      assert a !in Keys(ps);
    }
  }

  /** Along a serial run an account has one of these trees. */
  lemma {:induction false} SerialTreesAreKnown(judges: Judges, txs: seq<Transaction>, base: Accounts, i: nat,
                                               a: Address)
    requires i <= |txs| && forall k :: 0 <= k < |txs| ==> DistinctKeys(txs[k].proposals)
    requires a in SerialState(BlockExec(judges, txs), base, i)
    ensures SerialState(BlockExec(judges, txs), base, i)[a].predicates in TreesAt(txs, base, i, a)
  {
    hide TreesAt, ExecuteTransaction, Apply;
    if i == 0 {
      BaseTreeIsKnown(txs, base, a);
    } else {
      var before, k := SerialState(BlockExec(judges, txs), base, i - 1), 0;
      if ExecuteTransaction(judges(i - 1), txs[i - 1], before).Ok? {
        k := StepTrees(judges(i - 1), txs[i - 1], before, a);
      }
      TreesGrow(txs, base, i - 1, a, k);
      if a in before {
        SerialTreesAreKnown(judges, txs, base, i - 1, a);
      }
    }
  }

  lemma BaseTreeIsKnown(txs: seq<Transaction>, base: Accounts, a: Address)
    ensures a in base ==> base[a].predicates in TreesAt(txs, base, 0, a)
  {
  }

  lemma SerialFootprintIsStatic(judges: Judges, txs: seq<Transaction>, base: Accounts, i: nat)
    requires i < |txs| && forall k :: 0 <= k < |txs| ==> DistinctKeys(txs[k].proposals)
    ensures SerialFootprints(judges, txs, base)[i] <= StaticFootprint(txs, base, i)
  {
    hide TreesAt, TreeRefs;
    var s, ps := SerialState(BlockExec(judges, txs), base, i), txs[i].proposals;
    forall r | r in TriggeredRefs(s, ps) ensures r in StaticFootprint(txs, base, i) {
      var a :| a in Visited(ps) && a in s && r in TreeRefs(s[a].predicates);
      SerialTreesAreKnown(judges, txs, base, i, a);
    }
  }

  /**
   * What a maintainer can check before running a block: every transaction finds above it in its tree exactly the
   * earlier proposers of what it can look at, in block order, and none of them proposes the deletion of an account that
   * the store holds.
   */
  ghost predicate Schedulable(txs: seq<Transaction>, base: Accounts) {
    && (forall k :: 0 <= k < |txs| ==> DistinctKeys(txs[k].proposals))
    && SeesEarlierWriters(LinksOf(RefsOfBlock(txs, base)), ProposedKeys(txs), StaticFootprints(txs, base))
    && NoDeletionSeen(base, ProposedKeys(txs), ProposedDeletions(txs), StaticFootprints(txs, base))
  }

  /** Then the scheduled run returns what running the block in order returns, if both are judged alike. */
  lemma BlockRefinesSerial(judges: Judges, txs: seq<Transaction>, base: Accounts, i: nat)
    requires Schedulable(txs, base) && i < |txs|
    ensures BlockResult(BlockExec(judges, txs), base, LinksOf(RefsOfBlock(txs, base)), i) ==
            SerialResult(BlockExec(judges, txs), base, i)
  {
    forall k: nat | k < |txs| ensures SerialFootprints(judges, txs, base)[k] <= StaticFootprints(txs, base)[k] {
      SerialFootprintIsStatic(judges, txs, base, k);
    }
    RefinesWith(judges, txs, base, LinksOf(RefsOfBlock(txs, base)), StaticFootprints(txs, base), i);
  }

  /** No transaction creates, deletes or gives a new tree to an account that a later one visits. */
  ghost predicate StableTrees(txs: seq<Transaction>) {
    forall i: nat, j: nat, k: nat ::
      j < i < |txs| && k < |txs[j].proposals| && txs[j].proposals[k].addr in Visited(txs[i].proposals) ==>
        txs[j].proposals[k].change.ReplaceState?
  }

  /** In such a block what a transaction can look at is what it looks at on the store before the block. */
  lemma StableFootprints(txs: seq<Transaction>, base: Accounts, i: nat)
    requires StableTrees(txs) && i < |txs|
    ensures StaticFootprint(txs, base, i) == Footprint(base, txs[i])
  {
    hide TreeRefs;
    forall a | a in Visited(txs[i].proposals)
        ensures TreesAt(txs, base, i, a) == if a in base then {base[a].predicates} else {} {
      forall j: nat, k: nat | j < i && k < |txs[j].proposals| && txs[j].proposals[k].addr == a
        ensures ProposedTree(txs[j].proposals[k].change).None?
      {
        assert txs[j].proposals[k].addr in Visited(txs[i].proposals);
      }
    }
  }

  // ---- Two runs that are judged differently ----

  ghost predicate AllLegal(judges: Judges, invoke: ContextInvoke) {
    forall i: nat :: Legal(judges(i), invoke)
  }

  /** Along the serial run no predicate crashes. */
  ghost predicate CrashFreeAlong(invoke: ContextInvoke, judges: Judges, txs: seq<Transaction>, base: Accounts) {
    forall i: nat :: i < |txs| ==> CrashFreeAt(invoke, SerialState(BlockExec(judges, txs), base, i), txs[i])
  }

  ghost predicate CrashFreeAt(invoke: ContextInvoke, s: Accounts, tx: Transaction) {
    GatherInputs(s, tx).Ok? ==> CrashFree(invoke, GatherInputs(s, tx).value)
  }

  /** Both succeed with the same diff, or both fail. */
  predicate SameEffect(r: TxResult, q: TxResult) {
    (r.Ok? <==> q.Ok?) && (r.Ok? ==> r == q)
  }

  lemma JudgesAgree(invoke: ContextInvoke, one: Judge, other: Judge, tx: Transaction, s: Accounts)
    requires Legal(one, invoke) && Legal(other, invoke) && CrashFreeAt(invoke, s, tx)
    ensures SameEffect(ExecuteTransaction(one, tx, s), ExecuteTransaction(other, tx, s))
  {
    hide Legal, CrashFree, GatherInputs;
    if GatherInputs(s, tx).Ok? {
      CrashFreeAcceptance(one, invoke, tx, s);
      CrashFreeAcceptance(other, invoke, tx, s);
    }
  }

  lemma {:induction false} SerialRunsAgree(invoke: ContextInvoke, one: Judges, other: Judges, txs: seq<Transaction>,
                                           base: Accounts, i: nat)
    requires AllLegal(one, invoke) && AllLegal(other, invoke) && CrashFreeAlong(invoke, one, txs, base) && i <= |txs|
    ensures SerialState(BlockExec(one, txs), base, i) == SerialState(BlockExec(other, txs), base, i)
    ensures i < |txs| ==> SameEffect(SerialResult(BlockExec(one, txs), base, i),
                                     SerialResult(BlockExec(other, txs), base, i))
  {
    hide ExecuteTransaction, Legal, CrashFreeAt, Apply, SameEffect, Executor.After;
    if i > 0 {
      SerialRunsAgree(invoke, one, other, txs, base, i - 1);
      var s := SerialState(BlockExec(one, txs), base, i - 1);
      SameEffectSameState(s, BlockExec(one, txs)(i - 1, s), BlockExec(other, txs)(i - 1, s));
    }
    if i < |txs| {
      assert CrashFreeAt(invoke, SerialState(BlockExec(one, txs), base, i), txs[i]);
      JudgesAgree(invoke, one(i), other(i), txs[i], SerialState(BlockExec(one, txs), base, i));
    }
  }

  lemma SameEffectSameState(s: Accounts, r: TxResult, q: TxResult)
    requires SameEffect(r, q)
    ensures Executor.After(s, r) == Executor.After(s, q)
  {
  }

  /**
   * A parallel and a serial run, each with its own order of trees and its own interleavings: if no predicate crashes
   * along the serial run, the same transactions succeed, with the same diffs.
   */
  lemma TwoRunsAgree(invoke: ContextInvoke, parallel: Judges, serial: Judges, txs: seq<Transaction>, base: Accounts,
                     i: nat)
    requires AllLegal(parallel, invoke) && AllLegal(serial, invoke) && CrashFreeAlong(invoke, serial, txs, base)
    requires Schedulable(txs, base) && i < |txs|
    ensures SameEffect(BlockResult(BlockExec(parallel, txs), base, LinksOf(RefsOfBlock(txs, base)), i),
                       SerialResult(BlockExec(serial, txs), base, i))
  {
    hide AllLegal, CrashFreeAlong, Schedulable, BlockExec, BlockResult, SerialResult;
    BlockRefinesSerial(parallel, txs, base, i);
    SerialRunsAgree(invoke, serial, parallel, txs, base, i);
  }

  /** Execution of a whole block: references on the base store, schedule, run. */
  method ExecuteBlock(judges: Judges, base: Accounts, txs: seq<Transaction>) returns (results: seq<TxResult>)
    ensures |results| == |txs|
    ensures forall i :: 0 <= i < |txs| ==>
        results[i] == BlockResult(BlockExec(judges, txs), base, LinksOf(RefsOfBlock(txs, base)), i)
  {
    var block: Block := [];
    for i := 0 to |txs|
      invariant |block| == i && forall k :: 0 <= k < i ==> block[k] == RefsOf(txs[k], base)
    {
      var refs := Refs.New(txs[i], base);
      block := block + [refs];
    }
    assert block == RefsOfBlock(txs, base);
    results := Schedule.ExecuteMany(BlockExec(judges, txs), base, block);
  }

  // ---- The state after the block ----

  /** The diffs of the successful results, in block order. */
  function Successes(results: seq<TxResult>): seq<Diff> {
    if results == [] then []
    else
      var front := Successes(results[..|results| - 1]);
      match results[|results| - 1]
      case Ok(d) => front + [d]
      case Err(_) => front
  }

  /** Results with the effects of the serial ones lead, applied in block order, to the serial state. */
  lemma {:induction false} SuccessesLeadToSerialState(exec: Exec, base: Accounts, results: seq<TxResult>)
    requires forall i :: 0 <= i < |results| ==> SameEffect(results[i], SerialResult(exec, base, i))
    ensures ApplyAll(base, Successes(results)) == SerialState(exec, base, |results|)
  {
    if results != [] {
      var n := |results| - 1;
      SuccessesLeadToSerialState(exec, base, results[..n]);
      assert SameEffect(results[n], SerialResult(exec, base, n));
      if results[n].Ok? {
        var ds := Successes(results);
        assert ds[..|ds| - 1] == Successes(results[..n]);
      }
    }
  }
}
