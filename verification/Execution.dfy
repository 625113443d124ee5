/** Executing one transaction: gather, judge, and on success return the diff. */
module Execution {
  import opened Address
  import opened Cancellation
  import opened Collect
  import opened ExpressionTree
  import opened Primitives
  import opened Sequences
  import opened Soundness
  import opened State
  import opened Wrappers

  datatype Gathering = Gathering(diff: Diff, context: Context, accountTrees: TreesByAccount,
                                 intentTrees: seq<ExpandedTree>)

  function GatherInputs(s: Accounts, tx: Transaction): Result<Gathering, CollectError> {
    var diff :- Outputs(s, tx.proposals);
    var context :- ContextOf(s, tx);
    var accountTrees :- AccountTrees(s, context, tx);
    var intentTrees :- IntentTrees(s, context, tx.intents);
    Ok(Gathering(diff, context, accountTrees, intentTrees))
  }

  /**
   * How the trees were judged: it stands for the hash order of the account trees and the interleaving of the workers.
   */
  type Judge = (Context, TreesByAccount, seq<ExpandedTree>) -> Result<(), Error>

  function ExecuteTransaction(judge: Judge, tx: Transaction, s: Accounts): Result<Diff, Error> {
    match GatherInputs(s, tx)
    case Err(e) => Err(StateError(e))
    case Ok(g) =>
      match judge(g.context, g.accountTrees, g.intentTrees)
      case Ok(_) => Ok(g.diff)
      case Err(e) => Err(e)
  }

  // ---- Which judges are possible ----

  function TreesInOrder(accountTrees: TreesByAccount, order: seq<Address>,
                        intentTrees: seq<ExpandedTree>): seq<ExpandedTree>
    requires forall i :: 0 <= i < |order| ==> order[i] in accountTrees
  {
    seq(|order|, i requires 0 <= i < |order| => accountTrees[order[i]]) + intentTrees
  }

  type ContextInvoke = (Context, ExpandedPredicate) -> Verdict

  function InvokeIn(invoke: ContextInvoke, context: Context): Invoke {
    p => invoke(context, p)
  }

  ghost predicate Witnesses(invoke: ContextInvoke, context: Context, accountTrees: TreesByAccount,
                            intentTrees: seq<ExpandedTree>, r: Result<(), Error>, order: seq<Address>,
                            schedule: seq<nat>)
  {
    && Enumerates(order, accountTrees.Keys)
    && var trees := TreesInOrder(accountTrees, order, intentTrees);
    && ScheduleOf(trees, schedule)
    && Finished(Execute(trees, InvokeIn(invoke, context), schedule))
    && r == Verdicts(trees, Execute(trees, InvokeIn(invoke, context), schedule))
  }

  /** Some order of the account trees and some interleaving end with this outcome. */
  ghost predicate Possible(invoke: ContextInvoke, context: Context, accountTrees: TreesByAccount,
                           intentTrees: seq<ExpandedTree>, r: Result<(), Error>)
  {
    exists order, schedule :: Witnesses(invoke, context, accountTrees, intentTrees, r, order, schedule)
  }

  ghost predicate Legal(judge: Judge, invoke: ContextInvoke) {
    forall context, accountTrees, intentTrees ::
      Possible(invoke, context, accountTrees, intentTrees, judge(context, accountTrees, intentTrees))
  }

  lemma {:induction false} Enumeration(accountTrees: TreesByAccount) returns (order: seq<Address>)
    ensures Enumerates(order, accountTrees.Keys)
    decreases accountTrees.Keys
  {
    if accountTrees.Keys == {} {
      order := [];
    } else {
      var a :| a in accountTrees.Keys;
      var rest := Enumeration(accountTrees - {a});
      order := rest + [a];
    }
  }

  /** Legal judges exist: every evaluation can be run to an end. */
  lemma SomeOutcomeIsPossible(invoke: ContextInvoke, context: Context, accountTrees: TreesByAccount,
                              intentTrees: seq<ExpandedTree>)
    ensures exists r :: Possible(invoke, context, accountTrees, intentTrees, r)
  {
    var order := Enumeration(accountTrees);
    var trees := TreesInOrder(accountTrees, order, intentTrees);
    var schedule := CanFinish(trees, InvokeIn(invoke, context), []);
    var r := Verdicts(trees, Execute(trees, InvokeIn(invoke, context), schedule));
    assert Witnesses(invoke, context, accountTrees, intentTrees, r, order, schedule);
    assert Possible(invoke, context, accountTrees, intentTrees, r);
  }

  ghost function SomeOutcome(invoke: ContextInvoke, context: Context, accountTrees: TreesByAccount,
                             intentTrees: seq<ExpandedTree>)
    : (r: Result<(), Error>)
    ensures Possible(invoke, context, accountTrees, intentTrees, r)
  {
    SomeOutcomeIsPossible(invoke, context, accountTrees, intentTrees);
    var r :| Possible(invoke, context, accountTrees, intentTrees, r);
    r
  }

  lemma LegalJudgeExists(invoke: ContextInvoke) returns (judge: Judge)
    ensures Legal(judge, invoke)
  {
    judge := (context, accountTrees, intentTrees) => SomeOutcome(invoke, context, accountTrees, intentTrees);
  }

  /** The trees of a gathering, whichever group they come from. */
  ghost predicate Triggers(g: Gathering, tree: ExpandedTree) {
    (exists a :: a in g.accountTrees && g.accountTrees[a] == tree) || tree in g.intentTrees
  }

  lemma OrderCovers(g: Gathering, order: seq<Address>)
    requires Enumerates(order, g.accountTrees.Keys)
    ensures forall tree :: Triggers(g, tree) <==> tree in TreesInOrder(g.accountTrees, order, g.intentTrees)
  {
    var trees := TreesInOrder(g.accountTrees, order, g.intentTrees);
    forall tree ensures Triggers(g, tree) <==> tree in trees {
      if tree in g.intentTrees {
        var i :| 0 <= i < |g.intentTrees| && g.intentTrees[i] == tree;
        assert trees[|order| + i] == tree;
      }
      if a :| a in g.accountTrees && g.accountTrees[a] == tree {
        var k :| 0 <= k < |order| && order[k] == a;
        assert trees[k] == tree;
      }
      if tree in trees {
        var k :| 0 <= k < |trees| && trees[k] == tree;
        assert k < |order| ==> order[k] in g.accountTrees && g.accountTrees[order[k]] == tree;
      }
    }
  }

  /**
   * Whatever the order and the interleaving, an accepted transaction has every triggered account tree and every
   * intent tree true under every reading of crashes, as long as no disjunction of the tree is exposed.
   */
  lemma AcceptedMeansTrue(judge: Judge, invoke: ContextInvoke, tx: Transaction, s: Accounts, g: Gathering,
                          tree: ExpandedTree, truth: ExpandedPredicate -> bool)
    requires Legal(judge, invoke) && ExecuteTransaction(judge, tx, s).Ok?
    requires GatherInputs(s, tx) == Ok(g) && Triggers(g, tree) && !Exposed(tree, false)
    requires Agrees(truth, InvokeIn(invoke, g.context))
    ensures Holds(tree, truth)
  {
    var r := judge(g.context, g.accountTrees, g.intentTrees);
    assert r.Ok? && r.value == ();
    assert Possible(invoke, g.context, g.accountTrees, g.intentTrees, r);
    PossibleMeansTrue(invoke, g, tree, truth);
  }

  lemma PossibleMeansTrue(invoke: ContextInvoke, g: Gathering, tree: ExpandedTree, truth: ExpandedPredicate -> bool)
    requires Possible(invoke, g.context, g.accountTrees, g.intentTrees, Ok(()))
    requires Triggers(g, tree) && !Exposed(tree, false) && Agrees(truth, InvokeIn(invoke, g.context))
    ensures Holds(tree, truth)
  {
    var order, schedule :| Witnesses(invoke, g.context, g.accountTrees, g.intentTrees, Ok(()), order, schedule);
    var trees := TreesInOrder(g.accountTrees, order, g.intentTrees);
    OrderCovers(g, order);
    var k :| 0 <= k < |trees| && trees[k] == tree;
    AcceptedTreesHold(trees, InvokeIn(invoke, g.context), schedule, k, truth);
  }

  ghost predicate CrashFree(invoke: ContextInvoke, g: Gathering) {
    forall tree, p :: Triggers(g, tree) && p in Leaves(tree) ==> !invoke(g.context, p).Crashes?
  }

  /** If nothing crashes, a transaction is accepted exactly when all its trees are true, however it was run. */
  lemma CrashFreeAcceptance(judge: Judge, invoke: ContextInvoke, tx: Transaction, s: Accounts)
    requires Legal(judge, invoke) && GatherInputs(s, tx).Ok? && CrashFree(invoke, GatherInputs(s, tx).value)
    ensures var g := GatherInputs(s, tx).value;
            ExecuteTransaction(judge, tx, s).Ok? <==>
            forall tree :: Triggers(g, tree) ==> Holds(tree, p => InvokeIn(invoke, g.context)(p).Accepts?)
  {
    var g := GatherInputs(s, tx).value;
    var r := judge(g.context, g.accountTrees, g.intentTrees);
    assert Possible(invoke, g.context, g.accountTrees, g.intentTrees, r);
    var order, schedule :| Witnesses(invoke, g.context, g.accountTrees, g.intentTrees, r, order, schedule);
    var trees := TreesInOrder(g.accountTrees, order, g.intentTrees);
    var inv := InvokeIn(invoke, g.context);
    OrderCovers(g, order);
    forall k, m | 0 <= k < |trees| && 0 <= m < |Leaves(trees[k])| ensures !inv(Leaves(trees[k])[m]).Crashes? {
      assert Triggers(g, trees[k]);
    }
    CrashFreeExact(trees, inv, schedule);
    assert ExecuteTransaction(judge, tx, s).Ok? <==> r.Ok?;
    forall k | 0 <= k < |trees| ensures Triggers(g, trees[k]) {
    }
  }

  ghost predicate AllTrue(invoke: ContextInvoke, g: Gathering) {
    forall tree :: Triggers(g, tree) ==> Holds(tree, p => InvokeIn(invoke, g.context)(p).Accepts?)
  }

  /** The legal judges of a run can differ in one outcome, as long as that outcome is possible. */
  lemma JudgeWith(invoke: ContextInvoke, g: Gathering, r: Result<(), Error>) returns (judge: Judge)
    requires Possible(invoke, g.context, g.accountTrees, g.intentTrees, r)
    ensures Legal(judge, invoke) && judge(g.context, g.accountTrees, g.intentTrees) == r
  {
    judge := (context, accountTrees, intentTrees) =>
      if context == g.context && accountTrees == g.accountTrees && intentTrees == g.intentTrees then r
      else SomeOutcome(invoke, context, accountTrees, intentTrees);
  }

  lemma CrashCanReject(invoke: ContextInvoke, g: Gathering) returns (r: Result<(), Error>)
    requires |g.accountTrees| + |g.intentTrees| > 1 && !CrashFree(invoke, g)
    ensures r.Err? && Possible(invoke, g.context, g.accountTrees, g.intentTrees, r)
  {
    var order := Enumeration(g.accountTrees);
    EnumerationSize(order, g.accountTrees);
    var trees, inv := TreesInOrder(g.accountTrees, order, g.intentTrees), InvokeIn(invoke, g.context);
    OrderCovers(g, order);
    var tree, p :| Triggers(g, tree) && p in Leaves(tree) && invoke(g.context, p).Crashes?;
    var k :| 0 <= k < |trees| && trees[k] == tree;
    var m :| 0 <= m < |Leaves(tree)| && Leaves(tree)[m] == p;
    assert inv(Leaves(trees[k])[m]).Crashes?;
    var schedule := CrashCanFail(trees, inv);
    r := Verdicts(trees, Execute(trees, inv, schedule));
    assert Witnesses(invoke, g.context, g.accountTrees, g.intentTrees, r, order, schedule);
  }

  lemma {:induction false} EnumerationSize(order: seq<Address>, accountTrees: TreesByAccount)
    requires Enumerates(order, accountTrees.Keys)
    ensures |order| == |accountTrees|
  {
    if order == [] {
      assert accountTrees.Keys == {};
      assert |accountTrees| == |accountTrees.Keys|;
    } else {
      var front, last := order[..|order| - 1], order[|order| - 1];
      var rest := accountTrees - {last};
      forall a | a in rest ensures a in front {
        var i :| 0 <= i < |order| && order[i] == a;
        assert front[i] == a;
      }
      EnumerationSize(front, rest);
      assert accountTrees.Keys == rest.Keys + {last};
      assert |accountTrees| == |accountTrees.Keys| && |rest| == |rest.Keys|;
    }
  }

  /**
   * A transaction with several trees is accepted in every order and interleaving exactly if nothing crashes and all is
   * true.
   */
  lemma AlwaysAcceptedTransaction(invoke: ContextInvoke, tx: Transaction, s: Accounts, g: Gathering)
    requires GatherInputs(s, tx) == Ok(g) && |g.accountTrees| + |g.intentTrees| > 1
    ensures (forall judge :: Legal(judge, invoke) ==> ExecuteTransaction(judge, tx, s).Ok?) <==>
            CrashFree(invoke, g) && AllTrue(invoke, g)
  {
    hide GatherInputs, Legal;
    if !CrashFree(invoke, g) {
      var r := CrashCanReject(invoke, g);
      var judge := JudgeWith(invoke, g, r);
      assert Legal(judge, invoke) && ExecuteTransaction(judge, tx, s).Err?;
    } else {
      forall judge | Legal(judge, invoke) ensures ExecuteTransaction(judge, tx, s).Ok? <==> AllTrue(invoke, g) {
        CrashFreeAcceptance(judge, invoke, tx, s);
      }
      var judge := LegalJudgeExists(invoke);
      assert Legal(judge, invoke);
    }
  }

  // ---- The frame ----

  function CodeRefs(pred: Predicate): set<Address> {
    match pred.code
    case InlineCode(_) => {}
    case CodeRef(addr, _) => {addr}
  }

  function ParamRefs(params: seq<Param>): set<Address> {
    set i | 0 <= i < |params| && params[i].AccountRef? :: params[i].addr
  }

  /** The accounts the predicates of a tree refer to, in code or in parameters. */
  function TreeRefs(tree: PredicateTree): set<Address> {
    set i, a | 0 <= i < |Leaves(tree)| && a in CodeRefs(Leaves(tree)[i]) + ParamRefs(Leaves(tree)[i].params) :: a
  }

  function IntentRefs(intents: seq<Intent>): set<Address> {
    set i, a | 0 <= i < |intents| && a in TreeRefs(intents[i].expectations) :: a
  }

  function TriggeredRefs(s: Accounts, ps: seq<Proposal>): set<Address> {
    set a, r | a in Visited(ps) && a in s && r in TreeRefs(s[a].predicates) :: r
  }

  /** All accounts that executing the transaction looks at. */
  function Footprint(s: Accounts, tx: Transaction): set<Address> {
    (set a | a in Visited(tx.proposals)) + TriggeredRefs(s, tx.proposals) + IntentRefs(tx.intents)
  }

  lemma ExpandPredicateFrame(s: Accounts, t: Accounts, context: Context, calldata: Calldata, pred: Predicate)
    requires SameOn(s, t, CodeRefs(pred) + ParamRefs(pred.params))
    ensures ExpandPredicate(s, context, calldata, pred) == ExpandPredicate(t, context, calldata, pred)
  {
    var f, g := ParamExpander(s, context, calldata, pred), ParamExpander(t, context, calldata, pred);
    forall param | param in pred.params ensures f(param) == g(param) {
      if param.AccountRef? {
        var i :| 0 <= i < |pred.params| && pred.params[i] == param;
        assert param.addr in ParamRefs(pred.params);
        assert Lookup(s, param.addr) == Lookup(t, param.addr);
      }
    }
    TraverseCongruence(pred.params, f, g);
    if pred.code.CodeRef? {
      assert pred.code.addr in CodeRefs(pred);
      assert Lookup(s, pred.code.addr) == Lookup(t, pred.code.addr);
    }
  }

  lemma ExpandTreeFrame(s: Accounts, t: Accounts, context: Context, calldata: Calldata, tree: PredicateTree)
    requires SameOn(s, t, TreeRefs(tree))
    ensures ExpandTree(s, context, calldata, tree) == ExpandTree(t, context, calldata, tree)
  {
    var f, g := PredicateExpander(s, context, calldata), PredicateExpander(t, context, calldata);
    forall pred | pred in Leaves(tree) ensures f(pred) == g(pred) {
      var i :| 0 <= i < |Leaves(tree)| && Leaves(tree)[i] == pred;
      assert CodeRefs(pred) + ParamRefs(pred.params) <= TreeRefs(tree);
      ExpandPredicateFrame(s, t, context, calldata, pred);
    }
    TryMapCongruence(tree, f, g);
  }

  lemma {:induction false} OutputsFrame(s: Accounts, t: Accounts, ps: seq<Proposal>)
    requires forall i :: 0 <= i < |ps| ==> Lookup(s, ps[i].addr) == Lookup(t, ps[i].addr)
    ensures Outputs(s, ps) == Outputs(t, ps)
    ensures ExpandProposals(s, ps) == ExpandProposals(t, ps)
  {
    if ps != [] {
      var front := ps[..|ps| - 1];
      assert forall i :: 0 <= i < |front| ==> front[i] == ps[i];
      OutputsFrame(s, t, front);
      ProposalFrame(s, t, ps[|ps| - 1]);
      hide Admissible, After, ExpandChange, Lookup;
    }
  }

  lemma ProposalFrame(s: Accounts, t: Accounts, p: Proposal)
    requires Lookup(s, p.addr) == Lookup(t, p.addr)
    ensures Admissible(s, p) == Admissible(t, p) && ExpandChange(s, p) == ExpandChange(t, p)
    ensures Admissible(s, p) ==> After(s, p) == After(t, p)
  {
  }

  lemma {:induction false} GatherFrame(s: Accounts, t: Accounts, context: Context, calldata: Calldata,
                                       addrs: seq<Address>)
    requires forall a :: a in addrs ==> Lookup(s, a) == Lookup(t, a)
    requires forall a :: a in addrs && a in s ==> SameOn(s, t, TreeRefs(s[a].predicates))
    ensures Gather(s, context, calldata, addrs) == Gather(t, context, calldata, addrs)
  {
    if addrs != [] {
      GatherFrame(s, t, context, calldata, addrs[..|addrs| - 1]);
      var a := addrs[|addrs| - 1];
      assert a in addrs;
      if a in s {
        ExpandTreeFrame(s, t, context, calldata, s[a].predicates);
      }
    }
  }

  /** Two stores that agree on the footprint are indistinguishable to the transaction. */
  lemma FrameTheorem(judge: Judge, tx: Transaction, s: Accounts, t: Accounts)
    requires SameOn(s, t, Footprint(s, tx))
    ensures ExecuteTransaction(judge, tx, s) == ExecuteTransaction(judge, tx, t)
    ensures Footprint(s, tx) == Footprint(t, tx)
  {
    var ps := tx.proposals;
    forall i | 0 <= i < |ps| ensures Lookup(s, ps[i].addr) == Lookup(t, ps[i].addr) {
      VisitedMeaning(ps, ps[i].addr);
      assert ps[i].addr in Footprint(s, tx);
    }
    OutputsFrame(s, t, ps);
    assert ContextOf(s, tx) == ContextOf(t, tx);
    forall a | a in Visited(ps)
      ensures Lookup(s, a) == Lookup(t, a)
      ensures a in s ==> SameOn(s, t, TreeRefs(s[a].predicates))
    {
      assert a in Footprint(s, tx);
      if a in s {
        assert TreeRefs(s[a].predicates) <= TriggeredRefs(s, ps);
      }
    }
    if ContextOf(s, tx).Ok? {
      var context := ContextOf(s, tx).value;
      GatherFrame(s, t, context, MergedCalldata(context.calldata), Visited(ps));
      var f, g := IntentExpander(s, context), IntentExpander(t, context);
      forall intent | intent in tx.intents ensures f(intent) == g(intent) {
        assert TreeRefs(intent.expectations) <= IntentRefs(tx.intents);
        ExpandTreeFrame(s, t, context, intent.calldata, intent.expectations);
      }
      TraverseCongruence(tx.intents, f, g);
    }
    assert TriggeredRefs(s, ps) == TriggeredRefs(t, ps);
  }

  /**
   * A successful execution touches exactly the proposed accounts; deletions are exactly the accounts proposed for
   * deletion.
   */
  lemma ExecutionTouchesProposals(judge: Judge, tx: Transaction, s: Accounts)
    requires DistinctKeys(tx.proposals) && ExecuteTransaction(judge, tx, s).Ok?
    ensures var d := ExecuteTransaction(judge, tx, s).value;
            && d.Disjoint() && d.Touched() == Keys(tx.proposals)
            && (forall i :: 0 <= i < |tx.proposals| ==>
                (tx.proposals[i].addr in d.deletes <==> tx.proposals[i].change.DeleteAccount?))
  {
    OutputsMeaning(s, tx.proposals);
    var d := Outputs(s, tx.proposals).value;
    forall i | 0 <= i < |tx.proposals|
      ensures tx.proposals[i].addr in d.deletes <==> tx.proposals[i].change.DeleteAccount?
    {
      assert Lookup(Apply(s, d), tx.proposals[i].addr) == After(s, tx.proposals[i]);
      assert tx.proposals[i].addr in Keys(tx.proposals);
    }
  }
}
