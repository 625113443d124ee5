/** What it takes for a transaction to be accepted, read off the transaction and the store. */
module Acceptance {
  import opened Address
  import opened Collect
  import opened Execution
  import opened ExpressionTree
  import opened Primitives
  import opened Soundness
  import opened State
  import opened Wrappers

  /** The tree an intent expects, expanded under its own calldata. */
  function IntentTree(s: Accounts, context: Context, intent: Intent): Result<ExpandedTree, CollectError> {
    ExpandTree(s, context, intent.calldata, intent.expectations)
  }

  /** The tree of an account, expanded under the calldata of all intents. */
  function AccountTree(s: Accounts, context: Context, a: Address): Result<ExpandedTree, CollectError>
    requires a in s
  {
    ExpandTree(s, context, MergedCalldata(context.calldata), s[a].predicates)
  }

  /** The tree is that of an intent, or of an existing account that the transaction proposes or that is above one. */
  ghost predicate HasToHold(s: Accounts, context: Context, tx: Transaction, tree: ExpandedTree) {
    || (exists i :: 0 <= i < |tx.intents| && IntentTree(s, context, tx.intents[i]) == Ok(tree))
    || (exists a :: a in s && Consulted(tx, a) && AccountTree(s, context, a) == Ok(tree))
  }

  /** All trees of the transaction expand. */
  ghost predicate AllExpand(s: Accounts, context: Context, tx: Transaction) {
    && (forall i :: 0 <= i < |tx.intents| ==> IntentTree(s, context, tx.intents[i]).Ok?)
    && (forall a :: a in s && Consulted(tx, a) ==> AccountTree(s, context, a).Ok?)
  }

  /** The inputs can be gathered exactly if the proposals fit the store and all trees expand; these trees are judged. */
  lemma GatheredExactly(s: Accounts, tx: Transaction)
    ensures GatherInputs(s, tx).Ok? <==>
            Outputs(s, tx.proposals).Ok? && ContextOf(s, tx).Ok? && AllExpand(s, ContextOf(s, tx).value, tx)
    ensures GatherInputs(s, tx).Ok? ==>
            var g := GatherInputs(s, tx).value;
            && Ok(g.diff) == Outputs(s, tx.proposals) && Ok(g.context) == ContextOf(s, tx)
            && forall tree :: Triggers(g, tree) <==> HasToHold(s, g.context, tx, tree)
  {
    hide Outputs, ContextOf, AccountTrees, IntentTrees, ExpandTree, Consulted;
    if Outputs(s, tx.proposals).Ok? && ContextOf(s, tx).Ok? {
      var context := ContextOf(s, tx).value;
      AccountTreesExpand(s, context, tx);
      IntentTreesMeaning(s, context, tx.intents);
      if GatherInputs(s, tx).Ok? {
        TriggeredExactly(s, tx, GatherInputs(s, tx).value);
      }
    }
  }

  lemma TriggeredExactly(s: Accounts, tx: Transaction, g: Gathering)
    requires GatherInputs(s, tx) == Ok(g)
    ensures forall tree :: Triggers(g, tree) <==> HasToHold(s, g.context, tx, tree)
  {
    hide Outputs, ContextOf, AccountTrees, IntentTrees, ExpandTree;
    IntentTreesMeaning(s, g.context, tx.intents);
    forall a ensures a in g.accountTrees <==> a in s && Consulted(tx, a) {
      AccountTreesMeaning(s, g.context, tx, a);
    }
    forall a | a in g.accountTrees ensures Ok(g.accountTrees[a]) == AccountTree(s, g.context, a) {
      AccountTreesMeaning(s, g.context, tx, a);
    }
    forall tree ensures Triggers(g, tree) <==> HasToHold(s, g.context, tx, tree) {
      if tree in g.intentTrees {
        var i :| 0 <= i < |g.intentTrees| && g.intentTrees[i] == tree;
        assert IntentTree(s, g.context, tx.intents[i]) == Ok(tree);
      }
      if i :| 0 <= i < |tx.intents| && IntentTree(s, g.context, tx.intents[i]) == Ok(tree) {
        assert g.intentTrees[i] == tree;
      }
      if a :| a in s && Consulted(tx, a) && AccountTree(s, g.context, a) == Ok(tree) {
        assert g.accountTrees[a] == tree;
      }
    }
  }

  /**
   * In every order and interleaving: what an accepted transaction's intents expect holds, and so do the trees of all
   * existing accounts that it proposes or that stand above one, as far as no disjunction of them is exposed.
   */
  lemma AcceptedHolds(judge: Judge, invoke: ContextInvoke, tx: Transaction, s: Accounts,
                      truth: ExpandedPredicate -> bool)
    requires Legal(judge, invoke) && ExecuteTransaction(judge, tx, s).Ok?
    ensures ContextOf(s, tx).Ok? && Outputs(s, tx.proposals) == Ok(ExecuteTransaction(judge, tx, s).value)
    ensures Agrees(truth, InvokeIn(invoke, ContextOf(s, tx).value)) ==>
            var context := ContextOf(s, tx).value;
            && (forall i :: 0 <= i < |tx.intents| ==>
                  var tree := IntentTree(s, context, tx.intents[i]);
                  tree.Ok? && (Exposed(tree.value, false) || Holds(tree.value, truth)))
            && (forall a :: a in s && Consulted(tx, a) ==>
                  var tree := AccountTree(s, context, a);
                  tree.Ok? && (Exposed(tree.value, false) || Holds(tree.value, truth)))
  {
    GatheredExactly(s, tx);
    assert GatherInputs(s, tx).Ok?;
    hide Outputs, ContextOf, GatherInputs, Legal, Agrees, Exposed, Consulted, IntentTree, AccountTree, Triggers;
    var g := GatherInputs(s, tx).value;
    if Agrees(truth, InvokeIn(invoke, g.context)) {
      forall tree | HasToHold(s, g.context, tx, tree) && !Exposed(tree, false) ensures Holds(tree, truth) {
        AcceptedMeansTrue(judge, invoke, tx, s, g, tree, truth);
      }
      forall i | 0 <= i < |tx.intents|
        ensures var tree := IntentTree(s, g.context, tx.intents[i]);
                tree.Ok? && (Exposed(tree.value, false) || Holds(tree.value, truth))
      {
        assert HasToHold(s, g.context, tx, IntentTree(s, g.context, tx.intents[i]).value);
      }
      forall a | a in s && Consulted(tx, a)
        ensures var tree := AccountTree(s, g.context, a);
                tree.Ok? && (Exposed(tree.value, false) || Holds(tree.value, truth))
      {
        assert HasToHold(s, g.context, tx, AccountTree(s, g.context, a).value);
      }
    }
  }

  /** The tree expands, and it is true. */
  ghost predicate Agreed(invoke: ContextInvoke, context: Context, tree: Result<ExpandedTree, CollectError>) {
    tree.Ok? && Holds(tree.value, p => InvokeIn(invoke, context)(p).Accepts?)
  }

  ghost predicate Calm(invoke: ContextInvoke, context: Context, tree: Result<ExpandedTree, CollectError>) {
    tree.Ok? ==> forall p :: p in Leaves(tree.value) ==> !invoke(context, p).Crashes?
  }

  /** Nothing that the transaction makes run crashes. */
  ghost predicate AllCalm(invoke: ContextInvoke, s: Accounts, context: Context, tx: Transaction) {
    && (forall i :: 0 <= i < |tx.intents| ==> Calm(invoke, context, IntentTree(s, context, tx.intents[i])))
    && (forall a :: a in s && Consulted(tx, a) ==> Calm(invoke, context, AccountTree(s, context, a)))
  }

  /** Every intent and every account that has a say lets the transaction pass. */
  ghost predicate AllAgree(invoke: ContextInvoke, s: Accounts, context: Context, tx: Transaction) {
    && (forall i :: 0 <= i < |tx.intents| ==> Agreed(invoke, context, IntentTree(s, context, tx.intents[i])))
    && (forall a :: a in s && Consulted(tx, a) ==> Agreed(invoke, context, AccountTree(s, context, a)))
  }

  /**
   * If nothing crashes, a transaction is accepted, in whatever order and interleaving it is judged, exactly if its
   * proposals fit the store, every intent has what it expects, and every existing account that is proposed or stands
   * above a proposed one agrees.
   */
  lemma AcceptedExactly(judge: Judge, invoke: ContextInvoke, tx: Transaction, s: Accounts)
    requires Legal(judge, invoke) && (ContextOf(s, tx).Ok? ==> AllCalm(invoke, s, ContextOf(s, tx).value, tx))
    ensures ExecuteTransaction(judge, tx, s).Ok? <==>
            Outputs(s, tx.proposals).Ok? && ContextOf(s, tx).Ok? && AllAgree(invoke, s, ContextOf(s, tx).value, tx)
  {
    GatheredExactly(s, tx);
    hide Outputs, ContextOf, Legal, Consulted, IntentTree, AccountTree, Triggers, GatherInputs;
    if GatherInputs(s, tx).Ok? {
      var g := GatherInputs(s, tx).value;
      forall tree, p | Triggers(g, tree) && p in Leaves(tree) ensures !invoke(g.context, p).Crashes? {
        assert HasToHold(s, g.context, tx, tree);
      }
      CrashFreeAcceptance(judge, invoke, tx, s);
      AgreeExactly(invoke, s, g.context, tx);
      hide HasToHold, AllAgree, AllExpand;
      if ExecuteTransaction(judge, tx, s).Ok? {
        forall tree | HasToHold(s, g.context, tx, tree)
          ensures Holds(tree, p => InvokeIn(invoke, g.context)(p).Accepts?)
        {
          assert Triggers(g, tree);
        }
      }
    } else if Outputs(s, tx.proposals).Ok? && ContextOf(s, tx).Ok? {
      assert !AllAgree(invoke, s, ContextOf(s, tx).value, tx);
    }
  }

  lemma AgreeExactly(invoke: ContextInvoke, s: Accounts, context: Context, tx: Transaction)
    requires AllExpand(s, context, tx)
    ensures AllAgree(invoke, s, context, tx) <==>
            forall tree :: HasToHold(s, context, tx, tree) ==> Holds(tree, p => InvokeIn(invoke, context)(p).Accepts?)
  {
    hide Consulted, IntentTree, AccountTree;
    if forall tree :: HasToHold(s, context, tx, tree) ==> Holds(tree, p => InvokeIn(invoke, context)(p).Accepts?) {
      forall i | 0 <= i < |tx.intents| ensures Agreed(invoke, context, IntentTree(s, context, tx.intents[i])) {
        assert HasToHold(s, context, tx, IntentTree(s, context, tx.intents[i]).value);
      }
      forall a | a in s && Consulted(tx, a) ensures Agreed(invoke, context, AccountTree(s, context, a)) {
        assert HasToHold(s, context, tx, AccountTree(s, context, a).value);
      }
    }
  }
}
