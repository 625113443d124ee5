/** For which trees the acceptance of a transaction can be trusted, whatever was judged with them. */
module Trust {
  import opened Cancellation
  import opened Collect
  import opened Execution
  import opened ExpressionTree
  import opened Primitives
  import opened Soundness
  import opened State
  import opened Wrappers

  /**
   * Every accepted transaction that triggers the tree has it true, in whatever order and interleaving it was judged.
   */
  ghost predicate Trustworthy(tree: ExpandedTree) {
    forall invoke: ContextInvoke, judge: Judge, tx: Transaction, s: Accounts, truth ::
      (&& Legal(judge, invoke) && ExecuteTransaction(judge, tx, s).Ok? && Triggers(GatherInputs(s, tx).value, tree)
       && Agrees(truth, InvokeIn(invoke, GatherInputs(s, tx).value.context))) ==> Holds(tree, truth)
  }

  /** The tree is all that a transaction triggers. */
  predicate Alone(tx: Transaction, s: Accounts, tree: ExpandedTree) {
    var g := GatherInputs(s, tx);
    g.Ok? && g.value.accountTrees == map[] && g.value.intentTrees == [tree]
  }

  /** Of the trees that come about alone and whose leaves differ, exactly those with no exposed disjunction are. */
  lemma TrustworthyExactly(tree: ExpandedTree, tx: Transaction, s: Accounts)
    requires DistinctLeaves(tree) && Alone(tx, s, tree)
    ensures Trustworthy(tree) <==> !Exposed(tree, false)
  {
    hide Exposed, Legal, GatherInputs, Triggers, Holds, Agrees, DistinctLeaves, Alone;
    if Exposed(tree, false) {
      var invoke, judge, truth := FalseIsAccepted(tree, tx, s);
    } else {
      forall invoke: ContextInvoke, judge: Judge, tx: Transaction, s: Accounts, truth
        | Legal(judge, invoke) && ExecuteTransaction(judge, tx, s).Ok? && Triggers(GatherInputs(s, tx).value, tree)
          && Agrees(truth, InvokeIn(invoke, GatherInputs(s, tx).value.context))
        ensures Holds(tree, truth)
      {
        AcceptedGathers(judge, tx, s);
        AcceptedMeansTrue(judge, invoke, tx, s, GatherInputs(s, tx).value, tree, truth);
      }
    }
  }

  lemma AcceptedGathers(judge: Judge, tx: Transaction, s: Accounts)
    requires ExecuteTransaction(judge, tx, s).Ok?
    ensures GatherInputs(s, tx).Ok?
  {
    hide GatherInputs;
  }

  /** A transaction whose only tree is exposed can be accepted though the tree is false. */
  lemma FalseIsAccepted(tree: ExpandedTree, tx: Transaction, s: Accounts)
    returns (invoke: ContextInvoke, judge: Judge, truth: ExpandedPredicate -> bool)
    requires DistinctLeaves(tree) && Exposed(tree, false) && Alone(tx, s, tree)
    ensures Legal(judge, invoke) && ExecuteTransaction(judge, tx, s).Ok? && GatherInputs(s, tx).Ok?
    ensures Triggers(GatherInputs(s, tx).value, tree)
    ensures Agrees(truth, InvokeIn(invoke, GatherInputs(s, tx).value.context)) && !Holds(tree, truth)
  {
    hide GatherInputs, Exposed, DistinctLeaves, Holds, Possible;
    var g := GatherInputs(s, tx).value;
    var inv, schedule;
    inv, schedule, truth := ExposedIsAccepted(tree);
    invoke := (context, p) => inv(p);
    SuccessIsPossible(invoke, inv, g.context, tree, schedule);
    judge := JudgeWith(invoke, g, Ok(()));
    assert tree in g.intentTrees;
  }

  lemma SuccessIsPossible(invoke: ContextInvoke, inv: Invoke, context: Context, tree: ExpandedTree, schedule: seq<nat>)
    requires SuccessfulRun([tree], inv, schedule) && forall p :: invoke(context, p) == inv(p)
    ensures Possible(invoke, context, map[], [tree], Ok(()))
  {
    SameInvoke([tree], inv, InvokeIn(invoke, context), schedule);
    assert TreesInOrder(map[], [], [tree]) == [tree];
    assert Witnesses(invoke, context, map[], [tree], Ok(()), [], schedule);
  }

  lemma {:induction false} SameInvoke(trees: seq<ExpandedTree>, f: Invoke, h: Invoke, schedule: seq<nat>)
    requires ScheduleOf(trees, schedule) && forall p :: f(p) == h(p)
    ensures Execute(trees, f, schedule) == Execute(trees, h, schedule)
  {
    if schedule != [] {
      SameInvoke(trees, f, h, schedule[..|schedule| - 1]);
    }
  }

  // ---- Every shape comes about ----

  function Numeral(n: nat): (code: Bytes)
    ensures |code| == n
  {
    seq(n, i => 0)
  }

  /** Leaves that name nothing but their own, different, inline code. */
  function Numbered<T>(t: Tree<T>): seq<ExpandedPredicate> {
    seq(|Leaves(t)|, i requires 0 <= i < |Leaves(t)| => ExpandedPredicate(Numeral(i), "invoke", []))
  }

  function Quote(p: ExpandedPredicate): Predicate {
    Predicate(InlineCode(p.code), [])
  }

  /** A transaction whose one intent expects the tree. */
  function Expecting(tree: ExpandedTree): Transaction {
    Transaction([Intent(0, Map(tree, Quote), map[])], [])
  }

  predicate Bare(tree: ExpandedTree) {
    forall p :: p in Leaves(tree) ==> p.entrypoint == "invoke" && p.params == []
  }

  lemma {:induction false} QuoteExpands(s: Accounts, context: Context, calldata: Calldata, tree: ExpandedTree)
    requires Bare(tree)
    ensures ExpandTree(s, context, calldata, Map(tree, Quote)) == Ok(tree)
  {
    match tree
    case Id(p) =>
      assert Leaves(tree)[0] == p;
      assert ExpandPredicate(s, context, calldata, Quote(p)) == Ok(p);
    case Not(b) =>
      assert Leaves(tree) == Leaves(b);
      QuoteExpands(s, context, calldata, b);
    case And(l, r) =>
      assert Leaves(tree) == Leaves(l) + Leaves(r);
      QuoteExpands(s, context, calldata, l);
      QuoteExpands(s, context, calldata, r);
    case Or(l, r) =>
      assert Leaves(tree) == Leaves(l) + Leaves(r);
      QuoteExpands(s, context, calldata, l);
      QuoteExpands(s, context, calldata, r);
  }

  lemma ExpectingIsAlone(tree: ExpandedTree)
    requires Bare(tree)
    ensures Alone(Expecting(tree), map[], tree)
  {
    var tx := Expecting(tree);
    var context := ContextOf(map[], tx).value;
    var op := IntentExpander(map[], context);
    QuoteExpands(map[], context, map[], tree);
    assert op(tx.intents[0]) == Ok(tree);
    var trees := IntentTrees(map[], context, tx.intents);
    assert trees.Ok? && trees.value == [tree];
    assert Visited([]) == [];
  }

  lemma {:induction false} ExposureIsShape<T, V>(t: Tree<T>, values: seq<V>, negated: bool)
    requires |values| == |Leaves(t)|
    ensures Exposed(Relabel(t, values), negated) <==> Exposed(t, negated)
  {
    match t
    case Id(_) =>
    case Not(b) => ExposureIsShape(b, values, !negated);
    case And(l, r) =>
      ExposureIsShape(l, values[..|Leaves(l)|], negated);
      ExposureIsShape(r, values[|Leaves(l)|..], negated);
    case Or(l, r) =>
      ExposureIsShape(l, values[..|Leaves(l)|], negated);
      ExposureIsShape(r, values[|Leaves(l)|..], negated);
  }

  /**
   * For every shape of tree there is a transaction whose only tree has it, and whose acceptance can be trusted exactly
   * if no disjunction of the shape is exposed.
   */
  lemma ShapeTrustworthyExactly<T>(shape: Tree<T>) returns (tree: ExpandedTree, tx: Transaction)
    ensures tree == Relabel(shape, Numbered(shape)) && Alone(tx, map[], tree)
    ensures Trustworthy(tree) <==> !Exposed(shape, false)
  {
    tree := Relabel(shape, Numbered(shape));
    tx := Expecting(tree);
    RelabelLeaves(shape, Numbered(shape));
    forall i, j | 0 <= i < j < |Leaves(tree)| ensures Leaves(tree)[i] != Leaves(tree)[j] {
      assert |Leaves(tree)[i].code| == i && |Leaves(tree)[j].code| == j;
    }
    ExpectingIsAlone(tree);
    ExposureIsShape(shape, Numbered(shape), false);
    TrustworthyExactly(tree, tx, map[]);
  }
}
