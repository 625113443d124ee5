/** Blocks of transactions that do not return when scheduled what they return in order, however they are judged. */
module Counterexamples {
  import opened Address
  import opened Blocks
  import opened Collect
  import opened Execution
  import opened Executor
  import opened ExpressionTree
  import opened Forest
  import opened Primitives
  import opened Refs
  import opened Schedule
  import opened State
  import opened Wrappers

  // ---- Transactions whose predicates accept ----

  const ACCOUNT := Account([], Id(Predicate(InlineCode([]), [])))

  function Creating(a: Address): seq<Proposal> {
    [Proposal(a, CreateAccount(ACCOUNT))]
  }

  function ReadParams(reading: seq<Address>): seq<Param> {
    seq(|reading|, i requires 0 <= i < |reading| => AccountRef(reading[i]))
  }

  /** An intent whose one predicate refers to the given accounts, and proposals. */
  function Tx(reading: seq<Address>, ps: seq<Proposal>): Transaction {
    Transaction([Intent(0, Id(Predicate(InlineCode([]), ReadParams(reading))), map[])], ps)
  }

  ghost predicate Accepting(invoke: ContextInvoke) {
    forall context, p :: invoke(context, p) == Accepts
  }

  predicate Plain(s: Accounts) {
    forall a :: a in s ==> s[a] == ACCOUNT
  }

  predicate Readable(s: Accounts, reading: seq<Address>) {
    forall i :: 0 <= i < |reading| ==> reading[i] in s
  }

  lemma PlainTreeExpands(s: Accounts, context: Context, calldata: Calldata)
    ensures ExpandTree(s, context, calldata, ACCOUNT.predicates) == Ok(Id(ExpandedPredicate([], "invoke", [])))
  {
    var pred := ACCOUNT.predicates.leaf;
    assert PredicateExpander(s, context, calldata)(pred) == Ok(ExpandedPredicate([], "invoke", []));
  }

  lemma ReadingExpands(s: Accounts, context: Context, calldata: Calldata, reading: seq<Address>)
    ensures var r := ExpandTree(s, context, calldata, Id(Predicate(InlineCode([]), ReadParams(reading))));
            (r.Ok? <==> Readable(s, reading)) && (r.Ok? ==> r.value.Id?)
  {
    var pred := Predicate(InlineCode([]), ReadParams(reading));
    var op := ParamExpander(s, context, calldata, pred);
    var params := Traverse(pred.params, op);
    if params.Ok? {
      forall i | 0 <= i < |reading| ensures reading[i] in s {
        assert op(pred.params[i]).Ok?;
      }
    } else {
      var i :| 0 <= i < |pred.params| && op(pred.params[i]) == Err(params.error);
    }
    assert PredicateExpander(s, context, calldata)(pred).Ok? <==> params.Ok?;
  }

  lemma PlainGathers(s: Accounts, reading: seq<Address>, ps: seq<Proposal>)
    requires Plain(s) && DistinctKeys(ps)
    ensures var r := GatherInputs(s, Tx(reading, ps));
            && (r.Ok? <==> Outputs(s, ps).Ok? && Readable(s, reading))
            && (r.Ok? ==> r.value.diff == Outputs(s, ps).value && forall tree :: Triggers(r.value, tree) ==> tree.Id?)
  {
    var tx := Tx(reading, ps);
    if Outputs(s, ps).Ok? {
      ContextShowsDiff(s, tx);
      var context := ContextOf(s, tx).value;
      var calldata := MergedCalldata(context.calldata);
      PlainAccountTrees(s, context, calldata, ps);
      var intent := tx.intents[0];
      ReadingExpands(s, context, intent.calldata, reading);
      var trees := IntentTrees(s, context, tx.intents);
      assert tx.intents[..0] == [] && tx.intents == [intent];
      assert trees.Ok? <==> IntentExpander(s, context)(intent).Ok?;
    }
  }

  lemma PlainAccountTrees(s: Accounts, context: Context, calldata: Calldata, ps: seq<Proposal>)
    requires Plain(s)
    ensures var r := Gather(s, context, calldata, Visited(ps)); r.Ok? && forall a :: a in r.value ==> r.value[a].Id?
  {
    PlainTreeExpands(s, context, calldata);
    GatherMeaning(s, context, calldata, Visited(ps));
  }

  /** On a plain store such a transaction succeeds exactly if its proposals fit and the accounts it reads exist. */
  lemma PlainExecutes(judge: Judge, invoke: ContextInvoke, s: Accounts, reading: seq<Address>, ps: seq<Proposal>)
    requires Plain(s) && Legal(judge, invoke) && Accepting(invoke) && DistinctKeys(ps)
    ensures var r := ExecuteTransaction(judge, Tx(reading, ps), s);
            && (r.Ok? <==> Outputs(s, ps).Ok? && Readable(s, reading))
            && (r.Ok? ==> r.value == Outputs(s, ps).value)
  {
    hide GatherInputs, Outputs, Legal;
    PlainGathers(s, reading, ps);
    var g := GatherInputs(s, Tx(reading, ps));
    if g.Ok? {
      var inv := InvokeIn(invoke, g.value.context);
      assert forall p :: inv(p) == invoke(g.value.context, p) == Accepts;
      CrashFreeAcceptance(judge, invoke, Tx(reading, ps), s);
      forall tree | Triggers(g.value, tree) ensures Holds(tree, p => InvokeIn(invoke, g.value.context)(p).Accepts?) {
        assert tree.Id? && inv(tree.leaf) == Accepts;
      }
    }
  }

  function Created(a: Address): Diff {
    Diff(map[a := ACCOUNT], {})
  }

  lemma CreatingExecutes(judge: Judge, invoke: ContextInvoke, s: Accounts, reading: seq<Address>, a: Address)
    requires Plain(s) && Legal(judge, invoke) && Accepting(invoke)
    ensures ExecuteTransaction(judge, Tx(reading, Creating(a)), s).Ok? <==> a !in s && Readable(s, reading)
    ensures a !in s && Readable(s, reading) ==> ExecuteTransaction(judge, Tx(reading, Creating(a)), s) == Ok(Created(a))
  {
    PlainExecutes(judge, invoke, s, reading, Creating(a));
    assert Creating(a)[..0] == [];
    assert Outputs(s, []) == Ok(EMPTY);
    assert Merge(EMPTY, Single(a, Some(ACCOUNT))) == Created(a);
    assert a !in s ==> Outputs(s, Creating(a)) == Ok(Created(a));
  }

  lemma ReadingExecutes(judge: Judge, invoke: ContextInvoke, s: Accounts, reading: seq<Address>)
    requires Plain(s) && Legal(judge, invoke) && Accepting(invoke)
    ensures ExecuteTransaction(judge, Tx(reading, []), s).Ok? <==> Readable(s, reading)
    ensures Readable(s, reading) ==> ExecuteTransaction(judge, Tx(reading, []), s) == Ok(EMPTY)
  {
    PlainExecutes(judge, invoke, s, reading, []);
  }

  lemma RefsOfPlain(s: Accounts, reading: seq<Address>, ps: seq<Proposal>)
    requires Plain(s)
    ensures RefsOf(Tx(reading, ps), s) ==
        TransactionRefs((set i | 0 <= i < |reading| :: reading[i]) - Keys(ps), Keys(ps))
  {
    var tree: PredicateTree := Id(Predicate(InlineCode([]), ReadParams(reading)));
    var params := ReadParams(reading);
    assert TreeRefs(ACCOUNT.predicates) == {} by {
      assert Leaves(ACCOUNT.predicates) == [ACCOUNT.predicates.leaf];
    }
    forall a ensures a in ParamRefs(params) <==> exists i :: 0 <= i < |reading| && reading[i] == a {
      if i :| 0 <= i < |reading| && reading[i] == a {
        assert params[i].AccountRef? && params[i].addr == a;
      }
    }
    assert Leaves(tree) == [tree.leaf];
    assert Tx(reading, ps).intents[0].expectations == tree;
    var intents := Tx(reading, ps).intents;
    var leaves := Leaves(tree);
    forall a ensures a in TreeRefs(tree) <==> a in ParamRefs(params) {
      assert a in ParamRefs(params) ==> a in CodeRefs(leaves[0]) + ParamRefs(leaves[0].params);
    }
    forall a ensures a in IntentRefs(intents) <==> a in TreeRefs(tree) {
      assert a in TreeRefs(tree) ==> a in TreeRefs(intents[0].expectations);
    }
  }

  lemma CreatingKeys(a: Address)
    ensures Keys(Creating(a)) == {a} && Keys([]) == {}
  {
    assert Creating(a)[0].addr in Keys(Creating(a));
  }

  lemma RefsOfTx(s: Accounts, reading: seq<Address>, a: Address)
    requires Plain(s) && a !in reading
    ensures RefsOf(Tx(reading, Creating(a)), s) == TransactionRefs(set i | 0 <= i < |reading| :: reading[i], {a})
    ensures RefsOf(Tx(reading, []), s) == TransactionRefs(set i | 0 <= i < |reading| :: reading[i], {})
  {
    RefsOfPlain(s, reading, Creating(a));
    RefsOfPlain(s, reading, []);
    CreatingKeys(a);
  }

  // ---- What a row of creations leaves in the overlay ----

  predicate OnlyCreates(r: TxResult) {
    r.Ok? ==> r.value.deletes == {} && Plain(r.value.upserts)
  }

  lemma {:induction false} AccumulatedCreations(acc: Diff, row: seq<nat>, results: nat -> TxResult, a: Address)
    requires Plain(acc.upserts) && forall j :: j in row ==> OnlyCreates(results(j))
    ensures Plain(Accumulate(acc, row, results).upserts)
    ensures a in Accumulate(acc, row, results).upserts <==>
            a in acc.upserts || exists j :: j in row && results(j).Ok? && a in results(j).value.upserts
  {
    if row != [] {
      var front, last := row[..|row| - 1], row[|row| - 1];
      assert row == front + [last] && last in row;
      assert forall j :: j in front ==> j in row;
      AccumulatedCreations(acc, front, results, a);
      assert forall j :: j in row <==> j in front || j == last;
    }
  }

  lemma RootRow(links: Links, root: nat)
    requires root < |links| && links[root] == None
    ensures 0 < |TreeRows(links, root)| && TreeRows(links, root)[0] == [root]
  {
    TreeRowsPlace(links, root, 0, root);
    assert TreeRows(links, root)[0] == RowOf(links, root, 0);
  }

  // ---- A conflict that is not linked ----

  function TwoWritersOneReader(): seq<Transaction> {
    [Tx([], Creating("/x")), Tx([], Creating("/y")), Tx(["/x", "/y"], [])]
  }

  lemma TwoWritersLinks()
    ensures var block := RefsOfBlock(TwoWritersOneReader(), map[]);
            && DependsOn(block[2], block[0]) && DependsOn(block[2], block[1])
            && LinksOf(block) == [None, None, Some(1)]
  {
    RefsOfTx(map[], [], "/x");
    RefsOfTx(map[], [], "/y");
    RefsOfTx(map[], ["/x", "/y"], "/z");
    var block := RefsOfBlock(TwoWritersOneReader(), map[]);
    var reading: seq<Address> := ["/x", "/y"];
    assert reading[0] in block[2].read && reading[1] in block[2].read;
    assert block[0] == TransactionRefs({}, {"/x"}) && block[1] == TransactionRefs({}, {"/y"}) && block[2].written == {};
    assert "/x" in block[2].read * block[0].written && "/y" in block[2].read * block[1].written;
    assert !DependsOn(block[1], block[0]);
    assert NearestBelow(block, 1, 0) == None;
    var links := LinksOf(block);
    assert links[0] == None && links[1] == None && links[2] == Some(1);
  }

  /**
   * Only the nearest conflict is linked, so the account created by an earlier one is missing: the third transaction
   * reads what the first two create, and fails when the block is scheduled, though it succeeds when the block is run in
   * order.
   */
  lemma SecondConflictIsLost(judges: Judges, invoke: ContextInvoke)
    requires AllLegal(judges, invoke) && Accepting(invoke)
    ensures var txs := TwoWritersOneReader();
            var block, exec := RefsOfBlock(txs, map[]), BlockExec(judges, txs);
            && DependsOn(block[2], block[0]) && DependsOn(block[2], block[1])
            && BlockResult(exec, map[], LinksOf(block), 2).Err? && SerialResult(exec, map[], 2).Ok?
  {
    TwoWritersLinks();
    TwoWritersInOrder(judges, invoke);
    TwoWritersScheduled(judges, invoke, LinksOf(RefsOfBlock(TwoWritersOneReader(), map[])));
  }

  lemma TwoWritersInOrder(judges: Judges, invoke: ContextInvoke)
    requires AllLegal(judges, invoke) && Accepting(invoke)
    ensures SerialResult(BlockExec(judges, TwoWritersOneReader()), map[], 2).Ok?
  {
    hide ExecuteTransaction, Accepting, Legal;
    var base: Accounts := map[];
    var exec := BlockExec(judges, TwoWritersOneReader());
    CreatingExecutes(judges(0), invoke, base, [], "/x");
    var s1 := Apply(base, Created("/x"));
    assert SerialState(exec, base, 1) == s1;
    CreatingExecutes(judges(1), invoke, s1, [], "/y");
    var s2 := Apply(s1, Created("/y"));
    assert SerialState(exec, base, 2) == s2;
    ReadingExecutes(judges(2), invoke, s2, ["/x", "/y"]);
  }

  lemma TwoWritersScheduled(judges: Judges, invoke: ContextInvoke, links: Links)
    requires AllLegal(judges, invoke) && Accepting(invoke) && links == [None, None, Some(1)]
    ensures BlockResult(BlockExec(judges, TwoWritersOneReader()), map[], links, 2).Err?
  {
    hide ExecuteTransaction, Accepting, Legal, TreeRows;
    var base: Accounts := map[];
    var exec := BlockExec(judges, TwoWritersOneReader());
    assert Root(links, 2) == Root(links, 1) == 1 && Depth(links, 1) == 0 && Depth(links, 2) == 1;
    RootRow(links, 1);
    TreeRowsPlace(links, 1, 1, 2);
    var rows := TreeRows(links, 1);
    CreatingExecutes(judges(1), invoke, base, [], "/y");
    FirstRowLeaves(exec, base, rows, 1, Created("/y"));
    var overlay := Overlay(base, RowStart(exec, base, rows, 1));
    assert "/x" !in overlay && Plain(overlay);
    var reading: seq<Address> := ["/x", "/y"];
    assert reading[0] == "/x";
    ReadingExecutes(judges(2), invoke, overlay, reading);
  }

  /** The row after the root sees the root's diff. */
  lemma FirstRowLeaves(exec: Exec, base: Accounts, rows: Rows, root: nat, d: Diff)
    requires 0 < |rows| && rows[0] == [root] && exec(root, base) == Ok(d) && d.Disjoint()
    ensures RowStart(exec, base, rows, 1) == d
  {
    var run := RunOn(exec, base, EMPTY);
    assert Overlay(base, EMPTY) == base;
    assert run(root) == Ok(d);
    assert rows[0][..0] == [];
    assert Accumulate(EMPTY, [], run) == EMPTY;
    assert Accumulate(EMPTY, rows[0], run) == Merge(EMPTY, d);
    MergeIdentity(d);
    assert RowStart(exec, base, rows, 0) == EMPTY;
  }

  // ---- A later writer that is seen ----

  function ReaderAndLaterWriter(): seq<Transaction> {
    [Tx([], Creating("/a")), Tx(["/a"], Creating("/b")), Tx(["/b", "/c"], []), Tx(["/a"], Creating("/c"))]
  }

  lemma LaterWriterLinks()
    ensures var block := RefsOfBlock(ReaderAndLaterWriter(), map[]);
            && LinksOf(block) == [None, Some(0), Some(1), Some(0)]
            && forall i, j: nat :: j < i < |block| && DependsOn(block[i], block[j]) ==> IsAncestor(LinksOf(block), j, i)
  {
    RefsOfTx(map[], [], "/a");
    RefsOfTx(map[], ["/a"], "/b");
    RefsOfTx(map[], ["/b", "/c"], "/z");
    RefsOfTx(map[], ["/a"], "/c");
    var block := RefsOfBlock(ReaderAndLaterWriter(), map[]);
    var both, one: seq<Address> := ["/b", "/c"], ["/a"];
    assert both[0] in block[2].read && both[1] in block[2].read && one[0] in block[1].read && one[0] in block[3].read;
    assert block[0] == TransactionRefs({}, {"/a"});
    assert block[1] == TransactionRefs({"/a"}, {"/b"});
    assert block[2] == TransactionRefs({"/b", "/c"}, {});
    assert block[3] == TransactionRefs({"/a"}, {"/c"});
    LaterWriterLinksOf(block);
  }

  lemma LaterWriterLinksOf(block: Block)
    requires block == [TransactionRefs({}, {"/a"}), TransactionRefs({"/a"}, {"/b"}), TransactionRefs({"/b", "/c"}, {}),
                       TransactionRefs({"/a"}, {"/c"})]
    ensures LinksOf(block) == [None, Some(0), Some(1), Some(0)]
    ensures forall i, j: nat :: j < i < |block| && DependsOn(block[i], block[j]) ==> IsAncestor(LinksOf(block), j, i)
  {
    var links := LinksOf(block);
    assert "/a" in block[1].read * block[0].written && "/b" in block[2].read * block[1].written;
    assert "/a" in block[3].read * block[0].written;
    assert !DependsOn(block[2], block[0]) && !DependsOn(block[3], block[1]) && !DependsOn(block[3], block[2]);
    assert links[0] == None && links[1] == Some(0) && links[2] == Some(1);
    assert NearestBelow(block, 3, 1) == Some(0) && NearestBelow(block, 3, 2) == Some(0) && links[3] == Some(0);
  }

  /**
   * A write after a read is no dependency: every earlier transaction that one depends on is its ancestor, and yet the
   * third transaction, which fails when the block is run in order, succeeds when it is scheduled, because the fourth
   * runs in a row above it and creates what it reads.
   */
  lemma LaterWriterIsSeen(judges: Judges, invoke: ContextInvoke)
    requires AllLegal(judges, invoke) && Accepting(invoke)
    ensures var txs := ReaderAndLaterWriter();
            var block, exec := RefsOfBlock(txs, map[]), BlockExec(judges, txs);
            && (forall i, j: nat :: j < i < |block| && DependsOn(block[i], block[j]) ==>
                IsAncestor(LinksOf(block), j, i))
            && BlockResult(exec, map[], LinksOf(block), 2).Ok? && SerialResult(exec, map[], 2).Err?
  {
    LaterWriterLinks();
    LaterWriterInOrder(judges, invoke);
    LaterWriterScheduled(judges, invoke, LinksOf(RefsOfBlock(ReaderAndLaterWriter(), map[])));
  }

  lemma LaterWriterInOrder(judges: Judges, invoke: ContextInvoke)
    requires AllLegal(judges, invoke) && Accepting(invoke)
    ensures SerialResult(BlockExec(judges, ReaderAndLaterWriter()), map[], 2).Err?
  {
    hide ExecuteTransaction, Accepting, Legal;
    var base: Accounts := map[];
    var exec := BlockExec(judges, ReaderAndLaterWriter());
    CreatingExecutes(judges(0), invoke, base, [], "/a");
    var s1 := Apply(base, Created("/a"));
    assert SerialState(exec, base, 1) == s1;
    CreatingExecutes(judges(1), invoke, s1, ["/a"], "/b");
    var s2 := Apply(s1, Created("/b"));
    assert SerialState(exec, base, 2) == s2;
    var reading: seq<Address> := ["/b", "/c"];
    assert reading[1] == "/c" && "/c" !in s2;
    ReadingExecutes(judges(2), invoke, s2, reading);
  }

  lemma LaterWriterScheduled(judges: Judges, invoke: ContextInvoke, links: Links)
    requires AllLegal(judges, invoke) && Accepting(invoke) && links == [None, Some(0), Some(1), Some(0)]
    ensures BlockResult(BlockExec(judges, ReaderAndLaterWriter()), map[], links, 2).Ok?
  {
    hide ExecuteTransaction, Accepting, Legal, TreeRows;
    var base: Accounts := map[];
    var exec := BlockExec(judges, ReaderAndLaterWriter());
    assert Depth(links, 0) == 0 && Depth(links, 1) == 1 && Depth(links, 2) == 2 && Depth(links, 3) == 1;
    assert Root(links, 1) == 0 && Root(links, 2) == 0 && Root(links, 3) == 0;
    RootRow(links, 0);
    TreeRowsPlace(links, 0, 2, 2);
    var rows := TreeRows(links, 0);
    CreatingExecutes(judges(0), invoke, base, [], "/a");
    FirstRowLeaves(exec, base, rows, 0, Created("/a"));
    SecondRow(links);
    SecondRowCreates(judges, invoke, rows[1]);
    var overlay := Overlay(base, RowStart(exec, base, rows, 2));
    ReadingExecutes(judges(2), invoke, overlay, ["/b", "/c"]);
  }

  lemma SecondRowCreates(judges: Judges, invoke: ContextInvoke, row: seq<nat>)
    requires AllLegal(judges, invoke) && Accepting(invoke) && forall j :: j in row <==> j == 1 || j == 3
    ensures var exec := BlockExec(judges, ReaderAndLaterWriter());
            var overlay := Overlay(map[], Accumulate(Created("/a"), row, RunOn(exec, map[], Created("/a"))));
            "/b" in overlay && "/c" in overlay && Plain(overlay)
  {
    hide ExecuteTransaction, Accepting, Legal;
    var base: Accounts := map[];
    var acc, above := Created("/a"), Overlay(base, Created("/a"));
    var run := RunOn(BlockExec(judges, ReaderAndLaterWriter()), base, acc);
    CreatingExecutes(judges(1), invoke, above, ["/a"], "/b");
    CreatingExecutes(judges(3), invoke, above, ["/a"], "/c");
    assert run(1) == Ok(Created("/b")) && run(3) == Ok(Created("/c"));
    AccumulatedCreations(acc, row, run, "/b");
    AccumulatedCreations(acc, row, run, "/c");
  }

  lemma SecondRow(links: Links)
    requires links == [None, Some(0), Some(1), Some(0)]
    ensures 1 < |TreeRows(links, 0)| && forall j :: j in TreeRows(links, 0)[1] <==> j == 1 || j == 3
  {
    assert Depth(links, 0) == 0 && Depth(links, 1) == 1 && Depth(links, 2) == 2 && Depth(links, 3) == 1;
    assert Root(links, 0) == 0 && Root(links, 1) == 0 && Root(links, 2) == 0 && Root(links, 3) == 0;
    TreeRowsPlace(links, 0, 1, 1);
    hide TreeRows, Depth, Root;
    forall j: nat ensures j in TreeRows(links, 0)[1] <==> j == 1 || j == 3 {
      TreeRowsPlace(links, 0, 1, j);
    }
  }

  // ---- A deletion that is not seen ----

  function DeletedAndRead(): seq<Transaction> {
    [Tx([], [Proposal("/a", DeleteAccount)]), Tx(["/a"], [])]
  }

  /**
   * The overlay does not hide deleted accounts: the second transaction reads what the first deletes, and succeeds when
   * the block is scheduled, though it fails when the block is run in order.
   */
  lemma DeletedAccountReappears(judges: Judges, invoke: ContextInvoke)
    requires AllLegal(judges, invoke) && Accepting(invoke)
    ensures var txs, base := DeletedAndRead(), map["/a" := ACCOUNT];
            var block, exec := RefsOfBlock(txs, base), BlockExec(judges, txs);
            && LinksOf(block) == [None, Some(0)]
            && BlockResult(exec, base, LinksOf(block), 1).Ok? && SerialResult(exec, base, 1).Err?
  {
    hide ExecuteTransaction, Accepting, Legal, TreeRows;
    var txs, base := DeletedAndRead(), map["/a" := ACCOUNT];
    var block, exec := RefsOfBlock(txs, base), BlockExec(judges, txs);
    DeletedLinks();
    var links := LinksOf(block);
    DeletingExecutes(judges(0), invoke, base);
    assert SerialState(exec, base, 1) == map[];
    var reading: seq<Address> := ["/a"];
    assert reading[0] == "/a";
    ReadingExecutes(judges(1), invoke, map[], reading);
    assert Root(links, 0) == 0 && Root(links, 1) == 0 && Depth(links, 1) == 1;
    RootRow(links, 0);
    TreeRowsPlace(links, 0, 1, 1);
    FirstRowLeaves(exec, base, TreeRows(links, 0), 0, Diff(map[], {"/a"}));
    assert Overlay(base, Diff(map[], {"/a"})) == base;
    ReadingExecutes(judges(1), invoke, base, reading);
  }

  lemma DeletedLinks()
    ensures LinksOf(RefsOfBlock(DeletedAndRead(), map["/a" := ACCOUNT])) == [None, Some(0)]
  {
    var base := map["/a" := ACCOUNT];
    var ps, reading: seq<Address> := [Proposal("/a", DeleteAccount)], ["/a"];
    RefsOfPlain(base, [], ps);
    RefsOfPlain(base, reading, []);
    assert ps[0].addr in Keys(ps) && reading[0] == "/a" && Keys([]) == {};
    var block := RefsOfBlock(DeletedAndRead(), base);
    assert "/a" in block[1].read * block[0].written;
    var links := LinksOf(block);
    assert links[0] == None && links[1] == Some(0);
  }

  lemma DeletingExecutes(judge: Judge, invoke: ContextInvoke, s: Accounts)
    requires s == map["/a" := ACCOUNT] && Legal(judge, invoke) && Accepting(invoke)
    ensures ExecuteTransaction(judge, Tx([], [Proposal("/a", DeleteAccount)]), s) == Ok(Diff(map[], {"/a"}))
  {
    var ps := [Proposal("/a", DeleteAccount)];
    PlainExecutes(judge, invoke, s, [], ps);
    assert ps[..0] == [];
    assert Merge(EMPTY, Single("/a", None)) == Diff(map[], {"/a"});
    assert Outputs(s, ps) == Ok(Diff(map[], {"/a"}));
  }
}
