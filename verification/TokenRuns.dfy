/** What runs of transactions, blocks and chains of blocks do to the balances of a token. */
module TokenRuns {
  import opened Address
  import opened Blocks
  import Builder
  import opened Collect
  import opened Execution
  import opened ExpressionTree
  import opened Primitives
  import opened State
  import opened Sums
  import opened Token
  import opened Wrappers

  // ---- When the guards stay ----

  predicate DeletesToken(dep: Deployment, tx: Transaction) {
    exists i :: 0 <= i < |tx.proposals| && tx.proposals[i].addr == dep.token && tx.proposals[i].change.DeleteAccount?
  }

  /** What the transaction proposes for the account that holds the code of a guard, if one does, is the same program. */
  predicate KeepsProgram(pred: Predicate, program: (Bytes, string), tx: Transaction) {
    match pred.code
    case InlineCode(_) => true
    case CodeRef(addr, entrypoint) =>
      forall i :: 0 <= i < |tx.proposals| && tx.proposals[i].addr == addr ==>
        match tx.proposals[i].change
        case CreateAccount(account) => (account.state, entrypoint) == program
        case ReplaceState(state) => (state, entrypoint) == program
        case _ => true
  }

  predicate KeepsCode(dep: Deployment, tx: Transaction) {
    KeepsProgram(dep.supplyGuard, dep.tokenProgram, tx) && KeepsProgram(dep.treeGuard, dep.immutableProgram, tx)
  }

  /** The transaction proposes neither to delete the token nor to put another program in the place of a guard's. */
  predicate KeepsGuards(dep: Deployment, tx: Transaction) {
    !DeletesToken(dep, tx) && KeepsCode(dep, tx)
  }

  /** The guard, as far as it can be expanded, is this program. */
  predicate HasProgram(s: Accounts, pred: Predicate, program: (Bytes, string)) {
    ExpandCode(s, pred).Ok? ==> ExpandCode(s, pred).value == program
  }

  lemma ProgramAfter(s: Accounts, tx: Transaction, pred: Predicate, program: (Bytes, string))
    requires DistinctKeys(tx.proposals) && Outputs(s, tx.proposals).Ok? && HasProgram(s, pred, program)
    ensures HasProgram(Apply(s, Outputs(s, tx.proposals).value), pred, program) <==> KeepsProgram(pred, program, tx)
  {
    hide Outputs;
    var ps, t := tx.proposals, Apply(s, Outputs(s, tx.proposals).value);
    OutputsMeaning(s, ps);
    OutputsSucceeds(s, ps);
    if pred.code.CodeRef? {
      var a := pred.code.addr;
      if i :| 0 <= i < |ps| && ps[i].addr == a {
        assert Lookup(t, ps[i].addr) == After(s, ps[i]);
        assert forall j :: 0 <= j < |ps| && ps[j].addr == a ==> j == i;
      } else {
        assert a !in Keys(ps);
        assert Lookup(t, a) == Lookup(s, a);
      }
    }
  }

  lemma TokenAfter(dep: Deployment, s: Accounts, tx: Transaction)
    requires DistinctKeys(tx.proposals) && Outputs(s, tx.proposals).Ok?
    ensures var t := Apply(s, Outputs(s, tx.proposals).value);
            && (dep.token in s ==> (dep.token in t <==> !DeletesToken(dep, tx)))
            && (dep.token !in s && !CreatesToken(dep, tx) ==> dep.token !in t)
  {
    hide Outputs;
    var ps, t := tx.proposals, Apply(s, Outputs(s, tx.proposals).value);
    OutputsMeaning(s, ps);
    OutputsSucceeds(s, ps);
    if i :| 0 <= i < |ps| && ps[i].addr == dep.token {
      assert Lookup(t, ps[i].addr) == After(s, ps[i]);
      assert forall j :: 0 <= j < |ps| && ps[j].addr == dep.token ==> j == i;
    } else {
      assert dep.token !in Keys(ps);
      assert Lookup(t, dep.token) == Lookup(s, dep.token);
    }
  }

  /** An accepted transaction leaves a guarded token guarded exactly if it keeps the guards. */
  lemma StaysGuardedExactly(judge: Judge, invoke: ContextInvoke, codec: Codec, dep: Deployment, s: Accounts,
                            tx: Transaction)
    requires Runs(judge, invoke, codec, dep) && Guarded(dep, s)
    requires DistinctKeys(tx.proposals) && ExecuteTransaction(judge, tx, s).Ok?
    ensures Guarded(dep, Apply(s, ExecuteTransaction(judge, tx, s).value)) <==> KeepsGuards(dep, tx)
  {
    AcceptedConserves(judge, invoke, codec, dep, s, tx);
    assert Outputs(s, tx.proposals) == Ok(ExecuteTransaction(judge, tx, s).value);
    hide Outputs, ContextOf, Apply, KeepsProgram, DeletesToken, DistinctKeys, ExpandCode, ExecuteTransaction, Runs;
    TokenAfter(dep, s, tx);
    ProgramAfter(s, tx, dep.supplyGuard, dep.tokenProgram);
    ProgramAfter(s, tx, dep.treeGuard, dep.immutableProgram);
  }

  // ---- Runs ----

  ghost predicate AllRun(judges: Judges, invoke: ContextInvoke, codec: Codec, dep: Deployment) {
    forall i: nat :: Runs(judges(i), invoke, codec, dep)
  }

  ghost predicate AllDistinct(txs: seq<Transaction>) {
    forall k :: 0 <= k < |txs| ==> DistinctKeys(txs[k].proposals)
  }

  ghost predicate Unsigned(codec: Codec, dep: Deployment, txs: seq<Transaction>) {
    forall k :: 0 <= k < |txs| ==> !MintSigned(codec, dep.mint, txs[k])
  }

  predicate AllKeepGuards(dep: Deployment, txs: seq<Transaction>) {
    forall k :: 0 <= k < |txs| ==> KeepsGuards(dep, txs[k])
  }

  /** The store after running the transactions one after the other; a rejected one changes nothing. */
  function RunAll(judges: Judges, s: Accounts, txs: seq<Transaction>): Accounts {
    if txs == [] then s
    else
      var t := RunAll(judges, s, txs[..|txs| - 1]);
      match ExecuteTransaction(judges(|txs| - 1), txs[|txs| - 1], t)
      case Ok(d) => Apply(t, d)
      case Err(_) => t
  }

  predicate AcceptedAt(judges: Judges, s: Accounts, txs: seq<Transaction>, k: nat)
    requires k < |txs|
  {
    ExecuteTransaction(judges(k), txs[k], RunAll(judges, s, txs[..k])).Ok?
  }

  /** No accepted transaction has deleted the token or replaced the program of a guard. */
  ghost predicate Undisturbed(judges: Judges, dep: Deployment, s: Accounts, txs: seq<Transaction>) {
    forall k: nat :: k < |txs| && AcceptedAt(judges, s, txs, k) ==> KeepsGuards(dep, txs[k])
  }

  lemma AcceptedInFront(judges: Judges, s: Accounts, txs: seq<Transaction>, k: nat)
    requires k < |txs| - 1
    ensures AcceptedAt(judges, s, txs[..|txs| - 1], k) <==> AcceptedAt(judges, s, txs, k)
  {
    var front := txs[..|txs| - 1];
    assert front[..k] == txs[..k] && front[k] == txs[k];
  }

  lemma FrontOfRun(judges: Judges, dep: Deployment, s: Accounts, txs: seq<Transaction>)
    requires txs != []
    ensures var front := txs[..|txs| - 1];
            Undisturbed(judges, dep, s, txs) <==>
            Undisturbed(judges, dep, s, front)
            && (AcceptedAt(judges, s, txs, |front|) ==> KeepsGuards(dep, txs[|front|]))
  {
    hide AcceptedAt, KeepsGuards;
    var front := txs[..|txs| - 1];
    forall k: nat | k < |front|
      ensures front[k] == txs[k] && (AcceptedAt(judges, s, front, k) <==> AcceptedAt(judges, s, txs, k))
    {
      AcceptedInFront(judges, s, txs, k);
    }
  }

  ghost predicate GuardedThroughout(judges: Judges, dep: Deployment, s: Accounts, txs: seq<Transaction>) {
    forall k: nat :: k <= |txs| ==> Guarded(dep, RunAll(judges, s, txs[..k]))
  }

  lemma FrontIsGuarded(judges: Judges, dep: Deployment, s: Accounts, txs: seq<Transaction>)
    requires txs != []
    ensures GuardedThroughout(judges, dep, s, txs) <==>
            GuardedThroughout(judges, dep, s, txs[..|txs| - 1]) && Guarded(dep, RunAll(judges, s, txs))
  {
    hide RunAll, Guarded;
    var front := txs[..|txs| - 1];
    assert txs[..|txs|] == txs;
    forall k: nat | k <= |front| ensures front[..k] == txs[..k] {
    }
    if GuardedThroughout(judges, dep, s, txs) {
      assert Guarded(dep, RunAll(judges, s, txs[..|txs|]));
      forall k: nat | k <= |front| ensures Guarded(dep, RunAll(judges, s, front[..k])) {
        assert Guarded(dep, RunAll(judges, s, txs[..k]));
      }
    }
    if GuardedThroughout(judges, dep, s, front) && Guarded(dep, RunAll(judges, s, txs)) {
      forall k: nat | k <= |txs| ensures Guarded(dep, RunAll(judges, s, txs[..k])) {
        if k <= |front| {
          assert Guarded(dep, RunAll(judges, s, front[..k]));
        }
      }
    }
  }

  lemma GuardedAtEnds(judges: Judges, dep: Deployment, s: Accounts, txs: seq<Transaction>)
    requires GuardedThroughout(judges, dep, s, txs)
    ensures Guarded(dep, RunAll(judges, s, txs))
  {
    hide RunAll, Guarded;
    assert txs[..|txs|] == txs;
    assert Guarded(dep, RunAll(judges, s, txs[..|txs|]));
  }

  lemma EmptyRun(judges: Judges, dep: Deployment, s: Accounts)
    requires Guarded(dep, s)
    ensures GuardedThroughout(judges, dep, s, [])
  {
    var none: seq<Transaction> := [];
    assert forall k: nat :: k <= |none| ==> none[..k] == none;
  }

  /** Over a run the token is guarded all the time exactly if no accepted transaction disturbs it. */
  lemma {:induction false} RunStaysGuardedExactly(judges: Judges, invoke: ContextInvoke, codec: Codec, dep: Deployment,
                                                  s: Accounts, txs: seq<Transaction>)
    requires AllRun(judges, invoke, codec, dep) && Guarded(dep, s) && AllDistinct(txs)
    ensures Undisturbed(judges, dep, s, txs) <==> GuardedThroughout(judges, dep, s, txs)
  {
    if txs == [] {
      EmptyRun(judges, dep, s);
    } else {
      hide ExecuteTransaction, KeepsGuards, Guarded, Apply, Runs, DistinctKeys, Undisturbed, GuardedThroughout;
      var front, last := txs[..|txs| - 1], txs[|txs| - 1];
      RunStaysGuardedExactly(judges, invoke, codec, dep, s, front);
      FrontOfRun(judges, dep, s, txs);
      FrontIsGuarded(judges, dep, s, txs);
      var t := RunAll(judges, s, front);
      if GuardedThroughout(judges, dep, s, front) {
        GuardedAtEnds(judges, dep, s, front);
        if ExecuteTransaction(judges(|front|), last, t).Ok? {
          StaysGuardedExactly(judges(|front|), invoke, codec, dep, t, last);
        }
      }
    }
  }

  lemma GuardedAtEnd(judges: Judges, invoke: ContextInvoke, codec: Codec, dep: Deployment, s: Accounts,
                     txs: seq<Transaction>)
    requires AllRun(judges, invoke, codec, dep) && Guarded(dep, s) && AllDistinct(txs)
    requires Undisturbed(judges, dep, s, txs)
    ensures Guarded(dep, RunAll(judges, s, txs))
  {
    hide AllRun, Guarded, AllDistinct, Undisturbed, GuardedThroughout, RunAll;
    RunStaysGuardedExactly(judges, invoke, codec, dep, s, txs);
    GuardedAtEnds(judges, dep, s, txs);
  }

  /** Without a signature of the mint authority no run changes the balances, up to and with the first disturbance. */
  lemma {:induction false} UnsignedRunConserves(judges: Judges, invoke: ContextInvoke, codec: Codec, dep: Deployment,
                                                s: Accounts, txs: seq<Transaction>)
    requires AllRun(judges, invoke, codec, dep) && Guarded(dep, s) && AllDistinct(txs) && Unsigned(codec, dep, txs)
    requires txs != [] ==> Undisturbed(judges, dep, s, txs[..|txs| - 1])
    ensures Wrap(Total(codec, dep.token, RunAll(judges, s, txs))) == Wrap(Total(codec, dep.token, s))
  {
    hide ExecuteTransaction, KeepsGuards, Guarded, Runs, DistinctKeys, Total, Wrap, MintSigned;
    if txs != [] {
      var front, last := txs[..|txs| - 1], txs[|txs| - 1];
      if front != [] {
        FrontOfRun(judges, dep, s, front);
      }
      UnsignedRunConserves(judges, invoke, codec, dep, s, front);
      GuardedAtEnd(judges, invoke, codec, dep, s, front);
      var t := RunAll(judges, s, front);
      if ExecuteTransaction(judges(|front|), last, t).Ok? {
        AcceptedConserves(judges(|front|), invoke, codec, dep, t, last);
      }
    }
  }

  /** Balances that add up to less than 2^64 at both ends of the run add up to the same number. */
  lemma UnsignedRunConservesExactly(judges: Judges, invoke: ContextInvoke, codec: Codec, dep: Deployment, s: Accounts,
                                    txs: seq<Transaction>)
    requires AllRun(judges, invoke, codec, dep) && Guarded(dep, s) && AllDistinct(txs) && Unsigned(codec, dep, txs)
    requires txs != [] ==> Undisturbed(judges, dep, s, txs[..|txs| - 1])
    requires Total(codec, dep.token, s) < TWO_TO_THE_64
    requires Total(codec, dep.token, RunAll(judges, s, txs)) < TWO_TO_THE_64
    ensures Total(codec, dep.token, RunAll(judges, s, txs)) == Total(codec, dep.token, s)
  {
    hide AllRun, Runs, Guarded, AllDistinct, Undisturbed, Unsigned, Total, Wrap;
    UnsignedRunConserves(judges, invoke, codec, dep, s, txs);
    TotalIsNatural(codec, dep.token, s);
    TotalIsNatural(codec, dep.token, RunAll(judges, s, txs));
    WrapSmall(Total(codec, dep.token, s));
    WrapSmall(Total(codec, dep.token, RunAll(judges, s, txs)));
  }

  lemma TotalIsNatural(codec: Codec, token: Address, s: Accounts)
    ensures Total(codec, token, s) >= 0
  {
    SumIsNatural(s.Keys, Held(codec, token, s));
  }

  /** The k-th transaction is balanced only if it leaves the supply alone. */
  ghost predicate RespectsSupply(judges: Judges, codec: Codec, dep: Deployment, s: Accounts, txs: seq<Transaction>,
                                 k: nat)
    requires k < |txs|
  {
    Balanced(codec, dep, RunAll(judges, s, txs[..k]), txs[k]) ==>
        LeavesSupply(codec, dep, RunAll(judges, s, txs[..k]), txs[k])
  }

  /**
   * Total supply stays the sum of all balances over every undisturbed run in which balanced transactions leave the
   * supply alone, mints and burns included.
   */
  lemma {:induction false} RunKeepsSupply(judges: Judges, invoke: ContextInvoke, codec: Codec, dep: Deployment,
                                          s: Accounts, txs: seq<Transaction>)
    requires AllRun(judges, invoke, codec, dep) && Guarded(dep, s) && AllDistinct(txs)
    requires Undisturbed(judges, dep, s, txs) && SupplyIsTotal(codec, dep, s)
    requires forall k: nat :: k < |txs| ==> RespectsSupply(judges, codec, dep, s, txs, k)
    ensures SupplyIsTotal(codec, dep, RunAll(judges, s, txs))
  {
    hide Balanced, LeavesSupply, SupplyIsTotal, Runs, DistinctKeys, ExecuteTransaction, Apply, Guarded, KeepsGuards;
    if txs != [] {
      var front, last := txs[..|txs| - 1], txs[|txs| - 1];
      forall k: nat | k < |front| ensures RespectsSupply(judges, codec, dep, s, front, k) {
        assert front[..k] == txs[..k];
        assert RespectsSupply(judges, codec, dep, s, txs, k);
      }
      FrontOfRun(judges, dep, s, txs);
      RunKeepsSupply(judges, invoke, codec, dep, s, front);
      GuardedAtEnd(judges, invoke, codec, dep, s, front);
      GuardedAtEnd(judges, invoke, codec, dep, s, txs);
      var t := RunAll(judges, s, front);
      assert RespectsSupply(judges, codec, dep, s, txs, |front|);
      if ExecuteTransaction(judges(|front|), last, t).Ok? {
        SupplyStays(judges(|front|), invoke, codec, dep, t, last);
      }
    }
  }

  lemma SupplyStays(judge: Judge, invoke: ContextInvoke, codec: Codec, dep: Deployment, s: Accounts, tx: Transaction)
    requires Runs(judge, invoke, codec, dep) && Guarded(dep, s) && SupplyIsTotal(codec, dep, s)
    requires DistinctKeys(tx.proposals) && ExecuteTransaction(judge, tx, s).Ok?
    requires Guarded(dep, Apply(s, ExecuteTransaction(judge, tx, s).value))
    requires Balanced(codec, dep, s, tx) ==> LeavesSupply(codec, dep, s, tx)
    ensures SupplyIsTotal(codec, dep, Apply(s, ExecuteTransaction(judge, tx, s).value))
  {
    hide Balanced, LeavesSupply, SupplyIsTotal, Runs, DistinctKeys, ExecuteTransaction, Apply, ExpandCode;
    SupplyStaysTotalExactlyWhen(judge, invoke, codec, dep, s, tx);
  }

  // ---- Once the token is gone ----

  predicate CreatesToken(dep: Deployment, tx: Transaction) {
    exists i :: 0 <= i < |tx.proposals| && tx.proposals[i].addr == dep.token && tx.proposals[i].change.CreateAccount?
  }

  /** The addresses above the token, and what the trees of the accounts there refer to. */
  function Above(dep: Deployment, s: Accounts): set<Address> {
    (set a | a in Ancestors(dep.token)) +
    (set a, r | a in Ancestors(dep.token) && a in s && r in TreeRefs(s[a].predicates) :: r)
  }

  /** The transaction proposes nothing there. */
  predicate LeavesAbove(dep: Deployment, s: Accounts, tx: Transaction) {
    forall i :: 0 <= i < |tx.proposals| ==> tx.proposals[i].addr !in Above(dep, s)
  }

  /** Then the accounts above the token stay as indifferent as they were. */
  lemma IndifferentFrame(invoke: ContextInvoke, dep: Deployment, s: Accounts, t: Accounts)
    requires Indifferent(invoke, dep, s) && SameOn(s, t, Above(dep, s))
    ensures Indifferent(invoke, dep, t)
  {
    hide Passes, ExpandTree, TreeRefs;
    forall a, context: Context, calldata: Calldata
      | a in Ancestors(dep.token) && a in t && (forall x :: x in Ancestors(dep.token) ==> x !in context.proposals)
      ensures Lets(invoke, t, a, context, calldata)
    {
      assert a in Above(dep, s);
      assert Lookup(s, a) == Lookup(t, a);
      assert Lets(invoke, s, a, context, calldata);
      assert TreeRefs(s[a].predicates) <= Above(dep, s);
      ExpandTreeFrame(s, t, context, calldata, s[a].predicates);
    }
  }

  lemma AboveStays(dep: Deployment, s: Accounts, t: Accounts, tx: Transaction)
    requires DistinctKeys(tx.proposals) && Outputs(t, tx.proposals).Ok?
    requires SameOn(s, t, Above(dep, s)) && LeavesAbove(dep, s, tx)
    ensures SameOn(s, Apply(t, Outputs(t, tx.proposals).value), Above(dep, s))
  {
    hide Outputs, Above;
    var ps, d := tx.proposals, Outputs(t, tx.proposals).value;
    OutputsMeaning(t, ps);
    forall a | a in Above(dep, s) ensures Lookup(Apply(t, d), a) == Lookup(s, a) {
      assert a !in Keys(ps);
      assert Lookup(t, a) == Lookup(s, a);
    }
  }

  /** A balance account with this state, under a tree that asks nothing of anybody else. */
  function Coining(a: Address, coin: Bytes): Transaction {
    Transaction([], [Proposal(a, CreateAccount(Account(coin, Id(Predicate(InlineCode([]), [])))))])
  }

  function Child(token: Address, name: string): Address {
    token + "/" + name
  }

  lemma AncestorsOfChild(token: Address, name: string, a: Address)
    requires '/' !in name && a in Ancestors(Child(token, name))
    ensures a == token || a in Ancestors(token)
  {
    var c := Child(token, name);
    AncestorsAreParents(a, c);
    AncestorsAreParents(a, token);
    assert c[|a|] == '/';
    forall i | |token| < i < |c| ensures c[i] != '/' {
      assert c[i] == name[i - |token| - 1];
    }
    if |a| < |token| {
      var prefix := a + "/";
      assert prefix == c[..|prefix|];
      assert c[..|prefix|] == token[..|prefix|];
    } else {
      assert a == c[..|a|] == token;
    }
  }

  function Name(n: nat): (name: string)
    ensures |name| == n + 1 && forall i :: 0 <= i <= n ==> name[i] == 'a'
  {
    seq(n + 1, i => 'a')
  }

  lemma {:induction false} LongerThanAll(keys: set<Address>) returns (n: nat)
    ensures forall a :: a in keys ==> |a| < n
  {
    if keys == {} {
      n := 0;
    } else {
      var a :| a in keys;
      n := LongerThanAll(keys - {a});
      n := if |a| < n then n else |a| + 1;
    }
  }

  /** Below an address there is always one that is not taken. */
  lemma FreeChild(token: Address, taken: set<Address>) returns (name: string)
    ensures '/' !in name && name != "" && Child(token, name) !in taken
  {
    var n := LongerThanAll(taken);
    name := Name(n);
  }

  /** Where the token does not stand and nothing above it objects, balance accounts are created without any consent. */
  lemma CreationIsFree(judge: Judge, invoke: ContextInvoke, dep: Deployment, s: Accounts, name: string, coin: Bytes)
    requires Legal(judge, invoke) && Indifferent(invoke, dep, s) && dep.token !in s
    requires '/' !in name && Child(dep.token, name) !in s
    ensures var tx := Coining(Child(dep.token, name), coin);
            ExecuteTransaction(judge, tx, s).Ok? && Outputs(s, tx.proposals).Ok?
  {
    hide Legal, Indifferent, Passes, ExpandTree;
    var a := Child(dep.token, name);
    var tx := Coining(a, coin);
    var ps := tx.proposals;
    assert ps[..0] == [];
    assert Outputs(s, []) == Ok(EMPTY) && ExpandProposals(s, []) == Ok(map[]);
    var context := ContextOf(s, tx).value;
    var calldata := MergedCalldata(context.calldata);
    assert Visited([]) == [];
    assert Visited(ps) == [a] + Ancestors(a);
    forall x | x in Visited(ps) && x in s ensures Lets(invoke, s, x, context, calldata) {
      AncestorsOfChild(dep.token, name, x);
      NotAbove(dep.token, a);
      LetsPass(invoke, dep, s, x, context, calldata);
    }
    GatherMeaning(s, context, calldata, Visited(ps));
    AllLetPass(judge, invoke, tx, s, GatherInputs(s, tx).value);
  }

  lemma CoiningAdds(codec: Codec, dep: Deployment, s: Accounts, name: string, coin: Bytes)
    requires Child(dep.token, name) !in s
    ensures var tx := Coining(Child(dep.token, name), coin);
            && Outputs(s, tx.proposals).Ok? && DistinctKeys(tx.proposals)
            && Total(codec, dep.token, Apply(s, Outputs(s, tx.proposals).value)) ==
               Total(codec, dep.token, s) + Amount(codec, coin)
  {
    var a := Child(dep.token, name);
    var tx := Coining(a, coin);
    var ps := tx.proposals;
    assert ps[..0] == [];
    assert Outputs(s, []) == Ok(EMPTY) && ExpandProposals(s, []) == Ok(map[]);
    TotalMoves(codec, dep.token, s, tx);
    var c := ContextOf(s, tx).value.proposals;
    assert c == map[a := Created(ps[0].change.account)];
    SumOfNothing(c.Keys, Pre(codec, dep.token, c));
    assert IsParentOf(dep.token, a);
    SumRemove(c.Keys, Post(codec, dep.token, c), a);
    assert c.Keys - {a} == {};
  }

  lemma DeletionKeepsTotal(codec: Codec, dep: Deployment, s: Accounts)
    requires dep.token in s
    ensures Total(codec, dep.token, Apply(s, Diff(map[], {dep.token}))) == Total(codec, dep.token, s)
  {
    var tx := Sole(dep, DeleteAccount);
    var ps := tx.proposals;
    assert ps[..0] == [];
    assert Outputs(s, []) == Ok(EMPTY) && ExpandProposals(s, []) == Ok(map[]);
    assert Merge(EMPTY, Diff(map[], {dep.token})) == Diff(map[], {dep.token});
    TotalMoves(codec, dep.token, s, tx);
    var c := ContextOf(s, tx).value.proposals;
    assert c == map[dep.token := Deleted(s[dep.token])];
    assert !IsParentOf(dep.token, dep.token);
    SumOfNothing(c.Keys, Pre(codec, dep.token, c));
    SumOfNothing(c.Keys, Post(codec, dep.token, c));
  }

  /**
   * Two transactions that nobody signed mint: the first deletes the token with all balances outstanding, the second
   * creates a balance below it.
   */
  lemma UnsignedRunMints(judges: Judges, invoke: ContextInvoke, codec: Codec, dep: Deployment, s: Accounts, coin: Bytes)
    returns (txs: seq<Transaction>)
    requires AllRun(judges, invoke, codec, dep) && Guarded(dep, s) && Indifferent(invoke, dep, s)
    requires dep.token !in Above(dep, s)
    requires Supply(codec, dep, s).Some? && ExpandCode(s, dep.supplyGuard).Ok? && ExpandCode(s, dep.treeGuard).Ok?
    ensures AllDistinct(txs) && Unsigned(codec, dep, txs)
    ensures Total(codec, dep.token, RunAll(judges, s, txs)) == Total(codec, dep.token, s) + Amount(codec, coin)
  {
    hide ExecuteTransaction, Total, Amount, KeepsGuards, DistinctKeys, MintSigned, RunAll, Runs, AllRun, Guarded;
    hide ExpandCode, Supply, Indifferent, Above;
    RunsAt(judges, invoke, codec, dep, 0);
    RunsAt(judges, invoke, codec, dep, 1);
    var one, t := Sole(dep, DeleteAccount), Apply(s, Diff(map[], {dep.token}));
    DeletingIsAccepted(judges(0), invoke, codec, dep, s);
    assert dep.token in s by { GuardedStands(dep, s); }
    DeletionKeepsTotal(codec, dep, s);
    NobodySigned(codec, dep, one);
    IndifferentFrame(invoke, dep, s, t);
    var two := FreeCoin(judges(1), invoke, codec, dep, t, coin);
    txs := [one, two];
    RunOfTwo(judges, s, one, two);
  }

  lemma GuardedStands(dep: Deployment, s: Accounts)
    requires Guarded(dep, s)
    ensures dep.token in s
  {
  }

  lemma NobodySigned(codec: Codec, dep: Deployment, tx: Transaction)
    requires tx.intents == [] && |tx.proposals| == 1
    ensures !MintSigned(codec, dep.mint, tx) && DistinctKeys(tx.proposals)
  {
  }

  /** A transaction that nobody signed, that leaves the guards alone, is accepted, and mints. */
  lemma FreeCoin(judge: Judge, invoke: ContextInvoke, codec: Codec, dep: Deployment, s: Accounts, coin: Bytes)
    returns (tx: Transaction)
    requires Legal(judge, invoke) && Indifferent(invoke, dep, s) && dep.token !in s
    ensures !MintSigned(codec, dep.mint, tx) && DistinctKeys(tx.proposals) && KeepsGuards(dep, tx)
    ensures var r := ExecuteTransaction(judge, tx, s);
            r.Ok? && Total(codec, dep.token, Apply(s, r.value)) == Total(codec, dep.token, s) + Amount(codec, coin)
  {
    var name := FreeChild(dep.token, s.Keys + GuardCode(dep));
    tx := Coining(Child(dep.token, name), coin);
    CoiningKeepsGuards(dep, name, coin);
    NobodySigned(codec, dep, tx);
    hide Legal, Indifferent, Outputs, ExecuteTransaction, Child, Coining, Apply, Total, KeepsGuards, GuardCode;
    CreationIsFree(judge, invoke, dep, s, name, coin);
    CoiningAdds(codec, dep, s, name, coin);
    DiffIsOutput(judge, Coining(Child(dep.token, name), coin), s);
  }

  lemma RunOfTwo(judges: Judges, s: Accounts, one: Transaction, two: Transaction)
    requires ExecuteTransaction(judges(0), one, s).Ok?
    ensures var t := Apply(s, ExecuteTransaction(judges(0), one, s).value);
            ExecuteTransaction(judges(1), two, t).Ok? ==>
            RunAll(judges, s, [one, two]) == Apply(t, ExecuteTransaction(judges(1), two, t).value)
  {
    hide ExecuteTransaction, Apply;
    assert [one, two][..1] == [one] && [one][..0] == [];
    assert RunAll(judges, s, []) == s;
  }

  // ---- The exact conditions ----

  /** Every unsigned run from here that keeps the guards conserves the balances. */
  ghost predicate Conserving(invoke: ContextInvoke, codec: Codec, dep: Deployment, s: Accounts) {
    forall judges: Judges, more: seq<Transaction> ::
      (AllRun(judges, invoke, codec, dep) && AllDistinct(more) && Unsigned(codec, dep, more)
       && AllKeepGuards(dep, more)) ==>
        Wrap(Total(codec, dep.token, RunAll(judges, s, more))) == Wrap(Total(codec, dep.token, s))
  }

  /** No accepted transaction has deleted the token. */
  ghost predicate NotDeleted(judges: Judges, dep: Deployment, s: Accounts, txs: seq<Transaction>) {
    forall k: nat :: k < |txs| && AcceptedAt(judges, s, txs, k) ==> !DeletesToken(dep, txs[k])
  }

  /** The transaction leaves the code of the guards and what is above the token alone, and does not create the token. */
  predicate Aside(dep: Deployment, s: Accounts, tx: Transaction) {
    KeepsCode(dep, tx) && LeavesAbove(dep, s, tx) && !CreatesToken(dep, tx)
  }

  /** Along a run of such transactions the token is guarded until it is deleted, and gone from then on. */
  lemma {:induction false} GuardedUntilDeleted(judges: Judges, invoke: ContextInvoke, codec: Codec, dep: Deployment,
                                               s: Accounts, txs: seq<Transaction>)
    requires AllRun(judges, invoke, codec, dep) && Guarded(dep, s) && AllDistinct(txs)
    requires forall k :: 0 <= k < |txs| ==> Aside(dep, s, txs[k])
    ensures SameOn(s, RunAll(judges, s, txs), Above(dep, s))
    ensures if NotDeleted(judges, dep, s, txs) then Guarded(dep, RunAll(judges, s, txs))
            else dep.token !in RunAll(judges, s, txs)
  {
    hide ExecuteTransaction, KeepsCode, LeavesAbove, CreatesToken, DeletesToken, Apply, Runs, DistinctKeys, Above;
    if txs != [] {
      var front, last, judge := txs[..|txs| - 1], txs[|txs| - 1], judges(|txs| - 1);
      GuardedUntilDeleted(judges, invoke, codec, dep, s, front);
      var t := RunAll(judges, s, front);
      FrontNotDeleted(judges, dep, s, txs);
      if ExecuteTransaction(judge, last, t).Ok? {
        var d := ExecuteTransaction(judge, last, t).value;
        assert Outputs(t, last.proposals) == Ok(d) by { DiffIsOutput(judge, last, t); }
        AboveStays(dep, s, t, last);
        TokenAfter(dep, t, last);
        if NotDeleted(judges, dep, s, front) {
          StaysGuardedExactly(judge, invoke, codec, dep, t, last);
        }
      }
    }
  }

  lemma DiffIsOutput(judge: Judge, tx: Transaction, s: Accounts)
    requires ExecuteTransaction(judge, tx, s).Ok?
    ensures Outputs(s, tx.proposals) == Ok(ExecuteTransaction(judge, tx, s).value)
  {
    hide Outputs, ContextOf;
  }

  lemma FrontNotDeleted(judges: Judges, dep: Deployment, s: Accounts, txs: seq<Transaction>)
    requires txs != []
    ensures var front := txs[..|txs| - 1];
            NotDeleted(judges, dep, s, txs) <==>
            NotDeleted(judges, dep, s, front)
            && (AcceptedAt(judges, s, txs, |front|) ==> !DeletesToken(dep, txs[|front|]))
  {
    hide AcceptedAt, DeletesToken;
    var front := txs[..|txs| - 1];
    forall k: nat | k < |front|
      ensures front[k] == txs[k] && (AcceptedAt(judges, s, front, k) <==> AcceptedAt(judges, s, txs, k))
    {
      AcceptedInFront(judges, s, txs, k);
    }
  }

  lemma KeepersDoNotDisturb(judges: Judges, dep: Deployment, s: Accounts, txs: seq<Transaction>)
    requires AllKeepGuards(dep, txs)
    ensures Undisturbed(judges, dep, s, txs)
    ensures txs != [] ==> Undisturbed(judges, dep, s, txs[..|txs| - 1])
  {
    hide AcceptedAt, KeepsGuards;
  }

  lemma GuardedIsConserving(invoke: ContextInvoke, codec: Codec, dep: Deployment, s: Accounts)
    requires Guarded(dep, s)
    ensures Conserving(invoke, codec, dep, s)
  {
    hide AllRun, Guarded, AllDistinct, Unsigned, AllKeepGuards, Total, Wrap, RunAll, Undisturbed;
    forall judges: Judges, more: seq<Transaction>
      | AllRun(judges, invoke, codec, dep) && AllDistinct(more) && Unsigned(codec, dep, more)
        && AllKeepGuards(dep, more)
      ensures Wrap(Total(codec, dep.token, RunAll(judges, s, more))) == Wrap(Total(codec, dep.token, s))
    {
      KeepersDoNotDisturb(judges, dep, s, more);
      UnsignedRunConserves(judges, invoke, codec, dep, s, more);
    }
  }

  lemma DeletedIsNotConserving(judges: Judges, invoke: ContextInvoke, codec: Codec, dep: Deployment, s: Accounts,
                               coin: Bytes)
    requires AllRun(judges, invoke, codec, dep) && Indifferent(invoke, dep, s) && dep.token !in s
    requires Amount(codec, coin) > 0
    ensures !Conserving(invoke, codec, dep, s)
  {
    hide ExecuteTransaction, Apply, Total, Indifferent, Amount, KeepsGuards, DistinctKeys, MintSigned, RunAll;
    hide AllRun, Runs, Wrap, Conserving;
    RunsAt(judges, invoke, codec, dep, 0);
    var tx := FreeCoin(judges(0), invoke, codec, dep, s, coin);
    RunOfOne(judges, s, tx);
    CoinsCount(codec, Total(codec, dep.token, s), coin);
    RefutesConserving(judges, invoke, codec, dep, s, [tx]);
  }

  lemma RunsAt(judges: Judges, invoke: ContextInvoke, codec: Codec, dep: Deployment, i: nat)
    requires AllRun(judges, invoke, codec, dep)
    ensures Runs(judges(i), invoke, codec, dep) && Legal(judges(i), invoke)
  {
  }

  lemma CoinsCount(codec: Codec, total: int, coin: Bytes)
    requires Amount(codec, coin) > 0
    ensures Wrap(total + Amount(codec, coin)) != Wrap(total)
  {
    WrapMove(total, 0, Amount(codec, coin));
    WrapSmall(Amount(codec, coin));
    WrapSmall(0);
  }

  lemma RefutesConserving(judges: Judges, invoke: ContextInvoke, codec: Codec, dep: Deployment, s: Accounts,
                          more: seq<Transaction>)
    requires AllRun(judges, invoke, codec, dep) && AllDistinct(more) && Unsigned(codec, dep, more)
    requires AllKeepGuards(dep, more)
    requires Wrap(Total(codec, dep.token, RunAll(judges, s, more))) != Wrap(Total(codec, dep.token, s))
    ensures !Conserving(invoke, codec, dep, s)
  {
    hide AllRun, AllDistinct, Unsigned, AllKeepGuards, Wrap, Total, RunAll;
  }

  lemma RunOfOne(judges: Judges, s: Accounts, tx: Transaction)
    requires ExecuteTransaction(judges(0), tx, s).Ok?
    ensures RunAll(judges, s, [tx]) == Apply(s, ExecuteTransaction(judges(0), tx, s).value)
  {
    assert [tx][..0] == [];
    assert RunAll(judges, s, []) == s;
  }

  /** The accounts whose state is the code of the guards, where the guards refer to accounts. */
  function GuardCode(dep: Deployment): set<Address> {
    CodeRefs(dep.supplyGuard) + CodeRefs(dep.treeGuard)
  }

  lemma CoiningKeepsGuards(dep: Deployment, name: string, coin: Bytes)
    requires Child(dep.token, name) !in GuardCode(dep)
    ensures KeepsGuards(dep, Coining(Child(dep.token, name), coin))
  {
  }

  /**
   * The exact condition on the history of a token: over every run from a store in which it is guarded and no account
   * above it objects, and whose transactions leave the code of the guards and the accounts above alone and do not
   * create the token anew, the balances are safe from unsigned transactions that keep the guards exactly as long as the
   * token has not been deleted.
   */
  lemma ConservesUntilDeletedExactly(judges: Judges, invoke: ContextInvoke, codec: Codec, dep: Deployment, s: Accounts,
                                     txs: seq<Transaction>, coin: Bytes)
    requires AllRun(judges, invoke, codec, dep) && Guarded(dep, s) && Indifferent(invoke, dep, s) && AllDistinct(txs)
    requires Amount(codec, coin) > 0 && forall k :: 0 <= k < |txs| ==> Aside(dep, s, txs[k])
    ensures Conserving(invoke, codec, dep, RunAll(judges, s, txs)) <==> NotDeleted(judges, dep, s, txs)
  {
    hide AllRun, Guarded, Indifferent, AllDistinct, Aside, RunAll, Conserving, NotDeleted, Above;
    GuardedUntilDeleted(judges, invoke, codec, dep, s, txs);
    IndifferentFrame(invoke, dep, s, RunAll(judges, s, txs));
    if NotDeleted(judges, dep, s, txs) {
      GuardedIsConserving(invoke, codec, dep, RunAll(judges, s, txs));
    } else {
      DeletedIsNotConserving(judges, invoke, codec, dep, RunAll(judges, s, txs), coin);
    }
  }

  predicate InlineGuards(dep: Deployment) {
    dep.supplyGuard.code.InlineCode? && dep.treeGuard.code.InlineCode?
  }

  /** Every unsigned run from here conserves the balances, whatever it does. */
  ghost predicate ConservesAlways(invoke: ContextInvoke, codec: Codec, dep: Deployment, s: Accounts) {
    forall judges: Judges, txs: seq<Transaction> ::
      AllRun(judges, invoke, codec, dep) && AllDistinct(txs) && Unsigned(codec, dep, txs) ==>
        Wrap(Total(codec, dep.token, RunAll(judges, s, txs))) == Wrap(Total(codec, dep.token, s))
  }

  /** A token whose supply cannot be read is out of everybody's reach: nothing at or below it is ever accepted. */
  lemma {:induction false} UnreadableStays(judges: Judges, invoke: ContextInvoke, codec: Codec, dep: Deployment,
                                           s: Accounts, txs: seq<Transaction>)
    requires AllRun(judges, invoke, codec, dep) && Guarded(dep, s) && InlineGuards(dep) && AllDistinct(txs)
    requires Supply(codec, dep, s) == None
    ensures Lookup(RunAll(judges, s, txs), dep.token) == Lookup(s, dep.token)
    ensures Total(codec, dep.token, RunAll(judges, s, txs)) == Total(codec, dep.token, s)
  {
    hide ExecuteTransaction, Apply, Runs, DistinctKeys, Total, Concerns;
    if txs != [] {
      var front, last, judge := txs[..|txs| - 1], txs[|txs| - 1], judges(|txs| - 1);
      UnreadableStays(judges, invoke, codec, dep, s, front);
      var t := RunAll(judges, s, front);
      assert Guarded(dep, t);
      if ExecuteTransaction(judge, last, t).Ok? {
        if Concerns(dep, last) {
          GuardsAccept(judge, invoke, codec, dep, t, last);
          assert false;
        }
        DiffIsOutput(judge, last, t);
        UnconcernedStep(codec, dep, t, last);
      }
    }
  }

  /**
   * The exact condition for the claim that only the mint authority can change the sum of the balances, over all runs,
   * for a token under inline guards below accounts that neither object nor refer to it: it holds exactly if the supply
   * cannot be read, so that nobody can do anything with the token. In every other case two unsigned transactions mint.
   */
  lemma ConservesAlwaysExactly(invoke: ContextInvoke, codec: Codec, dep: Deployment, s: Accounts, coin: Bytes)
    requires WellDeployed(codec, dep) && Implements(invoke, codec, dep) && Guarded(dep, s)
    requires Indifferent(invoke, dep, s) && dep.token !in Above(dep, s) && InlineGuards(dep) && Amount(codec, coin) > 0
    ensures ConservesAlways(invoke, codec, dep, s) <==> Supply(codec, dep, s) == None
  {
    hide WellDeployed, Implements, Total, Wrap, RunAll, Indifferent, Above;
    if Supply(codec, dep, s) == None {
      forall judges: Judges, txs: seq<Transaction>
        | AllRun(judges, invoke, codec, dep) && AllDistinct(txs) && Unsigned(codec, dep, txs)
        ensures Wrap(Total(codec, dep.token, RunAll(judges, s, txs))) == Wrap(Total(codec, dep.token, s))
      {
        UnreadableStays(judges, invoke, codec, dep, s, txs);
      }
    } else {
      var judge := LegalJudgeExists(invoke);
      var judges: Judges := i => judge;
      var txs := UnsignedRunMints(judges, invoke, codec, dep, s, coin);
      CoinsCount(codec, Total(codec, dep.token, s), coin);
    }
  }

  // ---- Blocks ----

  lemma {:induction false} RunIsSerial(judges: Judges, s: Accounts, txs: seq<Transaction>, i: nat)
    requires i <= |txs|
    ensures RunAll(judges, s, txs[..i]) == Executor.SerialState(BlockExec(judges, txs), s, i)
  {
    hide ExecuteTransaction, Apply;
    if i > 0 {
      RunIsSerial(judges, s, txs, i - 1);
      assert txs[..i][..i - 1] == txs[..i - 1];
    }
  }

  /**
   * A block that is scheduled in parallel and holds no mint signature conserves the balances, up to and with the first
   * transaction that disturbs the guards, as its serial run does.
   */
  lemma ConsumedBlockConserves(judges: Judges, invoke: ContextInvoke, codec: Codec, dep: Deployment,
                               hash: Builder.HashOf, historyLen: nat, c: Builder.Chain, block: Builder.ChainBlock)
    requires c.recent != [] && historyLen > 0 && Schedulable(block.transactions, c.state)
    requires AllRun(judges, invoke, codec, dep) && Guarded(dep, c.state) && Unsigned(codec, dep, block.transactions)
    requires var txs := block.transactions; txs != [] ==> Undisturbed(judges, dep, c.state, txs[..|txs| - 1])
    ensures Wrap(Total(codec, dep.token, Builder.Consume(judges, hash, historyLen, c, block).state)) ==
            Wrap(Total(codec, dep.token, c.state))
  {
    hide AllRun, Runs, Guarded, Undisturbed, Unsigned, Total, Wrap, RunAll;
    if Builder.Check(hash, c.recent, block) == None {
      var txs := block.transactions;
      Builder.ConsumedBlockIsSerial(judges, hash, historyLen, c, block);
      RunIsSerial(judges, c.state, txs, |txs|);
      assert txs[..|txs|] == txs;
      UnsignedRunConserves(judges, invoke, codec, dep, c.state, txs);
    }
  }

  // ---- Chains of blocks ----

  /** The state of a chain is what running all its accepted transactions leaves. */
  lemma ChainIsRun(judging: Builder.Judging, hash: Builder.HashOf, historyLen: nat, c: Builder.Chain,
                   blocks: seq<Builder.ChainBlock>)
    requires c.recent != [] && historyLen > 0 && Builder.AllSchedulable(judging, hash, historyLen, c, blocks)
    ensures Builder.ConsumeAll(judging, hash, historyLen, c, blocks).state ==
            RunAll(Builder.ChainJudges(judging, hash, historyLen, c, blocks), c.state,
                   Builder.AcceptedTransactions(judging, hash, historyLen, c, blocks))
  {
    var txs := Builder.AcceptedTransactions(judging, hash, historyLen, c, blocks);
    var judges := Builder.ChainJudges(judging, hash, historyLen, c, blocks);
    hide Builder.ConsumeAll, Builder.ChainJudges, Builder.AcceptedTransactions, Builder.AllSchedulable, RunAll;
    Builder.ChainIsSerial(judging, hash, historyLen, c, blocks);
    RunIsSerial(judges, c.state, txs, |txs|);
    assert txs[..|txs|] == txs;
  }

  ghost predicate AllBlocksRun(judging: Builder.Judging, invoke: ContextInvoke, codec: Codec, dep: Deployment) {
    forall k: nat :: AllRun(judging(k), invoke, codec, dep)
  }

  lemma {:induction false} ChainJudgesRun(judging: Builder.Judging, invoke: ContextInvoke, codec: Codec,
                                          dep: Deployment, hash: Builder.HashOf, historyLen: nat, c: Builder.Chain,
                                          blocks: seq<Builder.ChainBlock>)
    requires c.recent != [] && historyLen > 0 && AllBlocksRun(judging, invoke, codec, dep)
    ensures AllRun(Builder.ChainJudges(judging, hash, historyLen, c, blocks), invoke, codec, dep)
  {
    hide Runs, Builder.AcceptedAt, Builder.ConsumeAll;
    if blocks == [] {
      assert AllRun(judging(0), invoke, codec, dep);
    } else {
      var front, last := blocks[..|blocks| - 1], |blocks| - 1;
      ChainJudgesRun(judging, invoke, codec, dep, hash, historyLen, c, front);
      Builder.AcceptedSnoc(judging, hash, historyLen, c, blocks);
      var n := |Builder.AcceptedTransactions(judging, hash, historyLen, c, front)|;
      forall i: nat ensures Runs(Builder.ChainJudges(judging, hash, historyLen, c, blocks)(i), invoke, codec, dep) {
        if i >= n {
          assert AllRun(judging(last), invoke, codec, dep);
          assert Runs(judging(last)(i - n), invoke, codec, dep);
        }
      }
    }
  }

  /** No run of blocks that is free of mint signatures changes the balances until the guards are disturbed. */
  lemma ChainConserves(judging: Builder.Judging, invoke: ContextInvoke, codec: Codec, dep: Deployment,
                       hash: Builder.HashOf, historyLen: nat, c: Builder.Chain, blocks: seq<Builder.ChainBlock>)
    requires c.recent != [] && historyLen > 0 && Builder.AllSchedulable(judging, hash, historyLen, c, blocks)
    requires AllBlocksRun(judging, invoke, codec, dep) && Guarded(dep, c.state)
    requires var txs := Builder.AcceptedTransactions(judging, hash, historyLen, c, blocks);
             && AllDistinct(txs) && Unsigned(codec, dep, txs)
             && (txs != [] ==> Undisturbed(Builder.ChainJudges(judging, hash, historyLen, c, blocks), dep, c.state,
                                           txs[..|txs| - 1]))
    ensures Wrap(Total(codec, dep.token, Builder.ConsumeAll(judging, hash, historyLen, c, blocks).state)) ==
            Wrap(Total(codec, dep.token, c.state))
  {
    hide *;
    ChainIsRun(judging, hash, historyLen, c, blocks);
    ChainJudgesRun(judging, invoke, codec, dep, hash, historyLen, c, blocks);
    UnsignedRunConserves(Builder.ChainJudges(judging, hash, historyLen, c, blocks), invoke, codec, dep, c.state,
                         Builder.AcceptedTransactions(judging, hash, historyLen, c, blocks));
  }

  /**
   * Over every undisturbed run of blocks whose balanced transactions leave the supply alone, it is the sum of balances.
   */
  lemma ChainKeepsSupply(judging: Builder.Judging, invoke: ContextInvoke, codec: Codec, dep: Deployment,
                         hash: Builder.HashOf, historyLen: nat, c: Builder.Chain, blocks: seq<Builder.ChainBlock>)
    requires c.recent != [] && historyLen > 0 && Builder.AllSchedulable(judging, hash, historyLen, c, blocks)
    requires AllBlocksRun(judging, invoke, codec, dep) && Guarded(dep, c.state) && SupplyIsTotal(codec, dep, c.state)
    requires var txs := Builder.AcceptedTransactions(judging, hash, historyLen, c, blocks);
             var judges := Builder.ChainJudges(judging, hash, historyLen, c, blocks);
             && AllDistinct(txs) && Undisturbed(judges, dep, c.state, txs)
             && (forall k: nat :: k < |txs| ==> RespectsSupply(judges, codec, dep, c.state, txs, k))
    ensures SupplyIsTotal(codec, dep, Builder.ConsumeAll(judging, hash, historyLen, c, blocks).state)
  {
    hide *;
    ChainIsRun(judging, hash, historyLen, c, blocks);
    ChainJudgesRun(judging, invoke, codec, dep, hash, historyLen, c, blocks);
    RunKeepsSupply(Builder.ChainJudges(judging, hash, historyLen, c, blocks), invoke, codec, dep, c.state,
                   Builder.AcceptedTransactions(judging, hash, historyLen, c, blocks));
  }
}
