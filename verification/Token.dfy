/** The token predicate and what it conserves. */
module Token {
  import opened Address
  import opened Collect
  import opened Execution
  import opened ExpressionTree
  import opened Primitives
  import opened Soundness
  import opened State
  import opened Sums
  import opened Wrappers

  type U64 = n: nat | n < TWO_TO_THE_64

  /** Reading serialized values and checking signatures. */
  datatype Codec = Codec(address: Bytes -> Option<Address>, key: Bytes -> Option<Bytes>, number: Bytes -> Option<U64>,
                         keyName: Bytes -> string, verifies: (Bytes, Hash, Bytes) -> bool)

  const PANIC := Crashes(0)

  // ---- The predicate ----

  /** Every balance the two sums look at can be read. */
  ghost predicate Readable(codec: Codec, token: Address, proposals: map<Address, ExpandedAccountChange>) {
    forall a :: a in proposals && IsParentOf(token, a) ==>
      match proposals[a]
      case Created(account) => codec.number(account.state).Some?
      case StateReplaced(current, proposed) => codec.number(current).Some? && codec.number(proposed).Some?
      case PredicatesReplaced(_, _) => true
      case Deleted(current) => codec.number(current.state).Some?
  }

  function Amount(codec: Codec, data: Bytes): nat {
    match codec.number(data)
    case None => 0
    case Some(n) => n
  }

  function Pre(codec: Codec, token: Address, proposals: map<Address, ExpandedAccountChange>): Address -> int {
    a =>
      if a !in proposals || !IsParentOf(token, a) then 0
      else match proposals[a]
        case StateReplaced(current, _) => Amount(codec, current)
        case Deleted(current) => Amount(codec, current.state)
        case _ => 0
  }

  function Post(codec: Codec, token: Address, proposals: map<Address, ExpandedAccountChange>): Address -> int {
    a =>
      if a !in proposals || !IsParentOf(token, a) then 0
      else match proposals[a]
        case Created(account) => Amount(codec, account.state)
        case StateReplaced(_, proposed) => Amount(codec, proposed)
        case _ => 0
  }

  ghost function PreSum(codec: Codec, token: Address, proposals: map<Address, ExpandedAccountChange>): int {
    SumOn(proposals.Keys, Pre(codec, token, proposals))
  }

  ghost function PostSum(codec: Codec, token: Address, proposals: map<Address, ExpandedAccountChange>): int {
    SumOn(proposals.Keys, Post(codec, token, proposals))
  }

  /** The two 64-bit folds over the proposals, in whatever order they are iterated, are these sums modulo 2^64. */
  lemma FoldsAreSums(codec: Codec, token: Address, proposals: map<Address, ExpandedAccountChange>, order: seq<Address>)
    requires Elements(order) == proposals.Keys && forall i, j :: 0 <= i < j < |order| ==> order[i] != order[j]
    ensures Fold(order, Pre(codec, token, proposals)) == Wrap(PreSum(codec, token, proposals))
    ensures Fold(order, Post(codec, token, proposals)) == Wrap(PostSum(codec, token, proposals))
  {
    FoldIsWrappedSum(order, Pre(codec, token, proposals));
    FoldIsWrappedSum(order, Post(codec, token, proposals));
  }

  ghost predicate SignedBy(codec: Codec, mint: Bytes, calldata: map<Hash, Calldata>) {
    exists hash :: hash in calldata && codec.keyName(mint) in calldata[hash]
                   && codec.verifies(mint, hash, calldata[hash][codec.keyName(mint)])
  }

  function SupplyMatches(codec: Codec, proposed: Bytes, expected: nat): Verdict {
    match codec.number(proposed)
    case None => PANIC
    case Some(n) => if n == expected then Accepts else Refuses
  }

  /** An imbalanced transaction that the mint authority signed: the supply has to follow. */
  function SupplyVerdict(codec: Codec, supply: nat, pre: nat, post: nat, change: ExpandedAccountChange): Verdict {
    var expected := Wrap(supply + post - pre);
    match change
    case Created(account) => if pre < post then SupplyMatches(codec, account.state, expected) else Refuses
    case StateReplaced(_, proposed) => SupplyMatches(codec, proposed, expected)
    case PredicatesReplaced(_, _) => Refuses
    case Deleted(_) => if pre < post || expected != 0 then Refuses else Accepts
  }

  ghost function SumsVerdict(codec: Codec, token: Address, mint: Bytes, supply: nat, context: Context): Verdict {
    if !Readable(codec, token, context.proposals) then PANIC
    else
      var pre := Wrap(PreSum(codec, token, context.proposals));
      var post := Wrap(PostSum(codec, token, context.proposals));
      if pre == post then Accepts
      else if !SignedBy(codec, mint, context.calldata) || token !in context.proposals then Refuses
      else SupplyVerdict(codec, supply, pre, post, context.proposals[token])
  }

  ghost function TokenVerdict(codec: Codec, params: seq<ExpandedParam>, context: Context): Verdict {
    if |params| != 3 then PANIC
    else
      match (codec.address(Data(params[0])), codec.key(Data(params[1])), params[2])
      case (Some(token), Some(mint), AccountState(addr, data)) =>
        if addr != token || codec.number(data).None? then PANIC
        else SumsVerdict(codec, token, mint, codec.number(data).value, context)
      case _ => PANIC
  }

  // ---- When the predicate accepts ----

  /** The balance that a change below the token adds to the first sum, and the one it adds to the second. */
  predicate BalancesCanBeRead(codec: Codec, change: ExpandedAccountChange) {
    match change
    case Created(account) => codec.number(account.state).Some?
    case StateReplaced(current, proposed) => codec.number(current).Some? && codec.number(proposed).Some?
    case PredicatesReplaced(_, _) => true
    case Deleted(account) => codec.number(account.state).Some?
  }

  /** The token account, as proposed, follows the balances: it exists with the expected supply, or ends with none. */
  predicate Follows(codec: Codec, change: ExpandedAccountChange, grows: bool, expected: nat) {
    match change
    case Created(account) => grows && codec.number(account.state) == Some(expected)
    case StateReplaced(_, proposed) => codec.number(proposed) == Some(expected)
    case PredicatesReplaced(_, _) => false
    case Deleted(_) => !grows && expected == 0
  }

  /**
   * The predicate accepts exactly if its parameters are the token, a key and the token's own state, all balances can be
   * read, and either the two sums are equal or the key has signed and the token follows: created when balances grow, or
   * replaced, with a supply changed by as much, or deleted when they do not grow and nothing is left.
   */
  lemma TokenAcceptsExactly(codec: Codec, params: seq<ExpandedParam>, context: Context)
    ensures TokenVerdict(codec, params, context) == Accepts <==>
            && |params| == 3 && codec.address(Data(params[0])).Some? && codec.key(Data(params[1])).Some?
            && var token, mint := codec.address(Data(params[0])).value, codec.key(Data(params[1])).value;
               var c := context.proposals;
               var pre, post := Wrap(PreSum(codec, token, c)), Wrap(PostSum(codec, token, c));
            && params[2].AccountState? && params[2].addr == token && codec.number(params[2].state).Some?
            && (forall a :: a in c && IsParentOf(token, a) ==> BalancesCanBeRead(codec, c[a]))
            && (|| pre == post
                || (&& token in c && SignedBy(codec, mint, context.calldata)
                    && Follows(codec, c[token], pre < post,
                               Wrap(codec.number(params[2].state).value + post - pre))))
  {
    hide PreSum, PostSum, SignedBy, Wrap;
    if |params| == 3 && codec.address(Data(params[0])).Some? && params[2].AccountState? {
      ReadableMeans(codec, codec.address(Data(params[0])).value, context.proposals);
    }
  }

  /** It crashes exactly if its parameters are not of this form or a number it needs cannot be read. */
  lemma TokenCrashesExactly(codec: Codec, params: seq<ExpandedParam>, context: Context)
    ensures TokenVerdict(codec, params, context).Crashes? <==>
            !(|params| == 3 && codec.address(Data(params[0])).Some? && codec.key(Data(params[1])).Some?
              && params[2].AccountState? && params[2].addr == codec.address(Data(params[0])).value
              && codec.number(params[2].state).Some?)
            || var token, mint := codec.address(Data(params[0])).value, codec.key(Data(params[1])).value;
               var c := context.proposals;
               var pre, post := Wrap(PreSum(codec, token, c)), Wrap(PostSum(codec, token, c));
               || (exists a :: a in c && IsParentOf(token, a) && !BalancesCanBeRead(codec, c[a]))
               || (&& pre != post && SignedBy(codec, mint, context.calldata) && token in c
                   && match c[token]
                      case Created(account) => pre < post && codec.number(account.state).None?
                      case StateReplaced(_, proposed) => codec.number(proposed).None?
                      case _ => false)
  {
    hide PreSum, PostSum, SignedBy, Wrap;
    if |params| == 3 && codec.address(Data(params[0])).Some? && params[2].AccountState? {
      ReadableMeans(codec, codec.address(Data(params[0])).value, context.proposals);
    }
  }

  lemma ReadableMeans(codec: Codec, token: Address, c: map<Address, ExpandedAccountChange>)
    ensures Readable(codec, token, c) <==>
            forall a :: a in c && IsParentOf(token, a) ==> BalancesCanBeRead(codec, c[a])
  {
    hide IsParentOf;
  }

  /** A valid signature in the calldata of an intent counts, if the digests of the intents differ. */
  lemma SignatureCounts(codec: Codec, mint: Bytes, s: Accounts, tx: Transaction)
    requires ContextOf(s, tx).Ok? && MintSigned(codec, mint, tx)
    requires forall j, k :: 0 <= j < k < |tx.intents| ==> tx.intents[j].hash != tx.intents[k].hash
    ensures SignedBy(codec, mint, ContextOf(s, tx).value.calldata)
  {
    hide ContextOf;
    var i :| 0 <= i < |tx.intents| && codec.keyName(mint) in tx.intents[i].calldata
             && codec.verifies(mint, tx.intents[i].hash, tx.intents[i].calldata[codec.keyName(mint)]);
    ContextHoldsCalldata(s, tx, i);
  }

  function ImmutableVerdict(codec: Codec, params: seq<ExpandedParam>, context: Context): Verdict {
    if |params| != 1 || codec.address(Data(params[0])).None? then PANIC
    else
      var target := codec.address(Data(params[0])).value;
      if target in context.proposals && context.proposals[target].PredicatesReplaced? then Refuses else Accepts
  }

  // ---- Balances in a store ----

  function Held(codec: Codec, token: Address, s: Accounts): Address -> int {
    a => if a in s && IsParentOf(token, a) then Amount(codec, s[a].state) else 0
  }

  /** All balances below the token. */
  ghost function Total(codec: Codec, token: Address, s: Accounts): int {
    SumOn(s.Keys, Held(codec, token, s))
  }

  lemma BalanceMoves(codec: Codec, token: Address, s: Accounts, t: Accounts, c: map<Address, ExpandedAccountChange>,
                     a: Address)
    requires if a in c then Shows(c[a], Lookup(s, a), Lookup(t, a)) else Lookup(t, a) == Lookup(s, a)
    ensures Held(codec, token, t)(a) + Pre(codec, token, c)(a) == Held(codec, token, s)(a) + Post(codec, token, c)(a)
  {
  }

  /**
   * What a diff does to the sum of all balances is what its expanded context shows, exactly and for every transaction.
   */
  lemma TotalMoves(codec: Codec, token: Address, s: Accounts, tx: Transaction)
    requires DistinctKeys(tx.proposals) && Outputs(s, tx.proposals).Ok?
    ensures ContextOf(s, tx).Ok?
    ensures var d, c := Outputs(s, tx.proposals).value, ContextOf(s, tx).value.proposals;
            Total(codec, token, Apply(s, d)) ==
            Total(codec, token, s) - PreSum(codec, token, c) + PostSum(codec, token, c)
  {
    hide Outputs, ContextOf, IsParentOf, Shows, Amount;
    ContextShowsDiff(s, tx);
    var d, c := Outputs(s, tx.proposals).value, ContextOf(s, tx).value.proposals;
    var t := Apply(s, d);
    var pre, post, before, after :=
        Pre(codec, token, c), Post(codec, token, c), Held(codec, token, s), Held(codec, token, t);
    var all := s.Keys + t.Keys + c.Keys;
    SumPad(s.Keys, all, before);
    SumPad(t.Keys, all, after);
    SumPad(c.Keys, all, pre);
    SumPad(c.Keys, all, post);
    forall a | a in all ensures after(a) + pre(a) == before(a) + post(a) {
      BalanceMoves(codec, token, s, t, c, a);
    }
    SumBalance(all, after, pre, before, post);
  }

  // ---- A token that stands in a store ----

  /** A token account, its mint key, and the two predicates that guard it with the programs they name. */
  datatype Deployment = Deployment(token: Address, mint: Bytes, supplyGuard: Predicate, treeGuard: Predicate,
                                   tokenProgram: (Bytes, string), immutableProgram: (Bytes, string))

  ghost predicate WellDeployed(codec: Codec, dep: Deployment) {
    && dep.token != ""
    && |dep.supplyGuard.params| == 3
    && dep.supplyGuard.params[0].InlineParam? && codec.address(dep.supplyGuard.params[0].data) == Some(dep.token)
    && dep.supplyGuard.params[1].InlineParam? && codec.key(dep.supplyGuard.params[1].data) == Some(dep.mint)
    && dep.supplyGuard.params[2] == AccountRef(dep.token)
    && |dep.treeGuard.params| == 1
    && dep.treeGuard.params[0].InlineParam? && codec.address(dep.treeGuard.params[0].data) == Some(dep.token)
  }

  ghost predicate Implements(invoke: ContextInvoke, codec: Codec, dep: Deployment) {
    && (forall context, params ::
          invoke(context, ExpandedPredicate(dep.tokenProgram.0, dep.tokenProgram.1, params)) ==
              TokenVerdict(codec, params, context))
    && (forall context, params ::
          invoke(context, ExpandedPredicate(dep.immutableProgram.0, dep.immutableProgram.1, params)) ==
          ImmutableVerdict(codec, params, context))
  }

  /** The token account exists under its two predicates, and their code, where it is referenced, is what it was. */
  predicate Guarded(dep: Deployment, s: Accounts) {
    && dep.token in s
    && s[dep.token].predicates == And(Id(dep.supplyGuard), Id(dep.treeGuard))
    && (ExpandCode(s, dep.supplyGuard).Ok? ==> ExpandCode(s, dep.supplyGuard).value == dep.tokenProgram)
    && (ExpandCode(s, dep.treeGuard).Ok? ==> ExpandCode(s, dep.treeGuard).value == dep.immutableProgram)
  }

  /** The transaction proposes the token account or an account below it. */
  ghost predicate Concerns(dep: Deployment, tx: Transaction) {
    exists i :: 0 <= i < |tx.proposals| &&
        (tx.proposals[i].addr == dep.token || IsParentOf(dep.token, tx.proposals[i].addr))
  }

  function Supply(codec: Codec, dep: Deployment, s: Accounts): Option<U64> {
    if dep.token in s then codec.number(s[dep.token].state) else None
  }

  /** The guards of a triggered token expand to calls of the two programs. */
  lemma GuardsExpand(codec: Codec, dep: Deployment, s: Accounts, context: Context, calldata: Calldata)
    returns (first: ExpandedPredicate, second: ExpandedPredicate)
    requires WellDeployed(codec, dep) && Guarded(dep, s)
    requires ExpandTree(s, context, calldata, s[dep.token].predicates).Ok?
    ensures ExpandTree(s, context, calldata, s[dep.token].predicates).value == And(Id(first), Id(second))
    ensures (first.code, first.entrypoint) == dep.tokenProgram
    ensures (second.code, second.entrypoint) == dep.immutableProgram
    ensures first.params == [Inlined(dep.supplyGuard.params[0].data), Inlined(dep.supplyGuard.params[1].data),
                             AccountState(dep.token, s[dep.token].state)]
    ensures second.params == [Inlined(dep.treeGuard.params[0].data)]
  {
    var op := PredicateExpander(s, context, calldata);
    var left, right: PredicateTree := Id(dep.supplyGuard), Id(dep.treeGuard);
    assert TryMap(And(left, right), op).Ok?;
    assert TryMap(left, op).Ok? && TryMap(right, op).Ok?;
    var l, r := op(dep.supplyGuard), op(dep.treeGuard);
    assert l.Ok? && r.Ok?;
    first, second := l.value, r.value;
    var f, g := ParamExpander(s, context, calldata, dep.supplyGuard),
        ParamExpander(s, context, calldata, dep.treeGuard);
    assert forall i :: 0 <= i < 3 ==> f(dep.supplyGuard.params[i]) == Ok(first.params[i]);
    assert g(dep.treeGuard.params[0]) == Ok(second.params[0]);
  }

  // ---- One accepted transaction ----

  ghost predicate MintSigned(codec: Codec, mint: Bytes, tx: Transaction) {
    exists i :: 0 <= i < |tx.intents| && codec.keyName(mint) in tx.intents[i].calldata
                && codec.verifies(mint, tx.intents[i].hash, tx.intents[i].calldata[codec.keyName(mint)])
  }

  lemma SignatureComesFromIntent(codec: Codec, mint: Bytes, s: Accounts, tx: Transaction)
    requires ContextOf(s, tx).Ok? && SignedBy(codec, mint, ContextOf(s, tx).value.calldata)
    ensures MintSigned(codec, mint, tx)
  {
    var calldata := CalldataByHash(tx.intents);
    var hash :| hash in calldata && codec.keyName(mint) in calldata[hash]
                && codec.verifies(mint, hash, calldata[hash][codec.keyName(mint)]);
    var i := CalldataByHashMeaning(tx.intents, hash);
    assert codec.keyName(mint) in tx.intents[i].calldata;
  }

  ghost predicate Runs(judge: Judge, invoke: ContextInvoke, codec: Codec, dep: Deployment) {
    Legal(judge, invoke) && WellDeployed(codec, dep) && Implements(invoke, codec, dep)
  }

  /**
   * An accepted transaction that proposes the token or anything below it has passed both guards, whatever else it
   * holds.
   */
  lemma GuardsAccept(judge: Judge, invoke: ContextInvoke, codec: Codec, dep: Deployment, s: Accounts, tx: Transaction)
    requires Runs(judge, invoke, codec, dep) && Guarded(dep, s)
    requires ExecuteTransaction(judge, tx, s).Ok? && Concerns(dep, tx)
    ensures ContextOf(s, tx).Ok? && Supply(codec, dep, s).Some?
    ensures var context := ContextOf(s, tx).value;
            && SumsVerdict(codec, dep.token, dep.mint, Supply(codec, dep, s).value, context) == Accepts
            && !(dep.token in context.proposals && context.proposals[dep.token].PredicatesReplaced?)
  {
    hide Traverse, Outputs, ContextOf, Gather, ExpandTree, SumsVerdict, Legal;
    var g := GatherInputs(s, tx).value;
    AccountTreesMeaning(s, g.context, tx, dep.token);
    var tree := g.accountTrees[dep.token];
    var first, second := GuardsExpand(codec, dep, s, g.context, MergedCalldata(g.context.calldata));
    assert tree == And(Id(first), Id(second));
    var truth := p => invoke(g.context, p).Accepts?;
    assert Triggers(g, tree);
    NothingExposed(first, second);
    AcceptedMeansTrue(judge, invoke, tx, s, g, tree, truth);
    BothHold(first, second, truth);
    assert invoke(g.context, first) == TokenVerdict(codec, first.params, g.context);
    assert invoke(g.context, second) == ImmutableVerdict(codec, second.params, g.context);
  }

  lemma NothingExposed(first: ExpandedPredicate, second: ExpandedPredicate)
    ensures !Exposed(And(Id(first), Id(second)), false)
  {
    assert !Exposed(Id(second), false);
  }

  lemma BothHold(first: ExpandedPredicate, second: ExpandedPredicate, truth: ExpandedPredicate -> bool)
    requires Holds(And(Id(first), Id(second)), truth)
    ensures truth(first) && truth(second)
  {
    assert Holds(Id(first), truth) && Holds(Id(second), truth);
  }

  /**
   * What acceptance leaves: either nothing was minted or burnt, or the mint authority signed and the supply follows.
   */
  ghost predicate Conserves(codec: Codec, dep: Deployment, s: Accounts, tx: Transaction, t: Accounts) {
    || Wrap(Total(codec, dep.token, t)) == Wrap(Total(codec, dep.token, s))
    || (&& MintSigned(codec, dep.mint, tx) && Supply(codec, dep, s).Some?
        && var moved := Wrap(Supply(codec, dep, s).value + Total(codec, dep.token, t) - Total(codec, dep.token, s));
           if dep.token in t then Supply(codec, dep, t) == Some(moved) else moved == 0)
  }

  lemma UnconcernedStep(codec: Codec, dep: Deployment, s: Accounts, tx: Transaction)
    requires DistinctKeys(tx.proposals) && Outputs(s, tx.proposals).Ok? && !Concerns(dep, tx)
    ensures var t := Apply(s, Outputs(s, tx.proposals).value);
            && Total(codec, dep.token, t) == Total(codec, dep.token, s)
            && Lookup(t, dep.token) == Lookup(s, dep.token)
  {
    hide Outputs, ContextOf, IsParentOf;
    TotalMoves(codec, dep.token, s, tx);
    ContextShowsDiff(s, tx);
    OutputsMeaning(s, tx.proposals);
    var c := ContextOf(s, tx).value.proposals;
    forall a | a in c ensures a != dep.token && !IsParentOf(dep.token, a) {
      var i :| 0 <= i < |tx.proposals| && tx.proposals[i].addr == a;
    }
    SumOfNothing(c.Keys, Pre(codec, dep.token, c));
    SumOfNothing(c.Keys, Post(codec, dep.token, c));
  }

  lemma ConcernedStep(judge: Judge, invoke: ContextInvoke, codec: Codec, dep: Deployment, s: Accounts, tx: Transaction)
    requires Runs(judge, invoke, codec, dep) && Guarded(dep, s) && Concerns(dep, tx)
    requires DistinctKeys(tx.proposals) && ExecuteTransaction(judge, tx, s).Ok?
    ensures var t := Apply(s, ExecuteTransaction(judge, tx, s).value);
            && Conserves(codec, dep, s, tx, t)
            && (dep.token in t ==> t[dep.token].predicates == s[dep.token].predicates)
  {
    hide Outputs, ContextOf, IsParentOf, Total, Wrap, SignedBy, MintSigned, Readable, PreSum, PostSum, DistinctKeys,
        Concerns, Runs, Shows;
    GuardsAccept(judge, invoke, codec, dep, s, tx);
    TotalMoves(codec, dep.token, s, tx);
    var context, t := ContextOf(s, tx).value, Apply(s, ExecuteTransaction(judge, tx, s).value);
    var c := context.proposals;
    TokenAsShown(dep, s, tx, t);
    var pre, post := PreSum(codec, dep.token, c), PostSum(codec, dep.token, c);
    WrapMove(Total(codec, dep.token, s), pre, post);
    if Wrap(pre) != Wrap(post) {
      SignatureComesFromIntent(codec, dep.mint, s, tx);
      SupplyFollows(Supply(codec, dep, s).value, pre, post);
    }
  }

  /** What the context says of the token account is what becomes of it. */
  lemma TokenAsShown(dep: Deployment, s: Accounts, tx: Transaction, t: Accounts)
    requires DistinctKeys(tx.proposals) && Outputs(s, tx.proposals).Ok? && ContextOf(s, tx).Ok? && dep.token in s
    requires t == Apply(s, Outputs(s, tx.proposals).value)
    ensures var c := ContextOf(s, tx).value.proposals;
            && (dep.token !in c ==> Lookup(t, dep.token) == Lookup(s, dep.token))
            && (dep.token in c ==>
                match c[dep.token]
                case StateReplaced(_, next) => Lookup(t, dep.token) == Some(Account(next, s[dep.token].predicates))
                case Deleted(_) => dep.token !in t
                case Created(_) => false
                case PredicatesReplaced(_, _) => true)
  {
    hide Outputs, ContextOf;
    ContextShowsDiff(s, tx);
    var c := ContextOf(s, tx).value.proposals;
    assert dep.token in c ==> Shows(c[dep.token], Lookup(s, dep.token), Lookup(t, dep.token));
  }

  /**
   * Every accepted transaction, however its predicates were scheduled: the sum of all balances below the token, in
   * 64-bit arithmetic, changes only under a signature of the mint authority, and then the supply changes by as much.
   * The tree that guards the token stays.
   */
  lemma AcceptedConserves(judge: Judge, invoke: ContextInvoke, codec: Codec, dep: Deployment, s: Accounts,
                          tx: Transaction)
    requires Runs(judge, invoke, codec, dep) && Guarded(dep, s)
    requires DistinctKeys(tx.proposals) && ExecuteTransaction(judge, tx, s).Ok?
    ensures var t := Apply(s, ExecuteTransaction(judge, tx, s).value);
            && Conserves(codec, dep, s, tx, t)
            && (dep.token in t ==> t[dep.token].predicates == s[dep.token].predicates)
  {
    hide Outputs, Total, Concerns, Runs;
    if Concerns(dep, tx) {
      ConcernedStep(judge, invoke, codec, dep, s, tx);
    } else {
      UnconcernedStep(codec, dep, s, tx);
    }
  }

  lemma SupplyFollows(supply: nat, pre: int, post: int)
    ensures Wrap(supply + Wrap(post) - Wrap(pre)) == Wrap(supply + post - pre)
  {
    var q, r := post / TWO_TO_THE_64, pre / TWO_TO_THE_64;
    assert supply + post - pre == TWO_TO_THE_64 * (q - r) + (supply + Wrap(post) - Wrap(pre));
    WrapShift(supply + Wrap(post) - Wrap(pre), q - r);
  }

  // ---- Supply and balances ----

  ghost predicate SupplyIsTotal(codec: Codec, dep: Deployment, s: Accounts) {
    Supply(codec, dep, s) == Some(Wrap(Total(codec, dep.token, s)))
  }

  /** The two sums of the transaction are equal in 64-bit arithmetic. */
  ghost predicate Balanced(codec: Codec, dep: Deployment, s: Accounts, tx: Transaction) {
    ContextOf(s, tx).Ok?
    && var c := ContextOf(s, tx).value.proposals;
       Wrap(PreSum(codec, dep.token, c)) == Wrap(PostSum(codec, dep.token, c))
  }

  /**
   * A proposal for the token account, if there is one, that replaces its state puts a supply of the same value there.
   */
  predicate LeavesSupply(codec: Codec, dep: Deployment, s: Accounts, tx: Transaction) {
    && Supply(codec, dep, s).Some?
    && forall i :: 0 <= i < |tx.proposals| && tx.proposals[i].addr == dep.token ==>
         match tx.proposals[i].change
         case ReplaceState(state) => codec.number(state) == Supply(codec, dep, s)
         case DeleteAccount => false
         case _ => true
  }

  lemma LeavesSupplyMeans(codec: Codec, dep: Deployment, s: Accounts, tx: Transaction)
    requires DistinctKeys(tx.proposals) && Outputs(s, tx.proposals).Ok? && Supply(codec, dep, s).Some?
    ensures var t := Apply(s, Outputs(s, tx.proposals).value);
            LeavesSupply(codec, dep, s, tx) <==> Supply(codec, dep, t) == Supply(codec, dep, s)
  {
    hide Outputs, Wrap;
    var ps, t := tx.proposals, Apply(s, Outputs(s, tx.proposals).value);
    OutputsSucceeds(s, ps);
    OutputsMeaning(s, ps);
    if i :| 0 <= i < |ps| && ps[i].addr == dep.token {
      assert Lookup(t, ps[i].addr) == After(s, ps[i]);
      assert forall j :: 0 <= j < |ps| && ps[j].addr == dep.token ==> j == i;
    } else {
      assert dep.token !in Keys(ps);
    }
  }

  /**
   * "Total supply is the sum of all balances" survives an accepted transaction exactly if a balanced one leaves the
   * supply account alone; an imbalanced one that does not delete the token always keeps it.
   */
  lemma SupplyStaysTotalExactlyWhen(judge: Judge, invoke: ContextInvoke, codec: Codec, dep: Deployment, s: Accounts,
                                    tx: Transaction)
    requires Runs(judge, invoke, codec, dep) && Guarded(dep, s) && SupplyIsTotal(codec, dep, s)
    requires DistinctKeys(tx.proposals) && ExecuteTransaction(judge, tx, s).Ok?
    ensures var t := Apply(s, ExecuteTransaction(judge, tx, s).value);
            && (Balanced(codec, dep, s, tx) ==> (SupplyIsTotal(codec, dep, t) <==> LeavesSupply(codec, dep, s, tx)))
            && (!Balanced(codec, dep, s, tx) ==>
                  if dep.token in t then SupplyIsTotal(codec, dep, t) else Wrap(Total(codec, dep.token, t)) == 0)
  {
    hide Outputs, ContextOf, Total, Wrap, MintSigned, PreSum, PostSum, LeavesSupply, DistinctKeys, Runs, Guarded;
    AcceptedConserves(judge, invoke, codec, dep, s, tx);
    TotalMoves(codec, dep.token, s, tx);
    var t := Apply(s, ExecuteTransaction(judge, tx, s).value);
    var c := ContextOf(s, tx).value.proposals;
    var before, after := Total(codec, dep.token, s), Total(codec, dep.token, t);
    WrapMove(before, PreSum(codec, dep.token, c), PostSum(codec, dep.token, c));
    LeavesSupplyMeans(codec, dep, s, tx);
    WrapTwice(Supply(codec, dep, s).value, before, after);
  }

  lemma WrapTwice(supply: nat, before: int, after: int)
    requires supply == Wrap(before)
    ensures Wrap(supply + after - before) == Wrap(after)
  {
    WrapAdd(before, after - before);
  }

  // ---- Transactions about the token account alone ----

  /**
   * Nothing in the predicates protects the token account in a balanced transaction: a proposal for that account alone
   * passes, whether it rewrites the supply or deletes the token with balances outstanding.
   */
  lemma TokenAloneIsBalanced(codec: Codec, params: seq<ExpandedParam>, context: Context, change: ExpandedAccountChange)
    requires |params| == 3 && params[2].AccountState? && codec.address(Data(params[0])) == Some(params[2].addr)
    requires codec.key(Data(params[1])).Some? && codec.number(params[2].state).Some?
    requires context.proposals == map[params[2].addr := change]
    ensures TokenVerdict(codec, params, context) == Accepts
  {
    var token := params[2].addr;
    assert !IsParentOf(token, token);
    SumOfNothing(context.proposals.Keys, Pre(codec, token, context.proposals));
    SumOfNothing(context.proposals.Keys, Post(codec, token, context.proposals));
  }

  /** One proposal for the token account; there is no intent, and so no signature. */
  function Sole(dep: Deployment, change: AccountChange): Transaction {
    Transaction([], [Proposal(dep.token, change)])
  }

  // ---- Accounts above the token ----

  /** Nothing in the tree crashes, and it is true. */
  ghost predicate Passes(invoke: ContextInvoke, context: Context, tree: ExpandedTree) {
    && (forall p :: p in Leaves(tree) ==> !invoke(context, p).Crashes?)
    && Holds(tree, p => invoke(context, p).Accepts?)
  }

  /** The account lets a transaction with this context pass. */
  ghost predicate Lets(invoke: ContextInvoke, s: Accounts, a: Address, context: Context, calldata: Calldata)
    requires a in s
  {
    var tree := ExpandTree(s, context, calldata, s[a].predicates);
    tree.Ok? && Passes(invoke, context, tree.value)
  }

  /** The accounts above the token, if there are any, let every transaction pass that leaves them alone. */
  ghost predicate Indifferent(invoke: ContextInvoke, dep: Deployment, s: Accounts) {
    forall a, context: Context, calldata: Calldata ::
      a in Ancestors(dep.token) && a in s && (forall x :: x in Ancestors(dep.token) ==> x !in context.proposals) ==>
        Lets(invoke, s, a, context, calldata)
  }

  /**
   * As do accounts that only protect themselves: under a tree of the two predicates that make state and tree immutable.
   */
  lemma ImmutableParentsAreIndifferent(invoke: ContextInvoke, codec: Codec, dep: Deployment, s: Accounts,
                                       stateProgram: (Bytes, string), treeProgram: (Bytes, string))
    requires forall a :: a in Ancestors(dep.token) && a in s ==> Immutable(codec, s, a, stateProgram, treeProgram)
    requires forall context, params ::
               invoke(context, ExpandedPredicate(stateProgram.0, stateProgram.1, params)) ==
                 ImmutableStateVerdict(codec, params, context)
    requires forall context, params ::
               invoke(context, ExpandedPredicate(treeProgram.0, treeProgram.1, params)) ==
                 ImmutableVerdict(codec, params, context)
    ensures Indifferent(invoke, dep, s)
  {
    forall a, context: Context, calldata: Calldata
      | a in Ancestors(dep.token) && a in s && (forall x :: x in Ancestors(dep.token) ==> x !in context.proposals)
      ensures Lets(invoke, s, a, context, calldata)
    {
      ImmutableLets(invoke, codec, s, a, context, calldata, stateProgram, treeProgram);
    }
  }

  /** Such an account lets pass exactly what proposes neither a new state nor a new tree for it. */
  lemma ImmutableLets(invoke: ContextInvoke, codec: Codec, s: Accounts, a: Address, context: Context,
                      calldata: Calldata, stateProgram: (Bytes, string), treeProgram: (Bytes, string))
    requires a in s && Immutable(codec, s, a, stateProgram, treeProgram)
    requires forall context, params ::
               invoke(context, ExpandedPredicate(stateProgram.0, stateProgram.1, params)) ==
                 ImmutableStateVerdict(codec, params, context)
    requires forall context, params ::
               invoke(context, ExpandedPredicate(treeProgram.0, treeProgram.1, params)) ==
                 ImmutableVerdict(codec, params, context)
    ensures Lets(invoke, s, a, context, calldata) <==>
            a !in context.proposals || context.proposals[a].Created? || context.proposals[a].Deleted?
  {
    var l, r := s[a].predicates.left.leaf, s[a].predicates.right.leaf;
    var first := ExpandOne(s, context, calldata, l);
    var second := ExpandOne(s, context, calldata, r);
    var one, two := ImmutableStateVerdict(codec, first.params, context),
        ImmutableVerdict(codec, second.params, context);
    assert invoke(context, first) == one && invoke(context, second) == two;
    assert one == Accepts && two == Accepts <==>
           a !in context.proposals || context.proposals[a].Created? || context.proposals[a].Deleted?;
    PairPasses(invoke, context, first, second);
    hide Passes, ExpandCode, ExpandPredicate, ImmutableStateVerdict, ImmutableVerdict;
    PairExpands(s, context, calldata, l, r, first, second);
    assert s[a].predicates == And(Id(l), Id(r));
  }

  lemma PairExpands(s: Accounts, context: Context, calldata: Calldata, l: Predicate, r: Predicate,
                    first: ExpandedPredicate, second: ExpandedPredicate)
    requires PredicateExpander(s, context, calldata)(l) == Ok(first)
    requires PredicateExpander(s, context, calldata)(r) == Ok(second)
    ensures ExpandTree(s, context, calldata, And(Id(l), Id(r))) == Ok(And(Id(first), Id(second)))
  {
    var op := PredicateExpander(s, context, calldata);
    var left, right: PredicateTree := Id(l), Id(r);
    assert TryMap(left, op) == Ok(Id(first)) && TryMap(right, op) == Ok(Id(second));
  }

  function ImmutableStateVerdict(codec: Codec, params: seq<ExpandedParam>, context: Context): Verdict {
    if |params| != 1 || codec.address(Data(params[0])).None? then PANIC
    else
      var target := codec.address(Data(params[0])).value;
      if target in context.proposals && context.proposals[target].StateReplaced? then Refuses else Accepts
  }

  /** The account stands under both predicates, each with its own address, and their code is there. */
  predicate Immutable(codec: Codec, s: Accounts, a: Address, stateProgram: (Bytes, string),
                      treeProgram: (Bytes, string))
    requires a in s
  {
    var tree := s[a].predicates;
    && tree.And? && tree.left.Id? && tree.right.Id?
    && Protects(codec, s, tree.left.leaf, a, stateProgram) && Protects(codec, s, tree.right.leaf, a, treeProgram)
  }

  predicate Protects(codec: Codec, s: Accounts, pred: Predicate, a: Address, program: (Bytes, string)) {
    && |pred.params| == 1 && pred.params[0].InlineParam? && codec.address(pred.params[0].data) == Some(a)
    && ExpandCode(s, pred) == Ok(program)
  }

  lemma ExpandOne(s: Accounts, context: Context, calldata: Calldata, pred: Predicate) returns (p: ExpandedPredicate)
    requires |pred.params| == 1 && pred.params[0].InlineParam? && ExpandCode(s, pred).Ok?
    ensures PredicateExpander(s, context, calldata)(pred) == Ok(p)
    ensures (p.code, p.entrypoint) == ExpandCode(s, pred).value && p.params == [Inlined(pred.params[0].data)]
  {
    var f := ParamExpander(s, context, calldata, pred);
    AllTraverse(pred.params, f);
    var params := Traverse(pred.params, f).value;
    assert f(pred.params[0]) == Ok(params[0]);
    p := ExpandedPredicate(ExpandCode(s, pred).value.0, ExpandCode(s, pred).value.1, params);
  }

  lemma PairPasses(invoke: ContextInvoke, context: Context, first: ExpandedPredicate, second: ExpandedPredicate)
    ensures Passes(invoke, context, And(Id(first), Id(second))) <==>
            invoke(context, first) == Accepts && invoke(context, second) == Accepts
  {
    var tree, left, right: ExpandedTree := And(Id(first), Id(second)), Id(first), Id(second);
    assert Leaves(left) == [first] && Leaves(right) == [second];
    assert Leaves(tree) == [first, second];
    var truth := p => invoke(context, p).Accepts?;
    assert Holds(tree, truth) <==> Holds(left, truth) && Holds(right, truth);
  }

  /** A transaction that no intent accompanies and that every account lets pass is accepted, however it is judged. */
  lemma AllLetPass(judge: Judge, invoke: ContextInvoke, tx: Transaction, s: Accounts, g: Gathering)
    requires Legal(judge, invoke) && GatherInputs(s, tx) == Ok(g) && g.intentTrees == []
    requires forall a :: a in g.accountTrees ==> Passes(invoke, g.context, g.accountTrees[a])
    ensures ExecuteTransaction(judge, tx, s) == Ok(g.diff)
  {
    hide Legal, GatherInputs, Holds;
    forall tree | Triggers(g, tree) ensures Passes(invoke, g.context, tree) {
    }
    CrashFreeAcceptance(judge, invoke, tx, s);
    forall tree | Triggers(g, tree) ensures Holds(tree, p => InvokeIn(invoke, g.context)(p).Accepts?) {
      var inv := InvokeIn(invoke, g.context);
      assert forall p :: inv(p) == invoke(g.context, p);
      HoldsAlike(tree, p => invoke(g.context, p).Accepts?, p => InvokeIn(invoke, g.context)(p).Accepts?);
    }
  }

  // ---- What nobody has to consent to ----

  lemma NotAbove(token: Address, a: Address)
    requires |a| >= |token|
    ensures a !in Ancestors(token)
  {
    AncestorsAreParents(a, token);
  }

  lemma SoleGathers(invoke: ContextInvoke, codec: Codec, dep: Deployment, s: Accounts, change: AccountChange)
    requires WellDeployed(codec, dep) && Guarded(dep, s) && Indifferent(invoke, dep, s) && !change.CreateAccount?
    requires ExpandCode(s, dep.supplyGuard).Ok? && ExpandCode(s, dep.treeGuard).Ok?
    ensures var tx := Sole(dep, change);
            && GatherInputs(s, tx).Ok? && ExpandChange(s, tx.proposals[0]).Ok?
            && var g := GatherInputs(s, tx).value;
            && g.diff == Single(dep.token, After(s, tx.proposals[0]))
            && g.context.proposals == map[dep.token := ExpandChange(s, tx.proposals[0]).value]
            && g.intentTrees == [] && dep.token in g.accountTrees
            && Ok(g.accountTrees[dep.token]) ==
               ExpandTree(s, g.context, MergedCalldata(g.context.calldata), s[dep.token].predicates)
            && forall a :: a in g.accountTrees && a != dep.token ==> Passes(invoke, g.context, g.accountTrees[a])
  {
    hide ExpandTree, Indifferent, Passes;
    var tx := Sole(dep, change);
    var ps := tx.proposals;
    assert ps[..0] == [];
    assert Outputs(s, []) == Ok(EMPTY) && ExpandProposals(s, []) == Ok(map[]);
    assert Merge(EMPTY, Single(dep.token, After(s, ps[0]))) == Single(dep.token, After(s, ps[0]));
    var context := ContextOf(s, tx).value;
    var calldata := MergedCalldata(context.calldata);
    assert Visited([]) == [];
    assert Visited(ps) == [dep.token] + Ancestors(dep.token);
    GuardsCanExpand(codec, dep, s, context, calldata);
    forall a | a in Ancestors(dep.token) && a in s ensures Lets(invoke, s, a, context, calldata) {
      NotAbove(dep.token, dep.token);
      LetsPass(invoke, dep, s, a, context, calldata);
    }
    GatherMeaning(s, context, calldata, Visited(ps));
    assert dep.token in Visited(ps);
  }

  lemma LetsPass(invoke: ContextInvoke, dep: Deployment, s: Accounts, a: Address, context: Context, calldata: Calldata)
    requires Indifferent(invoke, dep, s) && a in Ancestors(dep.token) && a in s
    requires forall x :: x in Ancestors(dep.token) ==> x !in context.proposals
    ensures Lets(invoke, s, a, context, calldata)
  {
    hide Lets;
  }

  lemma GuardsCanExpand(codec: Codec, dep: Deployment, s: Accounts, context: Context, calldata: Calldata)
    requires WellDeployed(codec, dep) && Guarded(dep, s) && ExpandCode(s, dep.supplyGuard).Ok?
    requires ExpandCode(s, dep.treeGuard).Ok?
    ensures ExpandTree(s, context, calldata, s[dep.token].predicates).Ok?
  {
    var f, g := ParamExpander(s, context, calldata, dep.supplyGuard),
        ParamExpander(s, context, calldata, dep.treeGuard);
    AllTraverse(dep.supplyGuard.params, f);
    AllTraverse(dep.treeGuard.params, g);
    var op := PredicateExpander(s, context, calldata);
    assert op(dep.supplyGuard).Ok? && op(dep.treeGuard).Ok?;
    var left, right: PredicateTree := Id(dep.supplyGuard), Id(dep.treeGuard);
    assert TryMap(left, op).Ok? && TryMap(right, op).Ok?;
  }

  lemma AllTraverse(params: seq<Param>, f: Param -> Result<ExpandedParam, CollectError>)
    requires forall i :: 0 <= i < |params| ==> f(params[i]).Ok?
    ensures Traverse(params, f).Ok?
  {
  }

  lemma SoleIsAccepted(judge: Judge, invoke: ContextInvoke, codec: Codec, dep: Deployment, s: Accounts,
                       change: AccountChange)
    requires Runs(judge, invoke, codec, dep) && Guarded(dep, s) && Indifferent(invoke, dep, s)
    requires Supply(codec, dep, s).Some? && ExpandCode(s, dep.supplyGuard).Ok? && ExpandCode(s, dep.treeGuard).Ok?
    requires change.ReplaceState? || change.DeleteAccount?
    ensures ExecuteTransaction(judge, Sole(dep, change), s) ==
            Ok(Single(dep.token, After(s, Proposal(dep.token, change))))
  {
    var tx := Sole(dep, change);
    SoleGathers(invoke, codec, dep, s, change);
    hide GatherInputs, Legal, ExpandTree, TokenVerdict, Passes, Indifferent;
    var g := GatherInputs(s, tx).value;
    var first, second := GuardsExpand(codec, dep, s, g.context, MergedCalldata(g.context.calldata));
    TokenAloneIsBalanced(codec, first.params, g.context, ExpandChange(s, tx.proposals[0]).value);
    assert invoke(g.context, first) == TokenVerdict(codec, first.params, g.context);
    assert invoke(g.context, second) == ImmutableVerdict(codec, second.params, g.context);
    PairPasses(invoke, g.context, first, second);
    AllLetPass(judge, invoke, tx, s, g);
  }

  /**
   * One proposal for the token account, with no intent and no signature, is accepted in every interleaving and leaves
   * whatever state it proposes.
   */
  lemma RewritingIsAccepted(judge: Judge, invoke: ContextInvoke, codec: Codec, dep: Deployment, s: Accounts,
                            proposed: Bytes)
    requires Runs(judge, invoke, codec, dep) && Guarded(dep, s) && Indifferent(invoke, dep, s)
    requires Supply(codec, dep, s).Some? && ExpandCode(s, dep.supplyGuard).Ok? && ExpandCode(s, dep.treeGuard).Ok?
    ensures var r := ExecuteTransaction(judge, Sole(dep, ReplaceState(proposed)), s);
            r.Ok? && dep.token in Apply(s, r.value) && Apply(s, r.value)[dep.token].state == proposed
  {
    hide Runs, Guarded, Indifferent, ExpandCode, ExecuteTransaction;
    SoleIsAccepted(judge, invoke, codec, dep, s, ReplaceState(proposed));
  }

  /** So is the deletion of the token account, whatever balances are outstanding: their sums are equal, both zero. */
  lemma DeletingIsAccepted(judge: Judge, invoke: ContextInvoke, codec: Codec, dep: Deployment, s: Accounts)
    requires Runs(judge, invoke, codec, dep) && Guarded(dep, s) && Indifferent(invoke, dep, s)
    requires Supply(codec, dep, s).Some? && ExpandCode(s, dep.supplyGuard).Ok? && ExpandCode(s, dep.treeGuard).Ok?
    ensures ExecuteTransaction(judge, Sole(dep, DeleteAccount), s) == Ok(Diff(map[], {dep.token}))
  {
    hide Runs, Guarded, Indifferent, ExpandCode, ExecuteTransaction;
    SoleIsAccepted(judge, invoke, codec, dep, s, DeleteAccount);
  }
}
