/** When a transaction that touches a token is accepted, and what minting and burning then do. */
module Minting {
  import opened Acceptance
  import opened Address
  import opened Collect
  import opened Execution
  import opened ExpressionTree
  import opened Primitives
  import opened State
  import opened Sums
  import opened Token
  import opened Wrappers

  /** Whatever else has a say about the transaction lets it pass, without a crash. */
  ghost predicate OthersAgree(invoke: ContextInvoke, s: Accounts, context: Context, tx: Transaction, token: Address) {
    && (forall i :: 0 <= i < |tx.intents| ==>
          var tree := IntentTree(s, context, tx.intents[i]);
          Agreed(invoke, context, tree) && Calm(invoke, context, tree))
    && (forall a :: a in s && a != token && Consulted(tx, a) ==>
          var tree := AccountTree(s, context, a);
          Agreed(invoke, context, tree) && Calm(invoke, context, tree))
  }

  /** The transaction leaves the tree of the token alone, and balances and supply obey the rule of the token. */
  ghost predicate ObeysToken(codec: Codec, dep: Deployment, s: Accounts, context: Context) {
    && var c := context.proposals;
       var pre, post := Wrap(PreSum(codec, dep.token, c)), Wrap(PostSum(codec, dep.token, c));
    && Supply(codec, dep, s).Some? && !(dep.token in c && c[dep.token].PredicatesReplaced?)
    && (forall a :: a in c && IsParentOf(dep.token, a) ==> BalancesCanBeRead(codec, c[a]))
    && (|| pre == post
        || (&& dep.token in c && SignedBy(codec, dep.mint, context.calldata)
            && Token.Follows(codec, c[dep.token], pre < post, Wrap(Supply(codec, dep, s).value + post - pre))))
  }

  /**
   * A transaction that proposes the token or something below it, and that all others let pass, is accepted, in every
   * order and interleaving, exactly if it obeys the rule of the token.
   */
  lemma TokenDecides(judge: Judge, invoke: ContextInvoke, codec: Codec, dep: Deployment, s: Accounts, tx: Transaction)
    requires Runs(judge, invoke, codec, dep) && Guarded(dep, s) && Concerns(dep, tx)
    requires ExpandCode(s, dep.supplyGuard).Ok? && ExpandCode(s, dep.treeGuard).Ok?
    requires Outputs(s, tx.proposals).Ok? && ContextOf(s, tx).Ok?
    requires OthersAgree(invoke, s, ContextOf(s, tx).value, tx, dep.token)
    ensures ExecuteTransaction(judge, tx, s).Ok? <==> ObeysToken(codec, dep, s, ContextOf(s, tx).value)
  {
    var context := ContextOf(s, tx).value;
    if ExecuteTransaction(judge, tx, s).Ok? {
      GuardsAccept(judge, invoke, codec, dep, s, tx);
      RuleIs(codec, dep, s, context);
    }
    if ObeysToken(codec, dep, s, context) {
      hide Outputs, ContextOf, OthersAgree, ObeysToken, Guarded;
      TokenAgrees(invoke, codec, dep, s, context);
      EverybodyAgrees(invoke, s, context, tx, dep.token);
      AcceptedExactly(judge, invoke, tx, s);
    }
  }

  lemma RuleIs(codec: Codec, dep: Deployment, s: Accounts, context: Context)
    requires Supply(codec, dep, s).Some?
    requires SumsVerdict(codec, dep.token, dep.mint, Supply(codec, dep, s).value, context) == Accepts
    requires !(dep.token in context.proposals && context.proposals[dep.token].PredicatesReplaced?)
    ensures ObeysToken(codec, dep, s, context)
  {
    hide PreSum, PostSum, SignedBy, Wrap;
    ReadableMeans(codec, dep.token, context.proposals);
  }

  /** Then both guards of the token accept. */
  lemma TokenAgrees(invoke: ContextInvoke, codec: Codec, dep: Deployment, s: Accounts, context: Context)
    requires WellDeployed(codec, dep) && Implements(invoke, codec, dep) && Guarded(dep, s)
    requires ExpandCode(s, dep.supplyGuard).Ok? && ExpandCode(s, dep.treeGuard).Ok?
    requires ObeysToken(codec, dep, s, context)
    ensures dep.token in s && Agreed(invoke, context, AccountTree(s, context, dep.token))
    ensures Calm(invoke, context, AccountTree(s, context, dep.token))
  {
    hide ExpandTree, PreSum, PostSum, SignedBy, Wrap, TokenVerdict;
    var calldata := MergedCalldata(context.calldata);
    GuardsCanExpand(codec, dep, s, context, calldata);
    var first, second := GuardsExpand(codec, dep, s, context, calldata);
    TokenAcceptsExactly(codec, first.params, context);
    assert invoke(context, first) == TokenVerdict(codec, first.params, context);
    assert invoke(context, second) == ImmutableVerdict(codec, second.params, context);
    PairPasses(invoke, context, first, second);
    var inv := InvokeIn(invoke, context);
    assert forall p :: inv(p) == invoke(context, p);
    HoldsAlike(And(Id(first), Id(second)), p => invoke(context, p).Accepts?,
               p => InvokeIn(invoke, context)(p).Accepts?);
  }

  lemma EverybodyAgrees(invoke: ContextInvoke, s: Accounts, context: Context, tx: Transaction, token: Address)
    requires OthersAgree(invoke, s, context, tx, token) && token in s
    requires Agreed(invoke, context, AccountTree(s, context, token))
    requires Calm(invoke, context, AccountTree(s, context, token))
    ensures AllAgree(invoke, s, context, tx) && AllCalm(invoke, s, context, tx)
  {
    hide Agreed, Calm, Consulted, IntentTree, AccountTree;
  }

  /**
   * Minting and burning: with a signature of the mint authority, and a proposed supply that follows the balances, the
   * transaction is accepted, and both the sum of all balances and the supply move by what it adds and takes away.
   */
  lemma MintOrBurnIsAccepted(judge: Judge, invoke: ContextInvoke, codec: Codec, dep: Deployment, s: Accounts,
                             tx: Transaction, k: nat, supply: Bytes)
    requires Runs(judge, invoke, codec, dep) && Guarded(dep, s) && Supply(codec, dep, s).Some?
    requires ExpandCode(s, dep.supplyGuard).Ok? && ExpandCode(s, dep.treeGuard).Ok?
    requires DistinctKeys(tx.proposals) && Outputs(s, tx.proposals).Ok? && ContextOf(s, tx).Ok?
    requires OthersAgree(invoke, s, ContextOf(s, tx).value, tx, dep.token)
    requires forall i, j :: 0 <= i < j < |tx.intents| ==> tx.intents[i].hash != tx.intents[j].hash
    requires MintSigned(codec, dep.mint, tx)
    requires k < |tx.proposals| && tx.proposals[k] == Proposal(dep.token, ReplaceState(supply))
    requires var c := ContextOf(s, tx).value.proposals;
             && (forall a :: a in c && IsParentOf(dep.token, a) ==> BalancesCanBeRead(codec, c[a]))
             && codec.number(supply) ==
                Some(Wrap(Supply(codec, dep, s).value + PostSum(codec, dep.token, c) - PreSum(codec, dep.token, c)))
    ensures ExecuteTransaction(judge, tx, s).Ok?
    ensures var c, t := ContextOf(s, tx).value.proposals, Apply(s, ExecuteTransaction(judge, tx, s).value);
            && Total(codec, dep.token, t) ==
               Total(codec, dep.token, s) + PostSum(codec, dep.token, c) - PreSum(codec, dep.token, c)
            && Supply(codec, dep, t) ==
               Some(Wrap(Supply(codec, dep, s).value + Total(codec, dep.token, t) - Total(codec, dep.token, s)))
  {
    hide Outputs, ContextOf, IsParentOf, Total, Wrap, SignedBy, MintSigned, PreSum, PostSum, OthersAgree, Guarded,
         ObeysToken, Supply, Runs, ExecuteTransaction, Concerns;
    SignatureCounts(codec, dep.mint, s, tx);
    ProposalShown(codec, dep, s, tx, k);
    FollowingObeys(codec, dep, s, ContextOf(s, tx).value);
    TokenDecides(judge, invoke, codec, dep, s, tx);
    AcceptedDiff(judge, tx, s);
    TotalMoves(codec, dep.token, s, tx);
  }

  /** A signed replacement of the state by the number that follows from the balances obeys the rule. */
  lemma FollowingObeys(codec: Codec, dep: Deployment, s: Accounts, context: Context)
    requires Supply(codec, dep, s).Some? && SignedBy(codec, dep.mint, context.calldata)
    requires var c := context.proposals;
             && (forall a :: a in c && IsParentOf(dep.token, a) ==> BalancesCanBeRead(codec, c[a]))
             && dep.token in c && c[dep.token].StateReplaced?
             && codec.number(c[dep.token].proposedState) ==
                Some(Wrap(Supply(codec, dep, s).value + PostSum(codec, dep.token, c) - PreSum(codec, dep.token, c)))
    ensures ObeysToken(codec, dep, s, context)
  {
    hide IsParentOf, Wrap, SignedBy, PreSum, PostSum, Supply;
    SupplyFollows(Supply(codec, dep, s).value, PreSum(codec, dep.token, context.proposals),
                  PostSum(codec, dep.token, context.proposals));
  }

  lemma AcceptedDiff(judge: Judge, tx: Transaction, s: Accounts)
    requires ExecuteTransaction(judge, tx, s).Ok?
    ensures Outputs(s, tx.proposals) == Ok(ExecuteTransaction(judge, tx, s).value)
  {
    hide Outputs, ContextOf;
  }

  /** The context shows the proposal for the token account, and its state is what is proposed afterwards. */
  lemma ProposalShown(codec: Codec, dep: Deployment, s: Accounts, tx: Transaction, k: nat)
    requires DistinctKeys(tx.proposals) && Outputs(s, tx.proposals).Ok? && ContextOf(s, tx).Ok?
    requires k < |tx.proposals| && tx.proposals[k].addr == dep.token && tx.proposals[k].change.ReplaceState?
    ensures Concerns(dep, tx)
    ensures var c, state := ContextOf(s, tx).value.proposals, tx.proposals[k].change.state;
            && dep.token in c && c[dep.token].StateReplaced? && c[dep.token].proposedState == state
            && Supply(codec, dep, Apply(s, Outputs(s, tx.proposals).value)) == codec.number(state)
  {
    hide Outputs;
    OutputsMeaning(s, tx.proposals);
    OutputsSucceeds(s, tx.proposals);
    ExpandProposalsMeaning(s, tx.proposals);
    assert Lookup(Apply(s, Outputs(s, tx.proposals).value), tx.proposals[k].addr) == After(s, tx.proposals[k]);
    ShownKind(s, tx.proposals, k);
  }

  /** An account under the predicates that make it immutable lets a transaction pass iff it at most deletes it. */
  lemma ImmutableExactly(invoke: ContextInvoke, codec: Codec, s: Accounts, tx: Transaction, a: Address,
                         calldata: Calldata, stateProgram: (Bytes, string), treeProgram: (Bytes, string))
    requires a in s && Immutable(codec, s, a, stateProgram, treeProgram)
    requires forall context, params ::
               invoke(context, ExpandedPredicate(stateProgram.0, stateProgram.1, params)) ==
                 ImmutableStateVerdict(codec, params, context)
    requires forall context, params ::
               invoke(context, ExpandedPredicate(treeProgram.0, treeProgram.1, params)) ==
                 ImmutableVerdict(codec, params, context)
    requires DistinctKeys(tx.proposals) && Outputs(s, tx.proposals).Ok? && ContextOf(s, tx).Ok?
    ensures Lets(invoke, s, a, ContextOf(s, tx).value, calldata) <==>
            forall k :: 0 <= k < |tx.proposals| && tx.proposals[k].addr == a ==> tx.proposals[k].change.DeleteAccount?
  {
    hide Outputs, Lets, Immutable, ImmutableStateVerdict, ImmutableVerdict;
    var ps, context := tx.proposals, ContextOf(s, tx).value;
    ImmutableLets(invoke, codec, s, a, context, calldata, stateProgram, treeProgram);
    OutputsSucceeds(s, ps);
    ExpandProposalsMeaning(s, ps);
    forall k: nat | k < |ps| && ps[k].addr == a
      ensures a in context.proposals && (context.proposals[a].Deleted? <==> ps[k].change.DeleteAccount?)
      ensures !context.proposals[a].Created?
    {
      ShownKind(s, ps, k);
    }
  }

  lemma {:induction false} ShownKind(s: Accounts, ps: seq<Proposal>, k: nat)
    requires DistinctKeys(ps) && ExpandProposals(s, ps).Ok? && k < |ps|
    ensures ps[k].addr in ExpandProposals(s, ps).value
    ensures Ok(ExpandProposals(s, ps).value[ps[k].addr]) == ExpandChange(s, ps[k])
  {
    var front := ps[..|ps| - 1];
    if k < |front| {
      ShownKind(s, front, k);
      assert front[k] == ps[k];
    }
  }
}
