/** Gathering what a transaction needs: its proposed diff, its context and its expanded predicate trees. */
module Collect {
  import opened Address
  import opened ExpressionTree
  import opened Primitives
  import opened State
  import opened Wrappers

  // ---- The proposed diff ----

  predicate Admissible(s: Accounts, p: Proposal) {
    p.change.CreateAccount? <==> p.addr !in s
  }

  /** The account a proposal leaves behind; `None` when it deletes it. */
  function After(s: Accounts, p: Proposal): Option<Account>
    requires Admissible(s, p)
  {
    match p.change
    case CreateAccount(account) => Some(account)
    case ReplaceState(state) => Some(Account(state, s[p.addr].predicates))
    case ReplacePredicates(predicates) => Some(Account(s[p.addr].state, predicates))
    case DeleteAccount => None
  }

  function Refusal(p: Proposal): CollectError {
    if p.change.CreateAccount? then AccountAlreadyExists(p.addr) else AccountDoesNotExist(p.addr)
  }

  function Single(a: Address, after: Option<Account>): Diff {
    match after
    case Some(account) => Diff(map[a := account], {})
    case None => Diff(map[], {a})
  }

  function Outputs(s: Accounts, ps: seq<Proposal>): Result<Diff, CollectError> {
    if ps == [] then Ok(EMPTY)
    else
      var d :- Outputs(s, ps[..|ps| - 1]);
      var p := ps[|ps| - 1];
      if Admissible(s, p) then Ok(Merge(d, Single(p.addr, After(s, p)))) else Err(Refusal(p))
  }

  method CollectOutputs(s: Accounts, tx: Transaction) returns (r: Result<Diff, CollectError>)
    ensures r == Outputs(s, tx.proposals)
  {
    var output := new StateDiff();
    var ps := tx.proposals;
    for i := 0 to |ps|
      invariant output.View().Disjoint()
      invariant Outputs(s, ps[..i]) == Ok(output.View())
    {
      var addr := ps[i].addr;
      OutputsExtends(s, ps, i);
      match ps[i].change {
        case CreateAccount(account) =>
          if addr in s {
            return Err(AccountAlreadyExists(addr));
          }
          var _ := output.Set(addr, account);
        case ReplaceState(state) =>
          if addr !in s {
            return Err(AccountDoesNotExist(addr));
          }
          var _ := output.Set(addr, Account(state, s[addr].predicates));
        case ReplacePredicates(predicates) =>
          if addr !in s {
            return Err(AccountDoesNotExist(addr));
          }
          var _ := output.Set(addr, Account(s[addr].state, predicates));
        case DeleteAccount =>
          if addr !in s {
            return Err(AccountDoesNotExist(addr));
          }
          var _ := output.Remove(addr);
      }
    }
    assert ps[..|ps|] == ps;
    return Ok(Diff(output.upserts, output.deletes));
  }

  /** One more proposal; and once a proposal has been refused, nothing later matters. */
  lemma {:induction false} OutputsExtends(s: Accounts, ps: seq<Proposal>, i: nat)
    requires i < |ps|
    ensures Outputs(s, ps[..i + 1]) ==
            match Outputs(s, ps[..i])
            case Err(e) => Err(e)
            case Ok(d) => if Admissible(s, ps[i]) then Ok(Merge(d, Single(ps[i].addr, After(s, ps[i]))))
                else Err(Refusal(ps[i]))
    ensures Outputs(s, ps[..i + 1]).Err? ==> Outputs(s, ps) == Outputs(s, ps[..i + 1])
    decreases |ps|
  {
    assert ps[..i + 1][..i] == ps[..i];
    if i + 1 < |ps| {
      var front := ps[..|ps| - 1];
      OutputsExtends(s, front, i);
      assert front[..i] == ps[..i] && front[..i + 1] == ps[..i + 1];
    } else {
      assert ps[..i + 1] == ps;
    }
  }

  /** It succeeds exactly when every proposal is admissible; otherwise the first that is not names the error. */
  lemma {:induction false} OutputsSucceeds(s: Accounts, ps: seq<Proposal>)
    ensures Outputs(s, ps).Ok? <==> forall i :: 0 <= i < |ps| ==> Admissible(s, ps[i])
    ensures Outputs(s, ps).Err? ==>
            exists i :: 0 <= i < |ps| && !Admissible(s, ps[i]) && Outputs(s, ps) == Err(Refusal(ps[i]))
                        && forall j :: 0 <= j < i ==> Admissible(s, ps[j])
    ensures forall i :: 0 <= i < |ps| ==>
        (Admissible(s, ps[i]) <==> (ps[i].change.CreateAccount? <==> ps[i].addr !in s))
    ensures forall i :: 0 <= i < |ps| && !Admissible(s, ps[i]) ==>
              Refusal(ps[i]) == if ps[i].addr in s then AccountAlreadyExists(ps[i].addr)
                                else AccountDoesNotExist(ps[i].addr)
  {
    if ps != [] {
      var front := ps[..|ps| - 1];
      OutputsSucceeds(s, front);
      assert forall i :: 0 <= i < |front| ==> front[i] == ps[i];
      if Outputs(s, front).Ok? && Outputs(s, ps).Err? {
        assert !Admissible(s, ps[|ps| - 1]);
      } else if Outputs(s, front).Err? {
        var i :| 0 <= i < |front| && !Admissible(s, front[i]) && Outputs(s, front) == Err(Refusal(front[i]))
                 && forall j :: 0 <= j < i ==> Admissible(s, front[j]);
        assert !Admissible(s, ps[i]);
      }
    }
  }

  /** A successful diff touches exactly the proposed addresses and leaves at each what was proposed. */
  lemma OutputsMeaning(s: Accounts, ps: seq<Proposal>)
    requires DistinctKeys(ps) && Outputs(s, ps).Ok?
    ensures var d := Outputs(s, ps).value;
            && d.Disjoint() && d.Touched() == Keys(ps)
            && forall i :: 0 <= i < |ps| ==> Admissible(s, ps[i]) && Lookup(Apply(s, d), ps[i].addr) == After(s, ps[i])
  {
    hide Outputs, Admissible, After, Apply, DistinctKeys;
    OutputsTouch(s, ps);
    forall i | 0 <= i < |ps|
      ensures Admissible(s, ps[i]) && Lookup(Apply(s, Outputs(s, ps).value), ps[i].addr) == After(s, ps[i])
    {
      OutputsAt(s, ps, i);
    }
  }

  lemma {:induction false} OutputsTouch(s: Accounts, ps: seq<Proposal>)
    requires Outputs(s, ps).Ok?
    ensures Outputs(s, ps).value.Disjoint() && Outputs(s, ps).value.Touched() == Keys(ps)
  {
    if ps != [] {
      hide Outputs;
      OutputsSnoc(s, ps);
      OutputsTouch(s, ps[..|ps| - 1]);
      KeysSnoc(ps);
    }
  }

  lemma {:induction false} OutputsAt(s: Accounts, ps: seq<Proposal>, i: nat)
    requires DistinctKeys(ps) && Outputs(s, ps).Ok? && i < |ps|
    ensures Admissible(s, ps[i]) && Lookup(Apply(s, Outputs(s, ps).value), ps[i].addr) == After(s, ps[i])
  {
    hide Outputs, Admissible, After, Apply, Merge, Single;
    var front, p := ps[..|ps| - 1], ps[|ps| - 1];
    OutputsSnoc(s, ps);
    OutputsTouch(s, front);
    SingleMeaning(s, Outputs(s, front).value, p.addr, After(s, p), ps[i].addr);
    if i < |front| {
      OutputsAt(s, front, i);
    }
  }

  lemma OutputsSnoc(s: Accounts, ps: seq<Proposal>)
    requires ps != [] && Outputs(s, ps).Ok?
    ensures var front, p := ps[..|ps| - 1], ps[|ps| - 1];
            && Outputs(s, front).Ok? && Admissible(s, p)
            && Outputs(s, ps).value == Merge(Outputs(s, front).value, Single(p.addr, After(s, p)))
  {
  }

  lemma SingleMeaning(s: Accounts, d: Diff, a: Address, account: Option<Account>, b: Address)
    requires d.Disjoint()
    ensures Lookup(Apply(s, Merge(d, Single(a, account))), b) == if b == a then account else Lookup(Apply(s, d), b)
  {
    MergeThenApply(s, d, Single(a, account));
  }

  // ---- The context ----

  function ExpandChange(s: Accounts, p: Proposal): Result<ExpandedAccountChange, CollectError> {
    match p.change
    case CreateAccount(account) => Ok(Created(account))
    case ReplaceState(state) =>
      if p.addr in s then Ok(StateReplaced(s[p.addr].state, state)) else Err(AccountDoesNotExist(p.addr))
    case ReplacePredicates(predicates) =>
      if p.addr in s then Ok(PredicatesReplaced(s[p.addr].predicates, predicates)) else Err(AccountDoesNotExist(p.addr))
    case DeleteAccount =>
      if p.addr in s then Ok(Deleted(s[p.addr])) else Err(AccountDoesNotExist(p.addr))
  }

  function ExpandProposals(s: Accounts, ps: seq<Proposal>): Result<map<Address, ExpandedAccountChange>, CollectError> {
    if ps == [] then Ok(map[])
    else
      var m :- ExpandProposals(s, ps[..|ps| - 1]);
      var c :- ExpandChange(s, ps[|ps| - 1]);
      Ok(m[ps[|ps| - 1].addr := c])
  }

  function CalldataByHash(intents: seq<Intent>): map<Hash, Calldata> {
    if intents == [] then map[]
    else CalldataByHash(intents[..|intents| - 1])[intents[|intents| - 1].hash := intents[|intents| - 1].calldata]
  }

  function ContextOf(s: Accounts, tx: Transaction): Result<Context, CollectError> {
    var proposals :- ExpandProposals(s, tx.proposals);
    Ok(Context(CalldataByHash(tx.intents), proposals))
  }

  lemma {:induction false} ExpandProposalsExtends(s: Accounts, ps: seq<Proposal>, i: nat)
    requires i < |ps|
    ensures ExpandProposals(s, ps[..i + 1]) ==
            if ExpandProposals(s, ps[..i]).Err? then ExpandProposals(s, ps[..i])
            else if ExpandChange(s, ps[i]).Err? then Err(ExpandChange(s, ps[i]).error)
            else Ok(ExpandProposals(s, ps[..i]).value[ps[i].addr := ExpandChange(s, ps[i]).value])
    ensures ExpandProposals(s, ps[..i + 1]).Err? ==> ExpandProposals(s, ps) == ExpandProposals(s, ps[..i + 1])
    decreases |ps|
  {
    assert ps[..i + 1][..i] == ps[..i];
    if i + 1 < |ps| {
      var front := ps[..|ps| - 1];
      ExpandProposalsExtends(s, front, i);
      assert front[..i] == ps[..i] && front[..i + 1] == ps[..i + 1];
    } else {
      assert ps[..i + 1] == ps;
    }
  }

  method PredicateContext(s: Accounts, tx: Transaction) returns (r: Result<Context, CollectError>)
    ensures r == ContextOf(s, tx)
  {
    var calldata: map<Hash, Calldata> := map[];
    for i := 0 to |tx.intents|
      invariant calldata == CalldataByHash(tx.intents[..i])
    {
      assert tx.intents[..i + 1][..i] == tx.intents[..i];
      calldata := calldata[tx.intents[i].hash := tx.intents[i].calldata];
    }
    var proposals: map<Address, ExpandedAccountChange> := map[];
    for i := 0 to |tx.proposals|
      invariant ExpandProposals(s, tx.proposals[..i]) == Ok(proposals)
    {
      ExpandProposalsExtends(s, tx.proposals, i);
      var change := ExpandChange(s, tx.proposals[i]);
      if change.Err? {
        return Err(change.error);
      }
      proposals := proposals[tx.proposals[i].addr := change.value];
    }
    assert tx.intents[..|tx.intents|] == tx.intents && tx.proposals[..|tx.proposals|] == tx.proposals;
    return Ok(Context(calldata, proposals));
  }

  /** An expanded change shows the account as it is and as the diff will leave it. */
  ghost predicate Shows(change: ExpandedAccountChange, before: Option<Account>, after: Option<Account>) {
    match change
    case Created(account) => before == None && after == Some(account)
    case StateReplaced(current, proposed) =>
      && before.Some? && before.value.state == current
      && after == Some(Account(proposed, before.value.predicates))
    case PredicatesReplaced(current, proposed) =>
      && before.Some? && before.value.predicates == current
      && after == Some(Account(before.value.state, proposed))
    case Deleted(current) => before == Some(current) && after == None
  }

  lemma {:induction false} ExpandProposalsMeaning(s: Accounts, ps: seq<Proposal>)
    requires DistinctKeys(ps) && forall i :: 0 <= i < |ps| ==> Admissible(s, ps[i])
    ensures ExpandProposals(s, ps).Ok? && ExpandProposals(s, ps).value.Keys == Keys(ps)
    ensures forall i :: 0 <= i < |ps| ==>
              ps[i].addr in ExpandProposals(s, ps).value
              && Shows(ExpandProposals(s, ps).value[ps[i].addr], Lookup(s, ps[i].addr), After(s, ps[i]))
  {
    if ps != [] {
      var front, p := ps[..|ps| - 1], ps[|ps| - 1];
      assert forall i :: 0 <= i < |front| ==> front[i] == ps[i];
      ExpandProposalsMeaning(s, front);
      KeysSnoc(ps);
      var m, change := ExpandProposals(s, front).value, ExpandChange(s, p).value;
      assert Shows(change, Lookup(s, p.addr), After(s, p));
      forall i | 0 <= i < |ps|
        ensures ps[i].addr in m[p.addr := change]
        ensures Shows(m[p.addr := change][ps[i].addr], Lookup(s, ps[i].addr), After(s, ps[i]))
      {
        if i < |front| {
          assert front[i].addr != p.addr;
        }
      }
    }
  }

  /** Predicates see exactly the changes the diff will make: the same accounts, with the values before and after. */
  lemma ContextShowsDiff(s: Accounts, tx: Transaction)
    requires DistinctKeys(tx.proposals) && Outputs(s, tx.proposals).Ok?
    ensures ContextOf(s, tx).Ok?
    ensures var d, c := Outputs(s, tx.proposals).value, ContextOf(s, tx).value.proposals;
            && c.Keys == d.Touched()
            && forall a :: a in c ==> Shows(c[a], Lookup(s, a), Lookup(Apply(s, d), a))
  {
    OutputsSucceeds(s, tx.proposals);
    OutputsMeaning(s, tx.proposals);
    ExpandProposalsMeaning(s, tx.proposals);
    var ps := tx.proposals;
    var d, c := Outputs(s, ps).value, ContextOf(s, tx).value.proposals;
    forall a | a in c ensures Shows(c[a], Lookup(s, a), Lookup(Apply(s, d), a)) {
      var i :| 0 <= i < |ps| && ps[i].addr == a;
      assert Shows(c[ps[i].addr], Lookup(s, ps[i].addr), After(s, ps[i]));
    }
  }

  /** The context has a digest exactly if an intent has it, and then the calldata of the last such intent. */
  lemma {:induction false} CalldataByHashMeaning(intents: seq<Intent>, hash: Hash) returns (i: nat)
    ensures if hash in CalldataByHash(intents)
            then i < |intents| && intents[i].hash == hash && intents[i].calldata == CalldataByHash(intents)[hash]
                 && forall j :: i < j < |intents| ==> intents[j].hash != hash
            else forall j :: 0 <= j < |intents| ==> intents[j].hash != hash
  {
    i := 0;
    if intents != [] {
      var last := |intents| - 1;
      i := CalldataByHashMeaning(intents[..last], hash);
      if intents[last].hash == hash {
        i := last;
      }
    }
  }

  /** Predicates find the calldata of every intent under its digest, if digests differ. */
  lemma ContextHoldsCalldata(s: Accounts, tx: Transaction, i: nat)
    requires i < |tx.intents| && ContextOf(s, tx).Ok?
    requires forall j, k :: 0 <= j < k < |tx.intents| ==> tx.intents[j].hash != tx.intents[k].hash
    ensures var calldata := ContextOf(s, tx).value.calldata;
            tx.intents[i].hash in calldata && calldata[tx.intents[i].hash] == tx.intents[i].calldata
  {
    var k := CalldataByHashMeaning(tx.intents, tx.intents[i].hash);
  }

  // ---- Expanding predicates ----

  function ExpandCode(s: Accounts, pred: Predicate): Result<(Bytes, string), CollectError> {
    match pred.code
    case InlineCode(code) => Ok((code, "invoke"))
    case CodeRef(addr, entrypoint) =>
      if addr in s then Ok((s[addr].state, entrypoint)) else Err(CodeDoesNotExist(addr, pred))
  }

  function ExpandParam(s: Accounts, context: Context, calldata: Calldata, pred: Predicate, param: Param)
    : Result<ExpandedParam, CollectError>
  {
    match param
    case InlineParam(v) => Ok(Inlined(v))
    case AccountRef(addr) =>
      if addr in s then Ok(AccountState(addr, s[addr].state)) else Err(AccountRefDoesNotExist(addr, pred))
    case ProposalRef(addr) =>
      if addr in context.proposals then Ok(Proposed(addr, context.proposals[addr]))
          else Err(ProposalDoesNotExist(addr, pred))
    case CalldataRef(key) =>
      if key in calldata then Ok(CalldataEntry(key, calldata[key])) else Err(CalldataNotFound(key, pred))
  }

  function ParamExpander(s: Accounts, context: Context, calldata: Calldata, pred: Predicate)
    : Param -> Result<ExpandedParam, CollectError>
  {
    param => ExpandParam(s, context, calldata, pred, param)
  }

  function ExpandPredicate(s: Accounts, context: Context, calldata: Calldata, pred: Predicate)
    : Result<ExpandedPredicate, CollectError>
  {
    var code :- ExpandCode(s, pred);
    var params :- Traverse(pred.params, ParamExpander(s, context, calldata, pred));
    Ok(ExpandedPredicate(code.0, code.1, params))
  }

  /** The parameters of one predicate are expanded in order, up to the first that cannot be. */
  method ExpandParams(s: Accounts, context: Context, calldata: Calldata, pred: Predicate)
    returns (r: Result<seq<ExpandedParam>, CollectError>)
    ensures r == Traverse(pred.params, ParamExpander(s, context, calldata, pred))
  {
    ghost var op := ParamExpander(s, context, calldata, pred);
    var params: seq<ExpandedParam> := [];
    for i := 0 to |pred.params|
      invariant Traverse(pred.params[..i], op) == Ok(params)
    {
      assert pred.params[..i + 1][..i] == pred.params[..i];
      assert pred.params == pred.params[..i + 1] + pred.params[i + 1..];
      TraverseConcat(pred.params[..i + 1], pred.params[i + 1..], op);
      var param := ExpandParam(s, context, calldata, pred, pred.params[i]);
      if param.Err? {
        return Err(param.error);
      }
      params := params + [param.value];
    }
    assert pred.params[..|pred.params|] == pred.params;
    return Ok(params);
  }

  function PredicateExpander(s: Accounts, context: Context, calldata: Calldata)
      : Predicate -> Result<ExpandedPredicate, CollectError> {
    pred => ExpandPredicate(s, context, calldata, pred)
  }

  // ---- What expansion means ----

  /** The account, the proposal or the calldata that the parameter names is there. */
  predicate CanBeRead(s: Accounts, context: Context, calldata: Calldata, param: Param) {
    match param
    case InlineParam(_) => true
    case AccountRef(addr) => addr in s
    case ProposalRef(addr) => addr in context.proposals
    case CalldataRef(key) => key in calldata
  }

  /** The expanded parameter carries what the parameter names. */
  predicate Reads(s: Accounts, context: Context, calldata: Calldata, param: Param, value: ExpandedParam) {
    CanBeRead(s, context, calldata, param) &&
    match (param, value)
    case (InlineParam(data), Inlined(v)) => v == data
    case (AccountRef(addr), AccountState(a, v)) => a == addr && v == s[addr].state
    case (ProposalRef(addr), Proposed(a, change)) => a == addr && change == context.proposals[addr]
    case (CalldataRef(key), CalldataEntry(k, v)) => k == key && v == calldata[key]
    case _ => false
  }

  /** Code and entry point of the predicate are these: inline code is entered at "invoke". */
  predicate IsCode(s: Accounts, code: Code, bytes: Bytes, entrypoint: string) {
    match code
    case InlineCode(inline) => bytes == inline && entrypoint == "invoke"
    case CodeRef(addr, entry) => addr in s && bytes == s[addr].state && entrypoint == entry
  }

  /** What the first parameter that cannot be read makes of the expansion. */
  function Unreadable(pred: Predicate, param: Param): CollectError
    requires !param.InlineParam?
  {
    match param
    case AccountRef(addr) => AccountRefDoesNotExist(addr, pred)
    case ProposalRef(addr) => ProposalDoesNotExist(addr, pred)
    case CalldataRef(key) => CalldataNotFound(key, pred)
  }

  /** A predicate expands exactly if its code and all its parameters are there, to that code and those values. */
  lemma ExpandPredicateMeaning(s: Accounts, context: Context, calldata: Calldata, pred: Predicate)
    ensures var r := ExpandPredicate(s, context, calldata, pred);
            if r.Ok? then
              && IsCode(s, pred.code, r.value.code, r.value.entrypoint) && |r.value.params| == |pred.params|
              && forall i :: 0 <= i < |pred.params| ==> Reads(s, context, calldata, pred.params[i], r.value.params[i])
            else if pred.code.CodeRef? && pred.code.addr !in s then
              r.error == CodeDoesNotExist(pred.code.addr, pred)
            else
              exists i :: 0 <= i < |pred.params| && !CanBeRead(s, context, calldata, pred.params[i])
                          && r.error == Unreadable(pred, pred.params[i])
                          && forall j :: 0 <= j < i ==> CanBeRead(s, context, calldata, pred.params[j])
  {
    var op := ParamExpander(s, context, calldata, pred);
    var params := Traverse(pred.params, op);
    if ExpandCode(s, pred).Ok? {
      if params.Ok? {
        forall i | 0 <= i < |pred.params| ensures Reads(s, context, calldata, pred.params[i], params.value[i]) {
          assert op(pred.params[i]) == Ok(params.value[i]);
        }
      } else {
        var i :| 0 <= i < |pred.params| && op(pred.params[i]) == Err(params.error)
                 && forall j :: 0 <= j < i ==> op(pred.params[j]).Ok?;
        assert forall j :: 0 <= j < i ==> CanBeRead(s, context, calldata, pred.params[j]);
      }
    }
  }

  function ExpandTree(s: Accounts, context: Context, calldata: Calldata, tree: PredicateTree)
    : Result<ExpandedTree, CollectError>
  {
    TryMap(tree, PredicateExpander(s, context, calldata))
  }

  /**
   * A tree expands leaf by leaf, in visiting order, and keeps its shape; the first leaf that does not expand fails it.
   */
  lemma ExpandTreeMeaning(s: Accounts, context: Context, calldata: Calldata, tree: PredicateTree)
    ensures var r := ExpandTree(s, context, calldata, tree);
            if r.Ok? then
              && |Leaves(r.value)| == |Leaves(tree)| && r.value == Relabel(tree, Leaves(r.value))
              && forall i :: 0 <= i < |Leaves(tree)| ==>
                   ExpandPredicate(s, context, calldata, Leaves(tree)[i]) == Ok(Leaves(r.value)[i])
            else
              exists i :: 0 <= i < |Leaves(tree)|
                && ExpandPredicate(s, context, calldata, Leaves(tree)[i]) == Err(r.error)
                && forall j :: 0 <= j < i ==> ExpandPredicate(s, context, calldata, Leaves(tree)[j]).Ok?
  {
    hide ExpandPredicate;
    var op := PredicateExpander(s, context, calldata);
    TryMapVisitsInOrder(tree, op);
    var r := Traverse(Leaves(tree), op);
    if r.Ok? {
      RelabelLeaves(tree, r.value);
      assert forall i :: 0 <= i < |r.value| ==> op(Leaves(tree)[i]) == Ok(r.value[i]);
    } else {
      var i :| 0 <= i < |Leaves(tree)| && op(Leaves(tree)[i]) == Err(r.error)
               && forall j :: 0 <= j < i ==> op(Leaves(tree)[j]).Ok?;
      assert ExpandPredicate(s, context, calldata, Leaves(tree)[i]) == Err(r.error);
    }
  }

  // ---- The trees a transaction triggers ----

  lemma {:induction false} GreatestExists(keys: set<nat>)
    requires keys != {}
    ensures exists k :: k in keys && forall j :: j in keys ==> j <= k
  {
    var k :| k in keys;
    if j :| j in keys && j > k {
      var above := keys - {k};
      assert j in above;
      GreatestExists(above);
      var top :| top in above && forall j :: j in above ==> j <= top;
      assert forall i :: i in keys ==> i == k || i in above;
      assert top in keys;
    }
  }

  function Greatest(keys: set<nat>): (top: nat)
    requires keys != {}
    ensures top in keys && forall j :: j in keys ==> j <= top
  {
    GreatestExists(keys);
    var k :| k in keys && forall j :: j in keys ==> j <= k;
    k
  }

  /** All calldata in one map; the intent with the greatest digest wins a key. */
  function MergedCalldata(byHash: map<Hash, Calldata>): Calldata
    decreases byHash.Keys
  {
    if byHash.Keys == {} then map[]
    else
      var k := Greatest(byHash.Keys);
      MergedCalldata(byHash - {k}) + byHash[k]
  }

  lemma {:induction false} MergedCalldataMeaning(byHash: map<Hash, Calldata>, key: string)
    ensures key in MergedCalldata(byHash) <==> exists h :: h in byHash && key in byHash[h]
    ensures key in MergedCalldata(byHash) ==>
            exists h :: h in byHash && key in byHash[h] && MergedCalldata(byHash)[key] == byHash[h][key]
                        && forall j :: j in byHash && key in byHash[j] ==> j <= h
    decreases byHash.Keys
  {
    if byHash.Keys != {} {
      var k := Greatest(byHash.Keys);
      var rest := byHash - {k};
      MergedCalldataMeaning(rest, key);
      assert forall j :: j in rest ==> j in byHash && rest[j] == byHash[j];
      assert forall j :: j in byHash ==> j == k || (j in rest && rest[j] == byHash[j]);
      if key in byHash[k] {
        assert MergedCalldata(byHash)[key] == byHash[k][key];
      } else if key in MergedCalldata(rest) {
        var h :| h in rest && key in rest[h] && MergedCalldata(rest)[key] == rest[h][key]
                 && forall j :: j in rest && key in rest[j] ==> j <= h;
        assert h in byHash && key in byHash[h];
      }
    }
  }

  /** The addresses whose predicates are looked for: every proposed address, each followed by its ancestors. */
  function Visited(ps: seq<Proposal>): seq<Address> {
    if ps == [] then []
    else Visited(ps[..|ps| - 1]) + [ps[|ps| - 1].addr] + Ancestors(ps[|ps| - 1].addr)
  }

  type TreesByAccount = map<Address, ExpandedTree>

  function Gather(s: Accounts, context: Context, calldata: Calldata, addrs: seq<Address>)
    : Result<TreesByAccount, CollectError>
  {
    if addrs == [] then Ok(map[])
    else
      var out :- Gather(s, context, calldata, addrs[..|addrs| - 1]);
      var a := addrs[|addrs| - 1];
      if a in out || a !in s then Ok(out)
      else
        var tree :- ExpandTree(s, context, calldata, s[a].predicates);
        Ok(out[a := tree])
  }

  function AccountTrees(s: Accounts, context: Context, tx: Transaction): Result<TreesByAccount, CollectError> {
    Gather(s, context, MergedCalldata(context.calldata), Visited(tx.proposals))
  }

  /** An error met while gathering is the error of the whole gathering. */
  lemma {:induction false} GatherStops(s: Accounts, context: Context, calldata: Calldata, addrs: seq<Address>,
                                       more: seq<Address>)
    requires Gather(s, context, calldata, addrs).Err?
    ensures Gather(s, context, calldata, addrs + more) == Gather(s, context, calldata, addrs)
  {
    if more == [] {
      assert addrs + more == addrs;
    } else {
      GatherStops(s, context, calldata, addrs, more[..|more| - 1]);
      assert (addrs + more)[..|addrs + more| - 1] == addrs + more[..|more| - 1];
    }
  }

  lemma {:induction false} VisitedPrefix(ps: seq<Proposal>, i: nat) returns (rest: seq<Address>)
    requires i < |ps|
    ensures Visited(ps) == (Visited(ps[..i]) + [ps[i].addr] + Ancestors(ps[i].addr)) + rest
    decreases |ps|
  {
    var front := ps[..|ps| - 1];
    if i == |ps| - 1 {
      rest := [];
    } else {
      var r := VisitedPrefix(front, i);
      assert front[..i] == ps[..i];
      rest := r + [ps[|ps| - 1].addr] + Ancestors(ps[|ps| - 1].addr);
    }
  }

  /** One visit: an account not met before, if it exists, contributes its expanded tree. */
  method Visit(s: Accounts, context: Context, calldata: Calldata, before: TreesByAccount, a: Address,
               ghost addrs: seq<Address>)
    returns (r: Result<TreesByAccount, CollectError>)
    requires Gather(s, context, calldata, addrs) == Ok(before)
    ensures r == Gather(s, context, calldata, addrs + [a])
  {
    assert (addrs + [a])[..|addrs|] == addrs;
    r := Ok(before);
    if a !in before {
      if a in s {
        var tree := ExpandTree(s, context, calldata, s[a].predicates);
        r := if tree.Err? then Err(tree.error) else Ok(before[a := tree.value]);
      }
    }
  }

  method VisitAll(s: Accounts, context: Context, calldata: Calldata, before: TreesByAccount, more: seq<Address>,
                  ghost addrs: seq<Address>)
    returns (r: Result<TreesByAccount, CollectError>)
    requires Gather(s, context, calldata, addrs) == Ok(before)
    ensures r == Gather(s, context, calldata, addrs + more)
  {
    r := Ok(before);
    assert addrs + more[..0] == addrs;
    for j := 0 to |more|
      invariant r.Ok? && r == Gather(s, context, calldata, addrs + more[..j])
    {
      r := Visit(s, context, calldata, r.value, more[j], addrs + more[..j]);
      assert addrs + more[..j + 1] == addrs + more[..j] + [more[j]];
      if r.Err? {
        GatherStops(s, context, calldata, addrs + more[..j + 1], more[j + 1..]);
        assert addrs + more == (addrs + more[..j + 1]) + more[j + 1..];
        return;
      }
    }
    assert more[..|more|] == more;
  }

  method AccountsPredicates(s: Accounts, context: Context, tx: Transaction)
      returns (r: Result<TreesByAccount, CollectError>)
    ensures r == AccountTrees(s, context, tx)
  {
    var calldata := MergedCalldata(context.calldata);
    var ps := tx.proposals;
    r := Ok(map[]);
    for i := 0 to |ps|
      invariant r.Ok? && r == Gather(s, context, calldata, Visited(ps[..i]))
    {
      hide Gather, Visited;
      var addr := ps[i].addr;
      ghost var visited := Visited(ps[..i]);
      ghost var rest := VisitedPrefix(ps, i);
      r := Visit(s, context, calldata, r.value, addr, visited);
      if r.Err? {
        GatherStops(s, context, calldata, visited + [addr], Ancestors(addr) + rest);
        assert Visited(ps) == (visited + [addr]) + (Ancestors(addr) + rest);
        return;
      }
      r := VisitAll(s, context, calldata, r.value, Ancestors(addr), visited + [addr]);
      if r.Err? {
        GatherStops(s, context, calldata, visited + [addr] + Ancestors(addr), rest);
        return;
      }
      VisitedSnoc(ps, i);
    }
    assert ps[..|ps|] == ps;
  }

  lemma VisitedSnoc(ps: seq<Proposal>, i: nat)
    requires i < |ps|
    ensures Visited(ps[..i + 1]) == Visited(ps[..i]) + [ps[i].addr] + Ancestors(ps[i].addr)
  {
    assert ps[..i + 1][..i] == ps[..i];
  }

  lemma {:induction false} VisitedMeaning(ps: seq<Proposal>, a: Address)
    ensures a in Visited(ps) <==>
        exists i :: 0 <= i < |ps| && (a == ps[i].addr || (a != "" && IsParentOf(a, ps[i].addr)))
  {
    if ps != [] {
      var front, last := ps[..|ps| - 1], ps[|ps| - 1].addr;
      VisitedMeaning(front, a);
      AncestorsAreParents(a, last);
      hide IsParentOf, Ancestors;
      assert a in Visited(ps) <==> a in Visited(front) || a == last || a in Ancestors(last);
      assert forall i :: 0 <= i < |front| ==> front[i] == ps[i];
    }
  }

  lemma {:induction false} GatherMeaning(s: Accounts, context: Context, calldata: Calldata, addrs: seq<Address>)
    ensures Gather(s, context, calldata, addrs).Ok? <==>
            forall a :: a in addrs && a in s ==> ExpandTree(s, context, calldata, s[a].predicates).Ok?
    ensures Gather(s, context, calldata, addrs).Ok? ==>
            var out := Gather(s, context, calldata, addrs).value;
            && (forall a :: a in out <==> a in addrs && a in s)
            && (forall a :: a in out ==> Ok(out[a]) == ExpandTree(s, context, calldata, s[a].predicates))
  {
    if addrs != [] {
      var front, last := addrs[..|addrs| - 1], addrs[|addrs| - 1];
      GatherMeaning(s, context, calldata, front);
      assert addrs == front + [last];
    }
  }

  /**
   * The account trees of a transaction are those of exactly the existing accounts that it proposes or that are
   * parents of one it proposes, one tree each.
   */
  lemma AccountTreesMeaning(s: Accounts, context: Context, tx: Transaction, a: Address)
    requires AccountTrees(s, context, tx).Ok?
    ensures a in AccountTrees(s, context, tx).value <==>
            a in s && exists i :: 0 <= i < |tx.proposals|
                                  && (a == tx.proposals[i].addr || (a != "" && IsParentOf(a, tx.proposals[i].addr)))
    ensures a in AccountTrees(s, context, tx).value ==>
            Ok(AccountTrees(s, context, tx).value[a])
            == ExpandTree(s, context, MergedCalldata(context.calldata), s[a].predicates)
  {
    VisitedMeaning(tx.proposals, a);
    GatherMeaning(s, context, MergedCalldata(context.calldata), Visited(tx.proposals));
  }

  /** The account is proposed or is a parent of one that is. */
  predicate Consulted(tx: Transaction, a: Address) {
    exists i :: 0 <= i < |tx.proposals|
                && (a == tx.proposals[i].addr || (a != "" && IsParentOf(a, tx.proposals[i].addr)))
  }

  /** The account trees can be gathered exactly if the trees of all consulted accounts that exist expand. */
  lemma AccountTreesExpand(s: Accounts, context: Context, tx: Transaction)
    ensures AccountTrees(s, context, tx).Ok? <==>
            forall a :: a in s && Consulted(tx, a) ==>
              ExpandTree(s, context, MergedCalldata(context.calldata), s[a].predicates).Ok?
  {
    hide ExpandTree, Gather;
    GatherMeaning(s, context, MergedCalldata(context.calldata), Visited(tx.proposals));
    forall a ensures a in Visited(tx.proposals) <==> Consulted(tx, a) {
      VisitedMeaning(tx.proposals, a);
    }
  }

  function IntentExpander(s: Accounts, context: Context): Intent -> Result<ExpandedTree, CollectError> {
    (intent: Intent) => ExpandTree(s, context, intent.calldata, intent.expectations)
  }

  function IntentTrees(s: Accounts, context: Context, intents: seq<Intent>): Result<seq<ExpandedTree>, CollectError> {
    Traverse(intents, IntentExpander(s, context))
  }

  /** One tree per intent, in order, each expanded under the calldata of its own intent; or the first failure. */
  lemma IntentTreesMeaning(s: Accounts, context: Context, intents: seq<Intent>)
    ensures var r := IntentTrees(s, context, intents);
            if r.Ok? then
              && |r.value| == |intents|
              && forall i :: 0 <= i < |intents| ==>
                   Ok(r.value[i]) == ExpandTree(s, context, intents[i].calldata, intents[i].expectations)
            else
              exists i :: 0 <= i < |intents|
                && ExpandTree(s, context, intents[i].calldata, intents[i].expectations) == Err(r.error)
                && forall j :: 0 <= j < i ==>
                     ExpandTree(s, context, intents[j].calldata, intents[j].expectations).Ok?
  {
    hide ExpandTree;
    var op := IntentExpander(s, context);
    var r := Traverse(intents, op);
    if r.Ok? {
      assert forall i :: 0 <= i < |intents| ==> op(intents[i]) == Ok(r.value[i]);
    } else {
      var i :| 0 <= i < |intents| && op(intents[i]) == Err(r.error) && forall j :: 0 <= j < i ==> op(intents[j]).Ok?;
      assert ExpandTree(s, context, intents[i].calldata, intents[i].expectations) == Err(r.error);
    }
  }

  method IntentsPredicates(s: Accounts, context: Context, tx: Transaction)
      returns (r: Result<seq<ExpandedTree>, CollectError>)
    ensures r == IntentTrees(s, context, tx.intents)
  {
    ghost var op := IntentExpander(s, context);
    var output: seq<ExpandedTree> := [];
    for i := 0 to |tx.intents|
      invariant Traverse(tx.intents[..i], op) == Ok(output)
    {
      assert tx.intents[..i + 1][..i] == tx.intents[..i];
      assert tx.intents == tx.intents[..i + 1] + tx.intents[i + 1..];
      TraverseConcat(tx.intents[..i + 1], tx.intents[i + 1..], op);
      var tree := ExpandTree(s, context, tx.intents[i].calldata, tx.intents[i].expectations);
      if tree.Err? {
        return Err(tree.error);
      }
      output := output + [tree.value];
    }
    assert tx.intents[..|tx.intents|] == tx.intents;
    return Ok(output);
  }
}
