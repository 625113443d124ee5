/** The values transactions and blocks are made of. */
module Primitives {
  import opened Address
  import opened ExpressionTree

  newtype byte = b: int | 0 <= b < 256
  type Bytes = seq<byte>

  const TWO_TO_THE_64: nat := 0x1_0000_0000_0000_0000

  /** A digest, read as a number: comparing two of them is comparing their bytes. */
  type Hash = nat

  type Calldata = map<string, Bytes>

  datatype Code = InlineCode(code: Bytes) | CodeRef(addr: Address, entrypoint: string)

  datatype Param =
    | InlineParam(data: Bytes)
    | AccountRef(addr: Address)
    | ProposalRef(addr: Address)
    | CalldataRef(key: string)

  datatype Predicate = Predicate(code: Code, params: seq<Param>)
  type PredicateTree = Tree<Predicate>

  datatype Account = Account(state: Bytes, predicates: PredicateTree)

  datatype AccountChange =
    | CreateAccount(account: Account)
    | ReplaceState(state: Bytes)
    | ReplacePredicates(predicates: PredicateTree)
    | DeleteAccount

  datatype ExpandedAccountChange =
    | Created(account: Account)
    | StateReplaced(currentState: Bytes, proposedState: Bytes)
    | PredicatesReplaced(currentPredicates: PredicateTree, proposedPredicates: PredicateTree)
    | Deleted(current: Account)

  datatype ExpandedParam =
    | Inlined(data: Bytes)
    | AccountState(addr: Address, state: Bytes)
    | Proposed(addr: Address, change: ExpandedAccountChange)
    | CalldataEntry(key: string, data: Bytes)

  datatype ExpandedPredicate = ExpandedPredicate(code: Bytes, entrypoint: string, params: seq<ExpandedParam>)
  type ExpandedTree = Tree<ExpandedPredicate>

  datatype Context = Context(calldata: map<Hash, Calldata>, proposals: map<Address, ExpandedAccountChange>)

  datatype Intent = Intent(hash: Hash, expectations: PredicateTree, calldata: Calldata)

  datatype Proposal = Proposal(addr: Address, change: AccountChange)

  /** The proposals are the entries of a sorted map, in key order. */
  datatype Transaction = Transaction(intents: seq<Intent>, proposals: seq<Proposal>)

  ghost predicate DistinctKeys(proposals: seq<Proposal>) {
    forall i, j :: 0 <= i < j < |proposals| ==> proposals[i].addr != proposals[j].addr
  }

  function Keys(proposals: seq<Proposal>): set<Address> {
    set i | 0 <= i < |proposals| :: proposals[i].addr
  }

  lemma KeysSnoc(ps: seq<Proposal>)
    requires ps != []
    ensures Keys(ps) == Keys(ps[..|ps| - 1]) + {ps[|ps| - 1].addr}
  {
    var front := ps[..|ps| - 1];
    forall a ensures a in Keys(ps) <==> a in Keys(front) || a == ps[|ps| - 1].addr {
      if a in Keys(ps) {
        var i :| 0 <= i < |ps| && ps[i].addr == a;
        assert i < |front| ==> front[i].addr in Keys(front);
      }
      if a in Keys(front) {
        var i :| 0 <= i < |front| && front[i].addr == a;
        assert ps[i].addr in Keys(ps);
      }
      assert ps[|ps| - 1].addr in Keys(ps);
    }
  }

  /** Keys are distinct iff there are as many as proposals. */
  lemma {:induction false} DistinctKeysCount(ps: seq<Proposal>)
    ensures |Keys(ps)| <= |ps|
    ensures DistinctKeys(ps) <==> |Keys(ps)| == |ps|
  {
    if ps != [] {
      DistinctKeysCount(ps[..|ps| - 1]);
      KeysSnoc(ps);
      DistinctSnoc(ps);
      hide Keys, DistinctKeys;
    }
  }

  lemma DistinctSnoc(ps: seq<Proposal>)
    requires ps != []
    ensures DistinctKeys(ps) <==> DistinctKeys(ps[..|ps| - 1]) && ps[|ps| - 1].addr !in Keys(ps[..|ps| - 1])
  {
    var front := ps[..|ps| - 1];
    assert forall i :: 0 <= i < |front| ==> front[i].addr in Keys(front) && ps[i] == front[i];
  }

  /** Why the inputs of a transaction could not be gathered. */
  datatype CollectError =
    | AccountAlreadyExists(addr: Address)
    | AccountDoesNotExist(addr: Address)
    | CodeDoesNotExist(addr: Address, pred: Predicate)
    | AccountRefDoesNotExist(addr: Address, pred: Predicate)
    | ProposalDoesNotExist(addr: Address, pred: Predicate)
    | CalldataNotFound(key: string, pred: Predicate)

  /** What running one predicate to its end gives. */
  datatype Verdict = Accepts | Refuses | Crashes(reason: nat)

  datatype Error =
    | StateError(cause: CollectError)
    | Rejected(pred: ExpandedPredicate)
    | Cancelled
    | Crash(reason: nat)

  /** The bytes a predicate reads from one of its parameters. */
  function Data(param: ExpandedParam): Bytes {
    match param
    case Inlined(v) => v
    case AccountState(_, v) => v
    case Proposed(_, Created(account)) => account.state
    case Proposed(_, StateReplaced(_, proposed)) => proposed
    case Proposed(_, _) => []
    case CalldataEntry(_, v) => v
  }
}
