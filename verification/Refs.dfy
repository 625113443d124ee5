/** The accounts a transaction is expected to read and write, on which its scheduling rests. */
module Refs {
  import opened Address
  import opened Collect
  import opened Execution
  import opened ExpressionTree
  import opened Primitives
  import opened State

  datatype TransactionRefs = TransactionRefs(read: set<Address>, written: set<Address>)

  /** Only earlier written count: what `other` read is not looked at. */
  predicate DependsOn(r: TransactionRefs, other: TransactionRefs) {
    r.read * other.written != {} || r.written * other.written != {}
  }

  /** An account whose predicates are scanned: an existing proposed account, or an existing ancestor of one. */
  predicate Scanned(s: Accounts, ps: seq<Proposal>, a: Address) {
    a in s && exists i :: 0 <= i < |ps| && ps[i].addr in s && a in [ps[i].addr] + Ancestors(ps[i].addr)
  }

  function ScannedRefs(s: Accounts, ps: seq<Proposal>): set<Address> {
    set a, r | a in s && Scanned(s, ps, a) && r in TreeRefs(s[a].predicates) :: r
  }

  function RefsOf(tx: Transaction, s: Accounts): TransactionRefs {
    TransactionRefs((ScannedRefs(s, tx.proposals) + IntentRefs(tx.intents)) - Keys(tx.proposals), Keys(tx.proposals))
  }

  method AddPredicateRefs(pred: Predicate, written: set<Address>, before: set<Address>) returns (read: set<Address>)
    ensures read == before + (CodeRefs(pred) + ParamRefs(pred.params) - written)
  {
    read := before;
    for i := 0 to |pred.params|
      invariant read == before + (ParamRefs(pred.params[..i]) - written)
    {
      var param := pred.params[i];
      ParamRefsSnoc(pred.params[..i + 1]);
      assert pred.params[..i + 1][..i] == pred.params[..i];
      if param.AccountRef? && param.addr !in written {
        read := read + {param.addr};
      }
    }
    assert pred.params[..|pred.params|] == pred.params;
    if pred.code.CodeRef? && pred.code.addr !in written {
      read := read + {pred.code.addr};
    }
  }

  lemma ParamRefsSnoc(params: seq<Param>)
    requires params != []
    ensures var last := params[|params| - 1];
            ParamRefs(params) == ParamRefs(params[..|params| - 1]) + if last.AccountRef? then {last.addr} else {}
  {
    var front, last := params[..|params| - 1], params[|params| - 1];
    forall a ensures a in ParamRefs(params) <==> a in ParamRefs(front) || (last.AccountRef? && a == last.addr) {
      if a in ParamRefs(front) {
        var i :| 0 <= i < |front| && front[i].AccountRef? && front[i].addr == a;
        assert params[i].AccountRef? && params[i].addr == a;
      }
      if a in ParamRefs(params) {
        var i :| 0 <= i < |params| && params[i].AccountRef? && params[i].addr == a;
        assert i < |front| ==> front[i].AccountRef? && front[i].addr == a;
      }
    }
  }

  /** `for_each` over the leaves of a tree. */
  method AddTreeRefs(tree: PredicateTree, written: set<Address>, before: set<Address>) returns (read: set<Address>)
    ensures read == before + (TreeRefs(tree) - written)
  {
    var leaves := Leaves(tree);
    read := before;
    for i := 0 to |leaves|
      invariant read == before +
          ((set j, a | 0 <= j < i && a in CodeRefs(leaves[j]) + ParamRefs(leaves[j].params) :: a) - written)
    {
      read := AddPredicateRefs(leaves[i], written, read);
    }
  }

  method AddRefsAt(s: Accounts, addrs: seq<Address>, written: set<Address>, before: set<Address>)
      returns (read: set<Address>)
    ensures read == before + (RefsAt(s, addrs) - written)
  {
    read := before;
    for j := 0 to |addrs|
      invariant read == before + (RefsAt(s, addrs[..j]) - written)
    {
      RefsAtSnoc(s, addrs[..j + 1]);
      assert addrs[..j + 1][..j] == addrs[..j];
      if addrs[j] in s {
        read := AddTreeRefs(s[addrs[j]].predicates, written, read);
      }
    }
    assert addrs[..|addrs|] == addrs;
  }

  method ScanProposals(s: Accounts, ps: seq<Proposal>, written: set<Address>) returns (read: set<Address>)
    ensures read == ScannedRefs(s, ps) - written
  {
    read := {};
    for i := 0 to |ps|
      invariant read == ScannedRefs(s, ps[..i]) - written
    {
      ScannedSnoc(s, ps[..i + 1]);
      assert ps[..i + 1][..i] == ps[..i];
      var addr := ps[i].addr;
      if addr in s {
        read := AddTreeRefs(s[addr].predicates, written, read);
        read := AddRefsAt(s, Ancestors(addr), written, read);
        RefsAtCons(s, addr, Ancestors(addr));
      }
    }
    assert ps[..|ps|] == ps;
  }

  method New(tx: Transaction, s: Accounts) returns (refs: TransactionRefs)
    ensures refs == RefsOf(tx, s)
  {
    var ps := tx.proposals;
    var written: set<Address> := {};
    for i := 0 to |ps|
      invariant written == Keys(ps[..i])
    {
      assert ps[..i + 1][..i] == ps[..i];
      KeysSnoc(ps[..i + 1]);
      written := written + {ps[i].addr};
    }
    assert ps[..|ps|] == ps;
    var read := ScanProposals(s, ps, written);
    for i := 0 to |tx.intents|
      invariant read == (ScannedRefs(s, ps) + IntentRefs(tx.intents[..i])) - written
    {
      IntentRefsSnoc(tx.intents[..i + 1]);
      assert tx.intents[..i + 1][..i] == tx.intents[..i];
      read := AddTreeRefs(tx.intents[i].expectations, written, read);
    }
    assert tx.intents[..|tx.intents|] == tx.intents;
    refs := TransactionRefs(read, written);
  }

  ghost function RefsAt(s: Accounts, addrs: seq<Address>): set<Address> {
    set a, r | a in addrs && a in s && r in TreeRefs(s[a].predicates) :: r
  }

  lemma RefsAtSnoc(s: Accounts, addrs: seq<Address>)
    requires addrs != []
    ensures var last := addrs[|addrs| - 1];
            RefsAt(s, addrs) == RefsAt(s, addrs[..|addrs| - 1]) + if last in s then TreeRefs(s[last].predicates) else {}
  {
    assert addrs == addrs[..|addrs| - 1] + [addrs[|addrs| - 1]];
  }

  lemma RefsAtCons(s: Accounts, a: Address, addrs: seq<Address>)
    requires a in s
    ensures RefsAt(s, [a] + addrs) == TreeRefs(s[a].predicates) + RefsAt(s, addrs)
  {
  }

  lemma ScannedSnoc(s: Accounts, ps: seq<Proposal>)
    requires ps != []
    ensures var p := ps[|ps| - 1];
            ScannedRefs(s, ps) ==
              ScannedRefs(s, ps[..|ps| - 1]) + if p.addr in s then RefsAt(s, [p.addr] + Ancestors(p.addr)) else {}
  {
    var front, p := ps[..|ps| - 1], ps[|ps| - 1];
    forall a | a in s
      ensures Scanned(s, ps, a) <==> Scanned(s, front, a) || (p.addr in s && a in [p.addr] + Ancestors(p.addr))
    {
      if Scanned(s, front, a) {
        var i :| 0 <= i < |front| && front[i].addr in s && a in [front[i].addr] + Ancestors(front[i].addr);
        assert ps[i] == front[i];
      }
      if Scanned(s, ps, a) {
        var i :| 0 <= i < |ps| && ps[i].addr in s && a in [ps[i].addr] + Ancestors(ps[i].addr);
        assert i < |front| ==> front[i] == ps[i];
      }
      if p.addr in s && a in [p.addr] + Ancestors(p.addr) {
        assert ps[|ps| - 1].addr in s;
      }
    }
  }

  lemma IntentRefsSnoc(intents: seq<Intent>)
    requires intents != []
    ensures IntentRefs(intents) == IntentRefs(intents[..|intents| - 1]) + TreeRefs(intents[|intents| - 1].expectations)
  {
    var front := intents[..|intents| - 1];
    forall a ensures a in IntentRefs(intents) <==>
        a in IntentRefs(front) || a in TreeRefs(intents[|intents| - 1].expectations) {
      if a in IntentRefs(front) {
        var i :| 0 <= i < |front| && a in TreeRefs(front[i].expectations);
        assert a in TreeRefs(intents[i].expectations);
      }
      if a in IntentRefs(intents) {
        var i :| 0 <= i < |intents| && a in TreeRefs(intents[i].expectations);
        assert i < |front| ==> a in TreeRefs(front[i].expectations);
      }
    }
  }

  // ---- What the references leave out ----

  function AncestorSet(ps: seq<Proposal>): set<Address> {
    set i, a | 0 <= i < |ps| && a in Ancestors(ps[i].addr) :: a
  }

  /** References in the trees of existing ancestors all of whose proposed descendants are yet to be created. */
  function MissedRefs(s: Accounts, ps: seq<Proposal>): set<Address> {
    set a, r | a in AncestorSet(ps) && a in s && !Scanned(s, ps, a) && r in TreeRefs(s[a].predicates) :: r
  }

  /**
   * The accounts that execution looks at are the references, plus the ancestors of the proposed accounts, plus what is
   * referred to by ancestors of accounts that do not exist yet.
   */
  lemma FootprintAgainstRefs(tx: Transaction, s: Accounts)
    ensures var refs := RefsOf(tx, s);
            Footprint(s, tx) == refs.read + refs.written + AncestorSet(tx.proposals) + MissedRefs(s, tx.proposals)
  {
    var ps := tx.proposals;
    forall a ensures a in Visited(ps) <==> a in Keys(ps) || a in AncestorSet(ps) {
      VisitedMeaning(ps, a);
      if a in Keys(ps) {
        var i :| 0 <= i < |ps| && ps[i].addr == a;
      }
      if a in AncestorSet(ps) {
        var i :| 0 <= i < |ps| && a in Ancestors(ps[i].addr);
        AncestorsAreParents(a, ps[i].addr);
      }
      if a in Visited(ps) {
        var i :| 0 <= i < |ps| && (a == ps[i].addr || (a != "" && IsParentOf(a, ps[i].addr)));
        AncestorsAreParents(a, ps[i].addr);
        assert ps[i].addr in Keys(ps);
      }
    }
    forall a | a in Keys(ps) && a in s ensures Scanned(s, ps, a) {
      var i :| 0 <= i < |ps| && ps[i].addr == a;
      assert a in [ps[i].addr] + Ancestors(ps[i].addr);
    }
    forall r ensures r in TriggeredRefs(s, ps) <==> r in ScannedRefs(s, ps) || r in MissedRefs(s, ps) {
      if r in TriggeredRefs(s, ps) {
        var a :| a in Visited(ps) && a in s && r in TreeRefs(s[a].predicates);
        assert Scanned(s, ps, a) || a in AncestorSet(ps);
      }
      if r in ScannedRefs(s, ps) {
        var a :| a in s && Scanned(s, ps, a) && r in TreeRefs(s[a].predicates);
        var i :| 0 <= i < |ps| && ps[i].addr in s && a in [ps[i].addr] + Ancestors(ps[i].addr);
        assert a in Keys(ps) || a in AncestorSet(ps);
      }
    }
  }
}
