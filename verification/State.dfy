/** Account stores, state diffs and the read-only overlay. */
module State {
  import opened Address
  import opened Primitives
  import opened Wrappers

  type Accounts = map<Address, Account>

  datatype Diff = Diff(upserts: Accounts, deletes: set<Address>) {
    ghost predicate Disjoint() {
      upserts.Keys !! deletes
    }

    function Touched(): set<Address> {
      upserts.Keys + deletes
    }
  }

  const EMPTY: Diff := Diff(map[], {})

  function Lookup(s: Accounts, a: Address): Option<Account> {
    if a in s then Some(s[a]) else None
  }

  ghost predicate SameOn(s: Accounts, t: Accounts, addrs: set<Address>) {
    forall a :: a in addrs ==> Lookup(s, a) == Lookup(t, a)
  }

  function Apply(s: Accounts, d: Diff): Accounts {
    (s + d.upserts) - d.deletes
  }

  /** What a reader of `Overlayed` sees: the overlay's upserts over the base; its deletes are not looked at. */
  function Overlay(base: Accounts, overlay: Diff): Accounts {
    base + overlay.upserts
  }

  function Merge(older: Diff, newer: Diff): Diff {
    Diff((older.upserts + newer.upserts) - newer.deletes, (older.deletes - newer.upserts.Keys) + newer.deletes)
  }

  function ApplyAll(s: Accounts, diffs: seq<Diff>): Accounts {
    if diffs == [] then s else Apply(ApplyAll(s, diffs[..|diffs| - 1]), diffs[|diffs| - 1])
  }

  /** `reduce(merge)` with the empty diff for an empty list. */
  function MergeAll(diffs: seq<Diff>): Diff {
    if diffs == [] then EMPTY
    else if |diffs| == 1 then diffs[0]
    else Merge(MergeAll(diffs[..|diffs| - 1]), diffs[|diffs| - 1])
  }

  // ---- The diff algebra ----

  lemma MergeThenApply(s: Accounts, older: Diff, newer: Diff)
    ensures Apply(s, Merge(older, newer)) == Apply(Apply(s, older), newer)
  {
    var l, r := Apply(s, Merge(older, newer)), Apply(Apply(s, older), newer);
    forall a ensures a in l <==> a in r ensures a in l ==> l[a] == r[a] {
    }
  }

  lemma MergeKeepsDisjoint(older: Diff, newer: Diff)
    requires older.Disjoint() && newer.Disjoint()
    ensures Merge(older, newer).Disjoint()
    ensures Merge(older, newer).Touched() == older.Touched() + newer.Touched()
  {
  }

  lemma MergeIdentity(d: Diff)
    requires d.Disjoint()
    ensures Merge(EMPTY, d) == d == Merge(d, EMPTY)
  {
  }

  /** A well-formed diff is determined by what it does to stores. */
  lemma EffectDeterminesDiff(d: Diff, e: Diff)
    requires d.Disjoint() && e.Disjoint()
    requires forall s :: Apply(s, d) == Apply(s, e)
    ensures d == e
  {
    assert d.upserts == Apply(map[], d) == Apply(map[], e) == e.upserts;
    var some := Account([], ExpressionTree.Id(Predicate(InlineCode([]), [])));
    forall a ensures a in d.deletes <==> a in e.deletes {
      var s := map[a := some];
      assert Apply(s, d) == Apply(s, e);
      assert a in Apply(s, d) <==> a !in d.deletes;
      assert a in Apply(s, e) <==> a !in e.deletes;
    }
  }

  lemma MergeAssociative(a: Diff, b: Diff, c: Diff)
    requires a.Disjoint() && b.Disjoint() && c.Disjoint()
    ensures Merge(Merge(a, b), c) == Merge(a, Merge(b, c))
  {
    var l, r := Merge(Merge(a, b), c), Merge(a, Merge(b, c));
    forall x ensures x in l.upserts <==> x in r.upserts ensures x in l.upserts ==> l.upserts[x] == r.upserts[x] {
    }
    assert l.deletes == r.deletes;
  }

  lemma {:induction false} MergeAllApplies(s: Accounts, diffs: seq<Diff>)
    ensures Apply(s, MergeAll(diffs)) == ApplyAll(s, diffs)
  {
    if diffs == [] {
    } else if |diffs| == 1 {
      assert ApplyAll(s, diffs[..0]) == s;
    } else {
      var front := diffs[..|diffs| - 1];
      MergeThenApply(s, MergeAll(front), diffs[|diffs| - 1]);
      MergeAllApplies(s, front);
    }
  }

  /** The overlay shows the applied diff exactly when the diff deletes nothing the base holds. */
  lemma OverlayExact(base: Accounts, d: Diff)
    requires d.Disjoint()
    ensures Overlay(base, d) == Apply(base, d) <==> d.deletes !! base.Keys
  {
    if a :| a in d.deletes && a in base {
      assert a in Overlay(base, d) && a !in Apply(base, d);
    }
    if d.deletes !! base.Keys {
      assert Overlay(base, d) == Apply(base, d);
    }
  }

  // ---- The mutable types ----

  class StateDiff {
    var upserts: Accounts
    var deletes: set<Address>

    ghost function View(): Diff
      reads this
    {
      Diff(upserts, deletes)
    }

    constructor ()
      ensures View() == EMPTY
    {
      upserts, deletes := map[], {};
    }

    method Set(a: Address, account: Account) returns (previous: Option<Account>)
      requires View().Disjoint()
      modifies this
      ensures previous == Lookup(old(upserts), a)
      ensures View() == Merge(old(View()), Diff(map[a := account], {}))
      ensures View().Disjoint()
    {
      previous := Lookup(upserts, a);
      deletes := deletes - {a};
      upserts := upserts[a := account];
    }

    method Remove(a: Address) returns (previous: Option<Account>)
      requires View().Disjoint()
      modifies this
      ensures previous == Lookup(old(upserts), a)
      ensures View() == Merge(old(View()), Diff(map[], {a}))
      ensures View().Disjoint()
    {
      previous := Lookup(upserts, a);
      deletes := deletes + {a};
      upserts := upserts - {a};
    }

    method ApplyDiff(newer: Diff)
      modifies this
      ensures View() == Merge(old(View()), newer)
    {
      var merged := MergeDiffs(Diff(upserts, deletes), newer);
      upserts, deletes := merged.upserts, merged.deletes;
    }
  }

  /** Replays the newer diff's upserts, then its deletes, in any order, over the older one. */
  method MergeDiffs(older: Diff, newer: Diff) returns (merged: Diff)
    ensures merged == Merge(older, newer)
  {
    merged := ReplayUpserts(older, newer.upserts);
    merged := ReplayDeletes(merged, newer.deletes);
  }

  method ReplayUpserts(older: Diff, entries: Accounts) returns (d: Diff)
    ensures d == Merge(older, Diff(entries, {}))
  {
    d := older;
    var rest := entries.Keys;
    while rest != {}
      invariant rest <= entries.Keys
      invariant d.upserts == older.upserts + (entries - rest)
      invariant d.deletes == older.deletes - (entries.Keys - rest)
      decreases rest
    {
      var a :| a in rest;
      d := Diff(d.upserts[a := entries[a]], d.deletes - {a});
      assert entries - (rest - {a}) == (entries - rest)[a := entries[a]];
      rest := rest - {a};
    }
  }

  method ReplayDeletes(older: Diff, removed: set<Address>) returns (d: Diff)
    ensures d == Merge(older, Diff(map[], removed))
  {
    d := older;
    var rest := removed;
    while rest != {}
      invariant rest <= removed
      invariant d.upserts == older.upserts - (removed - rest)
      invariant d.deletes == older.deletes + (removed - rest)
      decreases rest
    {
      var a :| a in rest;
      d := Diff(d.upserts - {a}, d.deletes + {a});
      rest := rest - {a};
    }
  }

  class InMemoryStateStore {
    var data: Accounts

    constructor ()
      ensures data == map[]
    {
      data := map[];
    }

    method ApplyDiff(diff: Diff)
      modifies this
      ensures data == Apply(old(data), diff)
    {
      var rest := diff.upserts.Keys;
      while rest != {}
        invariant rest <= diff.upserts.Keys
        invariant data == old(data) + (diff.upserts - rest)
        decreases rest
      {
        var a :| a in rest;
        data := data[a := diff.upserts[a]];
        rest := rest - {a};
      }
      var gone := diff.deletes;
      while gone != {}
        invariant gone <= diff.deletes
        invariant data == (old(data) + diff.upserts) - (diff.deletes - gone)
        decreases gone
      {
        var a :| a in gone;
        data := data - {a};
        gone := gone - {a};
      }
    }
  }
}
