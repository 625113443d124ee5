/** When running a block by its dependency forest equals running it in order, and what goes wrong otherwise. */
module Refinement {
  import opened Address
  import opened Executor
  import opened Forest
  import opened Refs
  import opened Schedule
  import opened Sequences
  import opened State
  import opened Wrappers

  /** The transactions of the rows above transaction i in its tree: those whose diffs it sees. */
  function Seen(links: Links, i: nat): seq<nat>
    requires i < |links|
  {
    TreeRowsPlace(links, Root(links, i), Depth(links, i), i);
    Flatten(TreeRows(links, Root(links, i))[..Depth(links, i)])
  }

  ghost predicate SeesEarlierWriters(links: Links, writes: seq<set<Address>>, access: seq<set<Address>>) {
    forall i: nat, a :: i < |links| && i < |access| && a in access[i] ==>
                          Writers(Seen(links, i), writes, a) == Writers(Upto(i), writes, a)
  }

  /** j is seen by i exactly when it stands higher in the same tree. */
  lemma SeenIs(links: Links, i: nat, j: nat)
    requires i < |links|
    ensures j in Seen(links, i) <==>
        j < |links| && Root(links, j) == Root(links, i) && Depth(links, j) < Depth(links, i)
  {
    var root := Root(links, i);
    TreeRowsPlace(links, root, Depth(links, i), i);
    var rows, above: Rows := TreeRows(links, root), TreeRows(links, root)[..Depth(links, i)];
    FlattenIn(above, j);
    if j in Seen(links, i) {
      var r: nat :| r < |above| && j in above[r];
      TreeRowsPlace(links, root, r, j);
    }
    if j < |links| && Root(links, j) == root && Depth(links, j) < Depth(links, i) {
      TreeRowsPlace(links, root, Depth(links, j), j);
      assert j in above[Depth(links, j)];
    }
  }

  /** The condition on the plan, in terms of the forest. */
  lemma OrderKeptIs(links: Links, roots: seq<nat>, writes: seq<set<Address>>, access: seq<set<Address>>)
    requires AreRoots(links, roots) && |access| == |links|
    ensures OrderKept(PlanOf(links, roots), writes, access) <==> SeesEarlierWriters(links, writes, access)
  {
    var plan := PlanOf(links, roots);
    forall i: nat, t: nat, r: nat | Placed(plan, i, t, r) ensures i < |links| && Before(plan, t, r) == Seen(links, i) {
      PlacedIs(links, roots, i, t, r);
    }
    if OrderKept(plan, writes, access) {
      forall i: nat, a | i < |links| && a in access[i]
        ensures Writers(Seen(links, i), writes, a) == Writers(Upto(i), writes, a)
      {
        PlanIsWellPlaced(links, roots);
        assert InPlan(plan, i);
        var t, r :| Placed(plan, i, t, r);
      }
    }
  }

  // ---- The exact condition ----

  /** Every execution that keeps to the declared accounts gives, run by the forest, what it gives run in order. */
  ghost predicate ForestRefines(base: Accounts, links: Links, writes: seq<set<Address>>, deletable: seq<set<Address>>,
                                access: seq<set<Address>>) {
    forall exec: Exec, i: nat :: Contract(exec, writes, deletable) && Determined(exec, access) && i < |links| ==>
                                   BlockResult(exec, base, links, i) == SerialResult(exec, base, i)
  }

  ghost function SomeRoots(links: Links): (roots: seq<nat>)
    ensures AreRoots(links, roots)
  {
    RootsFrom(links, 0)
  }

  ghost function RootsFrom(links: Links, k: nat): (roots: seq<nat>)
    requires k <= |links|
    ensures forall r: nat :: r in roots <==> k <= r < |links| && links[r] == None
    ensures Distinct(roots)
    decreases |links| - k
  {
    if k == |links| then []
    else if links[k] == None then RootsFrom(links, k + 1) + [k]
    else RootsFrom(links, k + 1)
  }

  /**
   * A forest run can stand in for the serial run of a block exactly when every transaction finds, among the
   * transactions above it in its tree, the earlier writers of each account it accesses, all of them, no others, and in
   * block order, and accesses no account of the base that one of them can delete.
   */
  lemma ForestRefinesExactlyWhen(base: Accounts, links: Links, writes: seq<set<Address>>,
                                 deletable: seq<set<Address>>, access: seq<set<Address>>)
    requires |writes| == |deletable| == |access| == |links|
    ensures ForestRefines(base, links, writes, deletable, access) <==>
            SeesEarlierWriters(links, writes, access) && NoDeletionSeen(base, writes, deletable, access)
  {
    var roots := SomeRoots(links);
    var plan := PlanOf(links, roots);
    PlanIsWellPlaced(links, roots);
    OrderKeptIs(links, roots, writes, access);
    RefinesExactlyWhen(base, plan, writes, deletable, access);
    PlanResults(base, links, roots, writes, deletable, access);
  }

  lemma PlanResult(exec: Exec, base: Accounts, links: Links, roots: seq<nat>, i: nat, t: nat, r: nat)
    requires AreRoots(links, roots) && Placed(PlanOf(links, roots), i, t, r)
    ensures i < |links| && ParallelResult(exec, base, PlanOf(links, roots)[t], r, i) ==
        BlockResult(exec, base, links, i)
  {
    PlacedIs(links, roots, i, t, r);
  }

  lemma PlanResults(base: Accounts, links: Links, roots: seq<nat>, writes: seq<set<Address>>,
                    deletable: seq<set<Address>>, access: seq<set<Address>>)
    requires AreRoots(links, roots)
    ensures AlwaysRefines(base, PlanOf(links, roots), writes, deletable, access) <==>
            ForestRefines(base, links, writes, deletable, access)
  {
    var plan := PlanOf(links, roots);
    PlanIsWellPlaced(links, roots);
    hide ParallelResult, BlockResult, SerialResult, Contract, Determined, Placed, PlanOf;
    if AlwaysRefines(base, plan, writes, deletable, access) {
      forall exec: Exec, i: nat | Contract(exec, writes, deletable) && Determined(exec, access) && i < |links|
        ensures BlockResult(exec, base, links, i) == SerialResult(exec, base, i)
      {
        assert InPlan(plan, i);
        var t: nat, r: nat :| Placed(plan, i, t, r);
        PlanResult(exec, base, links, roots, i, t, r);
      }
    }
    if ForestRefines(base, links, writes, deletable, access) {
      forall exec: Exec, i: nat, t: nat, r: nat
        | Contract(exec, writes, deletable) && Determined(exec, access) && Placed(plan, i, t, r)
        ensures t < |plan| && r <= |plan[t]| && ParallelResult(exec, base, plan[t], r, i) == SerialResult(exec, base, i)
      {
        InRange(plan, i, t, r);
        PlanResult(exec, base, links, roots, i, t, r);
      }
    }
  }

  lemma InRange(plan: Plan, i: nat, t: nat, r: nat)
    requires Placed(plan, i, t, r)
    ensures t < |plan| && r < |plan[t]|
  {
  }

  // ---- What the condition demands ----

  /**
   * It demands that of the writers of an account it accesses, a transaction sees the earlier ones and no later ones.
   */
  lemma SeesExactlyTheEarlier(links: Links, writes: seq<set<Address>>, access: seq<set<Address>>, i: nat, j: nat,
                              a: Address)
    requires SeesEarlierWriters(links, writes, access) && |writes| == |access| == |links|
    requires i < |links| && j < |links| && a in access[i] && a in writes[j]
    ensures j < i <==> Root(links, j) == Root(links, i) && Depth(links, j) < Depth(links, i)
  {
    SeenIs(links, i, j);
    UptoIs(i);
    hide Seen;
    WritersIn(Seen(links, i), writes, a);
    WritersIn(Upto(i), writes, a);
    assert j in Writers(Seen(links, i), writes, a) <==> j in Writers(Upto(i), writes, a);
  }

  // ---- A condition that suffices ----

  ghost predicate EarlierWritersAreAncestors(links: Links, writes: seq<set<Address>>, access: seq<set<Address>>) {
    forall i: nat, j: nat, a :: j < i < |links| && i < |access| && j < |writes| && a in access[i] && a in writes[j] ==>
                                  IsAncestor(links, j, i)
  }

  ghost predicate NoLaterWriterAbove(links: Links, writes: seq<set<Address>>, access: seq<set<Address>>) {
    forall i: nat, j: nat, a :: i < j < |links| && i < |access| && j < |writes| && a in access[i] && a in writes[j] ==>
                                  Root(links, i) == Root(links, j) ==> Depth(links, i) <= Depth(links, j)
  }

  ghost predicate ByDepth(links: Links, s: seq<nat>) {
    forall p, q :: 0 <= p < q < |s| && s[p] < |links| && s[q] < |links| ==> Depth(links, s[p]) <= Depth(links, s[q])
  }

  lemma ByDepthConcat(links: Links, s: seq<nat>, t: seq<nat>)
    requires ByDepth(links, s) && ByDepth(links, t)
    requires forall x, y :: x in s && y in t && x < |links| && y < |links| ==> Depth(links, x) <= Depth(links, y)
    ensures ByDepth(links, s + t)
  {
    hide Depth;
    assert forall p :: 0 <= p < |s| ==> s[p] in s;
    assert forall q :: 0 <= q < |t| ==> t[q] in t;
  }

  ghost predicate AtDepth(links: Links, row: seq<nat>, r: nat) {
    forall p :: 0 <= p < |row| ==> row[p] < |links| && Depth(links, row[p]) == r
  }

  ghost predicate RowsAreDepths(links: Links, rows: Rows) {
    forall r: nat :: r < |rows| ==> AtDepth(links, rows[r], r)
  }

  lemma {:induction false} FlattenByDepth(links: Links, rows: Rows, k: nat)
    requires k <= |rows|
    requires RowsAreDepths(links, rows)
    ensures ByDepth(links, Flatten(rows[..k]))
  {
    hide Flatten;
    if k == 0 {
      NothingToFlatten();
    } else {
      FlattenByDepth(links, rows, k - 1);
      FlattenSnoc(rows, k);
      var above: Rows, last: seq<nat> := rows[..k - 1], rows[k - 1];
      forall x: nat | x in Flatten(above) ensures x < |links| && Depth(links, x) < k - 1 {
        FlattenIn(above, x);
        var r: nat :| r < |above| && x in above[r];
        assert AtDepth(links, rows[r], r);
      }
      assert AtDepth(links, last, k - 1);
      assert forall q :: 0 <= q < |last| ==> last[q] in last;
      ByDepthConcat(links, Flatten(above), last);
    }
  }

  lemma NothingToFlatten()
    ensures Flatten([]) == []
  {
  }

  lemma RowsByDepth(links: Links, root: nat, k: nat)
    requires root < |links| && links[root] == None && k <= |TreeRows(links, root)|
    ensures ByDepth(links, Flatten(TreeRows(links, root)[..k]))
  {
    hide TreeRows;
    var rows := TreeRows(links, root);
    forall r: nat | r < |rows| ensures AtDepth(links, rows[r], r) {
      var row: seq<nat> := rows[r];
      forall p | 0 <= p < |row| ensures row[p] < |links| && Depth(links, row[p]) == r {
        TreeRowsPlace(links, root, r, row[p]);
      }
    }
    FlattenByDepth(links, rows, k);
  }

  lemma FlattenSnoc(rows: Rows, k: nat)
    requires 0 < k <= |rows|
    ensures Flatten(rows[..k]) == Flatten(rows[..k - 1]) + rows[k - 1]
  {
    assert rows[..k][..k - 1] == rows[..k - 1];
  }

  lemma {:induction false} WritersByDepth(links: Links, order: seq<nat>, writes: seq<set<Address>>, a: Address)
    requires ByDepth(links, order)
    ensures ByDepth(links, Writers(order, writes, a))
  {
    if order != [] {
      var front, j := order[..|order| - 1], order[|order| - 1];
      WritersByDepth(links, front, writes, a);
      WritersIn(front, writes, a);
      hide Depth;
      forall x | x in Writers(front, writes, a) && x < |links| && j < |links|
          ensures Depth(links, x) <= Depth(links, j) {
        var p :| 0 <= p < |front| && front[p] == x;
        assert order[p] == x;
      }
      ByDepthConcat(links, Writers(front, writes, a), [j]);
    }
  }

  lemma {:induction false} SameMembersSameOrder(s: seq<nat>, t: seq<nat>)
    requires Ascending(s) && Ascending(t) && forall x: nat :: x in s <==> x in t
    ensures s == t
  {
    assert s != [] ==> s[|s| - 1] in t;
    assert t != [] ==> t[|t| - 1] in s;
    if s != [] && t != [] {
      LastIsGreatest(s);
      LastIsGreatest(t);
      var x, front, back := s[|s| - 1], s[..|s| - 1], t[..|t| - 1];
      forall y: nat ensures y in front <==> y in back {
        assert y in s <==> y in front || y == x;
        assert y in t <==> y in back || y == x;
      }
      SameMembersSameOrder(front, back);
    }
  }

  lemma LastIsGreatest(s: seq<nat>)
    requires Ascending(s) && s != []
    ensures forall y :: y in s ==> y <= s[|s| - 1]
    ensures s[|s| - 1] !in s[..|s| - 1]
    ensures s == s[..|s| - 1] + [s[|s| - 1]]
  {
  }

  lemma {:induction false} WritersAscend(n: nat, writes: seq<set<Address>>, a: Address)
    ensures Ascending(Writers(Upto(n), writes, a))
  {
    if n > 0 {
      WritersAscend(n - 1, writes, a);
      assert Upto(n)[..n - 1] == Upto(n - 1) by { UptoIs(n - 1); }
      UptoIs(n - 1);
      UptoIs(n);
      WritersIn(Upto(n - 1), writes, a);
      var w := Writers(Upto(n - 1), writes, a);
      assert forall p :: 0 <= p < |w| ==> w[p] in w;
    }
  }

  /**
   * If every earlier writer of what a transaction accesses is its ancestor, and no later one stands above it in its
   * tree, the forest run refines the serial run.
   */
  lemma AncestorsSuffice(links: Links, writes: seq<set<Address>>, access: seq<set<Address>>)
    requires |writes| == |access| == |links|
    requires EarlierWritersAreAncestors(links, writes, access) && NoLaterWriterAbove(links, writes, access)
    ensures SeesEarlierWriters(links, writes, access)
  {
    forall i: nat, a | i < |links| && a in access[i]
        ensures Writers(Seen(links, i), writes, a) == Writers(Upto(i), writes, a) {
      SeenWritersAscend(links, writes, access, i, a);
      WritersAscend(i, writes, a);
      WritersIn(Upto(i), writes, a);
      UptoIs(i);
      forall j: nat ensures j in Writers(Seen(links, i), writes, a) <==> j in Writers(Upto(i), writes, a) {
        SeenWriters(links, writes, access, i, j, a);
      }
      SameMembersSameOrder(Writers(Seen(links, i), writes, a), Writers(Upto(i), writes, a));
    }
  }

  lemma SeenWriters(links: Links, writes: seq<set<Address>>, access: seq<set<Address>>, i: nat, j: nat, a: Address)
    requires |writes| == |access| == |links| && i < |links| && a in access[i]
    requires EarlierWritersAreAncestors(links, writes, access) && NoLaterWriterAbove(links, writes, access)
    ensures j in Writers(Seen(links, i), writes, a) <==> j < i && a in writes[j]
    ensures j in Writers(Seen(links, i), writes, a) ==> IsAncestor(links, j, i)
  {
    hide Seen, Writers;
    SeenIs(links, i, j);
    WritersIn(Seen(links, i), writes, a);
    if j < i && a in writes[j] {
      AncestorFacts(links, j, i);
    }
  }

  lemma SeenWritersByDepth(links: Links, writes: seq<set<Address>>, i: nat, a: Address)
    requires i < |links|
    ensures ByDepth(links, Writers(Seen(links, i), writes, a)) && Distinct(Writers(Seen(links, i), writes, a))
  {
    TreeRowsPlace(links, Root(links, i), Depth(links, i), i);
    RowsByDepth(links, Root(links, i), Depth(links, i));
    SeenDistinct(links, i);
    hide TreeRows, Flatten, Depth, Root;
    WritersByDepth(links, Seen(links, i), writes, a);
    WritersDistinct(Seen(links, i), writes, a);
  }

  lemma SeenWritersAscend(links: Links, writes: seq<set<Address>>, access: seq<set<Address>>, i: nat, a: Address)
    requires |writes| == |access| == |links| && i < |links| && a in access[i]
    requires EarlierWritersAreAncestors(links, writes, access) && NoLaterWriterAbove(links, writes, access)
    ensures Ascending(Writers(Seen(links, i), writes, a))
  {
    hide Seen, Writers, Depth, Root;
    SeenWritersByDepth(links, writes, i, a);
    var w := Writers(Seen(links, i), writes, a);
    forall p, q | 0 <= p < q < |w| ensures w[p] < w[q] {
      assert w[p] in w && w[q] in w;
      SeenWriters(links, writes, access, i, w[p], a);
      SeenWriters(links, writes, access, i, w[q], a);
      AncestorsAreAChain(links, w[q], w[p], i);
    }
  }

  lemma SeenDistinct(links: Links, i: nat)
    requires i < |links|
    ensures Distinct(Seen(links, i))
  {
    var roots := SomeRoots(links);
    PlanIsWellPlaced(links, roots);
    assert Root(links, i) in roots;
    var t :| 0 <= t < |roots| && roots[t] == Root(links, i);
    PlacedIs(links, roots, i, t, Depth(links, i));
    BeforeDistinct(PlanOf(links, roots), |links|, t, Depth(links, i));
  }

  // ---- The dependencies of a block ----

  function WritesOf(block: Block): (writes: seq<set<Address>>)
    ensures |writes| == |block|
  {
    seq(|block|, i requires 0 <= i < |block| => block[i].written)
  }

  function AccessOf(block: Block): (access: seq<set<Address>>)
    ensures |access| == |block|
  {
    seq(|block|, i requires 0 <= i < |block| => block[i].read + block[i].written)
  }

  /** A transaction depends on another exactly when the other writes something it accesses. */
  lemma DependsOnIs(block: Block, i: nat, j: nat)
    requires i < |block| && j < |block|
    ensures DependsOn(block[i], block[j]) <==> exists a :: a in AccessOf(block)[i] && a in WritesOf(block)[j]
  {
    if DependsOn(block[i], block[j]) {
      var both := if block[i].read * block[j].written != {} then block[i].read * block[j].written
          else block[i].written * block[j].written;
      var a :| a in both;
      assert a in AccessOf(block)[i] && a in WritesOf(block)[j];
    }
    if a :| a in AccessOf(block)[i] && a in WritesOf(block)[j] {
      assert a in block[i].read * block[j].written || a in block[i].written * block[j].written;
    }
  }

  /**
   * The documented promise, under its exact reservations: if every earlier transaction that one depends on is its
   * ancestor in the forest, no transaction that stands above a reader in its tree, though later in the block, writes
   * what it accesses, and none that it depends on can delete an account of the base that it accesses, then the
   * scheduled run of the block returns what running it in order returns.
   */
  lemma ScheduledRunRefinesSerial(exec: Exec, base: Accounts, block: Block, deletable: seq<set<Address>>, i: nat)
    requires |deletable| == |block| && i < |block|
    requires Contract(exec, WritesOf(block), deletable) && Determined(exec, AccessOf(block))
    requires forall m, j: nat :: j < m < |block| && DependsOn(block[m], block[j]) ==> IsAncestor(LinksOf(block), j, m)
    requires NoLaterWriterAbove(LinksOf(block), WritesOf(block), AccessOf(block))
    requires NoDeletionSeen(base, WritesOf(block), deletable, AccessOf(block))
    ensures BlockResult(exec, base, LinksOf(block), i) == SerialResult(exec, base, i)
  {
    var links, writes, access := LinksOf(block), WritesOf(block), AccessOf(block);
    forall m: nat, j: nat, a | j < m < |links| && a in access[m] && a in writes[j] ensures IsAncestor(links, j, m) {
      DependsOnIs(block, m, j);
    }
    AncestorsSuffice(links, writes, access);
    ForestRefinesExactlyWhen(base, links, writes, deletable, access);
  }
}
