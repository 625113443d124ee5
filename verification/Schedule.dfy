/** The schedule of a block: its trees, their rows, running them, and when that equals running the block in order. */
module Schedule {
  import opened Bfs
  import opened Executor
  import opened Forest
  import opened Sequences
  import opened State
  import opened Wrappers

  function Neighbours(g: Graph): (adj: Adjacency)
    ensures |adj| == g.nodes
  {
    seq(g.nodes, u requires 0 <= u => Successors(g.edges, u))
  }

  function Adjacent(links: Links): Adjacency {
    Neighbours(GraphOf(links))
  }

  // ---- Rows of a tree are its depths ----

  /** The transactions of the tree of a root, down to a depth. */
  function DownTo(links: Links, root: nat, k: nat): set<nat> {
    set v | 0 <= v < |links| && Root(links, v) == root && Depth(links, v) <= k
  }

  lemma EdgeIsLink(links: Links, u: nat, v: nat)
    ensures v in Out(Adjacent(links), u) <==> v < |links| && links[v] == Some(u)
  {
    ChildrenAre(links, u);
    if v < |links| && links[v] == Some(u) {
      assert u < |links|;
    }
  }

  lemma LedOneDeeper(links: Links, root: nat, k: nat)
    requires root < |links| && links[root] == None
    ensures LedTo(Adjacent(links), DownTo(links, root, k)) + {root} == DownTo(links, root, k + 1)
  {
    var adj, down := Adjacent(links), DownTo(links, root, k);
    forall v ensures v in LedTo(adj, down) + {root} <==> v in DownTo(links, root, k + 1) {
      if v in LedTo(adj, down) {
        var u :| u in down && v in Out(adj, u);
        EdgeIsLink(links, u, v);
      }
      if v in DownTo(links, root, k + 1) && v != root {
        var u := links[v].value;
        EdgeIsLink(links, u, v);
        assert u in down && v in Out(adj, u);
      }
    }
  }

  lemma RootInDownTo(links: Links, root: nat, k: nat)
    requires root < |links| && links[root] == None
    ensures root in DownTo(links, root, k)
  {
  }

  lemma {:induction false} WithinIsDownTo(links: Links, root: nat, k: nat)
    requires root < |links| && links[root] == None
    ensures Within(Adjacent(links), root, k) == DownTo(links, root, k)
  {
    hide LedTo, Adjacent, Bfs.Row;
    if k == 0 {
      forall v ensures v in DownTo(links, root, 0) <==> v == root {
      }
    } else {
      hide DownTo;
      WithinIsDownTo(links, root, k - 1);
      LedOneDeeper(links, root, k - 1);
      RootInDownTo(links, root, k - 1);
    }
  }

  /** Row k of a tree holds exactly the transactions at depth k below its root. */
  lemma RowIsDepth(links: Links, root: nat, k: nat, v: nat)
    requires root < |links| && links[root] == None
    ensures v in Row(Adjacent(links), root, k) <==> v < |links| && Root(links, v) == root && Depth(links, v) == k
  {
    hide LedTo, Adjacent, Row, Within;
    var adj := Adjacent(links);
    RowIsLevel(adj, root, k);
    assert v in Row(adj, root, k) <==> v in SetOf(Row(adj, root, k));
    WithinIsDownTo(links, root, k);
    if k > 0 {
      WithinIsDownTo(links, root, k - 1);
    }
  }

  lemma {:induction false} DepthBounded(links: Links, v: nat)
    requires v < |links|
    ensures Depth(links, v) <= v
  {
    if links[v].Some? {
      DepthBounded(links, links[v].value);
    }
  }

  lemma LastRowEmpty(links: Links, root: nat)
    requires root < |links| && links[root] == None
    ensures Row(Adjacent(links), root, |links|) == []
  {
    var row := Row(Adjacent(links), root, |links|);
    if row != [] {
      RowIsDepth(links, root, |links|, row[0]);
      DepthBounded(links, row[0]);
    }
  }

  function RowOf(links: Links, root: nat, k: nat): seq<nat> {
    Row(Adjacent(links), root, k)
  }

  /** The first empty row. */
  function Height(links: Links, root: nat, k: nat): nat
    requires k <= |links|
    decreases |links| - k
  {
    if k == |links| || RowOf(links, root, k) == [] then k else Height(links, root, k + 1)
  }

  lemma {:induction false} HeightIs(links: Links, root: nat, k: nat)
    requires k <= |links|
    ensures k <= Height(links, root, k) <= |links|
    ensures forall j :: k <= j < Height(links, root, k) ==> RowOf(links, root, j) != []
    ensures Height(links, root, k) < |links| ==> RowOf(links, root, Height(links, root, k)) == []
    decreases |links| - k
  {
    hide RowOf;
    if k < |links| && RowOf(links, root, k) != [] {
      HeightIs(links, root, k + 1);
    }
  }

  function TreeRows(links: Links, root: nat): Rows {
    seq(Height(links, root, 0), k requires 0 <= k => RowOf(links, root, k))
  }

  /** v stands in its own depth's row of its own root's tree, and nowhere else. */
  lemma TreeRowsPlace(links: Links, root: nat, k: nat, v: nat)
    requires root < |links| && links[root] == None
    ensures k < |TreeRows(links, root)| && v in TreeRows(links, root)[k] <==>
            v < |links| && Root(links, v) == root && Depth(links, v) == k
  {
    RowIsDepth(links, root, k, v);
    if v in RowOf(links, root, k) {
      DepthBounded(links, v);
      NoGaps(links, root, k, v);
    }
  }

  lemma {:induction false} NoGaps(links: Links, root: nat, k: nat, v: nat)
    requires root < |links| && links[root] == None
    requires v < |links| && Root(links, v) == root && Depth(links, v) == k
    ensures k < Height(links, root, 0)
  {
    hide Row, Adjacent;
    var h := Height(links, root, 0);
    HeightIs(links, root, 0);
    if h <= k {
      AncestorAt(links, v, h);
      var u: nat :| u < |links| && Root(links, u) == root && Depth(links, u) == h;
      RowIsDepth(links, root, h, u);
      DepthBounded(links, u);
    }
  }

  lemma {:induction false} AncestorAt(links: Links, v: nat, d: nat)
    requires v < |links| && d <= Depth(links, v)
    ensures exists u: nat :: u < |links| && Root(links, u) == Root(links, v) && Depth(links, u) == d
  {
    if d < Depth(links, v) {
      AncestorAt(links, links[v].value, d);
    }
  }

  // ---- The plan of a block ----

  ghost predicate AreRoots(links: Links, roots: seq<nat>) {
    && (forall r: nat :: r in roots <==> r < |links| && links[r] == None)
    && Distinct(roots)
  }

  function PlanOf(links: Links, roots: seq<nat>): Plan {
    seq(|roots|, t requires 0 <= t < |roots| => TreeRows(links, roots[t]))
  }

  lemma PlacedIs(links: Links, roots: seq<nat>, i: nat, t: nat, r: nat)
    requires AreRoots(links, roots)
    ensures Placed(PlanOf(links, roots), i, t, r) <==>
            t < |roots| && i < |links| && Root(links, i) == roots[t] && Depth(links, i) == r
  {
    if t < |roots| {
      assert roots[t] in roots;
      hide TreeRows;
      TreeRowsPlace(links, roots[t], r, i);
    }
  }

  /** Exactly once: every transaction of the block stands in one row of one tree, and no row repeats it. */
  lemma PlanIsWellPlaced(links: Links, roots: seq<nat>)
    requires AreRoots(links, roots)
    ensures WellPlaced(PlanOf(links, roots), |links|) && NoRepeats(PlanOf(links, roots))
  {
    var plan := PlanOf(links, roots);
    forall i: nat | i < |links| ensures InPlan(plan, i) {
      assert Root(links, i) in roots;
      var t :| 0 <= t < |roots| && roots[t] == Root(links, i);
      PlacedIs(links, roots, i, t, Depth(links, i));
    }
    forall i: nat, t: nat, r: nat | Placed(plan, i, t, r) ensures i < |links| {
      PlacedIs(links, roots, i, t, r);
    }
    forall i: nat, t: nat, r: nat, u: nat, q: nat | Placed(plan, i, t, r) && Placed(plan, i, u, q)
        ensures t == u && r == q {
      PlacedIs(links, roots, i, t, r);
      PlacedIs(links, roots, i, u, q);
    }
    forall t, r | 0 <= t < |plan| && 0 <= r < |plan[t]| ensures Distinct(plan[t][r]) {
      RowIsLevel(Adjacent(links), roots[t], r);
      assert plan[t][r] == RowOf(links, roots[t], r);
    }
  }

  /** What the row-parallel run gives transaction i. */
  function BlockResult(exec: Exec, base: Accounts, links: Links, i: nat): TxResult
    requires i < |links|
  {
    TreeRowsPlace(links, Root(links, i), Depth(links, i), i);
    ParallelResult(exec, base, TreeRows(links, Root(links, i)), Depth(links, i), i)
  }

  // ---- Running a tree ----

  type Numbered = (TxResult, nat)

  function RowResults(exec: Exec, base: Accounts, acc: Diff, row: seq<nat>): seq<Numbered> {
    seq(|row|, p requires 0 <= p < |row| => (RunOn(exec, base, acc)(row[p]), row[p]))
  }

  /** The results of the first k rows of a tree, in the order in which they are produced. */
  function TreeResults(exec: Exec, base: Accounts, rows: Rows, k: nat): seq<Numbered>
    requires k <= |rows|
  {
    if k == 0 then []
    else TreeResults(exec, base, rows, k - 1) + RowResults(exec, base, RowStart(exec, base, rows, k - 1), rows[k - 1])
  }

  /** Empties the cells of a row; a cell that had been emptied before would be a failure. */
  method TakeCells(cells: array<Option<nat>>, row: seq<nat>) returns (taken: seq<nat>)
    requires Distinct(row) && forall v :: v in row ==> v < cells.Length && cells[v] == Some(v)
    modifies cells
    ensures taken == row
    ensures forall v :: 0 <= v < cells.Length ==> cells[v] == if v in row then None else old(cells[v])
  {
    taken := [];
    for p := 0 to |row|
      invariant taken == row[..p]
      invariant forall v :: 0 <= v < cells.Length ==> cells[v] == if v in row[..p] then None else old(cells[v])
    {
      assert row[p] in row && row[p] !in row[..p];
      var cell := cells[row[p]];
      assert cell.Some?;
      cells[row[p]] := None;
      taken := taken + [cell.value];
      assert row[..p + 1] == row[..p] + [row[p]];
    }
    assert row[..|row|] == row;
  }

  method RunRow(exec: Exec, base: Accounts, acc: Diff, row: seq<nat>) returns (results: seq<Numbered>)
    ensures results == RowResults(exec, base, acc, row)
  {
    var state := Overlay(base, acc);
    results := [];
    for p := 0 to |row|
      invariant |results| == p && forall q :: 0 <= q < p ==> results[q] == (exec(row[q], state), row[q])
    {
      results := results + [(exec(row[p], state), row[p])];
    }
    assert forall q :: 0 <= q < |row| ==> RunOn(exec, base, acc)(row[q]) == exec(row[q], state);
  }

  method AccumulateRow(before: Diff, results: seq<Numbered>, ghost row: seq<nat>, ghost run: nat -> TxResult)
      returns (acc: Diff)
    requires |results| == |row| && forall p :: 0 <= p < |row| ==> results[p] == (run(row[p]), row[p])
    ensures acc == Accumulate(before, row, run)
  {
    acc := before;
    for p := 0 to |results|
      invariant acc == Accumulate(before, row[..p], run)
    {
      assert row[..p + 1][..p] == row[..p];
      if results[p].0.Ok? {
        acc := MergeDiffs(acc, results[p].0.value);
      }
    }
    assert row[..|results|] == row;
  }

  ghost predicate InTree(links: Links, root: nat, v: nat) {
    v < |links| && Root(links, v) == root
  }

  /**
   * Runs a tree row by row. Every transaction of the tree is taken from its cell exactly once, no other cell is
   * touched, and every transaction returns what it returns on the overlay of the rows above it.
   */
  method RunTree(exec: Exec, base: Accounts, g: Graph, root: nat, cells: array<Option<nat>>, ghost links: Links)
    returns (txs: seq<Numbered>)
    requires g == GraphOf(links) && root < |links| && links[root] == None && cells.Length == |links|
    requires forall v :: 0 <= v < |links| && InTree(links, root, v) ==> cells[v] == Some(v)
    modifies cells
    ensures txs == TreeResults(exec, base, TreeRows(links, root), |TreeRows(links, root)|)
    ensures forall v :: 0 <= v < |links| ==> cells[v] == if InTree(links, root, v) then None else old(cells[v])
  {
    hide Row, Within, Carried, Shape, Neighbours, TreeRows, Accumulate, RunOn;
    var adj := Neighbours(g);
    ghost var rows := TreeRows(links, root);
    var acc := EMPTY;
    txs := [];
    var iter := new BfsRows(adj, root);
    var next := iter.Next(adj, root);
    ghost var k := 0;
    while next.Some?
      invariant k <= |links| && iter.row == k + 1 && iter.Valid(adj, root)
      invariant next == if RowOf(links, root, k) == [] then None else Some(RowOf(links, root, k))
      invariant k <= |rows| && txs == TreeResults(exec, base, rows, k) && acc == RowStart(exec, base, rows, k)
      invariant forall v :: 0 <= v < |links| ==>
                  cells[v] == if InTree(links, root, v) && Depth(links, v) < k then None else old(cells[v])
      decreases |links| - k
    {
      RowFacts(links, root, k);
      var row := TakeCells(cells, next.value);
      var results := RunRow(exec, base, acc, row);
      acc := AccumulateRow(acc, results, row, RunOn(exec, base, acc));
      txs := txs + results;
      k := k + 1;
      next := iter.Next(adj, root);
    }
    HeightReached(links, root, k);
  }

  lemma RowFacts(links: Links, root: nat, k: nat)
    requires root < |links| && links[root] == None && RowOf(links, root, k) != [] && k <= |TreeRows(links, root)|
    ensures k < |TreeRows(links, root)| <= |links| && TreeRows(links, root)[k] == RowOf(links, root, k)
    ensures Distinct(RowOf(links, root, k))
    ensures forall v: nat :: v in RowOf(links, root, k) <==> InTree(links, root, v) && Depth(links, v) == k
  {
    RowIsLevel(Adjacent(links), root, k);
    hide Row, Adjacent;
    HeightIs(links, root, 0);
    forall v: nat ensures v in RowOf(links, root, k) <==> InTree(links, root, v) && Depth(links, v) == k {
      RowIsDepth(links, root, k, v);
    }
    LastRowEmpty(links, root);
  }

  lemma HeightReached(links: Links, root: nat, k: nat)
    requires root < |links| && links[root] == None && RowOf(links, root, k) == [] && k <= |TreeRows(links, root)|
    ensures k == |TreeRows(links, root)|
    ensures forall v :: 0 <= v < |links| && InTree(links, root, v) ==> Depth(links, v) < k
  {
    hide Row, Adjacent;
    HeightIs(links, root, 0);
    forall v | 0 <= v < |links| && InTree(links, root, v) ensures Depth(links, v) < |TreeRows(links, root)| {
      TreeRowsPlace(links, root, Depth(links, v), v);
    }
  }

  // ---- Running the block ----

  ghost predicate Ascends<T>(pairs: seq<(T, nat)>) {
    forall p, q :: 0 <= p < q < |pairs| ==> pairs[p].1 < pairs[q].1
  }

  lemma InsertedAscends<T>(front: seq<(T, nat)>, x: (T, nat), back: seq<(T, nat)>)
    requires Ascends(front) && Ascends(back)
    requires forall p :: 0 <= p < |front| ==> front[p].1 < x.1
    requires forall q :: 0 <= q < |back| ==> x.1 < back[q].1
    ensures Ascends(front + [x] + back)
  {
  }

  lemma InsertedMembers<T>(s: seq<T>, at: nat, x: T)
    requires at <= |s|
    ensures forall y :: y in s[..at] + [x] + s[at..] <==> y in s || y == x
  {
    assert s == s[..at] + s[at..];
  }

  method Insert<T>(sorted: seq<(T, nat)>, x: (T, nat)) returns (r: seq<(T, nat)>)
    requires Ascends(sorted) && forall p :: 0 <= p < |sorted| ==> sorted[p].1 != x.1
    ensures Ascends(r) && |r| == |sorted| + 1
    ensures forall y :: y in r <==> y in sorted || y == x
  {
    var at := |sorted|;
    while at > 0 && sorted[at - 1].1 > x.1
      invariant 0 <= at <= |sorted|
      invariant forall q :: at <= q < |sorted| ==> sorted[q].1 > x.1
    {
      at := at - 1;
    }
    InsertedAscends(sorted[..at], x, sorted[at..]);
    r := sorted[..at] + [x] + sorted[at..];
    InsertedMembers(sorted, at, x);
  }

  /** Sorting by position; no two results share one. */
  method SortByPosition<T>(pairs: seq<(T, nat)>) returns (sorted: seq<(T, nat)>)
    requires forall p, q :: 0 <= p < q < |pairs| ==> pairs[p].1 != pairs[q].1
    ensures Ascends(sorted) && |sorted| == |pairs|
    ensures forall y :: y in sorted <==> y in pairs
  {
    sorted := [];
    for i := 0 to |pairs|
      invariant Ascends(sorted) && |sorted| == i
      invariant forall y :: y in sorted <==> y in pairs[..i]
    {
      forall p | 0 <= p < |sorted| ensures sorted[p].1 != pairs[i].1 {
        assert sorted[p] in pairs[..i];
      }
      sorted := Insert(sorted, pairs[i]);
      assert pairs[..i + 1] == pairs[..i] + [pairs[i]];
    }
    assert pairs[..|pairs|] == pairs;
  }

  /** n ascending positions below n are 0, 1, 2, ... */
  lemma {:induction false} PositionsAreIndices<T>(sorted: seq<(T, nat)>, n: nat, i: nat)
    requires Ascends(sorted) && |sorted| == n && i < n
    requires forall p :: 0 <= p < n ==> sorted[p].1 < n
    ensures sorted[i].1 == i
  {
    AtLeast(sorted, i);
    AtMost(sorted, n, i);
  }

  lemma {:induction false} AtLeast<T>(sorted: seq<(T, nat)>, i: nat)
    requires Ascends(sorted) && i < |sorted|
    ensures sorted[i].1 >= i
  {
    if i > 0 {
      AtLeast(sorted, i - 1);
    }
  }

  lemma {:induction false} AtMost<T>(sorted: seq<(T, nat)>, n: nat, i: nat)
    requires Ascends(sorted) && |sorted| == n && i < n && forall p :: 0 <= p < n ==> sorted[p].1 < n
    ensures sorted[i].1 <= i
    decreases n - i
  {
    if i < n - 1 {
      AtMost(sorted, n, i + 1);
    }
  }

  /** The results of exactly the given transactions, each once and each its own. */
  ghost predicate ResultsOf(exec: Exec, base: Accounts, links: Links, txs: set<nat>, results: seq<Numbered>) {
    && (forall i :: i in txs ==> i < |links| && (BlockResult(exec, base, links, i), i) in results)
    && (forall p :: 0 <= p < |results| ==> results[p].1 in txs && results[p].1 < |links|
                                           && results[p].0 == BlockResult(exec, base, links, results[p].1))
    && (forall p, q :: 0 <= p < q < |results| ==> results[p].1 != results[q].1)
  }

  lemma ResultsConcat(exec: Exec, base: Accounts, links: Links, a: set<nat>, b: set<nat>, x: seq<Numbered>,
                      y: seq<Numbered>)
    requires ResultsOf(exec, base, links, a, x) && ResultsOf(exec, base, links, b, y) && a !! b
    ensures ResultsOf(exec, base, links, a + b, x + y)
  {
    hide BlockResult;
    forall i | i in a + b ensures i < |links| && (BlockResult(exec, base, links, i), i) in x + y {
    }
  }

  function AtDepths(links: Links, root: nat, from: nat, to: nat): set<nat> {
    set v | 0 <= v < |links| && Root(links, v) == root && from <= Depth(links, v) < to
  }

  lemma RowResultsAre(exec: Exec, base: Accounts, links: Links, root: nat, k: nat)
    requires root < |links| && links[root] == None && k < |TreeRows(links, root)|
    ensures var rows := TreeRows(links, root);
            ResultsOf(exec, base, links, AtDepths(links, root, k, k + 1),
                      RowResults(exec, base, RowStart(exec, base, rows, k), rows[k]))
  {
    hide Row, Adjacent;
    var rows := TreeRows(links, root);
    var results := RowResults(exec, base, RowStart(exec, base, rows, k), rows[k]);
    HeightIs(links, root, 0);
    RowFacts(links, root, k);
    forall p | 0 <= p < |results|
      ensures results[p].1 in AtDepths(links, root, k, k + 1) && results[p].1 < |links|
              && results[p].0 == BlockResult(exec, base, links, results[p].1)
    {
      var i := rows[k][p];
      assert i in rows[k] && InTree(links, root, i) && Depth(links, i) == k;
      assert results[p] == (RunOn(exec, base, RowStart(exec, base, rows, k))(i), i);
      assert BlockResult(exec, base, links, i) == ParallelResult(exec, base, rows, k, i);
    }
    forall i | i in AtDepths(links, root, k, k + 1)
        ensures i < |links| && (BlockResult(exec, base, links, i), i) in results {
      assert InTree(links, root, i) && i in rows[k];
      var p :| 0 <= p < |rows[k]| && rows[k][p] == i;
      assert results[p] == (BlockResult(exec, base, links, i), i);
    }
  }

  lemma {:induction false} TreeResultsAre(exec: Exec, base: Accounts, links: Links, root: nat, k: nat)
    requires root < |links| && links[root] == None && k <= |TreeRows(links, root)|
    ensures ResultsOf(exec, base, links, AtDepths(links, root, 0, k), TreeResults(exec, base, TreeRows(links, root), k))
  {
    hide ResultsOf, RowResults, TreeRows;
    if k == 0 {
      NoResults(exec, base, links);
      assert AtDepths(links, root, 0, 0) == {};
    } else {
      TreeResultsAre(exec, base, links, root, k - 1);
      RowResultsAre(exec, base, links, root, k - 1);
      var rows := TreeRows(links, root);
      ResultsConcat(exec, base, links, AtDepths(links, root, 0, k - 1), AtDepths(links, root, k - 1, k),
                    TreeResults(exec, base, rows, k - 1),
                        RowResults(exec, base, RowStart(exec, base, rows, k - 1), rows[k - 1]));
      assert AtDepths(links, root, 0, k - 1) + AtDepths(links, root, k - 1, k) == AtDepths(links, root, 0, k);
    }
  }

  function InTrees(links: Links, roots: seq<nat>): set<nat> {
    set v | 0 <= v < |links| && Root(links, v) in roots
  }

  lemma WholeTreeResults(exec: Exec, base: Accounts, links: Links, root: nat)
    requires root < |links| && links[root] == None
    ensures var rows := TreeRows(links, root);
            ResultsOf(exec, base, links, InTrees(links, [root]), TreeResults(exec, base, rows, |rows|))
  {
    var rows := TreeRows(links, root);
    TreeResultsAre(exec, base, links, root, |rows|);
    forall v | 0 <= v < |links| && Root(links, v) == root ensures Depth(links, v) < |rows| {
      TreeRowsPlace(links, root, Depth(links, v), v);
    }
    assert AtDepths(links, root, 0, |rows|) == InTrees(links, [root]);
  }

  /**
   * Runs all trees and puts the results back in block order: one result per transaction, at its own position, and every
   * cell is emptied.
   */
  method Run(exec: Exec, base: Accounts, g: Graph, cells: array<Option<nat>>, ghost links: Links)
      returns (results: seq<TxResult>)
    requires g == GraphOf(links) && cells.Length == |links| && forall v :: 0 <= v < |links| ==> cells[v] == Some(v)
    modifies cells
    ensures |results| == |links| && forall i :: 0 <= i < |links| ==> results[i] == BlockResult(exec, base, links, i)
    ensures forall v :: 0 <= v < |links| ==> cells[v] == None
  {
    hide BlockResult, ResultsOf, TreeResults, TreeRows;
    var roots := Roots(g, links);
    var trees: seq<Numbered> := [];
    NoResults(exec, base, links);
    assert InTrees(links, []) == {};
    for t := 0 to |roots|
      invariant forall v :: 0 <= v < |links| ==> cells[v] == if Root(links, v) in roots[..t] then None else Some(v)
      invariant ResultsOf(exec, base, links, InTrees(links, roots[..t]), trees)
    {
      assert roots[t] in roots && roots[t] !in roots[..t];
      assert roots[..t + 1] == roots[..t] + [roots[t]];
      var tree := RunTree(exec, base, g, roots[t], cells, links);
      WholeTreeResults(exec, base, links, roots[t]);
      ResultsConcat(exec, base, links, InTrees(links, roots[..t]), InTrees(links, [roots[t]]), trees, tree);
      assert InTrees(links, roots[..t]) + InTrees(links, [roots[t]]) == InTrees(links, roots[..t + 1]);
      trees := trees + tree;
    }
    assert roots[..|roots|] == roots;
    AllInTrees(links, roots);
    results := InBlockOrder(exec, base, links, trees);
  }

  function Positions(n: nat): set<nat> {
    SetOf(Upto(n))
  }

  lemma NoResults(exec: Exec, base: Accounts, links: Links)
    ensures ResultsOf(exec, base, links, {}, [])
  {
  }

  lemma AllInTrees(links: Links, roots: seq<nat>)
    requires forall r: nat :: r in roots <==> r < |links| && links[r] == None
    ensures InTrees(links, roots) == Positions(|links|)
  {
    UptoIs(|links|);
  }

  /** Sorted by position, the results of all transactions are one per transaction, at its own place. */
  lemma SortedResults(exec: Exec, base: Accounts, links: Links, gathered: seq<Numbered>, sorted: seq<Numbered>)
    requires ResultsOf(exec, base, links, Positions(|links|), gathered)
    requires Ascends(sorted) && forall y :: y in sorted <==> y in gathered
    ensures |sorted| == |links| && forall i :: 0 <= i < |links| ==> sorted[i] == (BlockResult(exec, base, links, i), i)
  {
    hide BlockResult, Upto;
    UptoIs(|links|);
    var positions := seq(|sorted|, p requires 0 <= p < |sorted| => sorted[p].1);
    forall p | 0 <= p < |sorted|
        ensures sorted[p].1 < |links| && sorted[p].0 == BlockResult(exec, base, links, sorted[p].1) {
      assert sorted[p] in sorted && sorted[p] in gathered;
    }
    forall v: nat ensures v in positions <==> v < |links| {
      if v < |links| {
        assert v in Positions(|links|);
        assert (BlockResult(exec, base, links, v), v) in sorted;
        var p :| 0 <= p < |sorted| && sorted[p] == (BlockResult(exec, base, links, v), v);
        assert positions[p] == v;
      }
    }
    CountDistinct(positions, |links|);
    forall i | 0 <= i < |links| ensures sorted[i] == (BlockResult(exec, base, links, i), i) {
      PositionsAreIndices(sorted, |links|, i);
    }
  }

  method InBlockOrder(exec: Exec, base: Accounts, ghost links: Links, trees: seq<Numbered>)
      returns (results: seq<TxResult>)
    requires ResultsOf(exec, base, links, Positions(|links|), trees)
    ensures |results| == |links| && forall i :: 0 <= i < |links| ==> results[i] == BlockResult(exec, base, links, i)
  {
    hide BlockResult;
    var sorted := SortByPosition(trees);
    SortedResults(exec, base, links, trees, sorted);
    results := [];
    for i := 0 to |sorted|
      invariant |results| == i && forall j :: 0 <= j < i ==> results[j] == sorted[j].0
    {
      results := results + [sorted[i].0];
    }
  }

  /** A sequence without repetition whose members are the numbers below n has length n. */
  lemma {:induction false} CountDistinct(s: seq<nat>, n: nat)
    requires Distinct(s) && forall v: nat :: v in s <==> v < n
    ensures |s| == n
  {
    assert s != [] ==> s[0] in s;
    if n > 0 {
      var last: nat := n - 1;
      assert last in s;
      var p :| 0 <= p < |s| && s[p] == last;
      var rest := s[..p] + s[p + 1..];
      assert forall q :: 0 <= q < |rest| ==> rest[q] == if q < p then s[q] else s[q + 1];
      forall v: nat ensures v in rest <==> v < n - 1 {
        if v < n - 1 {
          assert v in s;
          var q :| 0 <= q < |s| && s[q] == v;
          assert rest[if q < p then q else q - 1] == v;
        }
        if v in rest {
          var q :| 0 <= q < |rest| && rest[q] == v;
          assert s[if q < p then q else q + 1] in s;
        }
      }
      CountDistinct(rest, n - 1);
    }
  }

  /** Schedules and runs a block, given what each transaction reads and writes. */
  method ExecuteMany(exec: Exec, base: Accounts, block: Block) returns (results: seq<TxResult>)
    ensures |results| == |block|
    ensures forall i :: 0 <= i < |block| ==> results[i] == BlockResult(exec, base, LinksOf(block), i)
  {
    var g := BuildGraph(block);
    var cells := new Option<nat>[|block|](v => Some(v));
    results := Run(exec, base, g, cells, LinksOf(block));
  }
}
