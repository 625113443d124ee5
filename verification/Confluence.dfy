/** The parallel run as interleaved atomic steps of the workers of trees and rows, which share the cells of a block. */
module Confluence {
  import opened Bfs
  import opened Executor
  import opened Forest
  import opened Schedule
  import opened Sequences
  import opened State
  import opened Wrappers

  datatype Worker = Worker(row: nat, taken: nat, results: map<nat, TxResult>, acc: Diff, out: seq<Numbered>)

  datatype Machine = Machine(full: set<nat>, workers: seq<Worker>, panicked: bool)

  datatype Action = Take(t: nat) | Execute(t: nat, p: nat) | Finish(t: nat)

  function Start(plan: Plan, n: nat): Machine {
    Machine(SetOf(Upto(n)), seq(|plan|, t => Worker(0, 0, map[], EMPTY, [])), false)
  }

  predicate Enabled(plan: Plan, m: Machine, action: Action) {
    && action.t < |plan| && action.t < |m.workers|
    && var rows, w := plan[action.t], m.workers[action.t];
    && w.row < |rows|
    && match action
       case Take(_) => w.taken < |rows[w.row]|
       case Execute(_, p) => w.taken == |rows[w.row]| && p < |rows[w.row]| && p !in w.results
       case Finish(_) => w.taken == |rows[w.row]| && forall p :: 0 <= p < |rows[w.row]| ==> p in w.results
  }

  function ResultAt(w: Worker, p: nat): TxResult {
    if p in w.results then w.results[p] else Err(Primitives.Cancelled)
  }

  /** The results of a row in row order, and their accumulation. */
  function Collected(row: seq<nat>, w: Worker): seq<Numbered> {
    seq(|row|, p requires 0 <= p < |row| => (ResultAt(w, p), row[p]))
  }

  function AccumulateResults(acc: Diff, results: seq<Numbered>): Diff {
    if results == [] then acc
    else
      var before := AccumulateResults(acc, results[..|results| - 1]);
      match results[|results| - 1].0
      case Ok(d) => Merge(before, d)
      case Err(_) => before
  }

  function Step(exec: Exec, base: Accounts, plan: Plan, m: Machine, action: Action): Machine
    requires Enabled(plan, m, action)
  {
    var t := action.t;
    var rows, w := plan[t], m.workers[t];
    var row := rows[w.row];
    match action
    case Take(_) =>
      var v := row[w.taken];
      if v !in m.full then m.(panicked := true)
      else m.(full := m.full - {v}, workers := m.workers[t := w.(taken := w.taken + 1)])
    case Execute(_, p) =>
      m.(workers := m.workers[t := w.(results := w.results[p := exec(row[p], Overlay(base, w.acc))])])
    case Finish(_) =>
      var collected := Collected(row, w);
      m.(workers := m.workers[t := Worker(w.row + 1, 0, map[], AccumulateResults(w.acc, collected), w.out + collected)])
  }

  // ---- What every step keeps ----

  /** The worker of a tree has taken v from its cell. */
  predicate Gone(rows: Rows, w: Worker, v: nat) {
    (exists r :: 0 <= r < w.row && r < |rows| && v in rows[r])
    || (w.row < |rows| && exists p :: 0 <= p < w.taken && p < |rows[w.row]| && rows[w.row][p] == v)
  }

  predicate WorkerInv(exec: Exec, base: Accounts, rows: Rows, w: Worker) {
    && w.row <= |rows|
    && w.acc == RowStart(exec, base, rows, w.row)
    && w.out == TreeResults(exec, base, rows, w.row)
    && (w.row < |rows| ==> w.taken <= |rows[w.row]|)
    && (w.row == |rows| ==> w.taken == 0 && w.results == map[])
    && (w.row < |rows| && w.taken < |rows[w.row]| ==> w.results == map[])
    && (forall p :: p in w.results ==> w.row < |rows| && p < |rows[w.row]|
                                       && w.results[p] == RunOn(exec, base, w.acc)(rows[w.row][p]))
  }

  ghost predicate Inv(exec: Exec, base: Accounts, plan: Plan, n: nat, m: Machine) {
    && |m.workers| == |plan| && !m.panicked
    && (forall t :: 0 <= t < |plan| ==> WorkerInv(exec, base, plan[t], m.workers[t]))
    && (forall v: nat :: v in m.full ==> v < n)
    && (forall v: nat, t :: v < n && 0 <= t < |plan| && Gone(plan[t], m.workers[t], v) ==> v !in m.full)
    && (forall v: nat :: v < n && v !in m.full ==> GoneSomewhere(plan, m, v))
  }

  predicate GoneSomewhere(plan: Plan, m: Machine, v: nat) {
    exists t :: 0 <= t < |plan| && t < |m.workers| && Gone(plan[t], m.workers[t], v)
  }

  lemma StartInv(exec: Exec, base: Accounts, plan: Plan, n: nat)
    ensures Inv(exec, base, plan, n, Start(plan, n))
  {
    UptoIs(n);
  }

  /** Whoever has taken v stands at its place in the plan. */
  lemma GoneIsPlaced(rows: Rows, w: Worker, v: nat) returns (r: nat)
    requires Gone(rows, w, v)
    ensures r < |rows| && v in rows[r] && r <= w.row
    ensures r == w.row ==> exists p :: 0 <= p < w.taken && p < |rows[r]| && rows[r][p] == v
  {
    if q :| 0 <= q < w.row && q < |rows| && v in rows[q] {
      r := q;
    } else {
      r := w.row;
    }
  }

  /** The cell a worker is about to take from is still full: "visited more than once" cannot happen. */
  lemma CellIsFull(exec: Exec, base: Accounts, plan: Plan, n: nat, m: Machine, t: nat)
    requires WellPlaced(plan, n) && NoRepeats(plan) && Inv(exec, base, plan, n, m) && Enabled(plan, m, Take(t))
    ensures plan[t][m.workers[t].row][m.workers[t].taken] in m.full
  {
    var w := m.workers[t];
    var row: seq<nat> := plan[t][w.row];
    var v := row[w.taken];
    assert v in row && Placed(plan, v, t, w.row) && Distinct(row);
    forall u | 0 <= u < |plan| ensures !Gone(plan[u], m.workers[u], v) {
      if Gone(plan[u], m.workers[u], v) {
        var r := GoneIsPlaced(plan[u], m.workers[u], v);
        assert Placed(plan, v, u, r);
      }
    }
    assert !GoneSomewhere(plan, m, v);
  }

  lemma StepKeepsWorker(exec: Exec, base: Accounts, plan: Plan, n: nat, m: Machine, action: Action)
    requires WellPlaced(plan, n) && NoRepeats(plan) && Inv(exec, base, plan, n, m) && Enabled(plan, m, action)
    ensures var next := Step(exec, base, plan, m, action);
            && !next.panicked && |next.workers| == |plan|
            && WorkerInv(exec, base, plan[action.t], next.workers[action.t])
            && (forall u :: 0 <= u < |plan| && u != action.t ==> next.workers[u] == m.workers[u])
  {
    hide RowStart, TreeResults, AccumulateResults, Gone;
    var t := action.t;
    var w := m.workers[t];
    assert WorkerInv(exec, base, plan[t], w);
    if action.Take? {
      CellIsFull(exec, base, plan, n, m, t);
    } else if action.Finish? {
      FinishAdvances(exec, base, plan[t], w);
    }
  }

  lemma StepKeepsInv(exec: Exec, base: Accounts, plan: Plan, n: nat, m: Machine, action: Action)
    requires WellPlaced(plan, n) && NoRepeats(plan) && Inv(exec, base, plan, n, m) && Enabled(plan, m, action)
    ensures Inv(exec, base, plan, n, Step(exec, base, plan, m, action))
  {
    hide WorkerInv, Gone, GoneSomewhere;
    StepKeepsWorker(exec, base, plan, n, m, action);
    GoneAfter(exec, base, plan, n, m, action);
  }

  lemma TakeMarks(rows: Rows, w: Worker, v: nat)
    requires w.row < |rows| && w.taken < |rows[w.row]| && v == rows[w.row][w.taken]
    ensures forall x: nat :: Gone(rows, w.(taken := w.taken + 1), x) <==> Gone(rows, w, x) || x == v
  {
  }

  /** Finishing a row changes neither what has been taken nor the contract of the worker. */
  lemma FinishAdvances(exec: Exec, base: Accounts, rows: Rows, w: Worker)
    requires WorkerInv(exec, base, rows, w) && w.row < |rows| && w.taken == |rows[w.row]|
    requires forall p :: 0 <= p < |rows[w.row]| ==> p in w.results
    ensures var collected := Collected(rows[w.row], w);
            var next := Worker(w.row + 1, 0, map[], AccumulateResults(w.acc, collected), w.out + collected);
            WorkerInv(exec, base, rows, next) && forall x: nat :: Gone(rows, next, x) <==> Gone(rows, w, x)
  {
    var row: seq<nat> := rows[w.row];
    var collected := Collected(row, w);
    forall p | 0 <= p < |row| ensures collected[p] == (RunOn(exec, base, w.acc)(row[p]), row[p]) {
      assert p in w.results;
    }
    assert collected == RowResults(exec, base, w.acc, row);
    AccumulateCollected(w.acc, row, RunOn(exec, base, w.acc), collected);
    var next := Worker(w.row + 1, 0, map[], AccumulateResults(w.acc, collected), w.out + collected);
    forall x: nat ensures Gone(rows, next, x) <==> Gone(rows, w, x) {
      if Gone(rows, next, x) {
        var r := GoneIsPlaced(rows, next, x);
        if r == w.row {
          var p :| 0 <= p < |row| && row[p] == x;
        }
      }
    }
  }

  lemma {:induction false} AccumulateCollected(acc: Diff, row: seq<nat>, run: nat -> TxResult, collected: seq<Numbered>)
    requires |collected| == |row| && forall p :: 0 <= p < |row| ==> collected[p] == (run(row[p]), row[p])
    ensures AccumulateResults(acc, collected) == Accumulate(acc, row, run)
  {
    if row != [] {
      AccumulateCollected(acc, row[..|row| - 1], run, collected[..|collected| - 1]);
    }
  }

  /** A step leaves the cells in agreement with what the workers have taken. */
  lemma GoneAfter(exec: Exec, base: Accounts, plan: Plan, n: nat, m: Machine, action: Action)
    requires WellPlaced(plan, n) && NoRepeats(plan) && Inv(exec, base, plan, n, m) && Enabled(plan, m, action)
    ensures var next := Step(exec, base, plan, m, action);
            && (forall v: nat, t :: v < n && 0 <= t < |plan| && Gone(plan[t], next.workers[t], v) ==> v !in next.full)
            && (forall v: nat :: v < n && v !in next.full ==> GoneSomewhere(plan, next, v))
  {
    hide RowStart, TreeResults, RunOn, AccumulateResults;
    var t, next := action.t, Step(exec, base, plan, m, action);
    var w := m.workers[t];
    assert WorkerInv(exec, base, plan[t], w);
    if action.Take? {
      CellIsFull(exec, base, plan, n, m, t);
      TakeMarks(plan[t], w, plan[t][w.row][w.taken]);
    } else if action.Finish? {
      FinishAdvances(exec, base, plan[t], w);
    }
    forall v: nat | v < n && v !in next.full ensures GoneSomewhere(plan, next, v) {
      if v !in m.full {
        var u :| 0 <= u < |plan| && Gone(plan[u], m.workers[u], v);
        assert Gone(plan[u], next.workers[u], v);
      } else {
        assert Gone(plan[t], next.workers[t], v);
      }
    }
  }

  // ---- Every interleaving ----

  /** Runs the actions in order; an action that is not enabled does nothing. */
  function RunAll(exec: Exec, base: Accounts, plan: Plan, n: nat, actions: seq<Action>): Machine {
    if actions == [] then Start(plan, n)
    else
      var m := RunAll(exec, base, plan, n, actions[..|actions| - 1]);
      var action := actions[|actions| - 1];
      if Enabled(plan, m, action) then Step(exec, base, plan, m, action) else m
  }

  predicate Finished(plan: Plan, m: Machine) {
    |m.workers| == |plan| && forall t :: 0 <= t < |plan| ==> m.workers[t].row == |plan[t]|
  }

  lemma {:induction false} RunKeepsInv(exec: Exec, base: Accounts, plan: Plan, n: nat, actions: seq<Action>)
    requires WellPlaced(plan, n) && NoRepeats(plan)
    ensures Inv(exec, base, plan, n, RunAll(exec, base, plan, n, actions))
  {
    if actions == [] {
      StartInv(exec, base, plan, n);
    } else {
      var front := actions[..|actions| - 1];
      RunKeepsInv(exec, base, plan, n, front);
      var m := RunAll(exec, base, plan, n, front);
      if Enabled(plan, m, actions[|actions| - 1]) {
        StepKeepsInv(exec, base, plan, n, m, actions[|actions| - 1]);
      }
    }
  }

  /**
   * Confluence: whatever the interleaving, no cell is taken twice, every cell is emptied, and every tree ends with the
   * same results, namely those of running its rows one after the other.
   */
  lemma EveryInterleavingAgrees(exec: Exec, base: Accounts, plan: Plan, n: nat, actions: seq<Action>)
    requires WellPlaced(plan, n) && NoRepeats(plan)
    requires Finished(plan, RunAll(exec, base, plan, n, actions))
    ensures var m := RunAll(exec, base, plan, n, actions);
            && !m.panicked && m.full == {}
            && forall t :: 0 <= t < |plan| ==> m.workers[t].out == TreeResults(exec, base, plan[t], |plan[t]|)
  {
    var m := RunAll(exec, base, plan, n, actions);
    RunKeepsInv(exec, base, plan, n, actions);
    forall t | 0 <= t < |plan| ensures m.workers[t].out == TreeResults(exec, base, plan[t], |plan[t]|) {
      assert WorkerInv(exec, base, plan[t], m.workers[t]);
    }
    forall v: nat | v < n ensures v !in m.full {
      assert InPlan(plan, v);
      var t: nat, r: nat :| Placed(plan, v, t, r);
      assert Gone(plan[t], m.workers[t], v);
    }
  }

  // ---- The result vector of a block ----

  /** The outputs of the trees, collected in some order of the trees. */
  function Gathered(m: Machine, trees: seq<nat>): seq<Numbered> {
    if trees == [] then []
    else
      var last := trees[|trees| - 1];
      Gathered(m, trees[..|trees| - 1]) + if last < |m.workers| then m.workers[last].out else []
  }

  ghost predicate Permutes(trees: seq<nat>, n: nat) {
    Distinct(trees) && forall t: nat :: t in trees <==> t < n
  }

  function RootsIn(roots: seq<nat>, trees: seq<nat>): seq<nat>
    requires forall k :: 0 <= k < |trees| ==> trees[k] < |roots|
  {
    seq(|trees|, k requires 0 <= k < |trees| => roots[trees[k]])
  }

  lemma {:induction false} GatheredResults(exec: Exec, base: Accounts, links: Links, roots: seq<nat>, m: Machine,
                                           trees: seq<nat>)
    requires AreRoots(links, roots) && Distinct(trees) && forall k :: 0 <= k < |trees| ==> trees[k] < |roots|
    requires |m.workers| == |roots|
    requires forall t :: 0 <= t < |roots| ==>
               m.workers[t].out == TreeResults(exec, base, TreeRows(links, roots[t]), |TreeRows(links, roots[t])|)
    ensures ResultsOf(exec, base, links, InTrees(links, RootsIn(roots, trees)), Gathered(m, trees))
  {
    hide ResultsOf, TreeResults, TreeRows, Root;
    if trees == [] {
      NoResults(exec, base, links);
      assert InTrees(links, []) == {};
    } else {
      var front, last := trees[..|trees| - 1], trees[|trees| - 1];
      GatheredResults(exec, base, links, roots, m, front);
      assert roots[last] in roots;
      WholeTreeResults(exec, base, links, roots[last]);
      forall k | 0 <= k < |front| ensures roots[front[k]] != roots[last] {
        assert front[k] != last;
      }
      assert roots[last] !in RootsIn(roots, front);
      assert RootsIn(roots, trees) == RootsIn(roots, front) + [roots[last]];
      var a, b := InTrees(links, RootsIn(roots, front)), InTrees(links, [roots[last]]);
      ResultsConcat(exec, base, links, a, b, Gathered(m, front), m.workers[last].out);
      assert a + b == InTrees(links, RootsIn(roots, trees));
    }
  }

  /**
   * For the plan of a forest, whatever the interleaving and in whatever order the trees hand in their outputs: sorted
   * by position they are one result per transaction, at its own place, as the run row by row gives it.
   */
  lemma EveryInterleavingGivesTheResults(exec: Exec, base: Accounts, links: Links, roots: seq<nat>,
                                         actions: seq<Action>, trees: seq<nat>, sorted: seq<Numbered>)
    requires AreRoots(links, roots) && Permutes(trees, |roots|)
    requires Finished(PlanOf(links, roots), RunAll(exec, base, PlanOf(links, roots), |links|, actions))
    requires Ascends(sorted)
    requires forall y :: y in sorted <==>
        y in Gathered(RunAll(exec, base, PlanOf(links, roots), |links|, actions), trees)
    ensures |sorted| == |links| && forall i :: 0 <= i < |links| ==> sorted[i] == (BlockResult(exec, base, links, i), i)
  {
    var plan := PlanOf(links, roots);
    PlanIsWellPlaced(links, roots);
    EveryInterleavingAgrees(exec, base, plan, |links|, actions);
    RunKeepsInv(exec, base, plan, |links|, actions);
    var m := RunAll(exec, base, plan, |links|, actions);
    hide RunAll, ResultsOf, TreeResults, TreeRows, BlockResult, Finished;
    AllPicked(roots, trees);
    GatheredResults(exec, base, links, roots, m, trees);
    AllInTrees(links, RootsIn(roots, trees));
    SortedResults(exec, base, links, Gathered(m, trees), sorted);
  }

  lemma AllPicked(roots: seq<nat>, trees: seq<nat>)
    requires Permutes(trees, |roots|)
    ensures forall k :: 0 <= k < |trees| ==> trees[k] < |roots|
    ensures forall r: nat :: r in RootsIn(roots, trees) <==> r in roots
  {
    assert forall k :: 0 <= k < |trees| ==> trees[k] in trees;
    var picked := RootsIn(roots, trees);
    forall r: nat ensures r in picked <==> r in roots {
      if t :| 0 <= t < |roots| && roots[t] == r {
        assert t in trees;
        var k :| 0 <= k < |trees| && trees[k] == t;
        assert picked[k] == r;
      }
    }
  }

  // ---- No interleaving gets stuck ----

  /** As long as some tree has rows left, some action is enabled. */
  lemma SomethingIsEnabled(exec: Exec, base: Accounts, plan: Plan, n: nat, m: Machine)
    requires Inv(exec, base, plan, n, m) && !Finished(plan, m)
    ensures exists action :: Enabled(plan, m, action)
  {
    var t: nat :| t < |plan| && m.workers[t].row != |plan[t]|;
    var w := m.workers[t];
    assert WorkerInv(exec, base, plan[t], w);
    if w.taken < |plan[t][w.row]| {
      assert Enabled(plan, m, Take(t));
    } else if p: nat :| p < |plan[t][w.row]| && p !in w.results {
      assert Enabled(plan, m, Execute(t, p));
    } else {
      assert Enabled(plan, m, Finish(t));
    }
  }

  /** What a worker has left: two steps per transaction and one per row. */
  function Left(rows: Rows, w: Worker): int {
    RowsLeft(rows, w.row) - w.taken - |w.results|
  }

  function RowsLeft(rows: Rows, r: nat): nat
    decreases |rows| - r
  {
    if r >= |rows| then 0 else 2 * |rows[r]| + 1 + RowsLeft(rows, r + 1)
  }

  /** One more taken, one more executed, or from the end of a row on to the next. */
  predicate Moved(rows: Rows, w: Worker, x: Worker) {
    || (x.row == w.row && x.taken == w.taken + 1 && |x.results| == |w.results|)
    || (x.row == w.row && x.taken == w.taken && |x.results| == |w.results| + 1)
    || (x.row == w.row + 1 && x.taken == 0 && |x.results| == 0
        && w.row < |rows| && w.taken == |rows[w.row]| && |w.results| >= |rows[w.row]|)
  }

  lemma StepMoves(exec: Exec, base: Accounts, plan: Plan, n: nat, m: Machine, action: Action)
    requires WellPlaced(plan, n) && NoRepeats(plan) && Inv(exec, base, plan, n, m) && Enabled(plan, m, action)
    ensures Moved(plan[action.t], m.workers[action.t], Step(exec, base, plan, m, action).workers[action.t])
  {
    var t := action.t;
    var w, x := m.workers[t], Step(exec, base, plan, m, action).workers[t];
    match action
    case Take(_) => CellIsFull(exec, base, plan, n, m, t);
    case Execute(_, p) => assert x.results.Keys == w.results.Keys + {p};
    case Finish(_) => FullCount(w.results.Keys, |plan[t][w.row]|);
  }

  /** Every enabled action brings its worker, and no other, one step closer to the end. */
  lemma StepProgresses(exec: Exec, base: Accounts, plan: Plan, n: nat, m: Machine, action: Action)
    requires WellPlaced(plan, n) && NoRepeats(plan) && Inv(exec, base, plan, n, m) && Enabled(plan, m, action)
    ensures var next := Step(exec, base, plan, m, action);
            && 0 <= Left(plan[action.t], next.workers[action.t]) == Left(plan[action.t], m.workers[action.t]) - 1
            && forall u :: 0 <= u < |plan| && u != action.t ==> next.workers[u] == m.workers[u]
  {
    var t, next := action.t, Step(exec, base, plan, m, action);
    StepMoves(exec, base, plan, n, m, action);
    StepKeepsWorker(exec, base, plan, n, m, action);
    ResultsBounded(exec, base, plan[t], m.workers[t]);
    ResultsBounded(exec, base, plan[t], next.workers[t]);
    hide Step, WorkerInv;
    LeftDecreases(plan[t], m.workers[t], next.workers[t]);
  }

  /** The worker has not counted past its row. */
  predicate Bounded(rows: Rows, w: Worker) {
    && w.row <= |rows|
    && (w.row < |rows| ==> |w.results| <= |rows[w.row]| && w.taken <= |rows[w.row]|)
    && (w.row == |rows| ==> |w.results| == 0 && w.taken == 0)
  }

  lemma LeftDecreases(rows: Rows, w: Worker, x: Worker)
    requires Bounded(rows, w) && Bounded(rows, x) && w.row < |rows| && Moved(rows, w, x)
    ensures 0 <= Left(rows, x) == Left(rows, w) - 1
  {
  }

  lemma ResultsBounded(exec: Exec, base: Accounts, rows: Rows, w: Worker)
    requires WorkerInv(exec, base, rows, w)
    ensures Bounded(rows, w)
  {
    if w.row < |rows| {
      BoundedCount(w.results.Keys, |rows[w.row]|);
    }
  }

  lemma {:induction false} BoundedCount(s: set<nat>, n: nat)
    requires forall x :: x in s ==> x < n
    ensures |s| <= n
  {
    if n == 0 {
      assert s == {};
    } else {
      BoundedCount(s - {n - 1}, n - 1);
      assert |s| <= |s - {n - 1}| + 1;
    }
  }

  lemma {:induction false} FullCount(s: set<nat>, n: nat)
    requires forall x: nat :: x < n ==> x in s
    ensures |s| >= n
  {
    if n > 0 {
      FullCount(s - {n - 1}, n - 1);
    }
  }

  // ---- Every interleaving takes the same number of steps ----

  function LeftInAll(plan: Plan, workers: seq<Worker>): int
    requires |workers| == |plan|
  {
    if plan == [] then 0
    else
      LeftInAll(plan[..|plan| - 1], workers[..|plan| - 1]) + Left(plan[|plan| - 1], workers[|plan| - 1])
  }

  lemma {:induction false} LeftChanges(plan: Plan, one: seq<Worker>, two: seq<Worker>, t: nat)
    requires |one| == |two| == |plan| && t < |plan|
    requires forall u :: 0 <= u < |plan| && u != t ==> two[u] == one[u]
    ensures LeftInAll(plan, two) - LeftInAll(plan, one) == Left(plan[t], two[t]) - Left(plan[t], one[t])
  {
    var last := |plan| - 1;
    if t < last {
      LeftChanges(plan[..last], one[..last], two[..last], t);
    } else {
      assert one[..last] == two[..last];
    }
  }

  lemma {:induction false} NothingLeft(exec: Exec, base: Accounts, plan: Plan, workers: seq<Worker>)
    requires |workers| == |plan| && forall t :: 0 <= t < |plan| ==> WorkerInv(exec, base, plan[t], workers[t])
    ensures LeftInAll(plan, workers) >= 0
    ensures LeftInAll(plan, workers) == 0 <==> forall t :: 0 <= t < |plan| ==> workers[t].row == |plan[t]|
  {
    hide WorkerInv, Left;
    if plan != [] {
      var last := |plan| - 1;
      NothingLeft(exec, base, plan[..last], workers[..last]);
      ResultsBounded(exec, base, plan[last], workers[last]);
      LeftIs(plan[last], workers[last]);
    }
  }

  lemma LeftIs(rows: Rows, w: Worker)
    requires Bounded(rows, w)
    ensures Left(rows, w) >= 0 && (Left(rows, w) == 0 <==> w.row == |rows|)
  {
  }

  /** The actions of the run that were enabled when their turn came. */
  function Steps(exec: Exec, base: Accounts, plan: Plan, n: nat, actions: seq<Action>): nat {
    if actions == [] then 0
    else
      var front, last := actions[..|actions| - 1], actions[|actions| - 1];
      Steps(exec, base, plan, n, front) +
      if Enabled(plan, RunAll(exec, base, plan, n, front), last) then 1 else 0
  }

  /**
   * No run takes more steps than two per transaction of the plan and one per row, and those that take as many, whatever
   * their interleaving, are the finished ones.
   */
  lemma {:induction false} StepsAreCounted(exec: Exec, base: Accounts, plan: Plan, n: nat, actions: seq<Action>)
    requires WellPlaced(plan, n) && NoRepeats(plan)
    ensures var m, whole := RunAll(exec, base, plan, n, actions), LeftInAll(plan, Start(plan, n).workers);
            && |m.workers| == |plan|
            && Steps(exec, base, plan, n, actions) == whole - LeftInAll(plan, m.workers) <= whole
            && (Finished(plan, m) <==> Steps(exec, base, plan, n, actions) == whole)
  {
    hide Step, Inv, WellPlaced, NoRepeats, Enabled, LeftInAll, Left;
    RunIsSound(exec, base, plan, n, actions);
    if actions != [] {
      var front, last := actions[..|actions| - 1], actions[|actions| - 1];
      StepsAreCounted(exec, base, plan, n, front);
      StepCounts(exec, base, plan, n, RunAll(exec, base, plan, n, front), last) by {
        RunKeepsInv(exec, base, plan, n, front);
      }
    }
  }

  lemma RunIsSound(exec: Exec, base: Accounts, plan: Plan, n: nat, actions: seq<Action>)
    requires WellPlaced(plan, n) && NoRepeats(plan)
    ensures var m := RunAll(exec, base, plan, n, actions);
            && |m.workers| == |plan| && LeftInAll(plan, m.workers) >= 0
            && (LeftInAll(plan, m.workers) == 0 <==> Finished(plan, m))
  {
    hide RunAll, WorkerInv;
    RunKeepsInv(exec, base, plan, n, actions);
    NothingLeft(exec, base, plan, RunAll(exec, base, plan, n, actions).workers);
  }

  lemma StepCounts(exec: Exec, base: Accounts, plan: Plan, n: nat, m: Machine, action: Action)
    requires WellPlaced(plan, n) && NoRepeats(plan) && Inv(exec, base, plan, n, m)
    ensures Enabled(plan, m, action) ==>
              var next := Step(exec, base, plan, m, action);
              |next.workers| == |plan| && LeftInAll(plan, next.workers) == LeftInAll(plan, m.workers) - 1
  {
    if Enabled(plan, m, action) {
      StepKeepsInv(exec, base, plan, n, m, action);
      StepProgresses(exec, base, plan, n, m, action);
      LeftChanges(plan, m.workers, Step(exec, base, plan, m, action).workers, action.t);
    }
  }

  /** Every interleaving can be continued to a finished one. */
  lemma {:induction false} CanFinish(exec: Exec, base: Accounts, plan: Plan, n: nat, actions: seq<Action>)
      returns (more: seq<Action>)
    requires WellPlaced(plan, n) && NoRepeats(plan)
    ensures Finished(plan, RunAll(exec, base, plan, n, actions + more))
    decreases LeftInAll(plan, Start(plan, n).workers) - Steps(exec, base, plan, n, actions)
  {
    hide Step, Inv, WellPlaced, NoRepeats, Enabled, LeftInAll, Left;
    var m := RunAll(exec, base, plan, n, actions);
    StepsAreCounted(exec, base, plan, n, actions);
    if Finished(plan, m) {
      more := [];
      assert actions + more == actions;
    } else {
      RunKeepsInv(exec, base, plan, n, actions);
      SomethingIsEnabled(exec, base, plan, n, m);
      var action :| Enabled(plan, m, action);
      var longer := actions + [action];
      assert longer[..|longer| - 1] == actions;
      StepsAreCounted(exec, base, plan, n, longer);
      more := CanFinish(exec, base, plan, n, longer);
      more := [action] + more;
      assert actions + more == longer + more[1..];
    }
  }
}
