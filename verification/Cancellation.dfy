/** Trees are evaluated in parallel under a shared cancellation flag, by workers whose atomic steps are interleaved. */
module Cancellation {
  import opened ExpressionTree
  import opened Outcome
  import opened Primitives
  import opened Wrappers

  datatype Worker =
    | Waiting
    | Mapping(results: seq<LeafOutcome>, cleared: bool)  // cleared: the flag was read unset, the leaf may be invoked
    | Skipped                                            // the flag was read set before the tree was started
    | Done(results: seq<LeafOutcome>)

  datatype Run = Run(cancelled: bool, workers: seq<Worker>)

  type Invoke = ExpandedPredicate -> Verdict

  function Start(trees: seq<ExpandedTree>): Run {
    Run(false, seq(|trees|, i => Waiting))
  }

  function LeafResult(invoke: Invoke, p: ExpandedPredicate): LeafOutcome {
    match invoke(p)
    case Accepts => Ok(p)
    case Refuses => Err(Rejected(p))
    case Crashes(reason) => Err(Crash(reason))
  }

  /** One atomic step of worker k; a worker that is through does nothing. */
  function Step(trees: seq<ExpandedTree>, invoke: Invoke, run: Run, k: nat): Run
    requires |run.workers| == |trees| && k < |trees|
  {
    var leaves := Leaves(trees[k]);
    match run.workers[k]
    case Waiting => run.(workers := run.workers[k := if run.cancelled then Skipped else Mapping([], false)])
    case Mapping(rs, false) =>
      if |rs| >= |leaves| then run.(workers := run.workers[k := Done(rs)])
      else if run.cancelled then run.(workers := run.workers[k := Mapping(rs + [Err(Cancelled)], false)])
      else run.(workers := run.workers[k := Mapping(rs, true)])
    case Mapping(rs, true) =>
      if |rs| >= |leaves| then run
      else
        var r := LeafResult(invoke, leaves[|rs|]);
        Run(run.cancelled || invoke(leaves[|rs|]).Crashes?, run.workers[k := Mapping(rs + [r], false)])
    case _ => run
  }

  predicate ScheduleOf(trees: seq<ExpandedTree>, schedule: seq<nat>) {
    forall i :: 0 <= i < |schedule| ==> schedule[i] < |trees|
  }

  /** The state after the workers have been scheduled in the given order. */
  function Execute(trees: seq<ExpandedTree>, invoke: Invoke, schedule: seq<nat>): (run: Run)
    requires ScheduleOf(trees, schedule)
    ensures |run.workers| == |trees|
  {
    if schedule == [] then Start(trees)
    else Step(trees, invoke, Execute(trees, invoke, schedule[..|schedule| - 1]), schedule[|schedule| - 1])
  }

  predicate Through(w: Worker) {
    w.Skipped? || w.Done?
  }

  predicate Finished(run: Run) {
    forall k :: 0 <= k < |run.workers| ==> Through(run.workers[k])
  }

  function WorkerOutcome(t: ExpandedTree, w: Worker): Result<(), Error> {
    if w.Done? && |w.results| == |Leaves(t)| then
      match TreeOutcome(Relabel(t, w.results))
      case Ok(_) => Ok(())
      case Err(e) => Err(e)
    else Err(Cancelled)
  }

  function Outcomes(trees: seq<ExpandedTree>, run: Run): seq<Result<(), Error>>
    requires |run.workers| == |trees|
  {
    seq(|trees|, k requires 0 <= k < |trees| => WorkerOutcome(trees[k], run.workers[k]))
  }

  /** What the whole evaluation returns; no tree at all is a success. */
  function Verdicts(trees: seq<ExpandedTree>, run: Run): Result<(), Error>
    requires |run.workers| == |trees|
  {
    if trees == [] then Ok(()) else FoldAnd(Outcomes(trees, run))
  }

  // ---- What every step keeps ----

  predicate Explained(invoke: Invoke, cancelled: bool, p: ExpandedPredicate, r: LeafOutcome) {
    r == LeafResult(invoke, p) || (r == Err(Cancelled) && cancelled)
  }

  predicate Prefix(invoke: Invoke, cancelled: bool, leaves: seq<ExpandedPredicate>, rs: seq<LeafOutcome>) {
    |rs| <= |leaves| && forall m :: 0 <= m < |rs| ==> Explained(invoke, cancelled, leaves[m], rs[m])
  }

  predicate WorkerOk(invoke: Invoke, cancelled: bool, t: ExpandedTree, w: Worker) {
    match w
    case Waiting => true
    case Skipped => cancelled
    case Mapping(rs, cleared) => Prefix(invoke, cancelled, Leaves(t), rs) && (cleared ==> |rs| < |Leaves(t)|)
    case Done(rs) => Prefix(invoke, cancelled, Leaves(t), rs) && |rs| == |Leaves(t)|
  }

  ghost predicate SomeLeafCrashes(trees: seq<ExpandedTree>, invoke: Invoke) {
    exists k, m :: 0 <= k < |trees| && 0 <= m < |Leaves(trees[k])| && invoke(Leaves(trees[k])[m]).Crashes?
  }

  ghost predicate Inv(trees: seq<ExpandedTree>, invoke: Invoke, run: Run) {
    && |run.workers| == |trees|
    && (forall k :: 0 <= k < |trees| ==> WorkerOk(invoke, run.cancelled, trees[k], run.workers[k]))
    && (run.cancelled ==> SomeLeafCrashes(trees, invoke))
  }

  lemma StepKeepsInv(trees: seq<ExpandedTree>, invoke: Invoke, run: Run, k: nat)
    requires Inv(trees, invoke, run) && k < |trees|
    ensures Inv(trees, invoke, Step(trees, invoke, run, k))
    ensures run.cancelled ==> Step(trees, invoke, run, k).cancelled
  {
    var next := Step(trees, invoke, run, k);
    assert WorkerOk(invoke, run.cancelled, trees[k], run.workers[k]);
    forall j | 0 <= j < |trees| ensures WorkerOk(invoke, next.cancelled, trees[j], next.workers[j]) {
      assert WorkerOk(invoke, run.cancelled, trees[j], run.workers[j]);
    }
  }

  lemma {:induction false} ExecuteKeepsInv(trees: seq<ExpandedTree>, invoke: Invoke, schedule: seq<nat>)
    requires ScheduleOf(trees, schedule)
    ensures Inv(trees, invoke, Execute(trees, invoke, schedule))
  {
    if schedule != [] {
      ExecuteKeepsInv(trees, invoke, schedule[..|schedule| - 1]);
      StepKeepsInv(trees, invoke, Execute(trees, invoke, schedule[..|schedule| - 1]), schedule[|schedule| - 1]);
    }
  }

  // ---- Termination ----

  function Remaining(t: ExpandedTree, w: Worker): nat {
    match w
    case Waiting => 2 * |Leaves(t)| + 2
    case Mapping(rs, cleared) =>
      if |rs| < |Leaves(t)| then 1 + 2 * (|Leaves(t)| - |rs|) - (if cleared then 1 else 0) else 1
    case _ => 0
  }

  function Work(trees: seq<ExpandedTree>, workers: seq<Worker>): nat
    requires |workers| == |trees|
  {
    if trees == [] then 0
    else Work(trees[..|trees| - 1], workers[..|trees| - 1]) + Remaining(trees[|trees| - 1], workers[|trees| - 1])
  }

  lemma {:induction false} WorkUpdate(trees: seq<ExpandedTree>, workers: seq<Worker>, k: nat, w: Worker)
    requires |workers| == |trees| && k < |trees|
    ensures Work(trees, workers[k := w]) == Work(trees, workers) - Remaining(trees[k], workers[k]) +
        Remaining(trees[k], w)
  {
    var n := |trees| - 1;
    if k == n {
      assert workers[k := w][..n] == workers[..n];
    } else {
      WorkUpdate(trees[..n], workers[..n], k, w);
      assert workers[k := w][..n] == workers[..n][k := w];
    }
  }

  /** Every step of a worker that is not through uses up work, so every fair interleaving ends. */
  lemma StepProgresses(trees: seq<ExpandedTree>, invoke: Invoke, run: Run, k: nat)
    requires Inv(trees, invoke, run) && k < |trees| && !Through(run.workers[k])
    ensures Work(trees, Step(trees, invoke, run, k).workers) < Work(trees, run.workers)
  {
    assert WorkerOk(invoke, run.cancelled, trees[k], run.workers[k]);
    WorkUpdate(trees, run.workers, k, Step(trees, invoke, run, k).workers[k]);
  }

  /** From any point some continuation finishes: the workers never block one another. */
  lemma {:induction false} CanFinish(trees: seq<ExpandedTree>, invoke: Invoke, schedule: seq<nat>)
      returns (more: seq<nat>)
    requires ScheduleOf(trees, schedule)
    ensures ScheduleOf(trees, more) && schedule <= more && Finished(Execute(trees, invoke, more))
    decreases Work(trees, Execute(trees, invoke, schedule).workers)
  {
    var run := Execute(trees, invoke, schedule);
    if Finished(run) {
      more := schedule;
    } else {
      var k :| 0 <= k < |run.workers| && !Through(run.workers[k]);
      ExecuteKeepsInv(trees, invoke, schedule);
      StepProgresses(trees, invoke, run, k);
      var next := schedule + [k];
      assert next[..|next| - 1] == schedule;
      more := CanFinish(trees, invoke, next);
    }
  }

  // ---- The theorems ----

  /** The results of worker k in a run that ended in success. */
  lemma SuccessMeansAllDone(trees: seq<ExpandedTree>, invoke: Invoke, schedule: seq<nat>, k: nat)
    requires ScheduleOf(trees, schedule)
    requires k < |trees| && Verdicts(trees, Execute(trees, invoke, schedule)).Ok?
    ensures var w := Execute(trees, invoke, schedule).workers[k];
            w.Done? && |w.results| == |Leaves(trees[k])| && TreeOutcome(Relabel(trees[k], w.results)).Ok?
  {
    var run := Execute(trees, invoke, schedule);
    FoldAndMeaning(Outcomes(trees, run));
    assert Outcomes(trees, run)[k].Ok?;
  }

  /**
   * Without a crash the evaluation is exact, negations and all, under every interleaving: it succeeds exactly when
   * every tree is true, and otherwise it is a rejection.
   */
  lemma CrashFreeExact(trees: seq<ExpandedTree>, invoke: Invoke, schedule: seq<nat>)
    requires ScheduleOf(trees, schedule)
    requires !SomeLeafCrashes(trees, invoke) && Finished(Execute(trees, invoke, schedule))
    ensures var r := Verdicts(trees, Execute(trees, invoke, schedule));
            && (r.Ok? <==> forall k :: 0 <= k < |trees| ==> Holds(trees[k], p => invoke(p).Accepts?))
            && (r.Err? ==> r.error.Rejected?)
  {
    var run := Execute(trees, invoke, schedule);
    ExecuteKeepsInv(trees, invoke, schedule);
    var outcomes := Outcomes(trees, run);
    forall k | 0 <= k < |trees|
      ensures outcomes[k].Ok? <==> Holds(trees[k], p => invoke(p).Accepts?)
      ensures outcomes[k].Err? ==> outcomes[k].error.Rejected?
    {
      assert WorkerOk(invoke, run.cancelled, trees[k], run.workers[k]);
      assert Through(run.workers[k]);
      CrashFreeTree(trees, invoke, k, run.workers[k].results);
    }
    if trees != [] {
      FoldAndMeaning(outcomes);
    }
  }

  lemma CrashFreeTree(trees: seq<ExpandedTree>, invoke: Invoke, k: nat, rs: seq<LeafOutcome>)
    requires k < |trees| && !SomeLeafCrashes(trees, invoke)
    requires |rs| == |Leaves(trees[k])| && Prefix(invoke, false, Leaves(trees[k]), rs)
    ensures Decided(TreeOutcome(Relabel(trees[k], rs)))
    ensures TreeOutcome(Relabel(trees[k], rs)).Ok? <==> Holds(trees[k], p => invoke(p).Accepts?)
  {
    var leaves := Leaves(trees[k]);
    var truth := (p: ExpandedPredicate) => invoke(p).Accepts?;
    var reading := seq(|leaves|, m requires 0 <= m < |leaves| => truth(leaves[m]));
    forall m | 0 <= m < |rs| ensures Decided(rs[m]) && reading[m] == rs[m].Ok? {
      assert Explained(invoke, false, leaves[m], rs[m]);
      assert !invoke(leaves[m]).Crashes?;
    }
    DecidedIsExact(trees[k], rs, reading);
    TruthByValue(trees[k], truth, reading);
  }

  // ---- What a crash can do ----

  function Sample(code: byte): ExpandedPredicate {
    ExpandedPredicate([code], "invoke", [])
  }

  /** Predicate 1 accepts, predicate 0 refuses, every other one crashes. */
  function SampleInvoke(p: ExpandedPredicate): Verdict {
    if p.code == [1] then Accepts else if p.code == [0] then Refuses else Crashes(0)
  }

  function Results(invoke: Invoke, leaves: seq<ExpandedPredicate>, n: nat): seq<LeafOutcome>
    requires n <= |leaves|
  {
    if n == 0 then [] else Results(invoke, leaves, n - 1) + [LeafResult(invoke, leaves[n - 1])]
  }

  lemma Advance(trees: seq<ExpandedTree>, invoke: Invoke, schedule: seq<nat>, k: nat) returns (more: seq<nat>)
    requires k < |trees| && ScheduleOf(trees, schedule)
    ensures ScheduleOf(trees, more)
    ensures Execute(trees, invoke, more) == Step(trees, invoke, Execute(trees, invoke, schedule), k)
  {
    more := schedule + [k];
    assert more[..|more| - 1] == schedule;
  }

  /** A worker that nobody cancels invokes its first n leaves, of which only the last may crash. */
  lemma {:induction false} RunLeaves(trees: seq<ExpandedTree>, invoke: Invoke, schedule: seq<nat>, k: nat, n: nat)
    returns (more: seq<nat>)
    requires k < |trees| && ScheduleOf(trees, schedule) && n <= |Leaves(trees[k])|
    requires !Execute(trees, invoke, schedule).cancelled && Execute(trees, invoke, schedule).workers[k] == Waiting
    requires forall m :: 0 <= m < n - 1 ==> !invoke(Leaves(trees[k])[m]).Crashes?
    ensures ScheduleOf(trees, more)
    ensures Execute(trees, invoke, more) ==
            Run(n > 0 && invoke(Leaves(trees[k])[n - 1]).Crashes?,
                Execute(trees, invoke, schedule).workers[k := Mapping(Results(invoke, Leaves(trees[k]), n), false)])
  {
    if n == 0 {
      more := Advance(trees, invoke, schedule, k);
    } else {
      more := RunLeaves(trees, invoke, schedule, k, n - 1);
      assert |Results(invoke, Leaves(trees[k]), n - 1)| == n - 1 by { ResultsLength(invoke, Leaves(trees[k]), n - 1); }
      more := Advance(trees, invoke, more, k);
      more := Advance(trees, invoke, more, k);
    }
  }

  lemma {:induction false} ResultsLength(invoke: Invoke, leaves: seq<ExpandedPredicate>, n: nat)
    requires n <= |leaves|
    ensures |Results(invoke, leaves, n)| == n
  {
    if n > 0 {
      ResultsLength(invoke, leaves, n - 1);
    }
  }

  /** The same, for all of its leaves. */
  lemma RunTree(trees: seq<ExpandedTree>, invoke: Invoke, schedule: seq<nat>, k: nat) returns (more: seq<nat>)
    requires k < |trees| && ScheduleOf(trees, schedule)
    requires !Execute(trees, invoke, schedule).cancelled && Execute(trees, invoke, schedule).workers[k] == Waiting
    requires forall m :: 0 <= m < |Leaves(trees[k])| - 1 ==> !invoke(Leaves(trees[k])[m]).Crashes?
    ensures ScheduleOf(trees, more)
    ensures var leaves := Leaves(trees[k]);
            Execute(trees, invoke, more) ==
            Run(invoke(leaves[|leaves| - 1]).Crashes?,
                Execute(trees, invoke, schedule).workers[k := Done(Results(invoke, leaves, |leaves|))])
  {
    var leaves := Leaves(trees[k]);
    ResultsLength(invoke, leaves, |leaves|);
    more := RunLeaves(trees, invoke, schedule, k, |leaves|);
    more := Advance(trees, invoke, more, k);
  }

  const ABSORBED: ExpandedTree := Or(Id(Sample(1)), Or(Id(Sample(0)), Id(Sample(2))))

  lemma AbsorbedAccepts()
    ensures Leaves(ABSORBED) == [Sample(1), Sample(0), Sample(2)]
    ensures WorkerOutcome(ABSORBED, Done(Results(SampleInvoke, Leaves(ABSORBED), 3))) == Ok(())
  {
    var leaves := Leaves(ABSORBED);
    assert leaves == [Sample(1), Sample(0), Sample(2)];
    var rs := Results(SampleInvoke, leaves, 3);
    assert Results(SampleInvoke, leaves, 1) == [Ok(Sample(1))];
    assert Results(SampleInvoke, leaves, 2) == [Ok(Sample(1)), Err(Rejected(Sample(0)))];
    assert rs == [Ok(Sample(1)), Err(Rejected(Sample(0))), Err(Crash(0))];
    assert Relabel(ABSORBED.right, rs[1..]) == Or(Id(rs[1]), Id(rs[2]));
    assert Relabel(ABSORBED, rs) == Or(Id(rs[0]), Or(Id(rs[1]), Id(rs[2])));
  }

  /**
   * A crash inside a disjunction can be absorbed. Whether the transaction is then accepted depends on the
   * interleaving: the trees `1 or (0 or crash)` and `1` are accepted if the second runs first, and cancelled otherwise.
   */
  lemma CrashMakesOutcomeScheduleDependent() returns (trees: seq<ExpandedTree>, early: seq<nat>, late: seq<nat>)
    ensures ScheduleOf(trees, early) && ScheduleOf(trees, late)
    ensures Finished(Execute(trees, SampleInvoke, early)) && Finished(Execute(trees, SampleInvoke, late))
    ensures Verdicts(trees, Execute(trees, SampleInvoke, early)) == Ok(())
    ensures Verdicts(trees, Execute(trees, SampleInvoke, late)) == Err(Cancelled)
    ensures forall k :: 0 <= k < |trees| ==> NotFree(trees[k])
  {
    trees := [ABSORBED, Id(Sample(1))];
    AbsorbedAccepts();
    SingleAccepts();
    hide Results, LeafResult, WorkerOutcome, FoldAnd;
    early := RunTree(trees, SampleInvoke, [], 1);
    early := RunTree(trees, SampleInvoke, early, 0);
    late := RunTree(trees, SampleInvoke, [], 0);
    late := Advance(trees, SampleInvoke, late, 1);
    assert Outcomes(trees, Execute(trees, SampleInvoke, early)) == [Ok(()), Ok(())];
    assert Outcomes(trees, Execute(trees, SampleInvoke, late)) == [Ok(()), Err(Cancelled)];
    FoldOfTwo();
  }

  lemma SingleAccepts()
    ensures var t := Id(Sample(1));
            && Leaves(t) == [Sample(1)] && !SampleInvoke(Sample(1)).Crashes?
            && WorkerOutcome(t, Done(Results(SampleInvoke, Leaves(t), 1))) == Ok(())
            && WorkerOutcome(t, Skipped) == Err(Cancelled)
  {
    assert Results(SampleInvoke, [Sample(1)], 1) == [Ok(Sample(1))];
  }

  lemma FoldOfTwo()
    ensures FoldAnd([Ok(()), Ok(())]) == Ok(())
    ensures FoldAnd([Ok(()), Err(Cancelled)]) == Err(Cancelled)
  {
    FoldAndMeaning([Ok(()), Ok(())]);
    FoldAndMeaning([Ok(()), Err(Cancelled)]);
    assert Err(Cancelled) == [Ok(()), Err(Cancelled)][1];
  }

  /**
   * A disjunction under a negation breaks soundness: `not (0 or 1)` is false and none of its own leaves crashes,
   * yet when the crash in another tree cancels its second leaf the run succeeds.
   */
  lemma NegatedOrIsUnsound() returns (trees: seq<ExpandedTree>, schedule: seq<nat>)
    ensures ScheduleOf(trees, schedule)
    ensures Finished(Execute(trees, SampleInvoke, schedule))
    ensures Verdicts(trees, Execute(trees, SampleInvoke, schedule)).Ok?
    ensures |trees| == 2 && NotFree(trees[0])
    ensures !Holds(trees[1], p => SampleInvoke(p).Accepts?)
    ensures forall p :: p in Leaves(trees[1]) ==> !SampleInvoke(p).Crashes?
  {
    trees := [ABSORBED, Not(Or(Id(Sample(0)), Id(Sample(1))))];
    AbsorbedAccepts();
    assert Leaves(trees[1]) == [Sample(0), Sample(1)];
    schedule := RunLeaves(trees, SampleInvoke, [], 1, 1);
    schedule := RunTree(trees, SampleInvoke, schedule, 0);
    var rs: seq<LeafOutcome> := [Err(Rejected(Sample(0))), Err(Cancelled)];
    assert Results(SampleInvoke, Leaves(trees[1]), 1) == rs[..1];
    assert rs[..1] + [rs[1]] == rs;
    var run := Execute(trees, SampleInvoke, schedule);
    assert run.cancelled && run.workers[1] == Mapping(rs[..1], false);
    schedule := Advance(trees, SampleInvoke, schedule, 1);
    assert Execute(trees, SampleInvoke, schedule) == Run(true, run.workers[1 := Mapping(rs, false)]);
    schedule := Advance(trees, SampleInvoke, schedule, 1);
    assert Execute(trees, SampleInvoke, schedule) == Run(true, run.workers[1 := Done(rs)]);
    NegationSucceeds(trees[1], rs);
    assert Outcomes(trees, Execute(trees, SampleInvoke, schedule)) == [Ok(()), Ok(())];
    FoldAndMeaning([Ok(()), Ok(())]);
  }

  lemma NegationSucceeds(t: ExpandedTree, rs: seq<LeafOutcome>)
    requires t == Not(Or(Id(Sample(0)), Id(Sample(1)))) && rs == [Err(Rejected(Sample(0))), Err(Cancelled)]
    ensures WorkerOutcome(t, Done(rs)) == Ok(())
  {
    assert Leaves(t) == [Sample(0), Sample(1)];
    assert Relabel(t.body, rs) == Or(Id(rs[0]), Id(rs[1]));
  }
}
