/** Exactly which trees acceptance can be trusted for, and exactly when it does not depend on the interleaving. */
module Soundness {
  import opened Cancellation
  import opened ExpressionTree
  import opened Outcome
  import opened Primitives
  import opened Sequences
  import opened Wrappers

  // ---- Readings that make a tree true or false ----

  function Attaining<T>(t: Tree<T>, value: bool): (reading: seq<bool>)
    ensures |reading| == |Leaves(t)|
  {
    match t
    case Id(_) => [value]
    case Not(b) => Attaining(b, !value)
    case And(l, r) => Attaining(l, value) + Attaining(r, value)
    case Or(l, r) => Attaining(l, value) + Attaining(r, value)
  }

  lemma Halves<T>(l: seq<T>, r: seq<T>)
    ensures (l + r)[..|l|] == l && (l + r)[|l|..] == r
  {
  }

  lemma {:induction false} AttainsTruth<T>(t: Tree<T>, value: bool)
    ensures Truth(Relabel(t, Attaining(t, value))) == value
  {
    match t
    case Id(_) =>
    case Not(b) => AttainsTruth(b, !value);
    case And(l, r) =>
      Halves(Attaining(l, value), Attaining(r, value));
      AttainsTruth(l, value);
      AttainsTruth(r, value);
    case Or(l, r) =>
      Halves(Attaining(l, value), Attaining(r, value));
      AttainsTruth(l, value);
      AttainsTruth(r, value);
  }

  // ---- Results in any arrangement ----

  /** Acceptance is sound for the tree, whichever of its leaves are decided. */
  ghost predicate Sound<T>(t: Tree<T>) {
    forall rs: seq<LeafOutcome>, reading: seq<bool> ::
      |rs| == |reading| == |Leaves(t)| && Respects(rs, reading) && TreeOutcome(Relabel(t, rs)).Ok? ==>
          Truth(Relabel(t, reading))
  }

  const LEAF := ExpandedPredicate([], "invoke", [])

  function Answers(reading: seq<bool>): (rs: seq<LeafOutcome>)
    ensures |rs| == |reading| && Respects(rs, reading) && forall i :: 0 <= i < |rs| ==> Decided(rs[i])
  {
    seq(|reading|, i requires 0 <= i < |reading| => if reading[i] then Ok(LEAF) else Err(Rejected(LEAF)))
  }

  /** Leaves none of which is decided leave the tree undecided. */
  lemma {:induction false} UndecidedStays<T>(t: Tree<T>, rs: seq<LeafOutcome>)
    requires |rs| == |Leaves(t)| && forall i :: 0 <= i < |rs| ==> !Decided(rs[i])
    ensures !Decided(TreeOutcome(Relabel(t, rs)))
  {
    match t
    case Id(_) =>
    case Not(b) => UndecidedStays(b, rs);
    case And(l, r) =>
      UndecidedStays(l, rs[..|Leaves(l)|]);
      UndecidedStays(r, rs[|Leaves(l)|..]);
    case Or(l, r) =>
      UndecidedStays(l, rs[..|Leaves(l)|]);
      UndecidedStays(r, rs[|Leaves(l)|..]);
  }

  /** The outcome contradicts the reading: accepted though false, or in negated position rejected though true. */
  ghost predicate Misleads<T>(t: Tree<T>, rs: seq<LeafOutcome>, reading: seq<bool>, negated: bool) {
    && |rs| == |reading| == |Leaves(t)| && Respects(rs, reading)
    && var outcome := TreeOutcome(Relabel(t, rs));
       Decided(outcome) && outcome.Ok? == !negated && Truth(Relabel(t, reading)) == negated
  }

  /** A decided tree beside a misleading one. */
  lemma Beside<T>(t: Tree<T>, value: bool) returns (rs: seq<LeafOutcome>, reading: seq<bool>)
    ensures |rs| == |reading| == |Leaves(t)| && Respects(rs, reading)
    ensures Truth(Relabel(t, reading)) == value && Decided(TreeOutcome(Relabel(t, rs)))
    ensures TreeOutcome(Relabel(t, rs)).Ok? == value
  {
    reading := Attaining(t, value);
    rs := Answers(reading);
    AttainsTruth(t, value);
    DecidedIsExact(t, rs, reading);
  }

  lemma RespectsConcat(rs: seq<LeafOutcome>, reading: seq<bool>, ss: seq<LeafOutcome>, more: seq<bool>)
    requires |rs| == |reading| && |ss| == |more| && Respects(rs, reading) && Respects(ss, more)
    ensures Respects(rs + ss, reading + more)
  {
  }

  lemma {:induction false} NegatedOrMisleads<T>(t: Tree<T>, negated: bool)
      returns (rs: seq<LeafOutcome>, reading: seq<bool>)
    requires !NoNegatedOr(t, negated)
    ensures Misleads(t, rs, reading, negated)
  {
    match t
    case Not(b) => rs, reading := NegatedOrMisleads(b, !negated);
    case And(l, r) =>
      var ls, lreading, ss, sreading;
      if !NoNegatedOr(l, negated) {
        ls, lreading := NegatedOrMisleads(l, negated);
        ss, sreading := Beside(r, true);
      } else {
        ls, lreading := Beside(l, true);
        ss, sreading := NegatedOrMisleads(r, negated);
      }
      rs, reading := ls + ss, lreading + sreading;
      RespectsConcat(ls, lreading, ss, sreading);
      Halves(ls, ss);
      Halves(lreading, sreading);
    case Or(l, r) =>
      var ls, lreading, ss, sreading;
      if negated {
        ls, lreading := Beside(l, false);
        sreading := Attaining(r, true);
        AttainsTruth(r, true);
        ss := seq(|Leaves(r)|, i => Err(Crash(0)));
        UndecidedStays(r, ss);
      } else if !NoNegatedOr(l, negated) {
        ls, lreading := NegatedOrMisleads(l, negated);
        ss, sreading := Beside(r, false);
      } else {
        ls, lreading := Beside(l, false);
        ss, sreading := NegatedOrMisleads(r, negated);
      }
      rs, reading := ls + ss, lreading + sreading;
      RespectsConcat(ls, lreading, ss, sreading);
      Halves(ls, ss);
      Halves(lreading, sreading);
  }

  /** If any leaf may stay undecided, acceptance is sound for exactly the trees without a negated disjunction. */
  lemma SoundExactly<T>(t: Tree<T>)
    ensures Sound(t) <==> NoNegatedOr(t, false)
  {
    if NoNegatedOr(t, false) {
      forall rs: seq<LeafOutcome>, reading: seq<bool>
        | |rs| == |reading| == |Leaves(t)| && Respects(rs, reading) && TreeOutcome(Relabel(t, rs)).Ok?
        ensures Truth(Relabel(t, reading))
      {
        AcceptanceIsFinal(t, rs, reading, false);
      }
    } else {
      var rs, reading := NegatedOrMisleads(t, false);
    }
  }

  // ---- Results as interleavings produce them ----

  /** A prefix of decided leaves; none of the others is. */
  predicate CutAt(rs: seq<LeafOutcome>, n: nat) {
    n <= |rs| && (forall i :: 0 <= i < n ==> Decided(rs[i])) && (forall i :: n <= i < |rs| ==> !Decided(rs[i]))
  }

  predicate WorkerIsCut(w: Worker, cancelled: bool, n: nat) {
    match w
    case Mapping(rs, cleared) => CutAt(rs, n) && (n < |rs| ==> cancelled && !cleared)
    case Done(rs) => CutAt(rs, n)
    case _ => true
  }

  lemma StepKeepsCut(trees: seq<ExpandedTree>, invoke: Invoke, run: Run, k: nat, j: nat, n: nat) returns (m: nat)
    requires |run.workers| == |trees| && k < |trees| && j < |trees| && WorkerIsCut(run.workers[j], run.cancelled, n)
    ensures WorkerIsCut(Step(trees, invoke, run, k).workers[j], Step(trees, invoke, run, k).cancelled, m)
  {
    m := n;
    if j == k {
      var w := run.workers[k];
      if w == Waiting {
        m := 0;
      } else if w.Mapping? && w.cleared && |w.results| < |Leaves(trees[k])| &&
          !invoke(Leaves(trees[k])[|w.results|]).Crashes? {
        m := n + 1;
      }
    }
  }

  /** In every interleaving the results of a worker are decided up to a point and undecided from there on. */
  lemma {:induction false} WorkersAreCut(trees: seq<ExpandedTree>, invoke: Invoke, schedule: seq<nat>, j: nat)
      returns (n: nat)
    requires ScheduleOf(trees, schedule) && j < |trees|
    ensures WorkerIsCut(Execute(trees, invoke, schedule).workers[j], Execute(trees, invoke, schedule).cancelled, n)
  {
    if schedule == [] {
      n := 0;
    } else {
      var front := schedule[..|schedule| - 1];
      n := WorkersAreCut(trees, invoke, front, j);
      n := StepKeepsCut(trees, invoke, Execute(trees, invoke, front), schedule[|schedule| - 1], j, n);
    }
  }

  /**
   * A disjunction stands where its right side can go undecided without its being noticed: under an odd number of
   * negations, and with nothing to its right that the tree still needs.
   */
  predicate Exposed<T>(t: Tree<T>, negated: bool) {
    match t
    case Id(_) => false
    case Not(b) => Exposed(b, !negated)
    case And(l, r) => (negated && Exposed(l, negated)) || Exposed(r, negated)
    case Or(_, r) => negated || Exposed(r, negated)
  }

  lemma {:induction false} ExposedIsNegated<T>(t: Tree<T>, negated: bool)
    requires Exposed(t, negated)
    ensures !NoNegatedOr(t, negated)
  {
    match t
    case Not(b) => ExposedIsNegated(b, !negated);
    case And(l, r) =>
      if Exposed(r, negated) {
        ExposedIsNegated(r, negated);
      } else {
        ExposedIsNegated(l, negated);
      }
    case Or(_, r) =>
      if !negated {
        ExposedIsNegated(r, negated);
      }
  }

  lemma CutSplits(rs: seq<LeafOutcome>, n: nat, k: nat)
    requires CutAt(rs, n) && k <= |rs|
    ensures CutAt(rs[..k], if n <= k then n else k) && CutAt(rs[k..], if n <= k then 0 else n - k)
  {
  }

  /** Where no disjunction is exposed, results that are cut at some point do not mislead. */
  lemma {:induction false} CutIsFinal<T>(t: Tree<T>, rs: seq<LeafOutcome>, reading: seq<bool>, n: nat, negated: bool)
    requires |rs| == |reading| == |Leaves(t)| && Respects(rs, reading) && CutAt(rs, n) && !Exposed(t, negated)
    ensures !Misleads(t, rs, reading, negated)
  {
    match t
    case Id(_) =>
    case Not(b) => CutIsFinal(b, rs, reading, n, !negated);
    case And(l, r) =>
      var k := |Leaves(l)|;
      CutSplits(rs, n, k);
      CutIsFinal(r, rs[k..], reading[k..], if n <= k then 0 else n - k, negated);
      if negated {
        CutIsFinal(l, rs[..k], reading[..k], if n <= k then n else k, negated);
      } else if n <= k {
        UndecidedStays(r, rs[k..]);
      } else {
        DecidedIsExact(l, rs[..k], reading[..k]);
      }
    case Or(l, r) =>
      var k := |Leaves(l)|;
      CutSplits(rs, n, k);
      CutIsFinal(r, rs[k..], reading[k..], if n <= k then 0 else n - k, negated);
      if n <= k {
        UndecidedStays(r, rs[k..]);
      } else {
        DecidedIsExact(l, rs[..k], reading[..k]);
      }
  }

  // ---- How an exposed disjunction misleads ----

  /** The leaf from which on nothing is decided. */
  function CutPoint<T>(t: Tree<T>, negated: bool): (n: nat)
    requires Exposed(t, negated)
    ensures n < |Leaves(t)|
  {
    match t
    case Not(b) => CutPoint(b, !negated)
    case And(l, r) => if negated && Exposed(l, negated) then CutPoint(l, negated)
        else |Leaves(l)| + CutPoint(r, negated)
    case Or(l, r) => |Leaves(l)| + if negated then 0 else CutPoint(r, negated)
  }

  function Misreading<T>(t: Tree<T>, negated: bool): (reading: seq<bool>)
    requires Exposed(t, negated)
    ensures |reading| == |Leaves(t)|
  {
    match t
    case Not(b) => Misreading(b, !negated)
    case And(l, r) =>
      if negated && Exposed(l, negated) then Misreading(l, negated) + Attaining(r, true)
      else Attaining(l, true) + Misreading(r, negated)
    case Or(l, r) => Attaining(l, false) + if negated then Attaining(r, true) else Misreading(r, negated)
  }

  /** The results agree with the reading up to the cut and are undecided from there on. */
  predicate Follows(rs: seq<LeafOutcome>, reading: seq<bool>, n: nat) {
    |rs| == |reading| && CutAt(rs, n) && forall i :: 0 <= i < n ==> rs[i].Ok? == reading[i]
  }

  lemma FollowsRespects(rs: seq<LeafOutcome>, reading: seq<bool>, n: nat)
    requires Follows(rs, reading, n)
    ensures Respects(rs, reading)
    ensures n == 0 ==> forall i :: 0 <= i < |rs| ==> !Decided(rs[i])
  {
  }

  lemma DecidedFollows<T>(t: Tree<T>, rs: seq<LeafOutcome>, value: bool)
    requires |rs| == |Leaves(t)| && Follows(rs, Attaining(t, value), |rs|)
    ensures Decided(TreeOutcome(Relabel(t, rs))) && TreeOutcome(Relabel(t, rs)).Ok? == value
  {
    AttainsTruth(t, value);
    DecidedIsExact(t, rs, Attaining(t, value));
  }

  lemma FollowsSplits(rs: seq<LeafOutcome>, left: seq<bool>, right: seq<bool>, n: nat)
    requires Follows(rs, left + right, n)
    ensures Follows(rs[..|left|], left, if n <= |left| then n else |left|)
    ensures Follows(rs[|left|..], right, if n <= |left| then 0 else n - |left|)
  {
    CutSplits(rs, n, |left|);
    Halves(left, right);
    forall i | 0 <= i < n - |left| ensures rs[|left|..][i].Ok? == right[i] {
      assert rs[|left| + i].Ok? == (left + right)[|left| + i];
    }
  }

  lemma AndMisleads<T>(l: Tree<T>, r: Tree<T>, rs: seq<LeafOutcome>, left: seq<bool>, right: seq<bool>, negated: bool)
    requires |left| == |Leaves(l)| && |right| == |Leaves(r)| && |rs| == |left| + |right| && Respects(rs, left + right)
    requires if negated && !Decided(TreeOutcome(Relabel(r, rs[|left|..])))
             then Misleads(l, rs[..|left|], left, negated) && Truth(Relabel(r, right))
             else TreeOutcome(Relabel(l, rs[..|left|])).Ok? && Truth(Relabel(l, left))
                  && Misleads(r, rs[|left|..], right, negated)
    ensures Misleads(And(l, r), rs, left + right, negated)
  {
    hide Respects;
    Halves(left, right);
  }

  lemma OrMisleads<T>(l: Tree<T>, r: Tree<T>, rs: seq<LeafOutcome>, left: seq<bool>, right: seq<bool>, negated: bool)
    requires |left| == |Leaves(l)| && |right| == |Leaves(r)| && |rs| == |left| + |right| && Respects(rs, left + right)
    requires Decided(TreeOutcome(Relabel(l, rs[..|left|]))) && !TreeOutcome(Relabel(l, rs[..|left|])).Ok?
    requires !Truth(Relabel(l, left))
    requires if negated then !Decided(TreeOutcome(Relabel(r, rs[|left|..]))) && Truth(Relabel(r, right))
             else Misleads(r, rs[|left|..], right, negated)
    ensures Misleads(Or(l, r), rs, left + right, negated)
  {
    hide Respects;
    Halves(left, right);
  }

  lemma {:induction false} ExposedMisleads<T>(t: Tree<T>, rs: seq<LeafOutcome>, negated: bool)
    requires |rs| == |Leaves(t)| && Exposed(t, negated) && Follows(rs, Misreading(t, negated), CutPoint(t, negated))
    ensures Misleads(t, rs, Misreading(t, negated), negated)
    decreases t, 1
  {
    FollowsRespects(rs, Misreading(t, negated), CutPoint(t, negated));
    match t
    case Not(b) => ExposedMisleads(b, rs, !negated);
    case And(_, _) => ExposedAnd(t, rs, negated);
    case Or(_, _) => ExposedOr(t, rs, negated);
  }

  lemma {:induction false} ExposedAnd<T>(t: Tree<T>, rs: seq<LeafOutcome>, negated: bool)
    requires t.And? && Exposed(t, negated)
    requires |rs| == |Leaves(t)| && Follows(rs, Misreading(t, negated), CutPoint(t, negated))
    ensures Misleads(t, rs, Misreading(t, negated), negated)
    decreases t, 0
  {
    var l, r := t.left, t.right;
    var k, n := |Leaves(l)|, CutPoint(t, negated);
    FollowsRespects(rs, Misreading(t, negated), n);
    hide Follows, Respects, Misleads, TreeOutcome, Relabel, Decided;
    if negated && Exposed(l, negated) {
      var left, right := Misreading(l, negated), Attaining(r, true);
      FollowsSplits(rs, left, right, n);
      ExposedMisleads(l, rs[..k], negated);
      FollowsRespects(rs[k..], right, 0);
      UndecidedStays(r, rs[k..]);
      AttainsTruth(r, true);
      AndMisleads(l, r, rs, left, right, negated);
    } else {
      var left, right := Attaining(l, true), Misreading(r, negated);
      FollowsSplits(rs, left, right, n);
      DecidedFollows(l, rs[..k], true);
      AttainsTruth(l, true);
      ExposedMisleads(r, rs[k..], negated);
      AndMisleads(l, r, rs, left, right, negated);
    }
  }

  lemma {:induction false} ExposedOr<T>(t: Tree<T>, rs: seq<LeafOutcome>, negated: bool)
    requires t.Or? && Exposed(t, negated)
    requires |rs| == |Leaves(t)| && Follows(rs, Misreading(t, negated), CutPoint(t, negated))
    ensures Misleads(t, rs, Misreading(t, negated), negated)
    decreases t, 0
  {
    var l, r := t.left, t.right;
    var k, n, left := |Leaves(l)|, CutPoint(t, negated), Attaining(l, false);
    FollowsRespects(rs, Misreading(t, negated), n);
    hide Follows, Respects, Misleads, TreeOutcome, Relabel, Decided;
    AttainsTruth(l, false);
    var right := if negated then Attaining(r, true) else Misreading(r, negated);
    FollowsSplits(rs, left, right, n);
    DecidedFollows(l, rs[..k], false);
    if negated {
      FollowsRespects(rs[k..], right, 0);
      UndecidedStays(r, rs[k..]);
      AttainsTruth(r, true);
    } else {
      ExposedMisleads(r, rs[k..], negated);
    }
    OrMisleads(l, r, rs, left, right, negated);
  }

  // ---- Acceptance is sound for exactly the trees in which no disjunction is exposed ----

  /** Every reading agrees with the predicates that do not crash; a crash may be read either way. */
  ghost predicate Agrees(truth: ExpandedPredicate -> bool, invoke: Invoke) {
    forall p :: !invoke(p).Crashes? ==> truth(p) == invoke(p).Accepts?
  }

  /**
   * Cancellation is sound. If a run succeeds, then every tree in which no disjunction is exposed is true under every
   * reading of its leaves that agrees with the results obtained, whatever it makes of crashed and cancelled leaves.
   */
  lemma CancellationSound(trees: seq<ExpandedTree>, invoke: Invoke, schedule: seq<nat>, k: nat, reading: seq<bool>)
    requires ScheduleOf(trees, schedule)
    requires k < |trees| && !Exposed(trees[k], false)
    requires Verdicts(trees, Execute(trees, invoke, schedule)).Ok?
    requires |reading| == |Leaves(trees[k])|
    requires var w := Execute(trees, invoke, schedule).workers[k];
             w.Done? && |w.results| == |reading| ==> Respects(w.results, reading)
    ensures Truth(Relabel(trees[k], reading))
  {
    SuccessMeansAllDone(trees, invoke, schedule, k);
    var n := WorkersAreCut(trees, invoke, schedule, k);
    CutIsFinal(trees[k], Execute(trees, invoke, schedule).workers[k].results, reading, n, false);
  }

  /** In terms of the predicates themselves. */
  lemma AcceptedTreesHold(trees: seq<ExpandedTree>, invoke: Invoke, schedule: seq<nat>, k: nat,
                          truth: ExpandedPredicate -> bool)
    requires ScheduleOf(trees, schedule)
    requires k < |trees| && !Exposed(trees[k], false)
    requires Verdicts(trees, Execute(trees, invoke, schedule)).Ok? && Agrees(truth, invoke)
    ensures Holds(trees[k], truth)
  {
    var leaves := Leaves(trees[k]);
    var reading := seq(|leaves|, m requires 0 <= m < |leaves| => truth(leaves[m]));
    ExecuteKeepsInv(trees, invoke, schedule);
    SuccessMeansAllDone(trees, invoke, schedule, k);
    var run := Execute(trees, invoke, schedule);
    assert WorkerOk(invoke, run.cancelled, trees[k], run.workers[k]);
    CancellationSound(trees, invoke, schedule, k, reading);
    TruthByValue(trees[k], truth, reading);
  }

  predicate DistinctLeaves(t: ExpandedTree) {
    Distinct(Leaves(t))
  }

  function IndexOf(leaves: seq<ExpandedPredicate>, p: ExpandedPredicate): (i: nat)
    requires p in leaves
    ensures i < |leaves| && leaves[i] == p
  {
    if leaves[0] == p then 0 else 1 + IndexOf(leaves[1..], p)
  }

  /** Predicates before the cut answer as they are read; the others crash. */
  function CutInvoke(leaves: seq<ExpandedPredicate>, reading: seq<bool>, n: nat): Invoke
    requires |reading| == |leaves|
  {
    p =>
      if p !in leaves then Accepts
      else
        var i := IndexOf(leaves, p);
        if i >= n then Crashes(0) else if reading[i] then Accepts else Refuses
  }

  function ReadBy(leaves: seq<ExpandedPredicate>, reading: seq<bool>): ExpandedPredicate -> bool
    requires |reading| == |leaves|
  {
    p => if p in leaves then reading[IndexOf(leaves, p)] else true
  }

  /** A cancelled worker marks the rest of its leaves as cancelled. */
  lemma {:induction false} CancelRest(trees: seq<ExpandedTree>, invoke: Invoke, schedule: seq<nat>, k: nat,
                                      rs: seq<LeafOutcome>)
    returns (more: seq<nat>, all: seq<LeafOutcome>)
    requires k < |trees| && ScheduleOf(trees, schedule) && Execute(trees, invoke, schedule).cancelled
    requires Execute(trees, invoke, schedule).workers[k] == Mapping(rs, false) && |rs| <= |Leaves(trees[k])|
    ensures ScheduleOf(trees, more)
    ensures Execute(trees, invoke, more) == Run(true, Execute(trees, invoke, schedule).workers[k := Done(all)])
    ensures |all| == |Leaves(trees[k])| && rs <= all && forall i :: |rs| <= i < |all| ==> all[i] == Err(Cancelled)
    decreases |Leaves(trees[k])| - |rs|
  {
    more := Advance(trees, invoke, schedule, k);
    if |rs| == |Leaves(trees[k])| {
      all := rs;
    } else {
      more, all := CancelRest(trees, invoke, more, k, rs + [Err(Cancelled)]);
    }
  }

  lemma {:induction false} ResultsAt(invoke: Invoke, leaves: seq<ExpandedPredicate>, n: nat, i: nat)
    requires i < n <= |leaves|
    ensures |Results(invoke, leaves, n)| == n && Results(invoke, leaves, n)[i] == LeafResult(invoke, leaves[i])
  {
    ResultsLength(invoke, leaves, n);
    ResultsLength(invoke, leaves, n - 1);
    if i < n - 1 {
      ResultsAt(invoke, leaves, n - 1, i);
    }
  }

  /** A worker alone, cut at its n-th leaf, which crashes. */
  lemma CrashAt(t: ExpandedTree, invoke: Invoke, n: nat) returns (schedule: seq<nat>, all: seq<LeafOutcome>)
    requires n < |Leaves(t)| && invoke(Leaves(t)[n]).Crashes?
    requires forall m :: 0 <= m < n ==> !invoke(Leaves(t)[m]).Crashes?
    ensures ScheduleOf([t], schedule) && Execute([t], invoke, schedule) == Run(true, [Done(all)])
    ensures |all| == |Leaves(t)| && CutAt(all, n) && forall i :: 0 <= i < n ==>
        all[i] == LeafResult(invoke, Leaves(t)[i])
  {
    var leaves := Leaves(t);
    schedule := RunLeaves([t], invoke, [], 0, n + 1);
    ResultsLength(invoke, leaves, n + 1);
    schedule, all := CancelRest([t], invoke, schedule, 0, Results(invoke, leaves, n + 1));
    forall i | 0 <= i <= n ensures all[i] == LeafResult(invoke, leaves[i]) {
      ResultsAt(invoke, leaves, n + 1, i);
    }
  }

  /** Whenever a run succeeds, with whatever other trees, the tree is true. */
  ghost predicate AlwaysSound(t: ExpandedTree) {
    forall trees: seq<ExpandedTree>, k: nat, invoke, schedule, truth ::
      SuccessfulRun(trees, invoke, schedule) && k < |trees| && trees[k] == t && Agrees(truth, invoke) ==>
          Holds(trees[k], truth)
  }

  ghost predicate SuccessfulRun(trees: seq<ExpandedTree>, invoke: Invoke, schedule: seq<nat>) {
    ScheduleOf(trees, schedule) && Finished(Execute(trees, invoke, schedule)) &&
        Verdicts(trees, Execute(trees, invoke, schedule)).Ok?
  }

  /** An exposed disjunction makes a false tree succeed, all by itself, when the predicate at the cut crashes. */
  lemma ExposedIsAccepted(t: ExpandedTree)
      returns (invoke: Invoke, schedule: seq<nat>, truth: ExpandedPredicate -> bool)
    requires DistinctLeaves(t) && Exposed(t, false)
    ensures SuccessfulRun([t], invoke, schedule) && Agrees(truth, invoke) && !Holds(t, truth)
  {
    var leaves, reading, n := Leaves(t), Misreading(t, false), CutPoint(t, false);
    invoke, truth := CutInvoke(leaves, reading, n), ReadBy(leaves, reading);
    CutAnswers(leaves, reading, n);
    hide SuccessfulRun, Exposed, TreeOutcome, Holds, CutInvoke, ReadBy, DistinctLeaves, Agrees, Execute, CutAt, Relabel;
    var all;
    schedule, all := CrashAt(t, invoke, n);
    assert Follows(all, reading, n);
    ExposedMisleads(t, all, false);
    TruthByValue(t, truth, reading);
    AloneSucceeds(t, invoke, schedule, all);
  }

  lemma CutAnswers(leaves: seq<ExpandedPredicate>, reading: seq<bool>, n: nat)
    requires Distinct(leaves) && |reading| == |leaves| && n < |leaves|
    ensures var invoke, truth := CutInvoke(leaves, reading, n), ReadBy(leaves, reading);
            && invoke(leaves[n]).Crashes? && Agrees(truth, invoke)
            && (forall i :: 0 <= i < n ==> !invoke(leaves[i]).Crashes?)
            && (forall i :: 0 <= i < n ==> LeafResult(invoke, leaves[i]).Ok? == reading[i])
            && (forall i :: 0 <= i < |leaves| ==> truth(leaves[i]) == reading[i])
  {
    forall i | 0 <= i < |leaves| ensures IndexOf(leaves, leaves[i]) == i {
    }
  }

  lemma AloneSucceeds(t: ExpandedTree, invoke: Invoke, schedule: seq<nat>, all: seq<LeafOutcome>)
    requires |all| == |Leaves(t)| && TreeOutcome(Relabel(t, all)).Ok?
    requires ScheduleOf([t], schedule) && Execute([t], invoke, schedule) == Run(true, [Done(all)])
    ensures SuccessfulRun([t], invoke, schedule)
  {
    assert Outcomes([t], Execute([t], invoke, schedule)) == [Ok(())];
  }

  /** The exact condition, for trees whose leaves differ. */
  lemma AlwaysSoundExactly(t: ExpandedTree)
    requires DistinctLeaves(t)
    ensures AlwaysSound(t) <==> !Exposed(t, false)
  {
    if Exposed(t, false) {
      var invoke, schedule, truth := ExposedIsAccepted(t);
      assert SuccessfulRun([t], invoke, schedule) && [t][0] == t;
    } else {
      forall trees: seq<ExpandedTree>, k: nat, invoke, schedule, truth
        | SuccessfulRun(trees, invoke, schedule) && k < |trees| && trees[k] == t && Agrees(truth, invoke)
        ensures Holds(trees[k], truth)
      {
        AcceptedTreesHold(trees, invoke, schedule, k, truth);
      }
    }
  }

  // ---- Acceptance is independent of the interleaving exactly without crashes ----

  ghost predicate AlwaysAccepted(trees: seq<ExpandedTree>, invoke: Invoke) {
    forall schedule :: ScheduleOf(trees, schedule) && Finished(Execute(trees, invoke, schedule)) ==>
                         Verdicts(trees, Execute(trees, invoke, schedule)).Ok?
  }

  ghost predicate AllHold(trees: seq<ExpandedTree>, invoke: Invoke) {
    forall k :: 0 <= k < |trees| ==> Holds(trees[k], p => invoke(p).Accepts?)
  }

  lemma {:induction false} FirstCrash(invoke: Invoke, leaves: seq<ExpandedPredicate>, m: nat) returns (n: nat)
    requires m < |leaves| && invoke(leaves[m]).Crashes?
    ensures n <= m && invoke(leaves[n]).Crashes? && forall i :: 0 <= i < n ==> !invoke(leaves[i]).Crashes?
    decreases m
  {
    if i :| 0 <= i < m && invoke(leaves[i]).Crashes? {
      n := FirstCrash(invoke, leaves, i);
    } else {
      n := m;
    }
  }

  lemma {:induction false} SkippedStays(trees: seq<ExpandedTree>, invoke: Invoke, schedule: seq<nat>, more: seq<nat>,
                                        j: nat)
    requires ScheduleOf(trees, more) && schedule <= more && j < |trees|
    requires ScheduleOf(trees, schedule) && Execute(trees, invoke, schedule).workers[j] == Skipped
    ensures Execute(trees, invoke, more).workers[j] == Skipped
    decreases |more|
  {
    if |schedule| == |more| {
      assert schedule == more;
    } else {
      SkippedStays(trees, invoke, schedule, more[..|more| - 1], j);
    }
  }

  /** With another tree to skip, a crash can fail the evaluation, whatever the trees make of it. */
  lemma CrashCanFail(trees: seq<ExpandedTree>, invoke: Invoke) returns (schedule: seq<nat>)
    requires |trees| > 1 && SomeLeafCrashes(trees, invoke)
    ensures ScheduleOf(trees, schedule) && Finished(Execute(trees, invoke, schedule))
    ensures Verdicts(trees, Execute(trees, invoke, schedule)).Err?
  {
    var k: nat, m: nat :| k < |trees| && m < |Leaves(trees[k])| && invoke(Leaves(trees[k])[m]).Crashes?;
    var n := FirstCrash(invoke, Leaves(trees[k]), m);
    var j := if k == 0 then 1 else 0;
    var crashed := RunLeaves(trees, invoke, [], k, n + 1);
    crashed := Advance(trees, invoke, crashed, j);
    schedule := CanFinish(trees, invoke, crashed);
    SkippedStays(trees, invoke, crashed, schedule, j);
    var outcomes := Outcomes(trees, Execute(trees, invoke, schedule));
    assert outcomes[j] == Err(Cancelled);
    FoldAndMeaning(outcomes);
  }

  /** Several trees are accepted in every interleaving exactly if nothing crashes and all of them are true. */
  lemma AlwaysAcceptedExactly(trees: seq<ExpandedTree>, invoke: Invoke)
    requires |trees| > 1
    ensures AlwaysAccepted(trees, invoke) <==> !SomeLeafCrashes(trees, invoke) && AllHold(trees, invoke)
  {
    if SomeLeafCrashes(trees, invoke) {
      var schedule := CrashCanFail(trees, invoke);
    } else {
      var one := CanFinish(trees, invoke, []);
      CrashFreeExact(trees, invoke, one);
      forall schedule | ScheduleOf(trees, schedule) && Finished(Execute(trees, invoke, schedule))
        ensures Verdicts(trees, Execute(trees, invoke, schedule)).Ok? <==> AllHold(trees, invoke)
      {
        CrashFreeExact(trees, invoke, schedule);
      }
    }
  }

  /** Both acceptance and failure are possible. */
  ghost predicate DependsOnInterleaving(trees: seq<ExpandedTree>, invoke: Invoke) {
    && (exists schedule :: SuccessfulRun(trees, invoke, schedule))
    && !AlwaysAccepted(trees, invoke)
  }

  lemma {:induction false} FinishedStays(trees: seq<ExpandedTree>, invoke: Invoke, schedule: seq<nat>, more: seq<nat>)
    requires ScheduleOf(trees, schedule) && ScheduleOf(trees, more) && schedule <= more
    requires Finished(Execute(trees, invoke, schedule))
    ensures Execute(trees, invoke, more) == Execute(trees, invoke, schedule)
    decreases |more|
  {
    if |schedule| == |more| {
      assert schedule == more;
    } else {
      FinishedStays(trees, invoke, schedule, more[..|more| - 1]);
    }
  }

  /** A single tree has one outcome. */
  lemma OneTreeIsDeterministic(trees: seq<ExpandedTree>, invoke: Invoke, one: seq<nat>, other: seq<nat>)
    requires |trees| <= 1 && ScheduleOf(trees, one) && ScheduleOf(trees, other)
    requires Finished(Execute(trees, invoke, one)) && Finished(Execute(trees, invoke, other))
    ensures Execute(trees, invoke, one) == Execute(trees, invoke, other)
  {
    forall i | 0 <= i < |one| && i < |other| ensures one[i] == other[i] {
    }
    if |one| <= |other| {
      assert one == other[..|one|];
      FinishedStays(trees, invoke, one, other);
    } else {
      assert other == one[..|other|];
      FinishedStays(trees, invoke, other, one);
    }
  }

  /**
   * Acceptance depends on the interleaving exactly if there are several trees, a leaf crashes, and some interleaving
   * still accepts.
   */
  lemma DependsExactly(trees: seq<ExpandedTree>, invoke: Invoke)
    ensures DependsOnInterleaving(trees, invoke) <==>
            |trees| > 1 && SomeLeafCrashes(trees, invoke) && exists schedule :: SuccessfulRun(trees, invoke, schedule)
  {
    if schedule :| SuccessfulRun(trees, invoke, schedule) {
      if |trees| > 1 {
        AlwaysAcceptedExactly(trees, invoke);
        if !SomeLeafCrashes(trees, invoke) {
          CrashFreeExact(trees, invoke, schedule);
        }
      } else {
        forall other | ScheduleOf(trees, other) && Finished(Execute(trees, invoke, other))
          ensures Verdicts(trees, Execute(trees, invoke, other)).Ok?
        {
          OneTreeIsDeterministic(trees, invoke, schedule, other);
        }
      }
    }
  }
}
