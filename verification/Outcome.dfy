/** The outcome of one predicate, and how outcomes are negated, conjoined and disjoined. */
module Outcome {
  import opened ExpressionTree
  import opened Primitives
  import opened Wrappers

  type LeafOutcome = Result<ExpandedPredicate, Error>

  function NegateName(p: ExpandedPredicate): ExpandedPredicate {
    p.(entrypoint := "not(" + p.entrypoint + ")")
  }

  function NotOutcome(v: LeafOutcome): LeafOutcome {
    match v
    case Ok(p) => Err(Rejected(NegateName(p)))
    case Err(Rejected(p)) => Ok(NegateName(p))
    case Err(e) => Err(e)
  }

  function AndOutcome<T>(a: Result<T, Error>, b: Result<T, Error>): Result<T, Error> {
    match (a, b)
    case (Ok(p), Ok(_)) => Ok(p)
    case (Ok(_), Err(Rejected(p))) => Err(Rejected(p))
    case (Err(Rejected(p)), Ok(_)) => Err(Rejected(p))
    case (Err(Cancelled), Err(e)) => Err(e)
    case (Err(e), Err(Cancelled)) => Err(e)
    case (Err(e), _) => Err(e)
    case (_, Err(e)) => Err(e)
  }

  function OrOutcome<T>(a: Result<T, Error>, b: Result<T, Error>): Result<T, Error> {
    match (a, b)
    case (Ok(p), Ok(_)) => Ok(p)
    case (Ok(p), Err(Rejected(_))) => Ok(p)
    case (Err(Rejected(_)), Ok(p)) => Ok(p)
    case (Err(Cancelled), Err(e)) => Err(e)
    case (Err(e), Err(Cancelled)) => Err(e)
    case (Err(e), _) => Err(e)
    case (_, Err(e)) => Err(e)
  }

  /** The outcome of a tree whose leaves have the given outcomes. */
  function TreeOutcome(t: Tree<LeafOutcome>): LeafOutcome {
    Reduce(t, (p: LeafOutcome) => p, NotOutcome, (a, b) => AndOutcome(a, b), (a, b) => OrOutcome(a, b))
  }

  // ---- Reducing the outcomes of a list of trees ----

  function FoldAnd<T>(rs: seq<Result<T, Error>>): Result<T, Error>
    requires rs != []
  {
    if |rs| == 1 then rs[0] else AndOutcome(FoldAnd(rs[..|rs| - 1]), rs[|rs| - 1])
  }

  /** A way in which a parallel reduction may group its operands. */
  datatype Grouping = One | Two(left: Grouping, right: Grouping)

  function Size(g: Grouping): (n: nat)
    ensures n > 0
  {
    match g
    case One => 1
    case Two(l, r) => Size(l) + Size(r)
  }

  function ReduceBy<T>(g: Grouping, rs: seq<Result<T, Error>>): Result<T, Error>
    requires Size(g) == |rs|
  {
    match g
    case One => rs[0]
    case Two(l, r) => AndOutcome(ReduceBy(l, rs[..Size(l)]), ReduceBy(r, rs[Size(l)..]))
  }

  lemma AndAssociative<T>(a: Result<T, Error>, b: Result<T, Error>, c: Result<T, Error>)
    ensures AndOutcome(AndOutcome(a, b), c) == AndOutcome(a, AndOutcome(b, c))
  {
    match a {
      case Ok(_) =>
      case Err(Rejected(_)) =>
      case Err(Cancelled) =>
      case Err(Crash(_)) =>
      case Err(StateError(_)) =>
    }
  }

  lemma {:induction false} FoldAndConcat<T>(rs: seq<Result<T, Error>>, ss: seq<Result<T, Error>>)
    requires rs != [] && ss != []
    ensures FoldAnd(rs + ss) == AndOutcome(FoldAnd(rs), FoldAnd(ss))
  {
    var all, last := rs + ss, ss[|ss| - 1];
    if |ss| == 1 {
      assert all[..|all| - 1] == rs;
    } else {
      var front := ss[..|ss| - 1];
      assert all[..|all| - 1] == rs + front;
      FoldAndConcat(rs, front);
      AndAssociative(FoldAnd(rs), FoldAnd(front), last);
    }
  }

  /** However a parallel reduction groups the trees, it gives the left fold. */
  lemma {:induction false} GroupingIrrelevant<T>(g: Grouping, rs: seq<Result<T, Error>>)
    requires Size(g) == |rs|
    ensures ReduceBy(g, rs) == FoldAnd(rs)
  {
    match g
    case One =>
    case Two(l, r) =>
      var n := Size(l);
      GroupingIrrelevant(l, rs[..n]);
      GroupingIrrelevant(r, rs[n..]);
      FoldAndConcat(rs[..n], rs[n..]);
      assert rs == rs[..n] + rs[n..];
  }

  /** The fold: the first value if all succeed, else the leftmost error that is not a cancellation, else `Cancelled`. */
  lemma {:induction false} FoldAndMeaning<T>(rs: seq<Result<T, Error>>)
    requires rs != []
    ensures FoldAnd(rs).Ok? <==> forall i :: 0 <= i < |rs| ==> rs[i].Ok?
    ensures FoldAnd(rs).Ok? ==> FoldAnd(rs) == rs[0]
    ensures FoldAnd(rs) == Err(Cancelled) <==>
            (forall i :: 0 <= i < |rs| ==> rs[i].Ok? || rs[i] == Err(Cancelled)) && Err(Cancelled) in rs
    ensures FoldAnd(rs).Err? && FoldAnd(rs) != Err(Cancelled) ==>
            exists i :: 0 <= i < |rs| && rs[i] == FoldAnd(rs)
                        && forall j :: 0 <= j < i ==> rs[j].Ok? || rs[j] == Err(Cancelled)
  {
    if |rs| == 1 {
      assert rs[0] in rs;
    } else {
      var front, last := rs[..|rs| - 1], rs[|rs| - 1];
      FoldAndMeaning(front);
      assert forall i :: 0 <= i < |front| ==> front[i] == rs[i];
      assert rs == front + [last];
      if FoldAnd(front).Err? && FoldAnd(front) != Err(Cancelled) {
        var i :| 0 <= i < |front| && front[i] == FoldAnd(front)
                 && forall j :: 0 <= j < i ==> front[j].Ok? || front[j] == Err(Cancelled);
        assert rs[i] == FoldAnd(rs);
      } else if last.Err? && last != Err(Cancelled) {
        assert rs[|rs| - 1] == FoldAnd(rs);
      }
    }
  }

  // ---- Outcomes against truth ----

  /** A leaf outcome that comes from running the predicate to its end without a crash. */
  predicate Decided(r: LeafOutcome) {
    r.Ok? || r.error.Rejected?
  }

  /** A reading of the leaves that respects every decided outcome. */
  predicate Respects(rs: seq<LeafOutcome>, reading: seq<bool>)
    requires |rs| == |reading|
  {
    forall i :: 0 <= i < |rs| && Decided(rs[i]) ==> reading[i] == rs[i].Ok?
  }

  function Truth(t: Tree<bool>): bool {
    Holds(t, (b: bool) => b)
  }

  /**
   * With no disjunction under an odd number of negations, acceptance is final: whatever the crashed and
   * cancelled leaves are read as, the tree is true. In negated position the same goes for rejection.
   */
  lemma {:induction false} AcceptanceIsFinal<T>(t: Tree<T>, rs: seq<LeafOutcome>, reading: seq<bool>, negated: bool)
    requires |rs| == |reading| == |Leaves(t)| && Respects(rs, reading) && NoNegatedOr(t, negated)
    ensures !negated && TreeOutcome(Relabel(t, rs)).Ok? ==> Truth(Relabel(t, reading))
    ensures negated && TreeOutcome(Relabel(t, rs)).Err? && TreeOutcome(Relabel(t, rs)).error.Rejected? ==>
            !Truth(Relabel(t, reading))
  {
    match t
    case Id(_) =>
    case Not(b) => AcceptanceIsFinal(b, rs, reading, !negated);
    case And(l, r) =>
      var n := |Leaves(l)|;
      AcceptanceIsFinal(l, rs[..n], reading[..n], negated);
      AcceptanceIsFinal(r, rs[n..], reading[n..], negated);
    case Or(l, r) =>
      var n := |Leaves(l)|;
      AcceptanceIsFinal(l, rs[..n], reading[..n], negated);
      AcceptanceIsFinal(r, rs[n..], reading[n..], negated);
  }

  lemma {:induction false} NotFreeHasNoNegatedOr<T>(t: Tree<T>)
    requires NotFree(t)
    ensures NoNegatedOr(t, false)
  {
    match t
    case Id(_) =>
    case And(l, r) =>
      NotFreeHasNoNegatedOr(l);
      NotFreeHasNoNegatedOr(r);
    case Or(l, r) =>
      NotFreeHasNoNegatedOr(l);
      NotFreeHasNoNegatedOr(r);
  }

  /** When every leaf is decided, the outcome is the Boolean value of the tree, negations included. */
  lemma {:induction false} DecidedIsExact<T>(t: Tree<T>, rs: seq<LeafOutcome>, reading: seq<bool>)
    requires |rs| == |reading| == |Leaves(t)| && Respects(rs, reading)
    requires forall i :: 0 <= i < |rs| ==> Decided(rs[i])
    ensures Decided(TreeOutcome(Relabel(t, rs)))
    ensures TreeOutcome(Relabel(t, rs)).Ok? <==> Truth(Relabel(t, reading))
  {
    match t
    case Id(_) =>
    case Not(b) => DecidedIsExact(b, rs, reading);
    case And(l, r) =>
      var n := |Leaves(l)|;
      DecidedIsExact(l, rs[..n], reading[..n]);
      DecidedIsExact(r, rs[n..], reading[n..]);
    case Or(l, r) =>
      var n := |Leaves(l)|;
      DecidedIsExact(l, rs[..n], reading[..n]);
      DecidedIsExact(r, rs[n..], reading[n..]);
  }

  /** Reading leaves by position or by value gives the same truth. */
  lemma {:induction false} TruthByValue<T>(t: Tree<T>, truth: T -> bool, reading: seq<bool>)
    requires |reading| == |Leaves(t)|
    requires forall i :: 0 <= i < |reading| ==> reading[i] == truth(Leaves(t)[i])
    ensures Truth(Relabel(t, reading)) == Holds(t, truth)
  {
    match t
    case Id(_) =>
    case Not(b) => TruthByValue(b, truth, reading);
    case And(l, r) =>
      RightLeaves(l, r);
      TruthByValue(l, truth, reading[..|Leaves(l)|]);
      TruthByValue(r, truth, reading[|Leaves(l)|..]);
    case Or(l, r) =>
      RightLeaves(l, r);
      TruthByValue(l, truth, reading[..|Leaves(l)|]);
      TruthByValue(r, truth, reading[|Leaves(l)|..]);
  }

  // ---- What an outcome names ----

  /** The predicate is one of the leaves, its entry point wrapped once for every negation above it. */
  ghost predicate Names(t: Tree<LeafOutcome>, p: ExpandedPredicate) {
    match t
    case Id(r) => r == Ok(p) || r == Err(Rejected(p))
    case Not(b) => exists q :: Names(b, q) && p == ExpandedPredicate(q.code, "not(" + q.entrypoint + ")", q.params)
    case And(l, r) => Names(l, p) || Names(r, p)
    case Or(l, r) => Names(l, p) || Names(r, p)
  }

  /** An accepted or refused tree names the predicate that decided. */
  lemma {:induction false} OutcomeNamesLeaf(t: Tree<LeafOutcome>, p: ExpandedPredicate)
    requires TreeOutcome(t) == Ok(p) || TreeOutcome(t) == Err(Rejected(p))
    ensures Names(t, p)
  {
    match t
    case Id(_) =>
    case Not(b) =>
      var q := match TreeOutcome(b) case Ok(q) => q case Err(Rejected(q)) => q case Err(_) => p;
      OutcomeNamesLeaf(b, q);
    case And(l, r) =>
      if TreeOutcome(l) == Ok(p) || TreeOutcome(l) == Err(Rejected(p)) {
        OutcomeNamesLeaf(l, p);
      } else {
        OutcomeNamesLeaf(r, p);
      }
    case Or(l, r) =>
      if TreeOutcome(l) == Ok(p) || TreeOutcome(l) == Err(Rejected(p)) {
        OutcomeNamesLeaf(l, p);
      } else {
        OutcomeNamesLeaf(r, p);
      }
  }
}
