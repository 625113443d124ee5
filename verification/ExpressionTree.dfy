/** Boolean expression trees and their traversals. */
module ExpressionTree {
  import opened Wrappers

  datatype Tree<T> =
    | Id(leaf: T)
    | Not(body: Tree<T>)
    | And(left: Tree<T>, right: Tree<T>)
    | Or(left: Tree<T>, right: Tree<T>)

  function Map<T, V>(t: Tree<T>, op: T -> V): Tree<V> {
    match t
    case Id(p) => Id(op(p))
    case Not(b) => Not(Map(b, op))
    case And(l, r) => And(Map(l, op), Map(r, op))
    case Or(l, r) => Or(Map(l, op), Map(r, op))
  }

  function TryMap<T, V, E>(t: Tree<T>, op: T -> Result<V, E>): Result<Tree<V>, E> {
    match t
    case Id(p) =>
      var v :- op(p);
      Ok(Id(v))
    case Not(b) =>
      var c :- TryMap(b, op);
      Ok(Not(c))
    case And(l, r) =>
      var l' :- TryMap(l, op);
      var r' :- TryMap(r, op);
      Ok(And(l', r'))
    case Or(l, r) =>
      var l' :- TryMap(l, op);
      var r' :- TryMap(r, op);
      Ok(Or(l', r'))
  }

  function Reduce<T, R>(t: Tree<T>, id: T -> R, not: R -> R, and: (R, R) -> R, or: (R, R) -> R): R {
    match t
    case Id(v) => id(v)
    case Not(b) => not(Reduce(b, id, not, and, or))
    case And(l, r) => and(Reduce(l, id, not, and, or), Reduce(r, id, not, and, or))
    case Or(l, r) => or(Reduce(l, id, not, and, or), Reduce(r, id, not, and, or))
  }

  /** The leaves in the order in which every traversal visits them. */
  function Leaves<T>(t: Tree<T>): (s: seq<T>)
    ensures |s| > 0
  {
    match t
    case Id(p) => [p]
    case Not(b) => Leaves(b)
    case And(l, r) => Leaves(l) + Leaves(r)
    case Or(l, r) => Leaves(l) + Leaves(r)
  }

  /** The tree of the same shape whose leaves are, in visiting order, the given values. */
  function Relabel<T, V>(t: Tree<T>, values: seq<V>): Tree<V>
    requires |values| == |Leaves(t)|
  {
    match t
    case Id(_) => Id(values[0])
    case Not(b) => Not(Relabel(b, values))
    case And(l, r) => And(Relabel(l, values[..|Leaves(l)|]), Relabel(r, values[|Leaves(l)|..]))
    case Or(l, r) => Or(Relabel(l, values[..|Leaves(l)|]), Relabel(r, values[|Leaves(l)|..]))
  }

  lemma {:induction false} RelabelLeaves<T, V>(t: Tree<T>, values: seq<V>)
    requires |values| == |Leaves(t)|
    ensures Leaves(Relabel(t, values)) == values
  {
    match t
    case Id(_) =>
    case Not(b) => RelabelLeaves(b, values);
    case And(l, r) =>
      RelabelLeaves(l, values[..|Leaves(l)|]);
      RelabelLeaves(r, values[|Leaves(l)|..]);
    case Or(l, r) =>
      RelabelLeaves(l, values[..|Leaves(l)|]);
      RelabelLeaves(r, values[|Leaves(l)|..]);
  }

  /** Two trees of one shape with the same leaves are the same tree. */
  lemma {:induction false} MapIsRelabel<T, V>(t: Tree<T>, op: T -> V, values: seq<V>)
    requires |values| == |Leaves(t)|
    requires forall i :: 0 <= i < |values| ==> values[i] == op(Leaves(t)[i])
    ensures Map(t, op) == Relabel(t, values)
  {
    match t
    case Id(_) =>
    case Not(b) => MapIsRelabel(b, op, values);
    case And(l, r) =>
      SplitValues(l, r, op, values);
      MapIsRelabel(l, op, values[..|Leaves(l)|]);
      MapIsRelabel(r, op, values[|Leaves(l)|..]);
    case Or(l, r) =>
      SplitValues(l, r, op, values);
      MapIsRelabel(l, op, values[..|Leaves(l)|]);
      MapIsRelabel(r, op, values[|Leaves(l)|..]);
  }

  lemma SplitValues<T, V>(l: Tree<T>, r: Tree<T>, op: T -> V, values: seq<V>)
    requires |values| == |Leaves(l)| + |Leaves(r)|
    requires forall i :: 0 <= i < |values| ==> values[i] == op((Leaves(l) + Leaves(r))[i])
    ensures forall i :: 0 <= i < |Leaves(l)| ==> values[..|Leaves(l)|][i] == op(Leaves(l)[i])
    ensures forall i :: 0 <= i < |Leaves(r)| ==> values[|Leaves(l)|..][i] == op(Leaves(r)[i])
  {
    RightLeaves(l, r);
  }

  lemma RightLeaves<T>(l: Tree<T>, r: Tree<T>)
    ensures forall i :: 0 <= i < |Leaves(r)| ==> (Leaves(l) + Leaves(r))[|Leaves(l)| + i] == Leaves(r)[i]
  {
  }

  /** Applies a fallible operator along a sequence, stopping at the first failure. */
  function Traverse<T, V, E>(s: seq<T>, op: T -> Result<V, E>): (r: Result<seq<V>, E>)
    ensures match r
      case Ok(vs) => |vs| == |s| && (forall i :: 0 <= i < |s| ==> op(s[i]) == Ok(vs[i]))
      case Err(e) => exists i :: 0 <= i < |s| && op(s[i]) == Err(e) && forall j :: 0 <= j < i ==> op(s[j]).Ok?
  {
    if s == [] then Ok([])
    else
      var vs :- Traverse(s[..|s| - 1], op);
      var v :- op(s[|s| - 1]);
      Ok(vs + [v])
  }

  lemma {:induction false} TraverseConcat<T, V, E>(s: seq<T>, t: seq<T>, op: T -> Result<V, E>)
    ensures Traverse(s + t, op) ==
            if Traverse(s, op).Err? then Traverse(s, op)
            else if Traverse(t, op).Err? then Traverse(t, op)
            else Ok(Traverse(s, op).value + Traverse(t, op).value)
  {
    if t == [] {
      assert s + t == s;
      assert Traverse(s, op).Ok? ==> Traverse(s, op).value + [] == Traverse(s, op).value;
    } else {
      TraverseConcat(s, t[..|t| - 1], op);
      assert (s + t)[..|s + t| - 1] == s + t[..|t| - 1];
      if Traverse(s, op).Ok? && Traverse(t, op).Ok? {
        var vs, ws, v := Traverse(s, op).value, Traverse(t[..|t| - 1], op).value, op(t[|t| - 1]).value;
        assert (vs + ws) + [v] == vs + (ws + [v]);
      }
    }
  }

  /**
   * `try_map` visits the leaves in order: it fails with the first failing leaf's error, and otherwise keeps the shape.
   */
  lemma {:induction false} TryMapVisitsInOrder<T, V, E>(t: Tree<T>, op: T -> Result<V, E>)
    ensures TryMap(t, op) == match Traverse(Leaves(t), op)
                             case Ok(values) => Ok(Relabel(t, values))
                             case Err(e) => Err(e)
  {
    match t
    case Id(p) =>
      assert [p][..0] == [];
    case Not(b) => TryMapVisitsInOrder(b, op);
    case And(l, r) =>
      TryMapVisitsInOrder(l, op);
      TryMapVisitsInOrder(r, op);
      TraverseConcat(Leaves(l), Leaves(r), op);
    case Or(l, r) =>
      TryMapVisitsInOrder(l, op);
      TryMapVisitsInOrder(r, op);
      TraverseConcat(Leaves(l), Leaves(r), op);
  }

  lemma {:induction false} TraverseCongruence<T, V, E>(s: seq<T>, f: T -> Result<V, E>, g: T -> Result<V, E>)
    requires forall p :: p in s ==> f(p) == g(p)
    ensures Traverse(s, f) == Traverse(s, g)
  {
    if s != [] {
      TraverseCongruence(s[..|s| - 1], f, g);
      assert s[|s| - 1] in s;
    }
  }

  /** Only the operator's values on the leaves matter to `try_map`. */
  lemma {:induction false} TryMapCongruence<T, V, E>(t: Tree<T>, f: T -> Result<V, E>, g: T -> Result<V, E>)
    requires forall p :: p in Leaves(t) ==> f(p) == g(p)
    ensures TryMap(t, f) == TryMap(t, g)
  {
    match t
    case Id(p) => assert p in Leaves(t);
    case Not(b) => TryMapCongruence(b, f, g);
    case And(l, r) =>
      TryMapCongruence(l, f, g);
      TryMapCongruence(r, f, g);
    case Or(l, r) =>
      TryMapCongruence(l, f, g);
      TryMapCongruence(r, f, g);
  }

  /** Boolean meaning of a tree whose leaves are read by `truth`. */
  predicate Holds<T>(t: Tree<T>, truth: T -> bool) {
    match t
    case Id(p) => truth(p)
    case Not(b) => !Holds(b, truth)
    case And(l, r) => Holds(l, truth) && Holds(r, truth)
    case Or(l, r) => Holds(l, truth) || Holds(r, truth)
  }

  /** Only the truth of the leaves matters. */
  lemma {:induction false} HoldsAlike<T>(t: Tree<T>, f: T -> bool, g: T -> bool)
    requires forall p :: f(p) == g(p)
    ensures Holds(t, f) == Holds(t, g)
  {
    match t
    case Id(_) =>
    case Not(b) => HoldsAlike(b, f, g);
    case And(l, r) =>
      HoldsAlike(l, f, g);
      HoldsAlike(r, f, g);
    case Or(l, r) =>
      HoldsAlike(l, f, g);
      HoldsAlike(r, f, g);
  }

  predicate NotFree<T>(t: Tree<T>) {
    match t
    case Id(_) => true
    case Not(_) => false
    case And(l, r) => NotFree(l) && NotFree(r)
    case Or(l, r) => NotFree(l) && NotFree(r)
  }

  /** No disjunction stands under an odd number of negations (negated: under an even number). */
  predicate NoNegatedOr<T>(t: Tree<T>, negated: bool) {
    match t
    case Id(_) => true
    case Not(b) => NoNegatedOr(b, !negated)
    case And(l, r) => NoNegatedOr(l, negated) && NoNegatedOr(r, negated)
    case Or(l, r) => !negated && NoNegatedOr(l, negated) && NoNegatedOr(r, negated)
  }
}
