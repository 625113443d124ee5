/** Walking a graph from a start node one breadth-first row at a time. */
module Bfs {
  import opened Sequences
  import opened Wrappers

  /** The neighbours of every node, in listing order. */
  type Adjacency = seq<seq<nat>>

  function Out(g: Adjacency, u: nat): seq<nat> {
    if u < |g| then g[u] else []
  }

  predicate Edge(g: Adjacency, u: nat, v: nat) {
    v in Out(g, u)
  }

  function SetOf(s: seq<nat>): set<nat> {
    set v | v in s
  }

  // ---- Distance ----

  function LedTo(g: Adjacency, us: set<nat>): set<nat> {
    set u, v | u in us && v in Out(g, u) :: v
  }

  /** The nodes that k edges or fewer lead to. */
  function Within(g: Adjacency, start: nat, k: nat): set<nat> {
    if k == 0 then {start} else Within(g, start, k - 1) + LedTo(g, Within(g, start, k - 1))
  }

  /** The nodes at distance exactly k. */
  function Level(g: Adjacency, start: nat, k: nat): set<nat> {
    if k == 0 then {start} else Within(g, start, k) - Within(g, start, k - 1)
  }

  ghost predicate Leads(g: Adjacency, path: seq<nat>, start: nat, v: nat) {
    && path != [] && path[0] == start && path[|path| - 1] == v
    && forall i :: 0 < i < |path| ==> Edge(g, path[i - 1], path[i])
  }

  lemma {:induction false} WithinMonotone(g: Adjacency, start: nat, j: nat, k: nat)
    requires j <= k
    ensures Within(g, start, j) <= Within(g, start, k)
  {
    if j < k {
      WithinMonotone(g, start, j, k - 1);
    }
  }

  /** One edge further. */
  lemma WithinStep(g: Adjacency, start: nat, k: nat, u: nat, v: nat)
    requires u in Within(g, start, k) && Edge(g, u, v)
    ensures v in Within(g, start, k + 1)
  {
  }

  lemma {:induction false} PathStaysWithin(g: Adjacency, start: nat, path: seq<nat>, v: nat)
    requires Leads(g, path, start, v)
    ensures v in Within(g, start, |path| - 1)
  {
    var n := |path| - 1;
    if n > 0 {
      PathStaysWithin(g, start, path[..n], path[n - 1]);
      WithinStep(g, start, n - 1, path[n - 1], v);
    }
  }

  lemma {:induction false} WithinHasPath(g: Adjacency, start: nat, k: nat, v: nat) returns (path: seq<nat>)
    requires v in Within(g, start, k)
    ensures Leads(g, path, start, v) && |path| <= k + 1
  {
    if k == 0 {
      path := [start];
    } else if v in Within(g, start, k - 1) {
      path := WithinHasPath(g, start, k - 1, v);
    } else {
      var u :| u in Within(g, start, k - 1) && v in Out(g, u);
      var front := WithinHasPath(g, start, k - 1, u);
      path := front + [v];
    }
  }

  /** `Within` against paths: v is within k steps exactly when some path of at most k edges leads to it. */
  lemma WithinMeansPath(g: Adjacency, start: nat, k: nat, v: nat)
    ensures v in Within(g, start, k) <==> exists path :: Leads(g, path, start, v) && |path| <= k + 1
  {
    if v in Within(g, start, k) {
      var path := WithinHasPath(g, start, k, v);
    }
    if path :| Leads(g, path, start, v) && |path| <= k + 1 {
      PathStaysWithin(g, start, path, v);
      WithinMonotone(g, start, |path| - 1, k);
    }
  }

  // ---- Rows in discovery order ----

  /** The nodes of vs that are neither seen nor repeated, in order. */
  function Unseen(vs: seq<nat>, seen: set<nat>): seq<nat> {
    if vs == [] then []
    else
      var front, v := Unseen(vs[..|vs| - 1], seen), vs[|vs| - 1];
      if v in seen || v in front then front else front + [v]
  }

  /** The nodes first discovered when the neighbours of us are looked at in turn. */
  function Discover(g: Adjacency, us: seq<nat>, seen: set<nat>): seq<nat> {
    if us == [] then []
    else
      var front := Discover(g, us[..|us| - 1], seen);
      front + Unseen(Out(g, us[|us| - 1]), seen + SetOf(front))
  }

  lemma {:induction false} UnseenIs(vs: seq<nat>, seen: set<nat>)
    ensures forall v :: v in Unseen(vs, seen) <==> v in vs && v !in seen
    ensures Distinct(Unseen(vs, seen))
  {
    if vs != [] {
      UnseenIs(vs[..|vs| - 1], seen);
      assert vs == vs[..|vs| - 1] + [vs[|vs| - 1]];
    }
  }

  lemma DistinctConcat(a: seq<nat>, b: seq<nat>)
    requires Distinct(a) && Distinct(b) && forall v :: v in b ==> v !in a
    ensures Distinct(a + b)
  {
    assert forall j :: 0 <= j < |b| ==> b[j] in b;
    assert forall i :: 0 <= i < |a| ==> a[i] in a;
  }

  lemma {:induction false} DiscoverIs(g: Adjacency, us: seq<nat>, seen: set<nat>)
    ensures SetOf(Discover(g, us, seen)) == LedTo(g, SetOf(us)) - seen
    ensures Distinct(Discover(g, us, seen))
  {
    if us != [] {
      var front, u := us[..|us| - 1], us[|us| - 1];
      var prev := Discover(g, front, seen);
      var more := Unseen(Out(g, u), seen + SetOf(prev));
      DiscoverIs(g, front, seen);
      UnseenIs(Out(g, u), seen + SetOf(prev));
      assert us == front + [u];
      assert LedTo(g, SetOf(us)) == LedTo(g, SetOf(front)) + SetOf(Out(g, u));
      assert SetOf(prev + more) == SetOf(prev) + SetOf(more);
      assert SetOf(more) == SetOf(Out(g, u)) - seen - SetOf(prev);
      DistinctConcat(prev, more);
    }
  }

  /** The k-th row, in the order in which the walk returns it. */
  function Row(g: Adjacency, start: nat, k: nat): seq<nat> {
    if k == 0 then [start] else Discover(g, Row(g, start, k - 1), Within(g, start, k - 1))
  }

  /** A node beyond the first k levels is led to from level k only. */
  lemma Frontier(g: Adjacency, start: nat, k: nat)
    ensures LedTo(g, Within(g, start, k)) - Within(g, start, k) == LedTo(g, Level(g, start, k)) - Within(g, start, k)
  {
    if k > 0 {
      assert LedTo(g, Within(g, start, k - 1)) <= Within(g, start, k);
    }
  }

  /** Rows are distance levels, and no row repeats a node. */
  lemma {:induction false} RowIsLevel(g: Adjacency, start: nat, k: nat)
    ensures SetOf(Row(g, start, k)) == Level(g, start, k)
    ensures Distinct(Row(g, start, k))
  {
    if k > 0 {
      RowIsLevel(g, start, k - 1);
      RowStep(g, Row(g, start, k - 1), Within(g, start, k - 1), Level(g, start, k - 1));
      Frontier(g, start, k - 1);
    }
  }

  /** Only the frontier of what has been seen can lead further. */
  lemma RowStep(g: Adjacency, row: seq<nat>, seen: set<nat>, frontier: set<nat>)
    requires SetOf(row) == frontier
    ensures LedTo(g, seen) - seen == LedTo(g, frontier) - seen ==>
        SetOf(Discover(g, row, seen)) == (seen + LedTo(g, seen)) - seen
    ensures Distinct(Discover(g, row, seen))
  {
    DiscoverIs(g, row, seen);
  }

  lemma LevelsDisjoint(g: Adjacency, start: nat, j: nat, k: nat)
    requires j < k
    ensures Level(g, start, j) !! Level(g, start, k)
  {
    hide LedTo;
    WithinMonotone(g, start, j, k - 1);
  }

  /** Different rows have different distances, so no node is returned twice. */
  lemma RowsDisjoint(g: Adjacency, start: nat, j: nat, k: nat, v: nat)
    requires v in Row(g, start, j) && v in Row(g, start, k)
    ensures j == k
  {
    RowIsLevel(g, start, j);
    RowIsLevel(g, start, k);
    assert v in SetOf(Row(g, start, j)) && v in SetOf(Row(g, start, k));
    if j < k {
      LevelsDisjoint(g, start, j, k);
    } else if k < j {
      LevelsDisjoint(g, start, k, j);
    }
  }

  /** When a row is empty, all that can be reached has been returned. */
  lemma {:induction false} EmptyRowEndsWalk(g: Adjacency, start: nat, k: nat, m: nat)
    requires Row(g, start, k) == [] && k <= m
    ensures k > 0 && Within(g, start, m) == Within(g, start, k - 1)
  {
    RowIsLevel(g, start, k);
    WithinMonotone(g, start, k - 1, k);
    assert SetOf(Row(g, start, k)) == {};
    forall v | v in Within(g, start, k) ensures v in Within(g, start, k - 1) {
      assert v !in Level(g, start, k);
    }
    if k < m {
      EmptyRowEndsWalk(g, start, k, m - 1);
      assert Within(g, start, m) == Within(g, start, k - 1) + LedTo(g, Within(g, start, k - 1));
    }
  }

  // ---- The walker ----

  /** What the first node of a row has led to by the time the row is asked for. */
  function Carried(g: Adjacency, start: nat, k: nat): seq<nat> {
    var current := Row(g, start, k);
    if k == 0 || current == [] then [] else Unseen(Out(g, current[0]), Within(g, start, k))
  }

  function Tag(s: seq<nat>, level: nat): seq<(nat, nat)> {
    seq(|s|, i requires 0 <= i < |s| => (s[i], level))
  }

  /** What the nodes taken so far have led to. */
  function Pending(g: Adjacency, start: nat, k: nat, taken: seq<nat>): seq<nat> {
    if taken == [] then Carried(g, start, k) else Discover(g, taken, Within(g, start, k))
  }

  /** Looking at the same neighbours again discovers nothing. */
  lemma UnseenTwice(vs: seq<nat>, seen: set<nat>)
    ensures Unseen(vs, seen + SetOf(Unseen(vs, seen))) == []
  {
    var again := Unseen(vs, seen + SetOf(Unseen(vs, seen)));
    assert again != [] ==> again[0] in again;
    UnseenIs(vs, seen);
    UnseenIs(vs, seen + SetOf(Unseen(vs, seen)));
  }

  lemma DiscoverSnoc(g: Adjacency, us: seq<nat>, u: nat, seen: set<nat>)
    ensures Discover(g, us + [u], seen) == Discover(g, us, seen) +
        Unseen(Out(g, u), seen + SetOf(Discover(g, us, seen)))
  {
    assert (us + [u])[..|us|] == us;
  }

  /** Taking the next node of the row: its neighbours extend what the nodes taken before it have led to. */
  lemma TakeStep(g: Adjacency, start: nat, k: nat, taken: seq<nat>)
    requires taken < Row(g, start, k)
    ensures var node, pending := Row(g, start, k)[|taken|], Pending(g, start, k, taken);
            pending + Unseen(Out(g, node), Within(g, start, k) + SetOf(pending)) == Pending(g, start, k, taken + [node])
  {
    var node, seen, pending := Row(g, start, k)[|taken|], Within(g, start, k), Pending(g, start, k, taken);
    DiscoverSnoc(g, taken, node, seen);
    if taken == [] {
      assert seen + SetOf([]) == seen;
      assert Pending(g, start, k, taken + [node]) == Unseen(Out(g, node), seen);
      if k > 0 {
        assert pending == Unseen(Out(g, node), seen);
        UnseenTwice(Out(g, node), seen);
      }
    }
  }

  /** When the whole row has been taken, what is pending is the next row. */
  lemma RowTaken(g: Adjacency, start: nat, k: nat)
    ensures var row, pending := Row(g, start, k), Pending(g, start, k, Row(g, start, k));
            pending == Row(g, start, k + 1) && Within(g, start, k) + SetOf(pending) == Within(g, start, k + 1)
  {
    RowIsLevel(g, start, k + 1);
    WithinMonotone(g, start, k, k + 1);
    assert k == 0 ==> Row(g, start, k) != [];
  }

  /** So the next call starts from the pending nodes, with what their first node has led to carried over. */
  lemma NextRow(g: Adjacency, start: nat, k: nat, pending: seq<nat>, found: seq<nat>)
    requires pending == Pending(g, start, k, Row(g, start, k))
    requires found == if pending == [] then [] else Unseen(Out(g, pending[0]), Within(g, start, k) + SetOf(pending))
    ensures Row(g, start, k + 1) == pending
    ensures Within(g, start, k + 1) == Within(g, start, k) + SetOf(pending)
    ensures Carried(g, start, k + 1) == found
  {
    RowTaken(g, start, k);
  }

  /**
   * In the middle of a call: the stack holds the nodes of the row still to be taken, then those already discovered one
   * level further; everything seen before or pending is marked.
   */
  predicate Shape(row: nat, current: seq<nat>, seen: set<nat>, taken: seq<nat>, pending: seq<nat>,
                  stack: seq<(nat, nat)>, discovered: set<nat>)
  {
    && taken <= current
    && stack == Tag(current[|taken|..], row) + Tag(pending, row + 1)
    && discovered == seen + SetOf(pending)
  }

  lemma TagConcat(a: seq<nat>, b: seq<nat>, level: nat)
    ensures Tag(a + b, level) == Tag(a, level) + Tag(b, level)
  {
  }

  lemma TakeKeepsShape(row: nat, current: seq<nat>, seen: set<nat>, taken: seq<nat>, pending: seq<nat>,
                       stack: seq<(nat, nat)>, discovered: set<nat>, found: seq<nat>)
    requires Shape(row, current, seen, taken, pending, stack, discovered) && stack != [] && stack[0].1 == row
    ensures taken < current && stack[0].0 == current[|taken|]
    ensures Shape(row, current, seen, taken + [stack[0].0], pending + found, stack[1..] + Tag(found, row + 1),
                  discovered + SetOf(found))
  {
    assert SetOf(pending + found) == SetOf(pending) + SetOf(found);
    TagConcat(pending, found, row + 1);
  }

  lemma PutBackStartsNextRow(row: nat, current: seq<nat>, seen: set<nat>, taken: seq<nat>, pending: seq<nat>,
                             stack: seq<(nat, nat)>, discovered: set<nat>, found: seq<nat>)
    requires Shape(row, current, seen, taken, pending, stack, discovered) && stack != [] && stack[0].1 != row
    ensures taken == current && pending != [] && stack[0] == (pending[0], row + 1)
    ensures Shape(row + 1, pending, discovered, [], found, [stack[0]] + (stack[1..] + Tag(found, row + 2)),
                  discovered + SetOf(found))
  {
    assert taken == current;
  }

  lemma EmptyStack(row: nat, current: seq<nat>, seen: set<nat>, taken: seq<nat>, pending: seq<nat>,
                   discovered: set<nat>)
    requires Shape(row, current, seen, taken, pending, [], discovered)
    ensures taken == current && pending == [] && Shape(row + 1, [], seen + SetOf(pending), [], [], [], discovered)
  {
    assert SetOf([]) == {};
  }

  class BfsRows {
    var stack: seq<(nat, nat)>
    var discovered: set<nat>
    var row: nat

    /** Between calls nothing of the current row has been taken. */
    ghost predicate Valid(g: Adjacency, start: nat)
      reads this
    {
      Shape(row, Row(g, start, row), Within(g, start, row), [], Carried(g, start, row), stack, discovered)
    }

    constructor (g: Adjacency, start: nat)
      ensures Valid(g, start) && row == 0
    {
      row := 0;
      stack := [(start, 0)];
      discovered := {start};
    }

    /** Queues the undiscovered neighbours. */
    method Visit(neighbours: seq<nat>, level: nat)
      modifies this
      ensures row == old(row)
      ensures stack == old(stack) + Tag(Unseen(neighbours, old(discovered)), level)
      ensures discovered == old(discovered) + SetOf(Unseen(neighbours, old(discovered)))
    {
      for i := 0 to |neighbours|
        invariant row == old(row)
        invariant stack == old(stack) + Tag(Unseen(neighbours[..i], old(discovered)), level)
        invariant discovered == old(discovered) + SetOf(Unseen(neighbours[..i], old(discovered)))
      {
        assert neighbours[..i + 1][..i] == neighbours[..i];
        var next := neighbours[i];
        ghost var found := Unseen(neighbours[..i], old(discovered));
        if next !in discovered {
          assert SetOf(found + [next]) == SetOf(found) + {next};
          TagConcat(found, [next], level);
          discovered := discovered + {next};
          stack := stack + [(next, level)];
        }
      }
      assert neighbours[..|neighbours|] == neighbours;
    }

    /**
     * Pops one node: takes it if it belongs to the row, and otherwise puts it back. Its neighbours are queued either
     * way.
     */
    method Pop(g: Adjacency, taken: seq<nat>, ghost current: seq<nat>, ghost seen: set<nat>, ghost pending: seq<nat>)
      returns (more: seq<nat>, ended: bool, ghost found: seq<nat>)
      requires Shape(row, current, seen, taken, pending, stack, discovered) && stack != []
      modifies this
      ensures row == old(row)
      ensures !ended ==> taken < current && more == taken + [current[|taken|]]
                         && found == Unseen(Out(g, current[|taken|]), seen + SetOf(pending))
                         && Shape(row, current, seen, more, pending + found, stack, discovered)
      ensures ended ==> more == taken == current && pending != [] && stack != []
                        && found == Unseen(Out(g, pending[0]), seen + SetOf(pending))
                        && Shape(row + 1, pending, seen + SetOf(pending), [], found, stack, discovered)
    {
      var (node, level) := stack[0];
      found := Unseen(Out(g, node), discovered);
      if level == row {
        TakeKeepsShape(row, current, seen, taken, pending, stack, discovered, found);
      } else {
        PutBackStartsNextRow(row, current, seen, taken, pending, stack, discovered, found);
      }
      stack := stack[1..];
      Visit(Out(g, node), level + 1);
      ended := level != row;
      if ended {
        more := taken;
        stack := [(node, level)] + stack;
      } else {
        more := taken + [node];
      }
    }

    /** Pops until the row is taken; what is then pending is exactly what the row has led to. */
    method TakeRow(g: Adjacency, ghost start: nat, ghost current: seq<nat>, ghost seen: set<nat>)
      returns (taken: seq<nat>, ghost pending: seq<nat>, ghost found: seq<nat>)
      requires current == Row(g, start, row) && seen == Within(g, start, row)
      requires Shape(row, current, seen, [], Carried(g, start, row), stack, discovered)
      modifies this
      ensures row == old(row) && taken == current && pending == Pending(g, start, old(row), current)
      ensures found == if pending == [] then [] else Unseen(Out(g, pending[0]), seen + SetOf(pending))
      ensures Shape(row + 1, pending, seen + SetOf(pending), [], found, stack, discovered)
    {
      hide Shape, Row, Within, Carried, Discover, Unseen;
      taken, found := [], [];
      ghost var k := row;
      pending := Carried(g, start, k);
      var ended := false;
      while stack != [] && !ended
        invariant row == k && pending == Pending(g, start, k, taken)
        invariant !ended ==> found == [] && Shape(k, current, seen, taken, pending, stack, discovered)
        invariant ended ==> taken == current && pending != []
        invariant ended ==> found == Unseen(Out(g, pending[0]), seen + SetOf(pending))
        invariant ended ==> Shape(k + 1, pending, seen + SetOf(pending), [], found, stack, discovered)
        decreases !ended, |current| - |taken|
      {
        var more;
        more, ended, found := Pop(g, taken, current, seen, pending);
        if !ended {
          TakeStep(g, start, k, taken);
          taken := more;
          pending, found := pending + found, [];
        }
      }
      if !ended {
        EmptyStack(k, current, seen, taken, pending, discovered);
      }
    }

    /** The k-th call returns row k, or nothing when there is no such row. */
    method Next(g: Adjacency, ghost start: nat) returns (r: Option<seq<nat>>)
      requires Valid(g, start)
      modifies this
      ensures Valid(g, start) && row == old(row) + 1
      ensures r == if Row(g, start, old(row)) == [] then None else Some(Row(g, start, old(row)))
    {
      hide Shape, Row, Within, Carried, Pending;
      var taken;
      ghost var pending, found;
      taken, pending, found := TakeRow(g, start, Row(g, start, row), Within(g, start, row));
      NextRow(g, start, row, pending, found);
      row := row + 1;
      r := if taken == [] then None else Some(taken);
    }
  }
}
