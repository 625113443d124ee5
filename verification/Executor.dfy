/** Running a block in order, or row by row in separate trees over an overlay, and exactly when the two agree. */
module Executor {
  import opened Address
  import opened Primitives
  import opened Sequences
  import opened State
  import opened Wrappers

  type TxResult = Result<Diff, Error>

  /** What executing the i-th transaction of the block in a given store returns. */
  type Exec = (nat, Accounts) -> TxResult

  // ---- One after the other ----

  function After(s: Accounts, r: TxResult): Accounts {
    match r
    case Ok(d) => Apply(s, d)
    case Err(_) => s
  }

  function SerialState(exec: Exec, base: Accounts, i: nat): Accounts {
    if i == 0 then base
    else
      var s := SerialState(exec, base, i - 1);
      After(s, exec(i - 1, s))
  }

  function SerialResult(exec: Exec, base: Accounts, i: nat): TxResult {
    exec(i, SerialState(exec, base, i))
  }

  function SerialResults(exec: Exec, base: Accounts): nat -> TxResult {
    (i: nat) => SerialResult(exec, base, i)
  }

  function Upto(n: nat): seq<nat> {
    if n == 0 then [] else Upto(n - 1) + [n - 1]
  }

  // ---- Row by row ----

  type Rows = seq<seq<nat>>

  /** Accumulates the successful diffs of a row, in the order of the row. */
  function Accumulate(acc: Diff, row: seq<nat>, results: nat -> TxResult): Diff {
    if row == [] then acc
    else
      var before := Accumulate(acc, row[..|row| - 1], results);
      match results(row[|row| - 1])
      case Ok(d) => Merge(before, d)
      case Err(_) => before
  }

  /** Every transaction of a row runs on the overlay of what the earlier rows of its tree have accumulated. */
  function RunOn(exec: Exec, base: Accounts, acc: Diff): nat -> TxResult {
    (i: nat) => exec(i, Overlay(base, acc))
  }

  function RowStart(exec: Exec, base: Accounts, rows: Rows, r: nat): Diff
    requires r <= |rows|
  {
    if r == 0 then EMPTY
    else
      var acc := RowStart(exec, base, rows, r - 1);
      Accumulate(acc, rows[r - 1], RunOn(exec, base, acc))
  }

  function ParallelResult(exec: Exec, base: Accounts, rows: Rows, r: nat, i: nat): TxResult
    requires r <= |rows|
  {
    exec(i, Overlay(base, RowStart(exec, base, rows, r)))
  }

  // ---- Plans ----

  /** One list of rows per tree. */
  type Plan = seq<Rows>

  predicate Placed(plan: Plan, i: nat, t: nat, r: nat) {
    t < |plan| && r < |plan[t]| && i in plan[t][r]
  }

  ghost predicate InPlan(plan: Plan, i: nat) {
    exists t, r :: Placed(plan, i, t, r)
  }

  /** Every transaction of the block, and nothing else, stands in exactly one place. */
  ghost predicate WellPlaced(plan: Plan, n: nat) {
    && (forall i: nat :: i < n ==> InPlan(plan, i))
    && (forall i: nat, t, r :: Placed(plan, i, t, r) ==> i < n)
    && (forall i: nat, t, r, u, q :: Placed(plan, i, t, r) && Placed(plan, i, u, q) ==> t == u && r == q)
  }

  function Flatten(rows: Rows): seq<nat> {
    if rows == [] then [] else Flatten(rows[..|rows| - 1]) + rows[|rows| - 1]
  }

  /** The transactions whose diffs the r-th row of tree t sees, in the order in which they were accumulated. */
  function Before(plan: Plan, t: nat, r: nat): seq<nat>
    requires t < |plan| && r <= |plan[t]|
  {
    Flatten(plan[t][..r])
  }

  /** Those of the given transactions that write an account. */
  function Writers(order: seq<nat>, writes: seq<set<Address>>, a: Address): seq<nat> {
    if order == [] then []
    else
      var front, j := Writers(order[..|order| - 1], writes, a), order[|order| - 1];
      if j < |writes| && a in writes[j] then front + [j] else front
  }

  // ---- What is assumed of execution ----

  /** A successful execution touches exactly the accounts it is declared to write. */
  ghost predicate Touches(r: TxResult, written: set<Address>) {
    r.Ok? ==> r.value.Disjoint() && r.value.Touched() == written
  }

  /** Every execution does, and deletes only accounts it is declared to be able to delete. */
  ghost predicate Contract(exec: Exec, writes: seq<set<Address>>, deletable: seq<set<Address>>) {
    forall j: nat, s :: j < |writes| && j < |deletable| ==>
      Touches(exec(j, s), writes[j]) && (exec(j, s).Ok? ==> exec(j, s).value.deletes <= deletable[j])
  }

  /** Execution is determined by the accounts it is declared to access. */
  ghost predicate Determined(exec: Exec, access: seq<set<Address>>) {
    forall j: nat, s, t :: j < |access| && SameOn(s, t, access[j]) ==> exec(j, s) == exec(j, t)
  }

  /** The same, only as far as the serial run of this block is concerned. */
  ghost predicate DeterminedInRun(exec: Exec, base: Accounts, access: seq<set<Address>>) {
    forall j: nat, t :: j < |access| && SameOn(SerialState(exec, base, j), t, access[j]) ==>
                          exec(j, t) == SerialResult(exec, base, j)
  }

  /** For every account a transaction accesses, the writers it sees are the earlier writers, in block order. */
  ghost predicate OrderKept(plan: Plan, writes: seq<set<Address>>, access: seq<set<Address>>) {
    forall i: nat, t: nat, r: nat, a :: i < |access| && Placed(plan, i, t, r) && a in access[i] ==>
                                Writers(Before(plan, t, r), writes, a) == Writers(Upto(i), writes, a)
  }

  /** No transaction accesses an account of the base that an earlier one can delete. */
  ghost predicate NoDeletionSeen(base: Accounts, writes: seq<set<Address>>, deletable: seq<set<Address>>,
                                 access: seq<set<Address>>) {
    forall i: nat, j: nat, a ::
      j < i < |access| && j < |writes| && j < |deletable| && a in access[i] && a in base && a in writes[j] ==>
        a !in deletable[j]
  }

  // ---- The value of one account ----

  function Written(d: Diff, a: Address): Option<Account> {
    if a in d.upserts then Some(d.upserts[a]) else None
  }

  /** The account after the given transactions: what the last successful one that touches it leaves. */
  function ValueAfter(base: Accounts, order: seq<nat>, results: nat -> TxResult, a: Address): Option<Account> {
    if order == [] then Lookup(base, a)
    else
      var r := results(order[|order| - 1]);
      if r.Ok? && a in r.value.Touched() then Written(r.value, a)
      else ValueAfter(base, order[..|order| - 1], results, a)
  }

  lemma {:induction false} AccumulateConcat(acc: Diff, p: seq<nat>, q: seq<nat>, results: nat -> TxResult)
    ensures Accumulate(acc, p + q, results) == Accumulate(Accumulate(acc, p, results), q, results)
  {
    if q == [] {
      assert p + q == p;
    } else {
      AccumulateConcat(acc, p, q[..|q| - 1], results);
      assert (p + q)[..|p + q| - 1] == p + q[..|q| - 1];
    }
  }

  lemma {:induction false} AccumulateCongruence(acc: Diff, row: seq<nat>, f: nat -> TxResult, g: nat -> TxResult)
    requires forall j :: j in row ==> f(j) == g(j)
    ensures Accumulate(acc, row, f) == Accumulate(acc, row, g)
  {
    if row != [] {
      AccumulateCongruence(acc, row[..|row| - 1], f, g);
      assert row[|row| - 1] in row;
    }
  }

  lemma {:induction false} ValueCongruence(base: Accounts, order: seq<nat>, f: nat -> TxResult, g: nat -> TxResult,
                                           a: Address)
    requires forall j :: j in order ==> f(j) == g(j)
    ensures ValueAfter(base, order, f, a) == ValueAfter(base, order, g, a)
  {
    if order != [] {
      ValueCongruence(base, order[..|order| - 1], f, g, a);
      assert order[|order| - 1] in order;
    }
  }

  /** Only the writers of an account matter to its value. */
  lemma {:induction false} OnlyWritersMatter(base: Accounts, order: seq<nat>, results: nat -> TxResult,
                                             writes: seq<set<Address>>, a: Address)
    requires forall j :: j in order ==> j < |writes| && Touches(results(j), writes[j])
    ensures ValueAfter(base, order, results, a) == ValueAfter(base, Writers(order, writes, a), results, a)
  {
    if order != [] {
      var front, j := order[..|order| - 1], order[|order| - 1];
      assert order == front + [j] && j in order;
      assert forall k :: k in front ==> k in order;
      OnlyWritersMatter(base, front, results, writes, a);
      var w := Writers(order, writes, a);
      assert a in writes[j] ==> w[..|w| - 1] == Writers(front, writes, a) && w[|w| - 1] == j;
    }
  }

  lemma {:induction false} WritersIn(order: seq<nat>, writes: seq<set<Address>>, a: Address)
    ensures forall j :: j in Writers(order, writes, a) <==> j in order && j < |writes| && a in writes[j]
  {
    if order != [] {
      WritersIn(order[..|order| - 1], writes, a);
      assert order == order[..|order| - 1] + [order[|order| - 1]];
    }
  }

  lemma {:induction false} UptoIs(n: nat)
    ensures |Upto(n)| == n && forall k :: 0 <= k < n ==> Upto(n)[k] == k
    ensures forall j: nat :: j in Upto(n) <==> j < n
  {
    if n > 0 {
      UptoIs(n - 1);
    }
  }

  /** The result does not delete this account from the base. */
  ghost predicate Spares(r: TxResult, base: Accounts, a: Address) {
    r.Ok? ==> r.value.Disjoint() && !(a in base && a in r.value.deletes)
  }

  /** The overlay shows an account as the accumulated transactions have left it, if none deletes it from the base. */
  lemma {:induction false} OverlayShows(base: Accounts, order: seq<nat>, results: nat -> TxResult, a: Address)
    requires forall j :: j in order ==> Spares(results(j), base, a)
    ensures Accumulate(EMPTY, order, results).Disjoint()
    ensures !(a in base && a in Accumulate(EMPTY, order, results).deletes)
    ensures Lookup(Overlay(base, Accumulate(EMPTY, order, results)), a) == ValueAfter(base, order, results, a)
  {
    if order != [] {
      var front, j := order[..|order| - 1], order[|order| - 1];
      assert j in order;
      OverlayShows(base, front, results, a);
      if results(j).Ok? {
        MergeKeepsDisjoint(Accumulate(EMPTY, front, results), results(j).value);
      }
    }
  }

  lemma AfterShows(s: Accounts, r: TxResult, a: Address)
    requires r.Ok? ==> r.value.Disjoint()
    ensures Lookup(After(s, r), a) == if r.Ok? && a in r.value.Touched() then Written(r.value, a) else Lookup(s, a)
  {
  }

  lemma {:induction false} SerialShows(exec: Exec, base: Accounts, i: nat, results: nat -> TxResult, a: Address)
    requires forall j: nat :: j < i ==> results(j) == SerialResult(exec, base, j)
    requires forall j: nat :: j < i && results(j).Ok? ==> results(j).value.Disjoint()
    ensures Lookup(SerialState(exec, base, i), a) == ValueAfter(base, Upto(i), results, a)
  {
    if i > 0 {
      SerialShows(exec, base, i - 1, results, a);
      UptoIs(i - 1);
      assert Upto(i)[..i - 1] == Upto(i - 1);
      AfterShows(SerialState(exec, base, i - 1), results(i - 1), a);
    }
  }

  // ---- The results of a whole plan ----

  /** The result a transaction has in the plan, wherever it stands in tree t. */
  ghost function ResultInTree(exec: Exec, base: Accounts, rows: Rows): nat -> TxResult {
    (i: nat) => if exists r :: 0 <= r < |rows| && i in rows[r]
         then (var r :| 0 <= r < |rows| && i in rows[r]; ParallelResult(exec, base, rows, r, i))
         else Err(Cancelled)
  }

  ghost predicate DistinctRows(rows: Rows) {
    forall i: nat, r, q :: 0 <= r < |rows| && 0 <= q < |rows| && i in rows[r] && i in rows[q] ==> r == q
  }

  lemma TreeDistinct(plan: Plan, n: nat, t: nat)
    requires WellPlaced(plan, n) && t < |plan|
    ensures DistinctRows(plan[t])
  {
    forall i: nat, r, q | 0 <= r < |plan[t]| && 0 <= q < |plan[t]| && i in plan[t][r] && i in plan[t][q]
        ensures r == q {
      assert Placed(plan, i, t, r) && Placed(plan, i, t, q);
    }
  }

  /** What a row starts from is the accumulation of all earlier rows, each transaction with its own result. */
  lemma {:induction false} RowStartAccumulates(exec: Exec, base: Accounts, rows: Rows, r: nat)
    requires r <= |rows| && DistinctRows(rows)
    ensures RowStart(exec, base, rows, r) == Accumulate(EMPTY, Flatten(rows[..r]), ResultInTree(exec, base, rows))
  {
    if r > 0 {
      RowStartAccumulates(exec, base, rows, r - 1);
      var acc, results := RowStart(exec, base, rows, r - 1), ResultInTree(exec, base, rows);
      assert rows[..r][..r - 1] == rows[..r - 1];
      AccumulateConcat(EMPTY, Flatten(rows[..r - 1]), rows[r - 1], results);
      forall j | j in rows[r - 1] ensures results(j) == RunOn(exec, base, acc)(j) {
      }
      AccumulateCongruence(acc, rows[r - 1], results, RunOn(exec, base, acc));
    }
  }

  lemma {:induction false} FlattenIn(rows: Rows, i: nat)
    ensures i in Flatten(rows) <==> exists r :: 0 <= r < |rows| && i in rows[r]
  {
    if rows != [] {
      FlattenIn(rows[..|rows| - 1], i);
      assert forall r :: 0 <= r < |rows| - 1 ==> rows[..|rows| - 1][r] == rows[r];
    }
  }

  // ---- Sufficiency ----

  /**
   * The parallel run refines the serial one: if every transaction sees the earlier writers of what it accesses, in
   * order, it returns what it returns when the block is run in order.
   */
  lemma {:induction false} ParallelRefinesSerial(exec: Exec, base: Accounts, plan: Plan, writes: seq<set<Address>>,
                                                 deletable: seq<set<Address>>, access: seq<set<Address>>,
                                                 i: nat, t: nat, r: nat)
    requires WellPlaced(plan, |writes|) && |access| == |deletable| == |writes| && Placed(plan, i, t, r)
    requires Contract(exec, writes, deletable) && DeterminedInRun(exec, base, access)
    requires OrderKept(plan, writes, access) && NoDeletionSeen(base, writes, deletable, access)
    ensures ParallelResult(exec, base, plan[t], r, i) == SerialResult(exec, base, i)
    decreases i
  {
    var s, o := SerialState(exec, base, i), Overlay(base, RowStart(exec, base, plan[t], r));
    forall a | a in access[i] ensures Lookup(s, a) == Lookup(o, a) {
      SeesSerialValue(exec, base, plan, writes, deletable, access, i, t, r, a);
    }
    assert SameOn(s, o, access[i]);
  }

  /** What is accumulated before row r stands in earlier rows of the tree, and its results keep the contract. */
  lemma BeforeFacts(exec: Exec, base: Accounts, plan: Plan, writes: seq<set<Address>>, deletable: seq<set<Address>>,
                    t: nat, r: nat, j: nat)
    returns (q: nat)
    requires WellPlaced(plan, |writes|) && |deletable| == |writes| && t < |plan| && r <= |plan[t]|
    requires j in Before(plan, t, r) && Contract(exec, writes, deletable)
    ensures q < r && Placed(plan, j, t, q) && j < |writes|
    ensures ResultInTree(exec, base, plan[t])(j) == ParallelResult(exec, base, plan[t], q, j)
    ensures var result := ResultInTree(exec, base, plan[t])(j);
            Touches(result, writes[j]) && (result.Ok? ==> result.value.deletes <= deletable[j])
  {
    var rows, front: Rows := plan[t], plan[t][..r];
    FlattenIn(front, j);
    q :| 0 <= q < |front| && j in front[q];
    TreeDistinct(plan, |writes|, t);
    assert j in rows[q] && Placed(plan, j, t, q);
  }

  lemma {:induction false} SeesSerialValue(exec: Exec, base: Accounts, plan: Plan, writes: seq<set<Address>>,
                                           deletable: seq<set<Address>>, access: seq<set<Address>>,
                                           i: nat, t: nat, r: nat, a: Address)
    requires WellPlaced(plan, |writes|) && |access| == |deletable| == |writes| && Placed(plan, i, t, r) && i < |access|
    requires a in access[i] && Contract(exec, writes, deletable) && DeterminedInRun(exec, base, access)
    requires OrderKept(plan, writes, access) && NoDeletionSeen(base, writes, deletable, access)
    ensures Lookup(SerialState(exec, base, i), a) == Lookup(Overlay(base, RowStart(exec, base, plan[t], r)), a)
    decreases i, 0
  {
    var before, upto := Before(plan, t, r), Upto(i);
    var parallel, serial := ResultInTree(exec, base, plan[t]), SerialResults(exec, base);
    TreeDistinct(plan, |writes|, t);
    RowStartAccumulates(exec, base, plan[t], r);
    UptoIs(i);
    WritersIn(before, writes, a);
    WritersIn(upto, writes, a);
    forall j | j in before ensures j < |writes| && Touches(parallel(j), writes[j]) && Spares(parallel(j), base, a) {
      var _ := BeforeFacts(exec, base, plan, writes, deletable, t, r, j);
      assert a in writes[j] ==> j in Writers(before, writes, a);
    }
    OverlayShows(base, before, parallel, a);
    OnlyWritersMatter(base, before, parallel, writes, a);
    forall j | j in upto ensures j < |writes| && Touches(serial(j), writes[j]) {
    }
    SerialShows(exec, base, i, serial, a);
    OnlyWritersMatter(base, upto, serial, writes, a);
    forall j | j in Writers(upto, writes, a) ensures parallel(j) == serial(j) {
      var q := BeforeFacts(exec, base, plan, writes, deletable, t, r, j);
      ParallelRefinesSerial(exec, base, plan, writes, deletable, access, j, t, q);
    }
    ValueCongruence(base, Writers(upto, writes, a), parallel, serial, a);
  }

  // ---- Necessity ----

  /** The account value that marks a transaction, unlike anything the base holds at the given address. */
  function Mark(base: Accounts, a: Address, k: byte): Account {
    Account([k] + (if a in base then base[a].state else []), ExpressionTree.Id(Predicate(InlineCode([]), [])))
  }

  function MarkAll(base: Accounts, a: Address, k: byte, written: set<Address>): Diff {
    Diff(map w | w in written :: Mark(base, a, k), {})
  }

  /** Transactions j and k leave different marks wherever they write; all others fail. */
  function Effect(base: Accounts, writes: seq<set<Address>>, a: Address, j: nat, k: nat, m: nat): TxResult {
    if m == j && j < |writes| then Ok(MarkAll(base, a, 1, writes[j]))
    else if m == k && k < |writes| then Ok(MarkAll(base, a, 2, writes[k]))
    else Err(Cancelled)
  }

  /** Transaction i reports whether it sees the mark of j at a. */
  function Probe(base: Accounts, writes: seq<set<Address>>, a: Address, i: nat, j: nat, k: nat): Exec {
    (m: nat, s: Accounts) =>
      if m != i then Effect(base, writes, a, j, k, m)
      else if Lookup(s, a) == Some(Mark(base, a, 1)) then Err(Crash(1))
      else Err(Crash(0))
  }

  lemma MarksDiffer(base: Accounts, a: Address)
    ensures Mark(base, a, 1) != Mark(base, a, 2)
    ensures Lookup(base, a) != Some(Mark(base, a, 1))
  {
    assert Mark(base, a, 1).state[0] == 1 && Mark(base, a, 2).state[0] == 2;
    assert a in base ==> |Mark(base, a, 1).state| == |base[a].state| + 1;
  }

  /** Of two writers the last one in the order decides what is seen; of none, the base. */
  lemma {:induction false} ProbeValue(base: Accounts, writes: seq<set<Address>>, a: Address, j: nat, k: nat,
                                      order: seq<nat>, results: nat -> TxResult)
    requires j < |writes| && a in writes[j] && k < |writes| && a in writes[k]
    requires forall m :: m in order ==> results(m) == Effect(base, writes, a, j, k, m)
    ensures ValueAfter(base, order, results, a) == Some(Mark(base, a, 1)) <==> LastOf(order, j, k) == Some(j)
  {
    MarksDiffer(base, a);
    if order != [] {
      var front, m := order[..|order| - 1], order[|order| - 1];
      assert order == front + [m] && m in order;
      assert forall x :: x in front ==> x in order;
      ProbeValue(base, writes, a, j, k, front, results);
    }
  }

  /** Which of j and k comes last. */
  function LastOf(order: seq<nat>, j: nat, k: nat): Option<nat> {
    if order == [] then None
    else if order[|order| - 1] == j || order[|order| - 1] == k then Some(order[|order| - 1])
    else LastOf(order[..|order| - 1], j, k)
  }

  lemma {:induction false} LastOfWriters(order: seq<nat>, writes: seq<set<Address>>, a: Address, j: nat, k: nat)
    requires j < |writes| && a in writes[j] && k < |writes| && a in writes[k]
    ensures LastOf(order, j, k) == LastOf(Writers(order, writes, a), j, k)
  {
    if order != [] {
      var front, m := order[..|order| - 1], order[|order| - 1];
      LastOfWriters(front, writes, a, j, k);
      var w := Writers(order, writes, a);
      if m < |writes| && a in writes[m] {
        assert w[..|w| - 1] == Writers(front, writes, a);
      }
    }
  }

  lemma LastNotInFront(s: seq<nat>, x: nat)
    requires Distinct(s) && s != [] && x in s[..|s| - 1]
    ensures x != s[|s| - 1]
  {
    var p :| 0 <= p < |s| - 1 && s[p] == x;
  }

  /** Two different duplicate-free orders are told apart by one or two of their members. */
  lemma {:induction false} OrdersToldApart(v: seq<nat>, w: seq<nat>) returns (j: nat, k: nat)
    requires Distinct(v) && Distinct(w) && v != w
    ensures (j in v || j in w) && (k in v || k in w)
    ensures LastOf(v, j, k) == Some(j) <==> LastOf(w, j, k) != Some(j)
  {
    var x, y := if v != [] then v[|v| - 1] else w[|w| - 1], if w != [] then w[|w| - 1] else v[|v| - 1];
    if v == [] || w == [] || x != y {
      j, k := x, y;
    } else {
      var vs, ws := v[..|v| - 1], w[..|w| - 1];
      assert v == vs + [x] && w == ws + [x];
      j, k := OrdersToldApart(vs, ws);
      if j in vs { LastNotInFront(v, j); } else { LastNotInFront(w, j); }
      if k in vs { LastNotInFront(v, k); } else { LastNotInFront(w, k); }
    }
  }

  lemma {:induction false} WritersDistinct(order: seq<nat>, writes: seq<set<Address>>, a: Address)
    requires Distinct(order)
    ensures Distinct(Writers(order, writes, a))
  {
    if order != [] {
      var front, j := order[..|order| - 1], order[|order| - 1];
      WritersDistinct(front, writes, a);
      WritersIn(front, writes, a);
      var w := Writers(front, writes, a);
      assert forall p :: 0 <= p < |w| ==> w[p] in w;
      forall x | x in front ensures x != j {
        LastNotInFront(order, x);
      }
    }
  }

  /** No row of the plan repeats a transaction. */
  ghost predicate NoRepeats(plan: Plan) {
    forall t, r :: 0 <= t < |plan| && 0 <= r < |plan[t]| ==> Distinct(plan[t][r])
  }

  lemma {:induction false} FlattenDistinct(rows: Rows)
    requires DistinctRows(rows) && forall r :: 0 <= r < |rows| ==> Distinct(rows[r])
    ensures Distinct(Flatten(rows))
  {
    if rows != [] {
      var front, last: seq<nat> := rows[..|rows| - 1], rows[|rows| - 1];
      assert forall r :: 0 <= r < |front| ==> front[r] == rows[r];
      FlattenDistinct(front);
      forall x | x in Flatten(front) ensures x !in last {
        FlattenIn(front, x);
      }
      var f := Flatten(front);
      assert forall p :: 0 <= p < |f| ==> f[p] in f;
      assert forall p :: 0 <= p < |last| ==> last[p] in last;
    }
  }

  /**
   * If some transaction does not see the earlier writers of an account it accesses, in order, then there are
   * executions, determined by the declared accesses, whose parallel run returns something else than the serial run.
   */
  lemma MisorderIsObservable(base: Accounts, plan: Plan, writes: seq<set<Address>>, deletable: seq<set<Address>>,
                             access: seq<set<Address>>, i: nat, t: nat, r: nat, a: Address) returns (exec: Exec)
    requires WellPlaced(plan, |writes|) && NoRepeats(plan) && |access| == |deletable| == |writes|
    requires Placed(plan, i, t, r) && i < |access| && a in access[i]
    requires Writers(Before(plan, t, r), writes, a) != Writers(Upto(i), writes, a)
    ensures Contract(exec, writes, deletable) && Determined(exec, access)
    ensures ParallelResult(exec, base, plan[t], r, i) != SerialResult(exec, base, i)
  {
    var before, upto := Before(plan, t, r), Upto(i);
    BeforeDistinct(plan, |writes|, t, r);
    UptoIs(i);
    WritersDistinct(before, writes, a);
    WritersDistinct(upto, writes, a);
    var j, k := OrdersToldApart(Writers(before, writes, a), Writers(upto, writes, a));
    WritersIn(before, writes, a);
    WritersIn(upto, writes, a);
    exec := Probe(base, writes, a, i, j, k);
    ProbeKeepsContract(base, writes, deletable, a, i, j, k);
    ProbeIsDetermined(base, writes, access, a, i, j, k);
    ProbeSeesParallel(base, plan, writes, a, i, t, r, j, k);
    ProbeSeesSerial(base, writes, a, i, j, k);
  }

  lemma BeforeDistinct(plan: Plan, n: nat, t: nat, r: nat)
    requires WellPlaced(plan, n) && NoRepeats(plan) && t < |plan| && r <= |plan[t]|
    ensures Distinct(Before(plan, t, r))
  {
    TreeDistinct(plan, n, t);
    var front: Rows := plan[t][..r];
    assert DistinctRows(front);
    FlattenDistinct(front);
  }

  lemma MarkAllTouches(base: Accounts, a: Address, k: byte, written: set<Address>)
    ensures MarkAll(base, a, k, written).Touched() == written && MarkAll(base, a, k, written).deletes == {}
  {
    assert MarkAll(base, a, k, written).upserts.Keys == written;
  }

  lemma ProbeKeepsContract(base: Accounts, writes: seq<set<Address>>, deletable: seq<set<Address>>, a: Address,
                           i: nat, j: nat, k: nat)
    ensures Contract(Probe(base, writes, a, i, j, k), writes, deletable)
  {
    var exec := Probe(base, writes, a, i, j, k);
    forall m: nat, s | m < |writes| && m < |deletable|
      ensures Touches(exec(m, s), writes[m]) && (exec(m, s).Ok? ==> exec(m, s).value.deletes <= deletable[m])
    {
      assert exec(m, s).Ok? ==> exec(m, s) == Effect(base, writes, a, j, k, m);
      MarkAllTouches(base, a, 1, writes[m]);
      MarkAllTouches(base, a, 2, writes[m]);
    }
  }

  lemma ProbeIsDetermined(base: Accounts, writes: seq<set<Address>>, access: seq<set<Address>>, a: Address, i: nat,
                          j: nat, k: nat)
    requires i < |access| && a in access[i]
    ensures Determined(Probe(base, writes, a, i, j, k), access)
  {
  }

  lemma ProbeSeesSerial(base: Accounts, writes: seq<set<Address>>, a: Address, i: nat, j: nat, k: nat)
    requires i < |writes| && j < |writes| && a in writes[j] && k < |writes| && a in writes[k]
    ensures var exec := Probe(base, writes, a, i, j, k);
            SerialResult(exec, base, i) == Err(Crash(1)) <==> LastOf(Writers(Upto(i), writes, a), j, k) == Some(j)
  {
    var exec := Probe(base, writes, a, i, j, k);
    UptoIs(i);
    forall m: nat | m < i
      ensures SerialResult(exec, base, m) == Effect(base, writes, a, j, k, m)
      ensures SerialResult(exec, base, m).Ok? ==> SerialResult(exec, base, m).value.Disjoint()
    {
    }
    SerialShows(exec, base, i, SerialResults(exec, base), a);
    ProbeValue(base, writes, a, j, k, Upto(i), SerialResults(exec, base));
    LastOfWriters(Upto(i), writes, a, j, k);
  }

  lemma ProbeSeesParallel(base: Accounts, plan: Plan, writes: seq<set<Address>>, a: Address, i: nat, t: nat, r: nat,
                          j: nat, k: nat)
    requires WellPlaced(plan, |writes|) && Placed(plan, i, t, r)
    requires j < |writes| && a in writes[j] && k < |writes| && a in writes[k]
    ensures var exec := Probe(base, writes, a, i, j, k);
            ParallelResult(exec, base, plan[t], r, i) == Err(Crash(1))
            <==> LastOf(Writers(Before(plan, t, r), writes, a), j, k) == Some(j)
  {
    var exec, before := Probe(base, writes, a, i, j, k), Before(plan, t, r);
    var results := ResultInTree(exec, base, plan[t]);
    ProbeKeepsContract(base, writes, writes, a, i, j, k);
    forall m | m in before
      ensures results(m) == Effect(base, writes, a, j, k, m) && Spares(results(m), base, a)
    {
      var q := BeforeFacts(exec, base, plan, writes, writes, t, r, m);
      assert Placed(plan, i, t, r) && Placed(plan, m, t, q);
    }
    TreeDistinct(plan, |writes|, t);
    RowStartAccumulates(exec, base, plan[t], r);
    OverlayShows(base, before, results, a);
    ProbeValue(base, writes, a, j, k, before, results);
    LastOfWriters(before, writes, a, j, k);
  }

  // ---- A deletion that is seen ----

  /** Transaction j deletes one account and marks the others it writes, and i reports whether the account is there. */
  function DeletionProbe(base: Accounts, writes: seq<set<Address>>, a: Address, i: nat, j: nat): Exec {
    (m: nat, s: Accounts) =>
      if m == i then (if a in s then Err(Crash(1)) else Err(Crash(0)))
      else if m == j && j < |writes| then Ok(Diff(MarkAll(base, a, 1, writes[j] - {a}).upserts, {a}))
      else Err(Cancelled)
  }

  /** With no other effect in sight, the account is gone in order and still there on the overlay. */
  lemma DeletionIsObservable(base: Accounts, plan: Plan, writes: seq<set<Address>>, deletable: seq<set<Address>>,
                             access: seq<set<Address>>, i: nat, t: nat, r: nat, j: nat, a: Address)
    returns (exec: Exec)
    requires WellPlaced(plan, |writes|) && |access| == |deletable| == |writes| && Placed(plan, i, t, r)
    requires j < i < |access| && a in access[i] && a in base && a in writes[j] && a in deletable[j]
    ensures Contract(exec, writes, deletable) && Determined(exec, access)
    ensures ParallelResult(exec, base, plan[t], r, i) != SerialResult(exec, base, i)
  {
    exec := DeletionProbe(base, writes, a, i, j);
    DeletionKeepsContract(base, writes, deletable, access, a, i, j);
    DeletionInOrder(base, writes, a, i, j, i);
    AccumulatedNeverHides(base, RowStart(exec, base, plan[t], r), a);
  }

  lemma AccumulatedNeverHides(base: Accounts, acc: Diff, a: Address)
    requires a in base
    ensures a in Overlay(base, acc)
  {
  }

  lemma DeletionKeepsContract(base: Accounts, writes: seq<set<Address>>, deletable: seq<set<Address>>,
                              access: seq<set<Address>>, a: Address, i: nat, j: nat)
    requires |access| == |deletable| == |writes| && j < i < |access|
    requires a in access[i] && a in writes[j] && a in deletable[j]
    ensures Contract(DeletionProbe(base, writes, a, i, j), writes, deletable)
    ensures Determined(DeletionProbe(base, writes, a, i, j), access)
  {
    MarkAllTouches(base, a, 1, writes[j] - {a});
    forall s: Accounts, t: Accounts | SameOn(s, t, access[i]) ensures a in s <==> a in t {
      assert Lookup(s, a) == Lookup(t, a);
    }
  }

  lemma {:induction false} DeletionInOrder(base: Accounts, writes: seq<set<Address>>, a: Address, i: nat, j: nat,
                                           m: nat)
    requires j < i && m <= i && j < |writes| && a in base
    ensures a in SerialState(DeletionProbe(base, writes, a, i, j), base, m) <==> m <= j
  {
    if m > 0 {
      DeletionInOrder(base, writes, a, i, j, m - 1);
    }
  }

  // ---- The exact condition ----

  /** Every execution that keeps to the declared accounts gives the same results in parallel as in order. */
  ghost predicate AlwaysRefines(base: Accounts, plan: Plan, writes: seq<set<Address>>, deletable: seq<set<Address>>,
                                access: seq<set<Address>>) {
    forall exec: Exec, i: nat, t: nat, r: nat ::
      Contract(exec, writes, deletable) && Determined(exec, access) && Placed(plan, i, t, r) ==>
        ParallelResult(exec, base, plan[t], r, i) == SerialResult(exec, base, i)
  }

  /** The exact condition under which a plan can stand in for running the block in order. */
  lemma RefinesExactlyWhen(base: Accounts, plan: Plan, writes: seq<set<Address>>, deletable: seq<set<Address>>,
                           access: seq<set<Address>>)
    requires WellPlaced(plan, |writes|) && NoRepeats(plan) && |access| == |deletable| == |writes|
    ensures AlwaysRefines(base, plan, writes, deletable, access) <==>
            OrderKept(plan, writes, access) && NoDeletionSeen(base, writes, deletable, access)
  {
    if !OrderKept(plan, writes, access) {
      var i: nat, t: nat, r: nat, a :| i < |access| && Placed(plan, i, t, r) && a in access[i]
                        && Writers(Before(plan, t, r), writes, a) != Writers(Upto(i), writes, a);
      var exec := MisorderIsObservable(base, plan, writes, deletable, access, i, t, r, a);
    } else if !NoDeletionSeen(base, writes, deletable, access) {
      var i: nat, j: nat, a :| j < i < |access| && a in access[i] && a in base && a in writes[j] && a in deletable[j];
      assert InPlan(plan, i);
      var t: nat, r: nat :| Placed(plan, i, t, r);
      var exec := DeletionIsObservable(base, plan, writes, deletable, access, i, t, r, j, a);
    } else {
      forall exec: Exec, i: nat, t: nat, r: nat
        | Contract(exec, writes, deletable) && Determined(exec, access) && Placed(plan, i, t, r)
        ensures ParallelResult(exec, base, plan[t], r, i) == SerialResult(exec, base, i)
      {
        assert DeterminedInRun(exec, base, access);
        ParallelRefinesSerial(exec, base, plan, writes, deletable, access, i, t, r);
      }
    }
  }
}
