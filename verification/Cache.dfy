/** Maps and sets whose entries expire. Each operation reads the clock once, as `now`. */
module Cache {
  import opened Wrappers

  datatype Stamped<V> = Stamped(value: V, at: nat)

  type Entries<K, V> = map<K, Stamped<V>>

  // ---- What each operation does ----

  function Elapsed(since: nat, now: nat): nat {
    if since <= now then now - since else 0
  }

  /** Reading and inserting still find an entry that is exactly as old as the lifespan. */
  function Get<K, V>(data: Entries<K, V>, lifespan: nat, key: K, now: nat): Option<V> {
    if key !in data || Elapsed(data[key].at, now) > lifespan then None else Some(data[key].value)
  }

  /** Pruning drops it. */
  function Pruned<K, V>(data: Entries<K, V>, lifespan: nat, now: nat): Entries<K, V> {
    map k | k in data && Elapsed(data[k].at, now) < lifespan :: data[k]
  }

  class ExpiringMap<K(==), V> {
    const lifespan: nat
    var data: Entries<K, V>

    constructor (lifespan: nat)
      ensures this.lifespan == lifespan && data == map[]
    {
      this.lifespan, data := lifespan, map[];
    }

    method Insert(key: K, value: V, now: nat) returns (previous: Option<V>)
      modifies this
      ensures data == old(data)[key := Stamped(value, now)]
      ensures previous == Get(old(data), lifespan, key, now)
    {
      var stamped := Stamped(value, now);
      if key in data {
        var found := data[key];
        data := data[key := stamped];
        return if Elapsed(found.at, now) > lifespan then None else Some(found.value);
      }
      data := data[key := stamped];
      return None;
    }

    method Find(key: K, now: nat) returns (found: Option<V>)
      ensures found == Get(data, lifespan, key, now)
    {
      if key in data {
        if Elapsed(data[key].at, now) > lifespan {
          return None;
        }
        return Some(data[key].value);
      }
      return None;
    }

    /** An expired entry is removed too, but not returned. */
    method Remove(key: K, now: nat) returns (removed: Option<V>)
      modifies this
      ensures data == old(data) - {key}
      ensures removed == Get(old(data), lifespan, key, now)
    {
      removed := Find(key, now);
      data := data - {key};
    }

    method PruneExpired(now: nat)
      modifies this
      ensures data == Pruned(old(data), lifespan, now)
    {
      data := map k | k in data && Elapsed(data[k].at, now) < lifespan :: data[k];
    }
  }

  // ---- Runs ----

  datatype Op<K, V> = Put(key: K, value: V, at: nat) | Take(key: K, at: nat) | Prune(at: nat)

  function Apply<K, V>(data: Entries<K, V>, lifespan: nat, op: Op<K, V>): Entries<K, V> {
    match op
    case Put(key, value, now) => data[key := Stamped(value, now)]
    case Take(key, _) => data - {key}
    case Prune(now) => Pruned(data, lifespan, now)
  }

  function Run<K, V>(lifespan: nat, ops: seq<Op<K, V>>): Entries<K, V> {
    if ops == [] then map[] else Apply(Run(lifespan, ops[..|ops| - 1]), lifespan, ops[|ops| - 1])
  }

  predicate Monotone<K, V>(ops: seq<Op<K, V>>) {
    forall i, j :: 0 <= i < j < |ops| ==> ops[i].at <= ops[j].at
  }

  predicate Names<K(==), V>(op: Op<K, V>, key: K) {
    (op.Put? || op.Take?) && op.key == key
  }

  /** The last operation that put or took the key; -1 when there is none. */
  function LastNaming<K(==), V>(ops: seq<Op<K, V>>, key: K): (j: int)
    ensures -1 <= j < |ops|
    ensures j >= 0 ==> Names(ops[j], key)
    ensures forall i :: j < i < |ops| ==> !Names(ops[i], key)
  {
    if ops == [] then -1
    else if Names(ops[|ops| - 1], key) then |ops| - 1
    else LastNaming(ops[..|ops| - 1], key)
  }

  /** Some prune after the j-th operation came at least a lifespan after it. */
  predicate PrunedAfter<K, V>(lifespan: nat, ops: seq<Op<K, V>>, j: nat)
    requires j < |ops|
  {
    exists i :: j < i < |ops| && ops[i].Prune? && ops[i].at - ops[j].at >= lifespan
  }

  /**
   * Under a monotone clock an entry is there exactly if its last operation put it and no prune came a lifespan later.
   */
  lemma {:induction false} PresentExactly<K, V>(lifespan: nat, ops: seq<Op<K, V>>, key: K)
    requires Monotone(ops)
    ensures var j, data := LastNaming(ops, key), Run(lifespan, ops);
            && (key in data <==> j >= 0 && ops[j].Put? && !PrunedAfter(lifespan, ops, j))
            && (key in data ==> data[key] == Stamped(ops[j].value, ops[j].at))
  {
    if ops != [] {
      var last := |ops| - 1;
      var front, op := ops[..last], ops[last];
      PresentExactly(lifespan, front, key);
      var j := LastNaming(ops, key);
      if 0 <= j < last {
        assert j == LastNaming(front, key);
        assert PrunedAfter(lifespan, front, j) ==> PrunedAfter(lifespan, ops, j);
        assert PrunedAfter(lifespan, ops, j) ==>
            PrunedAfter(lifespan, front, j) || (op.Prune? && op.at - ops[j].at >= lifespan);
      }
    }
  }

  /**
   * Nothing named the key before, or the last naming took it, or it put it and was followed by silence for a lifespan.
   */
  predicate Absent<K(==), V>(lifespan: nat, ops: seq<Op<K, V>>, key: K, now: nat) {
    var j := LastNaming(ops, key);
    j < 0 || ops[j].Take? || now - ops[j].at > lifespan || PrunedAfter(lifespan, ops, j)
  }

  /** When a lookup in a run finds nothing: an exact account of the two expiry comparisons. */
  lemma AbsentExactly<K, V>(lifespan: nat, ops: seq<Op<K, V>>, key: K, now: nat)
    requires Monotone(ops) && forall i :: 0 <= i < |ops| ==> ops[i].at <= now
    ensures Get(Run(lifespan, ops), lifespan, key, now) == None <==> Absent(lifespan, ops, key, now)
  {
    PresentExactly(lifespan, ops, key);
  }

  /**
   * The duplicate filter: every arrival is a put, and it is accepted when the lookup before it finds nothing.
   * Between an accepted arrival and any earlier arrival of the same message lies at least a lifespan of time
   * since the last arrival before it, however arrivals of other messages and prunes fall.
   */
  lemma AcceptedAfterSilence<K, V>(lifespan: nat, ops: seq<Op<K, V>>, i: nat, j: nat)
    requires Monotone(ops) && i < j < |ops| && ops[i].Put? && ops[j].Put? && ops[i].key == ops[j].key
    requires forall k :: 0 <= k < j ==> !ops[k].Take?
    requires Get(Run(lifespan, ops[..j]), lifespan, ops[j].key, ops[j].at) == None
    ensures forall k :: 0 <= k < j && ops[k].Put? && ops[k].key == ops[j].key ==> ops[j].at - ops[k].at >= lifespan
  {
    var before := ops[..j];
    AbsentExactly(lifespan, before, ops[j].key, ops[j].at);
    var last := LastNaming(before, ops[j].key);
    assert Names(before[i], ops[j].key);
    assert ops[j].at - ops[last].at >= lifespan by {
      if PrunedAfter(lifespan, before, last) {
        var p :| last < p < |before| && before[p].Prune? && before[p].at - before[last].at >= lifespan;
      }
    }
    forall k | 0 <= k < j && ops[k].Put? && ops[k].key == ops[j].key ensures ops[j].at - ops[k].at >= lifespan {
      assert Names(before[k], ops[j].key);
    }
  }

  /** And an arrival that follows a silence of more than a lifespan is accepted. */
  lemma SilenceIsAccepted<K, V>(lifespan: nat, ops: seq<Op<K, V>>, key: K, now: nat)
    requires Monotone(ops) && forall i :: 0 <= i < |ops| ==> ops[i].at <= now
    requires forall k :: 0 <= k < |ops| && ops[k].Put? && ops[k].key == key ==> now - ops[k].at > lifespan
    ensures Get(Run(lifespan, ops), lifespan, key, now) == None
  {
    AbsentExactly(lifespan, ops, key, now);
  }

  /** Exactly one lifespan later the two comparisons differ: the entry is still found, unless a prune came first. */
  lemma PruneDecidesTheBoundary<K, V>(lifespan: nat, key: K, value: V, at: nat)
    ensures var put := Put(key, value, at);
            && Get(Run(lifespan, [put]), lifespan, key, at + lifespan) == Some(value)
            && Get(Run(lifespan, [put, Prune(at + lifespan)]), lifespan, key, at + lifespan) == None
  {
    var put := Put(key, value, at);
    assert [put][..0] == [];
    assert [put, Prune(at + lifespan)][..1] == [put];
    assert Run(lifespan, [put]) == Apply(map[], lifespan, put);
  }

  // ---- Ages ----

  /** The entry is not older than the lifespan. */
  predicate Recent<K, V>(data: Entries<K, V>, lifespan: nat, key: K, now: nat) {
    key in data && now <= data[key].at + lifespan
  }

  /** The entry outlives a pruning. */
  predicate Young<K, V>(data: Entries<K, V>, lifespan: nat, key: K, now: nat) {
    key in data && 0 < lifespan && now < data[key].at + lifespan
  }

  lemma GetIsRecent<K, V>(data: Entries<K, V>, lifespan: nat, key: K, now: nat)
    ensures Get(data, lifespan, key, now) == if Recent(data, lifespan, key, now) then Some(data[key].value) else None
  {
  }

  lemma PrunedIsYoung<K, V>(data: Entries<K, V>, lifespan: nat, key: K, now: nat)
    ensures key in Pruned(data, lifespan, now) <==> Young(data, lifespan, key, now)
    ensures key in Pruned(data, lifespan, now) ==> Pruned(data, lifespan, now)[key] == data[key]
  {
  }

  /** What outlives a pruning. */
  ghost predicate Outlives<K(!new), V(!new)>(before: Entries<K, V>, after: Entries<K, V>, lifespan: nat, now: nat) {
    && (forall k :: k in after <==> Young(before, lifespan, k, now))
    && (forall k :: k in after ==> after[k] == before[k])
  }

  lemma PrunedOutlives<K(!new), V(!new)>(data: Entries<K, V>, lifespan: nat, now: nat)
    ensures Outlives(data, Pruned(data, lifespan, now), lifespan, now)
  {
    forall k ensures k in Pruned(data, lifespan, now) <==> Young(data, lifespan, k, now)
      ensures k in Pruned(data, lifespan, now) ==> Pruned(data, lifespan, now)[k] == data[k]
    {
      PrunedIsYoung(data, lifespan, k, now);
    }
  }

  lemma EmptyOutlives<K(!new), V(!new)>(before: Entries<K, V>, after: Entries<K, V>, lifespan: nat, now: nat)
    requires Outlives(before, after, lifespan, now)
    ensures after == map[] <==> forall k :: !Young(before, lifespan, k, now)
  {
    hide Young;
    if forall k :: !Young(before, lifespan, k, now) {
      assert forall k :: k !in after;
    }
  }
}
