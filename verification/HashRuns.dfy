/** Whole runs of the hash table: after any sequence of operations, a lookup finds what
    the history of operations on that key's equivalence class says it should. */
module HashRuns {
  import opened Options
  import opened HashSpec
  import opened HashTable

  datatype Op<!K, !V> =
    | Insert(key: K, value: V)
    | Replace(key: K, value: V)
    | Remove(key: K)
    | Steal(key: K)
    | ForeachRemove(f: (K, V) -> bool)
    | ForeachSteal(f: (K, V) -> bool)
    | RemoveAll
    | StealAll

  /** What one operation does to the abstract map. */
  ghost function Apply<K(!new), V>(h: Hashing<K>, m: map<K, V>, op: Op<K, V>): map<K, V> {
    match op
    case Insert(k, v) => Inserted(h, m, k, v, false)
    case Replace(k, v) => Inserted(h, m, k, v, true)
    case Remove(k) => Without(h, m, k)
    case Steal(k) => Without(h, m, k)
    case ForeachRemove(f) => Filtered(m, f)
    case ForeachSteal(f) => Filtered(m, f)
    case RemoveAll => map[]
    case StealAll => map[]
  }

  /** The abstract map after a run from the empty table. */
  ghost function Run<K(!new), V>(h: Hashing<K>, ops: seq<Op<K, V>>): map<K, V> {
    if ops == [] then map[] else Apply(h, Run(h, ops[..|ops| - 1]), ops[|ops| - 1])
  }

  /** The stored key and value for the class of k, read off the history alone: the last
      operation that concerns the class decides. */
  ghost function Expected<K(!new), V>(h: Hashing<K>, ops: seq<Op<K, V>>, k: K): Option<(K, V)> {
    if ops == [] then None else ExpectedStep(h, Expected(h, ops[..|ops| - 1], k), ops[|ops| - 1], k)
  }

  ghost function ExpectedStep<K(!new), V>(h: Hashing<K>, before: Option<(K, V)>, op: Op<K, V>, k: K): Option<(K, V)> {
    match op
    case Insert(k', v) =>
      if h.Match(k', k) then Some((if before.Some? then before.value.0 else k', v)) else before
    case Replace(k', v) =>
      if h.Match(k', k) then Some((k', v)) else before
    case Remove(k') =>
      if h.Match(k', k) then None else before
    case Steal(k') =>
      if h.Match(k', k) then None else before
    case ForeachRemove(f) =>
      if before.Some? && f(before.value.0, before.value.1) then None else before
    case ForeachSteal(f) =>
      if before.Some? && f(before.value.0, before.value.1) then None else before
    case RemoveAll => None
    case StealAll => None
  }

  lemma ApplyDistinct<K(!new), V>(h: Hashing<K>, m: map<K, V>, op: Op<K, V>)
    requires Lawful(h) && Distinct(h, m)
    ensures Distinct(h, Apply(h, m, op))
  {
    var m' := Apply(h, m, op);
    if op.Insert? || op.Replace? {
      forall a, b | a in m' && b in m' && h.Match(a, b) ensures a == b {
        NotEquivalent(h, op.key, a, b);
      }
    }
  }

  lemma FindsInserted<K(!new), V>(h: Hashing<K>, m: map<K, V>, k': K, v: V, keepNew: bool, k: K, r: Option<(K, V)>)
    requires Lawful(h) && Distinct(h, m) && Finds(h, m, k, r)
    ensures h.Match(k', k) ==>
      Finds(h, Inserted(h, m, k', v, keepNew), k, Some((if r.Some? && !keepNew then r.value.0 else k', v)))
    ensures !h.Match(k', k) ==> Finds(h, Inserted(h, m, k', v, keepNew), k, r)
  {
    var m' := Inserted(h, m, k', v, keepNew);
    if h.Match(k', k) {
      NotEquivalent(h, k, k', k);
      forall a | a in m ensures h.Match(a, k') <==> h.Match(a, k) {
        NotEquivalent(h, a, k', k);
      }
    } else {
      if r.Some? {
        NotEquivalent(h, k', r.value.0, k);
        assert !h.Match(r.value.0, k');
      }
    }
  }

  lemma FindsRemoved<K(!new), V>(h: Hashing<K>, m: map<K, V>, k': K, k: K, r: Option<(K, V)>)
    requires Lawful(h) && Finds(h, m, k, r)
    ensures Finds(h, Without(h, m, k'), k, if h.Match(k', k) then None else r)
  {
    forall a | a in m && h.Match(a, k) ensures h.Match(a, k') <==> h.Match(k', k) {
      NotEquivalent(h, k', a, k);
    }
  }

  lemma FindsFiltered<K(!new), V>(h: Hashing<K>, m: map<K, V>, f: (K, V) -> bool, k: K, r: Option<(K, V)>)
    requires Lawful(h) && Distinct(h, m) && Finds(h, m, k, r)
    ensures Finds(h, Filtered(m, f), k, if r.Some? && f(r.value.0, r.value.1) then None else r)
  {
    if r.Some? {
      OnlyMatch(h, m, r.value.0, k);
    }
  }

  /** In the abstract map of any run, a lookup finds exactly what the history says. */
  lemma {:induction false} RunFindsExpected<K(!new), V>(h: Hashing<K>, ops: seq<Op<K, V>>, k: K)
    requires Lawful(h)
    ensures Distinct(h, Run(h, ops)) && Finds(h, Run(h, ops), k, Expected(h, ops, k))
  {
    if ops != [] {
      var prefix, op := ops[..|ops| - 1], ops[|ops| - 1];
      RunFindsExpected(h, prefix, k);
      var m, r := Run(h, prefix), Expected(h, prefix, k);
      ApplyDistinct(h, m, op);
      match op
      case Insert(k', v) => FindsInserted(h, m, k', v, false, k, r);
      case Replace(k', v) => FindsInserted(h, m, k', v, true, k, r);
      case Remove(k') => FindsRemoved(h, m, k', k, r);
      case Steal(k') => FindsRemoved(h, m, k', k, r);
      case ForeachRemove(f) => FindsFiltered(h, m, f, k, r);
      case ForeachSteal(f) => FindsFiltered(h, m, f, k, r);
      case _ =>
    }
  }

  lemma FindsUnique<K(!new), V>(h: Hashing<K>, m: map<K, V>, k: K, r: Option<(K, V)>, r': Option<(K, V)>)
    requires Lawful(h) && Distinct(h, m) && Finds(h, m, k, r) && Finds(h, m, k, r')
    ensures r == r'
  {
    if r.Some? { OnlyMatch(h, m, r.value.0, k); }
  }

  method Perform<K(!new, ==), V>(t: HashTable<K, V>, op: Op<K, V>)
    requires t.Valid() && t.nnodes < MAX_NODES
    modifies t, t.nodes
    ensures t.Valid() && (t.nodes == old(t.nodes) || fresh(t.nodes))
    ensures t.hashing == old(t.hashing) && t.contents == Apply(t.hashing, old(t.contents), op)
    ensures t.nnodes <= old(t.nnodes) + 1
  {
    hide Table, Lawful, Inserted, Without, Filtered;
    match op
    case Insert(k, v) => t.Insert(k, v);
    case Replace(k, v) => t.Replace(k, v);
    case Remove(k) => var _ := t.RemoveInternal(k, true);
    case Steal(k) => var _ := t.RemoveInternal(k, false);
    case ForeachRemove(f) => var _ := t.ForeachRemoveOrSteal(f, true);
    case ForeachSteal(f) => var _ := t.ForeachRemoveOrSteal(f, false);
    case RemoveAll => t.RemoveAll(true);
    case StealAll => t.RemoveAll(false);
  }

  /** Run any sequence of operations on a new table, then look key up. */
  method RunThenLookup<K(!new, ==), V>(h: Hashing<K>, ops: seq<Op<K, V>>, key: K) returns (r: Option<(K, V)>)
    requires Lawful(h) && |ops| <= MAX_NODES
    ensures r == Expected(h, ops, key)
    ensures r.Some? ==> if h.equal.Some? then h.equal.value(r.value.0, key) else r.value.0 == key
  {
    hide Table, Lawful, Apply;
    var t := new HashTable<K, V>(h, true, true);
    for i := 0 to |ops|
      invariant t.Valid() && t.hashing == h && fresh(t) && fresh(t.nodes)
      invariant t.contents == Run(h, ops[..i]) && t.nnodes <= i
    {
      assert ops[..i + 1][..i] == ops[..i];
      Perform(t, ops[i]);
    }
    assert ops[..|ops|] == ops;
    r := t.LookupExtended(key);
    RunFindsExpected(h, ops, key);
    FindsUnique(h, t.contents, key, r, Expected(h, ops, key));
  }
}
