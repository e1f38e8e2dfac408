/** What a hash table means, independently of where its entries are stored: a finite map
    whose keys are pairwise inequivalent, and the invariants that tie a slot array to it. */
module HashSpec {
  import opened Options
  import opened Probing

  type u32 = x: nat | x < 0x1_0000_0000

  /** The user's hash and equality functions. A NULL equality function means pointer
      comparison. */
  datatype Hashing<!K(==)> = Hashing(hash: K -> u32, equal: Option<(K, K) -> bool>) {
    predicate Match(a: K, b: K) {
      match equal
      case Some(eq) => eq(a, b)
      case None => a == b
    }

    /** Hash values 0 and 1 mark empty slots and tombstones, so they are moved to 2. */
    function HashOf(k: K): (r: u32)
      ensures r >= 2
    {
      if hash(k) <= 1 then 2 else hash(k)
    }
  }

  /** The equality is an equivalence, and equivalent keys have the same hash. */
  ghost predicate Lawful<K(!new)>(h: Hashing<K>) {
    && (forall a :: h.Match(a, a))
    && (forall a, b :: h.Match(a, b) ==> h.Match(b, a) && h.hash(a) == h.hash(b))
    && (forall a, b, c :: h.Match(a, b) && h.Match(b, c) ==> h.Match(a, c))
  }

  /** A key outside the class of b is outside the class of anything equivalent to b. */
  lemma NotEquivalent<K(!new)>(h: Hashing<K>, a: K, b: K, c: K)
    requires Lawful(h) && h.Match(b, c)
    ensures h.Match(c, b) && h.HashOf(b) == h.HashOf(c)
    ensures h.Match(a, b) <==> h.Match(a, c)
    ensures h.Match(b, a) <==> h.Match(c, a)
  {}

  datatype Slot<+K, +V> = Empty | Tombstone | Live(key: K, value: V, hash: u32)

  // ----- the abstract map ------------------------------------------------------------

  ghost predicate Has<K, V>(h: Hashing<K>, m: map<K, V>, k: K) {
    exists k' :: k' in m && h.Match(k', k)
  }

  ghost predicate Distinct<K, V>(h: Hashing<K>, m: map<K, V>) {
    forall a, b :: a in m && b in m && h.Match(a, b) ==> a == b
  }

  ghost function Without<K, V>(h: Hashing<K>, m: map<K, V>, k: K): map<K, V> {
    map k' | k' in m && !h.Match(k', k) :: m[k']
  }

  /** Insertion keeps one key per equivalence class; keepNew decides which one stays. */
  ghost function Inserted<K, V>(h: Hashing<K>, m: map<K, V>, k: K, v: V, keepNew: bool): map<K, V> {
    if Has(h, m, k) && !keepNew
    then map k' | k' in m :: if h.Match(k', k) then v else m[k']
    else Without(h, m, k)[k := v]
  }

  ghost function Filtered<K, V>(m: map<K, V>, f: (K, V) -> bool): map<K, V> {
    map k | k in m && !f(k, m[k]) :: m[k]
  }

  /** The stored key and value a lookup of k finds, if any. */
  ghost predicate Finds<K, V>(h: Hashing<K>, m: map<K, V>, k: K, r: Option<(K, V)>) {
    match r
    case Some(e) => e.0 in m && h.Match(e.0, k) && m[e.0] == e.1
    case None => !Has(h, m, k)
  }

  // ----- slot arrays -----------------------------------------------------------------

  function Bucket(hash: nat, mod: nat): (r: nat)
    requires mod > 0
    ensures r < mod
  {
    hash % mod
  }

  /** Slot i is probed, from bucket start, before any empty slot. */
  ghost predicate Reached<K, V>(s: seq<Slot<K, V>>, start: nat, i: nat, mask: nat)
    requires |s| == mask + 1 && start <= mask
  {
    exists k :: 0 <= k <= mask && Probe(start, k, mask) == i && NoEmptyBefore(s, start, k, mask)
  }

  ghost predicate NoEmptyBefore<K, V>(s: seq<Slot<K, V>>, start: nat, k: nat, mask: nat)
    requires |s| == mask + 1 && start <= mask
  {
    forall j :: 0 <= j < k ==> s[Probe(start, j, mask)] != Empty
  }

  lemma NoEmptyStep<K, V>(s: seq<Slot<K, V>>, start: nat, k: nat, mask: nat)
    requires |s| == mask + 1 && start <= mask
    ensures NoEmptyBefore(s, start, 0, mask)
    ensures NoEmptyBefore(s, start, k, mask) && s[Probe(start, k, mask)] != Empty
      ==> NoEmptyBefore(s, start, k + 1, mask)
  {}

  ghost predicate Chained<K, V>(s: seq<Slot<K, V>>, mod: nat, mask: nat)
    requires |s| == mask + 1 && 0 < mod <= mask + 1
  {
    forall i :: 0 <= i < |s| && s[i].Live? ==> Reached(s, Bucket(s[i].hash, mod), i, mask)
  }

  ghost predicate Unique<K, V>(h: Hashing<K>, s: seq<Slot<K, V>>) {
    forall i, j :: 0 <= i < |s| && 0 <= j < |s| && i != j && s[i].Live? && s[j].Live?
      ==> !h.Match(s[i].key, s[j].key)
  }

  ghost predicate Hashed<K, V>(h: Hashing<K>, s: seq<Slot<K, V>>) {
    forall i :: 0 <= i < |s| && s[i].Live? ==> s[i].hash == h.HashOf(s[i].key)
  }

  ghost predicate Holds<K, V>(s: seq<Slot<K, V>>, k: K, v: V) {
    exists i :: 0 <= i < |s| && s[i].Live? && s[i].key == k && s[i].value == v
  }

  ghost predicate Represents<K, V>(s: seq<Slot<K, V>>, m: map<K, V>) {
    && (forall i :: 0 <= i < |s| && s[i].Live? ==> s[i].key in m && m[s[i].key] == s[i].value)
    && (forall k :: k in m ==> Holds(s, k, m[k]))
  }

  ghost function LiveSlots<K, V>(s: seq<Slot<K, V>>): set<nat> {
    set i: nat | i < |s| && s[i].Live?
  }

  ghost function UsedSlots<K, V>(s: seq<Slot<K, V>>): set<nat> {
    set i: nat | i < |s| && s[i] != Empty
  }

  ghost predicate NoMatch<K, V>(h: Hashing<K>, s: seq<Slot<K, V>>, k: K) {
    forall i :: 0 <= i < |s| && s[i].Live? ==> !h.Match(s[i].key, k)
  }

  /** Everything that holds of the slot array between any two steps of any operation. */
  ghost predicate Table<K, V>(h: Hashing<K>, s: seq<Slot<K, V>>, mod: nat, mask: nat, m: map<K, V>) {
    && |s| == mask + 1 && 0 < mod <= mask + 1
    && Chained(s, mod, mask)
    && Unique(h, s)
    && Hashed(h, s)
    && Represents(s, m)
    && |m| == |LiveSlots(s)|
  }

  /** Filling slots never breaks a probe chain. */
  lemma ReachedMono<K, V>(s: seq<Slot<K, V>>, t: seq<Slot<K, V>>, start: nat, i: nat, mask: nat)
    requires |s| == |t| == mask + 1 && start <= mask
    requires forall x :: 0 <= x < |s| && s[x] != Empty ==> t[x] != Empty
    requires Reached(s, start, i, mask)
    ensures Reached(t, start, i, mask)
  {
    var k :| 0 <= k <= mask && Probe(start, k, mask) == i && NoEmptyBefore(s, start, k, mask);
    assert NoEmptyBefore(t, start, k, mask);
  }

  lemma ChainedUpdate<K, V>(s: seq<Slot<K, V>>, mod: nat, mask: nat, i: nat, x: Slot<K, V>)
    requires |s| == mask + 1 && 0 < mod <= mask + 1 && i < |s| && x != Empty
    requires Chained(s, mod, mask)
    requires x.Live? ==> Reached(s, Bucket(x.hash, mod), i, mask)
    ensures Chained(s[i := x], mod, mask)
  {
    var t := s[i := x];
    forall j | 0 <= j < |t| && t[j].Live?
      ensures Reached(t, Bucket(t[j].hash, mod), j, mask)
    {
      ReachedMono(s, t, Bucket(t[j].hash, mod), j, mask);
    }
  }

  /** The first `step` probes for k meet neither an empty slot nor an entry matching k. */
  ghost predicate MissedSoFar<K, V>(h: Hashing<K>, s: seq<Slot<K, V>>, start: nat, mask: nat, k: K, step: nat)
    requires |s| == mask + 1 && start <= mask
  {
    forall j :: 0 <= j < step ==>
      var x := s[Probe(start, j, mask)];
      x != Empty && (x.Live? && x.hash == h.HashOf(k) ==> !h.Match(x.key, k))
  }

  lemma MissedNone<K, V>(h: Hashing<K>, s: seq<Slot<K, V>>, start: nat, mask: nat, k: K)
    requires |s| == mask + 1 && start <= mask
    ensures MissedSoFar(h, s, start, mask, k, 0)
  {}

  lemma MissedOneMore<K, V>(h: Hashing<K>, s: seq<Slot<K, V>>, start: nat, mask: nat, k: K, step: nat)
    requires |s| == mask + 1 && start <= mask && MissedSoFar(h, s, start, mask, k, step)
    requires var x := s[Probe(start, step, mask)];
      x != Empty && (x.Live? && x.hash == h.HashOf(k) ==> !h.Match(x.key, k))
    ensures MissedSoFar(h, s, start, mask, k, step + 1)
  {}

  /** A tombstone on the way is a slot an insertion of k may use. */
  lemma MissedReaches<K, V>(h: Hashing<K>, s: seq<Slot<K, V>>, start: nat, mask: nat, k: K, step: nat)
    requires |s| == mask + 1 && start <= mask && MissedSoFar(h, s, start, mask, k, step) && step <= mask
    ensures Reached(s, start, Probe(start, step, mask), mask)
  {
    assert NoEmptyBefore(s, start, step, mask);
  }

  /** A search for k that ended at the empty slot `stop` without meeting a match. */
  ghost predicate MissedAt<K, V>(h: Hashing<K>, s: seq<Slot<K, V>>, start: nat, mask: nat, k: K, stop: nat)
    requires |s| == mask + 1 && start <= mask
  {
    exists step: nat :: step <= mask && Probe(start, step, mask) == stop
      && s[Probe(start, step, mask)] == Empty && MissedSoFar(h, s, start, mask, k, step)
  }

  /** Probing for k from its bucket may stop at the first empty slot: nothing beyond it
      can match. */
  lemma StopAtEmpty<K(!new), V>(h: Hashing<K>, s: seq<Slot<K, V>>, mod: nat, mask: nat, m: map<K, V>, k: K, stop: nat)
    requires Lawful(h) && Table(h, s, mod, mask, m)
    requires MissedAt(h, s, Bucket(h.HashOf(k), mod), mask, k, stop)
    ensures NoMatch(h, s, k)
  {
    var start := Bucket(h.HashOf(k), mod);
    var step: nat :| step <= mask && Probe(start, step, mask) == stop
      && s[Probe(start, step, mask)] == Empty && MissedSoFar(h, s, start, mask, k, step);
    forall i | 0 <= i < |s| && s[i].Live? && s[i].hash == h.HashOf(k)
      ensures !h.Match(s[i].key, k)
    {
      var n :| 0 <= n <= mask && Probe(start, n, mask) == i && NoEmptyBefore(s, start, n, mask);
    }
  }

  lemma NoMatchNotHas<K, V>(h: Hashing<K>, s: seq<Slot<K, V>>, m: map<K, V>, k: K)
    requires Represents(s, m)
    ensures NoMatch(h, s, k) <==> !Has(h, m, k)
  {
    if Has(h, m, k) {
      var k' :| k' in m && h.Match(k', k);
      assert Holds(s, k', m[k']);
    }
  }

  lemma RepresentsDistinct<K, V>(h: Hashing<K>, s: seq<Slot<K, V>>, m: map<K, V>)
    requires Represents(s, m) && Unique(h, s)
    ensures Distinct(h, m)
  {
    forall a, b | a in m && b in m && h.Match(a, b) ensures a == b {
      assert Holds(s, a, m[a]) && Holds(s, b, m[b]);
    }
  }

  // ----- the three in-place updates ---------------------------------------------------

  /** Writing a fresh entry into an unused slot on its own probe chain. */
  lemma FillSlot<K(!new), V>(h: Hashing<K>, s: seq<Slot<K, V>>, mod: nat, mask: nat, m: map<K, V>, i: nat, k: K, v: V)
    requires Lawful(h) && Table(h, s, mod, mask, m) && i < |s| && !s[i].Live? && NoMatch(h, s, k)
    requires Reached(s, Bucket(h.HashOf(k), mod), i, mask)
    ensures Table(h, s[i := Live(k, v, h.HashOf(k))], mod, mask, m[k := v])
    ensures |m[k := v]| == |m| + 1
  {
    hide Chained, Unique, Hashed, Represents, Lawful, Reached, NoMatch, LiveSlots;
    FreshKey(h, s, m, k, v);
    ChainedUpdate(s, mod, mask, i, Live(k, v, h.HashOf(k)));
    LiveFill(s, i, Live(k, v, h.HashOf(k)));
    UniqueFill(h, s, i, Live(k, v, h.HashOf(k)));
    RepresentsFill(s, m, i, Live(k, v, h.HashOf(k)));
  }

  lemma FreshKey<K(!new), V>(h: Hashing<K>, s: seq<Slot<K, V>>, m: map<K, V>, k: K, v: V)
    requires Lawful(h) && Represents(s, m) && NoMatch(h, s, k)
    ensures k !in m
    ensures m[k := v] == Inserted(h, m, k, v, true) == Inserted(h, m, k, v, false)
  {
    NoMatchNotHas(h, s, m, k);
    assert h.Match(k, k);
    assert Without(h, m, k) == m;
  }

  lemma LiveFill<K, V>(s: seq<Slot<K, V>>, i: nat, x: Slot<K, V>)
    requires i < |s| && x.Live?
    ensures LiveSlots(s[i := x]) == LiveSlots(s) + {i}
    ensures LiveSlots(s[i := Tombstone]) == LiveSlots(s) - {i}
    ensures |LiveSlots(s[i := x])| == |LiveSlots(s)| + (if s[i].Live? then 0 else 1)
    ensures |LiveSlots(s[i := Tombstone])| == |LiveSlots(s)| - (if s[i].Live? then 1 else 0)
  {
    var live := LiveSlots(s);
    assert LiveSlots(s[i := x]) == live + {i};
    assert LiveSlots(s[i := Tombstone]) == live - {i};
    assert i in live <==> s[i].Live?;
    if s[i].Live? { assert live + {i} == live; }
  }

  lemma UsedUpdate<K, V>(s: seq<Slot<K, V>>, i: nat, x: Slot<K, V>)
    requires i < |s| && x != Empty
    ensures UsedSlots(s[i := x]) == UsedSlots(s) + {i}
    ensures |UsedSlots(s[i := x])| == |UsedSlots(s)| + (if s[i] == Empty then 1 else 0)
    ensures |UsedSlots(s)| <= |s|
  {
    assert UsedSlots(s[i := x]) == UsedSlots(s) + {i};
    assert i in UsedSlots(s) <==> s[i] != Empty;
    assert s[i] != Empty ==> UsedSlots(s) + {i} == UsedSlots(s);
    SubsetSize(UsedSlots(s), Below(|s|));
  }

  lemma UniqueFill<K(!new), V>(h: Hashing<K>, s: seq<Slot<K, V>>, i: nat, x: Slot<K, V>)
    requires Lawful(h) && Unique(h, s) && i < |s| && !s[i].Live? && x.Live? && NoMatch(h, s, x.key)
    ensures Unique(h, s[i := x])
    ensures Hashed(h, s) && x.hash == h.HashOf(x.key) ==> Hashed(h, s[i := x])
  {
    var t := s[i := x];
    forall a, b | 0 <= a < |t| && 0 <= b < |t| && a != b && t[a].Live? && t[b].Live?
      ensures !h.Match(t[a].key, t[b].key)
    {
      if a == i { assert !h.Match(s[b].key, x.key); }
    }
  }

  lemma RepresentsFill<K, V>(s: seq<Slot<K, V>>, m: map<K, V>, i: nat, x: Slot<K, V>)
    requires Represents(s, m) && i < |s| && !s[i].Live? && x.Live? && x.key !in m
    ensures Represents(s[i := x], m[x.key := x.value])
  {
    var t, m' := s[i := x], m[x.key := x.value];
    forall k | k in m' ensures Holds(t, k, m'[k]) {
      if k == x.key {
        assert t[i] == x;
      } else {
        assert Holds(s, k, m[k]);
        var j :| 0 <= j < |s| && s[j].Live? && s[j].key == k && s[j].value == m[k];
        assert t[j] == s[j];
      }
    }
  }

  /** Overwriting the entry in slot i by an equivalent key (or the same one). */
  lemma ReplaceSlot<K(!new), V>(h: Hashing<K>, s: seq<Slot<K, V>>, mod: nat, mask: nat, m: map<K, V>, i: nat, k: K,
      v: V, keepNew: bool)
    requires Lawful(h) && Table(h, s, mod, mask, m) && i < |s| && s[i].Live? && h.Match(s[i].key, k)
    ensures Table(h, s[i := s[i].(key := if keepNew then k else s[i].key, value := v)], mod, mask,
                  Inserted(h, m, k, v, keepNew))
    ensures |Inserted(h, m, k, v, keepNew)| == |m|
  {
    hide Unique, Hashed, Represents, Lawful, Reached, Inserted, Distinct, LiveSlots;
    var x := s[i].(key := if keepNew then k else s[i].key, value := v);
    NotEquivalent(h, s[i].key, s[i].key, k);
    InsertedMap(h, s, m, i, k, v, keepNew);
    ChainedUpdate(s, mod, mask, i, x);
    LiveFill(s, i, x);
    UniqueReplace(h, s, i, x);
    RepresentsReplace(h, s, m, i, x);
  }

  lemma InsertedMap<K(!new), V>(h: Hashing<K>, s: seq<Slot<K, V>>, m: map<K, V>, i: nat, k: K, v: V, keepNew: bool)
    requires Lawful(h) && Represents(s, m) && Unique(h, s) && i < |s| && s[i].Live? && h.Match(s[i].key, k)
    ensures var k' := if keepNew then k else s[i].key;
      && k' !in m - {s[i].key}
      && Inserted(h, m, k, v, keepNew) == (m - {s[i].key})[k' := v]
      && |Inserted(h, m, k, v, keepNew)| == |m|
  {
    RepresentsDistinct(h, s, m);
    OnlyMatch(h, m, s[i].key, k);
    var rest := m - {s[i].key};
    assert h.Match(k, k);
    Shrink(m, s[i].key);
    if !keepNew {
      assert Inserted(h, m, k, v, keepNew) == rest[s[i].key := v];
    }
  }

  lemma OnlyMatch<K(!new), V>(h: Hashing<K>, m: map<K, V>, a: K, k: K)
    requires Lawful(h) && Distinct(h, m) && a in m && h.Match(a, k)
    ensures forall b :: b in m ==> (h.Match(b, k) <==> b == a)
    ensures Without(h, m, k) == m - {a}
  {
    forall b | b in m ensures h.Match(b, k) <==> b == a {
      if h.Match(b, k) {
        assert h.Match(k, a);
        assert h.Match(b, a);
      }
    }
  }

  lemma UniqueReplace<K(!new), V>(h: Hashing<K>, s: seq<Slot<K, V>>, i: nat, x: Slot<K, V>)
    requires Lawful(h) && Unique(h, s) && Hashed(h, s) && i < |s| && s[i].Live? && x.Live?
    requires h.Match(s[i].key, x.key) && x.hash == s[i].hash
    ensures Unique(h, s[i := x]) && Hashed(h, s[i := x])
  {
    var t := s[i := x];
    forall a, b | 0 <= a < |t| && 0 <= b < |t| && a != b && t[a].Live? && t[b].Live?
      ensures !h.Match(t[a].key, t[b].key)
    {
      NotEquivalent(h, s[a].key, s[i].key, x.key);
      NotEquivalent(h, s[b].key, s[i].key, x.key);
    }
    NotEquivalent(h, x.key, s[i].key, x.key);
  }

  lemma RepresentsReplace<K(!new), V>(h: Hashing<K>, s: seq<Slot<K, V>>, m: map<K, V>, i: nat, x: Slot<K, V>)
    requires Lawful(h) && Represents(s, m) && Unique(h, s) && i < |s| && s[i].Live? && x.Live?
    requires x.key !in m - {s[i].key}
    ensures Represents(s[i := x], (m - {s[i].key})[x.key := x.value])
  {
    RepresentsErase(h, s, m, i);
    RepresentsFill(s[i := Tombstone], m - {s[i].key}, i, x);
    assert s[i := Tombstone][i := x] == s[i := x];
  }

  lemma RepresentsErase<K(!new), V>(h: Hashing<K>, s: seq<Slot<K, V>>, m: map<K, V>, i: nat)
    requires Lawful(h) && Represents(s, m) && Unique(h, s) && i < |s| && s[i].Live?
    ensures s[i].key in m && Represents(s[i := Tombstone], m - {s[i].key})
  {
    var t, m' := s[i := Tombstone], m - {s[i].key};
    forall j | 0 <= j < |t| && t[j].Live? ensures t[j].key in m' {
      assert !h.Match(s[i].key, s[j].key);
      assert h.Match(s[i].key, s[i].key);
    }
    forall k | k in m' ensures Holds(t, k, m'[k]) {
      assert Holds(s, k, m[k]);
      var j :| 0 <= j < |s| && s[j].Live? && s[j].key == k && s[j].value == m[k];
      assert t[j] == s[j];
    }
  }

  lemma Shrink<K, V>(m: map<K, V>, k: K)
    requires k in m
    ensures |m - {k}| == |m| - 1
  {
    assert (m - {k}).Keys == m.Keys - {k};
    assert |(m - {k}).Keys| == |m.Keys| - 1;
  }

  lemma UniqueErase<K, V>(h: Hashing<K>, s: seq<Slot<K, V>>, i: nat)
    requires Unique(h, s) && Hashed(h, s) && i < |s|
    ensures Unique(h, s[i := Tombstone]) && Hashed(h, s[i := Tombstone])
  {}

  /** Erecting a tombstone. */
  lemma EraseSlot<K(!new), V>(h: Hashing<K>, s: seq<Slot<K, V>>, mod: nat, mask: nat, m: map<K, V>, i: nat)
    requires Lawful(h) && Table(h, s, mod, mask, m) && i < |s| && s[i].Live?
    ensures Table(h, s[i := Tombstone], mod, mask, m - {s[i].key})
    ensures |m - {s[i].key}| == |m| - 1
  {
    hide Chained, Unique, Hashed, Represents, Lawful, Reached, LiveSlots;
    ChainedUpdate(s, mod, mask, i, Tombstone);
    UniqueErase(h, s, i);
    LiveFill(s, i, s[i]);
    RepresentsErase(h, s, m, i);
    Shrink(m, s[i].key);
  }

  // ----- rehashing ---------------------------------------------------------------------

  lemma RepresentsPrefix<K, V>(s: seq<Slot<K, V>>, m: map<K, V>, i: nat, done: map<K, V>)
    requires i < |s| && Represents(s, m) && Represents(s[..i], done)
    ensures done.Keys <= m.Keys && |done| <= |m|
    ensures !s[i].Live? ==> Represents(s[..i + 1], done)
  {
    forall k | k in done ensures k in m {
      assert Holds(s[..i], k, done[k]);
      var j :| 0 <= j < i && s[..i][j].Live? && s[..i][j].key == k;
      assert s[j] == s[..i][j];
    }
    SubsetSize(done.Keys, m.Keys);
    if !s[i].Live? {
      forall k | k in done ensures Holds(s[..i + 1], k, done[k]) {
        assert Holds(s[..i], k, done[k]);
        var j :| 0 <= j < i && s[..i][j].Live? && s[..i][j].key == k && s[..i][j].value == done[k];
        assert s[..i + 1][j] == s[..i][j];
      }
      forall j | 0 <= j < i + 1 && s[..i + 1][j].Live? ensures s[j].key in done && done[s[j].key] == s[j].value {
        assert s[..i][j] == s[j];
      }
    }
  }

  /** The next entry to rehash is new, and recording it extends the prefix. */
  lemma RepresentsNext<K(!new), V>(h: Hashing<K>, s: seq<Slot<K, V>>, i: nat, done: map<K, V>)
    requires Lawful(h) && i < |s| && Unique(h, s) && s[i].Live? && Represents(s[..i], done)
    ensures !Has(h, done, s[i].key) && s[i].key !in done
    ensures Represents(s[..i + 1], done[s[i].key := s[i].value])
  {
    assert h.Match(s[i].key, s[i].key);
    forall k | k in done ensures !h.Match(k, s[i].key) {
      assert Holds(s[..i], k, done[k]);
      var j :| 0 <= j < i && s[..i][j].Live? && s[..i][j].key == k;
      assert s[j] == s[..i][j];
    }
    var t := s[..i] + [Tombstone];
    assert forall j :: 0 <= j < i ==> t[j] == s[..i][j];
    forall k | k in done ensures Holds(t, k, done[k]) {
      assert Holds(s[..i], k, done[k]);
      var j :| 0 <= j < i && s[..i][j].Live? && s[..i][j].key == k && s[..i][j].value == done[k];
      assert t[j] == s[..i][j];
    }
    RepresentsFill(t, done, i, s[i]);
    assert t[i := s[i]] == s[..i + 1];
  }

  lemma SameContents<K, V>(s: seq<Slot<K, V>>, m: map<K, V>, m': map<K, V>)
    requires Represents(s, m) && Represents(s, m')
    ensures m == m'
  {
    forall k ensures k in m <==> k in m' {
      if k in m { assert Holds(s, k, m[k]); }
      if k in m' { assert Holds(s, k, m'[k]); }
    }
    forall k | k in m ensures m[k] == m'[k] {
      assert Holds(s, k, m[k]);
    }
  }

  lemma EmptyTable<K, V>(h: Hashing<K>, s: seq<Slot<K, V>>, mod: nat, mask: nat)
    requires |s| == mask + 1 && 0 < mod <= mask + 1
    requires forall i :: 0 <= i < |s| ==> s[i] == Empty
    ensures Table(h, s, mod, mask, map[]) && UsedSlots(s) == {}
  {
    assert LiveSlots(s) == {};
  }

  /** Keys may be pointers whose contents decide hash and equality. A table stays good as
      long as the contents of its own stored keys do not change. */
  lemma StoredKeysIntact<K, V>(h: Hashing<K>, h': Hashing<K>, s: seq<Slot<K, V>>, mod: nat, mask: nat, m: map<K, V>)
    requires Table(h, s, mod, mask, m)
    requires forall k :: k in m ==> h.HashOf(k) == h'.HashOf(k)
    requires forall a, b :: a in m && b in m ==> h.Match(a, b) == h'.Match(a, b)
    ensures Table(h', s, mod, mask, m)
  {
    hide Hashing.Match, Hashing.HashOf;
  }
}
