/** The open-addressing hash table: prime-modulo start bucket, triangular probing
    modulo 2^n, tombstones, growing and shrinking. */
module HashTable {
  import opened Options
  import opened Probing
  import opened HashSpec

  const HASH_TABLE_MIN_SHIFT := 3

  /** The live entries a table may hold before its size arithmetic leaves 32-bit ints. */
  const MAX_NODES := 0x1000_0000
  const MAX_SIZE := 0x4000_0000

  const PRIME_MOD: seq<nat> := [
    1, 2, 3, 7, 13, 31, 61, 127, 251, 509, 1021, 2039, 4093, 8191, 16381, 32749, 65521,
    131071, 262139, 524287, 1048573, 2097143, 4194301, 8388593, 16777213, 33554393,
    67108859, 134217689, 268435399, 536870909, 1073741789, 2147483647]

  /** From entry n on, the table's moduli fit below p, 2p, 4p, ... */
  predicate PrimesFit(n: nat, p: nat)
    requires n <= 31
    decreases 31 - n
  {
    0 < PRIME_MOD[n] <= p && (n == 31 || PrimesFit(n + 1, 2 * p))
  }

  lemma UpperPrimesFit()
    ensures PrimesFit(16, 0x1_0000)
  {
    assert PrimesFit(24, 0x100_0000);
  }

  lemma MiddlePrimesFit()
    ensures PrimesFit(8, 0x100)
  {
    UpperPrimesFit();
    assert PrimesFit(14, 0x4000);
    assert PrimesFit(12, 0x1000);
    assert PrimesFit(10, 0x400);
  }

  lemma AllPrimesFit()
    ensures PrimesFit(0, 1)
  {
    MiddlePrimesFit();
    assert PrimesFit(6, 0x40);
    assert PrimesFit(4, 0x10);
    assert PrimesFit(2, 4);
  }

  lemma {:induction false} PrimeFits(shift: nat, n: nat)
    requires n <= shift <= 31 && PrimesFit(n, Pow2(n))
    ensures 0 < PRIME_MOD[shift] <= Pow2(shift)
    decreases 31 - n
  {
    if n < shift { PrimeFits(shift, n + 1); }
  }

  lemma {:induction false} Pow2Monotone(a: nat, b: nat)
    requires a <= b
    ensures Pow2(a) <= Pow2(b)
    decreases b
  {
    if a < b { Pow2Monotone(a, b - 1); }
  }

  /** Every size below 2^31 has a prime modulus that fits in it. */
  lemma ShiftFits(shift: nat)
    requires Pow2(shift) <= MAX_SIZE
    ensures shift <= 30 && 0 < PRIME_MOD[shift] <= Pow2(shift)
  {
    assert Pow2(10) == 1024 && Pow2(20) == 0x10_0000 && Pow2(30) == MAX_SIZE;
    if shift > 30 { Pow2Monotone(31, shift); }
    AllPrimesFit();
    PrimeFits(shift, 0);
  }

  ghost function BitLength(n: nat): nat {
    if n == 0 then 0 else 1 + BitLength(n / 2)
  }

  lemma {:induction false} BitLengthBounds(n: nat)
    ensures n < Pow2(BitLength(n))
    ensures n > 0 ==> Pow2(BitLength(n) - 1) <= n
  {
    if n > 0 { BitLengthBounds(n / 2); }
  }

  /** The number of significant bits of n. */
  method FindClosestShift(n: nat) returns (i: nat)
    ensures n < Pow2(i) && (n > 0 ==> i > 0 && Pow2(i - 1) <= n) && (n == 0 ==> i == 0)
  {
    i := 0;
    var m := n;
    while m != 0
      invariant i + BitLength(m) == BitLength(n)
    {
      m := m / 2;
      i := i + 1;
    }
    BitLengthBounds(n);
  }

  /** The keys (values) of the live entries that satisfy f, in slot order: what the
      destroy notifiers are called on. */
  function LiveKeys<K, V>(s: seq<Slot<K, V>>, f: (K, V) -> bool): seq<K> {
    if s == [] then []
    else
      var rest, x := LiveKeys(s[..|s| - 1], f), s[|s| - 1];
      if x.Live? && f(x.key, x.value) then rest + [x.key] else rest
  }

  function LiveValues<K, V>(s: seq<Slot<K, V>>, f: (K, V) -> bool): seq<V> {
    if s == [] then []
    else
      var rest, x := LiveValues(s[..|s| - 1], f), s[|s| - 1];
      if x.Live? && f(x.key, x.value) then rest + [x.value] else rest
  }

  lemma LiveStep<K, V>(s: seq<Slot<K, V>>, f: (K, V) -> bool, i: nat)
    requires i < |s|
    ensures LiveKeys(s[..0], f) == [] && LiveValues(s[..0], f) == []
    ensures LiveKeys(s[..i + 1], f) ==
      LiveKeys(s[..i], f) + (if s[i].Live? && f(s[i].key, s[i].value) then [s[i].key] else [])
    ensures LiveValues(s[..i + 1], f) ==
      LiveValues(s[..i], f) + (if s[i].Live? && f(s[i].key, s[i].value) then [s[i].value] else [])
  {
    assert s[..i + 1][..i] == s[..i];
  }

  /** A table that is not full has an empty slot on every probe sequence. */
  lemma EmptyAhead<K, V>(s: seq<Slot<K, V>>, start: nat, mask: nat) returns (stop: nat)
    requires |s| == mask + 1 && start <= mask && |UsedSlots(s)| <= mask
    requires exists n: nat :: mask + 1 == Pow2(n)
    ensures stop <= mask && s[Probe(start, stop, mask)] == Empty
  {
    var n: nat :| mask + 1 == Pow2(n);
    var slot: nat :| slot < |s| && s[slot] == Empty by {
      assert |Below(mask + 1)| == mask + 1;
      assert UsedSlots(s) != Below(mask + 1);
      assert UsedSlots(s) <= Below(mask + 1);
    }
    ProbeCovers(start, slot, n, mask);
    stop :| 0 <= stop <= mask && Probe(start, stop, mask) == slot;
  }

  lemma TableShape<K, V>(h: Hashing<K>, s: seq<Slot<K, V>>, mod: nat, mask: nat, m: map<K, V>)
    requires Table(h, s, mod, mask, m)
    ensures |s| == mask + 1 && 0 < mod <= mask + 1
  {}

  lemma TableParts<K, V>(h: Hashing<K>, s: seq<Slot<K, V>>, mod: nat, mask: nat, m: map<K, V>)
    requires Table(h, s, mod, mask, m)
    ensures Unique(h, s) && Hashed(h, s) && Represents(s, m)
  {}

  lemma RepresentsNone<K, V>(s: seq<Slot<K, V>>)
    ensures Represents(s[..0], map[])
  {}

  lemma FillIfNew<K(!new), V>(h: Hashing<K>, s: seq<Slot<K, V>>, mod: nat, mask: nat, m: map<K, V>, k: K, v: V,
      step: nat)
    requires Lawful(h) && Table(h, s, mod, mask, m) && !Has(h, m, k) && step <= mask
    requires var start := Bucket(h.HashOf(k), mod);
      NoEmptyBefore(s, start, step, mask) && s[Probe(start, step, mask)] == Empty
    ensures var i := Probe(Bucket(h.HashOf(k), mod), step, mask);
      Table(h, s[i := Live(k, v, h.HashOf(k))], mod, mask, m[k := v]) && |m[k := v]| == |m| + 1
  {
    NoMatchNotHas(h, s, m, k);
    FillSlot(h, s, mod, mask, m, Probe(Bucket(h.HashOf(k), mod), step, mask), k, v);
  }

  lemma FillNew<K(!new), V>(h: Hashing<K>, s: seq<Slot<K, V>>, mod: nat, mask: nat, m: map<K, V>, i: nat, k: K, v: V)
    requires Lawful(h) && Table(h, s, mod, mask, m) && i < |s| && !s[i].Live? && NoMatch(h, s, k)
    requires Reached(s, Bucket(h.HashOf(k), mod), i, mask)
    ensures Table(h, s[i := Live(k, v, h.HashOf(k))], mod, mask, m[k := v])
    ensures |m[k := v]| == |m| + 1 && !Has(h, m, k)
    ensures forall k' :: k' in m ==> !h.Match(k', k)
    ensures m[k := v] == Inserted(h, m, k, v, true) == Inserted(h, m, k, v, false)
  {
    FillSlot(h, s, mod, mask, m, i, k, v);
    FreshKey(h, s, m, k, v);
    NoMatchNotHas(h, s, m, k);
  }

  /** The entry in slot i is the one and only match of key. */
  lemma OnlyEntry<K(!new), V>(h: Hashing<K>, s: seq<Slot<K, V>>, mod: nat, mask: nat, m: map<K, V>, i: nat, key: K)
    requires Lawful(h) && Table(h, s, mod, mask, m) && i < |s| && s[i].Live? && h.Match(s[i].key, key)
    ensures s[i].key in m && m[s[i].key] == s[i].value && Has(h, m, key)
    ensures forall k :: k in m && h.Match(k, key) ==> k == s[i].key
    ensures Without(h, m, key) == m - {s[i].key}
  {
    RepresentsDistinct(h, s, m);
    OnlyMatch(h, m, s[i].key, key);
  }

  lemma FoundEntry<K, V>(h: Hashing<K>, s: seq<Slot<K, V>>, mod: nat, mask: nat, m: map<K, V>, i: nat, key: K)
    requires Table(h, s, mod, mask, m) && i < |s| && s[i].Live? && h.Match(s[i].key, key)
    ensures Finds(h, m, key, Some((s[i].key, s[i].value)))
  {}

  lemma MissedEntry<K(!new), V>(h: Hashing<K>, s: seq<Slot<K, V>>, mod: nat, mask: nat, m: map<K, V>, i: nat, key: K)
    requires Lawful(h) && Table(h, s, mod, mask, m)
    requires MissedAt(h, s, Bucket(h.HashOf(key), mod), mask, key, i)
    ensures !Has(h, m, key) && Without(h, m, key) == m && Finds(h, m, key, None)
    ensures forall k :: k in m ==> !h.Match(k, key)
  {
    StopAtEmpty(h, s, mod, mask, m, key, i);
    NoMatchNotHas(h, s, m, key);
    assert Without(h, m, key) == m;
  }

  /** Slot j after the first i slots have been swept by f. */
  ghost function Swept<K, V>(s: seq<Slot<K, V>>, f: (K, V) -> bool, i: nat, j: nat): Slot<K, V>
    requires j < |s|
  {
    if j < i && s[j].Live? && f(s[j].key, s[j].value) then Tombstone else s[j]
  }

  lemma SweptContents<K, V>(h: Hashing<K>, s: seq<Slot<K, V>>, m: map<K, V>, f: (K, V) -> bool, t: seq<Slot<K, V>>,
      m': map<K, V>)
    requires Represents(s, m) && |t| == |s| && Represents(t, m')
    requires forall j :: 0 <= j < |s| ==> t[j] == Swept(s, f, |s|, j)
    ensures m' == Filtered(m, f)
  {
    forall k | k in Filtered(m, f) ensures Holds(t, k, m[k]) {
      assert Holds(s, k, m[k]);
      var j :| 0 <= j < |s| && s[j].Live? && s[j].key == k && s[j].value == m[k];
      assert t[j] == s[j];
    }
    SameContents(t, m', Filtered(m, f));
  }

  /** The size chosen by a resize: more than twice and at most four times nnodes. */
  lemma ResizeShift(n: nat, shift: nat)
    requires n <= MAX_NODES && shift >= 3 && 2 * n < Pow2(shift)
    requires shift > 3 ==> Pow2(shift - 1) <= 2 * n
    ensures Pow2(shift) <= MAX_SIZE && (Pow2(shift) <= 8 || Pow2(shift) <= 4 * n)
  {
    assert Pow2(3) == 8;
  }

  class HashTable<K(!new, ==), V> {
    var size: nat
    var mod: nat
    var mask: nat
    var nnodes: nat
    var noccupied: nat  // nnodes + tombstones
    var nodes: array<Slot<K, V>>
    var hashing: Hashing<K>  // reads the memory the keys point to
    const hasKeyDestroy: bool
    const hasValueDestroy: bool
    // The arguments the destroy notifiers have been called with, in call order.
    var destroyedKeys: seq<K>
    var destroyedValues: seq<V>
    ghost var contents: map<K, V>

    /** Size, mask and modulus agree. */
    ghost predicate Shaped()
      reads this`size, this`mod, this`mask
    {
      && 8 <= size <= MAX_SIZE && mask == size - 1 && 0 < mod <= size
      && exists shift: nat :: size == Pow2(shift)
    }

    /** What holds before the load has been checked. */
    ghost predicate Core()
      reads this, nodes
    {
      && Lawful(hashing)
      && Shaped()
      && nodes.Length == size
      && Table(hashing, nodes[..], mod, mask, contents)
      && nnodes == |contents|
      && noccupied == |UsedSlots(nodes[..])|
      && nnodes <= MAX_NODES
    }

    /** The load invariant of every public operation. */
    ghost predicate Balanced()
      reads this
    {
      && size > noccupied + noccupied / 16
      && (size <= 8 || size <= 4 * nnodes)
    }

    ghost predicate Valid()
      reads this, nodes
    {
      Core() && Balanced()
    }

    ghost function Repr(): set<object>
      reads this
    {
      {this, nodes}
    }

    constructor (hashing: Hashing<K>, hasKeyDestroy: bool, hasValueDestroy: bool)
      requires Lawful(hashing)
      ensures Valid() && fresh(nodes)
      ensures contents == map[] && size == 8
      ensures this.hashing == hashing
      ensures this.hasKeyDestroy == hasKeyDestroy && this.hasValueDestroy == hasValueDestroy
      ensures destroyedKeys == [] && destroyedValues == []
    {
      this.hashing := hashing;
      this.hasKeyDestroy, this.hasValueDestroy := hasKeyDestroy, hasValueDestroy;
      destroyedKeys, destroyedValues := [], [];
      nnodes, noccupied := 0, 0;
      size, mod, mask := 8, PRIME_MOD[HASH_TABLE_MIN_SHIFT], 7;
      nodes := new Slot<K, V>[8](_ => Empty);
      contents := map[];
      new;
      assert Pow2(3) == 8;
      assert UsedSlots(nodes[..]) == {} && LiveSlots(nodes[..]) == {};
    }

    method SetShift(shift: nat)
      requires 3 <= shift && Pow2(shift) <= MAX_SIZE
      modifies this`size, this`mod, this`mask
      ensures shift <= 31 && size == Pow2(shift) && mod == PRIME_MOD[shift] && Shaped()
    {
      ShiftFits(shift);
      Pow2Monotone(3, shift);
      assert Pow2(3) == 8;
      size := Pow2(shift);
      mod := PRIME_MOD[shift];
      var m := 0;
      for i := 0 to shift
        invariant m == Pow2(i) - 1
      {
        m := 2 * m + 1;
      }
      mask := m;
    }

    /** What the probe loops rely on: enough to find the way to an empty slot. */
    ghost predicate Probing()
      reads this, nodes
    {
      Shaped() && nodes.Length == size && |UsedSlots(nodes[..])| < size
    }

    /** The index of the entry matching key, or of an empty slot if there is none; never
        a tombstone. */
    method LookupNode(key: K) returns (nodeIndex: nat)
      requires Probing()
      ensures nodeIndex < size
      ensures nodes[nodeIndex].Live? ==> hashing.Match(nodes[nodeIndex].key, key)
      ensures !nodes[nodeIndex].Live? ==> nodes[nodeIndex] == Empty
      ensures !nodes[nodeIndex].Live? ==>
        MissedAt(hashing, nodes[..], Bucket(hashing.HashOf(key), mod), mask, key, nodeIndex)
    {
      hide BitAnd, Probe, UsedSlots, MissedSoFar, Hashing.Match, Hashing.HashOf;
      var hashValue := hashing.HashOf(key);
      ghost var start := Bucket(hashValue, mod);
      ghost var stop := EmptyAhead(nodes[..], start, mask);
      nodeIndex := Bucket(hashValue, mod);
      var step := 0;
      MissedNone(hashing, nodes[..], start, mask, key);
      ProbeStep(start, 0, mask);
      while !nodes[nodeIndex].Empty?
        invariant step <= stop && nodeIndex == Probe(start, step, mask)
        invariant MissedSoFar(hashing, nodes[..], start, mask, key, step)
        decreases stop - step
      {
        var node := nodes[nodeIndex];
        if node.Live? && node.hash == hashValue && hashing.Match(node.key, key) {
          return;
        }
        MissedOneMore(hashing, nodes[..], start, mask, key, step);
        ProbeStep(start, step, mask);
        step := step + 1;
        assert nodeIndex + step < 0x1_0000_0000;  // no unsigned wrap-around
        nodeIndex := BitAnd(nodeIndex + step, mask);
      }
    }

    /** The index of the entry matching key, or of the first unused slot (tombstone or
        empty) met while probing for it. */
    method LookupNodeForInsertion(key: K) returns (nodeIndex: nat, hashValue: u32)
      requires Probing()
      ensures nodeIndex < size && hashValue == hashing.HashOf(key)
      ensures nodes[nodeIndex].Live? ==> hashing.Match(nodes[nodeIndex].key, key)
      ensures !nodes[nodeIndex].Live? ==> Reached(nodes[..], Bucket(hashValue, mod), nodeIndex, mask)
      ensures !nodes[nodeIndex].Live? ==> exists stop ::
        MissedAt(hashing, nodes[..], Bucket(hashValue, mod), mask, key, stop)
    {
      hide BitAnd, Probe, UsedSlots, MissedSoFar, Reached, Hashing.Match, Hashing.HashOf;
      hashValue := hashing.HashOf(key);
      ghost var start := Bucket(hashValue, mod);
      ghost var stop := EmptyAhead(nodes[..], start, mask);
      nodeIndex := Bucket(hashValue, mod);
      var step := 0;
      var firstTombstone, haveTombstone := 0, false;
      MissedNone(hashing, nodes[..], start, mask, key);
      ProbeStep(start, 0, mask);
      while !nodes[nodeIndex].Empty?
        invariant step <= stop && nodeIndex == Probe(start, step, mask)
        invariant MissedSoFar(hashing, nodes[..], start, mask, key, step)
        invariant haveTombstone ==> (firstTombstone < size && nodes[firstTombstone].Tombstone?
                    && Reached(nodes[..], start, firstTombstone, mask))
        decreases stop - step
      {
        MissedReaches(hashing, nodes[..], start, mask, key, step);
        var node := nodes[nodeIndex];
        if node.Live? && node.hash == hashValue {
          if hashing.Match(node.key, key) {
            return;
          }
        } else if node.Tombstone? && !haveTombstone {
          firstTombstone, haveTombstone := nodeIndex, true;
        }
        MissedOneMore(hashing, nodes[..], start, mask, key, step);
        ProbeStep(start, step, mask);
        step := step + 1;
        assert nodeIndex + step < 0x1_0000_0000;  // no unsigned wrap-around
        nodeIndex := BitAnd(nodeIndex + step, mask);
      }
      MissedReaches(hashing, nodes[..], start, mask, key, step);
      assert MissedAt(hashing, nodes[..], start, mask, key, nodeIndex);
      if haveTombstone {
        nodeIndex := firstTombstone;
      }
    }

    /** Replace the live entry in slot i by a tombstone. */
    method RemoveNode(i: nat, notify: bool)
      requires Core() && i < size && nodes[i].Live?
      modifies this`nnodes, this`contents, this`destroyedKeys, this`destroyedValues, nodes
      ensures Core() && contents == old(contents - {nodes[i].key})
      ensures nodes[..] == old(nodes[..])[i := Tombstone]
      ensures nnodes == old(nnodes) - 1
      ensures destroyedKeys ==
        old(destroyedKeys) + (if notify && hasKeyDestroy then [old(nodes[i].key)] else [])
      ensures destroyedValues ==
        old(destroyedValues) + (if notify && hasValueDestroy then [old(nodes[i].value)] else [])
    {
      hide Table, Shaped;
      ghost var before := nodes[..];
      EraseSlot(hashing, before, mod, mask, contents, i);
      UsedUpdate(before, i, Tombstone);
      if notify && hasKeyDestroy {
        destroyedKeys := destroyedKeys + [nodes[i].key];
      }
      if notify && hasValueDestroy {
        destroyedValues := destroyedValues + [nodes[i].value];
      }
      contents := contents - {nodes[i].key};
      nodes[i] := Tombstone;
      nnodes := nnodes - 1;
      assert nodes[..] == before[i := Tombstone];
    }

    /** The inner loop of a resize: store one old entry in the first empty slot of its
        probe sequence in the new array. */
    method Rehash(newNodes: array<Slot<K, V>>, node: Slot<K, V>, ghost done: map<K, V>)
      requires Lawful(hashing) && Shaped() && newNodes.Length == size && newNodes != nodes
      requires Table(hashing, newNodes[..], mod, mask, done)
      requires |UsedSlots(newNodes[..])| < size
      requires node.Live? && node.hash == hashing.HashOf(node.key) && !Has(hashing, done, node.key)
      modifies newNodes
      ensures Table(hashing, newNodes[..], mod, mask, done[node.key := node.value])
      ensures |UsedSlots(newNodes[..])| == old(|UsedSlots(newNodes[..])|) + 1
      ensures |done[node.key := node.value]| == |done| + 1
    {
      hide BitAnd, Probe, UsedSlots, NoEmptyBefore, Table, Has, Lawful;
      ghost var before := newNodes[..];
      var hashVal, step := FindHole(newNodes, node.hash, done);
      FillIfNew(hashing, before, mod, mask, done, node.key, node.value, step);
      UsedUpdate(before, hashVal, node);
      newNodes[hashVal] := node;
      assert newNodes[..] == before[hashVal := node];
    }

    /** The first empty bucket on the probe sequence of a hash. */
    method FindHole(newNodes: array<Slot<K, V>>, hash: nat, ghost done: map<K, V>)
      returns (hashVal: nat, ghost step: nat)
      requires Lawful(hashing) && Shaped() && newNodes.Length == size && Table(hashing, newNodes[..], mod, mask, done)
      requires |UsedSlots(newNodes[..])| < size && hash < 0x1_0000_0000
      ensures hashVal < newNodes.Length && newNodes[hashVal] == Empty && hashVal == Probe(Bucket(hash, mod), step, mask)
      ensures step <= mask && NoEmptyBefore(newNodes[..], Bucket(hash, mod), step, mask)
    {
      hide BitAnd, Probe, UsedSlots, NoEmptyBefore, Table, Lawful;
      ghost var start := Bucket(hash, mod);
      ghost var before := newNodes[..];
      TableShape(hashing, before, mod, mask, done);
      ghost var stop := EmptyAhead(before, start, mask);
      hashVal := Bucket(hash, mod);
      ProbeStep(start, 0, mask);
      NoEmptyStep(before, start, 0, mask);
      step := 0;
      var i: nat := 0;
      while !newNodes[hashVal].Empty?
        invariant i <= stop && hashVal == Probe(start, i, mask) && hashVal < newNodes.Length
        invariant NoEmptyBefore(before, start, i, mask)
        decreases stop - i
      {
        ProbeStep(start, i, mask);
        NoEmptyStep(before, start, i, mask);
        i := i + 1;
        assert hashVal + i < 0x1_0000_0000;  // no unsigned wrap-around
        hashVal := BitAnd(hashVal + i, mask);
      }
      step := i;
      assert before[hashVal] == newNodes[hashVal] == Empty;
    }

    /** Rehash every live entry into a fresh array of the size best suited to nnodes. */
    method Resize()
      requires Core()
      modifies this`size, this`mod, this`mask, this`noccupied, this`nodes
      ensures Core() && fresh(nodes)
      ensures noccupied == nnodes && size > 2 * nnodes && (size <= 8 || size <= 4 * nnodes)
    {
      hide Table, Represents, UsedSlots, LiveSlots, Lawful;
      ghost var s, m := nodes[..], contents;
      TableParts(hashing, s, mod, mask, m);
      var oldSize := size;
      var shift := FindClosestShift(nnodes * 2);
      if shift < HASH_TABLE_MIN_SHIFT {
        shift := HASH_TABLE_MIN_SHIFT;
      }
      ResizeShift(nnodes, shift);
      SetShift(shift);
      var newNodes := new Slot<K, V>[size](_ => Empty);
      ghost var done: map<K, V> := map[];
      EmptyTable(hashing, newNodes[..], mod, mask);
      RepresentsNone(s);
      for i := 0 to oldSize
        invariant Table(hashing, newNodes[..], mod, mask, done)
        invariant |UsedSlots(newNodes[..])| == |done|
        invariant Represents(s[..i], done)
        invariant nodes[..] == s
        modifies newNodes
      {
        var node := nodes[i];
        RepresentsPrefix(s, m, i, done);
        if node.Live? {
          RepresentsNext(hashing, s, i, done);
          Rehash(newNodes, node, done);
          done := done[node.key := node.value];
        }
      }
      assert s[..oldSize] == s;
      SameContents(s, m, done);
      nodes := newNodes;
      noccupied := nnodes;
    }

    /** Resize exactly when the load has left its bounds. */
    method MaybeResize()
      requires Core()
      modifies this`size, this`mod, this`mask, this`noccupied, this`nodes
      ensures Valid() && (nodes == old(nodes) || fresh(nodes))
      ensures old(Balanced()) ==> nodes == old(nodes) && size == old(size) && noccupied == old(noccupied)
      ensures !old(Balanced()) ==> fresh(nodes) && noccupied == nnodes && size > 2 * nnodes
    {
      hide Table, Lawful, UsedSlots;
      if (size > nnodes * 4 && size > 8) || size <= noccupied + noccupied / 16 {
        Resize();
      }
    }

    /** The common part of insert and replace. */
    method InsertInternal(key: K, value: V, keepNewKey: bool)
      requires Valid() && nnodes < MAX_NODES
      modifies this, nodes
      ensures hashing == old(hashing)
      ensures Valid() && (nodes == old(nodes) || fresh(nodes))
      ensures contents == Inserted(hashing, old(contents), key, value, keepNewKey)
      ensures nnodes == old(nnodes) + (if Has(hashing, old(contents), key) then 0 else 1)
      ensures !Has(hashing, old(contents), key) ==>
        destroyedKeys == old(destroyedKeys) && destroyedValues == old(destroyedValues)
      ensures forall k :: k in old(contents) && hashing.Match(k, key) ==>
        && destroyedKeys ==
          old(destroyedKeys) + (if hasKeyDestroy then [if keepNewKey then k else key] else [])
        && destroyedValues ==
          old(destroyedValues) + (if hasValueDestroy then [old(contents)[k]] else [])
    {
      hide Table, Lawful, UsedSlots, Has, Inserted, Reached, MissedAt;
      var nodeIndex, keyHash := LookupNodeForInsertion(key);
      var node := nodes[nodeIndex];
      if node.Live? {
        ReplaceEntry(nodeIndex, key, value, keepNewKey);
      } else {
        FillEntry(nodeIndex, key, value, keyHash);
        if node.Empty? {
          MaybeResize();
        }
      }
    }

    /** An equivalent key is present: overwrite its value, and the key if asked to. */
    method ReplaceEntry(i: nat, key: K, value: V, keepNewKey: bool)
      requires Valid() && i < size && nodes[i].Live? && hashing.Match(nodes[i].key, key)
      modifies this`contents, this`destroyedKeys, this`destroyedValues, nodes
      ensures Valid() && Has(hashing, old(contents), key)
      ensures contents == Inserted(hashing, old(contents), key, value, keepNewKey)
      ensures forall k :: k in old(contents) && hashing.Match(k, key) ==>
        && destroyedKeys ==
          old(destroyedKeys) + (if hasKeyDestroy then [if keepNewKey then k else key] else [])
        && destroyedValues ==
          old(destroyedValues) + (if hasValueDestroy then [old(contents)[k]] else [])
    {
      hide Table, Lawful, UsedSlots, Has, Inserted;
      ghost var before := nodes[..];
      ReplaceSlot(hashing, before, mod, mask, contents, i, key, value, keepNewKey);
      OnlyEntry(hashing, before, mod, mask, contents, i, key);
      var node := nodes[i];
      UsedUpdate(before, i, node.(key := if keepNewKey then key else node.key, value := value));
      contents := Inserted(hashing, contents, key, value, keepNewKey);
      if hasKeyDestroy {
        destroyedKeys := destroyedKeys + [if keepNewKey then node.key else key];
      }
      if hasValueDestroy {
        destroyedValues := destroyedValues + [node.value];
      }
      nodes[i] := node.(key := if keepNewKey then key else node.key, value := value);
      assert nodes[..] == before[i := node.(key := if keepNewKey then key else node.key, value := value)];
    }

    /** No equivalent key is present: use the slot the probe found. */
    method FillEntry(i: nat, key: K, value: V, keyHash: u32)
      requires Valid() && nnodes < MAX_NODES && i < size && !nodes[i].Live?
      requires keyHash == hashing.HashOf(key)
      requires Reached(nodes[..], Bucket(keyHash, mod), i, mask)
      requires exists stop :: MissedAt(hashing, nodes[..], Bucket(keyHash, mod), mask, key, stop)
      modifies this`contents, this`nnodes, this`noccupied, nodes
      ensures Core() && !Has(hashing, old(contents), key)
      ensures forall k :: k in old(contents) ==> !hashing.Match(k, key)
      ensures forall keep :: contents == Inserted(hashing, old(contents), key, value, keep)
      ensures nnodes == old(nnodes) + 1
      ensures noccupied == old(noccupied) + (if old(nodes[i]).Empty? then 1 else 0)
    {
      hide Table, Lawful, UsedSlots, Has, Inserted, Reached, MissedAt;
      ghost var before, s := nodes[..], contents;
      ghost var stop :| MissedAt(hashing, before, Bucket(keyHash, mod), mask, key, stop);
      StopAtEmpty(hashing, before, mod, mask, contents, key, stop);
      FillNew(hashing, before, mod, mask, contents, i, key, value);
      UsedUpdate(before, i, Live(key, value, keyHash));
      contents := contents[key := value];
      if nodes[i].Empty? {
        noccupied := noccupied + 1;
      }
      nodes[i] := Live(key, value, keyHash);
      nnodes := nnodes + 1;
      assert nodes[..] == before[i := Live(key, value, keyHash)];
    }

    method Insert(key: K, value: V)
      requires Valid() && nnodes < MAX_NODES
      modifies this, nodes
      ensures hashing == old(hashing)
      ensures Valid() && (nodes == old(nodes) || fresh(nodes))
      ensures contents == Inserted(hashing, old(contents), key, value, false)
      ensures nnodes == old(nnodes) + (if Has(hashing, old(contents), key) then 0 else 1)
    {
      InsertInternal(key, value, false);
    }

    method Replace(key: K, value: V)
      requires Valid() && nnodes < MAX_NODES
      modifies this, nodes
      ensures hashing == old(hashing)
      ensures Valid() && (nodes == old(nodes) || fresh(nodes))
      ensures contents == Inserted(hashing, old(contents), key, value, true)
      ensures nnodes == old(nnodes) + (if Has(hashing, old(contents), key) then 0 else 1)
    {
      InsertInternal(key, value, true);
    }

    /** The stored key and value matching key, if any. */
    method LookupExtended(key: K) returns (r: Option<(K, V)>)
      requires Valid()
      ensures Finds(hashing, contents, key, r)
    {
      hide Table, Lawful, UsedSlots, Finds, MissedAt;
      var nodeIndex := LookupNode(key);
      var node := nodes[nodeIndex];
      if node.Live? {
        r := Some((node.key, node.value));
        FoundEntry(hashing, nodes[..], mod, mask, contents, nodeIndex, key);
      } else {
        r := None;
        MissedEntry(hashing, nodes[..], mod, mask, contents, nodeIndex, key);
      }
    }

    /** The value matching key, or nothing. */
    method Lookup(key: K) returns (r: Option<V>)
      requires Valid()
      ensures r.None? ==> !Has(hashing, contents, key)
      ensures r.Some? ==> exists k :: k in contents && hashing.Match(k, key) && contents[k] == r.value
    {
      hide Table, Lawful, UsedSlots;
      var e := LookupExtended(key);
      r := match e case Some(kv) => Some(kv.1) case None => None;
    }

    /** The common part of remove and steal. */
    method RemoveInternal(key: K, notify: bool) returns (found: bool)
      requires Valid()
      modifies this, nodes
      ensures hashing == old(hashing)
      ensures Valid() && (nodes == old(nodes) || fresh(nodes))
      ensures found == Has(hashing, old(contents), key)
      ensures contents == Without(hashing, old(contents), key)
      ensures nnodes == old(nnodes) - (if found then 1 else 0)
      ensures !found ==> destroyedKeys == old(destroyedKeys) && destroyedValues == old(destroyedValues)
      ensures forall k :: k in old(contents) && hashing.Match(k, key) ==>
        && destroyedKeys == old(destroyedKeys) + (if notify && hasKeyDestroy then [k] else [])
        && destroyedValues ==
          old(destroyedValues) + (if notify && hasValueDestroy then [old(contents)[k]] else [])
    {
      hide Table, Lawful, UsedSlots, Has, Without, MissedAt;
      var nodeIndex := LookupNode(key);
      if !nodes[nodeIndex].Live? {
        MissedEntry(hashing, nodes[..], mod, mask, contents, nodeIndex, key);
        return false;
      }
      OnlyEntry(hashing, nodes[..], mod, mask, contents, nodeIndex, key);
      RemoveNode(nodeIndex, notify);
      MaybeResize();
      return true;
    }

    /** The common part of remove_all and steal_all, up to the resize check. */
    method RemoveAllNodes(notify: bool)
      requires Valid()
      modifies this, nodes
      ensures hashing == old(hashing)
      ensures Core() && contents == map[] && noccupied == 0 && nodes == old(nodes)
      ensures destroyedKeys ==
        old(destroyedKeys) + (if notify && hasKeyDestroy then LiveKeys(old(nodes[..]), (k, v) => true) else [])
      ensures destroyedValues ==
        old(destroyedValues) + (if notify && hasValueDestroy then LiveValues(old(nodes[..]), (k, v) => true) else [])
    {
      hide Table, Lawful, UsedSlots, LiveKeys, LiveValues;
      ghost var s, all := nodes[..], (k: K, v: V) => true;
      LiveStep(s, all, 0);
      for i := 0 to size
        invariant destroyedKeys ==
          old(destroyedKeys) + (if notify && hasKeyDestroy then LiveKeys(s[..i], all) else [])
        invariant destroyedValues ==
          old(destroyedValues) + (if notify && hasValueDestroy then LiveValues(s[..i], all) else [])
        modifies this`destroyedKeys, this`destroyedValues
      {
        var node := nodes[i];
        LiveStep(s, all, i);
        if node.Live? {
          if notify && hasKeyDestroy {
            destroyedKeys := destroyedKeys + [node.key];
          }
          if notify && hasValueDestroy {
            destroyedValues := destroyedValues + [node.value];
          }
        }
      }
      assert s[..size] == s;
      forall i | 0 <= i < size {
        nodes[i] := Empty;
      }
      nnodes, noccupied := 0, 0;
      contents := map[];
      EmptyTable(hashing, nodes[..], mod, mask);
    }

    /** remove_all with notify, steal_all without. */
    method RemoveAll(notify: bool)
      requires Valid()
      modifies this, nodes
      ensures hashing == old(hashing)
      ensures Valid() && (nodes == old(nodes) || fresh(nodes))
      ensures contents == map[] && size == 8
      ensures destroyedKeys ==
        old(destroyedKeys) + (if notify && hasKeyDestroy then LiveKeys(old(nodes[..]), (k, v) => true) else [])
      ensures destroyedValues ==
        old(destroyedValues) + (if notify && hasValueDestroy then LiveValues(old(nodes[..]), (k, v) => true) else [])
    {
      hide Table, Lawful, UsedSlots, LiveKeys, LiveValues;
      RemoveAllNodes(notify);
      MaybeResize();
    }

    /** The common part of foreach_remove and foreach_steal. */
    method ForeachRemoveOrSteal(f: (K, V) -> bool, notify: bool) returns (deleted: nat)
      requires Valid()
      modifies this, nodes
      ensures hashing == old(hashing)
      ensures Valid() && (nodes == old(nodes) || fresh(nodes))
      ensures contents == Filtered(old(contents), f)
      ensures deleted == old(nnodes) - nnodes
      ensures destroyedKeys ==
        old(destroyedKeys) + (if notify && hasKeyDestroy then LiveKeys(old(nodes[..]), f) else [])
      ensures destroyedValues ==
        old(destroyedValues) + (if notify && hasValueDestroy then LiveValues(old(nodes[..]), f) else [])
    {
      hide Core, Filtered, LiveKeys, LiveValues, Swept, Represents;
      ghost var s, m := nodes[..], contents;
      CoreParts();
      deleted := Sweep(f, notify);
      SweptAll(s, m, f);
      MaybeResize();
    }

    lemma CoreParts()
      requires Core()
      ensures nodes.Length == size && Represents(nodes[..], contents)
    {
      hide Represents, Lawful, UsedSlots;
    }

    lemma SweptAll(s: seq<Slot<K, V>>, m: map<K, V>, f: (K, V) -> bool)
      requires Core() && |s| == size && Represents(s, m)
      requires forall j :: 0 <= j < size ==> nodes[j] == Swept(s, f, size, j)
      ensures contents == Filtered(m, f)
    {
      hide Core, Represents, Filtered, Swept;
      CoreParts();
      SweptContents(hashing, s, m, f, nodes[..], contents);
    }

    /** Remove every live entry the function asks for, bucket by bucket. */
    method Sweep(f: (K, V) -> bool, notify: bool) returns (deleted: nat)
      requires Core()
      modifies this`nnodes, this`contents, this`destroyedKeys, this`destroyedValues, nodes
      ensures Core()
      ensures forall j :: 0 <= j < size ==> nodes[j] == Swept(old(nodes[..]), f, size, j)
      ensures deleted == old(nnodes) - nnodes
      ensures destroyedKeys ==
        old(destroyedKeys) + (if notify && hasKeyDestroy then LiveKeys(old(nodes[..]), f) else [])
      ensures destroyedValues ==
        old(destroyedValues) + (if notify && hasValueDestroy then LiveValues(old(nodes[..]), f) else [])
    {
      hide Table, Lawful, UsedSlots, Represents, LiveKeys, LiveValues;
      deleted := 0;
      LiveStep(nodes[..], f, 0);
      ghost var s := nodes[..];
      for i := 0 to size
        invariant Core()
        invariant forall j :: 0 <= j < size ==> nodes[j] == Swept(s, f, i, j)
        invariant deleted == old(nnodes) - nnodes
        invariant destroyedKeys ==
          old(destroyedKeys) + (if notify && hasKeyDestroy then LiveKeys(s[..i], f) else [])
        invariant destroyedValues ==
          old(destroyedValues) + (if notify && hasValueDestroy then LiveValues(s[..i], f) else [])
      {
        var node := nodes[i];
        assert node == s[i];
        LiveStep(s, f, i);
        if node.Live? && f(node.key, node.value) {
          RemoveNode(i, notify);
          deleted := deleted + 1;
        }
      }
      assert s[..size] == s;
    }

    /** Keys may be pointers: the memory they point to changes, but not where the stored keys
        point to. */
    method MemoryChanges(h: Hashing<K>)
      requires Valid() && Lawful(h)
      requires forall k :: k in contents ==> hashing.HashOf(k) == h.HashOf(k)
      requires forall a, b :: a in contents && b in contents ==> hashing.Match(a, b) == h.Match(a, b)
      modifies this`hashing
      ensures Valid() && hashing == h
    {
      hide Lawful, Table;
      StoredKeysIntact(hashing, h, nodes[..], mod, mask, contents);
      hashing := h;
    }
  }
}
