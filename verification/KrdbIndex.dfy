/** The hash table behind a krdb index. Its keys are pointers into record buffers; hash and
    equality read what they point to. */
module KrdbIndex {
  import opened Options
  import opened KrdbSpec
  import opened HashTable
  import HashSpec

  /** A stored key, which points into a record buffer, or the key of a query. */
  datatype HashKey<V> = At(ptr: KeyPtr) | Given(value: V)

  function ContentOf<V(!new, ==)>(sc: Schema, buf: Buffers<V>, key: HashKey<V>): Option<V> {
    match key
    case At(ptr) => Pointee(sc, buf, ptr)
    case Given(v) => Some(v)
  }

  function HashOfContent<V>(hash: V -> HashSpec.u32, v: Option<V>): HashSpec.u32 {
    if v.Some? then hash(v.value) else 0
  }

  /** The hash and equality functions of the key's type, with the record buffers as they are. */
  function ContentHashing<V(!new, ==)>(hash: V -> HashSpec.u32, sc: Schema,
      buf: Buffers<V>): HashSpec.Hashing<HashKey<V>> {
    HashSpec.Hashing(
      (key: HashKey<V>) => HashOfContent(hash, ContentOf(sc, buf, key)),
      Some((a: HashKey<V>, b: HashKey<V>) => ContentOf(sc, buf, a) == ContentOf(sc, buf, b)))
  }

  lemma ContentLawful<V(!new)>(hash: V -> HashSpec.u32, sc: Schema, buf: Buffers<V>)
    ensures HashSpec.Lawful(ContentHashing(hash, sc, buf))
  {
    hide Pointee;
  }

  /** The stored pointers and their lists are the entries, by the contents they point to. */
  ghost predicate Stores<V(!new)>(sc: Schema, buf: Buffers<V>, m: map<HashKey<V>, seq<Rec>>, h: map<V, Entry>) {
    && KeysIntact(sc, buf, h)
    && (forall k {:trigger h[k].key} :: k in h ==> At(h[k].key) in m && m[At(h[k].key)] == h[k].list)
    && (forall p :: p in m ==> IsEntry(sc, buf, h, p))
  }

  ghost predicate IsEntry<V(!new)>(sc: Schema, buf: Buffers<V>, h: map<V, Entry>, p: HashKey<V>) {
    && p.At? && Pointee(sc, buf, p.ptr).Some?
    && Pointee(sc, buf, p.ptr).value in h && h[Pointee(sc, buf, p.ptr).value].key == p.ptr
  }

  /** A search in the table is a search by contents. */
  lemma StoredMatch<V(!new)>(hash: V -> HashSpec.u32, sc: Schema, buf: Buffers<V>, m: map<HashKey<V>, seq<Rec>>,
      h: map<V, Entry>, key: HashKey<V>, k: V)
    requires Stores(sc, buf, m, h) && ContentOf(sc, buf, key) == Some(k)
    ensures var hs := ContentHashing(hash, sc, buf);
      && (HashSpec.Has(hs, m, key) <==> k in h)
      && (forall p :: p in m && hs.Match(p, key) ==> k in h && p == At(h[k].key) && m[p] == h[k].list)
  {
    hide Pointee;
    var hs := ContentHashing(hash, sc, buf);
    forall p | p in m && hs.Match(p, key) ensures k in h && p == At(h[k].key) {
      assert IsEntry(sc, buf, h, p);
    }
    if k in h {
      assert Pointee(sc, buf, h[k].key) == Some(k);
      assert hs.Match(At(h[k].key), key);
    }
  }

  lemma StoresReplaced<V(!new)>(hash: V -> HashSpec.u32, sc: Schema, buf: Buffers<V>, m: map<HashKey<V>, seq<Rec>>,
      h: map<V, Entry>, key: KeyPtr, k: V, list: seq<Rec>)
    requires Stores(sc, buf, m, h) && Pointee(sc, buf, key) == Some(k)
    ensures Stores(sc, buf, HashSpec.Inserted(ContentHashing(hash, sc, buf), m, At(key), list, true),
      h[k := Entry(key, list)])
  {
    hide Pointee;
    var hs, h' := ContentHashing(hash, sc, buf), h[k := Entry(key, list)];
    var m' := HashSpec.Inserted(hs, m, At(key), list, true);
    StoredMatch(hash, sc, buf, m, h, At(key), k);
    forall p | p in m' ensures IsEntry(sc, buf, h', p) {
      if p in m && !hs.Match(p, At(key)) {
        assert IsEntry(sc, buf, h, p);
      }
    }
    forall k' {:trigger h'[k'].key} | k' in h' ensures At(h'[k'].key) in m' && m'[At(h'[k'].key)] == h'[k'].list {
      if k' != k {
        assert At(h[k'].key) in m && Pointee(sc, buf, h[k'].key) == Some(k');
        assert !hs.Match(At(h[k'].key), At(key));
      }
    }
  }

  lemma StoresRemoved<V(!new)>(hash: V -> HashSpec.u32, sc: Schema, buf: Buffers<V>, m: map<HashKey<V>, seq<Rec>>,
      h: map<V, Entry>, key: KeyPtr, k: V)
    requires Stores(sc, buf, m, h) && Pointee(sc, buf, key) == Some(k)
    ensures Stores(sc, buf, HashSpec.Without(ContentHashing(hash, sc, buf), m, At(key)), h - {k})
  {
    hide Pointee;
    var hs, h' := ContentHashing(hash, sc, buf), h - {k};
    var m' := HashSpec.Without(hs, m, At(key));
    forall p | p in m' ensures IsEntry(sc, buf, h', p) {
      assert IsEntry(sc, buf, h, p) && !hs.Match(p, At(key));
    }
    forall k' {:trigger h'[k'].key} | k' in h' ensures At(h'[k'].key) in m' && m'[At(h'[k'].key)] == h'[k'].list {
      assert At(h[k'].key) in m && Pointee(sc, buf, h[k'].key) == Some(k');
      assert !hs.Match(At(h[k'].key), At(key));
    }
  }

  /** When the buffers change but no stored key goes stale, the table still stores the entries,
      and its keys hash and compare as before. */
  lemma StoresElsewhere<V(!new)>(hash: V -> HashSpec.u32, sc: Schema, buf: Buffers<V>, sc': Schema, buf': Buffers<V>,
      m: map<HashKey<V>, seq<Rec>>, h: map<V, Entry>)
    requires Stores(sc, buf, m, h) && KeysIntact(sc', buf', h)
    ensures Stores(sc', buf', m, h)
    ensures var hs, hs' := ContentHashing(hash, sc, buf), ContentHashing(hash, sc', buf');
      && (forall p :: p in m ==> hs.HashOf(p) == hs'.HashOf(p))
      && (forall a, b :: a in m && b in m ==> hs.Match(a, b) == hs'.Match(a, b))
  {
    hide Pointee;
    forall p | p in m ensures IsEntry(sc', buf', h, p) && ContentOf(sc, buf, p) == ContentOf(sc', buf', p) {
      assert IsEntry(sc, buf, h, p);
      assert Pointee(sc', buf', h[Pointee(sc, buf, p.ptr).value].key) == Pointee(sc, buf, p.ptr);
    }
  }

  lemma {:induction false} SizeByKeys<V(!new)>(sc: Schema, buf: Buffers<V>, m: map<HashKey<V>, seq<Rec>>,
      h: map<V, Entry>)
    requires Stores(sc, buf, m, h)
    ensures |m| == |h|
    decreases |h|
  {
    hide Pointee;
    if h == map[] {
      assert m == map[] by {
        forall p ensures p !in m { assert p in m ==> IsEntry(sc, buf, h, p); }
      }
    } else {
      var k :| k in h;
      var p := At(h[k].key);
      var m', h' := m - {p}, h - {k};
      assert Pointee(sc, buf, h[k].key) == Some(k);
      forall q | q in m' ensures IsEntry(sc, buf, h', q) { assert IsEntry(sc, buf, h, q); }
      forall k' {:trigger h'[k'].key} | k' in h' ensures At(h'[k'].key) in m' && m'[At(h'[k'].key)] == h'[k'].list {
        assert At(h[k'].key) in m && Pointee(sc, buf, h[k'].key) == Some(k');
      }
      SizeByKeys(sc, buf, m', h');
      HashSpec.Shrink(m, p);
      HashSpec.Shrink(h, k);
    }
  }

  class RecIndex<V(!new, ==)> {
    const hash: V -> HashSpec.u32
    const table: HashTable<HashKey<V>, seq<Rec>>
    ghost var entries: map<V, Entry>  // by the contents the stored keys point to

    /** The table is sound for the record buffers as they are, and no stored key is stale. */
    ghost predicate Valid(sc: Schema, buf: Buffers<V>)
      reads this, table, table.nodes
    {
      && table.Valid() && table.hashing == ContentHashing(hash, sc, buf)
      && Stores(sc, buf, table.contents, entries)
    }

    ghost function Repr(): set<object>
      reads this, table
    {
      {this, table, table.nodes}
    }

    constructor (hash: V -> HashSpec.u32, ghost sc: Schema, ghost buf: Buffers<V>,
        hashing: HashSpec.Hashing<HashKey<V>>)
      requires hashing == ContentHashing(hash, sc, buf)
      ensures Valid(sc, buf) && entries == map[] && fresh(table) && fresh(table.nodes) && this.hash == hash
    {
      ContentLawful(hash, sc, buf);
      this.hash := hash;
      table := new HashTable(hashing, false, false);
      entries := map[];
    }

    /** kr_hashtable_lookup: the list filed under these contents. */
    method Lookup(key: V, ghost sc: Schema, ghost buf: Buffers<V>) returns (list: Option<seq<Rec>>)
      requires Valid(sc, buf)
      ensures list == if key in entries then Some(entries[key].list) else None
    {
      StoredMatch(hash, sc, buf, table.contents, entries, Given(key), key);
      hide HashTable.Valid, Stores, ContentHashing, HashSpec.Hashing.Match;
      list := table.Lookup(Given(key));
    }

    /** kr_hashtable_replace: file a list under the contents of a record's field. The stored key
        is the new pointer, also where an equal one was stored before. */
    method Replace(key: KeyPtr, list: seq<Rec>, ghost sc: Schema, ghost buf: Buffers<V>)
      requires Valid(sc, buf) && Pointee(sc, buf, key).Some? && |entries| < MAX_NODES
      modifies this`entries, table, table.nodes
      ensures Valid(sc, buf) && (table.nodes == old(table.nodes) || fresh(table.nodes))
      ensures entries == old(entries)[Pointee(sc, buf, key).value := Entry(key, list)]
    {
      hide HashTable.Valid, Stores, ContentHashing, HashSpec.Inserted, Pointee;
      ghost var k := Pointee(sc, buf, key).value;
      SizeByKeys(sc, buf, table.contents, entries);
      StoresReplaced(hash, sc, buf, table.contents, entries, key, k, list);
      Counted();
      table.Replace(At(key), list);
      entries := entries[k := Entry(key, list)];
    }

    lemma Counted()
      requires table.Valid()
      ensures table.nnodes == |table.contents|
    {}

    /** kr_hashtable_remove: the key need not be the stored one, only point to equal contents. */
    method Remove(key: KeyPtr, ghost sc: Schema, ghost buf: Buffers<V>)
      requires Valid(sc, buf) && Pointee(sc, buf, key).Some?
      modifies this`entries, table, table.nodes
      ensures Valid(sc, buf) && (table.nodes == old(table.nodes) || fresh(table.nodes))
      ensures entries == old(entries) - {Pointee(sc, buf, key).value}
    {
      hide HashTable.Valid, Stores, ContentHashing, HashSpec.Without, Pointee;
      ghost var k := Pointee(sc, buf, key).value;
      StoresRemoved(hash, sc, buf, table.contents, entries, key, k);
      var _ := table.RemoveInternal(At(key), true);
      entries := entries - {k};
    }

    /** A record buffer is overwritten under the table's feet. The table stays sound because no
        stored key points into it. */
    method MemoryChanges(ghost sc: Schema, ghost buf: Buffers<V>, ghost sc': Schema, ghost buf': Buffers<V>,
        hashing: HashSpec.Hashing<HashKey<V>>)
      requires Valid(sc, buf) && KeysIntact(sc', buf', entries) && hashing == ContentHashing(hash, sc', buf')
      modifies table`hashing
      ensures Valid(sc', buf')
    {
      ContentLawful(hash, sc', buf');
      StoresElsewhere(hash, sc, buf, sc', buf', table.contents, entries);
      hide HashTable.Core, Stores, ContentHashing, HashSpec.Hashing.Match, HashSpec.Hashing.HashOf;
      table.MemoryChanges(hashing);
    }
  }
}
