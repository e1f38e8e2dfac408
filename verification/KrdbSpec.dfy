/** What the krdb indexes mean: for every key, the live records with that key, in insertion
    order or stably sorted, and a stored key pointer that stays inside a live record. */
module KrdbSpec {
  import opened Options
  import opened LinkedList

  /** One index of one table. Table-wide indexes have a hash table of their own; database-wide
      ones with the same id share theirs. */
  datatype Index = Index(id: int, dbWide: bool, keyField: nat, sortField: Option<nat>, hash: nat)

  /** Per table: ring capacity, number of fields, indexes. */
  datatype Schema = Schema(caps: seq<nat>, fields: seq<nat>, indexes: seq<seq<Index>>)

  /** A record is named by its place in its table's record buffer. */
  datatype Rec = Rec(table: nat, slot: nat)

  /** A stored hash key: a pointer to one field of a record buffer. */
  datatype KeyPtr = KeyPtr(rec: Rec, field: nat)

  datatype Entry = Entry(key: KeyPtr, list: seq<Rec>)

  type Buffers<V> = seq<seq<Option<seq<V>>>>

  function IndexOn(s: seq<Index>, x: nat): (r: Option<Index>)
    ensures r.Some? ==> r.value in s && r.value.hash == x
    ensures r.None? ==> forall d :: d in s ==> d.hash != x
  {
    if s == [] then None else if s[0].hash == x then Some(s[0]) else IndexOn(s[1..], x)
  }

  /** kr_get_table_index: the first index of the table with the given id. */
  function IndexById(s: seq<Index>, id: int): (r: Option<Index>)
    ensures r.Some? ==> r.value in s && r.value.id == id
    ensures r.None? ==> forall d :: d in s ==> d.id != id
  {
    if s == [] then None else if s[0].id == id then Some(s[0]) else IndexById(s[1..], id)
  }

  ghost predicate FieldsOk(sc: Schema, hashes: nat) {
    && |sc.caps| == |sc.fields| == |sc.indexes|
    && (forall t :: 0 <= t < |sc.caps| ==> sc.caps[t] > 0)
    && (forall t, d :: 0 <= t < |sc.indexes| && d in sc.indexes[t] ==>
          d.hash < hashes && d.keyField < sc.fields[t] && (d.sortField.Some? ==> d.sortField.value < sc.fields[t]))
  }

  ghost predicate IdsUnique(sc: Schema) {
    forall t, i, j :: 0 <= t < |sc.indexes| && 0 <= i < j < |sc.indexes[t]| ==>
      sc.indexes[t][i].id != sc.indexes[t][j].id
  }

  /** Indexes that share a hash table are namesakes. */
  ghost predicate Alike(d: Index, e: Index) {
    d.hash == e.hash ==> d.id == e.id
  }

  ghost predicate AllAlike(sc: Schema) {
    forall t, u, d, e :: 0 <= t < |sc.indexes| && 0 <= u < |sc.indexes| && d in sc.indexes[t] && e in sc.indexes[u] ==>
      Alike(d, e)
  }

  ghost predicate SchemaOk(sc: Schema, hashes: nat) {
    FieldsOk(sc, hashes) && IdsUnique(sc) && AllAlike(sc)
  }

  predicate InIndex(sc: Schema, x: nat, t: nat) {
    t < |sc.indexes| && IndexOn(sc.indexes[t], x).Some?
  }

  function KeyField(sc: Schema, x: nat, t: nat): nat
    requires InIndex(sc, x, t)
  {
    IndexOn(sc.indexes[t], x).value.keyField
  }

  /** In a well-formed schema the index of table t on hash table x is found by its id. */
  lemma FoundById(sc: Schema, hashes: nat, t: nat, x: nat)
    requires SchemaOk(sc, hashes) && InIndex(sc, x, t)
    ensures var d := IndexOn(sc.indexes[t], x).value; IndexById(sc.indexes[t], d.id) == Some(d)
    ensures var d := IndexOn(sc.indexes[t], x).value;
      d.keyField < sc.fields[t] && (d.sortField.Some? ==> d.sortField.value < sc.fields[t])
  {
    var d := IndexOn(sc.indexes[t], x).value;
    var e := IndexById(sc.indexes[t], d.id).value;
    var i :| 0 <= i < |sc.indexes[t]| && sc.indexes[t][i] == d;
    var j :| 0 <= j < |sc.indexes[t]| && sc.indexes[t][j] == e;
    assert sc.indexes[t][i].id == sc.indexes[t][j].id;
  }

  lemma OnlyIndexOn(sc: Schema, hashes: nat, t: nat, d: Index)
    requires SchemaOk(sc, hashes) && t < |sc.indexes| && d in sc.indexes[t]
    ensures IndexOn(sc.indexes[t], d.hash) == Some(d)
  {
    var e := IndexOn(sc.indexes[t], d.hash).value;
    assert Alike(d, e);
    var i :| 0 <= i < |sc.indexes[t]| && sc.indexes[t][i] == d;
    var j :| 0 <= j < |sc.indexes[t]| && sc.indexes[t][j] == e;
    assert sc.indexes[t][i].id == sc.indexes[t][j].id;
  }

  // ----- records ---------------------------------------------------------------------

  /** The slot holds a record with all its fields. */
  predicate Stored<V(!new)>(sc: Schema, buf: Buffers<V>, r: Rec) {
    && r.table < |buf| && r.table < |sc.fields| && r.slot < |buf[r.table]|
    && buf[r.table][r.slot].Some? && |buf[r.table][r.slot].value| == sc.fields[r.table]
  }

  function Content<V(!new)>(sc: Schema, buf: Buffers<V>, r: Rec): seq<V>
    requires Stored(sc, buf, r)
  {
    buf[r.table][r.slot].value
  }

  /** The key of record r in the indexes on hash table x. */
  function Key<V(!new)>(sc: Schema, buf: Buffers<V>, x: nat, r: Rec): Option<V> {
    if Stored(sc, buf, r) && InIndex(sc, x, r.table) && KeyField(sc, x, r.table) < sc.fields[r.table]
    then Some(Content(sc, buf, r)[KeyField(sc, x, r.table)])
    else None
  }

  function CompareValues<V(!new)>(cmp: (V, V) -> int, a: Option<V>, b: Option<V>): int {
    if a.Some? && b.Some? then cmp(a.value, b.value) else 0
  }

  /** r is a live record with key k in the indexes on x. */
  ghost predicate Member<V(!new)>(sc: Schema, buf: Buffers<V>, birth: map<Rec, nat>, x: nat, k: V, r: Rec) {
    r in birth && Key(sc, buf, x, r) == Some(k)
  }

  // ----- entries ---------------------------------------------------------------------

  /** The list every key should have: the insertions that made its records, in order. */
  type Wanted<!V> = (nat, V) -> seq<nat>

  ghost predicate Distinct<T>(s: seq<T>) {
    forall i, j :: 0 <= i < j < |s| ==> s[i] != s[j]
  }

  /** The records on the list were made by the given insertions. */
  ghost predicate Listed(birth: map<Rec, nat>, list: seq<Rec>, ns: seq<nat>) {
    |list| == |ns| && forall i :: 0 <= i < |list| ==> list[i] in birth && birth[list[i]] == ns[i]
  }

  ghost predicate Exactly<V(!new)>(sc: Schema, buf: Buffers<V>, birth: map<Rec, nat>, x: nat, k: V, list: seq<Rec>) {
    forall r :: r in list <==> Member(sc, buf, birth, x, k, r)
  }

  /** The stored key points to the key field of a record on the entry's own list. */
  ghost predicate KeyAlive(sc: Schema, x: nat, e: Entry) {
    e.key.rec in e.list && InIndex(sc, x, e.key.rec.table) && e.key.field == KeyField(sc, x, e.key.rec.table)
  }

  ghost predicate EntryOk<V(!new)>(sc: Schema, w: Wanted<V>, buf: Buffers<V>, birth: map<Rec, nat>, x: nat, k: V,
      e: Entry) {
    && Exactly(sc, buf, birth, x, k, e.list) && Distinct(e.list)
    && Listed(birth, e.list, w(x, k))
    && KeyAlive(sc, x, e)
  }

  ghost predicate Complete<V(!new)>(sc: Schema, buf: Buffers<V>, birth: map<Rec, nat>, x: nat, h: map<V, Entry>) {
    forall r :: r in birth && InIndex(sc, x, r.table) ==> Key(sc, buf, x, r).Some? && Key(sc, buf, x, r).value in h
  }

  ghost predicate EntriesOk<V(!new)>(sc: Schema, w: Wanted<V>, buf: Buffers<V>, birth: map<Rec, nat>, x: nat,
      h: map<V, Entry>) {
    && (forall k :: k in h ==> EntryOk(sc, w, buf, birth, x, k, h[k]))
    && (forall k :: k !in h ==> w(x, k) == [])
  }

  ghost predicate IndexOk<V(!new)>(sc: Schema, w: Wanted<V>, buf: Buffers<V>, birth: map<Rec, nat>, x: nat,
      h: map<V, Entry>) {
    EntriesOk(sc, w, buf, birth, x, h) && Complete(sc, buf, birth, x, h)
  }

  /** What the hash table needs of its caller: every stored key still has the contents it
      was hashed with. */
  ghost predicate KeysIntact<V(!new)>(sc: Schema, buf: Buffers<V>, h: map<V, Entry>) {
    forall k :: k in h ==> Pointee(sc, buf, h[k].key) == Some(k)
  }

  function Pointee<V(!new)>(sc: Schema, buf: Buffers<V>, p: KeyPtr): Option<V> {
    if Stored(sc, buf, p.rec) && p.field < sc.fields[p.rec.table] then Some(Content(sc, buf, p.rec)[p.field]) else None
  }

  /** Stored keys are never stale. */
  lemma IndexKeysIntact<V(!new)>(sc: Schema, w: Wanted<V>, buf: Buffers<V>, birth: map<Rec, nat>, x: nat,
      h: map<V, Entry>)
    requires IndexOk(sc, w, buf, birth, x, h)
    ensures KeysIntact(sc, buf, h)
  {
    forall k | k in h ensures Pointee(sc, buf, h[k].key) == Some(k) {
      assert EntryOk(sc, w, buf, birth, x, k, h[k]);
      assert Member(sc, buf, birth, x, k, h[k].key.rec);
    }
  }

  /** A list in strict order is determined by its elements. */
  lemma {:induction false} OrderedUnique<T>(less: (T, T) -> bool, a: seq<T>, b: seq<T>)
    requires forall x, y :: less(x, y) ==> !less(y, x)
    requires forall i, j :: 0 <= i < j < |a| ==> less(a[i], a[j])
    requires forall i, j :: 0 <= i < j < |b| ==> less(b[i], b[j])
    requires forall x :: x in a <==> x in b
    ensures a == b
  {
    SameEmptiness(a, b);
    if a != [] {
      var i :| 0 <= i < |a| && a[i] == b[0];
      var j :| 0 <= j < |b| && b[j] == a[0];
      assert a[0] == b[0];
      forall x ensures x in a[1..] <==> x in b[1..] {
        assert x in a <==> x == a[0] || x in a[1..];
        assert x in b <==> x == b[0] || x in b[1..];
        assert x in a[1..] ==> less(a[0], x);
        assert x in b[1..] ==> less(b[0], x);
      }
      OrderedUnique(less, a[1..], b[1..]);
      assert a == [a[0]] + a[1..] && b == [b[0]] + b[1..];
    }
  }

  lemma SameEmptiness<T>(a: seq<T>, b: seq<T>)
    requires forall r :: r in a <==> r in b
    ensures a == [] <==> b == []
    ensures a != [] ==> a[0] in b && b[0] in a
  {
    if |a| > 0 { assert a[0] in b; }
    if |b| > 0 { assert b[0] in a; }
  }

  // ----- inserting into a list -----------------------------------------------------------

  /** Field f of record r. */
  function FieldValue<V(!new)>(sc: Schema, buf: Buffers<V>, f: nat, r: Rec): Option<V> {
    if Stored(sc, buf, r) && f < sc.fields[r.table] then Some(Content(sc, buf, r)[f]) else None
  }

  /** kr_db_field_compare: field f of both records, whatever their tables. */
  function CompareRecs<V(!new)>(sc: Schema, cmp: (V, V) -> int, buf: Buffers<V>, f: nat, a: Rec, b: Rec): int {
    CompareValues(cmp, FieldValue(sc, buf, f, a), FieldValue(sc, buf, f, b))
  }

  /** Where kr_rebuild_index_ins puts a record: sorted insertion by the sort field of its own
      table's index, the tail without one. */
  function InsertPosition<V(!new)>(sc: Schema, cmp: (V, V) -> int, buf: Buffers<V>, d: Index, list: seq<Rec>,
      r: Rec): (p: nat)
    ensures p <= |list|
  {
    if d.sortField.Some?
    then SortedPosition(list, r, Some((a: Rec, b: Rec) => CompareRecs(sc, cmp, buf, d.sortField.value, a, b)))
    else |list|
  }

  /** Listing a new live record anywhere keeps the list exact. */
  lemma ListInsert<V(!new)>(sc: Schema, buf: Buffers<V>, birth: map<Rec, nat>, x: nat, k: V, list: seq<Rec>,
      ns: seq<nat>, p: nat, r: Rec, n: nat)
    requires r !in birth && p <= |list|
    requires Exactly(sc, buf, birth, x, k, list) && Distinct(list) && Listed(birth, list, ns)
    requires Key(sc, buf, x, r) == Some(k)
    ensures Exactly(sc, buf, birth[r := n], x, k, InsertAt(list, p, r)) && Distinct(InsertAt(list, p, r))
    ensures p <= |ns| && Listed(birth[r := n], InsertAt(list, p, r), InsertAt(ns, p, n))
  {
    hide Key;
    assert r !in list by { assert !Member(sc, buf, birth, x, k, r); }
    forall a ensures a in InsertAt(list, p, r) <==> Member(sc, buf, birth[r := n], x, k, a) {
      InsertMembers(list, p, r, a);
    }
  }

  lemma InsertMembers<T>(s: seq<T>, p: nat, x: T, y: T)
    requires p <= |s|
    ensures y in InsertAt(s, p, x) <==> y == x || y in s
  {
    assert s == s[..p] + s[p..];
  }

  // ----- deleting from a list ------------------------------------------------------------

  /** kr_list_remove of a record: drop its first occurrence, if any. */
  function Dropped(list: seq<Rec>, r: Rec): seq<Rec> {
    var p := FirstIndex(list, (a: Rec) => a == r);
    if p < |list| then RemoveAt(list, p) else list
  }

  /** The same for the insertions that made the records. */
  ghost function Struck(ns: seq<nat>, n: nat): seq<nat> {
    var p := FirstIndex(ns, (m: nat) => m == n);
    if p < |ns| then RemoveAt(ns, p) else ns
  }

  ghost predicate Injective(birth: map<Rec, nat>) {
    forall a, b :: a in birth && b in birth && birth[a] == birth[b] ==> a == b
  }

  lemma ListDelete<V(!new)>(sc: Schema, buf: Buffers<V>, birth: map<Rec, nat>, x: nat, k: V, list: seq<Rec>,
      ns: seq<nat>, r: Rec)
    requires Exactly(sc, buf, birth, x, k, list) && Distinct(list) && Listed(birth, list, ns) && Injective(birth)
    requires Member(sc, buf, birth, x, k, r)
    ensures Exactly(sc, buf, birth - {r}, x, k, Dropped(list, r)) && Distinct(Dropped(list, r))
    ensures Listed(birth - {r}, Dropped(list, r), Struck(ns, birth[r]))
  {
    hide Key;
    var p := FirstIndex(list, (a: Rec) => a == r);
    assert r in list;
    assert p < |list| && list[p] == r;
    FirstIndexIs(ns, (m: nat) => m == birth[r], p) by {
      assert forall i :: 0 <= i < p ==> list[i] != r;
    }
    forall a ensures a in RemoveAt(list, p) <==> Member(sc, buf, birth - {r}, x, k, a) {
      RemoveMembers(list, p, a);
    }
  }

  lemma StruckAbsent(ns: seq<nat>, n: nat)
    requires n !in ns
    ensures Struck(ns, n) == ns
  {}

  lemma RemoveMembers<T>(s: seq<T>, p: nat, y: T)
    requires p < |s| && forall i :: 0 <= i < |s| && i != p ==> s[i] != s[p]
    ensures y in RemoveAt(s, p) <==> y in s && y != s[p]
  {
    assert s == s[..p] + [s[p]] + s[p + 1..];
  }

  // ----- whole indexes -------------------------------------------------------------------

  ghost predicate AllStored<V(!new)>(sc: Schema, buf: Buffers<V>, birth: map<Rec, nat>) {
    forall r :: r in birth ==> Stored(sc, buf, r)
  }

  lemma KeyDefined<V(!new)>(sc: Schema, hashes: nat, buf: Buffers<V>, x: nat, r: Rec)
    requires SchemaOk(sc, hashes) && Stored(sc, buf, r) && InIndex(sc, x, r.table)
    ensures KeyField(sc, x, r.table) < sc.fields[r.table]
    ensures Key(sc, buf, x, r) == Some(Content(sc, buf, r)[KeyField(sc, x, r.table)])
  {
    FoundById(sc, hashes, r.table, x);
  }

  function ListOf<V>(h: map<V, Entry>, k: V): seq<Rec> {
    if k in h then h[k].list else []
  }

  lemma ListOfOk<V(!new)>(sc: Schema, w: Wanted<V>, buf: Buffers<V>, birth: map<Rec, nat>, x: nat, h: map<V, Entry>,
      k: V)
    requires IndexOk(sc, w, buf, birth, x, h)
    ensures Exactly(sc, buf, birth, x, k, ListOf(h, k)) && Distinct(ListOf(h, k))
      && Listed(birth, ListOf(h, k), w(x, k))
    ensures k in h ==> ListOf(h, k) != []
  {
    if k in h {
      assert EntryOk(sc, w, buf, birth, x, k, h[k]);
    } else {
      forall r ensures !Member(sc, buf, birth, x, k, r) {
        assert Key(sc, buf, x, r).Some? ==> InIndex(sc, x, r.table);
      }
    }
  }

  ghost predicate AgreesExcept(birth: map<Rec, nat>, birth': map<Rec, nat>, r: Rec) {
    forall a :: a != r ==> (a in birth <==> a in birth') && (a in birth && a in birth' ==> birth[a] == birth'[a])
  }

  /** An entry for another key is not touched by a record coming or going. */
  lemma EntryOther<V(!new)>(sc: Schema, w: Wanted<V>, w': Wanted<V>, buf: Buffers<V>, birth: map<Rec, nat>,
      birth': map<Rec, nat>, x: nat, k: V, e: Entry, r: Rec)
    requires EntryOk(sc, w, buf, birth, x, k, e) && w'(x, k) == w(x, k)
    requires AgreesExcept(birth, birth', r) && Key(sc, buf, x, r) != Some(k)
    ensures EntryOk(sc, w', buf, birth', x, k, e)
  {
    hide Key;
    forall a ensures Member(sc, buf, birth, x, k, a) <==> Member(sc, buf, birth', x, k, a) {}
    forall i | 0 <= i < |e.list| ensures e.list[i] != r {
      assert Member(sc, buf, birth, x, k, e.list[i]);
    }
  }

  /** Only the entry for the record's own key changes. */
  lemma EntriesUpdate<V(!new)>(sc: Schema, w: Wanted<V>, w': Wanted<V>, buf: Buffers<V>, birth: map<Rec, nat>,
      birth': map<Rec, nat>, x: nat, h: map<V, Entry>, h': map<V, Entry>, k: V, r: Rec)
    requires EntriesOk(sc, w, buf, birth, x, h) && AgreesExcept(birth, birth', r) && Key(sc, buf, x, r) == Some(k)
    requires forall k' :: k' != k ==> (k' in h <==> k' in h') && (k' in h && k' in h' ==> h'[k'] == h[k'])
    requires forall k' :: k' != k ==> w'(x, k') == w(x, k')
    requires if k in h' then EntryOk(sc, w', buf, birth', x, k, h'[k]) else w'(x, k) == []
    ensures EntriesOk(sc, w', buf, birth', x, h')
  {
    hide Key, EntryOk;
    forall k' | k' in h' && k' != k ensures EntryOk(sc, w', buf, birth', x, k', h'[k']) {
      EntryOther(sc, w, w', buf, birth, birth', x, k', h[k'], r);
    }
  }

  lemma CompleteInsert<V(!new)>(sc: Schema, buf: Buffers<V>, birth: map<Rec, nat>, x: nat, h: map<V, Entry>, k: V,
      e: Entry, r: Rec, n: nat)
    requires Complete(sc, buf, birth, x, h) && Key(sc, buf, x, r) == Some(k)
    ensures Complete(sc, buf, birth[r := n], x, h[k := e])
  {
    hide Key, InIndex;
  }

  lemma CompleteDelete<V(!new)>(sc: Schema, buf: Buffers<V>, birth: map<Rec, nat>, x: nat, h: map<V, Entry>,
      h': map<V, Entry>, k: V, r: Rec, list: seq<Rec>)
    requires Complete(sc, buf, birth, x, h) && Exactly(sc, buf, birth - {r}, x, k, list)
    requires forall k' :: k' in h && k' != k ==> k' in h'
    requires list != [] ==> k in h'
    ensures Complete(sc, buf, birth - {r}, x, h')
  {
    hide Key, InIndex;
    forall a | a in birth - {r} && InIndex(sc, x, a.table)
      ensures Key(sc, buf, x, a).Some? && Key(sc, buf, x, a).value in h'
    {
      assert a in birth;
      if Key(sc, buf, x, a).value == k { assert Member(sc, buf, birth - {r}, x, k, a); }
    }
  }

  lemma MemberInIndex<V(!new)>(sc: Schema, buf: Buffers<V>, birth: map<Rec, nat>, x: nat, k: V, a: Rec)
    requires Member(sc, buf, birth, x, k, a)
    ensures Stored(sc, buf, a) && InIndex(sc, x, a.table)
  {}

  lemma EntryOkFrom<V(!new)>(sc: Schema, w: Wanted<V>, buf: Buffers<V>, birth: map<Rec, nat>, x: nat, k: V, e: Entry)
    requires Exactly(sc, buf, birth, x, k, e.list) && Distinct(e.list) && Listed(birth, e.list, w(x, k))
    requires e.key.rec in e.list && InIndex(sc, x, e.key.rec.table) && e.key.field == KeyField(sc, x, e.key.rec.table)
    ensures EntryOk(sc, w, buf, birth, x, k, e)
  {}

  /** Listing a record in one index, at any place, keeps that index exact and its keys alive. */
  lemma IndexInsert<V(!new)>(sc: Schema, hashes: nat, w: Wanted<V>, w': Wanted<V>, buf: Buffers<V>,
      birth: map<Rec, nat>, x: nat, h: map<V, Entry>, r: Rec, k: V, p: nat, n: nat)
    requires SchemaOk(sc, hashes) && IndexOk(sc, w, buf, birth, x, h)
    requires InIndex(sc, x, r.table) && Key(sc, buf, x, r) == Some(k) && r !in birth
    requires p <= |ListOf(h, k)| == |w(x, k)| && w'(x, k) == InsertAt(w(x, k), p, n)
    requires forall k' :: k' != k ==> w'(x, k') == w(x, k')
    ensures IndexOk(sc, w', buf, birth[r := n], x,
      h[k := Entry(KeyPtr(r, KeyField(sc, x, r.table)), InsertAt(ListOf(h, k), p, r))])
  {
    var list := ListOf(h, k);
    var e := Entry(KeyPtr(r, KeyField(sc, x, r.table)), InsertAt(list, p, r));
    var birth', h' := birth[r := n], h[k := e];
    hide SchemaOk, Stored, InsertAt, Key, EntryOk, ListOf, Distinct, Listed;
    ListOfOk(sc, w, buf, birth, x, h, k);
    ListInsert(sc, buf, birth, x, k, list, w(x, k), p, r, n);
    InsertMembers(list, p, r, r);
    EntryOkFrom(sc, w', buf, birth', x, k, e);
    EntriesUpdate(sc, w, w', buf, birth, birth', x, h, h', k, r);
    CompleteInsert(sc, buf, birth, x, h, k, e, r, n);
  }

  /** What deleting a record does to its index, given what is left of its list: re-key the
      entry to the last record left, or drop the entry with its last record. */
  function Rekeyed<V>(sc: Schema, x: nat, h: map<V, Entry>, k: V, left: seq<Rec>): map<V, Entry>
    requires left != [] ==> InIndex(sc, x, left[|left| - 1].table)
  {
    if left == [] then h - {k}
    else
      var last := left[|left| - 1];
      h[k := Entry(KeyPtr(last, KeyField(sc, x, last.table)), left)]
  }

  lemma RekeyedOk<V(!new)>(sc: Schema, w: Wanted<V>, w': Wanted<V>, buf: Buffers<V>, birth: map<Rec, nat>, x: nat,
      h: map<V, Entry>, r: Rec, k: V, left: seq<Rec>)
    requires IndexOk(sc, w, buf, birth, x, h) && Key(sc, buf, x, r) == Some(k)
    requires Exactly(sc, buf, birth - {r}, x, k, left) && Distinct(left) && Listed(birth - {r}, left, w'(x, k))
    requires forall k' :: k' != k ==> w'(x, k') == w(x, k')
    ensures left != [] ==> InIndex(sc, x, left[|left| - 1].table)
    ensures IndexOk(sc, w', buf, birth - {r}, x, Rekeyed(sc, x, h, k, left))
  {
    hide Stored, EntryOk, IndexOn, Distinct;
    if left != [] {
      assert left[|left| - 1] in left;
      MemberInIndex(sc, buf, birth - {r}, x, k, left[|left| - 1]);
      EntryOkFrom(sc, w', buf, birth - {r}, x, k, Rekeyed(sc, x, h, k, left)[k]);
    }
    EntriesUpdate(sc, w, w', buf, birth, birth - {r}, x, h, Rekeyed(sc, x, h, k, left), k, r);
    CompleteDelete(sc, buf, birth, x, h, Rekeyed(sc, x, h, k, left), k, r, left);
  }

  /** Deleting a record from one index: its list is found, the record is on it, and what
      kr_rebuild_index_del makes of the rest keeps the index exact and its keys alive. */
  lemma IndexDelete<V(!new)>(sc: Schema, w: Wanted<V>, w': Wanted<V>, buf: Buffers<V>, birth: map<Rec, nat>, x: nat,
      h: map<V, Entry>, r: Rec, k: V)
    requires IndexOk(sc, w, buf, birth, x, h) && Injective(birth) && Member(sc, buf, birth, x, k, r)
    requires forall k' :: w'(x, k') == Struck(w(x, k'), birth[r])
    ensures k in h
    ensures var left := Dropped(h[k].list, r);
      && (left != [] ==> InIndex(sc, x, left[|left| - 1].table) && Key(sc, buf, x, left[|left| - 1]) == Some(k))
      && IndexOk(sc, w', buf, birth - {r}, x, Rekeyed(sc, x, h, k, left))
  {
    hide Stored, EntryOk, IndexOn, Rekeyed, Key, Dropped, Distinct, Listed, Struck, Injective;
    ListOfOk(sc, w, buf, birth, x, h, k);
    assert Key(sc, buf, x, r).value in h by { MemberInIndex(sc, buf, birth, x, k, r); }
    ListDelete(sc, buf, birth, x, k, h[k].list, w(x, k), r);
    var left := Dropped(h[k].list, r);
    forall k' | k' != k ensures w'(x, k') == w(x, k') {
      NotOnList(sc, w, buf, birth, x, h, r, k');
    }
    RekeyedOk(sc, w, w', buf, birth, x, h, r, k, left);
    assert left != [] ==> left[|left| - 1] in left;
  }

  /** A record without key k is not on its list, so striking it off changes nothing. */
  lemma NotOnList<V(!new)>(sc: Schema, w: Wanted<V>, buf: Buffers<V>, birth: map<Rec, nat>, x: nat, h: map<V, Entry>,
      r: Rec, k: V)
    requires IndexOk(sc, w, buf, birth, x, h) && Injective(birth) && r in birth && Key(sc, buf, x, r) != Some(k)
    ensures Struck(w(x, k), birth[r]) == w(x, k)
  {
    hide IndexOk, Key, Struck;
    ListOfOk(sc, w, buf, birth, x, h, k);
    var list := ListOf(h, k);
    forall i | 0 <= i < |list| ensures birth[list[i]] != birth[r] {
      assert Member(sc, buf, birth, x, k, list[i]);
    }
    StruckAbsent(w(x, k), birth[r]);
  }

  /** An index on a hash table the record's table does not use. */
  lemma IndexSkip<V(!new)>(sc: Schema, w: Wanted<V>, w': Wanted<V>, buf: Buffers<V>, birth: map<Rec, nat>,
      birth': map<Rec, nat>, x: nat, h: map<V, Entry>, r: Rec)
    requires IndexOk(sc, w, buf, birth, x, h) && !InIndex(sc, x, r.table) && AgreesExcept(birth, birth', r)
    requires forall k :: w'(x, k) == w(x, k)
    ensures IndexOk(sc, w', buf, birth', x, h)
  {
    hide EntryOk;
    forall k | k in h ensures EntryOk(sc, w', buf, birth', x, k, h[k]) {
      EntryOther(sc, w, w', buf, birth, birth', x, k, h[k], r);
    }
  }

  /** Only live records matter: the indexes do not look at any other buffer. */
  lemma IndexFrame<V(!new)>(sc: Schema, w: Wanted<V>, buf: Buffers<V>, buf': Buffers<V>, birth: map<Rec, nat>,
      x: nat, h: map<V, Entry>)
    requires IndexOk(sc, w, buf, birth, x, h)
    requires forall r :: r in birth ==>
      Stored(sc, buf, r) && Stored(sc, buf', r) && Content(sc, buf, r) == Content(sc, buf', r)
    ensures IndexOk(sc, w, buf', birth, x, h)
  {
    forall r | r in birth ensures Key(sc, buf, x, r) == Key(sc, buf', x, r) {}
    hide Key, Stored, Distinct, Listed;
    forall k | k in h ensures EntryOk(sc, w, buf', birth, x, k, h[k]) {
      assert EntryOk(sc, w, buf, birth, x, k, h[k]);
      forall r ensures r in h[k].list <==> Member(sc, buf', birth, x, k, r) {
        assert Member(sc, buf, birth, x, k, r) <==> Member(sc, buf', birth, x, k, r);
      }
    }
  }
}
