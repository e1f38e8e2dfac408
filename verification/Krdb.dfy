/** The krdb kernel: rings of records, and the hash indexes rebuilt on every insertion and
    on every deletion of an overwritten record. */
module Krdb {
  import opened Options
  import opened LinkedList
  import opened KrdbSpec
  import opened KrdbHistory
  import opened KrdbOrder
  import opened KrdbIndex
  import HashSpec
  import HashTable

  // ----- consistency of the database -------------------------------------------------------

  /** Every live record is in its slot, with the fields it was inserted with. */
  ghost predicate BuffersOk<V(!new)>(sc: Schema, buf: Buffers<V>, hist: seq<Ins<V>>, birth: map<Rec, nat>) {
    forall r :: r in birth ==>
      Stored(sc, buf, r) && birth[r] < |hist| && hist[birth[r]].table == r.table
      && Content(sc, buf, r) == hist[birth[r]].fields
  }

  ghost predicate Filled<V>(buf: Buffers<V>, birth: map<Rec, nat>) {
    forall t, i :: 0 <= t < |buf| && 0 <= i < |buf[t]| ==> (buf[t][i].Some? <==> Rec(t, i) in birth)
  }

  ghost predicate IndexesOk<V(!new)>(sc: Schema, w: Wanted<V>, buf: Buffers<V>, birth: map<Rec, nat>,
      hs: seq<map<V, Entry>>) {
    forall x :: 0 <= x < |hs| ==> IndexOk(sc, w, buf, birth, x, hs[x])
  }

  /** One of the first i indexes uses hash table x. */
  ghost predicate Done(idx: seq<Index>, i: nat, x: nat)
    requires i <= |idx|
  {
    exists j :: 0 <= j < i && idx[j].hash == x
  }

  /** A rebuild in progress: the first i indexes agree with birth' and w', the others with birth and w. */
  ghost predicate IndexesMid<V(!new)>(sc: Schema, w: Wanted<V>, w': Wanted<V>, buf: Buffers<V>, birth: map<Rec, nat>,
      birth': map<Rec, nat>,
      idx: seq<Index>, i: nat, hs: seq<map<V, Entry>>)
    requires i <= |idx|
  {
    forall x :: 0 <= x < |hs| ==>
      if Done(idx, i, x) then IndexOk(sc, w', buf, birth', x, hs[x]) else IndexOk(sc, w, buf, birth, x, hs[x])
  }

  lemma MidStart<V(!new)>(sc: Schema, w: Wanted<V>, w': Wanted<V>, buf: Buffers<V>, birth: map<Rec, nat>,
      birth': map<Rec, nat>,
      idx: seq<Index>, hs: seq<map<V, Entry>>)
    requires IndexesOk(sc, w, buf, birth, hs)
    ensures IndexesMid(sc, w, w', buf, birth, birth', idx, 0, hs)
  {
    hide IndexOk;
  }

  lemma MidStep<V(!new)>(sc: Schema, hashes: nat, w: Wanted<V>, w': Wanted<V>, buf: Buffers<V>, birth: map<Rec, nat>,
      birth': map<Rec, nat>,
      t: nat, i: nat, hs: seq<map<V, Entry>>, h: map<V, Entry>)
    requires SchemaOk(sc, hashes) && t < |sc.indexes| && i < |sc.indexes[t]| && |hs| == hashes
    requires IndexesMid(sc, w, w', buf, birth, birth', sc.indexes[t], i, hs)
    requires IndexOk(sc, w', buf, birth', sc.indexes[t][i].hash, h)
    ensures sc.indexes[t][i].hash < |hs|
    ensures IndexesMid(sc, w, w', buf, birth, birth', sc.indexes[t], i + 1, hs[sc.indexes[t][i].hash := h])
  {
    NotYetDone(sc, hashes, t, i);
    hide IndexOk, SchemaOk, IndexOn;
    var idx, x0 := sc.indexes[t], sc.indexes[t][i].hash;
    forall x | 0 <= x < |hs| && x != x0 ensures Done(idx, i, x) <==> Done(idx, i + 1, x) {}
    assert idx[i].hash == x0;
    assert Done(idx, i + 1, x0);
  }

  lemma NotYetDone(sc: Schema, hashes: nat, t: nat, i: nat)
    requires SchemaOk(sc, hashes) && t < |sc.indexes| && i < |sc.indexes[t]|
    ensures sc.indexes[t][i].hash < hashes && !Done(sc.indexes[t], i, sc.indexes[t][i].hash)
  {
    forall j | 0 <= j < i ensures sc.indexes[t][j].hash != sc.indexes[t][i].hash {
      assert sc.indexes[t][j].id != sc.indexes[t][i].id;
      assert Alike(sc.indexes[t][j], sc.indexes[t][i]);
      assert sc.indexes[t][j] in sc.indexes[t] && sc.indexes[t][i] in sc.indexes[t];
    }
  }

  lemma InIsDone(idx: seq<Index>, x: nat)
    requires IndexOn(idx, x).Some?
    ensures Done(idx, |idx|, x)
  {
    var d := IndexOn(idx, x).value;
    var j :| 0 <= j < |idx| && idx[j] == d;
  }

  lemma MidEnd<V(!new)>(sc: Schema, w: Wanted<V>, w': Wanted<V>, buf: Buffers<V>, birth: map<Rec, nat>,
      birth': map<Rec, nat>, r: Rec, hs: seq<map<V, Entry>>)
    requires r.table < |sc.indexes| && AgreesExcept(birth, birth', r)
    requires forall x, k :: 0 <= x < |hs| && !InIndex(sc, x, r.table) ==> w'(x, k) == w(x, k)
    requires IndexesMid(sc, w, w', buf, birth, birth', sc.indexes[r.table], |sc.indexes[r.table]|, hs)
    ensures IndexesOk(sc, w', buf, birth', hs)
  {
    hide IndexOk, AgreesExcept;
    forall x | 0 <= x < |hs| ensures IndexOk(sc, w', buf, birth', x, hs[x]) {
      var idx := sc.indexes[r.table];
      if InIndex(sc, x, r.table) {
        InIsDone(idx, x);
      } else if !Done(idx, |idx|, x) {
        IndexSkip(sc, w, w', buf, birth, birth', x, hs[x], r);
      }
    }
  }

  lemma FrameIndexes<V(!new)>(sc: Schema, w: Wanted<V>, buf: Buffers<V>, buf': Buffers<V>, birth: map<Rec, nat>,
      hs: seq<map<V, Entry>>)
    requires IndexesOk(sc, w, buf, birth, hs)
    requires forall r :: r in birth ==>
      Stored(sc, buf, r) && Stored(sc, buf', r) && Content(sc, buf, r) == Content(sc, buf', r)
    ensures IndexesOk(sc, w, buf', birth, hs)
    ensures forall x :: 0 <= x < |hs| ==> KeysIntact(sc, buf', hs[x])
  {
    hide IndexOk, Stored, KeysIntact;
    forall x | 0 <= x < |hs| ensures IndexOk(sc, w, buf', birth, x, hs[x]) && KeysIntact(sc, buf', hs[x]) {
      IndexFrame(sc, w, buf, buf', birth, x, hs[x]);
      IndexKeysIntact(sc, w, buf', birth, x, hs[x]);
    }
  }

  lemma MidHere<V(!new)>(sc: Schema, hashes: nat, w: Wanted<V>, w': Wanted<V>, buf: Buffers<V>, birth: map<Rec, nat>,
      birth': map<Rec, nat>,
      t: nat, i: nat, hs: seq<map<V, Entry>>)
    requires SchemaOk(sc, hashes) && t < |sc.indexes| && i < |sc.indexes[t]| && |hs| == hashes
    requires IndexesMid(sc, w, w', buf, birth, birth', sc.indexes[t], i, hs)
    ensures sc.indexes[t][i].hash < |hs| && sc.indexes[t][i] in sc.indexes[t]
    ensures IndexOk(sc, w, buf, birth, sc.indexes[t][i].hash, hs[sc.indexes[t][i].hash])
  {
    NotYetDone(sc, hashes, t, i);
  }

  lemma AgreesWithout(birth: map<Rec, nat>, r: Rec, n: nat)
    ensures AgreesExcept(birth, birth - {r}, r)
    ensures AgreesExcept(birth, birth[r := n], r)
  {}

  lemma SameWanted<V(!new)>(sc: Schema, w: Wanted<V>, w': Wanted<V>, buf: Buffers<V>, birth: map<Rec, nat>,
      hs: seq<map<V, Entry>>)
    requires IndexesOk(sc, w, buf, birth, hs) && forall x, k :: 0 <= x < |hs| ==> w'(x, k) == w(x, k)
    ensures IndexesOk(sc, w', buf, birth, hs)
  {
    hide Exactly, Distinct, Listed, KeyAlive, Complete;
    forall x, k | 0 <= x < |hs| && k in hs[x] ensures EntryOk(sc, w', buf, birth, x, k, hs[x][k]) {
      assert IndexOk(sc, w, buf, birth, x, hs[x]);
      assert EntryOk(sc, w, buf, birth, x, k, hs[x][k]);
    }
    forall x | 0 <= x < |hs| ensures IndexOk(sc, w', buf, birth, x, hs[x]) {
      assert IndexOk(sc, w, buf, birth, x, hs[x]);
    }
  }

  /** The index kr_rebuild_index_del re-keys through: the last record's own table's index
      with the same id, when that table is another one. */
  function NewIndex(sc: Schema, d: Index, r: Rec, last: Rec): Option<Index> {
    if r.table == last.table then Some(d)
    else if last.table < |sc.indexes| then IndexById(sc.indexes[last.table], d.id)
    else None
  }

  /** It leads to the same hash table, and the new key has the same contents. */
  lemma NewIndexFound<V(!new)>(sc: Schema, hashes: nat, buf: Buffers<V>, d: Index, r: Rec, last: Rec, k: V)
    requires SchemaOk(sc, hashes) && r.table < |sc.indexes| && d in sc.indexes[r.table]
    requires InIndex(sc, d.hash, last.table) && Key(sc, buf, d.hash, last) == Some(k)
    ensures NewIndex(sc, d, r, last).Some?
    ensures var e := NewIndex(sc, d, r, last).value;
      && e.hash == d.hash && e.keyField == KeyField(sc, d.hash, last.table)
      && Pointee(sc, buf, KeyPtr(last, e.keyField)) == Some(k)
  {
    OnlyIndexOn(sc, hashes, r.table, d);
    FoundById(sc, hashes, last.table, d.hash);
    assert Alike(d, IndexOn(sc.indexes[last.table], d.hash).value);
  }

  ghost predicate HasKey<V(!new)>(sc: Schema, buf: Buffers<V>, d: Index, r: Rec, k: V) {
    && r.table < |buf| && r.slot < |buf[r.table]| && buf[r.table][r.slot].Some?
    && d.keyField < |buf[r.table][r.slot].value| && buf[r.table][r.slot].value[d.keyField] == k
    && Pointee(sc, buf, KeyPtr(r, d.keyField)) == Some(k)
  }

  lemma KeyReadable<V(!new)>(sc: Schema, hashes: nat, buf: Buffers<V>, d: Index, r: Rec) returns (k: V)
    requires SchemaOk(sc, hashes) && r.table < |sc.indexes| && d in sc.indexes[r.table] && Stored(sc, buf, r)
    ensures HasKey(sc, buf, d, r, k) && Key(sc, buf, d.hash, r) == Some(k)
  {
    OnlyIndexOn(sc, hashes, r.table, d);
    KeyDefined(sc, hashes, buf, d.hash, r);
    k := buf[r.table][r.slot].value[d.keyField];
  }

  /** Everything kr_rebuild_index_del relies on, and what it achieves. */
  lemma DeletePrepared<V(!new)>(sc: Schema, hashes: nat, w: Wanted<V>, w': Wanted<V>, buf: Buffers<V>,
      birth: map<Rec, nat>, h: map<V, Entry>, d: Index, r: Rec) returns (k: V)
    requires SchemaOk(sc, hashes) && r.table < |sc.indexes| && d in sc.indexes[r.table]
    requires Stored(sc, buf, r) && r in birth && Injective(birth) && IndexOk(sc, w, buf, birth, d.hash, h)
    requires forall k :: w'(d.hash, k) == Struck(w(d.hash, k), birth[r])
    ensures HasKey(sc, buf, d, r, k) && k in h
    ensures var left := Dropped(h[k].list, r);
      if left == [] then IndexOk(sc, w', buf, birth - {r}, d.hash, h - {k})
      else
        var last := left[|left| - 1];
        && NewIndex(sc, d, r, last).Some?
        && var e := NewIndex(sc, d, r, last).value;
        && e.hash == d.hash && Pointee(sc, buf, KeyPtr(last, e.keyField)) == Some(k)
        && IndexOk(sc, w', buf, birth - {r}, d.hash, h[k := Entry(KeyPtr(last, e.keyField), left)])
  {
    k := KeyReadable(sc, hashes, buf, d, r);
    IndexDelete(sc, w, w', buf, birth, d.hash, h, r, k);
    var left := Dropped(h[k].list, r);
    hide *;
    if left == [] {
      RekeyedCases(sc, d.hash, h, k, left);
    } else {
      RekeyedCases(sc, d.hash, h, k, left);
      NewIndexFound(sc, hashes, buf, d, r, left[|left| - 1], k);
    }
  }

  lemma RekeyedCases<V>(sc: Schema, x: nat, h: map<V, Entry>, k: V, left: seq<Rec>)
    requires left != [] ==> InIndex(sc, x, left[|left| - 1].table)
    ensures left == [] ==> Rekeyed(sc, x, h, k, left) == h - {k}
    ensures left != [] ==>
      Rekeyed(sc, x, h, k, left) ==
        h[k := Entry(KeyPtr(left[|left| - 1], KeyField(sc, x, left[|left| - 1].table)), left)]
  {}

  function Written<V>(buf: Buffers<V>, r: Rec, fields: seq<V>): Buffers<V> {
    if r.table < |buf| && r.slot < |buf[r.table]|
    then buf[r.table := buf[r.table][r.slot := Some(fields)]]
    else buf
  }

  lemma WrittenIs<V>(buf: Buffers<V>, r: Rec, fields: seq<V>)
    requires r.table < |buf| && r.slot < |buf[r.table]|
    ensures Written(buf, r, fields) == buf[r.table := buf[r.table][r.slot := Some(fields)]]
  {}

  lemma WrittenContent<V(!new)>(sc: Schema, buf: Buffers<V>, r: Rec, fields: seq<V>)
    requires Stored(sc, Written(buf, r, fields), r) && r.table < |buf| && r.slot < |buf[r.table]|
    ensures Content(sc, Written(buf, r, fields), r) == fields
  {}

  /** Filling a slot leaves every other live record as it is. */
  lemma WrittenElsewhere<V(!new)>(sc: Schema, buf: Buffers<V>, hist: seq<Ins<V>>, birth: map<Rec, nat>, r: Rec,
      fields: seq<V>)
    requires BuffersOk(sc, buf, hist, birth) && r.table < |sc.fields| && |fields| == sc.fields[r.table]
    requires r.table < |buf| && r.slot < |buf[r.table]|
    ensures BuffersOk(sc, Written(buf, r, fields), hist, birth - {r})
    ensures Stored(sc, Written(buf, r, fields), r)
    ensures forall a :: a in birth - {r} ==>
      && Stored(sc, buf, a) && Stored(sc, Written(buf, r, fields), a)
      && Content(sc, buf, a) == Content(sc, Written(buf, r, fields), a)
  {}

  lemma WrittenFilled<V>(buf: Buffers<V>, birth: map<Rec, nat>, r: Rec, fields: seq<V>, n: nat)
    requires Filled(buf, birth) && r.table < |buf| && r.slot < |buf[r.table]|
    ensures Filled(Written(buf, r, fields), (birth - {r})[r := n])
  {}

  lemma SlotFilled<V>(buf: Buffers<V>, birth: map<Rec, nat>, r: Rec)
    requires Filled(buf, birth) && r.table < |buf| && r.slot < |buf[r.table]|
    ensures buf[r.table][r.slot].Some? <==> r in birth
  {}

  lemma BuffersStored<V(!new)>(sc: Schema, buf: Buffers<V>, hist: seq<Ins<V>>, birth: map<Rec, nat>)
    requires BuffersOk(sc, buf, hist, birth)
    ensures AllStored(sc, buf, birth)
    ensures forall r :: r in birth ==> Stored(sc, buf, r)
  {}

  lemma BuffersInsert<V(!new)>(sc: Schema, buf: Buffers<V>, hist: seq<Ins<V>>, birth: map<Rec, nat>, r: Rec,
      ins: Ins<V>)
    requires BuffersOk(sc, buf, hist, birth) && Stored(sc, buf, r)
    requires ins == Ins(r.table, Content(sc, buf, r))
    ensures BuffersOk(sc, buf, hist + [ins], birth[r := |hist|])
  {}

  lemma CapsPositive(sc: Schema, hashes: nat, t: nat)
    requires SchemaOk(sc, hashes) && t < |sc.caps|
    ensures |sc.caps| == |sc.fields| == |sc.indexes| && sc.caps[t] > 0
  {}

  lemma CountNext<V>(hist: seq<Ins<V>>, ins: Ins<V>)
    ensures forall t :: Count(hist + [ins], t) == Count(hist, t) + (if ins.table == t then 1 else 0)
  {
    assert (hist + [ins])[..|hist|] == hist;
  }

  ghost function Births(birth: map<Rec, nat>, list: seq<Rec>): (ns: seq<nat>)
    requires forall r :: r in list ==> r in birth
    ensures |ns| == |list| && forall i :: 0 <= i < |ns| ==> ns[i] == birth[list[i]]
  {
    seq(|list|, i requires 0 <= i < |list| => birth[list[i]])
  }

  lemma HashBound(sc: Schema, hashes: nat, t: nat, d: Index)
    requires SchemaOk(sc, hashes) && t < |sc.indexes| && d in sc.indexes[t]
    ensures d.hash < hashes
  {}

  /** A slot has been filled for the next insertion. */
  lemma SlotWritten<V(!new)>(sc: Schema, buf: Buffers<V>, hist: seq<Ins<V>>, birth: map<Rec, nat>, r: Rec,
      fields: seq<V>)
    requires Filled(buf, birth) && r.table < |buf| && r.slot < |buf[r.table]|
    requires BuffersOk(sc, Written(buf, r, fields), hist, birth - {r}) && Stored(sc, Written(buf, r, fields), r)
    ensures AllStored(sc, Written(buf, r, fields), birth - {r}) && Content(sc, Written(buf, r, fields), r) == fields
    ensures Filled(Written(buf, r, fields), (birth - {r})[r := |hist|])
    ensures BuffersOk(sc, Written(buf, r, fields), hist + [Ins(r.table, fields)], (birth - {r})[r := |hist|])
  {
    hide Filled, BuffersOk, Stored, Written;
    BuffersStored(sc, Written(buf, r, fields), hist, birth - {r});
    WrittenFilled(buf, birth, r, fields, |hist|);
    WrittenContent(sc, buf, r, fields);
    BuffersInsert(sc, Written(buf, r, fields), hist, birth - {r}, r, Ins(r.table, fields));
  }

  // ----- the lists and the history ---------------------------------------------------------

  /** The lists the code makes of a history. */
  ghost function Wants<V(!new)>(sc: Schema, cmp: (V, V) -> int, hist: seq<Ins<V>>): Wanted<V> {
    (x: nat, k: V) => ListAfter(sc, cmp, hist, x, k)
  }

  /** The lists once the record that the next insertion overwrites is gone. */
  ghost function Lefts<V(!new)>(sc: Schema, cmp: (V, V) -> int, hist: seq<Ins<V>>, ins: Ins<V>): Wanted<V> {
    (x: nat, k: V) => Overwritten(sc, hist + [ins], ListAfter(sc, cmp, hist, x, k))
  }

  lemma BirthInjective<V>(sc: Schema, hist: seq<Ins<V>>, birth: map<Rec, nat>)
    requires BirthOk(sc, hist, birth)
    ensures Injective(birth)
  {
    hide Alive, RecAt;
  }

  /** The record gone is the one in the slot to be reused, if there is one. */
  lemma LeftIsStruck<V(!new)>(sc: Schema, cmp: (V, V) -> int, hist: seq<Ins<V>>, ins: Ins<V>, birth: map<Rec, nat>,
      x: nat, k: V)
    requires ValidHist(sc, hist) && BirthOk(sc, hist, birth) && ins.table < |sc.caps| && sc.caps[ins.table] > 0
    ensures var list, r := ListAfter(sc, cmp, hist, x, k), Reused(sc, hist, ins.table);
      Overwritten(sc, hist + [ins], list) == if r in birth then Struck(list, birth[r]) else list
  {
    var list, r := ListAfter(sc, cmp, hist, x, k), Reused(sc, hist, ins.table);
    ListMembers(sc, cmp, hist, x, k);
    hide Alive, RecAt, ListAfter, ValidHist;
    forall i | 0 <= i < |list| ensures !Alive(sc, hist + [ins], list[i]) <==> r in birth && list[i] == birth[r] {
      assert list[i] in list;
      MemberKey(sc, hist, x, k, list[i]);
      AliveInside(sc, hist, list[i]);
      StaysAlive(sc, hist, ins, list[i]);
      assert RecAt(sc, hist, list[i]) in birth && birth[RecAt(sc, hist, list[i])] == list[i];
    }
    if r in birth {
      FirstIndexIs(list, (m: nat) => m == birth[r], FirstIndex(list, (m: nat) => !Alive(sc, hist + [ins], m)));
    }
  }

  lemma LeftsAre<V(!new)>(sc: Schema, cmp: (V, V) -> int, hist: seq<Ins<V>>, ins: Ins<V>, birth: map<Rec, nat>)
    requires ValidHist(sc, hist) && BirthOk(sc, hist, birth) && ins.table < |sc.caps| && sc.caps[ins.table] > 0
    ensures var r := Reused(sc, hist, ins.table);
      forall x, k :: Lefts(sc, cmp, hist, ins)(x, k) ==
        if r in birth then Struck(Wants(sc, cmp, hist)(x, k), birth[r]) else Wants(sc, cmp, hist)(x, k)
  {
    hide ListAfter, Overwritten, Struck, ValidHist, BirthOk;
    forall x: nat, k: V
      ensures var r := Reused(sc, hist, ins.table);
        Lefts(sc, cmp, hist, ins)(x, k) ==
          if r in birth then Struck(Wants(sc, cmp, hist)(x, k), birth[r]) else Wants(sc, cmp, hist)(x, k)
    {
      LeftIsStruck(sc, cmp, hist, ins, birth, x, k);
    }
  }

  lemma HistGrows<V(!new)>(sc: Schema, hist: seq<Ins<V>>, ins: Ins<V>)
    requires ValidHist(sc, hist) && ins.table < |sc.caps| == |sc.fields| && sc.caps[ins.table] > 0
    requires |ins.fields| == sc.fields[ins.table]
    ensures ValidHist(sc, hist + [ins])
  {}

  lemma NothingStale<V(!new)>(sc: Schema, buf: Buffers<V>, hs: seq<map<V, Entry>>)
    requires forall x :: 0 <= x < |hs| ==> hs[x] == map[]
    ensures forall x :: 0 <= x < |hs| ==> KeysIntact(sc, buf, hs[x])
  {}

  /** The lists after an insertion, from those left and the position the code finds in one index. */
  ghost predicate PutOn<V(!new)>(sc: Schema, cmp: (V, V) -> int, buf: Buffers<V>, d: Index, h: map<V, Entry>, r: Rec,
      n: nat, w: Wanted<V>, w': Wanted<V>) {
    forall k :: if Key(sc, buf, d.hash, r) == Some(k)
      then
        var p := InsertPosition(sc, cmp, buf, d, ListOf(h, k), r);
        p <= |ListOf(h, k)| == |w(d.hash, k)| && w'(d.hash, k) == InsertAt(w(d.hash, k), p, n)
      else w'(d.hash, k) == w(d.hash, k)
  }

  lemma PositionIs<V(!new)>(sc: Schema, cmp: (V, V) -> int, buf: Buffers<V>, hist: seq<Ins<V>>, birth: map<Rec, nat>,
      d: Index, list: seq<Rec>, ns: seq<nat>, r: Rec)
    requires BuffersOk(sc, buf, hist, birth) && Listed(birth, list, ns) && Stored(sc, buf, r)
    ensures var hist' := hist + [Ins(r.table, Content(sc, buf, r))];
      SortFieldOf(sc, d.hash, r.table) == d.sortField ==>
        InsertPosition(sc, cmp, buf, d, list, r) == NewPosition(sc, cmp, hist', d.hash, ns)
  {
    var hist' := hist + [Ins(r.table, Content(sc, buf, r))];
    var n := |hist|;
    if d.sortField.Some? && SortFieldOf(sc, d.hash, r.table) == d.sortField {
      var f := d.sortField.value;
      FieldIs(sc, buf, hist, birth, f, r);
      hide BuffersOk, FieldOf, FieldValue, CompareValues, SortFieldOf;
      forall i | 0 <= i < |list| ensures FieldValue(sc, buf, f, list[i]) == FieldOf(hist', ns[i], f) {
        LiveFieldIs(sc, buf, hist, birth, f, list[i], Ins(r.table, Content(sc, buf, r)));
      }
      SortedPositionAt<nat>(ns, n,
        Some((a: nat, b: nat) => CompareValues(cmp, FieldOf(hist', a, f), FieldOf(hist', b, f))),
                       InsertPosition(sc, cmp, buf, d, list, r));
    }
  }

  lemma FieldIs<V(!new)>(sc: Schema, buf: Buffers<V>, hist: seq<Ins<V>>, birth: map<Rec, nat>, f: nat, r: Rec)
    requires Stored(sc, buf, r)
    ensures FieldValue(sc, buf, f, r) == FieldOf(hist + [Ins(r.table, Content(sc, buf, r))], |hist|, f)
  {}

  lemma LiveFieldIs<V(!new)>(sc: Schema, buf: Buffers<V>, hist: seq<Ins<V>>, birth: map<Rec, nat>, f: nat, r: Rec,
      ins: Ins<V>)
    requires BuffersOk(sc, buf, hist, birth) && r in birth
    ensures FieldValue(sc, buf, f, r) == FieldOf(hist + [ins], birth[r], f)
  {}

  lemma KeyIs<V(!new)>(sc: Schema, buf: Buffers<V>, hist: seq<Ins<V>>, x: nat, r: Rec)
    requires Stored(sc, buf, r)
    ensures Key(sc, buf, x, r) == HistKey(sc, hist + [Ins(r.table, Content(sc, buf, r))], x, |hist|)
  {
    hide IndexOn;
  }

  lemma WantsGrow<V(!new)>(sc: Schema, cmp: (V, V) -> int, hist: seq<Ins<V>>, ins: Ins<V>, x: nat, k: V)
    ensures Wants(sc, cmp, hist + [ins])(x, k) == Placed(sc, cmp, hist + [ins], x, k, Lefts(sc, cmp, hist, ins)(x, k))
  {
    assert (hist + [ins])[..|hist|] == hist;
  }

  /** What the code does in one index is what the history says. */
  lemma PutOnIs<V(!new)>(sc: Schema, hashes: nat, cmp: (V, V) -> int, buf: Buffers<V>, hist: seq<Ins<V>>,
      birth: map<Rec, nat>, d: Index, h: map<V, Entry>, r: Rec)
    requires SchemaOk(sc, hashes) && r.table < |sc.indexes| && d in sc.indexes[r.table]
    requires BuffersOk(sc, buf, hist, birth) && Stored(sc, buf, r)
    requires IndexOk(sc, Lefts(sc, cmp, hist, Ins(r.table, Content(sc, buf, r))), buf, birth, d.hash, h)
    ensures var ins := Ins(r.table, Content(sc, buf, r));
      PutOn(sc, cmp, buf, d, h, r, |hist|, Lefts(sc, cmp, hist, ins), Wants(sc, cmp, hist + [ins]))
  {
    var ins := Ins(r.table, Content(sc, buf, r));
    var w, w' := Lefts(sc, cmp, hist, ins), Wants(sc, cmp, hist + [ins]);
    OnlyIndexOn(sc, hashes, r.table, d);
    hide IndexOk, SchemaOk, BuffersOk, Stored, Key, InsertPosition, Lefts, Wants, IndexOn, ListOf, InsertAt;
    forall k
      ensures if Key(sc, buf, d.hash, r) == Some(k)
        then
          var p := InsertPosition(sc, cmp, buf, d, ListOf(h, k), r);
          p <= |ListOf(h, k)| == |w(d.hash, k)| && w'(d.hash, k) == InsertAt(w(d.hash, k), p, |hist|)
        else w'(d.hash, k) == w(d.hash, k)
    {
      PutOnAt(sc, cmp, buf, hist, birth, d, h, r, k);
    }
  }

  lemma PutOnAt<V(!new)>(sc: Schema, cmp: (V, V) -> int, buf: Buffers<V>, hist: seq<Ins<V>>, birth: map<Rec, nat>,
      d: Index, h: map<V, Entry>, r: Rec, k: V)
    requires r.table < |sc.indexes| && IndexOn(sc.indexes[r.table], d.hash) == Some(d)
    requires BuffersOk(sc, buf, hist, birth) && Stored(sc, buf, r)
    requires IndexOk(sc, Lefts(sc, cmp, hist, Ins(r.table, Content(sc, buf, r))), buf, birth, d.hash, h)
    ensures var ins := Ins(r.table, Content(sc, buf, r));
      var w, w' := Lefts(sc, cmp, hist, ins), Wants(sc, cmp, hist + [ins]);
      if Key(sc, buf, d.hash, r) == Some(k)
      then
        var p := InsertPosition(sc, cmp, buf, d, ListOf(h, k), r);
        p <= |ListOf(h, k)| == |w(d.hash, k)| && w'(d.hash, k) == InsertAt(w(d.hash, k), p, |hist|)
      else w'(d.hash, k) == w(d.hash, k)
  {
    var ins, x := Ins(r.table, Content(sc, buf, r)), d.hash;
    var w := Lefts(sc, cmp, hist, ins);
    KeyIs(sc, buf, hist, x, r);
    hide IndexOk, BuffersOk, Stored, Key, HistKey, InsertPosition, NewPosition, Lefts, Wants, IndexOn, Content, ListOf;
    WantsGrow(sc, cmp, hist, ins, x, k);
    ListOfOk(sc, w, buf, birth, x, h, k);
    PositionIs(sc, cmp, buf, hist, birth, d, ListOf(h, k), w(x, k), r);
  }

  lemma Unlisted<V(!new)>(sc: Schema, cmp: (V, V) -> int, buf: Buffers<V>, hist: seq<Ins<V>>, r: Rec, x: nat, k: V)
    requires Stored(sc, buf, r) && !InIndex(sc, x, r.table)
    ensures var ins := Ins(r.table, Content(sc, buf, r));
      Wants(sc, cmp, hist + [ins])(x, k) == Lefts(sc, cmp, hist, ins)(x, k)
  {
    WantsGrow(sc, cmp, hist, Ins(r.table, Content(sc, buf, r)), x, k);
  }

  /** Everything kr_rebuild_index_ins relies on, and what it achieves. */
  lemma InsertPrepared<V(!new)>(sc: Schema, hashes: nat, cmp: (V, V) -> int, w: Wanted<V>, w': Wanted<V>,
      buf: Buffers<V>, birth: map<Rec, nat>,
      h: map<V, Entry>, d: Index, r: Rec, n: nat) returns (k: V)
    requires SchemaOk(sc, hashes) && r.table < |sc.indexes| && d in sc.indexes[r.table]
    requires Stored(sc, buf, r) && r !in birth && IndexOk(sc, w, buf, birth, d.hash, h)
    requires PutOn(sc, cmp, buf, d, h, r, n, w, w')
    ensures HasKey(sc, buf, d, r, k)
    ensures var list := ListOf(h, k);
      IndexOk(sc, w', buf, birth[r := n], d.hash,
              h[k := Entry(KeyPtr(r, d.keyField), InsertAt(list, InsertPosition(sc, cmp, buf, d, list, r), r))])
  {
    k := KeyReadable(sc, hashes, buf, d, r);
    OnlyIndexOn(sc, hashes, r.table, d);
    hide IndexOk, SchemaOk, Stored, Key, InsertPosition, IndexOn, HasKey;
    var p := InsertPosition(sc, cmp, buf, d, ListOf(h, k), r);
    IndexInsert(sc, hashes, w, w', buf, birth, d.hash, h, r, k, p, n);
  }

  // ----- how many entries a table may hold ----------------------------------------------------

  ghost function Total(caps: seq<nat>): nat {
    if caps == [] then 0 else Total(caps[..|caps| - 1]) + caps[|caps| - 1]
  }

  lemma TotalNext(caps: seq<nat>, c: nat)
    ensures Total(caps + [c]) == Total(caps) + c
  {
    assert (caps + [c])[..|caps|] == caps;
  }

  ghost function Places(caps: seq<nat>): set<Rec> {
    set t, i | 0 <= t < |caps| && 0 <= i < caps[t] :: Rec(t, i)
  }

  ghost function Ring(t: nat, c: nat): set<Rec> {
    set i | 0 <= i < c :: Rec(t, i)
  }

  lemma {:induction false} PlacesCount(caps: seq<nat>)
    ensures |Places(caps)| == Total(caps)
  {
    if caps == [] {
      assert Places(caps) == {};
    } else {
      var n := |caps| - 1;
      PlacesCount(caps[..n]);
      RingCount(n, caps[n]);
      assert Places(caps) == Places(caps[..n]) + Ring(n, caps[n]);
      assert Places(caps[..n]) !! Ring(n, caps[n]);
    }
  }

  lemma {:induction false} RingCount(t: nat, c: nat)
    ensures |Ring(t, c)| == c
  {
    if c > 0 {
      RingCount(t, c - 1);
      assert Ring(t, c) == Ring(t, c - 1) + {Rec(t, c - 1)};
    }
  }

  lemma {:induction false} AtMost<T>(a: set<T>, b: set<T>)
    requires a <= b
    ensures |a| <= |b|
  {
    assert b == a + (b - a);
  }

  /** Every entry holds the key of a live record of its own. */
  lemma {:induction false} EntriesAtMost<V(!new)>(sc: Schema, buf: Buffers<V>, x: nat, h: map<V, Entry>, recs: set<Rec>)
    requires forall k {:trigger h[k].key} :: k in h ==> h[k].key.rec in recs && Key(sc, buf, x, h[k].key.rec) == Some(k)
    ensures |h| <= |recs|
    decreases |h|
  {
    if h != map[] {
      hide Key;
      var k :| k in h;
      var r := h[k].key.rec;
      EntriesAtMost(sc, buf, x, h - {k}, recs - {r});
      HashSpec.Shrink(h, k);
    }
  }

  lemma EntriesBound<V(!new)>(sc: Schema, w: Wanted<V>, buf: Buffers<V>, birth: map<Rec, nat>, x: nat, h: map<V, Entry>)
    requires IndexOk(sc, w, buf, birth, x, h) && AllStored(sc, buf, birth) && |buf| == |sc.caps|
    requires forall t :: 0 <= t < |buf| ==> |buf[t]| == sc.caps[t]
    ensures |h| <= Total(sc.caps)
  {
    forall k {:trigger h[k].key} | k in h ensures h[k].key.rec in birth && Key(sc, buf, x, h[k].key.rec) == Some(k) {
      assert EntryOk(sc, w, buf, birth, x, k, h[k]);
      assert Member(sc, buf, birth, x, k, h[k].key.rec);
    }
    EntriesAtMost(sc, buf, x, h, birth.Keys);
    AtMost(birth.Keys, Places(sc.caps));
    PlacesCount(sc.caps);
  }

  // ----- the answers -------------------------------------------------------------------------

  /** The list found in an index is the one the history says. */
  lemma AnswerOk<V(!new)>(sc: Schema, cmp: (V, V) -> int, buf: Buffers<V>, hist: seq<Ins<V>>, birth: map<Rec, nat>,
      x: nat, h: map<V, Entry>, k: V)
    requires IndexOk(sc, Wants(sc, cmp, hist), buf, birth, x, h)
    ensures forall r :: r in ListOf(h, k) ==> r in birth
    ensures Births(birth, ListOf(h, k)) == ListAfter(sc, cmp, hist, x, k)
    ensures k in h ==> ListOf(h, k) != []
  {
    hide IndexOk, ListAfter, ListOf, Exactly;
    ListOfOk(sc, Wants(sc, cmp, hist), buf, birth, x, h, k);
  }

  /** The database-wide index list agrees with the tables' indexes. */
  ghost predicate DbIndexesOk(sc: Schema, db: seq<Index>, hashes: nat) {
    && (forall d :: d in db ==> d.hash < hashes)
    && (forall d, t, e :: d in db && 0 <= t < |sc.indexes| && e in sc.indexes[t] ==> Alike(d, e))
    && (forall d, e :: d in db && e in db ==> Alike(d, e))
  }

  lemma NothingLive<V>(sc: Schema, hist: seq<Ins<V>>, birth: map<Rec, nat>)
    requires hist == [] && BirthOk(sc, hist, birth)
    ensures birth == map[]
  {
    forall r ensures r !in birth {}
  }

  /** Without live records every hash table is empty. */
  lemma EmptyIndexes<V(!new)>(sc: Schema, w: Wanted<V>, buf: Buffers<V>, hs: seq<map<V, Entry>>)
    requires IndexesOk(sc, w, buf, map[], hs)
    ensures forall x :: 0 <= x < |hs| ==> hs[x] == map[]
  {
    hide EntryOk, Complete;
    forall x | 0 <= x < |hs| ensures hs[x] == map[] {
      assert IndexOk(sc, w, buf, map[], x, hs[x]);
      forall k | k in hs[x] ensures false {
        assert EntryOk(sc, w, buf, map[], x, k, hs[x][k]);
        NoEntry(sc, w, buf, x, k, hs[x][k]);
      }
    }
  }

  lemma NoEntry<V(!new)>(sc: Schema, w: Wanted<V>, buf: Buffers<V>, x: nat, k: V, e: Entry)
    ensures !EntryOk(sc, w, buf, map[], x, k, e)
  {
    assert !Member(sc, buf, map[], x, k, e.key.rec);
  }

  lemma EmptyIndexesOk<V(!new)>(sc: Schema, cmp: (V, V) -> int, buf: Buffers<V>, hist: seq<Ins<V>>,
      hs: seq<map<V, Entry>>)
    requires hist == [] && forall x :: 0 <= x < |hs| ==> hs[x] == map[]
    ensures IndexesOk(sc, Wants(sc, cmp, hist), buf, map[], hs)
  {}

  lemma NothingCounted<V>(hist: seq<Ins<V>>)
    requires hist == []
    ensures forall t :: Count(hist, t) == 0
  {}

  lemma SchemaLens(sc: Schema, hashes: nat)
    requires SchemaOk(sc, hashes)
    ensures |sc.caps| == |sc.fields| == |sc.indexes|
  {}

  lemma DbBound(sc: Schema, db: seq<Index>, hashes: nat)
    requires DbIndexesOk(sc, db, hashes)
    ensures forall d :: d in db ==> d.hash < hashes
  {}

  lemma NothingFilled<V>(buf: Buffers<V>)
    requires Filled(buf, map[])
    ensures forall t, i :: 0 <= t < |buf| && 0 <= i < |buf[t]| ==> buf[t][i].None?
  {}

  lemma EmptyDb<V(!new)>(sc: Schema, cmp: (V, V) -> int, buf: Buffers<V>, hist: seq<Ins<V>>, hs: seq<map<V, Entry>>)
    requires hist == [] && forall x :: 0 <= x < |hs| ==> hs[x] == map[]
    requires forall t, i :: 0 <= t < |buf| && 0 <= i < |buf[t]| ==> buf[t][i].None?
    ensures BirthOk(sc, hist, map[]) && BuffersOk(sc, buf, hist, map[]) && Filled(buf, map[]) && ValidHist(sc, hist)
    ensures IndexesOk(sc, Wants(sc, cmp, hist), buf, map[], hs)
  {
    EmptyIndexesOk(sc, cmp, buf, hist, hs);
  }

  lemma AddedTable(sc: Schema, sc': Schema, hashes: nat, db: seq<Index>)
    requires SchemaOk(sc, hashes) && |sc'.caps| == |sc.caps| + 1 == |sc'.fields|
    requires sc.caps == sc'.caps[..|sc.caps|] && sc.fields == sc'.fields[..|sc.fields|] && sc'.caps[|sc.caps|] > 0
    requires sc'.indexes == sc.indexes + [[]]
    ensures SchemaOk(sc', hashes) && (DbIndexesOk(sc', db, hashes) <==> DbIndexesOk(sc, db, hashes))
  {
    hide Alike;
    assert forall t :: 0 <= t < |sc.indexes| ==> sc'.indexes[t] == sc.indexes[t];
    assert forall t :: 0 <= t < |sc.caps| ==> sc'.caps[t] == sc.caps[t] && sc'.fields[t] == sc.fields[t];
  }

  function WithIndex(sc: Schema, t: nat, d: Index): Schema
    requires t < |sc.indexes|
  {
    sc.(indexes := sc.indexes[t := sc.indexes[t] + [d]])
  }

  lemma AddedFields(sc: Schema, hashes: nat, t: nat, d: Index, hashes': nat)
    requires SchemaOk(sc, hashes) && t < |sc.indexes| && d.hash < hashes' && hashes <= hashes'
    requires d.keyField < sc.fields[t] && (d.sortField.Some? ==> d.sortField.value < sc.fields[t])
    requires forall e :: e in sc.indexes[t] ==> e.id != d.id
    ensures FieldsOk(WithIndex(sc, t, d), hashes') && IdsUnique(WithIndex(sc, t, d))
  {}

  lemma AddedAlike(sc: Schema, t: nat, d: Index)
    requires AllAlike(sc) && t < |sc.indexes|
    requires forall u, e :: 0 <= u < |sc.indexes| && e in sc.indexes[u] ==> Alike(d, e) && Alike(e, d)
    ensures AllAlike(WithIndex(sc, t, d))
  {
    var sc' := WithIndex(sc, t, d);
    assert Alike(d, d);
    hide Alike;
    forall u, e | 0 <= u < |sc'.indexes| && e in sc'.indexes[u] ensures e == d || e in sc.indexes[u] {}
  }

  /** A fresh hash table, or that of a database-wide namesake, keeps the schema well formed. */
  lemma AddedIndex(sc: Schema, hashes: nat, db: seq<Index>, t: nat, d: Index, hashes': nat, db': seq<Index>)
    requires SchemaOk(sc, hashes) && DbIndexesOk(sc, db, hashes) && t < |sc.indexes|
    requires d.keyField < sc.fields[t] && (d.sortField.Some? ==> d.sortField.value < sc.fields[t])
    requires forall e :: e in sc.indexes[t] ==> e.id != d.id
    requires d.hash < hashes' && hashes <= hashes'
    requires d.hash == hashes || exists e :: e in db && e.hash == d.hash && e.id == d.id
    requires db' == db || (db' == db + [d] && d.hash == hashes)
    ensures SchemaOk(WithIndex(sc, t, d), hashes') && DbIndexesOk(WithIndex(sc, t, d), db', hashes')
  {
    AddedFields(sc, hashes, t, d, hashes');
    forall u, e | 0 <= u < |sc.indexes| && e in sc.indexes[u] ensures Alike(d, e) && Alike(e, d) {
      if d.hash != hashes {
        var w :| w in db && w.hash == d.hash && w.id == d.id;
        assert Alike(w, e);
      }
    }
    forall e | e in db ensures Alike(d, e) && Alike(e, d) {
      if d.hash != hashes {
        var w :| w in db && w.hash == d.hash && w.id == d.id;
        assert Alike(w, e);
      }
    }
    AddedAlike(sc, t, d);
    assert Alike(d, d);
    AddedDb(sc, db, t, d, hashes, hashes', db');
  }

  lemma AddedDb(sc: Schema, db: seq<Index>, t: nat, d: Index, hashes: nat, hashes': nat, db': seq<Index>)
    requires DbIndexesOk(sc, db, hashes) && t < |sc.indexes| && hashes <= hashes' && d.hash < hashes'
    requires db' == db || db' == db + [d]
    requires forall u, e :: 0 <= u < |sc.indexes| && e in sc.indexes[u] ==> Alike(d, e) && Alike(e, d)
    requires forall e :: e in db ==> Alike(d, e) && Alike(e, d)
    ensures DbIndexesOk(WithIndex(sc, t, d), db', hashes')
  {
    var sc' := WithIndex(sc, t, d);
    assert Alike(d, d);
    hide Alike;
    forall u, e | 0 <= u < |sc'.indexes| && e in sc'.indexes[u] ensures e == d || e in sc.indexes[u] {}
    forall e | e in db' ensures e == d || e in db {}
  }

  // ----- the database ----------------------------------------------------------------------

  class Db<V(!new, ==)> {
    var schema: Schema
    var slots: Buffers<V>           // pRecordBuff: nothing in a slot means ptTable is NULL
    var loc: seq<nat>               // uiRecordLoc
    var num: seq<nat>               // uiRecordNum
    var dbIndexes: seq<Index>       // the database-wide index list
    var hashes: seq<RecIndex<V>>    // the hash tables
    const cmp: (V, V) -> int
    const hash: V -> HashSpec.u32
    ghost var entries: seq<map<V, Entry>>  // what the hash tables hold, by the contents of their keys
    ghost var hist: seq<Ins<V>>
    ghost var birth: map<Rec, nat>

    /** The hash tables are sound for the record buffers as they are, and share no memory. */
    ghost predicate Tables()
      reads this`entries, this`hashes, this`schema, this`slots
      reads hashes, set i | i in hashes :: i.table, set i | i in hashes :: i.table.nodes
    {
      && |entries| == |hashes|
      && (forall x :: 0 <= x < |hashes| ==> Sound(x))
      && (forall x, y :: 0 <= x < y < |hashes| ==> Apart(hashes[x], hashes[y]))
    }

    ghost predicate Sound(x: nat)
      requires x < |hashes| == |entries|
      reads this`entries, this`hashes, this`schema, this`slots, hashes[x], hashes[x].table, hashes[x].table.nodes
    {
      hashes[x].Valid(schema, slots) && hashes[x].entries == entries[x] && hashes[x].hash == hash
    }

    static ghost predicate Apart(i: RecIndex<V>, j: RecIndex<V>)
      reads i, j, i.table, j.table
    {
      i != j && i.table != j.table && i.table.nodes != j.table.nodes
    }

    /** The tables hold on to no memory but their own and new arrays. */
    twostate predicate Grown()
      reads this`hashes, hashes, set i | i in hashes :: i.table
    {
      && hashes == old(hashes)
      && forall x {:trigger hashes[x]} :: 0 <= x < |hashes| ==>
        hashes[x].table.nodes == old(hashes[x].table.nodes) || fresh(hashes[x].table.nodes)
    }

    /** What no insertion or deletion changes. */
    ghost predicate Shape()
      reads this
    {
      && TotalPreorder(cmp)
      && SchemaOk(schema, |entries|)
      && |slots| == |loc| == |num| == |schema.caps|
      && (forall t :: 0 <= t < |slots| ==> |slots[t]| == schema.caps[t])
      && Total(schema.caps) < HashTable.MAX_NODES
    }

    /** The ring counters follow from the number of insertions. */
    ghost predicate Counters()
      reads this
      requires Shape()
    {
      forall t :: 0 <= t < |schema.caps| ==>
        && loc[t] == SlotOf(Count(hist, t), schema.caps[t])
        && num[t] == if Count(hist, t) < schema.caps[t] then Count(hist, t) else schema.caps[t]
    }

    ghost predicate Valid()
      reads this, hashes, set i | i in hashes :: i.table, set i | i in hashes :: i.table.nodes
    {
      && Tables() && Shape() && Counters()
      && ValidHist(schema, hist) && BirthOk(schema, hist, birth)
      && BuffersOk(schema, slots, hist, birth)
      && Filled(slots, birth)
      && IndexesOk(schema, Wants(schema, cmp, hist), slots, birth, entries)
    }

    // ----- one hash table among others ---------------------------------------------------------

    method HashLookup(x: nat, k: V) returns (list: Option<seq<Rec>>)
      requires Tables() && x < |hashes|
      ensures list == if k in entries[x] then Some(entries[x][k].list) else None
    {
      assert Sound(x);
      list := hashes[x].Lookup(k, schema, slots);
    }

    method HashReplace(x: nat, key: KeyPtr, list: seq<Rec>)
      requires Tables() && x < |hashes| && Pointee(schema, slots, key).Some? && |entries[x]| < HashTable.MAX_NODES
      modifies this`entries, hashes, set i | i in hashes :: i.table, set i | i in hashes :: i.table.nodes
      ensures Tables() && Grown()
      ensures entries == old(entries)[x := old(entries[x])[Pointee(schema, slots, key).value := Entry(key, list)]]
    {
      hide Pointee, RecIndex.Valid;
      assert Sound(x);
      hashes[x].Replace(key, list, schema, slots);
      entries := entries[x := hashes[x].entries];
      forall y | 0 <= y < |hashes| ensures Sound(y) {
        if y != x {
          assert old(Sound(y));
          assert old(Apart(hashes[x], hashes[y]) || Apart(hashes[y], hashes[x]));
        }
      }
      forall a, b | 0 <= a < b < |hashes| ensures Apart(hashes[a], hashes[b]) {
        assert old(Apart(hashes[a], hashes[b]));
        assert old(Sound(a)) && old(Sound(b));
      }
      assert Grown();
      assert Tables();
    }

    method HashRemove(x: nat, key: KeyPtr)
      requires Tables() && x < |hashes| && Pointee(schema, slots, key).Some?
      modifies this`entries, hashes, set i | i in hashes :: i.table, set i | i in hashes :: i.table.nodes
      ensures Tables() && Grown()
      ensures entries == old(entries)[x := old(entries[x]) - {Pointee(schema, slots, key).value}]
    {
      hide Pointee, RecIndex.Valid;
      assert Sound(x);
      hashes[x].Remove(key, schema, slots);
      entries := entries[x := hashes[x].entries];
      forall y | 0 <= y < |hashes| ensures Sound(y) {
        if y != x {
          assert old(Sound(y));
          assert old(Apart(hashes[x], hashes[y]) || Apart(hashes[y], hashes[x]));
        }
      }
      forall a, b | 0 <= a < b < |hashes| ensures Apart(hashes[a], hashes[b]) {
        assert old(Apart(hashes[a], hashes[b]));
        assert old(Sound(a)) && old(Sound(b));
      }
      assert Grown();
      assert Tables();
    }

    /** The record buffers change under the tables' feet. */
    method MemoryChanges(sc: Schema, buf: Buffers<V>)
      requires Tables() && forall x :: 0 <= x < |entries| ==> KeysIntact(sc, buf, entries[x])
      modifies this`schema, this`slots, set i | i in hashes :: i.table
      ensures Tables() && Grown() && schema == sc && slots == buf
    {
      hide RecIndex.Valid, KeysIntact, ContentHashing;
      forall x | 0 <= x < |hashes| ensures Changed(x, 0, sc, buf) {
        assert Sound(x);
      }
      for i := 0 to |hashes|
        invariant Others(i, sc, buf)
        invariant forall x {:trigger hashes[x]} :: 0 <= x < |hashes| ==>
          hashes[x].table.nodes == old(hashes[x].table.nodes)
        invariant forall x, y :: 0 <= x < y < |hashes| ==> Apart(hashes[x], hashes[y])
        modifies set x | x in hashes :: x.table
      {
        assert Changed(i, i, sc, buf);
        label Before:
        hashes[i].MemoryChanges(schema, slots, sc, buf, ContentHashing(hash, sc, buf));
        ghost var next := i + 1;
        forall x | 0 <= x < |hashes| ensures Changed(x, next, sc, buf) {
          assert hashes[x] != hashes[i] ==> old@Before(Changed(x, i, sc, buf));
          if x < i {
            assert Apart(hashes[x], hashes[i]);
          } else if i < x {
            assert Apart(hashes[i], hashes[x]);
          }
        }
      }
      assert forall x :: 0 <= x < |hashes| ==> Changed(x, |hashes|, sc, buf);
      label Done:
      schema, slots := sc, buf;
      forall x | 0 <= x < |hashes| ensures Sound(x) {
        assert old@Done(Changed(x, |hashes|, sc, buf));
      }
      assert Grown();
      assert Tables();
    }

    /** The first i tables see the new buffers. */
    ghost predicate Others(i: nat, sc: Schema, buf: Buffers<V>)
      reads this`entries, this`hashes, this`schema, this`slots
      reads hashes, set i | i in hashes :: i.table, set i | i in hashes :: i.table.nodes
    {
      |entries| == |hashes| && forall x :: 0 <= x < |hashes| ==> Changed(x, i, sc, buf)
    }

    ghost predicate Changed(x: nat, i: nat, sc: Schema, buf: Buffers<V>)
      requires x < |hashes| == |entries|
      reads this`entries, this`hashes, this`schema, this`slots, hashes[x], hashes[x].table, hashes[x].table.nodes
    {
      && (if x < i then hashes[x].Valid(sc, buf) else hashes[x].Valid(schema, slots))
      && hashes[x].entries == entries[x] && hashes[x].hash == hash
    }

    // ----- the kernel --------------------------------------------------------------------------

    lemma EntriesFew(w: Wanted<V>, x: nat)
      requires Shape() && AllStored(schema, slots, birth) && x < |entries|
        && IndexOk(schema, w, slots, birth, x, entries[x])
      ensures |entries[x]| < HashTable.MAX_NODES
    {
      EntriesBound(schema, w, slots, birth, x, entries[x]);
    }

    /** Add record r to one index of its table. */
    method RebuildIndexIns(d: Index, r: Rec, ghost n: nat, ghost w: Wanted<V>, ghost w': Wanted<V>)
      requires Tables() && Shape() && r.table < |schema.indexes| && d in schema.indexes[r.table]
      requires Stored(schema, slots, r) && AllStored(schema, slots, birth) && r !in birth
      requires d.hash < |entries| && IndexOk(schema, w, slots, birth, d.hash, entries[d.hash])
      requires PutOn(schema, cmp, slots, d, entries[d.hash], r, n, w, w')
      modifies this`entries, hashes, set i | i in hashes :: i.table, set i | i in hashes :: i.table.nodes
      ensures Tables() && Grown() && |entries| == |old(entries)| && entries == old(entries)[d.hash := entries[d.hash]]
      ensures IndexOk(schema, w', slots, birth[r := n], d.hash, entries[d.hash])
    {
      hide Tables, IndexOk, SchemaOk, TotalPreorder, IndexOn, SortedPosition, InsertAt, AllStored, Stored, Pointee,
        Key, Total;
      ghost var k0 := InsertPrepared(schema, |entries|, cmp, w, w', slots, birth, entries[d.hash], d, r, n);
      EntriesFew(w, d.hash);
      Lengths();
      var key := KeyPtr(r, d.keyField);
      var k := slots[r.table][r.slot].value[d.keyField];
      var found := HashLookup(d.hash, k);
      var list := if found.Some? then found.value else [];
      var sc, c, buf := schema, cmp, slots;
      if d.sortField.Some? {
        var compare := (a: Rec, b: Rec) => CompareRecs(sc, c, buf, d.sortField.value, a, b);
        list := InsertAt(list, SortedPosition(list, r, Some(compare)), r);
      } else {
        InsertLast(list, r);
        list := list + [r];
      }
      HashReplace(d.hash, key, list);
    }

    lemma Lengths()
      requires Tables()
      ensures |entries| == |hashes|
    {}

    /** Take record r off one index of its table, re-keying the entry to the last record
        left on the list, which may belong to another table. */
    method RebuildIndexDel(d: Index, r: Rec, ghost w: Wanted<V>, ghost w': Wanted<V>)
      requires Tables() && Shape() && r.table < |schema.indexes| && d in schema.indexes[r.table]
      requires Stored(schema, slots, r) && AllStored(schema, slots, birth) && r in birth && Injective(birth)
      requires d.hash < |entries| && IndexOk(schema, w, slots, birth, d.hash, entries[d.hash])
      requires forall k :: w'(d.hash, k) == Struck(w(d.hash, k), birth[r])
      modifies this`entries, hashes, set i | i in hashes :: i.table, set i | i in hashes :: i.table.nodes
      ensures Tables() && Grown() && |entries| == |old(entries)| && entries == old(entries)[d.hash := entries[d.hash]]
      ensures IndexOk(schema, w', slots, birth - {r}, d.hash, entries[d.hash])
    {
      hide Tables, IndexOk, TotalPreorder, IndexOn, Dropped, Key, SchemaOk, AllStored, NewIndex, Pointee, Stored,
        Struck, Total;
      ghost var k0 := DeletePrepared(schema, |entries|, w, w', slots, birth, entries[d.hash], d, r);
      EntriesFew(w, d.hash);
      Lengths();
      var key := KeyPtr(r, d.keyField);
      var k := slots[r.table][r.slot].value[d.keyField];
      var found := HashLookup(d.hash, k);
      assert found.Some?;  // pRecList is never NULL
      var list := found.value;
      list := Dropped(list, r);
      if |list| != 0 {
        var last := list[|list| - 1];
        var newIndex := NewIndex(schema, d, r, last).value;
        HashReplace(newIndex.hash, KeyPtr(last, newIndex.keyField), list);
      } else {
        HashRemove(d.hash, key);
      }
    }

    /** Delete a record from all indexes of its table; its fields stay in the buffer. */
    method DeleteRecord(r: Rec, ghost w: Wanted<V>, ghost w': Wanted<V>)
      requires Tables() && Shape() && r.table < |schema.indexes| && Stored(schema, slots, r)
        && AllStored(schema, slots, birth)
      requires r in birth && Injective(birth) && IndexesOk(schema, w, slots, birth, entries) && num[r.table] > 0
      requires forall x, k :: 0 <= x < |entries| ==> w'(x, k) == Struck(w(x, k), birth[r])
      modifies this`entries, this`num, this`birth, hashes, set i | i in hashes :: i.table,
        set i | i in hashes :: i.table.nodes
      ensures Tables() && Grown() && Shape() && birth == old(birth) - {r} && |entries| == |old(entries)|
      ensures num == old(num)[r.table := old(num)[r.table] - 1]
      ensures IndexesOk(schema, w', slots, birth, entries)
    {
      hide Tables, IndexOk, IndexesOk, IndexesMid, TotalPreorder, AllStored, Stored, SchemaOk, Struck, Injective, Total;
      SchemaLens(schema, |entries|);
      var idx := schema.indexes[r.table];
      ghost var birth' := birth - {r};
      AgreesWithout(birth, r, 0);
      UnlistedStay(w, w', r);
      MidStart(schema, w, w', slots, birth, birth', idx, entries);
      for i := 0 to |idx|
        invariant Tables() && Grown() && |entries| == |old(entries)|
        invariant IndexesMid(schema, w, w', slots, birth, birth', idx, i, entries)
        modifies this`entries, hashes, set i | i in hashes :: i.table, set i | i in hashes :: i.table.nodes
      {
        MidHere(schema, |entries|, w, w', slots, birth, birth', r.table, i, entries);
        ghost var hs := entries;
        RebuildIndexDel(idx[i], r, w, w');
        MidStep(schema, |entries|, w, w', slots, birth, birth', r.table, i, hs, entries[idx[i].hash]);
      }
      MidEnd(schema, w, w', slots, birth, birth', r, entries);
      birth := birth';
      num := num[r.table := num[r.table] - 1];
    }

    /** The lists of tables the record is not in do not change. */
    lemma UnlistedStay(w: Wanted<V>, w': Wanted<V>, r: Rec)
      requires r in birth && Injective(birth) && IndexesOk(schema, w, slots, birth, entries)
      requires forall x, k :: 0 <= x < |entries| ==> w'(x, k) == Struck(w(x, k), birth[r])
      ensures forall x, k :: 0 <= x < |entries| && !InIndex(schema, x, r.table) ==> w'(x, k) == w(x, k)
    {
      hide IndexOk, Struck, Injective;
      forall x, k | 0 <= x < |entries| && !InIndex(schema, x, r.table) ensures w'(x, k) == w(x, k) {
        NotOnList(schema, w, slots, birth, x, entries[x], r, k);
      }
    }

    /** Take the next slot of table t, deleting the record that is in it, and fill it. */
    method CreateRecordFromData(t: nat, fields: seq<V>) returns (r: Rec)
      requires Valid() && t < |schema.caps| && |fields| == schema.fields[t]
      modifies this`entries, this`num, this`birth, this`slots, this`schema, hashes, set i | i in hashes :: i.table,
        set i | i in hashes :: i.table.nodes
      ensures Tables() && Grown() && Shape() && r == Reused(schema, hist, t) && |entries| == |old(entries)|
      ensures schema == old(schema) && birth == old(birth) - {r}
      ensures slots == Written(old(slots), r, fields) && Stored(schema, slots, r)
      ensures |num| == |old(num)| && forall u :: 0 <= u < |num| ==>
        num[u] + (if u == t && r in old(birth) then 1 else 0) == old(num)[u]
      ensures IndexesOk(schema, Lefts(schema, cmp, hist, Ins(t, fields)), slots, birth, entries)
      ensures BuffersOk(schema, slots, hist, birth)
    {
      hide Tables, IndexesOk, TotalPreorder, BuffersOk, Stored, SchemaOk, SlotOf, Count, Written, BirthOk, Filled,
        ValidHist, Total, Wants, Lefts, Struck, Injective;
      CapsPositive(schema, |entries|, t);
      r := Rec(t, loc[t]);
      SlotFilled(slots, birth, r);
      BuffersStored(schema, slots, hist, birth);
      BirthInjective(schema, hist, birth);
      ghost var w, w' := Wants(schema, cmp, hist), Lefts(schema, cmp, hist, Ins(t, fields));
      LeftsAre(schema, cmp, hist, Ins(t, fields), birth);
      if slots[t][loc[t]].Some? {
        RingOccupied(schema, hist, birth, t);
        DeleteRecord(r, w, w');
      } else {
        SameWanted(schema, w, w', slots, birth, entries);
      }
      WrittenElsewhere(schema, slots, hist, old(birth), r, fields);
      FrameIndexes(schema, w', slots, Written(slots, r, fields), birth, entries);
      WrittenIs(slots, r, fields);
      MemoryChanges(schema, slots[t := slots[t][loc[t] := Some(fields)]]);
    }

    /** Add record r to all indexes of its table. */
    method RebuildAllIns(r: Rec, ghost ins: Ins<V>)
      requires Tables() && Shape() && r.table < |schema.indexes| && Stored(schema, slots, r)
        && AllStored(schema, slots, birth)
      requires r !in birth && BuffersOk(schema, slots, hist, birth) && ins == Ins(r.table, Content(schema, slots, r))
      requires IndexesOk(schema, Lefts(schema, cmp, hist, ins), slots, birth, entries)
      modifies this`entries, hashes, set i | i in hashes :: i.table, set i | i in hashes :: i.table.nodes
      ensures Tables() && Grown() && |entries| == |old(entries)|
      ensures IndexesOk(schema, Wants(schema, cmp, hist + [ins]), slots, birth[r := |hist|], entries)
    {
      hide Tables, IndexOk, IndexesOk, IndexesMid, TotalPreorder, AllStored, BuffersOk, Total, Wants, Lefts, PutOn,
        Stored, SchemaOk;
      SchemaLens(schema, |entries|);
      var idx := schema.indexes[r.table];
      ghost var birth' := birth[r := |hist|];
      ghost var w, w' := Lefts(schema, cmp, hist, ins), Wants(schema, cmp, hist + [ins]);
      MidStart(schema, w, w', slots, birth, birth', idx, entries);
      for i := 0 to |idx|
        invariant Tables() && Grown() && |entries| == |old(entries)|
        invariant IndexesMid(schema, w, w', slots, birth, birth', idx, i, entries)
        modifies this`entries, hashes, set i | i in hashes :: i.table, set i | i in hashes :: i.table.nodes
      {
        MidHere(schema, |entries|, w, w', slots, birth, birth', r.table, i, entries);
        ghost var hs := entries;
        PutOnIs(schema, |entries|, cmp, slots, hist, birth, idx[i], entries[idx[i].hash], r);
        RebuildIndexIns(idx[i], r, |hist|, w, w');
        MidStep(schema, |entries|, w, w', slots, birth, birth', r.table, i, hs, entries[idx[i].hash]);
      }
      AgreesWithout(birth, r, |hist|);
      forall x, k | 0 <= x < |entries| && !InIndex(schema, x, r.table) ensures w'(x, k) == w(x, k) {
        Unlisted(schema, cmp, slots, hist, r, x, k);
      }
      MidEnd(schema, w, w', slots, birth, birth', r, entries);
    }

    /** Enter a filled record into all indexes of its table and advance the ring. */
    method InsertRecord(r: Rec)
      requires Tables() && Shape() && r.table < |schema.indexes| && Stored(schema, slots, r)
        && AllStored(schema, slots, birth)
      requires r !in birth && BuffersOk(schema, slots, hist, birth)
      requires IndexesOk(schema, Lefts(schema, cmp, hist, Ins(r.table, Content(schema, slots, r))), slots, birth,
        entries)
      modifies this`entries, this`num, this`loc, this`birth, this`hist, hashes, set i | i in hashes :: i.table,
        set i | i in hashes :: i.table.nodes
      ensures Tables() && Grown() && Shape() && birth == old(birth)[r := |old(hist)|] && |entries| == |old(entries)|
      ensures hist == old(hist) + [Ins(r.table, Content(schema, slots, r))]
      ensures IndexesOk(schema, Wants(schema, cmp, hist), slots, birth, entries)
      ensures var t := r.table;
        && num == old(num)[t := if old(num)[t] + 1 > schema.caps[t] then schema.caps[t] else old(num)[t] + 1]
        && loc == old(loc)[t := (old(loc)[t] + 1) % schema.caps[t]]
    {
      hide Tables, IndexesOk, TotalPreorder, BuffersOk, Total, Wants, Lefts, Stored, SchemaOk, AllStored;
      SchemaLens(schema, |entries|);
      CapsPositive(schema, |entries|, r.table);
      ghost var ins := Ins(r.table, Content(schema, slots, r));
      RebuildAllIns(r, ins);
      var t := r.table;
      num := num[t := num[t] + 1];
      if num[t] > schema.caps[t] {
        num := num[t := schema.caps[t]];
      }
      loc := loc[t := (loc[t] + 1) % schema.caps[t]];
      birth := birth[r := |hist|];
      hist := hist + [ins];
    }

    /** kr_db_insert: one record enters the ring of table t, and every index follows. Nothing
        happens if there is no such table. */
    method Insert(t: nat, fields: seq<V>) returns (r: Option<Rec>)
      requires Valid() && (t < |schema.caps| ==> |fields| == schema.fields[t])
      modifies this, hashes, set i | i in hashes :: i.table, set i | i in hashes :: i.table.nodes
      ensures Valid() && Grown() && schema == old(schema) && dbIndexes == old(dbIndexes) && |entries| == |old(entries)|
      ensures r.Some? <==> t < |schema.caps|
      ensures r.Some? ==> hist == old(hist) + [Ins(t, fields)] && r.value in birth && birth[r.value] == |old(hist)|
      ensures r.None? ==> hist == old(hist) && birth == old(birth) && entries == old(entries) && slots == old(slots)
    {
      if t >= |schema.caps| {
        return None;
      }
      var rec := InsertInto(t, fields);
      r := Some(rec);
    }

    /** What an insertion does to the ring of its table. */
    lemma RingAfter(t: nat, fields: seq<V>)
      requires Valid() && t < |schema.caps| && |fields| == schema.fields[t]
      ensures |schema.caps| == |schema.fields| == |schema.indexes| && schema.caps[t] > 0
      ensures var ins, r := Ins(t, fields), Reused(schema, hist, t);
        && ValidHist(schema, hist + [ins]) && BirthOk(schema, hist + [ins], (birth - {r})[r := |hist|])
        && (r in birth <==> Count(hist, t) >= schema.caps[t])
        && SlotOf(Count(hist, t) + 1, schema.caps[t]) == (SlotOf(Count(hist, t), schema.caps[t]) + 1) % schema.caps[t]
      ensures forall u :: Count(hist + [Ins(t, fields)], u) == Count(hist, u) + (if t == u then 1 else 0)
    {
      hide Tables, IndexesOk, TotalPreorder, BuffersOk, SchemaOk, SlotOf, Count, BirthOk, Filled, ValidHist, Total,
        Wants;
      CapsPositive(schema, |entries|, t);
      HistGrows(schema, hist, Ins(t, fields));
      RingInsert(schema, hist, Ins(t, fields), birth);
      RingOccupied(schema, hist, birth, t);
      CountNext(hist, Ins(t, fields));
      SlotNext(Count(hist, t), schema.caps[t]);
    }

    method InsertInto(t: nat, fields: seq<V>) returns (r: Rec)
      requires Valid() && t < |schema.caps| && |fields| == schema.fields[t]
      modifies this`schema, this`slots, this`loc, this`num, this`entries, this`hist, this`birth, hashes,
        set i | i in hashes :: i.table, set i | i in hashes :: i.table.nodes
      ensures Valid() && Grown() && schema == old(schema) && |entries| == |old(entries)|
      ensures hist == old(hist) + [Ins(t, fields)]
      ensures r in birth && birth[r] == |old(hist)|
    {
      hide Tables, IndexesOk, TotalPreorder, BuffersOk, Stored, SchemaOk, SlotOf, Count, Written, BirthOk, Filled,
        ValidHist, Total, Wants, Lefts;
      RingAfter(t, fields);
      r := CreateRecordFromData(t, fields);
      SlotWritten(schema, old(slots), hist, old(birth), r, fields);
      InsertRecord(r);
    }

    /** kr_db_select: the record list of a key, if the table, the index and the list exist. */
    method Select(t: nat, indexId: int, key: V) returns (r: Option<seq<Rec>>)
      requires Valid()
      ensures t < |schema.indexes| && IndexById(schema.indexes[t], indexId).Some? ==>
        var x := IndexById(schema.indexes[t], indexId).value.hash;
        var list := if r.Some? then r.value else [];
        && (forall a :: a in list ==> a in birth)
        && Births(birth, list) == ListAfter(schema, cmp, hist, x, key)
        && (forall n :: n in Births(birth, list) <==> HistMember(schema, hist, x, key, n))
        && (SortAgrees(schema, x) ==> IsAnswer(schema, cmp, hist, x, key, Births(birth, list)))
        && (r.Some? ==> r.value != [])
      ensures !(t < |schema.indexes| && IndexById(schema.indexes[t], indexId).Some?) ==> r == None
    {
      hide Tables, IndexOk, TotalPreorder, BuffersOk, SchemaOk, BirthOk, Filled, IsAnswer, ValidHist, SortAgrees,
        HistMember, ListAfter, Total;
      if t >= |schema.indexes| {
        return None;
      }
      var ix := IndexById(schema.indexes[t], indexId);
      if ix.None? {
        return None;
      }
      HashBound(schema, |entries|, t, ix.value);
      Lengths();
      var x := ix.value.hash;
      AnswerOk(schema, cmp, slots, hist, birth, x, entries[x], key);
      ListMembers(schema, cmp, hist, x, key);
      if SortAgrees(schema, x) {
        ListAnswers(schema, |entries|, cmp, hist, x, key);
      }
      r := HashLookup(x, key);
    }

    /** kr_create_db. */
    constructor (cmp: (V, V) -> int, hash: V -> HashSpec.u32)
      requires TotalPreorder(cmp)
      ensures Valid() && schema == Schema([], [], []) && hist == [] && dbIndexes == [] && hashes == []
      ensures this.cmp == cmp && this.hash == hash
    {
      this.cmp, this.hash := cmp, hash;
      schema := Schema([], [], []);
      slots, loc, num, dbIndexes, hashes := [], [], [], [], [];
      entries, hist, birth := [], [], map[];
      new;
      hide BirthOk, BuffersOk, Filled, ValidHist, IndexesOk, TotalPreorder;
      EmptyDb(schema, cmp, slots, hist, entries);
    }

    /** Before the first insertion. */
    lemma NothingYet()
      requires Valid() && hist == []
      ensures birth == map[] && (forall t :: Count(hist, t) == 0) && Counters()
      ensures forall x :: 0 <= x < |entries| ==> entries[x] == map[]
      ensures forall t, i :: 0 <= t < |slots| && 0 <= i < |slots[t]| ==> slots[t][i].None?
    {
      hide Tables, TotalPreorder, Count, SchemaOk, BirthOk, BuffersOk, Filled, IndexesOk, ValidHist, Wants, Total;
      NothingCounted(hist);
      NothingLive(schema, hist, birth);
      EmptyIndexes(schema, Wants(schema, cmp, hist), slots, entries);
      NothingFilled(slots);
    }

    /** kr_create_table: a new ring of empty slots. */
    method CreateTable(capacity: nat, fieldCnt: nat)
      requires Valid() && hist == [] && capacity > 0 && Total(schema.caps) + capacity < HashTable.MAX_NODES
      modifies this`schema, this`slots, this`loc, this`num, set i | i in hashes :: i.table
      ensures Valid() && Grown()
      ensures DbIndexesOk(schema, old(dbIndexes), |entries|) == old(DbIndexesOk(schema, dbIndexes, |entries|))
      ensures schema == Schema(old(schema.caps) + [capacity], old(schema.fields) + [fieldCnt],
        old(schema.indexes) + [[]])
    {
      hide Tables, TotalPreorder, Count, SchemaOk, BirthOk, BuffersOk, Filled, IndexesOk, DbIndexesOk, ValidHist,
        Wants, KeysIntact, Total;
      SchemaLens(schema, |entries|);
      NothingYet();
      ghost var sc0 := schema;
      var sc := Schema(schema.caps + [capacity], schema.fields + [fieldCnt], schema.indexes + [[]]);
      TotalNext(schema.caps, capacity);
      NothingStale(sc, slots + [seq(capacity, _ => None)], entries);
      MemoryChanges(sc, slots + [seq(capacity, _ => None)]);
      loc, num := loc + [0], num + [0];
      AddedTable(sc0, schema, |entries|, dbIndexes);
      EmptyDb(schema, cmp, slots, hist, entries);
    }

    /** kr_create_index, before any insertion: a table-wide index ('S') gets a hash table of
        its own, a database-wide one ('M') shares that of its namesake if there is one. */
    method CreateIndex(t: nat, id: int, indexType: char, keyField: nat, sortField: Option<nat>)
      returns (r: Option<Index>)
      requires Valid() && DbIndexesOk(schema, dbIndexes, |entries|) && hist == [] && t < |schema.caps|
      requires keyField < schema.fields[t] && (sortField.Some? ==> sortField.value < schema.fields[t])
      requires IndexById(schema.indexes[t], id).None?
      modifies this`schema, this`slots, this`dbIndexes, this`hashes, this`entries, set i | i in hashes :: i.table
      ensures Valid() && DbIndexesOk(schema, dbIndexes, |entries|)
      ensures r.Some? <==> indexType == 'S' || indexType == 'M'
      ensures r.None? ==> schema == old(schema) && dbIndexes == old(dbIndexes) && hashes == old(hashes)
      ensures r.Some? ==>
        var shared := if indexType == 'M' then IndexById(old(dbIndexes), id) else None;
        && r.value == Index(id, indexType == 'M', keyField, sortField, if shared.Some? then shared.value.hash
          else |old(entries)|)
        && schema == WithIndex(old(schema), t, r.value)
        && dbIndexes == old(dbIndexes) + (if indexType == 'M' && shared.None? then [r.value] else [])
    {
      hide Tables, TotalPreorder, Count, SchemaOk, BirthOk, BuffersOk, Filled, IndexesOk, DbIndexesOk, ValidHist,
        Wants, KeysIntact, Total;
      SchemaLens(schema, |entries|);
      NothingYet();
      Lengths();
      ghost var sc0, hashes0, db0 := schema, |entries|, dbIndexes;
      if indexType != 'S' && indexType != 'M' {
        return None;
      }
      var ptDBIndex := if indexType == 'M' then IndexById(dbIndexes, id) else None;
      DbBound(schema, dbIndexes, |entries|);
      var x := if ptDBIndex.Some? then ptDBIndex.value.hash else |hashes|;
      var d := Index(id, indexType == 'M', keyField, sortField, x);
      NothingStale(WithIndex(schema, t, d), slots, entries);
      MemoryChanges(WithIndex(schema, t, d), slots);
      if ptDBIndex.None? {
        NewHashTable();
        if indexType == 'M' {
          dbIndexes := dbIndexes + [d];
        }
      }
      AddedIndex(sc0, hashes0, db0, t, d, |entries|, dbIndexes);
      EmptyDb(schema, cmp, slots, hist, entries);
      r := Some(d);
    }

    /** kr_hashtable_new for one more index. */
    method NewHashTable()
      requires Tables()
      modifies this`hashes, this`entries
      ensures Tables() && entries == old(entries) + [map[]] && |hashes| == |old(hashes)| + 1
    {
      hide RecIndex.Valid, ContentHashing;
      var i := new RecIndex(hash, schema, slots, ContentHashing(hash, schema, slots));
      hashes, entries := hashes + [i], entries + [map[]];
      forall x | 0 <= x < |hashes| ensures Sound(x) {
        if x < |old(hashes)| {
          assert old(Sound(x));
        }
      }
      forall x, y | 0 <= x < y < |hashes| ensures Apart(hashes[x], hashes[y]) {
        if y < |old(hashes)| {
          assert old(Apart(hashes[x], hashes[y]));
        }
      }
    }

    /** Any sequence of insertions into an indexed database, then any query: the list is the one
        the code makes of the history, it has exactly the live records with the key, and it is
        the right answer if the tables that share the index agree on the sort field. */
    method InsertAllThenSelect(inss: seq<Ins<V>>, t: nat, indexId: int, key: V) returns (r: Option<seq<Rec>>)
      requires Valid() && hist == [] && t < |schema.indexes| && IndexById(schema.indexes[t], indexId).Some?
      requires forall i :: 0 <= i < |inss| ==>
        inss[i].table < |schema.caps| && |inss[i].fields| == schema.fields[inss[i].table]
      modifies this, hashes, set i | i in hashes :: i.table, set i | i in hashes :: i.table.nodes
      ensures schema == old(schema) && hist == inss && Valid()
      ensures var x := IndexById(schema.indexes[t], indexId).value.hash;
        var list := if r.Some? then r.value else [];
        && (forall a :: a in list ==> a in birth)
        && Births(birth, list) == ListAfter(schema, cmp, inss, x, key)
        && (forall n :: n in Births(birth, list) <==> HistMember(schema, inss, x, key, n))
        && (SortAgrees(schema, x) ==> IsAnswer(schema, cmp, inss, x, key, Births(birth, list)))
        && (forall a :: a in list ==> Stored(schema, slots, a) && Content(schema, slots, a) == inss[birth[a]].fields)
    {
      hide Tables, TotalPreorder, SchemaOk, BirthOk, Filled, IndexesOk, IsAnswer, ValidHist, SortAgrees, HistMember,
        ListAfter, Total;
      for i := 0 to |inss|
        invariant Valid() && Grown() && schema == old(schema) && hist == inss[..i]
      {
        assert inss[..i + 1] == inss[..i] + [inss[i]];
        var _ := Insert(inss[i].table, inss[i].fields);
      }
      assert inss[..|inss|] == inss;
      r := Select(t, indexId, key);
    }
  }
}
