/** The insertions into a database, told from the history alone: which records are live, which
    list the index code makes of them, and when that list is the right answer to a query. */
module KrdbHistory {
  import opened Options
  import opened LinkedList
  import opened KrdbSpec

  /** One call of kr_db_insert. */
  datatype Ins<V> = Ins(table: nat, fields: seq<V>)

  // ----- the ring ------------------------------------------------------------------------

  /** How many of the insertions went to table t. */
  ghost function Count<V>(hist: seq<Ins<V>>, t: nat): nat {
    if hist == [] then 0 else Count(hist[..|hist| - 1], t) + (if hist[|hist| - 1].table == t then 1 else 0)
  }

  /** The number of insertion n among those of its own table. */
  ghost function Seqno<V>(hist: seq<Ins<V>>, n: nat): nat
    requires n < |hist|
  {
    Count(hist[..n], hist[n].table)
  }

  /** A ring of capacity c keeps the last c insertions of its table. */
  ghost predicate Alive<V>(sc: Schema, hist: seq<Ins<V>>, n: nat) {
    && n < |hist| && hist[n].table < |sc.caps| && sc.caps[hist[n].table] > 0
    && Count(hist, hist[n].table) - Seqno(hist, n) <= sc.caps[hist[n].table]
  }

  /** The slot of a table's q-th insertion: the location counter wraps around at c. */
  ghost function SlotOf(q: nat, c: nat): (r: nat)
    requires c > 0
    ensures r < c
  {
    if q < c then q else SlotOf(q - c, c)
  }

  ghost function RecAt<V>(sc: Schema, hist: seq<Ins<V>>, n: nat): Rec
    requires Alive(sc, hist, n)
  {
    Rec(hist[n].table, SlotOf(Seqno(hist, n), sc.caps[hist[n].table]))
  }

  /** birth maps exactly the live records to the insertions that made them. */
  ghost predicate BirthOk<V>(sc: Schema, hist: seq<Ins<V>>, birth: map<Rec, nat>) {
    && (forall n :: Alive(sc, hist, n) ==> RecAt(sc, hist, n) in birth && birth[RecAt(sc, hist, n)] == n)
    && (forall r :: r in birth ==> Alive(sc, hist, birth[r]) && RecAt(sc, hist, birth[r]) == r)
  }

  lemma {:induction false} SlotDistinct(q: nat, p: nat, c: nat)
    requires c > 0 && q < p
    ensures p - q < c ==> SlotOf(q, c) != SlotOf(p, c)
    ensures p - q == c ==> SlotOf(q, c) == SlotOf(p, c)
    decreases p
  {
    if q >= c { SlotDistinct(q - c, p - c, c); }
  }

  lemma {:induction false} SlotNext(q: nat, c: nat)
    requires c > 0
    ensures SlotOf(q + 1, c) == (SlotOf(q, c) + 1) % c
    decreases q
  {
    if q >= c { SlotNext(q - c, c); }
  }

  lemma CountMonotone<V>(hist: seq<Ins<V>>, n: nat, t: nat)
    requires n <= |hist|
    ensures Count(hist[..n], t) <= Count(hist, t)
    ensures n < |hist| && hist[n].table == t ==> Count(hist[..n], t) < Count(hist, t)
    decreases |hist|
  {
    if n < |hist| {
      var prefix := hist[..|hist| - 1];
      if n < |prefix| {
        CountMonotone(prefix, n, t);
      }
      assert prefix[..n] == hist[..n];
    } else {
      assert hist[..n] == hist;
    }
  }

  lemma SeqnoAppend<V>(hist: seq<Ins<V>>, ins: Ins<V>, n: nat)
    requires n < |hist|
    ensures Seqno(hist + [ins], n) == Seqno(hist, n) < Count(hist, hist[n].table)
    ensures Count(hist + [ins], hist[n].table) == Count(hist, hist[n].table) +
      (if ins.table == hist[n].table then 1 else 0)
  {
    assert (hist + [ins])[..n] == hist[..n];
    assert (hist + [ins])[..|hist|] == hist;
    CountMonotone(hist, n, hist[n].table);
  }

  lemma StaysAlive<V>(sc: Schema, hist: seq<Ins<V>>, ins: Ins<V>, n: nat)
    requires ins.table < |sc.caps| && sc.caps[ins.table] > 0 && n < |hist|
    ensures var r := Rec(ins.table, SlotOf(Count(hist, ins.table), sc.caps[ins.table]));
      && (Alive(sc, hist + [ins], n) <==> Alive(sc, hist, n) && RecAt(sc, hist, n) != r)
      && (Alive(sc, hist + [ins], n) ==> RecAt(sc, hist + [ins], n) == RecAt(sc, hist, n))
  {
    hide SlotOf, Count;
    SeqnoAppend(hist, ins, n);
    if hist[n].table == ins.table {
      SlotDistinct(Seqno(hist, n), Count(hist, ins.table), sc.caps[ins.table]);
    }
  }

  lemma NewAlive<V>(sc: Schema, hist: seq<Ins<V>>, ins: Ins<V>)
    requires ins.table < |sc.caps| && sc.caps[ins.table] > 0
    ensures Alive(sc, hist + [ins], |hist|)
    ensures RecAt(sc, hist + [ins], |hist|) == Rec(ins.table, SlotOf(Count(hist, ins.table), sc.caps[ins.table]))
  {
    assert (hist + [ins])[..|hist|] == hist;
  }

  /** The record in the slot a new insertion reuses. */
  ghost function Reused<V>(sc: Schema, hist: seq<Ins<V>>, t: nat): Rec
    requires t < |sc.caps| && sc.caps[t] > 0
  {
    Rec(t, SlotOf(Count(hist, t), sc.caps[t]))
  }

  lemma RingForward<V>(sc: Schema, hist: seq<Ins<V>>, ins: Ins<V>, birth: map<Rec, nat>, n: nat)
    requires ins.table < |sc.caps| && sc.caps[ins.table] > 0
    requires n < |hist| && Alive(sc, hist, n) ==> RecAt(sc, hist, n) in birth && birth[RecAt(sc, hist, n)] == n
    requires Alive(sc, hist + [ins], n)
    ensures var birth' := (birth - {Reused(sc, hist, ins.table)})[Reused(sc, hist, ins.table) := |hist|];
      RecAt(sc, hist + [ins], n) in birth' && birth'[RecAt(sc, hist + [ins], n)] == n
  {
    NewAlive(sc, hist, ins);
    hide RecAt, SlotOf, Count;
    if n < |hist| {
      StaysAlive(sc, hist, ins, n);
    }
  }

  lemma RingBackward<V>(sc: Schema, hist: seq<Ins<V>>, ins: Ins<V>, birth: map<Rec, nat>, a: Rec)
    requires ins.table < |sc.caps| && sc.caps[ins.table] > 0
    requires a in birth ==> Alive(sc, hist, birth[a]) && RecAt(sc, hist, birth[a]) == a
    requires a in birth || a == Reused(sc, hist, ins.table)
    ensures var birth' := (birth - {Reused(sc, hist, ins.table)})[Reused(sc, hist, ins.table) := |hist|];
      Alive(sc, hist + [ins], birth'[a]) && RecAt(sc, hist + [ins], birth'[a]) == a
  {
    NewAlive(sc, hist, ins);
    hide RecAt, SlotOf, Count;
    if a != Reused(sc, hist, ins.table) {
      StaysAlive(sc, hist, ins, birth[a]);
    }
  }

  /** One insertion: the record in the slot it reuses dies, nothing else does. */
  lemma RingInsert<V>(sc: Schema, hist: seq<Ins<V>>, ins: Ins<V>, birth: map<Rec, nat>)
    requires BirthOk(sc, hist, birth) && ins.table < |sc.caps| && sc.caps[ins.table] > 0
    ensures BirthOk(sc, hist + [ins], (birth - {Reused(sc, hist, ins.table)})[Reused(sc, hist, ins.table) := |hist|])
  {
    hide Alive, RecAt, Reused;
    var birth' := (birth - {Reused(sc, hist, ins.table)})[Reused(sc, hist, ins.table) := |hist|];
    forall n | Alive(sc, hist + [ins], n)
      ensures RecAt(sc, hist + [ins], n) in birth' && birth'[RecAt(sc, hist + [ins], n)] == n
    {
      RingForward(sc, hist, ins, birth, n);
    }
    forall a | a in birth'
      ensures Alive(sc, hist + [ins], birth'[a]) && RecAt(sc, hist + [ins], birth'[a]) == a
    {
      RingBackward(sc, hist, ins, birth, a);
    }
  }

  /** The slot about to be reused holds a live record exactly when the ring is full. */
  lemma RingOccupied<V>(sc: Schema, hist: seq<Ins<V>>, birth: map<Rec, nat>, t: nat)
    requires BirthOk(sc, hist, birth) && t < |sc.caps| && sc.caps[t] > 0
    ensures Reused(sc, hist, t) in birth <==> Count(hist, t) >= sc.caps[t]
  {
    var c := sc.caps[t];
    var r := Reused(sc, hist, t);
    if Count(hist, t) >= c {
      var n := NthInsertion(hist, t, Count(hist, t) - c);
      SlotDistinct(Seqno(hist, n), Count(hist, t), c);
      assert Alive(sc, hist, n) && RecAt(sc, hist, n) == r;
    }
    if r in birth {
      var n := birth[r];
      CountMonotone(hist, n, t);
      SlotDistinct(Seqno(hist, n), Count(hist, t), c);
    }
  }

  lemma NthInsertion<V>(hist: seq<Ins<V>>, t: nat, q: nat) returns (n: nat)
    requires q < Count(hist, t)
    ensures n < |hist| && hist[n].table == t && Seqno(hist, n) == q
  {
    var last := |hist| - 1;
    if hist[last].table == t && Count(hist[..last], t) == q {
      n := last;
    } else {
      n := NthInsertion(hist[..last], t, q);
      assert hist[..last][..n] == hist[..n];
    }
  }

  // ----- queries over the history ----------------------------------------------------------

  /** Insertion n is still in its ring and has key k in the indexes on x. */
  ghost predicate HistMember<V>(sc: Schema, hist: seq<Ins<V>>, x: nat, k: V, n: nat) {
    && Alive(sc, hist, n) && InIndex(sc, x, hist[n].table)
    && KeyField(sc, x, hist[n].table) < |hist[n].fields| && hist[n].fields[KeyField(sc, x, hist[n].table)] == k
  }

  ghost function HistSortValue<V>(sc: Schema, hist: seq<Ins<V>>, x: nat, n: nat): Option<V> {
    if n < |hist| && InIndex(sc, x, hist[n].table) then
      var d := IndexOn(sc.indexes[hist[n].table], x).value;
      if d.sortField.Some? && d.sortField.value < |hist[n].fields|
      then Some(hist[n].fields[d.sortField.value])
      else None
    else None
  }

  ghost predicate HistBefore<V(!new)>(sc: Schema, cmp: (V, V) -> int, hist: seq<Ins<V>>, x: nat, m: nat, n: nat) {
    var c := CompareValues(cmp, HistSortValue(sc, hist, x, m), HistSortValue(sc, hist, x, n));
    c < 0 || (c == 0 && m < n)
  }

  /** The right answer to a query, told from the insertions alone: all insertions still in
      their rings with key k, once each, by sort value and then by age. */
  ghost predicate IsAnswer<V(!new)>(sc: Schema, cmp: (V, V) -> int, hist: seq<Ins<V>>, x: nat, k: V, ns: seq<nat>) {
    && (forall i, j :: 0 <= i < j < |ns| ==> HistBefore(sc, cmp, hist, x, ns[i], ns[j]))
    && (forall n :: n in ns <==> HistMember(sc, hist, x, k, n))
  }

  /** There is only one right answer: query results are determined by the history. */
  lemma AnswerUnique<V(!new)>(sc: Schema, cmp: (V, V) -> int, hist: seq<Ins<V>>, x: nat, k: V, ns: seq<nat>,
      ns': seq<nat>)
    requires TotalPreorder(cmp)
    requires IsAnswer(sc, cmp, hist, x, k, ns) && IsAnswer(sc, cmp, hist, x, k, ns')
    ensures ns == ns'
  {
    var less := (m: nat, n: nat) => HistBefore(sc, cmp, hist, x, m, n);
    forall m, n | less(m, n) ensures !less(n, m) {
      var u, v := HistSortValue(sc, hist, x, m), HistSortValue(sc, hist, x, n);
      if u.Some? && v.Some? {
        PreorderLaws(cmp, u.value, v.value, u.value);
      }
    }
    OrderedUnique(less, ns, ns');
  }

  /** What is first in the right answer is no larger in its sort field, and older if it is no smaller;
      without a sort field it is older. */
  lemma AnswerInOrder<V(!new)>(sc: Schema, hashes: nat, cmp: (V, V) -> int, hist: seq<Ins<V>>, x: nat, k: V,
      ns: seq<nat>, i: nat, j: nat, d: Index, e: Index)
    requires SchemaOk(sc, hashes) && ValidHist(sc, hist) && IsAnswer(sc, cmp, hist, x, k, ns) && i < j < |ns|
    requires ns[i] < |hist| && ns[j] < |hist|
    requires d in sc.indexes[hist[ns[i]].table] && d.hash == x && e in sc.indexes[hist[ns[j]].table] && e.hash == x
    ensures d.sortField.Some? && e.sortField.Some? ==>
      d.sortField.value < |hist[ns[i]].fields| && e.sortField.value < |hist[ns[j]].fields| &&
      var c := cmp(hist[ns[i]].fields[d.sortField.value], hist[ns[j]].fields[e.sortField.value]);
      c <= 0 && (c == 0 ==> ns[i] < ns[j])
    ensures d.sortField.None? || e.sortField.None? ==> ns[i] < ns[j]
  {
    OnlyIndexOn(sc, hashes, hist[ns[i]].table, d);
    OnlyIndexOn(sc, hashes, hist[ns[j]].table, e);
    assert HistBefore(sc, cmp, hist, x, ns[i], ns[j]);
    hide IsAnswer;
  }

  // ----- the lists the code makes ----------------------------------------------------------

  /** Every insertion went to a table of the schema, with all its fields. */
  ghost predicate ValidHist<V(!new)>(sc: Schema, hist: seq<Ins<V>>) {
    forall n :: 0 <= n < |hist| ==>
      && hist[n].table < |sc.caps| == |sc.fields| && sc.caps[hist[n].table] > 0
      && |hist[n].fields| == sc.fields[hist[n].table]
  }

  /** Field f of insertion n. */
  ghost function FieldOf<V>(hist: seq<Ins<V>>, n: nat, f: nat): Option<V> {
    if n < |hist| && f < |hist[n].fields| then Some(hist[n].fields[f]) else None
  }

  /** The key of insertion n in the indexes on x. */
  ghost function HistKey<V>(sc: Schema, hist: seq<Ins<V>>, x: nat, n: nat): Option<V> {
    if n < |hist| && InIndex(sc, x, hist[n].table) then FieldOf(hist, n, KeyField(sc, x, hist[n].table)) else None
  }

  /** The sort field of the index of table t on x. */
  ghost function SortFieldOf(sc: Schema, x: nat, t: nat): Option<nat> {
    if InIndex(sc, x, t) then IndexOn(sc.indexes[t], x).value.sortField else None
  }

  /** The list without the record whose slot has been reused. */
  ghost function Overwritten<V>(sc: Schema, hist: seq<Ins<V>>, list: seq<nat>): seq<nat> {
    var p := FirstIndex(list, (m: nat) => !Alive(sc, hist, m));
    if p < |list| then RemoveAt(list, p) else list
  }

  /** Where the newest insertion goes on its list. The sort field is that of its own table's
      index, for the records of all tables. */
  ghost function NewPosition<V(!new)>(sc: Schema, cmp: (V, V) -> int, hist: seq<Ins<V>>, x: nat,
      list: seq<nat>): (p: nat)
    requires hist != []
    ensures p <= |list|
  {
    var n := |hist| - 1;
    var f := SortFieldOf(sc, x, hist[n].table);
    if f.Some?
    then SortedPosition<nat>(list, n,
      Some((a: nat, b: nat) => CompareValues(cmp, FieldOf(hist, a, f.value), FieldOf(hist, b, f.value))))
    else |list|
  }

  /** The list of key k in the indexes on x, after all insertions. */
  ghost function ListAfter<V(!new)>(sc: Schema, cmp: (V, V) -> int, hist: seq<Ins<V>>, x: nat, k: V): seq<nat> {
    if hist == [] then []
    else Placed(sc, cmp, hist, x, k, Overwritten(sc, hist, ListAfter(sc, cmp, hist[..|hist| - 1], x, k)))
  }

  /** The newest insertion is put on the list if k is its key. */
  ghost function Placed<V(!new)>(sc: Schema, cmp: (V, V) -> int, hist: seq<Ins<V>>, x: nat, k: V,
      left: seq<nat>): seq<nat>
    requires hist != []
  {
    var n := |hist| - 1;
    if HistKey(sc, hist, x, n) == Some(k) then InsertAt(left, NewPosition(sc, cmp, hist, x, left), n) else left
  }

  /** No comparison on the way has looked for a field that a record does not have. */
  ghost predicate ComparesInside<V(!new)>(sc: Schema, cmp: (V, V) -> int, hist: seq<Ins<V>>, x: nat, k: V) {
    hist != [] ==>
      && ComparesInside(sc, cmp, hist[..|hist| - 1], x, k)
      && LooksInside(sc, cmp, hist, x, k, Overwritten(sc, hist, ListAfter(sc, cmp, hist[..|hist| - 1], x, k)))
  }

  /** The walk from the tail compares with every record down to the one it stops at. */
  ghost predicate LooksInside<V(!new)>(sc: Schema, cmp: (V, V) -> int, hist: seq<Ins<V>>, x: nat, k: V, left: seq<nat>)
    requires hist != []
  {
    var n := |hist| - 1;
    var f := SortFieldOf(sc, x, hist[n].table);
    HistKey(sc, hist, x, n) == Some(k) && f.Some? ==>
      forall j {:trigger left[j]} :: 0 <= j < |left| && NewPosition(sc, cmp, hist, x, left) <= j + 1 ==>
        FieldOf(hist, left[j], f.value).Some?
  }

  // ----- members ---------------------------------------------------------------------------

  lemma SeqnoIncreases<V>(hist: seq<Ins<V>>, m: nat, n: nat)
    requires m < n < |hist| && hist[m].table == hist[n].table
    ensures Seqno(hist, m) < Seqno(hist, n)
  {
    CountMonotone(hist[..n], m, hist[m].table);
    assert hist[..n][..m] == hist[..m];
  }

  /** Two live insertions are never in the same slot. */
  lemma AliveInjective<V>(sc: Schema, hist: seq<Ins<V>>, m: nat, n: nat)
    requires Alive(sc, hist, m) && Alive(sc, hist, n) && RecAt(sc, hist, m) == RecAt(sc, hist, n)
    ensures m == n
  {
    hide Count, SlotOf;
    var t := hist[m].table;
    CountMonotone(hist, m, t);
    CountMonotone(hist, n, t);
    if m < n {
      SeqnoIncreases(hist, m, n);
      SlotDistinct(Seqno(hist, m), Seqno(hist, n), sc.caps[t]);
    } else if n < m {
      SeqnoIncreases(hist, n, m);
      SlotDistinct(Seqno(hist, n), Seqno(hist, m), sc.caps[t]);
    }
  }

  /** At most one member of a list loses its slot, and only that one is taken off. */
  lemma OverwrittenMembers<V>(sc: Schema, hist: seq<Ins<V>>, ins: Ins<V>, list: seq<nat>)
    requires ins.table < |sc.caps| && sc.caps[ins.table] > 0
    requires Distinct(list) && forall m :: m in list ==> Alive(sc, hist, m)
    ensures var left := Overwritten(sc, hist + [ins], list);
      Distinct(left) && forall m :: m in left <==> m in list && Alive(sc, hist + [ins], m)
  {
    var hist' := hist + [ins];
    var p := FirstIndex(list, (m: nat) => !Alive(sc, hist', m));
    forall m | m in list ensures m < |hist| {}
    if p < |list| {
      forall i | 0 <= i < |list| && i != p ensures Alive(sc, hist', list[i]) {
        assert list[p] in list && list[i] in list && list[i] != list[p];
        StaysAlive(sc, hist, ins, list[p]);
        StaysAlive(sc, hist, ins, list[i]);
        if !Alive(sc, hist', list[i]) {
          AliveInjective(sc, hist, list[p], list[i]);
        }
      }
      hide Alive, FirstIndex;
      forall m ensures m in RemoveAt(list, p) <==> m in list && Alive(sc, hist', m) {
        RemoveMembers(list, p, m);
      }
    } else {
      hide Alive;
      forall m | m in list ensures Alive(sc, hist', m) {
        var i :| 0 <= i < |list| && list[i] == m;
      }
    }
  }

  lemma KeyGrows<V>(sc: Schema, hist: seq<Ins<V>>, ins: Ins<V>, x: nat, n: nat)
    requires n < |hist|
    ensures HistKey(sc, hist + [ins], x, n) == HistKey(sc, hist, x, n)
    ensures HistSortValue(sc, hist + [ins], x, n) == HistSortValue(sc, hist, x, n)
  {}

  lemma MemberKey<V>(sc: Schema, hist: seq<Ins<V>>, x: nat, k: V, n: nat)
    ensures HistMember(sc, hist, x, k, n) <==> Alive(sc, hist, n) && HistKey(sc, hist, x, n) == Some(k)
  {
    hide Count;
  }

  lemma MemberGrows<V>(sc: Schema, hist: seq<Ins<V>>, ins: Ins<V>, x: nat, k: V, m: nat)
    requires ins.table < |sc.caps| && sc.caps[ins.table] > 0 && m < |hist|
    ensures HistMember(sc, hist + [ins], x, k, m) <==> HistMember(sc, hist, x, k, m) && Alive(sc, hist + [ins], m)
  {
    hide Alive;
    MemberKey(sc, hist + [ins], x, k, m);
    MemberKey(sc, hist, x, k, m);
    KeyGrows(sc, hist, ins, x, m);
    StaysAlive(sc, hist, ins, m);
  }

  /** Whatever the sort fields: the list of a key has all live insertions with that key, once each. */
  lemma {:induction false} ListMembers<V(!new)>(sc: Schema, cmp: (V, V) -> int, hist: seq<Ins<V>>, x: nat, k: V)
    requires ValidHist(sc, hist)
    ensures Distinct(ListAfter(sc, cmp, hist, x, k))
    ensures forall n :: n in ListAfter(sc, cmp, hist, x, k) <==> HistMember(sc, hist, x, k, n)
  {
    if hist != [] {
      var prefix, ins, n := hist[..|hist| - 1], hist[|hist| - 1], |hist| - 1;
      assert hist == prefix + [ins];
      ListMembers(sc, cmp, prefix, x, k);
      var list := ListAfter(sc, cmp, prefix, x, k);
      OverwrittenMembers(sc, prefix, ins, list);
      var left := Overwritten(sc, hist, list);
      AllInside(sc, prefix, list);
      MembersStep(sc, cmp, prefix, ins, x, k, list, left);
    }
  }

  lemma AllInside<V>(sc: Schema, hist: seq<Ins<V>>, list: seq<nat>)
    requires forall m :: m in list ==> Alive(sc, hist, m)
    ensures forall m :: m in list ==> m < |hist|
  {}

  lemma MembersStep<V(!new)>(sc: Schema, cmp: (V, V) -> int, hist: seq<Ins<V>>, ins: Ins<V>, x: nat, k: V,
      list: seq<nat>, left: seq<nat>)
    requires ins.table < |sc.caps| && sc.caps[ins.table] > 0 && Distinct(left)
    requires forall m :: m in list ==> m < |hist|
    requires forall m :: m in list <==> HistMember(sc, hist, x, k, m)
    requires forall m :: m in left <==> m in list && Alive(sc, hist + [ins], m)
    ensures Distinct(Placed(sc, cmp, hist + [ins], x, k, left))
    ensures forall m: nat :: m in Placed(sc, cmp, hist + [ins], x, k, left) <==> HistMember(sc, hist + [ins], x, k, m)
  {
    var hist', n := hist + [ins], |hist|;
    NewAlive(sc, hist, ins);
    hide Alive, HistKey, NewPosition, HistMember, Distinct;
    var p := NewPosition(sc, cmp, hist', x, left);
    DistinctInsert(left, p, n);
    forall m: nat ensures m in Placed(sc, cmp, hist', x, k, left) <==> HistMember(sc, hist', x, k, m) {
      InsertMembers(left, p, n, m);
      MemberKey(sc, hist', x, k, m);
      AliveInside(sc, hist', m);
      if m < n { MemberGrows(sc, hist, ins, x, k, m); }
    }
  }

  lemma AliveInside<V>(sc: Schema, hist: seq<Ins<V>>, m: nat)
    ensures Alive(sc, hist, m) ==> m < |hist|
  {}

  lemma DistinctInsert<T>(s: seq<T>, p: nat, x: T)
    requires Distinct(s) && x !in s && p <= |s|
    ensures Distinct(InsertAt(s, p, x))
  {}
}
