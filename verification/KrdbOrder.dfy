/** When the lists of a database-wide index are sorted: exactly if the tables that share it
    agree on the sort field, or the sort field is everywhere the key itself. */
module KrdbOrder {
  import opened Options
  import opened LinkedList
  import opened KrdbSpec
  import opened KrdbHistory

  /** The indexes of two tables on x sort by the same field; or one of them sorts by its key,
      the other does not sort, and their keys are the same field. */
  predicate SortAlike(sc: Schema, x: nat, t: nat, u: nat)
    requires InIndex(sc, x, t) && InIndex(sc, x, u)
  {
    SortSame(IndexOn(sc.indexes[t], x).value, IndexOn(sc.indexes[u], x).value)
  }

  predicate SortSame(d: Index, e: Index) {
    || d.sortField == e.sortField
    || (d.keyField == e.keyField && SortsByKey(d) && SortsByKey(e))
  }

  predicate SortsByKey(d: Index) {
    d.sortField.None? || d.sortField == Some(d.keyField)
  }

  ghost predicate SortAgrees(sc: Schema, x: nat) {
    forall t, u :: InIndex(sc, x, t) && InIndex(sc, x, u) ==> SortAlike(sc, x, t, u)
  }

  // ----- agreement keeps the lists sorted ----------------------------------------------------

  ghost function Order<V(!new)>(sc: Schema, cmp: (V, V) -> int, hist: seq<Ins<V>>, x: nat, m: nat, n: nat): int {
    CompareValues(cmp, HistSortValue(sc, hist, x, m), HistSortValue(sc, hist, x, n))
  }

  ghost predicate Sorted<V(!new)>(sc: Schema, cmp: (V, V) -> int, hist: seq<Ins<V>>, x: nat, list: seq<nat>) {
    forall i, j :: 0 <= i < j < |list| ==> HistBefore(sc, cmp, hist, x, list[i], list[j])
  }

  /** Comparing by the newer record's sort field is comparing the records' own sort values. */
  lemma ComparesOwn<V(!new)>(sc: Schema, hashes: nat, cmp: (V, V) -> int, hist: seq<Ins<V>>, x: nat, k: V, n: nat,
      m: nat)
    requires SchemaOk(sc, hashes) && SortAgrees(sc, x) && TotalPreorder(cmp) && ValidHist(sc, hist)
    requires HistKey(sc, hist, x, n) == Some(k) && HistKey(sc, hist, x, m) == Some(k)
    ensures var f := SortFieldOf(sc, x, hist[n].table);
      if f.Some? then
        && FieldOf(hist, m, f.value).Some?
        && Order(sc, cmp, hist, x, n, m) == CompareValues(cmp, FieldOf(hist, n, f.value), FieldOf(hist, m, f.value))
        && Order(sc, cmp, hist, x, m, n) == CompareValues(cmp, FieldOf(hist, m, f.value), FieldOf(hist, n, f.value))
      else Order(sc, cmp, hist, x, n, m) == Order(sc, cmp, hist, x, m, n) == 0
  {
    FoundById(sc, hashes, hist[n].table, x);
    FoundById(sc, hashes, hist[m].table, x);
    assert SortAlike(sc, x, hist[n].table, hist[m].table);
    PreorderLaws(cmp, k, k, k);
  }

  lemma OrderLaws<V(!new)>(sc: Schema, cmp: (V, V) -> int, hist: seq<Ins<V>>, x: nat, m: nat, n: nat)
    requires TotalPreorder(cmp)
    ensures Order(sc, cmp, hist, x, m, n) <= 0 <==> Order(sc, cmp, hist, x, n, m) >= 0
    ensures Order(sc, cmp, hist, x, m, n) < 0 <==> Order(sc, cmp, hist, x, n, m) > 0
  {
    var u, v := HistSortValue(sc, hist, x, m), HistSortValue(sc, hist, x, n);
    if u.Some? && v.Some? {
      PreorderLaws(cmp, u.value, v.value, u.value);
      PreorderLaws(cmp, v.value, u.value, v.value);
    }
  }

  /** Among records with one key the order is transitive. */
  lemma OrderTransitive<V(!new)>(sc: Schema, hashes: nat, cmp: (V, V) -> int, hist: seq<Ins<V>>, x: nat, k: V,
      a: nat, b: nat, c: nat)
    requires SchemaOk(sc, hashes) && SortAgrees(sc, x) && TotalPreorder(cmp) && ValidHist(sc, hist)
    requires HistKey(sc, hist, x, a) == Some(k) && HistKey(sc, hist, x, b) == Some(k)
      && HistKey(sc, hist, x, c) == Some(k)
    requires Order(sc, cmp, hist, x, a, b) <= 0 && Order(sc, cmp, hist, x, b, c) <= 0
    ensures Order(sc, cmp, hist, x, a, c) <= 0
  {
    var u, v, w := HistSortValue(sc, hist, x, a), HistSortValue(sc, hist, x, b), HistSortValue(sc, hist, x, c);
    if u.Some? && v.Some? && w.Some? {
      PreorderLaws(cmp, u.value, v.value, w.value);
    } else if u.Some? && w.Some? {
      UnsortedInMiddle(sc, hashes, hist, x, k, a, b);
      UnsortedInMiddle(sc, hashes, hist, x, k, c, b);
      PreorderLaws(cmp, k, k, k);
    }
  }

  lemma UnsortedInMiddle<V(!new)>(sc: Schema, hashes: nat, hist: seq<Ins<V>>, x: nat, k: V, a: nat, b: nat)
    requires SchemaOk(sc, hashes) && SortAgrees(sc, x) && ValidHist(sc, hist)
    requires HistKey(sc, hist, x, a) == Some(k) && HistKey(sc, hist, x, b) == Some(k)
    requires HistSortValue(sc, hist, x, a).Some? && HistSortValue(sc, hist, x, b).None?
    ensures HistSortValue(sc, hist, x, a) == Some(k)
  {
    FoundById(sc, hashes, hist[a].table, x);
    FoundById(sc, hashes, hist[b].table, x);
    assert SortAlike(sc, x, hist[a].table, hist[b].table);
  }

  /** The newest record comes after everything before its position and before the rest. */
  lemma NewestInOrder<V(!new)>(sc: Schema, hashes: nat, cmp: (V, V) -> int, hist: seq<Ins<V>>, x: nat, k: V,
      list: seq<nat>)
    requires SchemaOk(sc, hashes) && SortAgrees(sc, x) && TotalPreorder(cmp) && ValidHist(sc, hist) && hist != []
    requires Sorted(sc, cmp, hist, x, list) && HistKey(sc, hist, x, |hist| - 1) == Some(k)
    requires forall i {:trigger list[i]} :: 0 <= i < |list| ==>
      list[i] < |hist| - 1 && HistKey(sc, hist, x, list[i]) == Some(k)
    ensures forall i :: 0 <= i < |list| ==> Comes(sc, cmp, hist, x, list, i)
    ensures LooksInside(sc, cmp, hist, x, k, list)
  {
    hide *;
    forall i | 0 <= i < |list|
      ensures Comes(sc, cmp, hist, x, list, i)
      ensures var f := SortFieldOf(sc, x, hist[|hist| - 1].table); f.Some? ==> FieldOf(hist, list[i], f.value).Some?
    {
      PositionBound(sc, cmp, hist, x, list);
      var p := NewPosition(sc, cmp, hist, x, list);
      if i + 1 < p { SortedAt(sc, cmp, hist, x, list, i, p - 1); }
      NewestAt(sc, hashes, cmp, hist, x, k, list, i, if i < p then list[p - 1] else list[i]);
    }
    LooksAt(sc, cmp, hist, x, k, list);
  }

  /** Element i of the list is on the right side of the newest record. */
  ghost predicate Comes<V(!new)>(sc: Schema, cmp: (V, V) -> int, hist: seq<Ins<V>>, x: nat, list: seq<nat>, i: nat)
    requires i < |list| && hist != []
  {
    if i < NewPosition(sc, cmp, hist, x, list)
    then HistBefore(sc, cmp, hist, x, list[i], |hist| - 1)
    else HistBefore(sc, cmp, hist, x, |hist| - 1, list[i])
  }

  lemma PositionBound<V(!new)>(sc: Schema, cmp: (V, V) -> int, hist: seq<Ins<V>>, x: nat, list: seq<nat>)
    requires hist != []
    ensures 0 <= NewPosition(sc, cmp, hist, x, list) <= |list|
  {}

  lemma NewestAt<V(!new)>(sc: Schema, hashes: nat, cmp: (V, V) -> int, hist: seq<Ins<V>>, x: nat, k: V,
      list: seq<nat>, i: nat, last: nat)
    requires SchemaOk(sc, hashes) && SortAgrees(sc, x) && TotalPreorder(cmp) && ValidHist(sc, hist) && hist != []
    requires HistKey(sc, hist, x, |hist| - 1) == Some(k) && i < |list|
    requires list[i] < |hist| - 1 && HistKey(sc, hist, x, list[i]) == Some(k) && HistKey(sc, hist, x, last) == Some(k)
    requires NewPosition(sc, cmp, hist, x, list) <= |list|
    requires i < NewPosition(sc, cmp, hist, x, list) ==> last == list[NewPosition(sc, cmp, hist, x, list) - 1]
    requires i + 1 < NewPosition(sc, cmp, hist, x, list) ==> HistBefore(sc, cmp, hist, x, list[i], last)
    ensures Comes(sc, cmp, hist, x, list, i)
    ensures var f := SortFieldOf(sc, x, hist[|hist| - 1].table); f.Some? ==> FieldOf(hist, list[i], f.value).Some?
  {
    hide SchemaOk, SortAgrees, TotalPreorder, HistKey, HistSortValue, ValidHist, NewPosition, SortFieldOf, FieldOf,
      CompareValues, Order, HistBefore;
    var n, p, m := |hist| - 1, NewPosition(sc, cmp, hist, x, list), list[i];
    NewPositionAt(sc, cmp, hist, x, list, i);
    ComparesOwn(sc, hashes, cmp, hist, x, k, n, m);
    ComparesOwn(sc, hashes, cmp, hist, x, k, n, last);
    OrderLaws(sc, cmp, hist, x, n, m);
    OrderLaws(sc, cmp, hist, x, n, last);
    BeforeBy(sc, cmp, hist, x, m, n);
    BeforeBy(sc, cmp, hist, x, m, last);
    if i + 1 < p {
      OrderTransitive(sc, hashes, cmp, hist, x, k, m, last, n);
    }
  }

  lemma SortedAt<V(!new)>(sc: Schema, cmp: (V, V) -> int, hist: seq<Ins<V>>, x: nat, list: seq<nat>, i: nat, j: nat)
    requires Sorted(sc, cmp, hist, x, list) && i < j < |list|
    ensures HistBefore(sc, cmp, hist, x, list[i], list[j])
  {}

  lemma BeforeBy<V(!new)>(sc: Schema, cmp: (V, V) -> int, hist: seq<Ins<V>>, x: nat, m: nat, n: nat)
    ensures Order(sc, cmp, hist, x, m, n) <= 0 && m < n ==> HistBefore(sc, cmp, hist, x, m, n)
    ensures HistBefore(sc, cmp, hist, x, m, n) ==> Order(sc, cmp, hist, x, m, n) <= 0
    ensures Order(sc, cmp, hist, x, n, m) < 0 ==> HistBefore(sc, cmp, hist, x, n, m)
  {}

  lemma NewPositionAt<V(!new)>(sc: Schema, cmp: (V, V) -> int, hist: seq<Ins<V>>, x: nat, list: seq<nat>, i: nat)
    requires hist != [] && i < |list|
    ensures var n, p, f := |hist| - 1, NewPosition(sc, cmp, hist, x, list), SortFieldOf(sc, x, hist[|hist| - 1].table);
      && p <= |list| && (f.None? ==> p == |list|)
      && (i >= p && f.Some? ==> CompareValues(cmp, FieldOf(hist, n, f.value), FieldOf(hist, list[i], f.value)) < 0)
      && (p > 0 && f.Some? ==> CompareValues(cmp, FieldOf(hist, n, f.value), FieldOf(hist, list[p - 1], f.value)) >= 0)
  {
    hide FieldOf, CompareValues, SortFieldOf;
  }

  lemma LooksAt<V(!new)>(sc: Schema, cmp: (V, V) -> int, hist: seq<Ins<V>>, x: nat, k: V, list: seq<nat>)
    requires hist != []
    requires forall i {:trigger list[i]} :: 0 <= i < |list| ==>
      var f := SortFieldOf(sc, x, hist[|hist| - 1].table); f.Some? ==> FieldOf(hist, list[i], f.value).Some?
    ensures LooksInside(sc, cmp, hist, x, k, list)
  {}

  lemma SortedGrows<V(!new)>(sc: Schema, cmp: (V, V) -> int, hist: seq<Ins<V>>, ins: Ins<V>, x: nat, list: seq<nat>)
    requires Sorted(sc, cmp, hist, x, list) && forall i :: 0 <= i < |list| ==> list[i] < |hist|
    ensures Sorted(sc, cmp, hist + [ins], x, list)
  {
    hide HistSortValue;
    forall i, j | 0 <= i < j < |list| ensures HistBefore(sc, cmp, hist + [ins], x, list[i], list[j]) {
      assert HistBefore(sc, cmp, hist, x, list[i], list[j]);
      KeyGrows(sc, hist, ins, x, list[i]);
      KeyGrows(sc, hist, ins, x, list[j]);
    }
  }

  lemma SortedWithout<V(!new)>(sc: Schema, cmp: (V, V) -> int, hist: seq<Ins<V>>, x: nat, list: seq<nat>,
      at: seq<Ins<V>>)
    requires Sorted(sc, cmp, hist, x, list)
    ensures Sorted(sc, cmp, hist, x, Overwritten(sc, at, list))
  {
    hide HistBefore, FirstIndex;
  }

  lemma SortedWith<V(!new)>(sc: Schema, cmp: (V, V) -> int, hist: seq<Ins<V>>, x: nat, list: seq<nat>, p: nat, n: nat)
    requires Sorted(sc, cmp, hist, x, list) && hist != [] && forall i :: 0 <= i < |list| ==>
      Comes(sc, cmp, hist, x, list, i)
    requires p == NewPosition(sc, cmp, hist, x, list) && n == |hist| - 1
    ensures Sorted(sc, cmp, hist, x, InsertAt(list, p, n))
  {
    hide HistBefore, NewPosition;
    forall i | 0 <= i < |list|
      ensures if i < p then HistBefore(sc, cmp, hist, x, list[i], n) else HistBefore(sc, cmp, hist, x, n, list[i])
    {
      assert Comes(sc, cmp, hist, x, list, i);
    }
  }

  /** If the sort fields agree, every list is the right answer. */
  lemma {:induction false} ListSorted<V(!new)>(sc: Schema, hashes: nat, cmp: (V, V) -> int, hist: seq<Ins<V>>,
      x: nat, k: V)
    requires SchemaOk(sc, hashes) && SortAgrees(sc, x) && TotalPreorder(cmp) && ValidHist(sc, hist)
    ensures Sorted(sc, cmp, hist, x, ListAfter(sc, cmp, hist, x, k)) && ComparesInside(sc, cmp, hist, x, k)
  {
    if hist != [] {
      var prefix, ins := hist[..|hist| - 1], hist[|hist| - 1];
      assert hist == prefix + [ins];
      hide SchemaOk, SortAgrees, TotalPreorder, HistSortValue, HistMember, LooksInside;
      ListSorted(sc, hashes, cmp, prefix, x, k);
      ListMembers(sc, cmp, prefix, x, k);
      var list := ListAfter(sc, cmp, prefix, x, k);
      var left := Overwritten(sc, hist, list);
      LeftFacts(sc, prefix, ins, x, k, list);
      SortedGrows(sc, cmp, prefix, ins, x, list);
      SortedWithout(sc, cmp, hist, x, list, hist);
      if HistKey(sc, hist, x, |prefix|) == Some(k) {
        NewestInOrder(sc, hashes, cmp, hist, x, k, left);
        SortedWith(sc, cmp, hist, x, left, NewPosition(sc, cmp, hist, x, left), |prefix|);
      } else {
        LooksNowhere(sc, cmp, hist, x, k, left);
      }
    }
  }

  lemma LooksNowhere<V(!new)>(sc: Schema, cmp: (V, V) -> int, hist: seq<Ins<V>>, x: nat, k: V, left: seq<nat>)
    requires hist != [] && HistKey(sc, hist, x, |hist| - 1) != Some(k)
    ensures LooksInside(sc, cmp, hist, x, k, left)
  {}

  lemma LeftFacts<V(!new)>(sc: Schema, prefix: seq<Ins<V>>, ins: Ins<V>, x: nat, k: V, list: seq<nat>)
    requires forall m: nat :: m in list <==> HistMember(sc, prefix, x, k, m)
    ensures forall i {:trigger list[i]} :: 0 <= i < |list| ==> list[i] < |prefix|
    ensures var left := Overwritten(sc, prefix + [ins], list);
      forall i {:trigger left[i]} :: 0 <= i < |left| ==>
        left[i] < |prefix| && HistKey(sc, prefix + [ins], x, left[i]) == Some(k)
  {
    hide FirstIndex, HistKey, Alive;
    forall i | 0 <= i < |list| ensures list[i] < |prefix| && HistKey(sc, prefix + [ins], x, list[i]) == Some(k) {
      assert list[i] in list;
      MemberKey(sc, prefix, x, k, list[i]);
      AliveInside(sc, prefix, list[i]);
      KeyGrows(sc, prefix, ins, x, list[i]);
    }
  }

  /** Sorted lists are right answers. */
  lemma ListAnswers<V(!new)>(sc: Schema, hashes: nat, cmp: (V, V) -> int, hist: seq<Ins<V>>, x: nat, k: V)
    requires SchemaOk(sc, hashes) && SortAgrees(sc, x) && TotalPreorder(cmp) && ValidHist(sc, hist)
    ensures IsAnswer(sc, cmp, hist, x, k, ListAfter(sc, cmp, hist, x, k)) && ComparesInside(sc, cmp, hist, x, k)
  {
    ListSorted(sc, hashes, cmp, hist, x, k);
    ListMembers(sc, cmp, hist, x, k);
  }

  // ----- disagreement does not ---------------------------------------------------------------

  /** A record with u in field i and d in all others. */
  ghost function Row<V>(n: nat, i: nat, u: V, d: V): seq<V> {
    seq(n, j => if j == i then u else d)
  }

  /** Two records of different tables with one key: the second goes first exactly if it is
      smaller in its own table's sort field. */
  lemma TwoRecords<V(!new)>(sc: Schema, cmp: (V, V) -> int, a: Ins<V>, b: Ins<V>, x: nat, k: V)
    requires ValidHist(sc, [a, b]) && a.table != b.table
    requires HistKey(sc, [a, b], x, 0) == Some(k) && HistKey(sc, [a, b], x, 1) == Some(k)
    ensures HistMember(sc, [a, b], x, k, 0)
    ensures var f := SortFieldOf(sc, x, b.table);
      && ListAfter(sc, cmp, [a, b], x, k) ==
        (if f.Some? && CompareValues(cmp, FieldOf([a, b], 1, f.value), FieldOf([a, b], 0, f.value)) < 0 then [1, 0]
          else [0, 1])
      && (ComparesInside(sc, cmp, [a, b], x, k) ==> f.Some? ==> FieldOf([a, b], 0, f.value).Some?)
  {
    var hist := [a, b];
    assert hist[..1] == [a] && hist[..0] == [] && [a][..0] == [];
    assert [] + [a] == [a] && [a] + [b] == hist;
    NewAlive(sc, [], a);
    KeyGrows(sc, [a], b, x, 0);
    FirstList(sc, cmp, a, x, k);
    StaysAlive(sc, [a], b, 0);
    assert RecAt(sc, [a], 0).table == a.table;
    assert Overwritten(sc, hist, [0]) == [0];
    hide Alive;
    MemberKey(sc, hist, x, k, 0);
    var f := SortFieldOf(sc, x, b.table);
    SecondPosition(sc, cmp, hist, x);
  }

  lemma FirstList<V(!new)>(sc: Schema, cmp: (V, V) -> int, a: Ins<V>, x: nat, k: V)
    requires HistKey(sc, [a], x, 0) == Some(k)
    ensures ListAfter(sc, cmp, [a], x, k) == [0]
  {
    hide NewPosition, Alive, HistKey, CompareValues;
    var nobody: seq<nat> := [];
    assert [a][..0] == [];
    assert Overwritten(sc, [a], nobody) == nobody;
    assert Placed(sc, cmp, [a], x, k, nobody) == [0];
  }

  lemma SecondPosition<V(!new)>(sc: Schema, cmp: (V, V) -> int, hist: seq<Ins<V>>, x: nat)
    requires |hist| == 2
    ensures var f := SortFieldOf(sc, x, hist[1].table);
      NewPosition(sc, cmp, hist, x, [0]) ==
        if f.Some? && CompareValues(cmp, FieldOf(hist, 1, f.value), FieldOf(hist, 0, f.value)) < 0 then 0 else 1
  {
    NewPositionAt(sc, cmp, hist, x, [0], 0);
  }

  /** The history has one right answer, and the list is not it. */
  ghost predicate Wrong<V(!new)>(sc: Schema, cmp: (V, V) -> int, hist: seq<Ins<V>>, x: nat, k: V) {
    ValidHist(sc, hist) && !(ComparesInside(sc, cmp, hist, x, k)
      && IsAnswer(sc, cmp, hist, x, k, ListAfter(sc, cmp, hist, x, k)))
  }

  /** Two records in the wrong order. */
  lemma WrongOrder<V(!new)>(sc: Schema, cmp: (V, V) -> int, a: Ins<V>, b: Ins<V>, x: nat, k: V)
    requires TotalPreorder(cmp) && ValidHist(sc, [a, b]) && a.table != b.table
    requires HistKey(sc, [a, b], x, 0) == Some(k) && HistKey(sc, [a, b], x, 1) == Some(k)
    requires var f := SortFieldOf(sc, x, b.table); f.Some? && FieldOf([a, b], 0, f.value).Some? ==>
      (CompareValues(cmp, FieldOf([a, b], 1, f.value), FieldOf([a, b], 0, f.value)) < 0 <==>
        Order(sc, cmp, [a, b], x, 1, 0) >= 0)
    requires SortFieldOf(sc, x, b.table).Some?
    ensures Wrong(sc, cmp, [a, b], x, k)
  {
    TwoRecords(sc, cmp, a, b, x, k);
    OrderLaws(sc, cmp, [a, b], x, 0, 1);
    var list := ListAfter(sc, cmp, [a, b], x, k);
    hide HistSortValue, HistMember, ListAfter, FieldOf, SortFieldOf;
    if IsAnswer(sc, cmp, [a, b], x, k, list) {
      assert HistBefore(sc, cmp, [a, b], x, list[0], list[1]);
    }
  }

  /** What makes the two records' keys and sort values. */
  lemma RowFacts<V(!new)>(sc: Schema, hashes: nat, a: Ins<V>, b: Ins<V>, x: nat)
    requires SchemaOk(sc, hashes) && InIndex(sc, x, a.table) && InIndex(sc, x, b.table)
    requires |a.fields| == sc.fields[a.table] && |b.fields| == sc.fields[b.table]
    ensures ValidHist(sc, [a, b])
    ensures var d, e := IndexOn(sc.indexes[a.table], x).value, IndexOn(sc.indexes[b.table], x).value;
      && d.keyField < |a.fields| && HistKey(sc, [a, b], x, 0) == Some(a.fields[d.keyField])
      && e.keyField < |b.fields| && HistKey(sc, [a, b], x, 1) == Some(b.fields[e.keyField])
      && (d.sortField.Some? ==> d.sortField.value < |a.fields|)
        && (e.sortField.Some? ==> e.sortField.value < |b.fields|)
      && HistSortValue(sc, [a, b], x, 0) == (if d.sortField.Some? then Some(a.fields[d.sortField.value]) else None)
      && HistSortValue(sc, [a, b], x, 1) == (if e.sortField.Some? then Some(b.fields[e.sortField.value]) else None)
      && SortFieldOf(sc, x, b.table) == e.sortField
  {
    FoundById(sc, hashes, a.table, x);
    FoundById(sc, hashes, b.table, x);
  }

  /** Tables t and u disagree, and u's index sorts: the records to insert. */
  lemma WrongRecords<V(!new)>(sc: Schema, hashes: nat, cmp: (V, V) -> int, x: nat, t: nat, u: nat, lo: V, hi: V)
    returns (hist: seq<Ins<V>>, k: V)
    requires SchemaOk(sc, hashes) && TotalPreorder(cmp) && cmp(lo, hi) < 0
    requires InIndex(sc, x, t) && InIndex(sc, x, u) && !SortAlike(sc, x, t, u)
    requires IndexOn(sc.indexes[u], x).value.sortField.Some?
    ensures Wrong(sc, cmp, hist, x, k)
  {
    var d, e := IndexOn(sc.indexes[t], x).value, IndexOn(sc.indexes[u], x).value;
    var f := e.sortField.value;
    var m, n := sc.fields[t], sc.fields[u];
    var a, b: seq<V>;
    if d.keyField != f {
      // smaller in u's sort field, but no larger in its own
      a, b, k := Row(m, f, hi, lo), Row(n, n, lo, lo), lo;
    } else if e.keyField == f {
      // both have the key in u's sort field
      a, b, k := Row(m, d.sortField.value, hi, lo), Row(n, n, lo, lo), lo;
    } else if d.sortField.None? {
      a, b, k := Row(m, m, hi, hi), Row(n, f, lo, hi), hi;
    } else {
      a, b, k := Row(m, d.sortField.value, lo, hi), Row(n, f, lo, hi), hi;
    }
    hist := [Ins(t, a), Ins(u, b)];
    RowFacts(sc, hashes, hist[0], hist[1], x);
    PreorderLaws(cmp, lo, hi, lo);
    PreorderLaws(cmp, lo, lo, lo);
    PreorderLaws(cmp, hi, hi, hi);
    hide SchemaOk, IndexOn, TotalPreorder, HistKey, HistSortValue;
    WrongOrder(sc, cmp, hist[0], hist[1], x, k);
  }

  /** Whatever is inserted, every list of the indexes on x is the right answer for its key, if
      and only if the tables that share them agree on the sort field. */
  lemma SortedIffAgree<V(!new)>(sc: Schema, hashes: nat, cmp: (V, V) -> int, x: nat, lo: V, hi: V)
    requires SchemaOk(sc, hashes) && TotalPreorder(cmp) && cmp(lo, hi) < 0
    ensures SortAgrees(sc, x) <==> forall hist, k :: !Wrong(sc, cmp, hist, x, k)
  {
    hide SchemaOk, TotalPreorder, ListAfter, IsAnswer, ComparesInside;
    if SortAgrees(sc, x) {
      forall hist: seq<Ins<V>>, k ensures !Wrong(sc, cmp, hist, x, k) {
        if ValidHist(sc, hist) { ListAnswers(sc, hashes, cmp, hist, x, k); }
      }
    } else {
      var t: nat, u: nat :| InIndex(sc, x, t) && InIndex(sc, x, u) && !SortAlike(sc, x, t, u);
      if IndexOn(sc.indexes[u], x).value.sortField.Some? {
        var hist, k := WrongRecords(sc, hashes, cmp, x, t, u, lo, hi);
      } else {
        var hist, k := WrongRecords(sc, hashes, cmp, x, u, t, lo, hi);
      }
    }
  }

  /** Two tables share an index, one sorts by its second field, the other by its third. */
  ghost function TwoTables(): Schema {
    Schema([10, 10], [3, 3], [[Index(1, true, 0, Some(1), 0)], [Index(1, true, 0, Some(2), 0)]])
  }

  /** A record sorted into the other table's records by the wrong field: 3 after 5. */
  lemma SortedByTheWrongField()
    ensures SchemaOk(TwoTables(), 1) && !SortAgrees(TwoTables(), 0)
    ensures var sc, cmp, hist := TwoTables(), (a: int, b: int) => a - b, [Ins(0, [7, 5, 0]), Ins(1, [7, 0, 3])];
      && ListAfter(sc, cmp, hist, 0, 7) == [0, 1]
      && HistSortValue(sc, hist, 0, 0) == Some(5) && HistSortValue(sc, hist, 0, 1) == Some(3)
      && !IsAnswer(sc, cmp, hist, 0, 7, ListAfter(sc, cmp, hist, 0, 7))
  {
    hide *;
    var sc, cmp, a, b := TwoTables(), (a: int, b: int) => a - b, Ins(0, [7, 5, 0]), Ins(1, [7, 0, 3]);
    TwoTablesOk();
    RowFacts(sc, 1, a, b, 0);
    TwoRecords(sc, cmp, a, b, 0, 7);
    ThreeAfterFive(sc, cmp);
  }

  lemma ThreeAfterFive(sc: Schema, cmp: (int, int) -> int)
    requires cmp(3, 5) == -2 && cmp(5, 3) == 2 && cmp(3, 0) == 3
    requires var hist := [Ins(0, [7, 5, 0]), Ins(1, [7, 0, 3])];
      && HistSortValue(sc, hist, 0, 0) == Some(5) && HistSortValue(sc, hist, 0, 1) == Some(3)
    ensures var hist := [Ins(0, [7, 5, 0]), Ins(1, [7, 0, 3])];
      && CompareValues(cmp, FieldOf(hist, 1, 2), FieldOf(hist, 0, 2)) >= 0
      && !IsAnswer(sc, cmp, hist, 0, 7, [0, 1])
  {
    hide HistSortValue, HistMember;
    var hist, list := [Ins(0, [7, 5, 0]), Ins(1, [7, 0, 3])], [0, 1];
    assert !HistBefore(sc, cmp, hist, 0, list[0], list[1]);
  }

  lemma TwoTablesOk()
    ensures SchemaOk(TwoTables(), 1) && !SortAgrees(TwoTables(), 0)
    ensures var sc := TwoTables();
      && InIndex(sc, 0, 0) && InIndex(sc, 0, 1) && sc.fields == [3, 3]
      && IndexOn(sc.indexes[0], 0).value == Index(1, true, 0, Some(1), 0)
      && IndexOn(sc.indexes[1], 0).value == Index(1, true, 0, Some(2), 0)
  {
    assert !SortAlike(TwoTables(), 0, 0, 1);
  }

  /** What to check when one more table gets an index on x: its sort field against the others'. */
  lemma AgreementGrows(sc: Schema, t: nat, d: Index)
    requires t < |sc.indexes| && !InIndex(sc, d.hash, t)
    ensures var sc' := sc.(indexes := sc.indexes[t := sc.indexes[t] + [d]]);
      SortAgrees(sc', d.hash) <==>
        && SortAgrees(sc, d.hash)
        && forall u: nat :: InIndex(sc, d.hash, u) ==> SortSame(d, IndexOn(sc.indexes[u], d.hash).value)
  {
    var x, sc' := d.hash, sc.(indexes := sc.indexes[t := sc.indexes[t] + [d]]);
    IndexAppended(sc.indexes[t], d, x);
    hide SortSame, IndexOn;
    forall u: nat ensures InIndex(sc', x, u) <==> InIndex(sc, x, u) || u == t {}
    if SortAgrees(sc', x) {
      forall u, v | InIndex(sc, x, u) && InIndex(sc, x, v) ensures SortAlike(sc, x, u, v) {
        assert SortAlike(sc', x, u, v);
      }
      forall u: nat | InIndex(sc, x, u) ensures SortSame(d, IndexOn(sc.indexes[u], x).value) {
        assert SortAlike(sc', x, t, u);
      }
    } else {
      var u: nat, v: nat :| InIndex(sc', x, u) && InIndex(sc', x, v) && !SortAlike(sc', x, u, v);
      assert u != t && v != t ==> !SortAlike(sc, x, u, v);
      if u != t { SortSameLaws(IndexOn(sc'.indexes[u], x).value, d); }
      if v != t { SortSameLaws(IndexOn(sc'.indexes[v], x).value, d); }
      SortSameLaws(d, d);
    }
  }

  lemma SortSameLaws(d: Index, e: Index)
    ensures SortSame(d, e) <==> SortSame(e, d)
    ensures SortSame(d, d)
  {}

  lemma {:induction false} IndexAppended(s: seq<Index>, d: Index, x: nat)
    ensures IndexOn(s + [d], x) == if IndexOn(s, x).Some? then IndexOn(s, x) else if d.hash == x then Some(d) else None
  {
    if s != [] {
      IndexAppended(s[1..], d, x);
      assert (s + [d])[1..] == s[1..] + [d];
    }
  }
}
