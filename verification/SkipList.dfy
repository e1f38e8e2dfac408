/** The skip list: a sorted linked list with express lanes, rewired in place. The ghost
    sequence `all` holds the header and the nodes in order; lane i links each node taller
    than i to the next such node. */
module SkipList {
  import opened Options
  import opened LinkedList

  const MAX_LEVEL := 12

  class Node<V> {
    const key: nat
    var value: Option<V>  // nothing in the header
    const forward: array<Node?<V>>

    constructor (level: nat, key: nat, value: Option<V>)
      ensures this.key == key && this.value == value
      ensures fresh(forward) && forward.Length == level && forall i :: 0 <= i < level ==> forward[i] == null
    {
      this.key, this.value := key, value;
      forward := new Node?<V>[level](_ => null);
    }
  }

  // ----- lanes -----------------------------------------------------------------------------

  /** The next position after p whose node is taller than i, or the length. */
  function Next<V>(all: seq<Node<V>>, p: nat, i: nat): (q: nat)
    requires p < |all|
    ensures p < q <= |all| && (q < |all| ==> all[q].forward.Length > i)
    ensures forall r :: p < r < q ==> all[r].forward.Length <= i
    decreases |all| - p
  {
    if p + 1 == |all| || all[p + 1].forward.Length > i then p + 1 else Next(all, p + 1, i)
  }

  function At<V>(all: seq<Node<V>>, p: nat): Node?<V> {
    if p < |all| then all[p] else null
  }

  lemma NextIs<V>(all: seq<Node<V>>, p: nat, i: nat, q: nat)
    requires p < q <= |all| && (q < |all| ==> all[q].forward.Length > i)
    requires forall r :: p < r < q ==> all[r].forward.Length <= i
    ensures Next(all, p, i) == q
  {
    var n := Next(all, p, i);
  }

  /** Position u is the last one before c on lane i. */
  ghost predicate Last<V>(all: seq<Node<V>>, c: nat, i: nat, u: nat) {
    u < c <= |all| && all[u].forward.Length > i && Next(all, u, i) >= c
  }

  lemma LastUnique<V>(all: seq<Node<V>>, c: nat, i: nat, u: nat, p: nat)
    requires Last(all, c, i, u) && p < c && all[p].forward.Length > i
    ensures Next(all, p, i) >= c <==> p == u
  {}

  /** A new node at position c: what follows each old position, and the new one, on lane i. */
  lemma NextInsert<V>(all: seq<Node<V>>, c: nat, n: Node<V>, p: nat, i: nat)
    requires p < |all| && 0 < c <= |all|
    ensures var q, all' := Next(all, p, i), InsertAt(all, c, n);
      && (p < c && q < c ==> Next(all', p, i) == q)
      && (p < c && q >= c ==> Next(all', p, i) == if n.forward.Length > i then c else q + 1)
      && (p >= c ==> Next(all', p + 1, i) == q + 1)
      && (p < c && q >= c ==> Next(all', c, i) == q + 1)
  {
    hide InsertAt;
    var q, all' := Next(all, p, i), InsertAt(all, c, n);
    if p >= c {
      NextIs(all', p + 1, i, q + 1);
    } else if q < c {
      NextIs(all', p, i, q);
    } else {
      NextIs(all', c, i, q + 1);
      NextIs(all', p, i, if n.forward.Length > i then c else q + 1);
    }
  }

  /** Taking out position c. */
  lemma NextRemove<V>(all: seq<Node<V>>, c: nat, p: nat, i: nat)
    requires p < |all| && 0 < c < |all| && p != c
    ensures var q, all' := Next(all, p, i), RemoveAt(all, c);
      && (p < c && q < c ==> Next(all', p, i) == q)
      && (p < c && q == c ==> Next(all', p, i) == Next(all, c, i) - 1)
      && (p < c && q > c ==> Next(all', p, i) == q - 1)
      && (p > c ==> Next(all', p - 1, i) == q - 1)
  {
    hide RemoveAt;
    var q, all' := Next(all, p, i), RemoveAt(all, c);
    if p > c {
      NextIs(all', p - 1, i, q - 1);
    } else if q < c {
      NextIs(all', p, i, q);
    } else if q == c {
      NextIs(all', p, i, Next(all, c, i) - 1);
    } else {
      NextIs(all', p, i, q - 1);
    }
  }

  // ----- order -----------------------------------------------------------------------------

  /** The order of the list: by key, then by the comparison function. */
  predicate Less<V>(compare: (V, V) -> int, a: (nat, V), b: (nat, V)) {
    a.0 < b.0 || (a.0 == b.0 && compare(a.1, b.1) < 0)
  }

  predicate Same<V>(compare: (V, V) -> int, a: (nat, V), b: (nat, V)) {
    a.0 == b.0 && compare(a.1, b.1) == 0
  }

  ghost predicate Ascending<V>(compare: (V, V) -> int, s: seq<(nat, V)>) {
    forall i, j :: 0 <= i < j < |s| ==> Less(compare, s[i], s[j])
  }

  /** By key, and by the comparison where keys are equal. */
  lemma AscendingMeans<V>(compare: (V, V) -> int, s: seq<(nat, V)>)
    requires Ascending(compare, s)
    ensures forall i, j :: 0 <= i < j < |s| ==> s[i].0 <= s[j].0 && (s[i].0 == s[j].0 ==> compare(s[i].1, s[j].1) < 0)
  {
    forall i, j | 0 <= i < j < |s|
      ensures s[i].0 <= s[j].0 && (s[i].0 == s[j].0 ==> compare(s[i].1, s[j].1) < 0)
    {
      assert Less(compare, s[i], s[j]);
    }
  }

  /** How many elements come before e: where e is, or where it belongs. */
  function Rank<V>(compare: (V, V) -> int, s: seq<(nat, V)>, e: (nat, V)): (r: nat)
    ensures r <= |s| && (r < |s| ==> !Less(compare, s[r], e))
    ensures forall i :: 0 <= i < r ==> Less(compare, s[i], e)
  {
    if s == [] || !Less(compare, s[0], e) then 0 else 1 + Rank(compare, s[1..], e)
  }

  /** The same, looking at keys only. */
  function KeyRank<V>(s: seq<(nat, V)>, key: nat): (r: nat)
    ensures r <= |s| && (r < |s| ==> s[r].0 >= key)
    ensures forall i :: 0 <= i < r ==> s[i].0 < key
  {
    if s == [] || s[0].0 >= key then 0 else 1 + KeyRank(s[1..], key)
  }

  lemma LessLaws<V(!new)>(compare: (V, V) -> int, a: (nat, V), b: (nat, V), c: (nat, V))
    requires TotalPreorder(compare)
    ensures Less(compare, a, b) && Less(compare, b, c) ==> Less(compare, a, c)
    ensures Less(compare, a, b) && Same(compare, b, c) ==> Less(compare, a, c)
    ensures Same(compare, a, b) && Less(compare, b, c) ==> Less(compare, a, c)
    ensures Less(compare, a, b) || Less(compare, b, a) || Same(compare, a, b)
    ensures !(Less(compare, a, b) && Less(compare, b, a))
    ensures !(Less(compare, a, b) && Same(compare, a, b))
    ensures Same(compare, a, b) ==> Same(compare, b, a)
  {
    PreorderLaws(compare, a.1, b.1, c.1);
    PreorderLaws(compare, b.1, c.1, a.1);
    PreorderLaws(compare, c.1, a.1, b.1);
    PreorderLaws(compare, b.1, a.1, c.1);
    PreorderLaws(compare, c.1, b.1, a.1);
    PreorderLaws(compare, a.1, c.1, b.1);
  }

  lemma AscendingFrom<V(!new)>(compare: (V, V) -> int, s: seq<(nat, V)>, e: (nat, V))
    requires TotalPreorder(compare) && Ascending(compare, s)
    ensures var r := Rank(compare, s, e);
      forall i :: r <= i < |s| ==> !Less(compare, s[i], e) && (i > r ==> Less(compare, e, s[i]))
  {
    hide TotalPreorder;
    var r := Rank(compare, s, e);
    forall i | r < i < |s| ensures !Less(compare, s[i], e) && Less(compare, e, s[i]) {
      assert Less(compare, s[r], s[i]);
      LessLaws(compare, s[r], s[i], e);
      LessLaws(compare, e, s[r], s[i]);
      LessLaws(compare, s[i], e, s[r]);
    }
  }

  /** Membership up to the comparison function is what a search at the rank tests. */
  lemma RankFinds<V(!new)>(compare: (V, V) -> int, s: seq<(nat, V)>, e: (nat, V))
    requires TotalPreorder(compare) && Ascending(compare, s)
    ensures var r := Rank(compare, s, e);
      forall i :: 0 <= i < |s| ==> (Same(compare, s[i], e) <==> i == r && Hit(compare, s, e))
  {
    hide TotalPreorder;
    var r := Rank(compare, s, e);
    AscendingFrom(compare, s, e);
    forall i | 0 <= i < |s| && i != r ensures !Same(compare, s[i], e) {
      LessLaws(compare, s[i], e, s[i]);
      LessLaws(compare, e, s[i], e);
    }
  }

  predicate Hit<V>(compare: (V, V) -> int, s: seq<(nat, V)>, e: (nat, V)) {
    var r := Rank(compare, s, e);
    r < |s| && Same(compare, s[r], e)
  }

  /** Inserting e: the same element takes the new value, otherwise e enters at its rank. */
  function Inserted<V>(compare: (V, V) -> int, s: seq<(nat, V)>, e: (nat, V)): seq<(nat, V)> {
    var r := Rank(compare, s, e);
    if Hit(compare, s, e) then s[r := e] else InsertAt(s, r, e)
  }

  function Removed<V>(compare: (V, V) -> int, s: seq<(nat, V)>, e: (nat, V)): seq<(nat, V)> {
    if Hit(compare, s, e) then RemoveAt(s, Rank(compare, s, e)) else s
  }

  lemma InsertedCases<V>(compare: (V, V) -> int, s: seq<(nat, V)>, e: (nat, V))
    ensures Rank(compare, s, e) <= |s|
    ensures var r := Rank(compare, s, e);
      Inserted(compare, s, e) == if r < |s| && Same(compare, s[r], e) then s[r := e] else InsertAt(s, r, e)
    ensures var r := Rank(compare, s, e);
      Removed(compare, s, e) == if r < |s| && Same(compare, s[r], e) then RemoveAt(s, r) else s
  {}

  lemma InsertAtHead<T>(s: seq<T>, k: nat, x: T)
    requires 0 < k <= |s|
    ensures InsertAt(s, k, x)[0] == s[0] && InsertAt(s, k, x)[k] == x && |InsertAt(s, k, x)| == |s| + 1
    ensures forall y :: y in InsertAt(s, k, x) <==> y == x || y in s
  {
    assert s == s[..k] + s[k..];
  }

  lemma InsertedAscending<V(!new)>(compare: (V, V) -> int, s: seq<(nat, V)>, e: (nat, V))
    requires TotalPreorder(compare) && Ascending(compare, s)
    ensures Ascending(compare, Inserted(compare, s, e))
  {
    var r := Rank(compare, s, e);
    AscendingFrom(compare, s, e);
    if Hit(compare, s, e) {
      ReplacedAscending(compare, s, r, e);
    } else {
      hide TotalPreorder, InsertAt, Rank, Same;
      var t := InsertAt(s, r, e);
      if r < |s| { LessLaws(compare, s[r], e, e); }
      forall i, j | 0 <= i < j < |t| ensures Less(compare, t[i], t[j]) {
        if i != r && j != r {
          assert Less(compare, s[if i < r then i else i - 1], s[if j < r then j else j - 1]);
        }
      }
    }
  }

  lemma ReplacedAscending<V(!new)>(compare: (V, V) -> int, s: seq<(nat, V)>, r: nat, e: (nat, V))
    requires TotalPreorder(compare) && Ascending(compare, s) && r < |s| && Same(compare, s[r], e)
    ensures Ascending(compare, s[r := e])
  {
    hide TotalPreorder, Same;
    var t := s[r := e];
    forall i, j | 0 <= i < j < |t| ensures Less(compare, t[i], t[j]) {
      assert Less(compare, s[i], s[j]);
      LessLaws(compare, s[i], s[r], e);
      LessLaws(compare, s[r], e, s[r]);
      LessLaws(compare, e, s[r], s[j]);
    }
  }

  lemma RemovedAscending<V>(compare: (V, V) -> int, s: seq<(nat, V)>, k: nat)
    requires Ascending(compare, s) && k < |s|
    ensures Ascending(compare, RemoveAt(s, k))
  {
    hide RemoveAt, Less;
    var t := RemoveAt(s, k);
    forall i, j | 0 <= i < j < |t| ensures Less(compare, t[i], t[j]) {
      assert Less(compare, s[if i < k then i else i + 1], s[if j < k then j else j + 1]);
    }
  }

  /** The index lookup_cycle lands on: the first key at or after the hash, wrapping around. */
  function Cyclic<V>(s: seq<(nat, V)>, key: nat): (r: nat)
    requires s != []
    ensures r < |s|
  {
    if KeyRank(s, key) < |s| then KeyRank(s, key) else 0
  }

  lemma KeysAscend<V>(compare: (V, V) -> int, s: seq<(nat, V)>, key: nat)
    requires Ascending(compare, s)
    ensures KeyRank(s, key) <= |s|
    ensures forall j :: 0 <= j < |s| ==> (s[j].0 < key <==> j < KeyRank(s, key))
  {
    var r := KeyRank(s, key);
    forall j | r < j < |s| ensures s[j].0 >= key {
      assert Less(compare, s[r], s[j]);
    }
  }

  class SkipList<V(!new)> {
    const header: Node<V>
    var length: nat
    var level: nat
    const compare: (V, V) -> int
    ghost var all: seq<Node<V>>
    ghost var contents: seq<(nat, V)>

    static ghost predicate Linked(all: seq<Node<V>>)
      reads set n: Node<V> | n in all :: n.forward
    {
      forall p, i {:trigger all[p].forward[i]} ::
        0 <= p < |all| && 0 <= i < all[p].forward.Length ==>
          all[p].forward[i] == At(all, Next(all, p, i))
    }

    static ghost predicate Apart(all: seq<Node<V>>) {
      && (forall p, q :: 0 <= p < q < |all| ==> all[p] != all[q])
      && (forall p, q :: 0 <= p < q < |all| ==> all[p].forward != all[q].forward)
    }

    static ghost predicate Carries(all: seq<Node<V>>, s: seq<(nat, V)>)
      reads all
    {
      && |all| == |s| + 1
      && forall p {:trigger s[p]} :: 0 <= p < |s| ==> all[p + 1].key == s[p].0 && all[p + 1].value == Some(s[p].1)
    }

    /** The level is the height of the tallest node, and 1 for an empty list. */
    static ghost predicate Leveled(all: seq<Node<V>>, level: nat) {
      && 1 <= level <= MAX_LEVEL && |all| > 0 && all[0].forward.Length == MAX_LEVEL
      && (forall p {:trigger all[p].forward} :: 1 <= p < |all| ==> 1 <= all[p].forward.Length <= level)
      && (level == 1 || exists p :: 1 <= p < |all| && all[p].forward.Length == level)
    }

    /** The nodes carry the contents and their lanes are linked in order. */
    static ghost predicate Wired(all: seq<Node<V>>, s: seq<(nat, V)>, level: nat)
      reads all, set n: Node<V> | n in all :: n.forward
    {
      Apart(all) && Leveled(all, level) && Carries(all, s) && Linked(all)
    }

    ghost predicate Valid()
      reads this, all, set n: Node<V> | n in all :: n.forward
    {
      && TotalPreorder(compare)
      && |all| == length + 1 == |contents| + 1 && all[0] == header
      && Wired(all, contents, level)
      && Ascending(compare, contents)
    }

    ghost function Repr(): set<object>
      reads this
    {
      {this} + (set n: Node<V> | n in all) + (set n: Node<V> | n in all :: n.forward)
    }

    constructor (compare: (V, V) -> int)
      requires TotalPreorder(compare)
      ensures Valid() && contents == [] && level == 1 && this.compare == compare
      ensures Repr() == {this, header, header.forward} && fresh(header) && fresh(header.forward)
    {
      this.compare := compare;
      var h := new Node<V>(MAX_LEVEL, 0, None);
      header := h;
      length, level := 0, 1;
      all, contents := [h], [];
    }

    /** What lane i shows from position p. */
    lemma Ahead(p: nat, i: nat)
      requires Valid() && p < |all| && i < all[p].forward.Length
      ensures all[p].forward[i] == At(all, Next(all, p, i))
      ensures var q := Next(all, p, i); q < |all| ==>
        all[q].key == contents[q - 1].0 && all[q].value == Some(contents[q - 1].1)
    {}

    lemma Heights()
      requires Valid()
      ensures 1 <= level <= MAX_LEVEL && header.forward.Length == MAX_LEVEL && |all| == |contents| + 1
    {}

    lemma LastOnLane0(p: nat, c: nat)
      requires Valid() && Last(all, c, 0, p)
      ensures p + 1 == c && all[p].forward.Length > 0 && all[p].forward[0] == At(all, c)
    {
      NextIs(all, p, 0, p + 1);
    }

    /** Follow lane i as long as the nodes come before (key, value). */
    method WalkLane(start: Node<V>, i: nat, key: nat, value: V, ghost p: nat, ghost c: nat)
      returns (x: Node<V>, ghost q: nat)
      requires Valid() && p < c <= |all| && start == all[p] && i < all[p].forward.Length
      requires forall j :: 0 <= j < |contents| ==> (Less(compare, contents[j], (key, value)) <==> j + 1 < c)
      ensures q < c && x == all[q] && x.forward.Length > i && Last(all, c, i, q)
    {
      x := start;
      q := p;
      Ahead(q, i);
      hide TotalPreorder, Ascending, Apart, Less, Linked, Carries, Leveled;
      while x.forward[i] != null && Less(compare, (x.forward[i].key, x.forward[i].value.value), (key, value))
        invariant q < c && x == all[q] && all[q].forward.Length > i
        invariant x.forward[i] == At(all, Next(all, q, i))
        invariant x.forward[i] != null ==>
          x.forward[i].value.Some? && (x.forward[i].key, x.forward[i].value.value) == contents[Next(all, q, i) - 1]
        decreases |all| - q
      {
        q := Next(all, q, i);
        x := x.forward[i];
        Ahead(q, i);
      }
    }

    /** Walk down the lanes to the place of (key, value), noting on each lane the last node
        before it. */
    method LookupInternal(key: nat, value: V) returns (x: Node?<V>, update: seq<Node<V>>, ghost us: seq<nat>)
      requires Valid()
      ensures x == At(all, Rank(compare, contents, (key, value)) + 1)
      ensures |us| == |update| == level && forall i :: 0 <= i < level ==>
        Last(all, Rank(compare, contents, (key, value)) + 1, i, us[i]) && update[i] == all[us[i]]
    {
      ghost var e := (key, value);
      ghost var c := Rank(compare, contents, e) + 1;
      AscendingFrom(compare, contents, e);
      Heights();
      hide TotalPreorder, Ascending, Rank, Apart, Less, Linked, Carries, Leveled, Last;
      var y := header;
      ghost var p: nat := 0;
      update, us := seq(level, _ => header), seq(level, _ => 0);
      var i := level;
      while i > 0
        invariant 0 <= i <= level && p < c && y == all[p] && all[p].forward.Length >= i
        invariant |us| == |update| == level && (i < level ==> Last(all, c, i, p))
        invariant forall j :: i <= j < level ==> Last(all, c, j, us[j]) && update[j] == all[us[j]]
      {
        i := i - 1;
        y, p := WalkLane(y, i, key, value, p, c);
        update, us := update[i := y], us[i := p];
      }
      LastOnLane0(p, c);
      x := y.forward[0];
    }

    method Lookup(key: nat, value: V) returns (r: Option<V>)
      requires Valid()
      ensures r == if Hit(compare, contents, (key, value))
        then Some(contents[Rank(compare, contents, (key, value))].1) else None
    {
      var x, _, _ := LookupInternal(key, value);
      if x != null && key == x.key && compare(x.value.value, value) == 0 {
        r := x.value;
      } else {
        r := None;
      }
    }

    // ----- insertion -----------------------------------------------------------------------

    static ghost predicate Lasts(all: seq<Node<V>>, c: nat, us: seq<nat>) {
      && 0 < c <= |all|
      && (forall i :: 0 <= i < |us| ==> us[i] < c)
      && (forall i {:trigger us[i]} :: 0 <= i < |us| ==> Last(all, c, i, us[i]))
    }

    /** What node p of lane i points to once node n has been spliced in on the first k lanes. */
    static ghost function Target(all: seq<Node<V>>, n: Node<V>, us: seq<nat>, k: nat, p: nat, i: nat): Node?<V>
      requires p < |all|
    {
      if i < k && i < |us| && p == us[i] then n else At(all, Next(all, p, i))
    }

    /** Node n has been spliced in before position c on the first k lanes. */
    static ghost predicate Spliced(all: seq<Node<V>>, c: nat, n: Node<V>, us: seq<nat>, k: nat)
      reads n.forward, set m: Node<V> | m in all :: m.forward
      requires Lasts(all, c, us) && k <= n.forward.Length == |us|
    {
      && (forall p, i {:trigger all[p].forward[i]} ::
            0 <= p < |all| && 0 <= i < all[p].forward.Length ==>
              all[p].forward[i] == Target(all, n, us, k, p, i))
      && (forall i {:trigger n.forward[i]} ::
            0 <= i < k ==> n.forward[i] == At(all, Next(all, us[i], i)))
    }

    static lemma InsertTarget(all: seq<Node<V>>, c: nat, n: Node<V>, us: seq<nat>, p: nat, i: nat)
      requires Lasts(all, c, us) && n.forward.Length == |us| && p < |all| && i < all[p].forward.Length
      ensures var all', p' := InsertAt(all, c, n), if p < c then p else p + 1;
        Target(all, n, us, |us|, p, i) == At(all', Next(all', p', i))
    {
      hide InsertAt, Next;
      NextInsert(all, c, n, p, i);
      if i < |us| && p < c {
        assert Last(all, c, i, us[i]);
        LastUnique(all, c, i, us[i], p);
      }
    }

    static lemma NewTarget(all: seq<Node<V>>, c: nat, n: Node<V>, us: seq<nat>, i: nat)
      requires Lasts(all, c, us) && n.forward.Length == |us| && i < |us|
      ensures var all' := InsertAt(all, c, n);
        At(all, Next(all, us[i], i)) == At(all', Next(all', c, i))
    {
      hide InsertAt, Next;
      assert Last(all, c, i, us[i]);
      NextInsert(all, c, n, us[i], i);
    }

    static lemma LinkedInsert(all: seq<Node<V>>, c: nat, n: Node<V>, us: seq<nat>)
      requires Lasts(all, c, us) && n.forward.Length == |us| && Spliced(all, c, n, us, |us|)
      ensures Linked(InsertAt(all, c, n))
    {
      hide InsertAt, Target, Next, Lasts;
      LastsBound(all, c, us);
      var all' := InsertAt(all, c, n);
      forall p, i | 0 <= p < |all'| && 0 <= i < all'[p].forward.Length
        ensures all'[p].forward[i] == At(all', Next(all', p, i))
      {
        if p == c {
          NewTarget(all, c, n, us, i);
        } else {
          InsertTarget(all, c, n, us, if p < c then p else p - 1, i);
        }
      }
    }

    static lemma LastsBound(all: seq<Node<V>>, c: nat, us: seq<nat>)
      requires Lasts(all, c, us)
      ensures 0 < c <= |all| && forall i :: 0 <= i < |us| ==> us[i] < c && all[us[i]].forward.Length > i
    {}

    static lemma SplicedNone(all: seq<Node<V>>, c: nat, n: Node<V>, us: seq<nat>)
      requires Lasts(all, c, us) && n.forward.Length == |us| && Linked(all)
      ensures Spliced(all, c, n, us, 0)
    {}

    /** Link node n into lane i. */
    method SpliceLane(n: Node<V>, i: nat, prev: Node<V>, ghost us: seq<nat>, ghost c: nat)
      requires Apart(all) && Lasts(all, c, us) && i < |us| == n.forward.Length && prev == all[us[i]]
      requires forall m :: m in all ==> m.forward != n.forward
      requires Spliced(all, c, n, us, i)
      modifies n.forward, prev.forward
      ensures Spliced(all, c, n, us, i + 1)
    {
      LastsBound(all, c, us);
      OnlyThis(us[i]);
      hide Apart, Lasts, Next, At, Last, Target;
      var u := us[i];
      n.forward[i] := prev.forward[i];
      prev.forward[i] := n;
      assert all[u].forward == prev.forward && prev.forward != n.forward;
      TargetAt(all, n, us, i, u);
      forall p, j | 0 <= p < |all| && 0 <= j < all[p].forward.Length
        ensures all[p].forward[j] == Target(all, n, us, i + 1, p, j)
      {
        TargetStep(all, n, us, i, p, j);
        assert all[p].forward != n.forward;
        assert p != u ==> all[p].forward != prev.forward;
        if p != u || j != i {
          assert all[p].forward[j] == old(all[p].forward[j]);
        }
      }
    }

    static lemma TargetStep(all: seq<Node<V>>, n: Node<V>, us: seq<nat>, k: nat, p: nat, i: nat)
      requires p < |all| && k < |us|
      ensures Target(all, n, us, k + 1, p, i) == if p == us[k] && i == k then n else Target(all, n, us, k, p, i)
    {}

    static lemma TargetAt(all: seq<Node<V>>, n: Node<V>, us: seq<nat>, k: nat, u: nat)
      requires k < |us| && u == us[k] < |all|
      ensures Target(all, n, us, k, u, k) == At(all, Next(all, u, k))
    {}

    /** Link node n into every lane below its height. */
    method Splice(n: Node<V>, update: seq<Node<V>>, ghost us: seq<nat>, ghost c: nat)
      requires Linked(all) && Apart(all) && Lasts(all, c, us) && |update| == |us| == n.forward.Length
      requires forall m :: m in all ==> m.forward != n.forward
      requires forall i :: 0 <= i < |us| ==> update[i] == all[us[i]]
      modifies n.forward, set m: Node<V> | m in all :: m.forward
      ensures Linked(InsertAt(all, c, n))
    {
      hide Apart, Lasts, Next, Linked, Spliced, InsertAt;
      LastsBound(all, c, us);
      SplicedNone(all, c, n, us);
      for i := 0 to |update|
        invariant Spliced(all, c, n, us, i)
      {
        SpliceLane(n, i, update[i], us, c);
      }
      LinkedInsert(all, c, n, us);
    }

    lemma OnlyThis(u: nat)
      requires Apart(all) && u < |all|
      ensures forall p :: 0 <= p < |all| && p != u ==> all[p].forward != all[u].forward
    {}

    static lemma CarriesInsert(all: seq<Node<V>>, s: seq<(nat, V)>, r: nat, n: Node<V>, e: (nat, V))
      requires Carries(all, s) && r <= |s| && n.key == e.0 && n.value == Some(e.1)
      ensures Carries(InsertAt(all, r + 1, n), InsertAt(s, r, e))
    {
      hide InsertAt;
    }

    static lemma ApartInsert(all: seq<Node<V>>, c: nat, n: Node<V>)
      requires Apart(all) && c <= |all| && n !in all && forall m :: m in all ==> m.forward != n.forward
      ensures Apart(InsertAt(all, c, n))
    {
      hide InsertAt;
    }

    static lemma LeveledInsert(all: seq<Node<V>>, level: nat, c: nat, n: Node<V>)
      requires Leveled(all, level) && 0 < c <= |all| && 1 <= n.forward.Length <= MAX_LEVEL
      ensures Leveled(InsertAt(all, c, n), if n.forward.Length > level then n.forward.Length else level)
    {
      hide InsertAt;
      var all' := InsertAt(all, c, n);
      assert all'[c] == n;
      if level > 1 {
        var p :| 1 <= p < |all| && all[p].forward.Length == level;
        assert all'[if p < c then p else p + 1] == all[p];
      }
    }

    /** Above the current level the header is the last node before any position. */
    static lemma HeaderLast(all: seq<Node<V>>, level: nat, c: nat, i: nat)
      requires Leveled(all, level) && 0 < c <= |all| && level <= i < MAX_LEVEL
      ensures Last(all, c, i, 0)
    {
      NextIs(all, 0, i, |all|);
    }

    /** The lanes up to the new node's height: those found, then the header. */
    method LanesBelow(found: seq<Node<V>>, ghost fs: seq<nat>, h: nat, ghost c: nat)
      returns (update: seq<Node<V>>, ghost us: seq<nat>)
      requires Leveled(all, level) && all[0] == header && 0 < c <= |all| && 1 <= h <= MAX_LEVEL
      requires |found| == |fs| == level && forall i :: 0 <= i < level ==>
        Last(all, c, i, fs[i]) && found[i] == all[fs[i]]
      ensures |update| == |us| == h && Lasts(all, c, us) && forall i :: 0 <= i < h ==> update[i] == all[us[i]]
    {
      if h <= level {
        return found[..h], fs[..h];
      }
      update, us := found, fs;
      for i := level to h
        invariant |update| == |us| == i
        invariant forall j :: 0 <= j < |us| ==> us[j] < c && Last(all, c, j, us[j]) && update[j] == all[us[j]]
      {
        HeaderLast(all, level, c, i);
        update, us := update + [header], us + [0];
      }
    }

    /** The element is present: only its value changes. */
    method Overwrite(x: Node<V>, value: V, ghost r: nat)
      requires Valid() && r < |contents| && x == all[r + 1] && Same(compare, contents[r], (x.key, value))
      modifies this`contents, x`value
      ensures Valid() && contents == old(contents)[r := (x.key, value)]
      ensures x.value == Some(value)
    {
      ReplacedAscending(compare, contents, r, (x.key, value));
      hide TotalPreorder, Ascending, Leveled, Linked, Next;
      x.value := Some(value);
      contents := contents[r := (x.key, value)];
    }

    /** Link a new node into its rank, after the given lane positions. */
    method SpliceNew(x: Node<V>, update: seq<Node<V>>, ghost us: seq<nat>, ghost r: nat)
      requires Wired(all, contents, level) && 1 <= x.forward.Length <= MAX_LEVEL && r <= |contents|
      requires x !in all && forall m :: m in all ==> m.forward != x.forward
      requires x.value.Some?
      requires |update| == |us| == x.forward.Length && Lasts(all, r + 1, us)
      requires forall i :: 0 <= i < |us| ==> update[i] == all[us[i]]
      modifies x.forward, set n: Node<V> | n in all :: n.forward
      ensures r + 1 <= |all|
      ensures Wired(InsertAt(all, r + 1, x), InsertAt(contents, r, (x.key, x.value.value)),
                    if x.forward.Length > level then x.forward.Length else level)
    {
      WiredParts(all, contents, level);
      hide Leveled, Linked, Apart, Carries, Lasts, Wired;
      Splice(x, update, us, r + 1);
      WiredInsert(all, contents, level, r, x, (x.key, x.value.value));
    }

    static lemma WiredParts(all: seq<Node<V>>, s: seq<(nat, V)>, level: nat)
      requires Wired(all, s, level)
      ensures Apart(all) && Leveled(all, level) && Carries(all, s) && Linked(all) && |all| == |s| + 1
    {}

    static lemma WiredInsert(all: seq<Node<V>>, s: seq<(nat, V)>, level: nat, r: nat, n: Node<V>, e: (nat, V))
      requires Apart(all) && Leveled(all, level) && Carries(all, s) && r <= |s|
      requires n !in all && (forall m :: m in all ==> m.forward != n.forward)
      requires 1 <= n.forward.Length <= MAX_LEVEL && n.key == e.0 && n.value == Some(e.1)
      requires Linked(InsertAt(all, r + 1, n))
      ensures Wired(InsertAt(all, r + 1, n), InsertAt(s, r, e), if n.forward.Length > level then n.forward.Length
        else level)
    {
      LeveledInsert(all, level, r + 1, n);
      ApartInsert(all, r + 1, n);
      CarriesInsert(all, s, r, n, e);
    }

    /** The element is absent: a new node of the given height takes its place. */
    method InsertMissing(key: nat, value: V, height: nat, found: seq<Node<V>>, ghost fs: seq<nat>, ghost r: nat)
      returns (x: Node<V>)
      requires Valid() && 1 <= height <= MAX_LEVEL && r <= |contents|
      requires Ascending(compare, InsertAt(contents, r, (key, value)))
      requires |found| == |fs| == level && forall i :: 0 <= i < level ==>
        Last(all, r + 1, i, fs[i]) && found[i] == all[fs[i]]
      modifies this, set n: Node<V> | n in all :: n.forward
      ensures Valid() && contents == InsertAt(old(contents), r, (key, value))
      ensures fresh(x) && fresh(x.forward) && x.key == key && x.value == Some(value)
      ensures x in all && forall n :: n in all ==> n == x || n in old(all)
    {
      WiredParts(all, contents, level);
      hide TotalPreorder, Ascending, Wired, Last, InsertAt, Leveled, Linked, Apart, Carries;
      var update, us := LanesBelow(found, fs, height, r + 1);
      x := new Node<V>(height, key, Some(value));
      SpliceNew(x, update, us, r);
      Enter(x, height, r, (key, value));
    }

    /** Account for a spliced node. */
    method Enter(x: Node<V>, height: nat, ghost r: nat, ghost e: (nat, V))
      requires TotalPreorder(compare) && r <= |contents| && |all| == length + 1 == |contents| + 1 && all[0] == header
      requires Wired(InsertAt(all, r + 1, x), InsertAt(contents, r, e), if height > level then height else level)
      requires Ascending(compare, InsertAt(contents, r, e))
      modifies this
      ensures Valid() && contents == InsertAt(old(contents), r, e)
      ensures x in all && forall n :: n in all ==> n == x || n in old(all)
    {
      hide TotalPreorder, Ascending, Wired, InsertAt;
      InsertAtHead(all, r + 1, x);
      if height > level {
        level := height;
      }
      length := length + 1;
      all := InsertAt(all, r + 1, x);
      contents := InsertAt(contents, r, e);
    }

    /** Insert with an arbitrary random level. */
    method Insert(key: nat, value: V, randomLevel: nat) returns (x: Node<V>)
      requires Valid() && 1 <= randomLevel <= 12
      modifies this, all, set n: Node<V> | n in all :: n.forward
      ensures Valid() && contents == Inserted(compare, old(contents), (key, value))
      ensures x in all && x.key == key && x.value == Some(value)
      ensures forall n :: n in all ==> n in old(all) || (fresh(n) && fresh(n.forward))
    {
      hide TotalPreorder, Ascending, Wired, Rank, Last, InsertAt, Inserted, Removed, Next, Leveled, Linked, Apart,
        Carries;
      ghost var r := Rank(compare, contents, (key, value));
      InsertedAscending(compare, contents, (key, value));
      InsertedCases(compare, contents, (key, value));
      var x0, found, fs := LookupInternal(key, value);
      if r < |contents| { Held(r); }
      if x0 != null && key == x0.key && compare(x0.value.value, value) == 0 {
        x := x0;
        Overwrite(x, value, r);
      } else {
        x := InsertMissing(key, value, randomLevel, found, fs, r);
      }
    }

    lemma Held(r: nat)
      requires Valid() && r < |contents|
      ensures all[r + 1].value == Some(contents[r].1) && all[r + 1].key == contents[r].0
    {}

    // ----- deletion ------------------------------------------------------------------------

    /** What node p of lane i points to once position c has been taken off the first k lanes. */
    static ghost function Bypass(all: seq<Node<V>>, c: nat, us: seq<nat>, k: nat, p: nat, i: nat): Node?<V>
      requires p < |all| && c < |all|
    {
      if i < k && i < |us| && p == us[i] && Next(all, p, i) == c then At(all, Next(all, c, i))
        else At(all, Next(all, p, i))
    }

    static ghost predicate Bypassed(all: seq<Node<V>>, c: nat, us: seq<nat>, k: nat)
      reads set m: Node<V> | m in all :: m.forward
      requires c < |all| && Lasts(all, c, us)
    {
      forall p, i {:trigger all[p].forward[i]} ::
        0 <= p < |all| && 0 <= i < all[p].forward.Length ==>
          all[p].forward[i] == Bypass(all, c, us, k, p, i)
    }

    static lemma BypassNone(all: seq<Node<V>>, c: nat, us: seq<nat>)
      requires c < |all| && Lasts(all, c, us) && Linked(all)
      ensures Bypassed(all, c, us, 0)
    {}

    static lemma BypassStep(all: seq<Node<V>>, c: nat, us: seq<nat>, k: nat, p: nat, i: nat)
      requires p < |all| && c < |all| && k < |us|
      ensures Bypass(all, c, us, k + 1, p, i) ==
        if p == us[k] && i == k && Next(all, p, i) == c then At(all, Next(all, c, i)) else Bypass(all, c, us, k, p, i)
    {}

    static lemma BypassAt(all: seq<Node<V>>, c: nat, us: seq<nat>, k: nat, u: nat)
      requires Apart(all) && c < |all| && k < |us| && u == us[k] < c
      ensures Bypass(all, c, us, k, u, k) == At(all, Next(all, u, k))
      ensures Bypass(all, c, us, k, u, k) == all[c] <==> Next(all, u, k) == c
      ensures Bypass(all, c, us, k, c, k) == At(all, Next(all, c, k))
    {}

    static lemma BypassTarget(all: seq<Node<V>>, c: nat, us: seq<nat>, level: nat, p: nat, i: nat)
      requires Leveled(all, level) && 0 < c < |all| && Lasts(all, c, us) && |us| == level
      requires p < |all| && p != c && i < all[p].forward.Length
      ensures var all', p' := RemoveAt(all, c), if p < c then p else p - 1;
        Bypass(all, c, us, |us|, p, i) == At(all', Next(all', p', i))
    {
      hide RemoveAt, Next;
      NextRemove(all, c, p, i);
      if p < c && Next(all, p, i) == c {
        assert all[c].forward.Length > i;
        assert Last(all, c, i, us[i]);
        LastUnique(all, c, i, us[i], p);
      }
    }

    static lemma LinkedRemove(all: seq<Node<V>>, c: nat, us: seq<nat>, level: nat)
      requires Leveled(all, level) && 0 < c < |all| && Lasts(all, c, us) && |us| == level
      requires Bypassed(all, c, us, level)
      ensures Linked(RemoveAt(all, c))
    {
      hide RemoveAt, Bypass, Next, Lasts, Leveled;
      var all' := RemoveAt(all, c);
      forall p, i | 0 <= p < |all'| && 0 <= i < all'[p].forward.Length
        ensures all'[p].forward[i] == At(all', Next(all', p, i))
      {
        BypassTarget(all, c, us, level, if p < c then p else p + 1, i);
      }
    }

    /** Take the node at position c off lane i, if it is on it. */
    method BypassLane(x: Node<V>, i: nat, prev: Node<V>, ghost us: seq<nat>, ghost c: nat)
      requires Apart(all) && c < |all| && x == all[c] && Lasts(all, c, us) && i < |us| && prev == all[us[i]]
      requires Bypassed(all, c, us, i)
      modifies prev.forward
      ensures Bypassed(all, c, us, i + 1)
    {
      LastsBound(all, c, us);
      OnlyThis(us[i]);
      var u := us[i];
      BypassAt(all, c, us, i, u);
      hide Apart, Lasts, At, Last, Bypass;
      if prev.forward[i] == x {
        assert Next(all, u, i) == c;
        prev.forward[i] := x.forward[i];
      }
      forall p, j | 0 <= p < |all| && 0 <= j < all[p].forward.Length
        ensures all[p].forward[j] == Bypass(all, c, us, i + 1, p, j)
      {
        BypassStep(all, c, us, i, p, j);
        assert p != u ==> all[p].forward != prev.forward;
        if p != u || j != i {
          assert all[p].forward[j] == old(all[p].forward[j]);
        }
      }
    }

    /** Take the node at position c off all its lanes. */
    method Bypassing(x: Node<V>, update: seq<Node<V>>, ghost us: seq<nat>, ghost c: nat)
      requires Wired(all, contents, level) && 0 < c < |all| && x == all[c]
      requires |update| == |us| == level && Lasts(all, c, us) && forall i :: 0 <= i < level ==> update[i] == all[us[i]]
      modifies set n: Node<V> | n in all :: n.forward
      ensures Linked(RemoveAt(all, c))
    {
      WiredParts(all, contents, level);
      LastsBound(all, c, us);
      BypassNone(all, c, us);
      hide Wired, Lasts, Linked, Apart, Leveled, Carries, Bypassed, RemoveAt;
      for i := 0 to |update|
        invariant Bypassed(all, c, us, i)
      {
        BypassLane(x, i, update[i], us, c);
      }
      LinkedRemove(all, c, us, level);
    }

    /** Lower the level to the tallest node left. */
    method LowerLevel()
      requires Linked(all) && |all| > 0 && all[0] == header && header.forward.Length == MAX_LEVEL
      requires 1 <= level <= MAX_LEVEL
      requires forall p {:trigger all[p].forward} :: 1 <= p < |all| ==> 1 <= all[p].forward.Length <= level
      modifies this`level
      ensures Leveled(all, level)
    {
      while level > 1 && header.forward[level - 1] == null
        invariant 1 <= level <= MAX_LEVEL
        invariant forall p {:trigger all[p].forward} :: 1 <= p < |all| ==> 1 <= all[p].forward.Length <= level
      {
        assert all[0].forward[level - 1] == At(all, Next(all, 0, level - 1));
        level := level - 1;
      }
      if level > 1 {
        assert all[0].forward[level - 1] == At(all, Next(all, 0, level - 1));
      }
    }

    static lemma WiredRemove(all: seq<Node<V>>, s: seq<(nat, V)>, level: nat, r: nat, level': nat)
      requires Apart(all) && Leveled(all, level) && Carries(all, s) && r < |s|
      requires Linked(RemoveAt(all, r + 1)) && Leveled(RemoveAt(all, r + 1), level')
      ensures Wired(RemoveAt(all, r + 1), RemoveAt(s, r), level')
    {
      hide RemoveAt, Linked, Leveled;
    }

    static lemma HeightsRemove(all: seq<Node<V>>, level: nat, c: nat)
      requires Leveled(all, level) && 0 < c < |all|
      ensures var all' := RemoveAt(all, c);
        && |all'| == |all| - 1 && all'[0] == all[0]
        && (forall p {:trigger all'[p].forward} :: 1 <= p < |all'| ==> 1 <= all'[p].forward.Length <= level)
        && (forall n :: n in all' ==> n in all)
    {
      hide RemoveAt;
    }

    /** The element is present at position r + 1: unlink it and forget it. */
    method DeletePresent(x: Node<V>, update: seq<Node<V>>, ghost us: seq<nat>, ghost r: nat)
      requires Valid() && r < |contents| && x == all[r + 1]
      requires Ascending(compare, RemoveAt(contents, r))
      requires |update| == |us| == level && Lasts(all, r + 1, us) && forall i :: 0 <= i < level ==>
        update[i] == all[us[i]]
      modifies this, set n: Node<V> | n in all :: n.forward
      ensures Valid() && contents == RemoveAt(old(contents), r)
      ensures forall n :: n in all ==> n in old(all)
    {
      WiredParts(all, contents, level);
      hide TotalPreorder, Ascending, Wired, RemoveAt, Linked, Apart, Leveled, Carries, Lasts;
      Bypassing(x, update, us, r + 1);
      Forget(r);
    }

    /** Account for an unlinked node. */
    method Forget(ghost r: nat)
      requires TotalPreorder(compare) && r < |contents| && |all| == length + 1 == |contents| + 1 && all[0] == header
      requires Apart(all) && Leveled(all, level) && Carries(all, contents) && Linked(RemoveAt(all, r + 1))
      requires Ascending(compare, RemoveAt(contents, r))
      modifies this
      ensures Valid() && contents == RemoveAt(old(contents), r)
      ensures forall n :: n in all ==> n in old(all)
    {
      HeightsRemove(all, level, r + 1);
      LeveledBounds(all, level);
      hide TotalPreorder, Ascending, Wired, RemoveAt, Linked, Apart, Leveled, Carries;
      ghost var all0, level0 := all, level;
      all := RemoveAt(all, r + 1);
      LowerLevel();
      WiredRemove(all0, contents, level0, r, level);
      length := length - 1;
      contents := RemoveAt(contents, r);
    }

    static lemma LeveledBounds(all: seq<Node<V>>, level: nat)
      requires Leveled(all, level)
      ensures 1 <= level <= MAX_LEVEL && |all| > 0 && all[0].forward.Length == MAX_LEVEL
    {}

    /** Delete (key, value): 0 if it was there, -1 if not. */
    method Delete(key: nat, value: V) returns (result: int)
      requires Valid()
      modifies this, set n: Node<V> | n in all :: n.forward
      ensures Valid() && contents == Removed(compare, old(contents), (key, value))
      ensures result == if Hit(compare, old(contents), (key, value)) then 0 else -1
      ensures forall n :: n in all ==> n in old(all)
    {
      hide TotalPreorder, Ascending, Wired, Rank, Last, RemoveAt, Inserted, Removed, Next, Leveled, Linked, Apart,
        Carries;
      ghost var r := Rank(compare, contents, (key, value));
      InsertedCases(compare, contents, (key, value));
      var x, update, us := LookupInternal(key, value);
      if r < |contents| { Held(r); }
      if x != null && key == x.key && compare(x.value.value, value) == 0 {
        RemovedAscending(compare, contents, r);
        LastsAre(all, r + 1, us);
        DeletePresent(x, update, us, r);
        return 0;
      }
      return -1;
    }

    static lemma LastsAre(all: seq<Node<V>>, c: nat, us: seq<nat>)
      requires 0 < c <= |all| && forall i :: 0 <= i < |us| ==> Last(all, c, i, us[i])
      ensures Lasts(all, c, us)
    {}

    // ----- cyclic lookup -------------------------------------------------------------------

    /** Follow lane i as long as the keys are smaller. */
    method WalkLaneByKey(start: Node<V>, i: nat, key: nat, ghost p: nat, ghost c: nat)
      returns (x: Node<V>, ghost q: nat)
      requires Valid() && p < c <= |all| && start == all[p] && i < all[p].forward.Length
      requires forall j :: 0 <= j < |contents| ==> (contents[j].0 < key <==> j + 1 < c)
      ensures q < c && x == all[q] && x.forward.Length > i && Last(all, c, i, q)
    {
      x := start;
      q := p;
      Ahead(q, i);
      hide TotalPreorder, Ascending, Apart, Linked, Carries, Leveled, Wired;
      while x.forward[i] != null && x.forward[i].key < key
        invariant q < c && x == all[q] && all[q].forward.Length > i
        invariant x.forward[i] == At(all, Next(all, q, i))
        invariant x.forward[i] != null ==> x.forward[i].key == contents[Next(all, q, i) - 1].0
        decreases |all| - q
      {
        q := Next(all, q, i);
        x := x.forward[i];
        Ahead(q, i);
      }
    }

    /** The first element with at least the given key, or the very first, or nothing. */
    method LookupCycle(key: nat) returns (r: Option<V>)
      requires Valid()
      ensures contents == [] ==> r == None
      ensures contents != [] ==> r == Some(contents[Cyclic(contents, key)].1)
    {
      ghost var c := KeyRank(contents, key) + 1;
      KeysAscend(compare, contents, key);
      Heights();
      hide TotalPreorder, Ascending, KeyRank, Apart, Linked, Carries, Leveled, Last, Wired;
      var x := header;
      ghost var p: nat := 0;
      var i := level;
      while i > 0
        invariant 0 <= i <= level && p < c && x == all[p] && all[p].forward.Length >= i
        invariant i < level ==> Last(all, c, i, p)
      {
        i := i - 1;
        x, p := WalkLaneByKey(x, i, key, p, c);
      }
      LastOnLane0(p, c);
      First();
      if x.forward[0] != null {
        Held(c - 1);
        r := x.forward[0].value;
      } else if header.forward[0] != null {
        Held(0);
        r := header.forward[0].value;
      } else {
        r := None;
      }
    }

    lemma First()
      requires Valid()
      ensures header.forward.Length > 0 && header.forward[0] == At(all, 1)
    {
      NextIs(all, 0, 0, 1);
    }
  }
}
