/** The LRU cache: a recency list of entries and a table from keys to its nodes. */
module Cache {
  import opened Options
  import opened LinkedList

  class Entry<K, V> {
    const key: K
    const value: V
    var hits: nat
    var lastHitTime: int

    constructor (key: K, value: V)
      ensures this.key == key && this.value == value && hits == 0 && lastHitTime == 0
    {
      this.key, this.value := key, value;
      hits, lastHitTime := 0, 0;
    }
  }

  /** What the table keeps for a key: the stored key is the one inside `owner`, the value is a list node. */
  datatype Slot<K, V> = Slot(owner: Entry<K, V>, node: Node<Entry<K, V>>)

  // ----- sequences of keys -----------------------------------------------------------------

  function Keys<K, V>(s: seq<Entry<K, V>>): (r: seq<K>)
    ensures |r| == |s| && forall i {:trigger r[i]} :: 0 <= i < |s| ==> r[i] == s[i].key
  {
    seq(|s|, i requires 0 <= i < |s| => s[i].key)
  }

  predicate Distinct<T(==)>(s: seq<T>) {
    forall i, j :: 0 <= i < j < |s| ==> s[i] != s[j]
  }

  /** The first n elements. */
  function Take<T>(n: nat, s: seq<T>): seq<T> {
    if |s| <= n then s else s[..n]
  }

  /** The other elements. */
  function Excess<T>(n: nat, s: seq<T>): seq<T> {
    if |s| <= n then [] else s[n..]
  }

  function Without<T(==, !new)>(s: seq<T>, x: T): (r: seq<T>)
    ensures |r| <= |s|
    ensures forall y :: y in r <==> y in s && y != x
  {
    if s == [] then [] else if s[0] == x then Without(s[1..], x) else [s[0]] + Without(s[1..], x)
  }

  /** The keys requested, the most recent first, each once: what a cache without limit holds. */
  function Recent<K(==, !new)>(requests: seq<K>): (r: seq<K>)
    ensures forall k :: k in r <==> k in requests
  {
    if requests == [] then []
    else var n := |requests| - 1; [requests[n]] + Without(Recent(requests[..n]), requests[n])
  }

  /** One request to a least-recently-used list of at most n keys: a hit moves the key to the
      front, a miss puts it there and drops the last key if the list is full. */
  function Touch<K(==, !new)>(n: nat, keys: seq<K>, k: K): seq<K> {
    if k in keys then [k] + Without(keys, k)
    else [k] + (if |keys| < n || keys == [] then keys else keys[..|keys| - 1])
  }

  lemma {:induction false} WithoutDistinct<K(!new)>(s: seq<K>, x: K)
    requires Distinct(s)
    ensures Distinct(Without(s, x)) && |Without(s, x)| == |s| - if x in s then 1 else 0
  {
    if s != [] {
      var t := s[1..];
      assert s == [s[0]] + t && s[0] !in t;
      WithoutDistinct(t, x);
      if s[0] == x {
        WithoutAbsent(t, x);
      } else {
        DistinctCons(s[0], Without(t, x));
      }
    }
  }

  lemma DistinctCons<K>(x: K, s: seq<K>)
    requires Distinct(s) && x !in s
    ensures Distinct([x] + s)
  {}

  lemma {:induction false} WithoutTake<K(!new)>(s: seq<K>, x: K, n: nat)
    requires Distinct(s)
    ensures x in Take(n, s) ==> n > 0 && Without(Take(n, s), x) == Take(n - 1, Without(s, x))
    ensures x !in Take(n, s) ==> Take(n, Without(s, x)) == Take(n, s)
    decreases |s|
  {
    if s != [] && n > 0 {
      WithoutTake(s[1..], x, n - 1);
      assert s == [s[0]] + s[1..];
      TakeFirst(n, s[0], s[1..]);
      var t := Take(n - 1, s[1..]);
      assert ([s[0]] + t)[1..] == t;
      if s[0] == x {
        WithoutAbsent(s[1..], x);
        WithoutAbsent(t, x);
      } else {
        TakeFirst(n, s[0], Without(s[1..], x));
        if x in t { TakeFirst(n - 1, s[0], Without(s[1..], x)); }
      }
    }
  }

  lemma TakeFirst<T>(n: nat, x: T, s: seq<T>)
    requires n > 0
    ensures Take(n, [x] + s) == [x] + Take(n - 1, s)
  {}

  lemma {:induction false} WithoutAbsent<K(!new)>(s: seq<K>, x: K)
    requires x !in s
    ensures Without(s, x) == s
  {
    if s != [] {
      WithoutAbsent(s[1..], x);
    }
  }

  lemma {:induction false} RecentDistinct<K(!new)>(requests: seq<K>)
    ensures Distinct(Recent(requests))
  {
    if requests != [] {
      var n := |requests| - 1;
      RecentDistinct(requests[..n]);
      WithoutDistinct(Recent(requests[..n]), requests[n]);
    }
  }

  /** One more request to a cache that holds the n most recent keys: it holds them again. */
  lemma TouchRecent<K(!new)>(n: nat, requests: seq<K>, k: K)
    requires n > 0
    ensures Touch(n, Take(n, Recent(requests)), k) == Take(n, Recent(requests + [k]))
  {
    var r := Recent(requests);
    assert (requests + [k])[..|requests|] == requests;
    assert Recent(requests + [k]) == [k] + Without(r, k);
    RecentDistinct(requests);
    WithoutTake(r, k, n);
    WithoutTake(r, k, n - 1);
    TakeFirst(n, k, Without(r, k));
    if k !in Take(n, r) {
      assert Take(n - 1, r) == if |Take(n, r)| < n then Take(n, r) else Take(n, r)[..n - 1];
    }
  }

  // ----- the cache -------------------------------------------------------------------------

  /** Table and list correspond one to one. */
  ghost predicate Indexed<K, V>(table: map<K, Slot<K, V>>, nodes: seq<Node<Entry<K, V>>>, s: seq<Entry<K, V>>) {
    && |nodes| == |s| && (forall i, j {:trigger s[i], s[j]} :: 0 <= i < j < |s| ==> s[i].key != s[j].key)
    && (forall i {:trigger s[i]} :: 0 <= i < |s| ==> s[i].key in table && table[s[i].key] == Slot(s[i], nodes[i]))
    && (forall k :: k in table ==> exists i :: 0 <= i < |s| && s[i].key == k)
  }

  lemma {:induction false} DistinctCount<K>(s: seq<K>, m: set<K>)
    requires Distinct(s) && (forall k :: k in s <==> k in m)
    ensures |m| == |s|
  {
    if s != [] {
      var n := |s| - 1;
      assert s == s[..n] + [s[n]];
      DistinctCount(s[..n], m - {s[n]});
    } else {
      assert m == {};
    }
  }

  lemma TableSize<K, V>(table: map<K, Slot<K, V>>, nodes: seq<Node<Entry<K, V>>>, s: seq<Entry<K, V>>)
    requires Indexed(table, nodes, s)
    ensures |table| == |s|
  {
    KeysOfTable(table, nodes, s);
    DistinctCount(Keys(s), table.Keys);
  }

  lemma KeysOfTable<K, V>(table: map<K, Slot<K, V>>, nodes: seq<Node<Entry<K, V>>>, s: seq<Entry<K, V>>)
    requires Indexed(table, nodes, s)
    ensures Distinct(Keys(s)) && forall k :: k in Keys(s) <==> k in table
  {
    forall k ensures k in Keys(s) <==> k in table {
      if k in Keys(s) {
        var i :| 0 <= i < |s| && Keys(s)[i] == k;
        assert s[i].key in table;
      }
      if k in table {
        var i :| 0 <= i < |s| && s[i].key == k;
        assert Keys(s)[i] == k;
      }
    }
  }

  /** Dropping the last entry from both. */
  lemma IndexedDrop<K, V>(table: map<K, Slot<K, V>>, nodes: seq<Node<Entry<K, V>>>, s: seq<Entry<K, V>>)
    requires Indexed(table, nodes, s) && s != []
    ensures var n := |s| - 1; Indexed(table - {s[n].key}, nodes[..n], s[..n])
    ensures RemoveAt(nodes, |s| - 1) == nodes[..|s| - 1] && RemoveAt(s, |s| - 1) == s[..|s| - 1]
  {
    var n := |s| - 1;
    var t := table - {s[n].key};
    forall i | 0 <= i < n ensures s[..n][i].key in t && t[s[..n][i].key] == Slot(s[..n][i], nodes[..n][i]) {
      assert s[i].key != s[n].key;
    }
    forall k | k in t ensures exists i :: 0 <= i < n && s[..n][i].key == k {
      var i :| 0 <= i < |s| && s[i].key == k;
      assert s[..n][i].key == k;
    }
  }

  /** Moving entry k to the front of both. */
  lemma IndexedMove<K, V>(table: map<K, Slot<K, V>>, nodes: seq<Node<Entry<K, V>>>, s: seq<Entry<K, V>>, k: nat)
    requires Indexed(table, nodes, s) && k < |s|
    ensures Indexed(table, [nodes[k]] + RemoveAt(nodes, k), [s[k]] + RemoveAt(s, k))
  {
    hide RemoveAt;
    var s', nodes' := [s[k]] + RemoveAt(s, k), [nodes[k]] + RemoveAt(nodes, k);
    forall i | 0 <= i < |s'| ensures s'[i] == s[Came(k, i)] && nodes'[i] == nodes[Came(k, i)] && Came(k, i) < |s| {}
    forall x | x in table ensures exists i :: 0 <= i < |s'| && s'[i].key == x {
      var i :| 0 <= i < |s| && s[i].key == x;
      assert s'[if i == k then 0 else if i < k then i + 1 else i].key == x;
    }
  }

  /** Where entry i of the list was before entry k moved to the front. */
  function Came(k: nat, i: nat): nat {
    if i == 0 then k else if i <= k then i - 1 else i
  }

  lemma KeysMove<K, V>(s: seq<Entry<K, V>>, k: nat)
    requires k < |s|
    ensures Keys([s[k]] + RemoveAt(s, k)) == [s[k].key] + RemoveAt(Keys(s), k)
  {
    hide RemoveAt;
  }

  /** Adding an entry with a new key to the front of both. */
  lemma IndexedAdd<K, V>(table: map<K, Slot<K, V>>, nodes: seq<Node<Entry<K, V>>>, s: seq<Entry<K, V>>,
      e: Entry<K, V>, n: Node<Entry<K, V>>)
    requires Indexed(table, nodes, s) && e.key !in table
    ensures Indexed(table[e.key := Slot(e, n)], [n] + nodes, [e] + s)
    ensures Keys([e] + s) == [e.key] + Keys(s)
  {
    var s', nodes' := [e] + s, [n] + nodes;
    assert Keys(s') == [e.key] + Keys(s);
    var table' := table[e.key := Slot(e, n)];
    forall k | k in table' ensures exists i :: 0 <= i < |s'| && s'[i].key == k {
      if k == e.key {
        assert s'[0].key == k;
      } else {
        var i :| 0 <= i < |s| && s[i].key == k;
        assert s'[i + 1].key == k;
      }
    }
  }

  lemma WithoutIs<K(!new)>(s: seq<K>, k: nat)
    requires Distinct(s) && k < |s|
    ensures Without(s, s[k]) == RemoveAt(s, k)
    decreases k
  {
    assert s == [s[0]] + s[1..];
    if k == 0 {
      assert s[0] !in s[1..];
      WithoutAbsent(s[1..], s[0]);
    } else {
      WithoutIs(s[1..], k - 1);
    }
  }

  /** All but the n last elements. */
  function Newest<T>(n: nat, s: seq<T>): seq<T> {
    if n < |s| then s[..|s| - n] else []
  }

  /** The n last elements. */
  function Oldest<T>(n: nat, s: seq<T>): seq<T> {
    if n < |s| then s[|s| - n..] else s
  }

  class Cache<K(==, !new), V> {
    var maxSize: nat
    const list: List<Entry<K, V>>
    var table: map<K, Slot<K, V>>

    /** Sound, whatever the size. */
    ghost predicate Coupled()
      reads this`table, list, list.nodes
    {
      list.Valid() && list.hasFree && Indexed(table, list.nodes, list.contents)
    }

    ghost predicate Valid()
      reads this`table, this`maxSize, list, list.nodes
    {
      Coupled() && 1 <= maxSize && |list.contents| <= maxSize
    }

    /** The keys in order of recency. */
    ghost function Recency(): seq<K>
      reads list
    {
      Keys(list.contents)
    }

    constructor (cacheSize: nat)
      requires cacheSize > 0
      ensures Valid() && maxSize == cacheSize && list.contents == [] && list.freed == [] && fresh(list)
    {
      maxSize := cacheSize;
      list := new List(true);
      table := map[];
    }

    /** Evict the n least recently used entries, oldest first, or all of them. */
    method EvictOldest(n: nat)
      requires Coupled()
      modifies this`table, list, list.nodes
      ensures Coupled()
      ensures list.contents == Newest(n, old(list.contents)) && list.nodes == Newest(n, old(list.nodes))
      ensures list.freed == old(list.freed) + Backwards(Oldest(n, old(list.contents)))
    {
      hide Coupled, Backwards;
      ghost var s, nodes := list.contents, list.nodes;
      Shape();
      var i := 0;
      while i < n
        invariant Coupled() && i <= n && i <= |s| == |nodes|
        invariant list.contents == s[..|s| - i] && list.nodes == nodes[..|s| - i]
        invariant list.freed == old(list.freed) + Backwards(s[|s| - i..])
      {
        Shape();
        if list.tail == null {
          break;
        }
        BackwardsMore(s, |s| - i - 1);
        EvictOne();
        i := i + 1;
      }
    }

    lemma Shape()
      requires Coupled()
      ensures |list.nodes| == |list.contents| == |table| && (list.tail == null <==> list.contents == [])
        && Backwards(list.contents[|list.contents|..]) == []
    {
      TableSize(table, list.nodes, list.contents);
    }

    method EvictOne()
      requires Coupled() && list.contents != []
      modifies this`table, list, list.nodes
      ensures Coupled()
      ensures var n := |old(list.contents)| - 1;
        list.contents == old(list.contents)[..n] && list.nodes == old(list.nodes)[..n]
          && list.freed == old(list.freed) + [old(list.contents)[n]]
    {
      var oldest := list.tail;
      ghost var n := |list.contents| - 1;
      assert oldest == list.nodes[n] && oldest.value == list.contents[n];
      var entry := oldest.value;
      IndexedDrop(table, list.nodes, list.contents);
      hide Indexed, RemoveAt, List.Linked, List.Carries;
      table := table - {entry.key};
      list.Delete(oldest, n);
    }

    /** Change the limit. A smaller one evicts the difference of the limits, however full the cache is. */
    method SetMaxSize(newSize: nat)
      requires Valid()
      modifies this`maxSize, this`table, list, list.nodes
      ensures Coupled() && |list.contents| <= maxSize == newSize && (newSize > 0 ==> Valid())
      ensures list.contents == Take(Kept(old(maxSize), newSize, |old(list.contents)|), old(list.contents))
      ensures list.freed == old(list.freed) +
        Backwards(Excess(Kept(old(maxSize), newSize, |old(list.contents)|), old(list.contents)))
    {
      var oldSize := maxSize;
      maxSize := newSize;
      if oldSize > newSize {
        Shrink(oldSize);
      } else {
        Shrunk(oldSize, newSize, list.contents);
        assert list.freed + [] == list.freed;
      }
    }

    method Shrink(oldSize: nat)
      requires Coupled() && maxSize < oldSize && |list.contents| <= oldSize
      modifies this`table, list, list.nodes
      ensures Coupled() && |list.contents| <= maxSize
      ensures list.contents == Take(Kept(oldSize, maxSize, |old(list.contents)|), old(list.contents))
      ensures list.freed == old(list.freed) +
        Backwards(Excess(Kept(oldSize, maxSize, |old(list.contents)|), old(list.contents)))
    {
      Shrunk(oldSize, maxSize, list.contents);
      hide Coupled, Backwards, Newest, Oldest, Kept, Take, Excess;
      EvictOldest(oldSize - maxSize);
    }

    /** Evicting one entry makes room when the list is full. */
    static lemma OneEvicted<T>(n: nat, s: seq<T>)
      requires n > 0 && |s| <= n
      ensures |s| < n ==> Take(n - 1, s) == s && Excess(n - 1, s) == []
      ensures |s| == n ==> Newest(1, s) == Take(n - 1, s) && Backwards(Oldest(1, s)) == Excess(n - 1, s)
      ensures |Take(n - 1, s)| < n
    {
      if |s| == n {
        assert s[n - 1..][1..] == [];
        assert Oldest(1, s) == s[n - 1..];
      }
    }

    static lemma Shrunk<T>(oldSize: nat, newSize: nat, s: seq<T>)
      requires |s| <= oldSize
      ensures var k := Kept(oldSize, newSize, |s|);
        && |Take(k, s)| <= newSize
        && (oldSize > newSize ==>
          Take(k, s) == Newest(oldSize - newSize, s) && Excess(k, s) == Oldest(oldSize - newSize, s))
        && (oldSize <= newSize ==> Take(k, s) == s && Backwards(Excess(k, s)) == [])
    {}

    method GetSize() returns (n: nat)
      requires Valid()
      ensures n == |list.contents|
    {
      Shape();
      n := |table|;
    }

    /** Look a key up and, if it is there, make it the most recent. */
    method Get(key: K, now: int) returns (r: Option<V>)
      requires Valid()
      modifies list, list.nodes, if key in table then {table[key].owner} else {}
      ensures Valid() && table == old(table) && list.freed == old(list.freed)
      ensures r == if key in table then Some(table[key].owner.value) else None
      ensures key in table ==> Recency() == Touch(maxSize, old(Recency()), key) && key in old(Recency())
      ensures key !in table ==>
        list.contents == old(list.contents) && list.nodes == old(list.nodes) && key !in Recency()
        && Recency() == old(Recency())
      ensures forall i :: 0 <= i < |list.contents| ==> list.contents[i] in old(list.contents)
      ensures forall i :: 0 <= i < |list.nodes| ==> list.nodes[i] in old(list.nodes)
      ensures key in table ==>
        table[key].owner.hits == old(table[key].owner.hits) + 1 && table[key].owner.lastHitTime == now
    {
      KeysOfTable(table, list.nodes, list.contents);
      if key !in table {
        return None;
      }
      ghost var k := Position(key);
      Promote(table[key].node, key, k);
      r := Hit(key, now);
    }

    /** Account for the use of the key at the front. */
    method Hit(key: K, now: int) returns (r: Option<V>)
      requires Valid() && key in table
      modifies table[key].owner
      ensures Valid() && r == Some(table[key].owner.value)
      ensures table[key].owner.hits == old(table[key].owner.hits) + 1 && table[key].owner.lastHitTime == now
    {
      var k := Position(key);
      var entry := table[key].node.value;
      entry.hits := entry.hits + 1;
      entry.lastHitTime := now;
      return Some(entry.value);
    }

    /** Move the node of a key to the front. */
    method Promote(node: Node<Entry<K, V>>, key: K, ghost k: nat)
      requires Coupled() && key in table && k < |list.contents| && list.nodes[k] == node == table[key].node
      requires Keys(list.contents)[k] == key && table[key].owner == list.contents[k]
      modifies list, list.nodes
      ensures Coupled() && list.freed == old(list.freed)
      ensures |list.contents| == |old(list.contents)| && Recency() == Touch(maxSize, old(Recency()), key)
      ensures forall i :: 0 <= i < |list.contents| ==> list.contents[i] in old(list.contents)
      ensures forall i :: 0 <= i < |list.nodes| ==> list.nodes[i] in old(list.nodes)
    {
      PromotedSpec(maxSize, table, list.nodes, list.contents, key, k);
      MovedElements(list.nodes, k);
      MovedElements(list.contents, k);
      hide Indexed, Keys, Touch, RemoveAt, List.Valid;
      MoveToFront(node, k);
    }

    /** The list step of a promotion. */
    method MoveToFront(node: Node<Entry<K, V>>, ghost k: nat)
      requires list.Valid() && k < |list.nodes| == |list.contents| && list.nodes[k] == node
      modifies list, list.nodes
      ensures list.Valid() && list.freed == old(list.freed) && list.hasFree == old(list.hasFree)
      ensures list.nodes == [old(list.nodes)[k]] + RemoveAt(old(list.nodes), k)
      ensures list.contents == [old(list.contents)[k]] + RemoveAt(old(list.contents), k)
    {
      hide List.Valid, RemoveAt;
      list.MoveHead(node, k);
    }

    ghost function Position(key: K): (k: nat)
      requires Coupled() && key in table
      reads this, list, list.nodes
      ensures k < |list.contents| && list.contents[k].key == key && table[key] == Slot(list.contents[k], list.nodes[k])
      ensures Keys(list.contents)[k] == key && key in Keys(list.contents)
    {
      var k :| 0 <= k < |list.contents| && list.contents[k].key == key;
      assert Keys(list.contents)[k] == key;
      k
    }

    /** Evict what is too much for one more entry. */
    method MakeRoom()
      requires Valid()
      modifies this`table, list, list.nodes
      ensures Coupled() && |list.contents| < maxSize
      ensures list.contents == Take(maxSize - 1, old(list.contents))
      ensures list.freed == old(list.freed) + Excess(maxSize - 1, old(list.contents))
      ensures list.nodes == Take(maxSize - 1, old(list.nodes))
    {
      Shape();
      OneEvicted(maxSize, list.contents);
      OneEvicted(maxSize, list.nodes);
      hide *;
      var n := |table| - maxSize;
      if n >= 0 {
        EvictFor(n + 1);
      }
    }

    /** Evict from a full list. */
    method EvictFor(n: nat)
      requires Coupled() && n == 1 <= maxSize == |list.contents| == |list.nodes|
      modifies this`table, list, list.nodes
      ensures Coupled() && list.contents == Take(maxSize - 1, old(list.contents))
        && list.nodes == Take(maxSize - 1, old(list.nodes))
      ensures |list.contents| == maxSize - 1
      ensures list.freed == old(list.freed) + Excess(maxSize - 1, old(list.contents))
    {
      OneEvicted(maxSize, list.contents);
      OneEvicted(maxSize, list.nodes);
      hide Coupled, Backwards, Newest, Oldest, Take, Excess;
      EvictOldest(n);
    }

    /** Store a value under a key that is not in the cache. */
    method Set(key: K, value: V) returns (entry: Entry<K, V>)
      requires Valid() && key !in table
      modifies this`table, list, list.nodes
      ensures Valid() && fresh(entry) && entry.key == key && entry.value == value
      ensures Recency() == Touch(maxSize, old(Recency()), key)
      ensures key in table && table[key].owner == entry
      ensures list.contents == [entry] + Take(maxSize - 1, old(list.contents))
      ensures list.freed == old(list.freed) + Excess(maxSize - 1, old(list.contents))
      ensures |list.nodes| > 0 && fresh(list.nodes[0])
        && list.nodes == [list.nodes[0]] + Take(maxSize - 1, old(list.nodes))
    {
      hide Coupled, Touch, Keys, Take, Excess;
      MakeRoomFor(key);
      entry := Enter(key, value);
    }

    lemma RoomFacts(key: K)
      requires Valid() && key !in table
      ensures [key] + Keys(Take(maxSize - 1, list.contents)) == Touch(maxSize, Recency(), key)
      ensures key !in Keys(Take(maxSize - 1, list.contents)) && |Take(maxSize - 1, list.contents)| < maxSize
      ensures var ns := Take(maxSize - 1, list.nodes); forall i :: 0 <= i < |ns| ==> ns[i] in list.nodes
    {
      KeysOfTable(table, list.nodes, list.contents);
      TouchMiss(maxSize, list.contents, key);
      TakeElements(maxSize - 1, list.nodes);
    }

    method MakeRoomFor(key: K)
      requires Valid() && key !in table
      modifies this`table, list, list.nodes
      ensures Coupled() && |list.contents| < maxSize && key !in Keys(list.contents)
      ensures list.contents == Take(maxSize - 1, old(list.contents)) && list.nodes == Take(maxSize - 1, old(list.nodes))
      ensures list.freed == old(list.freed) + Excess(maxSize - 1, old(list.contents))
      ensures [key] + Recency() == Touch(maxSize, old(Recency()), key)
      ensures forall k :: 0 <= k < |list.nodes| ==> list.nodes[k] in old(list.nodes)
    {
      hide Coupled, Touch, Keys, Take, Excess;
      RoomFacts(key);
      MakeRoom();
    }

    /** Make an entry for a new key. */
    method Enter(key: K, value: V) returns (entry: Entry<K, V>)
      requires Coupled() && key !in Keys(list.contents)
      modifies this`table, list, list.nodes
      ensures Coupled() && list.freed == old(list.freed) && list.contents == [entry] + old(list.contents)
      ensures fresh(entry) && entry.key == key && entry.value == value
      ensures Recency() == [key] + old(Recency()) && key in table && table[key].owner == entry
      ensures |list.nodes| > 0 && fresh(list.nodes[0]) && list.nodes == [list.nodes[0]] + old(list.nodes)
    {
      hide *;
      NotThere(key);
      entry := new Entry(key, value);
      Attach(entry);
    }

    lemma NotThere(key: K)
      requires Coupled() && key !in Keys(list.contents)
      ensures key !in table
    {
      KeysOfTable(table, list.nodes, list.contents);
    }

    /** A new entry at the front of the list and in the table. */
    method Attach(entry: Entry<K, V>)
      requires Coupled() && entry.key !in table
      modifies this`table, list, list.nodes
      ensures Coupled() && list.freed == old(list.freed) && list.contents == [entry] + old(list.contents)
      ensures Recency() == [entry.key] + old(Recency()) && entry.key in table && table[entry.key].owner == entry
      ensures |list.nodes| > 0 && fresh(list.nodes[0]) && list.nodes == [list.nodes[0]] + old(list.nodes)
    {
      ghost var s, nodes := list.contents, list.nodes;
      hide Indexed, Distinct, Keys;
      list.AddHead(entry);
      var first := list.head;
      assert first == list.nodes[0] && list.nodes == [first] + nodes;
      IndexedAdd(table, nodes, s, entry, first);
      table := table[entry.key := Slot(entry, first)];
    }
  }

  lemma TakeElements<T>(n: nat, s: seq<T>)
    ensures forall k :: 0 <= k < |Take(n, s)| ==> Take(n, s)[k] in s
  {}

  lemma TouchMiss<K(!new), V>(n: nat, s: seq<Entry<K, V>>, key: K)
    requires |s| <= n && n > 0 && key !in Keys(s)
    ensures [key] + Keys(Take(n - 1, s)) == Touch(n, Keys(s), key) && key !in Keys(Take(n - 1, s))
      && |Take(n - 1, s)| < n
  {
    assert Keys(Take(n - 1, s)) == Take(n - 1, Keys(s));
  }

  lemma MovedElements<T>(s: seq<T>, k: nat)
    requires k < |s|
    ensures var r := [s[k]] + RemoveAt(s, k); forall i :: 0 <= i < |r| ==> r[i] in s
  {}

  lemma PromotedSpec<K(!new), V>(n: nat, table: map<K, Slot<K, V>>, nodes: seq<Node<Entry<K, V>>>,
      s: seq<Entry<K, V>>, key: K, k: nat)
    requires Indexed(table, nodes, s) && k < |s| && Keys(s)[k] == key
    ensures Indexed(table, [nodes[k]] + RemoveAt(nodes, k), [s[k]] + RemoveAt(s, k))
    ensures Keys([s[k]] + RemoveAt(s, k)) == Touch(n, Keys(s), key) && |nodes| == |s|
  {
    KeysOfTable(table, nodes, s);
    IndexedMove(table, nodes, s, k);
    KeysMove(s, k);
    WithoutIs(Keys(s), k);
    hide Indexed, Distinct, RemoveAt;
  }

  /** How many entries SetMaxSize leaves. */
  function Kept(oldSize: nat, newSize: nat, size: nat): nat {
    if newSize < oldSize then (if size > oldSize - newSize then size - (oldSize - newSize) else 0) else size
  }

  /** SetMaxSize evicts no more than the new limit asks for exactly when the limit does not
      shrink, or the cache was full or empty. */
  lemma ShrinkIsMinimal(oldSize: nat, newSize: nat, size: nat)
    requires 1 <= newSize && size <= oldSize
    ensures Kept(oldSize, newSize, size) <= newSize
    ensures Kept(oldSize, newSize, size) == (if size <= newSize then size else newSize) <==>
      newSize >= oldSize || size == oldSize || size == 0
  {}

  /** Lowering the limit of a cache of ten by one drops its only entry. */
  lemma ShrinkEvictsTooMuch()
    ensures Kept(10, 9, 1) == 0
  {}

  lemma BackwardsMore<T>(s: seq<T>, k: nat)
    requires k < |s|
    ensures Backwards(s[k..]) == Backwards(s[k + 1..]) + [s[k]]
  {
    assert s[k..][1..] == s[k + 1..];
  }

  /** The last element first. */
  function Backwards<T>(s: seq<T>): seq<T> {
    if s == [] then [] else Backwards(s[1..]) + [s[0]]
  }
}
