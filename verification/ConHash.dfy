/** Consistent hashing over two skip lists: virtual nodes on the ring, actual nodes by name.
    Adding, removing or re-weighting a node moves objects only to or from that node. */
module ConHash {
  import opened Options
  import opened LinkedList
  import opened SkipList
  import opened Decimals
  import opened RingTexts

  // ----- names -----------------------------------------------------------------------------

  /** strcmp. */
  function Strcmp(a: string, b: string): int {
    if a == [] && b == [] then 0
    else if a == [] then -1
    else if b == [] then 1
    else if a[0] != b[0] then a[0] as int - b[0] as int
    else Strcmp(a[1..], b[1..])
  }

  lemma {:induction false} StrcmpZero(a: string, b: string)
    ensures Strcmp(a, b) == 0 <==> a == b
  {
    if a != [] && b != [] {
      StrcmpZero(a[1..], b[1..]);
      assert a == [a[0]] + a[1..] && b == [b[0]] + b[1..];
    }
  }

  lemma {:induction false} StrcmpSwap(a: string, b: string)
    ensures Strcmp(a, b) <= 0 <==> Strcmp(b, a) >= 0
  {
    if a != [] && b != [] {
      StrcmpSwap(a[1..], b[1..]);
    }
  }

  lemma {:induction false} StrcmpTrans(a: string, b: string, c: string)
    requires Strcmp(a, b) <= 0 && Strcmp(b, c) <= 0
    ensures Strcmp(a, c) <= 0
  {
    if a != [] && b != [] && c != [] && a[0] == b[0] == c[0] {
      StrcmpTrans(a[1..], b[1..], c[1..]);
    }
  }

  function Digit(d: nat): char
    requires d < 10
  {
    '0' + d as char
  }

  /** %d of a natural number. */
  function Decimal(n: nat): (s: string)
    ensures |s| == Figures(n) > 0 && '-' !in s
  {
    if n < 10 then [Digit(n)] else Decimal(n / 10) + [Digit(n % 10)]
  }

  /** %03d of a natural number. */
  function Padded(n: nat): (s: string)
    ensures |s| > 0 && '-' !in s
  {
    if n < 10 then "00" + Decimal(n) else if n < 100 then "0" + Decimal(n) else Decimal(n)
  }

  lemma {:induction false} DecimalValue(n: nat)
    ensures Value(Decimal(n)) == n
  {
    if n >= 10 {
      DecimalValue(n / 10);
      assert Decimal(n)[..|Decimal(n)| - 1] == Decimal(n / 10);
    }
  }

  lemma {:induction false} LeadingZero(s: string)
    ensures Value("0" + s) == Value(s)
  {
    if s != [] {
      assert ("0" + s)[..|s|] == "0" + s[..|s| - 1];
      LeadingZero(s[..|s| - 1]);
    } else {
      assert "0" + s == "0";
      assert "0"[..0] == [];
    }
  }

  lemma PaddedValue(n: nat)
    ensures Value(Padded(n)) == n
  {
    DecimalValue(n);
    LeadingZero(Decimal(n));
    LeadingZero("0" + Decimal(n));
    assert "00" + Decimal(n) == "0" + ("0" + Decimal(n));
  }

  lemma {:induction false} DecimalDigits(n: nat)
    ensures AllDigits(Decimal(n)) && (n > 0 ==> Decimal(n)[0] != '0')
  {
    if n >= 10 {
      DecimalDigits(n / 10);
    }
  }

  /** %03d writes the number in at least three digits. */
  lemma PaddedWritten(n: nat)
    ensures Written(Padded(n), n)
  {
    PaddedValue(n);
    DecimalDigits(n);
    assert n >= 100 ==> Figures(n) == Figures(n / 10 / 10) + 2;
  }

  /** strcmp is negative for the text that comes first. */
  lemma {:induction false} StrcmpEarlier(a: string, b: string)
    ensures Strcmp(a, b) < 0 <==> Earlier(a, b)
  {
    if a != [] && b != [] && a[0] == b[0] {
      var a', b' := a[1..], b[1..];
      StrcmpEarlier(a', b');
      RestDecides(a, b);
    } else if a != [] && b != [] {
      FirstDecides(a, b);
    } else {
      assert a[..0] == b[..0];
    }
  }

  lemma RestDecides(a: string, b: string)
    requires a != [] && b != [] && a[0] == b[0]
    ensures Earlier(a, b) <==> Earlier(a[1..], b[1..])
  {
    var a', b' := a[1..], b[1..];
    assert a == [a[0]] + a' && b == [b[0]] + b';
    if Earlier(a', b') {
      var k :| 0 <= k <= |a'| && k < |b'| && a'[..k] == b'[..k] && (k == |a'| || a'[k] < b'[k]);
      assert a[..k + 1] == [a[0]] + a'[..k] && b[..k + 1] == [b[0]] + b'[..k];
    }
    if Earlier(a, b) {
      var k :| 0 <= k <= |a| && k < |b| && a[..k] == b[..k] && (k == |a| || a[k] < b[k]);
      assert k > 0;
      assert a'[..k - 1] == a[..k][1..] && b'[..k - 1] == b[..k][1..];
    }
  }

  lemma FirstDecides(a: string, b: string)
    requires a != [] && b != [] && a[0] != b[0]
    ensures Earlier(a, b) <==> a[0] < b[0]
  {
    assert a[..0] == b[..0];
    forall k | 0 < k <= |a| && k < |b| ensures a[..k] != b[..k] {
      assert a[..k][0] == a[0] && b[..k][0] == b[0];
    }
  }

  /** snprintf into a buffer of the given size. */
  function Truncated(s: string, size: nat): string
    requires size > 0
  {
    if |s| < size then s else s[..size - 1]
  }

  const ID_SIZE := 100
  const VID_SIZE := 128

  /** The name of virtual node i of node id. */
  function Vid(id: string, i: nat): string {
    Truncated(id + "-" + Padded(i), VID_SIZE)
  }

  /** Names are long enough not to be truncated, and different for every (id, i). */
  lemma VidInjective(id: string, i: nat, id': string, j: nat)
    requires |id| < ID_SIZE && |id'| < ID_SIZE && i < 0x8000_0000 && j < 0x8000_0000
    requires Vid(id, i) == Vid(id', j)
    ensures id == id' && i == j
  {
    VidFull(id, i);
    VidFull(id', j);
    SplitAtDash(id, Padded(i), id', Padded(j));
    PaddedValue(i);
    PaddedValue(j);
  }

  lemma VidFull(id: string, i: nat)
    requires |id| < ID_SIZE && i < 0x8000_0000
    ensures Vid(id, i) == id + "-" + Padded(i)
  {
    IntFigures(i);
  }

  lemma LastDash(a: string, x: string)
    requires '-' !in x
    ensures (a + "-" + x)[|a|] == '-'
    ensures forall k :: |a| < k < |a + "-" + x| ==> (a + "-" + x)[k] != '-'
  {
    forall k | |a| < k < |a + "-" + x| ensures (a + "-" + x)[k] != '-' {
      assert (a + "-" + x)[k] == x[k - |a| - 1];
    }
  }

  lemma SplitAtDash(a: string, x: string, b: string, y: string)
    requires a + "-" + x == b + "-" + y && '-' !in x && '-' !in y
    ensures a == b && x == y
  {
    var s := a + "-" + x;
    LastDash(a, x);
    LastDash(b, y);
    assert a == s[..|a|] && b == s[..|b|];
    assert x == s[|a| + 1..] && y == s[|b| + 1..];
  }

  // ----- the ring --------------------------------------------------------------------------

  datatype VNode = VNode(vid: string, node: string)

  function CompareVNodes(a: VNode, b: VNode): int {
    Strcmp(a.vid, b.vid)
  }

  lemma VNodeOrder()
    ensures TotalPreorder(CompareVNodes) && TotalPreorder(Strcmp)
  {
    forall a, b ensures Strcmp(a, b) <= 0 <==> Strcmp(b, a) >= 0 { StrcmpSwap(a, b); }
    forall a, b, c | Strcmp(a, b) <= 0 && Strcmp(b, c) <= 0 ensures Strcmp(a, c) <= 0 { StrcmpTrans(a, b, c); }
  }

  /** Who an object with the given hash belongs to. */
  function OwnerIn(ring: seq<(nat, VNode)>, key: nat): Option<string> {
    if ring == [] then None else Some(ring[Cyclic(ring, key)].1.node)
  }

  /** The order in which a walk around the ring from `key` meets two virtual nodes. */
  predicate Sooner(key: nat, a: (nat, VNode), b: (nat, VNode)) {
    (a.0 >= key && b.0 < key) || ((a.0 >= key <==> b.0 >= key) && Less(CompareVNodes, a, b))
  }

  lemma CyclicIsSoonest(ring: seq<(nat, VNode)>, key: nat)
    requires ring != [] && Ascending(CompareVNodes, ring)
    ensures forall e :: e in ring && e != ring[Cyclic(ring, key)] ==> Sooner(key, ring[Cyclic(ring, key)], e)
  {
    var c := Cyclic(ring, key);
    KeysAscend(CompareVNodes, ring, key);
    forall i | 0 <= i < |ring| && i != c ensures Sooner(key, ring[c], ring[i]) {
      if i < c { assert ring[i].0 < key <= ring[c].0; } else { assert Less(CompareVNodes, ring[c], ring[i]); }
    }
  }

  /** Two rings that differ only in the virtual nodes of one node send every object to the
      same owner, except for objects the larger ring sends to that node. */
  lemma OwnerDiffers(small: seq<(nat, VNode)>, big: seq<(nat, VNode)>, id: string, key: nat)
    requires Ascending(CompareVNodes, small) && Ascending(CompareVNodes, big)
    requires forall e :: e in small ==> e in big
    requires forall e :: e in big && e !in small ==> e.1.node == id
    ensures OwnerIn(big, key) == OwnerIn(small, key) || OwnerIn(big, key) == Some(id)
  {
    assert |small| > 0 ==> small[0] in small;
    if big != [] {
      var w := big[Cyclic(big, key)];
      if w in small {
        CyclicIsSoonest(small, key);
        CyclicIsSoonest(big, key);
        var v := small[Cyclic(small, key)];
        VNodeOrder();
        LessLaws(CompareVNodes, v, w, v);
      }
    }
  }

  // ----- the two lists ---------------------------------------------------------------------

  datatype Status = Created | InsertedStatus | DeletedStatus

  datatype ActualNode = ActualNode(weights: nat, kicks: nat, status: Status)

  const UINT_MAX := 0xFFFF_FFFF

  /** The ring element of virtual node i of node id. */
  function VEntry(hash: string -> nat, id: string, i: nat): (nat, VNode) {
    (hash(Vid(id, i)), VNode(Vid(id, i), id))
  }

  /** The ring element belongs to one of the virtual nodes lo, ..., hi - 1 of node id. */
  ghost predicate Virtual(hash: string -> nat, id: string, lo: nat, hi: nat, e: (nat, VNode)) {
    exists i: nat :: lo <= i < hi && e == VEntry(hash, id, i)
  }

  ghost predicate NamesOk(table: map<string, ActualNode>) {
    forall id :: id in table ==> |id| < ID_SIZE && table[id].weights <= 0x8000_0000 && table[id].kicks < UINT_MAX
  }

  ghost predicate Registered(hash: string -> nat, table: map<string, ActualNode>, e: (nat, VNode)) {
    exists a :: a in table && Virtual(hash, a, 0, table[a].weights, e)
  }

  /** The ring holds exactly the virtual nodes of the registered nodes, and of node id those
      from lo to hi - 1 (while id is being added or removed). */
  ghost predicate RingMid(hash: string -> nat, table: map<string, ActualNode>, id: string, lo: nat, hi: nat,
      ring: seq<(nat, VNode)>) {
    forall e :: e in ring <==> Virtual(hash, id, lo, hi, e) || Registered(hash, table, e)
  }

  ghost predicate RingOk(hash: string -> nat, table: map<string, ActualNode>, ring: seq<(nat, VNode)>) {
    forall e :: e in ring <==> Registered(hash, table, e)
  }

  ghost predicate NodesOk(hash: string -> nat, table: map<string, ActualNode>, nodes: seq<(nat, string)>) {
    forall e :: e in nodes <==> e.1 in table && e.0 == hash(e.1)
  }

  /** Two ring elements with the same name are the same element. */
  lemma SameVirtual(hash: string -> nat, a: string, i: nat, b: string, j: nat)
    requires |a| < ID_SIZE && |b| < ID_SIZE && i < 0x8000_0000 && j < 0x8000_0000
    requires Same(CompareVNodes, VEntry(hash, a, i), VEntry(hash, b, j))
    ensures a == b && i == j
  {
    StrcmpZero(Vid(a, i), Vid(b, j));
    VidInjective(a, i, b, j);
  }

  lemma NotSame(hash: string -> nat, table: map<string, ActualNode>, id: string, lo: nat, hi: nat, w: nat,
      ring: seq<(nat, VNode)>, x: (nat, VNode))
    requires NamesOk(table) && id !in table && |id| < ID_SIZE && w < 0x8000_0000 && hi <= 0x8000_0000
    requires RingMid(hash, table, id, lo, hi, ring) && x in ring && x != VEntry(hash, id, w)
    ensures !Same(CompareVNodes, x, VEntry(hash, id, w))
  {
    if Virtual(hash, id, lo, hi, x) {
      var i: nat :| lo <= i < hi && x == VEntry(hash, id, i);
      if Same(CompareVNodes, x, VEntry(hash, id, w)) { SameVirtual(hash, id, i, id, w); }
    } else {
      var a :| a in table && Virtual(hash, a, 0, table[a].weights, x);
      var i: nat :| 0 <= i < table[a].weights && x == VEntry(hash, a, i);
      if Same(CompareVNodes, x, VEntry(hash, id, w)) { SameVirtual(hash, a, i, id, w); }
    }
  }

  lemma NotYet(hash: string -> nat, table: map<string, ActualNode>, id: string, lo: nat, hi: nat, w: nat,
      ring: seq<(nat, VNode)>)
    requires NamesOk(table) && id !in table && |id| < ID_SIZE && w < 0x8000_0000 && hi <= 0x8000_0000
    requires !(lo <= w < hi)
    requires RingMid(hash, table, id, lo, hi, ring)
    ensures VEntry(hash, id, w) !in ring
  {
    if Virtual(hash, id, lo, hi, VEntry(hash, id, w)) {
      var i: nat :| lo <= i < hi && VEntry(hash, id, w) == VEntry(hash, id, i);
      StrcmpZero(Vid(id, i), Vid(id, w));
      SameVirtual(hash, id, i, id, w);
    }
    assert !Registered(hash, table, VEntry(hash, id, w)) by {
      assert VEntry(hash, id, w).1.node == id;
    }
  }

  /** Adding virtual node w of node id to the ring. */
  lemma RingGrows(hash: string -> nat, table: map<string, ActualNode>, id: string, w: nat, ring: seq<(nat, VNode)>)
    requires NamesOk(table) && id !in table && |id| < ID_SIZE && w < 0x8000_0000
    requires RingMid(hash, table, id, 0, w, ring)
    ensures RingMid(hash, table, id, 0, w + 1, Inserted(CompareVNodes, ring, VEntry(hash, id, w)))
  {
    var e := VEntry(hash, id, w);
    var r := Rank(CompareVNodes, ring, e);
    NotYet(hash, table, id, 0, w, w, ring);
    if r < |ring| {
      assert ring[r] in ring;
      NotSame(hash, table, id, 0, w, w, ring, ring[r]);
    }
    InsertAtHeadless(ring, r, e);
    VirtualNext(hash, id, 0, w);
    hide RingMid, Rank, InsertAt, VEntry, Virtual, Registered;
    InsertedCases(CompareVNodes, ring, e);
    RingMidPlus(hash, table, id, 0, w, 0, w + 1, ring, InsertAt(ring, r, e), e);
  }

  lemma RingMidPlus(hash: string -> nat, table: map<string, ActualNode>, id: string, lo: nat, hi: nat, lo': nat,
      hi': nat, ring: seq<(nat, VNode)>, ring': seq<(nat, VNode)>, e: (nat, VNode))
    requires RingMid(hash, table, id, lo, hi, ring)
    requires forall x :: Virtual(hash, id, lo', hi', x) <==> Virtual(hash, id, lo, hi, x) || x == e
    requires forall x :: x in ring' <==> x == e || x in ring
    ensures RingMid(hash, table, id, lo', hi', ring')
  {}

  /** Taking virtual node w of node id, the first one left, off the ring. */
  lemma RingShrinks(hash: string -> nat, table: map<string, ActualNode>, id: string, w: nat, hi: nat,
      ring: seq<(nat, VNode)>)
    requires NamesOk(table) && id !in table && |id| < ID_SIZE && w < hi <= 0x8000_0000
    requires Ascending(CompareVNodes, ring) && RingMid(hash, table, id, w, hi, ring)
    ensures RingMid(hash, table, id, w + 1, hi, Removed(CompareVNodes, ring, VEntry(hash, id, w)))
  {
    var e := VEntry(hash, id, w);
    assert Virtual(hash, id, w, hi, e);
    assert e in ring;
    VNodeOrder();
    RankFinds(CompareVNodes, ring, e);
    StrcmpZero(Vid(id, w), Vid(id, w));
    var j :| 0 <= j < |ring| && ring[j] == e;
    assert Same(CompareVNodes, ring[j], e);
    var r := Rank(CompareVNodes, ring, e);
    assert j == r;
    forall i | 0 <= i < |ring| && i != r ensures ring[i] != e {}
    RemoveElement(ring, r);
    VirtualRest(hash, id, w, hi);
    FreshEntry(hash, table, id, w);
    hide RingMid, Rank, RemoveAt, VEntry, Virtual, Registered, Ascending;
    InsertedCases(CompareVNodes, ring, e);
    RingMidMinus(hash, table, id, w, hi, ring, RemoveAt(ring, r), e);
  }

  lemma RemoveElement<T>(s: seq<T>, k: nat)
    requires k < |s| && forall i :: 0 <= i < |s| && i != k ==> s[i] != s[k]
    ensures forall y :: y in RemoveAt(s, k) <==> y in s && y != s[k]
  {
    assert s == s[..k] + [s[k]] + s[k + 1..];
  }

  lemma FreshEntry(hash: string -> nat, table: map<string, ActualNode>, id: string, w: nat)
    requires id !in table
    ensures !Registered(hash, table, VEntry(hash, id, w))
  {
    assert VEntry(hash, id, w).1.node == id;
  }

  lemma VirtualRest(hash: string -> nat, id: string, w: nat, hi: nat)
    requires |id| < ID_SIZE && w < hi <= 0x8000_0000
    ensures forall e :: Virtual(hash, id, w + 1, hi, e) <==> Virtual(hash, id, w, hi, e) && e != VEntry(hash, id, w)
  {
    forall e ensures Virtual(hash, id, w + 1, hi, e) <==> Virtual(hash, id, w, hi, e) && e != VEntry(hash, id, w) {
      if Virtual(hash, id, w + 1, hi, e) {
        var i: nat :| w + 1 <= i < hi && e == VEntry(hash, id, i);
        assert w <= i < hi;
        if e == VEntry(hash, id, w) {
          StrcmpZero(Vid(id, i), Vid(id, w));
          SameVirtual(hash, id, i, id, w);
        }
      }
    }
  }

  lemma RingMidMinus(hash: string -> nat, table: map<string, ActualNode>, id: string, lo: nat, hi: nat,
      ring: seq<(nat, VNode)>, ring': seq<(nat, VNode)>, e: (nat, VNode))
    requires RingMid(hash, table, id, lo, hi, ring) && !Registered(hash, table, e)
    requires forall x :: Virtual(hash, id, lo + 1, hi, x) <==> Virtual(hash, id, lo, hi, x) && x != e
    requires forall x :: x in ring' <==> x in ring && x != e
    ensures RingMid(hash, table, id, lo + 1, hi, ring')
  {}

  lemma InsertAtHeadless<T>(s: seq<T>, k: nat, x: T)
    requires k <= |s|
    ensures forall y :: y in InsertAt(s, k, x) <==> y == x || y in s
  {
    assert s == s[..k] + s[k..];
  }

  lemma VirtualNext(hash: string -> nat, id: string, lo: nat, w: nat)
    requires lo <= w
    ensures forall e :: Virtual(hash, id, lo, w + 1, e) <==> Virtual(hash, id, lo, w, e) || e == VEntry(hash, id, w)
  {
    assert Virtual(hash, id, lo, w + 1, VEntry(hash, id, w));
    forall e ensures Virtual(hash, id, lo, w + 1, e) <==> Virtual(hash, id, lo, w, e) || e == VEntry(hash, id, w) {
      if Virtual(hash, id, lo, w, e) {
        var i: nat :| lo <= i < w && e == VEntry(hash, id, i);
        assert lo <= i < w + 1;
      }
    }
  }

  // ----- between the two views -------------------------------------------------------------

  /** A ring without any virtual node of id under way, seen from either end of the work on id. */
  lemma RingIdle(hash: string -> nat, table: map<string, ActualNode>, id: string, n: nat, ring: seq<(nat, VNode)>)
    ensures RingMid(hash, table, id, n, n, ring) <==> RingOk(hash, table, ring)
  {
    assert forall e :: !Virtual(hash, id, n, n, e);
  }

  /** A node with all its virtual nodes on the ring is a registered node. */
  lemma RingFull(hash: string -> nat, table: map<string, ActualNode>, id: string, node: ActualNode,
      ring: seq<(nat, VNode)>)
    requires id !in table
    ensures RingMid(hash, table, id, 0, node.weights, ring) <==> RingOk(hash, table[id := node], ring)
  {
    forall e ensures Registered(hash, table[id := node], e) <==>
      Virtual(hash, id, 0, node.weights, e) || Registered(hash, table, e) {
      assert id in table[id := node] && table[id := node][id] == node;
      if Registered(hash, table, e) {
        var a :| a in table && Virtual(hash, a, 0, table[a].weights, e);
        assert a in table[id := node] && table[id := node][a] == table[a];
      }
    }
  }

  /** The part of the ring that does not belong to id. */
  lemma RingParts(hash: string -> nat, table: map<string, ActualNode>, id: string, node: ActualNode,
      small: seq<(nat, VNode)>, big: seq<(nat, VNode)>, key: nat)
    requires id !in table && RingOk(hash, table, small) && RingOk(hash, table[id := node], big)
    requires Ascending(CompareVNodes, small) && Ascending(CompareVNodes, big)
    ensures OwnerIn(big, key) == OwnerIn(small, key) || OwnerIn(big, key) == Some(id)
  {
    RingFull(hash, table, id, node, big);
    OwnerDiffers(small, big, id, key);
  }

  // ----- the object ------------------------------------------------------------------------

  lemma NodesGrow(hash: string -> nat, table: map<string, ActualNode>, id: string, node: ActualNode,
      nodes: seq<(nat, string)>)
    requires NodesOk(hash, table, nodes) && id !in table
    ensures NodesOk(hash, table[id := node], Inserted(Strcmp, nodes, (hash(id), id)))
  {
    var e := (hash(id), id);
    var r := Rank(Strcmp, nodes, e);
    if r < |nodes| {
      assert nodes[r] in nodes;
      StrcmpZero(nodes[r].1, id);
    }
    InsertAtHeadless(nodes, r, e);
    InsertedCases(Strcmp, nodes, e);
    hide InsertAt, Inserted;
    assert forall x :: x in InsertAt(nodes, r, e) <==> x == e || x in nodes;
  }

  lemma NodesShrink(hash: string -> nat, table: map<string, ActualNode>, id: string, nodes: seq<(nat, string)>)
    requires NodesOk(hash, table, nodes) && id in table && Ascending(Strcmp, nodes)
    ensures NodesOk(hash, table - {id}, Removed(Strcmp, nodes, (hash(id), id)))
  {
    var e := (hash(id), id);
    var r := NodeRank(hash, table, id, nodes);
    RemoveElement(nodes, r);
    InsertedCases(Strcmp, nodes, e);
    hide RemoveAt, Removed;
    assert forall x :: x in RemoveAt(nodes, r) <==> x in nodes && x != e;
  }

  /** The node list finds exactly the registered names. */
  lemma NodeHit(hash: string -> nat, table: map<string, ActualNode>, id: string, nodes: seq<(nat, string)>)
    requires NodesOk(hash, table, nodes) && Ascending(Strcmp, nodes)
    ensures Hit(Strcmp, nodes, (hash(id), id)) <==> id in table
    ensures id in table ==> nodes[Rank(Strcmp, nodes, (hash(id), id))] == (hash(id), id)
  {
    var e := (hash(id), id);
    var r := Rank(Strcmp, nodes, e);
    if id in table {
      var r' := NodeRank(hash, table, id, nodes);
    } else if r < |nodes| {
      assert nodes[r] in nodes;
      StrcmpZero(nodes[r].1, id);
    }
  }

  lemma NodeRank(hash: string -> nat, table: map<string, ActualNode>, id: string, nodes: seq<(nat, string)>)
    returns (r: nat)
    requires NodesOk(hash, table, nodes) && id in table && Ascending(Strcmp, nodes)
    ensures r == Rank(Strcmp, nodes, (hash(id), id)) < |nodes| && nodes[r] == (hash(id), id)
      && Hit(Strcmp, nodes, (hash(id), id))
    ensures forall i :: 0 <= i < |nodes| && i != r ==> nodes[i] != nodes[r]
  {
    var e := (hash(id), id);
    assert e in nodes;
    VNodeOrder();
    RankFinds(Strcmp, nodes, e);
    StrcmpZero(id, id);
    r :| 0 <= r < |nodes| && nodes[r] == e;
    assert Same(Strcmp, nodes[r], e);
    forall i | 0 <= i < |nodes| && i != r ensures nodes[i] != nodes[r] {}
  }

  lemma Registering(hash: string -> nat, table: map<string, ActualNode>, id: string, node: ActualNode,
      ring: seq<(nat, VNode)>, nodes: seq<(nat, string)>)
    requires NamesOk(table) && id !in table && |id| < ID_SIZE && node.weights <= 0x8000_0000 && node.kicks < UINT_MAX
    requires RingMid(hash, table, id, 0, node.weights, ring) && NodesOk(hash, table, nodes)
    ensures NamesOk(table[id := node]) && RingOk(hash, table[id := node], ring)
    ensures NodesOk(hash, table[id := node], Inserted(Strcmp, nodes, (hash(id), id)))
  {
    RingFull(hash, table, id, node, ring);
    NodesGrow(hash, table, id, node, nodes);
  }

  lemma Unregistering(hash: string -> nat, table: map<string, ActualNode>, id: string, ring: seq<(nat, VNode)>)
    requires id in table
    ensures RingMid(hash, table - {id}, id, 0, table[id].weights, ring) <==> RingOk(hash, table, ring)
  {
    RingFull(hash, table - {id}, id, table[id], ring);
    assert (table - {id})[id := table[id]] == table;
  }

  lemma Forgetting(hash: string -> nat, table: map<string, ActualNode>, id: string, nodes: seq<(nat, string)>)
    requires NamesOk(table) && NodesOk(hash, table, nodes) && id in table && Ascending(Strcmp, nodes)
    ensures NamesOk(table - {id}) && NodesOk(hash, table - {id}, Removed(Strcmp, nodes, (hash(id), id)))
  {
    NodesShrink(hash, table, id, nodes);
  }

  /** Counting an access does not move anything. */
  lemma Kicked(hash: string -> nat, table: map<string, ActualNode>, id: string, kicks: nat, ring: seq<(nat, VNode)>,
      nodes: seq<(nat, string)>)
    requires NamesOk(table) && RingOk(hash, table, ring) && NodesOk(hash, table, nodes) && id in table
      && kicks < UINT_MAX
    ensures var table' := table[id := table[id].(kicks := kicks)];
      NamesOk(table') && RingOk(hash, table', ring) && NodesOk(hash, table', nodes)
  {
    var table' := table[id := table[id].(kicks := kicks)];
    forall e ensures Registered(hash, table', e) <==> Registered(hash, table, e) {
      if Registered(hash, table, e) {
        var a :| a in table && Virtual(hash, a, 0, table[a].weights, e);
        assert a in table' && table'[a].weights == table[a].weights;
      }
      if Registered(hash, table', e) {
        var a :| a in table' && Virtual(hash, a, 0, table'[a].weights, e);
        assert a in table && table'[a].weights == table[a].weights;
      }
    }
  }

  lemma FirstVirtual(hash: string -> nat, table: map<string, ActualNode>, ring: seq<(nat, VNode)>, id: string)
    requires RingOk(hash, table, ring) && id in table && table[id].weights > 0
    ensures VEntry(hash, id, 0) in ring
  {
    assert Virtual(hash, id, 0, table[id].weights, VEntry(hash, id, 0));
  }

  predicate Weightless(table: map<string, ActualNode>) {
    forall id :: id in table ==> table[id].weights == 0
  }

  /** Objects belong to registered nodes, and all have an owner once some node has weight. */
  lemma OwnerRegistered(hash: string -> nat, table: map<string, ActualNode>, ring: seq<(nat, VNode)>, key: nat)
    requires RingOk(hash, table, ring)
    ensures OwnerIn(ring, key) != None ==>
      OwnerIn(ring, key).value in table && table[OwnerIn(ring, key).value].weights > 0
    ensures OwnerIn(ring, key) == None <==> Weightless(table)
  {
    if ring != [] {
      var e := ring[Cyclic(ring, key)];
      assert e in ring;
      var a :| a in table && Virtual(hash, a, 0, table[a].weights, e);
    } else {
      forall id | id in table ensures table[id].weights == 0 {
        if table[id].weights > 0 { FirstVirtual(hash, table, ring, id); }
      }
    }
  }

  /** The owners depend on who is registered with what weight, not on how it came about. */
  lemma OwnersFollowTheTable(hash: string -> nat, table: map<string, ActualNode>, table': map<string, ActualNode>,
      ring: seq<(nat, VNode)>, ring': seq<(nat, VNode)>, key: nat)
    requires RingOk(hash, table, ring) && RingOk(hash, table', ring')
    requires Ascending(CompareVNodes, ring) && Ascending(CompareVNodes, ring')
    requires table.Keys == table'.Keys && forall id :: id in table ==> table[id].weights == table'[id].weights
    ensures OwnerIn(ring, key) == OwnerIn(ring', key)
  {
    forall e ensures Registered(hash, table', e) <==> Registered(hash, table, e) {
      if Registered(hash, table, e) {
        var a :| a in table && Virtual(hash, a, 0, table[a].weights, e);
        assert a in table'.Keys;
      }
      if Registered(hash, table', e) {
        var a :| a in table' && Virtual(hash, a, 0, table'[a].weights, e);
        assert a in table.Keys;
      }
    }
    OwnerDiffers(ring, ring', "a", key);
    OwnerDiffers(ring, ring', "b", key);
    assert "a"[0] != "b"[0];
  }

  // ----- owners by the texts ---------------------------------------------------------------

  /** The texts a registered node has on the ring: its name, a dash, and each number below its
      weight in digits. */
  ghost predicate NameOf(table: map<string, ActualNode>, node: string, x: string) {
    node in table && exists i: nat, d: string {:trigger Written(d, i)} ::
      i < table[node].weights && Written(d, i) && x == node + "-" + d
  }

  /** Of all texts of all nodes, one of this node's has the first hash clockwise from key. */
  ghost predicate FirstClockwise(hash: string -> nat, table: map<string, ActualNode>, key: nat, node: string) {
    exists x :: NameOf(table, node, x) &&
      forall other, y :: NameOf(table, other, y) ==> NoLater(key, hash(x), x, hash(y), y)
  }

  /** Nobody owns the objects with hash key if no node has weight; else the one node with the first
      text clockwise does. */
  ghost predicate OwnedBy(hash: string -> nat, table: map<string, ActualNode>, key: nat, r: Option<string>) {
    && (r == None <==> forall id :: id in table ==> table[id].weights == 0)
    && (forall id :: r == Some(id) <==> FirstClockwise(hash, table, key, id))
  }

  /** A ring element is a text of its node at the hash of the text. */
  lemma RegisteredByName(hash: string -> nat, table: map<string, ActualNode>, e: (nat, VNode))
    requires NamesOk(table)
    ensures Registered(hash, table, e) <==> NameOf(table, e.1.node, e.1.vid) && e.0 == hash(e.1.vid)
  {
    if Registered(hash, table, e) {
      var a :| a in table && Virtual(hash, a, 0, table[a].weights, e);
      var i: nat :| i < table[a].weights && e == VEntry(hash, a, i);
      VidFull(a, i);
      PaddedWritten(i);
    }
    var n := e.1.node;
    if NameOf(table, n, e.1.vid) && e.0 == hash(e.1.vid) {
      var i: nat, d: string :| i < table[n].weights && Written(d, i) && e.1.vid == n + "-" + d;
      PaddedWritten(i);
      WrittenOnce(d, Padded(i), i);
      VidFull(n, i);
      assert e == VEntry(hash, n, i);
      assert Virtual(hash, n, 0, table[n].weights, e);
    }
  }

  /** Sooner on the ring is sooner by hashes and texts. */
  lemma SoonerByTexts(key: nat, a: (nat, VNode), b: (nat, VNode))
    requires Sooner(key, a, b)
    ensures NoLater(key, a.0, a.1.vid, b.0, b.1.vid) && !NoLater(key, b.0, b.1.vid, a.0, a.1.vid)
  {
    StrcmpEarlier(a.1.vid, b.1.vid);
    StrcmpEarlier(b.1.vid, a.1.vid);
    StrcmpSwap(a.1.vid, b.1.vid);
    StrcmpZero(a.1.vid, b.1.vid);
    hide Strcmp, Earlier;
  }

  /** An object belongs to the node with the first text clockwise, and to no other. */
  lemma OwnerByTexts(hash: string -> nat, table: map<string, ActualNode>, ring: seq<(nat, VNode)>, key: nat,
      node: string)
    requires NamesOk(table) && RingOk(hash, table, ring) && Ascending(CompareVNodes, ring)
    ensures OwnerIn(ring, key) == Some(node) <==> FirstClockwise(hash, table, key, node)
  {
    hide Registered, NameOf, NoLater, Sooner, NamesOk, Cyclic, Ascending;
    if ring != [] {
      CyclicIsSoonest(ring, key);
    }
    if OwnerIn(ring, key) == Some(node) {
      OwnerNoLater(hash, table, ring, key);
    }
    if FirstClockwise(hash, table, key, node) {
      var x :| NameOf(table, node, x) &&
        forall other, y :: NameOf(table, other, y) ==> NoLater(key, hash(x), x, hash(y), y);
      var f := (hash(x), VNode(x, node));
      RegisteredByName(hash, table, f);
      assert f in ring;
      var e := ring[Cyclic(ring, key)];
      assert e in ring;
      RegisteredByName(hash, table, e);
      assert NoLater(key, hash(x), x, e.0, e.1.vid);
      if f != e {
        SoonerByTexts(key, e, f);
        assert false;
      }
    }
  }

  lemma OwnerNoLater(hash: string -> nat, table: map<string, ActualNode>, ring: seq<(nat, VNode)>, key: nat)
    requires NamesOk(table) && RingOk(hash, table, ring) && ring != []
    requires forall e :: e in ring && e != ring[Cyclic(ring, key)] ==> Sooner(key, ring[Cyclic(ring, key)], e)
    ensures FirstClockwise(hash, table, key, ring[Cyclic(ring, key)].1.node)
  {
    hide Registered, NameOf, Sooner, NamesOk, Cyclic, Earlier;
    var e := ring[Cyclic(ring, key)];
    assert e in ring;
    RegisteredByName(hash, table, e);
    var x := e.1.vid;
    forall other, y | NameOf(table, other, y) ensures NoLater(key, hash(x), x, hash(y), y) {
      var f := (hash(y), VNode(y, other));
      RegisteredByName(hash, table, f);
      assert f in ring;
      if f != e {
        SoonerByTexts(key, e, f);
      }
    }
  }

  lemma OwnedByTexts(hash: string -> nat, table: map<string, ActualNode>, ring: seq<(nat, VNode)>, key: nat)
    requires NamesOk(table) && RingOk(hash, table, ring) && Ascending(CompareVNodes, ring)
    ensures OwnedBy(hash, table, key, OwnerIn(ring, key))
  {
    OwnerRegistered(hash, table, ring, key);
    hide NamesOk, RingOk, OwnerIn, FirstClockwise, Ascending;
    forall id ensures OwnerIn(ring, key) == Some(id) <==> FirstClockwise(hash, table, key, id) {
      OwnerByTexts(hash, table, ring, key, id);
    }
  }

  /** The ring holds the texts of the nodes, each at its hash, and nothing else. */
  ghost predicate HoldsTexts(hash: string -> nat, table: map<string, ActualNode>, ring: seq<(nat, VNode)>) {
    forall e :: e in ring <==> NameOf(table, e.1.node, e.1.vid) && e.0 == hash(e.1.vid)
  }

  lemma RingByTexts(hash: string -> nat, table: map<string, ActualNode>, ring: seq<(nat, VNode)>)
    requires NamesOk(table) && RingOk(hash, table, ring)
    ensures HoldsTexts(hash, table, ring)
  {
    hide Registered, NameOf;
    forall e ensures e in ring <==> NameOf(table, e.1.node, e.1.vid) && e.0 == hash(e.1.vid) {
      RegisteredByName(hash, table, e);
    }
  }

  lemma RingsDiffer(hash: string -> nat, table: map<string, ActualNode>, id: string, node: ActualNode,
      small: seq<(nat, VNode)>, big: seq<(nat, VNode)>)
    requires id !in table && RingOk(hash, table, small) && RingOk(hash, table[id := node], big)
    requires Ascending(CompareVNodes, small) && Ascending(CompareVNodes, big)
    ensures forall key :: OwnerIn(big, key) == OwnerIn(small, key) || OwnerIn(big, key) == Some(id)
  {
    forall key: nat ensures OwnerIn(big, key) == OwnerIn(small, key) || OwnerIn(big, key) == Some(id) {
      RingParts(hash, table, id, node, small, big, key);
    }
  }

  lemma EmptyRing(hash: string -> nat)
    ensures NamesOk(map[]) && RingOk(hash, map[], []) && NodesOk(hash, map[], [])
  {}

  lemma RingsShrunk(hash: string -> nat, table: map<string, ActualNode>, id: string, small: seq<(nat, VNode)>,
      big: seq<(nat, VNode)>)
    requires id in table && RingOk(hash, table - {id}, small) && RingOk(hash, table, big)
    requires Ascending(CompareVNodes, small) && Ascending(CompareVNodes, big)
    ensures forall key :: OwnerIn(big, key) == OwnerIn(small, key) || OwnerIn(big, key) == Some(id)
  {
    assert (table - {id})[id := table[id]] == table;
    RingsDiffer(hash, table - {id}, id, table[id], small, big);
  }

  class ConHash {
    const hash: string -> nat
    const vnodes: SkipList<VNode>
    const nodes: SkipList<string>
    var table: map<string, ActualNode>  // the node records, by name

    /** The two lists are sound and share no memory. */
    ghost predicate Lists()
      reads vnodes, vnodes.Repr(), nodes, nodes.Repr()
    {
      && vnodes.Valid() && nodes.Valid() && vnodes.compare == CompareVNodes && nodes.compare == Strcmp
      && vnodes.Repr() !! nodes.Repr() && this !in vnodes.Repr() && this !in nodes.Repr()
    }

    ghost predicate Valid()
      reads this, vnodes, vnodes.Repr(), nodes, nodes.Repr()
    {
      Lists() && NamesOk(table) && RingOk(hash, table, vnodes.contents) && NodesOk(hash, table, nodes.contents)
    }

    /** The node that owns the objects with the given hash. */
    ghost function Owner(key: nat): Option<string>
      reads vnodes
    {
      OwnerIn(vnodes.contents, key)
    }

    /** The lists hold on to no memory but their own and new nodes. */
    twostate predicate Grown()
      reads vnodes, nodes
    {
      && (forall o :: o in vnodes.Repr() ==> o in old(vnodes.Repr()) || fresh(o))
      && (forall o :: o in nodes.Repr() ==> o in old(nodes.Repr()) || fresh(o))
    }

    constructor (hash: string -> nat)
      ensures Valid() && table == map[] && this.hash == hash && vnodes.contents == []
      ensures fresh(vnodes.Repr()) && fresh(nodes.Repr())
    {
      VNodeOrder();
      hide NamesOk, RingOk, NodesOk, SkipList.Valid, SkipList.Repr, TotalPreorder, CompareVNodes, Strcmp;
      EmptyRing(hash);
      var vs := new SkipList(CompareVNodes);
      var ns := new SkipList(Strcmp);
      assert vs.Repr() !! ns.Repr();
      this.hash, vnodes, nodes, table := hash, vs, ns, map[];
    }

    lemma Sorted()
      requires Lists()
      ensures Ascending(CompareVNodes, vnodes.contents) && Ascending(Strcmp, nodes.contents)
    {}

    /** Put one virtual node on the ring, at a random level. */
    method AddVNode(id: string, i: nat)
      requires Lists()
      modifies vnodes.Repr()
      ensures Lists() && vnodes.contents == Inserted(CompareVNodes, old(vnodes.contents), VEntry(hash, id, i))
      ensures nodes.contents == old(nodes.contents)
      ensures (forall o :: o in vnodes.Repr() ==> o in old(vnodes.Repr()) || fresh(o))
        && nodes.Repr() == old(nodes.Repr())
    {
      hide TotalPreorder, Ascending, SkipList.Wired, Inserted;
      var level: nat :| 1 <= level <= MAX_LEVEL;
      var e := VEntry(hash, id, i);
      var x := vnodes.Insert(e.0, e.1, level);
    }

    method DropVNode(id: string, i: nat)
      requires Lists()
      modifies vnodes.Repr()
      ensures Lists() && vnodes.contents == Removed(CompareVNodes, old(vnodes.contents), VEntry(hash, id, i))
      ensures nodes.contents == old(nodes.contents)
      ensures (forall o :: o in vnodes.Repr() ==> o in old(vnodes.Repr()) || fresh(o))
        && nodes.Repr() == old(nodes.Repr())
    {
      hide TotalPreorder, Ascending, SkipList.Wired, Removed;
      var e := VEntry(hash, id, i);
      var result := vnodes.Delete(e.0, e.1);
    }

    method AddNode(id: string)
      requires Lists()
      modifies nodes.Repr()
      ensures Lists() && nodes.contents == Inserted(Strcmp, old(nodes.contents), (hash(id), id))
      ensures vnodes.contents == old(vnodes.contents)
      ensures (forall o :: o in nodes.Repr() ==> o in old(nodes.Repr()) || fresh(o))
        && vnodes.Repr() == old(vnodes.Repr())
    {
      hide TotalPreorder, Ascending, SkipList.Wired, Inserted;
      var level: nat :| 1 <= level <= MAX_LEVEL;
      var x := nodes.Insert(hash(id), id, level);
    }

    method DropNode(id: string)
      requires Lists()
      modifies nodes.Repr()
      ensures Lists() && nodes.contents == Removed(Strcmp, old(nodes.contents), (hash(id), id))
      ensures vnodes.contents == old(vnodes.contents)
      ensures (forall o :: o in nodes.Repr() ==> o in old(nodes.Repr()) || fresh(o))
        && vnodes.Repr() == old(vnodes.Repr())
    {
      hide TotalPreorder, Ascending, SkipList.Wired, Removed;
      var result := nodes.Delete(hash(id), id);
    }

    /** All virtual nodes of a node not registered yet. */
    method InsertVNodes(id: string, weights: nat)
      requires Lists() && NamesOk(table) && id !in table && |id| < ID_SIZE && weights < 0x8000_0000
      requires RingOk(hash, table, vnodes.contents)
      modifies vnodes.Repr()
      ensures Lists() && RingMid(hash, table, id, 0, weights, vnodes.contents)
      ensures nodes.contents == old(nodes.contents)
      ensures (forall o :: o in vnodes.Repr() ==> o in old(vnodes.Repr()) || fresh(o))
        && nodes.Repr() == old(nodes.Repr())
    {
      Unshared();
      RingIdle(hash, table, id, 0, vnodes.contents);
      hide Lists, NamesOk, SkipList.Repr, RingMid, RingOk, Inserted, VEntry;
      for i := 0 to weights
        invariant Lists() && RingMid(hash, table, id, 0, i, vnodes.contents) && nodes.contents == old(nodes.contents)
        invariant (forall o :: o in vnodes.Repr() ==> o in old(vnodes.Repr()) || fresh(o))
          && nodes.Repr() == old(nodes.Repr()) && table == old(table)
      {
        RingGrows(hash, table, id, i, vnodes.contents);
        AddVNode(id, i);
      }
    }

    lemma Unshared()
      requires Lists()
      ensures vnodes.Repr() !! nodes.Repr() && this !in vnodes.Repr() && this !in nodes.Repr()
        && nodes in nodes.Repr() && vnodes in vnodes.Repr()
    {}

    /** The virtual nodes and then the node itself, on the two lists. */
    method List(id: string, node: ActualNode)
      requires Valid() && id !in table && |id| < ID_SIZE && node.weights < 0x8000_0000 && node.kicks == 0
      modifies vnodes.Repr(), nodes.Repr()
      ensures Lists() && NamesOk(table[id := node]) && RingOk(hash, table[id := node], vnodes.contents)
      ensures NodesOk(hash, table[id := node], nodes.contents)
      ensures forall key :: Owner(key) == old(Owner(key)) || Owner(key) == Some(id)
      ensures Grown()
    {
      Unshared();
      Sorted();
      ghost var ring0 := vnodes.contents;
      hide Lists, SkipList.Repr, NamesOk, RingMid, RingOk, NodesOk, Inserted, Ascending, OwnerIn;
      InsertVNodes(id, node.weights);
      Registering(hash, table, id, node, vnodes.contents, nodes.contents);
      Sorted();
      RingsDiffer(hash, table, id, node, ring0, vnodes.contents);
      AddNode(id);
    }

    /** kr_conhash_insert_node: every virtual node on the ring, then the node itself. */
    method InsertNode(id: string, weights: nat)
      requires Valid() && id !in table && |id| < 100 && weights < 0x8000_0000
      modifies this, vnodes.Repr(), nodes.Repr()
      ensures Valid() && table == old(table)[id := ActualNode(weights, 0, InsertedStatus)]
      ensures HoldsTexts(hash, table, vnodes.contents)
      ensures forall key :: Owner(key) == old(Owner(key)) || Owner(key) == Some(id)
      ensures Grown()
    {
      Unshared();
      hide Lists, SkipList.Repr, NamesOk, RingOk, NodesOk, OwnerIn, HoldsTexts;
      var node := ActualNode(weights, 0, Created);
      node := node.(status := InsertedStatus);
      List(id, node);
      Unshared();
      RingByTexts(hash, table[id := node], vnodes.contents);
      table := table[id := node];
    }

    /** Every virtual node of a registered node comes off. */
    method DeleteVNodes(id: string)
      requires Lists() && NamesOk(table) && id in table && RingOk(hash, table, vnodes.contents)
      modifies vnodes.Repr()
      ensures Lists() && RingOk(hash, table - {id}, vnodes.contents)
      ensures nodes.contents == old(nodes.contents)
      ensures (forall o :: o in vnodes.Repr() ==> o in old(vnodes.Repr()) || fresh(o))
        && nodes.Repr() == old(nodes.Repr())
    {
      Unshared();
      ghost var rest := table - {id};
      var weights := table[id].weights;
      Unregistering(hash, table, id, vnodes.contents);
      assert NamesOk(rest) && |id| < ID_SIZE && weights <= 0x8000_0000 && id !in rest;
      hide Lists, NamesOk, SkipList.Repr, RingMid, RingOk, Removed, VEntry, Ascending;
      for i := 0 to weights
        invariant Lists() && RingMid(hash, rest, id, i, weights, vnodes.contents)
          && nodes.contents == old(nodes.contents)
        invariant (forall o :: o in vnodes.Repr() ==> o in old(vnodes.Repr()) || fresh(o))
          && nodes.Repr() == old(nodes.Repr()) && table == old(table)
      {
        Sorted();
        RingShrinks(hash, rest, id, i, weights, vnodes.contents);
        DropVNode(id, i);
      }
      RingIdle(hash, rest, id, weights, vnodes.contents);
    }

    /** The node list and the owners without node id, whose virtual nodes are off the ring. */
    lemma Leaving(id: string, ring0: seq<(nat, VNode)>)
      requires Lists() && NamesOk(table) && NodesOk(hash, table, nodes.contents) && id in table
      requires RingOk(hash, table - {id}, vnodes.contents) && RingOk(hash, table, ring0)
        && Ascending(CompareVNodes, ring0)
      ensures NamesOk(table - {id}) && NodesOk(hash, table - {id}, Removed(Strcmp, nodes.contents, (hash(id), id)))
      ensures forall key :: OwnerIn(ring0, key) == OwnerIn(vnodes.contents, key) || OwnerIn(ring0, key) == Some(id)
    {
      hide Lists, NamesOk, RingOk, NodesOk, Removed, Ascending, OwnerIn;
      Sorted();
      RingsShrunk(hash, table, id, vnodes.contents, ring0);
      Forgetting(hash, table, id, nodes.contents);
    }

    /** The virtual nodes and then the node itself, off the two lists. */
    method Unlist(id: string)
      requires Valid() && id in table
      modifies vnodes.Repr(), nodes.Repr()
      ensures Lists() && NamesOk(table - {id}) && RingOk(hash, table - {id}, vnodes.contents)
      ensures NodesOk(hash, table - {id}, nodes.contents)
      ensures forall key :: Owner(key) == old(Owner(key)) || old(Owner(key)) == Some(id)
      ensures Grown()
    {
      Unshared();
      Sorted();
      ghost var ring0 := vnodes.contents;
      hide Lists, SkipList.Repr, NamesOk, RingMid, RingOk, NodesOk, Removed, Ascending, OwnerIn;
      DeleteVNodes(id);
      Leaving(id, ring0);
      DropNode(id);
    }

    /** kr_conhash_delete_node and kr_conhash_free_node. */
    method DeleteNode(id: string)
      requires Valid() && id in table
      modifies this, vnodes.Repr(), nodes.Repr()
      ensures Valid() && table == old(table) - {id}
      ensures forall key :: Owner(key) == old(Owner(key)) || old(Owner(key)) == Some(id)
      ensures Grown()
    {
      Unshared();
      hide Lists, SkipList.Repr, NamesOk, RingOk, NodesOk, OwnerIn;
      Unlist(id);
      Unshared();
      table := table - {id};
    }

    /** The registered node of that name. */
    method Lookup(id: string) returns (r: Option<string>)
      requires Valid()
      ensures r == if id in table then Some(id) else None
    {
      Sorted();
      NodeHit(hash, table, id, nodes.contents);
      hide TotalPreorder, Ascending, SkipList.Wired, RingOk, NodesOk, NamesOk;
      r := nodes.Lookup(hash(id), id);
    }

    /** A new node takes objects only for itself. */
    method Add(id: string, weights: nat) returns (result: int)
      requires Valid() && id !in table && |id| < 100 && weights < 0x8000_0000
      modifies this, vnodes.Repr(), nodes.Repr()
      ensures Valid() && result == 0 && table == old(table)[id := ActualNode(weights, 0, InsertedStatus)]
      ensures forall key :: Owner(key) == old(Owner(key)) || Owner(key) == Some(id)
      ensures Grown()
    {
      hide Valid, SkipList.Repr, OwnerIn;
      InsertNode(id, weights);
      return 0;
    }

    /** Taking a node away moves only the objects that were on it. */
    method Remove(id: string) returns (result: int)
      requires Valid() && |id| < 100
      modifies this, vnodes.Repr(), nodes.Repr()
      ensures Valid() && result == (if id in old(table) then 0 else -1) && table == old(table) - {id}
      ensures forall key :: Owner(key) == old(Owner(key)) || old(Owner(key)) == Some(id)
      ensures Grown()
    {
      var found := Lookup(id);
      if found == None {
        assert table - {id} == table;
        return -1;
      }
      hide Valid, SkipList.Repr, OwnerIn;
      DeleteNode(id);
      return 0;
    }

    /** Take the node out and put it back with another weight. */
    method Reinsert(id: string, weights: nat)
      requires Valid() && id in table && |id| < ID_SIZE && weights < 0x8000_0000
      modifies this, vnodes.Repr(), nodes.Repr()
      ensures Valid() && table == old(table)[id := ActualNode(weights, 0, InsertedStatus)]
      ensures forall key :: Owner(key) == old(Owner(key)) || old(Owner(key)) == Some(id) || Owner(key) == Some(id)
      ensures Grown()
    {
      hide Valid, SkipList.Repr, OwnerIn;
      DeleteNode(id);
      InsertNode(id, weights);
      assert (old(table) - {id})[id := ActualNode(weights, 0, InsertedStatus)] ==
        old(table)[id := ActualNode(weights, 0, InsertedStatus)];
    }

    /** Changing the weight of a node moves objects only to it or away from it. */
    method AdjustWeights(id: string, weights: nat) returns (result: int)
      requires Valid() && |id| < 100 && weights < 0x8000_0000
      modifies this, vnodes.Repr(), nodes.Repr()
      ensures Valid() && result == if id in old(table) then 0 else -1
      ensures table == if id in old(table) then old(table)[id := ActualNode(weights, 0, InsertedStatus)] else old(table)
      ensures forall key :: Owner(key) == old(Owner(key)) || old(Owner(key)) == Some(id) || Owner(key) == Some(id)
      ensures Grown()
    {
      var found := Lookup(id);
      if found == None {
        return -1;
      }
      Reinsert(id, weights);
      return 0;
    }

    method Kick(id: string)
      requires Valid() && id in table
      modifies this`table
      ensures Valid() && table == old(table)[id := old(table)[id].(kicks := (old(table)[id].kicks + 1) % UINT_MAX)]
      ensures vnodes.contents == old(vnodes.contents)
    {
      var kicks := (table[id].kicks + 1) % UINT_MAX;
      Kicked(hash, table, id, kicks, vnodes.contents, nodes.contents);
      Unshared();
      hide Lists, RingOk, NodesOk, NamesOk, SkipList.Repr;
      table := table[id := table[id].(kicks := kicks)];
    }

    /** Who owns the objects with the given hash, by the texts of the nodes. */
    lemma ByTexts(key: nat)
      requires Valid()
      ensures OwnedBy(hash, table, key, Owner(key))
    {
      Sorted();
      hide *;
      OwnedByTexts(hash, table, vnodes.contents, key);
    }

    /** Who owns the objects with the given hash. */
    method FindOwner(key: nat) returns (r: Option<string>)
      requires Valid()
      ensures Valid() && r == Owner(key)
      ensures r != None ==> r.value in table
      ensures OwnedBy(hash, table, key, r)
    {
      ByTexts(key);
      OwnerRegistered(hash, table, vnodes.contents, key);
      hide SkipList.Wired, TotalPreorder, Ascending, CompareVNodes, Strcmp, Cyclic, NamesOk, RingOk, NodesOk,
        OwnedBy;
      var vnode := vnodes.LookupCycle(key);
      r := if vnode == None then None else Some(vnode.value.node);
    }

    /** The node an object belongs to, counted as used. */
    method Locate(item: string) returns (r: Option<string>)
      requires Valid()
      modifies this`table
      ensures Valid() && r == Owner(hash(item))
      ensures r == None ==> table == old(table)
      ensures r != None ==> r.value in old(table)
      ensures r != None ==>
        var node := old(table)[r.value];
        table == old(table)[r.value := node.(kicks := (node.kicks + 1) % 0xFFFF_FFFF)]
      ensures OwnedBy(hash, old(table), hash(item), r)
    {
      hide Lists, OwnerIn, NamesOk, RingOk, NodesOk, SkipList.Repr, OwnedBy;
      r := FindOwner(hash(item));
      if r != None {
        Kick(r.value);
      }
    }
  }
}
