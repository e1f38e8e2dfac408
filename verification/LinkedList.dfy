/** The doubly linked list: links rewired in place, specified by the sequence of its nodes. */
module LinkedList {
  import opened Options

  class Node<T> {
    var prev: Node?<T>
    var next: Node?<T>
    var value: T

    constructor (value: T)
      ensures this.value == value && prev == null && next == null
    {
      this.value := value;
      prev, next := null, null;
    }
  }

  function RemoveAt<T>(s: seq<T>, k: nat): (r: seq<T>)
    requires k < |s|
    ensures |r| == |s| - 1
    ensures forall i {:trigger r[i]} :: 0 <= i < |r| ==> r[i] == if i < k then s[i] else s[i + 1]
  {
    s[..k] + s[k + 1..]
  }

  function InsertAt<T>(s: seq<T>, k: nat, x: T): (r: seq<T>)
    requires k <= |s|
    ensures |r| == |s| + 1
    ensures forall i {:trigger r[i]} :: 0 <= i < |r| ==>
      r[i] == if i < k then s[i] else if i == k then x else s[i - 1]
  {
    s[..k] + [x] + s[k..]
  }

  /** The index of the first element satisfying f, or the length. */
  function FirstIndex<T>(s: seq<T>, f: T -> bool): (r: nat)
    ensures r <= |s| && (r < |s| ==> f(s[r]))
    ensures forall i :: 0 <= i < r ==> !f(s[i])
  {
    if s == [] || f(s[0]) then 0 else 1 + FirstIndex(s[1..], f)
  }

  lemma FirstIndexIs<T>(s: seq<T>, f: T -> bool, k: nat)
    requires k <= |s| && (k < |s| ==> f(s[k])) && forall i :: 0 <= i < k ==> !f(s[i])
    ensures FirstIndex(s, f) == k
  {}

  lemma RemoveFirst<T>(s: seq<T>)
    requires |s| > 0
    ensures [s[0]] + RemoveAt(s, 0) == s
  {}

  lemma InsertFirst<T>(s: seq<T>, x: T)
    ensures InsertAt(s, 0, x) == [x] + s
  {}

  lemma InsertLast<T>(s: seq<T>, x: T)
    ensures InsertAt(s, |s|, x) == s + [x]
  {}

  /** Where a sorted insertion goes: walking from the tail past every element that x
      compares less than. Without a comparison function the walk never stops. */
  function SortedPosition<T>(s: seq<T>, x: T, compare: Option<(T, T) -> int>): (r: nat)
    ensures r <= |s|
    ensures forall i :: r <= i < |s| ==> compare.None? || compare.value(x, s[i]) < 0
    ensures r > 0 ==> compare.Some? && compare.value(x, s[r - 1]) >= 0
  {
    if s == [] then 0
    else if compare.Some? && compare.value(x, s[|s| - 1]) >= 0 then |s|
    else SortedPosition(s[..|s| - 1], x, compare)
  }

  lemma SortedPositionAt<T>(s: seq<T>, x: T, compare: Option<(T, T) -> int>, k: nat)
    requires k <= |s|
    requires forall i :: k <= i < |s| ==> compare.None? || compare.value(x, s[i]) < 0
    requires k > 0 ==> compare.Some? && compare.value(x, s[k - 1]) >= 0
    ensures SortedPosition(s, x, compare) == k
  {}

  ghost predicate TotalPreorder<T(!new)>(cmp: (T, T) -> int) {
    && (forall a, b :: cmp(a, b) <= 0 <==> cmp(b, a) >= 0)
    && (forall a, b, c :: cmp(a, b) <= 0 && cmp(b, c) <= 0 ==> cmp(a, c) <= 0)
  }

  ghost predicate Sorted<T>(cmp: (T, T) -> int, s: seq<T>) {
    forall i, j :: 0 <= i < j < |s| ==> cmp(s[i], s[j]) <= 0
  }

  lemma PreorderLaws<T(!new)>(cmp: (T, T) -> int, a: T, b: T, c: T)
    requires TotalPreorder(cmp)
    ensures cmp(a, b) <= 0 <==> cmp(b, a) >= 0
    ensures cmp(a, b) <= 0 && cmp(b, c) <= 0 ==> cmp(a, c) <= 0
    ensures cmp(a, b) < 0 ==> cmp(b, a) > 0
  {}

  /** Sorted insertion keeps the list sorted and is stable: the new element goes after
      every element it ties with. */
  lemma SortedInsertion<T(!new)>(cmp: (T, T) -> int, s: seq<T>, x: T)
    requires TotalPreorder(cmp) && Sorted(cmp, s)
    ensures var k := SortedPosition(s, x, Some(cmp));
      && Sorted(cmp, InsertAt(s, k, x))
      && (forall i :: 0 <= i < |s| ==> (i < k <==> cmp(s[i], x) <= 0))
  {
    hide TotalPreorder, InsertAt;
    var k := SortedPosition(s, x, Some(cmp));
    forall i | 0 <= i < |s|
      ensures i < k <==> cmp(s[i], x) <= 0
      ensures i >= k ==> cmp(x, s[i]) <= 0
    {
      PreorderLaws(cmp, x, s[i], x);
      if i < k {
        PreorderLaws(cmp, s[k - 1], x, x);
        PreorderLaws(cmp, s[i], s[k - 1], x);
      }
    }
  }

  class List<T> {
    var head: Node?<T>
    var tail: Node?<T>
    var len: nat
    var hasFree: bool
    // The values the free callback has been called on, in call order.
    var freed: seq<T>
    ghost var nodes: seq<Node<T>>
    ghost var contents: seq<T>

    ghost predicate Valid()
      reads this, nodes
    {
      && len == |nodes| == |contents| && Carries(nodes, contents)
      && head == At(nodes, 0) && tail == At(nodes, |nodes| - 1)
      && Linked(nodes)
    }

    static ghost predicate Carries(s: seq<Node<T>>, c: seq<T>)
      reads s`value
    {
      && |s| == |c|
      && forall i {:trigger s[i].value} {:trigger c[i]} :: 0 <= i < |s| ==> s[i].value == c[i]
    }

    static lemma CarriesInsert(s: seq<Node<T>>, c: seq<T>, k: nat, n: Node<T>)
      requires Carries(s, c) && k <= |s|
      ensures Carries(InsertAt(s, k, n), InsertAt(c, k, n.value))
    {
      hide InsertAt;
    }

    static lemma CarriesRemove(s: seq<Node<T>>, c: seq<T>, k: nat)
      requires Carries(s, c) && k < |s|
      ensures Carries(RemoveAt(s, k), RemoveAt(c, k)) && s[k].value == c[k]
      ensures Carries([s[k]] + RemoveAt(s, k), [c[k]] + RemoveAt(c, k))
    {
      hide RemoveAt;
    }

    static ghost function At(s: seq<Node<T>>, i: int): Node?<T> {
      if 0 <= i < |s| then s[i] else null
    }

    static ghost predicate Linked(s: seq<Node<T>>)
      reads s
    {
      && (forall i, j :: 0 <= i < j < |s| ==> s[i] != s[j])
      && (forall i {:trigger s[i].prev} :: 0 <= i < |s| ==> s[i].prev == At(s, i - 1))
      && (forall i {:trigger s[i].next} :: 0 <= i < |s| ==> s[i].next == At(s, i + 1))
    }

    ghost function Repr(): set<object>
      reads this
    {
      {this} + (set n: Node<T> | n in nodes)
    }

    constructor (hasFree: bool)
      ensures Valid() && nodes == [] && contents == []
      ensures this.hasFree == hasFree && freed == []
    {
      head, tail, len := null, null, 0;
      this.hasFree := hasFree;
      freed := [];
      nodes, contents := [], [];
    }

    method AddHead(value: T)
      requires Valid()
      modifies this`head, this`tail, this`len, this`nodes, this`contents, nodes
      ensures Valid() && contents == [value] + old(contents)
      ensures |nodes| > 0 && fresh(nodes[0]) && nodes[1..] == old(nodes)
      ensures nodes == InsertAt(old(nodes), 0, nodes[0])
    {
      hide InsertAt, Linked, Carries;
      ghost var was := nodes;
      LinkedParts(was);
      var node := new Node(value);
      if len == 0 {
        head, tail := node, node;
      } else {
        node.next := head;
        head.prev := node;
        head := node;
      }
      len := len + 1;
      LinkedInsert(was, 0, node);
      CarriesInsert(was, contents, 0, node);
      InsertFirst(was, node);
      InsertFirst(contents, value);
      nodes, contents := [node] + nodes, [value] + contents;
    }

    method AddTail(value: T)
      requires Valid()
      modifies this`head, this`tail, this`len, this`nodes, this`contents, nodes
      ensures Valid() && contents == old(contents) + [value]
      ensures |nodes| > 0 && fresh(nodes[|nodes| - 1]) && nodes[..|nodes| - 1] == old(nodes)
    {
      hide InsertAt, Linked, Carries;
      ghost var was := nodes;
      LinkedParts(was);
      var node := new Node(value);
      if len == 0 {
        head, tail := node, node;
      } else {
        node.prev := tail;
        tail.next := node;
        tail := node;
      }
      len := len + 1;
      LinkedInsert(was, |was|, node);
      CarriesInsert(was, contents, |was|, node);
      InsertLast(was, node);
      InsertLast(contents, value);
      nodes, contents := nodes + [node], contents + [value];
    }

    method AddSorted(value: T, compare: Option<(T, T) -> int>)
      requires Valid()
      modifies this`head, this`tail, this`len, this`nodes, this`contents, nodes
      ensures Valid()
      ensures contents == InsertAt(old(contents), SortedPosition(old(contents), value, compare), value)
      ensures exists k :: 0 <= k < |nodes| && fresh(nodes[k]) && nodes == InsertAt(old(nodes), k, nodes[k])
    {
      hide InsertAt, Linked;
      LinkedParts(nodes);
      var node := new Node(value);
      ghost var k := |nodes|;
      ghost var s := contents;
      if len == 0 {
        head, tail := node, node;
      } else {
        var curr, next := tail, tail.next;
        while curr != null
          invariant 0 <= k <= |nodes| && curr == At(nodes, k - 1) && next == At(nodes, k)
          invariant forall i :: k <= i < |s| ==> compare.None? || compare.value(value, s[i]) < 0
          decreases k
        {
          assert s[k - 1] == curr.value;
          if compare.Some? && compare.value(value, curr.value) >= 0 {
            break;
          }
          next, curr := curr, curr.prev;
          k := k - 1;
        }
        Link(node, curr, next, k);
        SortedPositionAt(s, value, compare, k);
        assert nodes[k] == node;
        return;
      }
      len := len + 1;
      LinkedInsert(nodes, 0, node);
      InsertFirst(nodes, node);
      InsertFirst(contents, value);
      nodes, contents := [node] + nodes, [value] + contents;
    }

    static lemma LinkedParts(s: seq<Node<T>>)
      requires Linked(s)
      ensures forall i, j :: 0 <= i < j < |s| ==> s[i] != s[j]
      ensures forall i {:trigger s[i].prev} :: 0 <= i < |s| ==> s[i].prev == At(s, i - 1)
      ensures forall i {:trigger s[i].next} :: 0 <= i < |s| ==> s[i].next == At(s, i + 1)
    {}

    static lemma LinkedInsert(s: seq<Node<T>>, k: nat, n: Node<T>)
      requires k <= |s| && n !in s
      requires forall i, j :: 0 <= i < j < |s| ==> s[i] != s[j]
      requires forall i {:trigger s[i].prev} :: 0 <= i < |s| ==> s[i].prev == if i == k then n else At(s, i - 1)
      requires forall i {:trigger s[i].next} :: 0 <= i < |s| ==> s[i].next == if i + 1 == k then n else At(s, i + 1)
      requires n.prev == At(s, k - 1) && n.next == At(s, k)
      ensures Linked(InsertAt(s, k, n))
    {
      hide InsertAt;
    }

    /** Splice a detached node in between two neighbours. */
    method Link(node: Node<T>, curr: Node?<T>, next: Node?<T>, ghost k: nat)
      requires Valid() && k <= |nodes| && curr == At(nodes, k - 1) && next == At(nodes, k)
      requires node !in nodes
      modifies this`head, this`tail, this`len, this`nodes, this`contents, nodes, node
      ensures Valid() && node.value == old(node.value)
      ensures nodes == InsertAt(old(nodes), k, node)
      ensures contents == InsertAt(old(contents), k, node.value)
    {
      hide InsertAt, Linked, Carries;
      ghost var was := nodes;
      LinkedParts(was);
      CarriesInsert(nodes, contents, k, node);
      node.prev, node.next := curr, next;
      if node.prev != null {
        node.prev.next := node;
      } else {
        head := node;
      }
      if node.next != null {
        node.next.prev := node;
      } else {
        tail := node;
      }
      LinkedInsert(was, k, node);
      len := len + 1;
      nodes, contents := InsertAt(nodes, k, node), InsertAt(contents, k, node.value);
    }

    static lemma LinkedRemove(s: seq<Node<T>>, k: nat)
      requires k < |s|
      requires forall i, j :: 0 <= i < j < |s| ==> s[i] != s[j]
      requires forall i {:trigger s[i].prev} :: 0 <= i < |s| && i != k ==>
        s[i].prev == if i == k + 1 then At(s, k - 1) else At(s, i - 1)
      requires forall i {:trigger s[i].next} :: 0 <= i < |s| && i != k ==>
        s[i].next == if i + 1 == k then At(s, k + 1) else At(s, i + 1)
      ensures Linked(RemoveAt(s, k))
    {
      hide RemoveAt;
    }

    /** Unlink a node and free it; k is its position. */
    method Delete(node: Node<T>, ghost k: nat)
      requires Valid() && k < |nodes| && nodes[k] == node
      modifies this`head, this`tail, this`len, this`nodes, this`contents, this`freed, nodes
      ensures Valid() && nodes == RemoveAt(old(nodes), k)
      ensures contents == RemoveAt(old(contents), k)
      ensures freed == old(freed) + (if hasFree then [old(contents)[k]] else [])
      ensures forall n :: n in old(nodes) ==> n.value == old(n.value)
    {
      hide RemoveAt, Linked, Carries;
      ghost var was := nodes;
      LinkedParts(was);
      CarriesRemove(nodes, contents, k);
      if node.prev != null {
        node.prev.next := node.next;
      } else {
        head := node.next;
      }
      if node.next != null {
        node.next.prev := node.prev;
      } else {
        tail := node.prev;
      }
      LinkedRemove(was, k);
      if hasFree {
        freed := freed + [node.value];
      }
      len := len - 1;
      nodes, contents := RemoveAt(nodes, k), RemoveAt(contents, k);
    }

    /** The first node whose value satisfies the match, walking from the head. */
    method Search(matches: T -> bool) returns (node: Node?<T>, ghost k: nat)
      requires Valid()
      ensures node == At(nodes, FirstIndex(contents, matches)) && k == FirstIndex(contents, matches)
    {
      node := head;
      k := 0;
      while node != null
        invariant k <= |nodes| && node == At(nodes, k)
        invariant forall i :: 0 <= i < k ==> !matches(contents[i])
        decreases |nodes| - k
      {
        assert node.value == contents[k];
        if matches(node.value) {
          break;
        }
        node := node.next;
        k := k + 1;
      }
      FirstIndexIs(contents, matches, k);
    }

    /** Delete the first node whose value satisfies the match, if there is one. */
    method Remove(matches: T -> bool)
      requires Valid()
      modifies this`head, this`tail, this`len, this`nodes, this`contents, this`freed, nodes
      ensures Valid()
      ensures var k := FirstIndex(old(contents), matches);
        if k < |old(contents)|
        then
          && contents == RemoveAt(old(contents), k) && nodes == RemoveAt(old(nodes), k)
          && freed == old(freed) + (if hasFree then [old(contents)[k]] else [])
        else contents == old(contents) && nodes == old(nodes) && freed == old(freed)
    {
      var node, k := Search(matches);
      if node != null {
        Delete(node, k);
      }
    }

    static lemma LinkedMove(s: seq<Node<T>>, k: nat)
      requires 0 < k < |s|
      requires forall i, j :: 0 <= i < j < |s| ==> s[i] != s[j]
      requires forall i {:trigger s[i].prev} :: 0 <= i < |s| ==>
        s[i].prev == if i == 0 then s[k] else if i == k then null else if i == k + 1 then s[k - 1] else s[i - 1]
      requires forall i {:trigger s[i].next} :: 0 <= i < |s| ==>
        s[i].next == if i == k then s[0] else if i + 1 == k then At(s, k + 1) else At(s, i + 1)
      ensures Linked([s[k]] + RemoveAt(s, k))
    {
      hide RemoveAt;
      var r := [s[k]] + RemoveAt(s, k);
      assert forall i {:trigger r[i]} :: 0 <= i < |r| ==>
        r[i] == if i == 0 then s[k] else if i <= k then s[i - 1] else s[i];
    }

    /** Make a node the head of the list; k is its position. */
    method MoveHead(node: Node<T>, ghost k: nat)
      requires Valid() && k < |nodes| && nodes[k] == node
      modifies this`head, this`tail, this`nodes, this`contents, nodes
      ensures Valid() && nodes == [node] + RemoveAt(old(nodes), k)
      ensures contents == [old(contents)[k]] + RemoveAt(old(contents), k)
    {
      hide RemoveAt, Linked, Carries;
      ghost var was := nodes;
      LinkedParts(was);
      CarriesRemove(nodes, contents, k);
      if node.prev == null {
        RemoveFirst(nodes);
        RemoveFirst(contents);
        return;
      }
      node.prev.next := node.next;
      if node.next != null {
        node.next.prev := node.prev;
      } else {
        tail := node.prev;
      }
      node.prev := null;
      node.next := head;
      head.prev := node;
      head := node;
      LinkedMove(was, k);
      nodes := [node] + RemoveAt(nodes, k);
      contents := [contents[k]] + RemoveAt(contents, k);
    }
  }
}
