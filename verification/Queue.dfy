/** The bounded queue of the thread pool, on the linked list. */
module Queue {
  import opened Options
  import opened LinkedList

  class Queue<T> {
    const list: List<T>
    const hwm: nat

    ghost predicate Valid()
      reads list, list.nodes
    {
      list.Valid() && |list.contents| <= hwm
    }

    constructor (hwm: nat)
      ensures Valid() && this.hwm == hwm && list.contents == [] && fresh(list)
    {
      this.hwm := hwm;
      list := new List(false);
    }

    /** Add at the tail, unless the high-water mark is reached. */
    method Push(data: T) returns (result: int)
      requires Valid()
      modifies list, list.nodes
      ensures Valid() && result == if |old(list.contents)| < hwm then 0 else -1
      ensures list.contents == if |old(list.contents)| < hwm then old(list.contents) + [data] else old(list.contents)
    {
      if list.len >= hwm {
        return -1;
      }
      list.AddTail(data);
      return 0;
    }

    /** Take from the head. */
    method Pop() returns (r: Option<T>)
      requires Valid()
      modifies list, list.nodes
      ensures Valid()
      ensures old(list.contents) == [] ==> r == None && list.contents == []
      ensures old(list.contents) != [] ==> r == Some(old(list.contents)[0]) && list.contents == old(list.contents)[1..]
    {
      if list.len == 0 {
        return None;
      }
      var node := list.head;
      if node == null {
        return None;
      }
      var value := node.value;
      list.Delete(node, 0);
      return Some(value);
    }
  }
}
