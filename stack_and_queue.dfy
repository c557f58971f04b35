/** The `Stack` and `Queue` built on the linked-list nodes. The stack is a
    singly linked chain whose `top` is the chain's first node, so iteration
    runs from the top down; the queue is a doubly linked chain with `first`
    and `last`, dequeued at `first` and enqueued after `last`. The older
    top-level copy has the same code with public field names, and the
    standalone queue keeps the same `enqueue`, `dequeue`, `is_empty`,
    iteration and membership code; all of them use these members. */
module StackAndQueue {
  import opened Errors
  import opened Nodes
  import SinglyChain
  import DoublyChain

  type Stack<T(==)> = SinglyChain.SinglyLinkedList<T>
  type Queue<T(==)> = DoublyChain.DoublyLinkedList<T>

  /** `Stack.push`: the value becomes the top and everything else stays
      below it. */
  method Push<T(==)>(s: Stack<T>, value: T)
    requires s.Valid()
    modifies s
    ensures s.Valid() && fresh(s.Repr - old(s.Repr))
    ensures s.Contents == [value] + old(s.Contents)
    ensures s.length == old(s.length) + 1
    ensures s.first != null && s.first.value == value
  {
    s.Prepend(value);
  }

  /** `Stack.pop`: `IndexError` and no change on an empty stack; otherwise the
      top value is returned and the element below it becomes the top. */
  method Pop<T(==)>(s: Stack<T>) returns (r: Result<T>)
    requires s.Valid()
    modifies s.Repr
    ensures s.Valid() && s.Repr == old(s.Repr)
    ensures r.Err? <==> old(s.Contents) == []
    ensures r.Err? ==> r.error == IndexError && s.Contents == old(s.Contents)
    ensures r.Ok? ==> r.value == old(s.Contents[0]) && s.Contents == old(s.Contents[1..])
    ensures r.Ok? ==> s.length == old(s.length) - 1
  {
    if s.first == null {
      return Err(IndexError);
    }
    var node := s.UnlinkAt(0);
    return Ok(node.value);
  }

  /** `Stack.peek`: the top value, or `None` on an empty stack. */
  method Peek<T(==)>(s: Stack<T>) returns (r: Option<T>)
    requires s.Valid()
    ensures r.None? <==> s.Contents == []
    ensures r.Some? ==> r.value == s.Contents[0]
  {
    if s.first == null {
      return None;
    }
    return Some(s.first.value);
  }

  /** `Stack.is_empty`: there is no top. */
  method StackIsEmpty<T(==)>(s: Stack<T>) returns (empty: bool)
    requires s.Valid()
    ensures empty <==> s.Contents == []
  {
    return s.first == null;
  }

  /** Popping right after a push hands back the pushed value and leaves the
      stack as it was before the push. */
  method PushThenPop<T(==)>(s: Stack<T>, value: T) returns (r: Result<T>)
    requires s.Valid()
    modifies s.Repr, s
    ensures s.Valid() && fresh(s.Repr - old(s.Repr))
    ensures r == Ok(value) && s.Contents == old(s.Contents)
  {
    Push(s, value);
    r := Pop(s);
  }

  /** `Queue(iterable)`: `enqueue` per element keeps the iterable's order,
      the first element at the front. */
  method BuildQueue<T(==)>(items: seq<T>) returns (q: Queue<T>)
    ensures q.Valid() && fresh(q.Repr)
    ensures q.Contents == items
  {
    q := new DoublyChain.DoublyLinkedList();
    for i := 0 to |items|
      invariant q.Valid() && fresh(q.Repr)
      invariant q.Contents == items[..i]
    {
      Enqueue(q, items[i]);
      assert items[..i + 1] == items[..i] + [items[i]];
    }
    assert items[..|items|] == items;
  }

  /** `Queue.enqueue`: the value joins at the rear; on an empty queue the new
      node is both the front and the rear. */
  method Enqueue<T(==)>(q: Queue<T>, value: T)
    requires q.Valid()
    modifies q.Repr
    ensures q.Valid() && fresh(q.Repr - old(q.Repr))
    ensures q.Contents == old(q.Contents) + [value]
    ensures q.length == old(q.length) + 1
    ensures q.last != null && q.last.value == value
    ensures old(q.Contents) == [] ==> q.first == q.last
  {
    q.Append(value);
  }

  /** `Queue.dequeue`: `IndexError` and no change on an empty queue; otherwise
      the front value is returned, the next element becomes the front with no
      predecessor, and when the only element leaves both ends are cleared. */
  method Dequeue<T(==)>(q: Queue<T>) returns (r: Result<T>)
    requires q.Valid()
    modifies q.Repr
    ensures q.Valid() && q.Repr == old(q.Repr)
    ensures r.Err? <==> old(q.Contents) == []
    ensures r.Err? ==> r.error == IndexError && q.Contents == old(q.Contents)
    ensures r.Ok? ==> r.value == old(q.Contents[0]) && q.Contents == old(q.Contents[1..])
    ensures r.Ok? ==> q.length == old(q.length) - 1
    ensures q.first != null ==> q.first.prev == null
    ensures r.Ok? && old(q.length) == 1 ==> q.first == null && q.last == null
  {
    if q.first == null {
      return Err(IndexError);
    }
    var node := q.UnlinkAt(0);
    q.EndsMissingIffEmpty();
    return Ok(node.value);
  }

  /** `Queue.front`: the front value, or `None` on an empty queue. */
  method Front<T(==)>(q: Queue<T>) returns (r: Option<T>)
    requires q.Valid()
    ensures r.None? <==> q.Contents == []
    ensures r.Some? ==> r.value == q.Contents[0]
  {
    if q.first == null {
      return None;
    }
    return Some(q.first.value);
  }

  /** `Queue.rear`: the rear value, or `None` on an empty queue. */
  method Rear<T(==)>(q: Queue<T>) returns (r: Option<T>)
    requires q.Valid()
    ensures r.None? <==> q.Contents == []
    ensures r.Some? ==> r.value == q.Contents[|q.Contents| - 1]
  {
    if q.last == null {
      return None;
    }
    return Some(q.last.value);
  }

  /** `Queue.is_empty`: there is no front. */
  method QueueIsEmpty<T(==)>(q: Queue<T>) returns (empty: bool)
    requires q.Valid()
    ensures empty <==> q.Contents == []
  {
    q.EndsMissingIffEmpty();
    return q.first == null;
  }

  /** Enqueueing onto a non-empty queue and then dequeueing hands back the
      old front, not the new value: first in, first out. */
  method EnqueueThenDequeue<T(==)>(q: Queue<T>, value: T) returns (r: Result<T>)
    requires q.Valid() && q.Contents != []
    modifies q.Repr
    ensures q.Valid() && fresh(q.Repr - old(q.Repr))
    ensures r == Ok(old(q.Contents[0])) && q.Contents == old(q.Contents[1..]) + [value]
  {
    Enqueue(q, value);
    r := Dequeue(q);
  }
}
