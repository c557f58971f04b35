/** The minimal `Queue` that hands out its nodes: `push` links a new node
    after `last`, `pop` unlinks `first` and returns it, and the two `peek`
    operations return the end nodes themselves. */
module NodeQueue {
  import opened Errors
  import opened Nodes
  import DoublyChain

  type Queue<T(==)> = DoublyChain.DoublyLinkedList<T>

  /** `push`: a new node after `last`, which becomes `first` as well when the
      queue was empty. */
  method Push<T(==)>(q: Queue<T>, data: T)
    requires q.Valid()
    modifies q.Repr
    ensures q.Valid() && fresh(q.Repr - old(q.Repr))
    ensures q.Contents == old(q.Contents) + [data]
    ensures q.last != null && q.last.value == data && q.last.next == null
    ensures old(q.Contents) == [] ==> q.first == q.last
  {
    q.Append(data);
    assert q.last == q.nodes[|q.nodes| - 1] && q.last.next == DoublyChain.NextOf(q.nodes, |q.nodes| - 1);
  }

  /** `pop`: `IndexError` and no change on an empty queue; otherwise the front
      node, unlinked, with the new front's `prev` cleared, and both ends
      cleared when it was the only node. */
  method Pop<T(==)>(q: Queue<T>) returns (r: Result<DNode<T>>)
    requires q.Valid()
    modifies q.Repr
    ensures q.Valid() && q.Repr == old(q.Repr)
    ensures r.Err? <==> old(q.Contents) == []
    ensures r.Err? ==> r.error == IndexError && q.Contents == old(q.Contents)
    ensures r.Ok? ==> r.value == old(q.first) && r.value.value == old(q.Contents[0])
    ensures r.Ok? ==> q.Contents == old(q.Contents[1..])
    ensures q.first != null ==> q.first.prev == null
    ensures r.Ok? && |old(q.Contents)| == 1 ==> q.first == null && q.last == null
  {
    if q.first == null {
      return Err(IndexError);
    }
    var node := q.UnlinkAt(0);
    q.EndsMissingIffEmpty();
    return Ok(node);
  }

  /** `peek_first`: the front node, `None` when empty. */
  method PeekFirst<T(==)>(q: Queue<T>) returns (node: DNode?<T>)
    requires q.Valid()
    ensures node == null <==> q.Contents == []
    ensures node != null ==> node == q.nodes[0] && node.value == q.Contents[0]
  {
    q.EndsMissingIffEmpty();
    return q.first;
  }

  /** `peek_last`: the rear node, `None` when empty. */
  method PeekLast<T(==)>(q: Queue<T>) returns (node: DNode?<T>)
    requires q.Valid()
    ensures node == null <==> q.Contents == []
    ensures node != null ==> node == q.nodes[|q.nodes| - 1] && node.value == q.Contents[|q.Contents| - 1]
  {
    q.EndsMissingIffEmpty();
    return q.last;
  }

  /** `is_empty`: there is no front node. */
  method IsEmpty<T(==)>(q: Queue<T>) returns (empty: bool)
    requires q.Valid()
    ensures empty <==> q.Contents == []
  {
    q.EndsMissingIffEmpty();
    return q.first == null;
  }
}
