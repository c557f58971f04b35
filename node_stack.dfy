/** The minimal `Stack` that hands out its nodes: `head` is the top, `push`
    puts a new head in front of the old one and `pop` unlinks the head and
    returns it. */
module NodeStack {
  import opened Errors
  import opened Nodes
  import SinglyChain

  type Stack<T(==)> = SinglyChain.SinglyLinkedList<T>

  /** `push`: a new head whose `next` is the old head. */
  method Push<T(==)>(s: Stack<T>, data: T)
    requires s.Valid()
    modifies s
    ensures s.Valid() && fresh(s.Repr - old(s.Repr))
    ensures s.Contents == [data] + old(s.Contents)
    ensures s.first != null && s.first.value == data && s.first.next == old(s.first)
  {
    s.Prepend(data);
    assert s.first == s.nodes[0] && s.first.next == SinglyChain.NextOf(s.nodes, 0);
  }

  /** `pop`: `IndexError` and no change on an empty stack; otherwise the head
      node, with `head` moved to the node after it. */
  method Pop<T(==)>(s: Stack<T>) returns (r: Result<SNode<T>>)
    requires s.Valid()
    modifies s.Repr
    ensures s.Valid() && s.Repr == old(s.Repr)
    ensures r.Err? <==> old(s.Contents) == []
    ensures r.Err? ==> r.error == IndexError && s.Contents == old(s.Contents)
    ensures r.Ok? ==> r.value == old(s.first) && r.value.value == old(s.Contents[0])
    ensures r.Ok? ==> s.first == old(s.first.next) && s.Contents == old(s.Contents[1..])
  {
    if s.first == null {
      return Err(IndexError);
    }
    assert s.first.next == SinglyChain.NextOf(s.nodes, 0);
    var node := s.UnlinkAt(0);
    return Ok(node);
  }

  /** `peek`: the head node, `None` when empty. */
  method Peek<T(==)>(s: Stack<T>) returns (node: SNode?<T>)
    requires s.Valid()
    ensures node == null <==> s.Contents == []
    ensures node != null ==> node == s.nodes[0] && node.value == s.Contents[0]
  {
    return s.first;
  }

  /** `is_empty`: there is no head. */
  method IsEmpty<T(==)>(s: Stack<T>) returns (empty: bool)
    requires s.Valid()
    ensures empty <==> s.Contents == []
  {
    return s.first == null;
  }

  /** Popping right after a push hands back the pushed node and puts the old
      head back in place. */
  method PushThenPop<T(==)>(s: Stack<T>, data: T) returns (r: Result<SNode<T>>)
    requires s.Valid()
    modifies s.Repr, s
    ensures s.Valid() && fresh(s.Repr - old(s.Repr))
    ensures r.Ok? && r.value.value == data
    ensures s.first == old(s.first) && s.Contents == old(s.Contents)
  {
    Push(s, data);
    r := Pop(s);
  }
}
