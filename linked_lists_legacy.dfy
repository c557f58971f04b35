/** The older linked lists: the constructor keeps the iterable's order by
    inserting at 0 from the last element back, item access and `pop` hand out
    the nodes themselves, and the doubly linked `add` appends. Their `insert`,
    `__setitem__`, `get` and `__contains__` behave as in the refined lists and
    use the same members. */
module LegacyLinkedLists {
  import opened Errors
  import opened Nodes
  import opened ListIndex
  import SinglyChain
  import DoublyChain
  import LinkedLists

  type SinglyLinkedList<T(==)> = SinglyChain.SinglyLinkedList<T>
  type DoublyLinkedList<T(==)> = DoublyChain.DoublyLinkedList<T>

  /** `SinglyLinkedList(iterable)`: inserting at 0 from the last element to
      the first leaves the elements in their given order. */
  method BuildSingly<T(==)>(items: seq<T>) returns (l: SinglyLinkedList<T>)
    ensures l.Valid() && fresh(l.Repr)
    ensures l.Contents == items
  {
    l := new SinglyChain.SinglyLinkedList();
    var i := |items|;
    while i > 0
      invariant 0 <= i <= |items|
      invariant l.Valid() && fresh(l.Repr)
      invariant l.Contents == items[i..]
    {
      i := i - 1;
      LinkedLists.SinglyInsert(l, items[i], 0);
      assert items[i..] == [items[i]] + items[i + 1..];
    }
  }

  /** `DoublyLinkedList(iterable)`: the same, order kept. */
  method BuildDoubly<T(==)>(items: seq<T>) returns (l: DoublyLinkedList<T>)
    ensures l.Valid() && fresh(l.Repr)
    ensures l.Contents == items
  {
    l := new DoublyChain.DoublyLinkedList();
    var i := |items|;
    while i > 0
      invariant 0 <= i <= |items|
      invariant l.Valid() && fresh(l.Repr)
      invariant l.Contents == items[i..]
    {
      i := i - 1;
      LinkedLists.DoublyInsert(l, items[i], 0);
      assert items[i..] == [items[i]] + items[i + 1..];
    }
  }

  /** `SinglyLinkedList.__getitem__`: the node at the normalised index, or
      `IndexError` out of range. */
  method SinglyGetItem<T(==)>(l: SinglyLinkedList<T>, index: int) returns (r: Result<SNode<T>>)
    requires l.Valid()
    ensures r.Ok? <==> InRange(index, |l.nodes|)
    ensures r.Ok? ==> var k := Normalised(index, |l.nodes|);
      r.value == l.nodes[k] && r.value.value == l.Contents[k]
    ensures r.Err? ==> r.error == IndexError
  {
    if !InRange(index, l.length) {
      return Err(IndexError);
    }
    var node := l.GetNode(index);
    return Ok(node);
  }

  /** `DoublyLinkedList.__getitem__`: the node at the normalised index, or
      `IndexError` out of range. */
  method DoublyGetItem<T(==)>(l: DoublyLinkedList<T>, index: int) returns (r: Result<DNode<T>>)
    requires l.Valid()
    ensures r.Ok? <==> InRange(index, |l.nodes|)
    ensures r.Ok? ==> var k := Normalised(index, |l.nodes|);
      r.value == l.nodes[k] && r.value.value == l.Contents[k]
    ensures r.Err? ==> r.error == IndexError
  {
    if !InRange(index, l.length) {
      return Err(IndexError);
    }
    var node := l.GetNode(index);
    return Ok(node);
  }

  /** `SinglyLinkedList.pop(index)`: `IndexError` on an empty list or out of
      range, with the list untouched; otherwise the node at the normalised
      index, unlinked. */
  method SinglyPop<T(==)>(l: SinglyLinkedList<T>, index: int) returns (r: Result<SNode<T>>)
    requires l.Valid()
    modifies l.Repr
    ensures l.Valid() && l.Repr == old(l.Repr)
    ensures r.Err? <==> !InRange(index, old(l.length))
    ensures r.Err? ==> r.error == IndexError && l.nodes == old(l.nodes) && l.Contents == old(l.Contents)
    ensures r.Ok? ==> var k := Normalised(index, old(l.length));
      && r.value == old(l.nodes[k]) && r.value.value == old(l.Contents[k])
      && l.nodes == RemoveAt(old(l.nodes), k) && l.Contents == RemoveAt(old(l.Contents), k)
  {
    if l.length == 0 {
      return Err(IndexError);
    } else if !InRange(index, l.length) {
      return Err(IndexError);
    }
    var node := l.UnlinkAt(Normalised(index, l.length));
    return Ok(node);
  }

  /** `DoublyLinkedList.pop(index)`: as for the singly linked list, with
      `first` and `last` moved when an end leaves. */
  method DoublyPop<T(==)>(l: DoublyLinkedList<T>, index: int) returns (r: Result<DNode<T>>)
    requires l.Valid()
    modifies l.Repr
    ensures l.Valid() && l.Repr == old(l.Repr)
    ensures r.Err? <==> !InRange(index, old(l.length))
    ensures r.Err? ==> r.error == IndexError && l.nodes == old(l.nodes) && l.Contents == old(l.Contents)
    ensures r.Ok? ==> var k := Normalised(index, old(l.length));
      && r.value == old(l.nodes[k]) && r.value.value == old(l.Contents[k])
      && l.nodes == RemoveAt(old(l.nodes), k) && l.Contents == RemoveAt(old(l.Contents), k)
  {
    if l.length == 0 {
      return Err(IndexError);
    } else if !InRange(index, l.length) {
      return Err(IndexError);
    }
    var node := l.UnlinkAt(Normalised(index, l.length));
    return Ok(node);
  }
}
