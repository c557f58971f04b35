/** The refined linked lists: `SinglyLinkedList` and `DoublyLinkedList` with
    `add` at the front, `insert` clamped like `list.insert`, `pop` with a
    default index of 0 returning the value, and item access raising
    `IndexError` out of range. The chain code they share lives in the chain
    modules; what is here is each operation's handling of its index. */
module LinkedLists {
  import opened Errors
  import opened ListIndex
  import SinglyChain
  import DoublyChain

  type SinglyLinkedList<T(==)> = SinglyChain.SinglyLinkedList<T>
  type DoublyLinkedList<T(==)> = DoublyChain.DoublyLinkedList<T>

  /** `SinglyLinkedList(iterable)`: `add` per element puts each one in front,
      so the list holds the elements in reverse order. */
  method BuildSingly<T(==)>(items: seq<T>) returns (l: SinglyLinkedList<T>)
    ensures l.Valid() && fresh(l.Repr)
    ensures l.Contents == Reversed(items)
  {
    l := new SinglyChain.SinglyLinkedList();
    for i := 0 to |items|
      invariant l.Valid() && fresh(l.Repr)
      invariant l.Contents == Reversed(items[..i])
    {
      l.Prepend(items[i]);
      assert Reversed(items[..i + 1]) == [items[i]] + Reversed(items[..i]);
    }
    assert items[..|items|] == items;
  }

  /** `DoublyLinkedList(iterable)`: the same reversal through the doubly
      linked `add`. */
  method BuildDoubly<T(==)>(items: seq<T>) returns (l: DoublyLinkedList<T>)
    ensures l.Valid() && fresh(l.Repr)
    ensures l.Contents == Reversed(items)
  {
    l := new DoublyChain.DoublyLinkedList();
    for i := 0 to |items|
      invariant l.Valid() && fresh(l.Repr)
      invariant l.Contents == Reversed(items[..i])
    {
      l.Prepend(items[i]);
      assert Reversed(items[..i + 1]) == [items[i]] + Reversed(items[..i]);
    }
    assert items[..|items|] == items;
  }

  /** `SinglyLinkedList.insert`: the value goes before the clamped index. */
  method SinglyInsert<T(==)>(l: SinglyLinkedList<T>, value: T, index: int)
    requires l.Valid()
    modifies l.Repr
    ensures l.Valid() && fresh(l.Repr - old(l.Repr))
    ensures l.Contents == InsertAt(old(l.Contents), Clamped(index, old(l.length)), value)
  {
    ClampedAgrees(index, l.length);
    l.LinkAt(value, Clamped(index, l.length));
  }

  /** `DoublyLinkedList.insert`: the value goes before the clamped index. */
  method DoublyInsert<T(==)>(l: DoublyLinkedList<T>, value: T, index: int)
    requires l.Valid()
    modifies l.Repr
    ensures l.Valid() && fresh(l.Repr - old(l.Repr))
    ensures l.Contents == InsertAt(old(l.Contents), Clamped(index, old(l.length)), value)
  {
    ClampedAgrees(index, l.length);
    l.LinkAt(value, Clamped(index, l.length));
  }

  /** `SinglyLinkedList.pop(index)`: `IndexError` on an empty list or an index
      outside `[-length, length - 1]`, with the list untouched; otherwise the
      value at the normalised index, which leaves the list. */
  method SinglyPop<T(==)>(l: SinglyLinkedList<T>, index: int) returns (r: Result<T>)
    requires l.Valid()
    modifies l.Repr
    ensures l.Valid() && l.Repr == old(l.Repr)
    ensures r.Err? <==> !InRange(index, old(l.length))
    ensures r.Err? ==> r.error == IndexError && l.nodes == old(l.nodes) && l.Contents == old(l.Contents)
    ensures r.Ok? ==> var k := Normalised(index, old(l.length));
      r.value == old(l.Contents[k]) && l.nodes == RemoveAt(old(l.nodes), k) && l.Contents == RemoveAt(old(l.Contents), k)
  {
    if l.length == 0 {
      return Err(IndexError);
    } else if !InRange(index, l.length) {
      return Err(IndexError);
    }
    var node := l.UnlinkAt(Normalised(index, l.length));
    return Ok(node.value);
  }

  /** `DoublyLinkedList.pop(index)`: as for the singly linked list; popping
      the last element moves `last` to its predecessor. */
  method DoublyPop<T(==)>(l: DoublyLinkedList<T>, index: int) returns (r: Result<T>)
    requires l.Valid()
    modifies l.Repr
    ensures l.Valid() && l.Repr == old(l.Repr)
    ensures r.Err? <==> !InRange(index, old(l.length))
    ensures r.Err? ==> r.error == IndexError && l.nodes == old(l.nodes) && l.Contents == old(l.Contents)
    ensures r.Ok? ==> var k := Normalised(index, old(l.length));
      r.value == old(l.Contents[k]) && l.nodes == RemoveAt(old(l.nodes), k) && l.Contents == RemoveAt(old(l.Contents), k)
    ensures r.Ok? && Normalised(index, old(l.length)) == old(l.length) - 1 ==>
      l.last == if old(l.length) == 1 then null else old(l.nodes[l.length - 2])
  {
    if l.length == 0 {
      return Err(IndexError);
    } else if !InRange(index, l.length) {
      return Err(IndexError);
    }
    var node := l.UnlinkAt(Normalised(index, l.length));
    return Ok(node.value);
  }

  /** `__getitem__` on a singly linked list: the value at the normalised
      index, or `IndexError` out of range. */
  method SinglyGetItem<T(==)>(l: SinglyLinkedList<T>, index: int) returns (r: Result<T>)
    requires l.Valid()
    ensures r.Ok? <==> InRange(index, |l.Contents|)
    ensures r.Ok? ==> r.value == l.Contents[Normalised(index, |l.Contents|)]
    ensures r.Err? ==> r.error == IndexError
  {
    var node := l.GetNode(index);
    if node == null {
      return Err(IndexError);
    }
    return Ok(node.value);
  }

  /** `__getitem__` on a doubly linked list. */
  method DoublyGetItem<T(==)>(l: DoublyLinkedList<T>, index: int) returns (r: Result<T>)
    requires l.Valid()
    ensures r.Ok? <==> InRange(index, |l.Contents|)
    ensures r.Ok? ==> r.value == l.Contents[Normalised(index, |l.Contents|)]
    ensures r.Err? ==> r.error == IndexError
  {
    var node := l.GetNode(index);
    if node == null {
      return Err(IndexError);
    }
    return Ok(node.value);
  }

  /** `__setitem__` on a singly linked list: only the value at the normalised
      index changes and the length stays; out of range, `IndexError` and no
      change. */
  method SinglySetItem<T(==)>(l: SinglyLinkedList<T>, index: int, value: T) returns (r: Result<()>)
    requires l.Valid()
    modifies l.Repr
    ensures l.Valid() && l.Repr == old(l.Repr)
    ensures r.Ok? <==> InRange(index, old(l.length))
    ensures r.Err? ==> r.error == IndexError && l.Contents == old(l.Contents)
    ensures r.Ok? ==> l.Contents == old(l.Contents)[Normalised(index, old(l.length)) := value]
  {
    var node := l.GetNode(index);
    if node == null {
      return Err(IndexError);
    }
    l.SetAt(Normalised(index, l.length), value);
    return Ok(());
  }

  /** `__setitem__` on a doubly linked list. */
  method DoublySetItem<T(==)>(l: DoublyLinkedList<T>, index: int, value: T) returns (r: Result<()>)
    requires l.Valid()
    modifies l.Repr
    ensures l.Valid() && l.Repr == old(l.Repr)
    ensures r.Ok? <==> InRange(index, old(l.length))
    ensures r.Err? ==> r.error == IndexError && l.Contents == old(l.Contents)
    ensures r.Ok? ==> l.Contents == old(l.Contents)[Normalised(index, old(l.length)) := value]
  {
    var node := l.GetNode(index);
    if node == null {
      return Err(IndexError);
    }
    l.SetAt(Normalised(index, l.length), value);
    return Ok(());
  }
}
