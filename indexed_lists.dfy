/** The standalone `SinglyLinkedList` and `DoublyLinkedList` whose `add` takes
    an optional index: no index appends, a negative index or one past the
    length raises `IndexError`; `pop` takes an optional index defaulting to
    the last position and returns the node it unlinks. */
module IndexedLists {
  import opened Errors
  import opened Nodes
  import opened ListIndex
  import SinglyChain
  import DoublyChain
  import LegacyLinkedLists

  type SinglyLinkedList<T(==)> = SinglyChain.SinglyLinkedList<T>
  type DoublyLinkedList<T(==)> = DoublyChain.DoublyLinkedList<T>

  /** Where `add` puts the new node: the given index, or the length. */
  function AddPosition(index: Option<int>, length: int): int
  {
    if index.None? then length else index.value
  }

  /** Where `pop` removes from: the given index, or the last position. */
  function PopPosition(index: Option<int>, length: int): int
  {
    if index.None? then length - 1 else index.value
  }

  /** `SinglyLinkedList.add(data, index)`: `IndexError` and no change unless
      `0 <= index <= length`; otherwise `data` goes before position `index`,
      and with no index it goes at the end. */
  method SinglyAdd<T(==)>(l: SinglyLinkedList<T>, data: T, index: Option<int>) returns (r: Result<()>)
    requires l.Valid()
    modifies l.Repr
    ensures l.Valid() && fresh(l.Repr - old(l.Repr))
    ensures var i := AddPosition(index, old(l.length));
      && (r.Ok? <==> 0 <= i <= old(l.length))
      && (r.Ok? ==> l.Contents == InsertAt(old(l.Contents), i, data))
    ensures r.Err? ==> r.error == IndexError && l.nodes == old(l.nodes) && l.Contents == old(l.Contents)
    ensures index.None? ==> l.Contents == old(l.Contents) + [data]
  {
    var i := AddPosition(index, l.length);
    if i < 0 {
      return Err(IndexError);
    } else if !(0 <= i <= l.length) {
      return Err(IndexError);
    }
    l.LinkAt(data, i);
    return Ok(());
  }

  /** `DoublyLinkedList.add(data, index)`: as for the singly linked list. */
  method DoublyAdd<T(==)>(l: DoublyLinkedList<T>, data: T, index: Option<int>) returns (r: Result<()>)
    requires l.Valid()
    modifies l.Repr
    ensures l.Valid() && fresh(l.Repr - old(l.Repr))
    ensures var i := AddPosition(index, old(l.length));
      && (r.Ok? <==> 0 <= i <= old(l.length))
      && (r.Ok? ==> l.Contents == InsertAt(old(l.Contents), i, data))
    ensures r.Err? ==> r.error == IndexError && l.nodes == old(l.nodes) && l.Contents == old(l.Contents)
    ensures index.None? ==> l.Contents == old(l.Contents) + [data]
  {
    var i := AddPosition(index, l.length);
    if i < 0 {
      return Err(IndexError);
    } else if !(0 <= i <= l.length) {
      return Err(IndexError);
    }
    l.LinkAt(data, i);
    return Ok(());
  }

  /** `SinglyLinkedList.pop(index)`: `IndexError` and no change on an empty
      list or out of range; otherwise the node at the normalised position,
      the last one when no index is given, unlinked. Past the default the
      checks and the unlinking are those of the older `pop`. */
  method SinglyPop<T(==)>(l: SinglyLinkedList<T>, index: Option<int>) returns (r: Result<SNode<T>>)
    requires l.Valid()
    modifies l.Repr
    ensures l.Valid() && l.Repr == old(l.Repr)
    ensures r.Ok? <==> InRange(PopPosition(index, old(l.length)), old(l.length))
    ensures r.Ok? ==> var k := Normalised(PopPosition(index, old(l.length)), old(l.length));
      && r.value == old(l.nodes[k]) && r.value.value == old(l.Contents[k])
      && l.nodes == RemoveAt(old(l.nodes), k) && l.Contents == RemoveAt(old(l.Contents), k)
    ensures r.Err? ==> r.error == IndexError && l.nodes == old(l.nodes) && l.Contents == old(l.Contents)
  {
    r := LegacyLinkedLists.SinglyPop(l, PopPosition(index, l.length));
  }

  /** `DoublyLinkedList.pop(index)`: as for the singly linked list, with
      `first` and `last` moved when an end leaves. */
  method DoublyPop<T(==)>(l: DoublyLinkedList<T>, index: Option<int>) returns (r: Result<DNode<T>>)
    requires l.Valid()
    modifies l.Repr
    ensures l.Valid() && l.Repr == old(l.Repr)
    ensures r.Ok? <==> InRange(PopPosition(index, old(l.length)), old(l.length))
    ensures r.Ok? ==> var k := Normalised(PopPosition(index, old(l.length)), old(l.length));
      && r.value == old(l.nodes[k]) && r.value.value == old(l.Contents[k])
      && l.nodes == RemoveAt(old(l.nodes), k) && l.Contents == RemoveAt(old(l.Contents), k)
    ensures r.Err? ==> r.error == IndexError && l.nodes == old(l.nodes) && l.Contents == old(l.Contents)
  {
    r := LegacyLinkedLists.DoublyPop(l, PopPosition(index, l.length));
  }

  /** Adding at a position and then popping that position gives back the
      value and the list. */
  lemma AddThenPop<T>(s: seq<T>, i: int, v: T)
    requires 0 <= i <= |s|
    ensures InRange(i, |s| + 1) && Normalised(i, |s| + 1) == i
    ensures InsertAt(s, i, v)[i] == v && RemoveAt(InsertAt(s, i, v), i) == s
  {
    InsertRemoveRoundTrip(s, i, v);
  }
}
