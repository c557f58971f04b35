/** The singly linked chain shared by the singly linked lists: a `first` link,
    a `length` counter and nodes joined by `next`. Its methods are the code the
    list classes have in common; the classes differ only in how they pick the
    index they hand to it. */
module SinglyChain {
  import opened Nodes
  import opened ListIndex

  class SinglyLinkedList<T(==)> {
    var first: SNode?<T>
    var length: int

    /** The nodes from `first` on, in order, and their values. */
    ghost var nodes: seq<SNode<T>>
    ghost var Contents: seq<T>
    ghost var Repr: set<object>

    /** `first` starts the chain, each node links to the next, the last to
        nothing, no node occurs twice, and `length` counts the nodes. */
    ghost predicate Valid()
      reads this, Repr
    {
      && this in Repr
      && (forall i :: 0 <= i < |nodes| ==> nodes[i] in Repr)
      && length == |nodes| == |Contents|
      && first == (if nodes == [] then null else nodes[0])
      && (forall i :: 0 <= i < |nodes| ==> nodes[i].value == Contents[i])
      && (forall i {:trigger nodes[i].next} :: 0 <= i < |nodes| ==> nodes[i].next == NextOf(nodes, i))
    }

    /** The chain has no cycle: were a node met twice, the nodes after both
        visits would agree up to the end of the chain, where one of them has
        a successor and the other has none. */
    lemma {:induction false} DistinctNodes(i: int, j: int)
      requires Valid() && 0 <= i < j < |nodes|
      ensures nodes[i] != nodes[j]
      decreases |nodes| - j
    {
      assert nodes[i].next == NextOf(nodes, i) && nodes[j].next == NextOf(nodes, j);
      if j + 1 < |nodes| {
        DistinctNodes(i + 1, j + 1);
      }
    }

    /** Every node other than the one at `k` is a different object. */
    lemma OthersDiffer(k: int)
      requires Valid() && 0 <= k < |nodes|
      ensures forall i :: 0 <= i < |nodes| && i != k ==> nodes[i] != nodes[k]
    {
      forall i | 0 <= i < |nodes| && i != k
        ensures nodes[i] != nodes[k]
      {
        if i < k {
          DistinctNodes(i, k);
        } else {
          DistinctNodes(k, i);
        }
      }
    }

    /** An empty list. */
    constructor ()
      ensures Valid() && fresh(Repr)
      ensures Contents == []
    {
      first, length := null, 0;
      nodes, Contents := [], [];
      Repr := {this};
    }

    /** `_get_node` (and `get` in the older copies): `None` outside
        `[-length, length - 1]`, otherwise the node reached by walking the
        normalised index's number of links from `first`. */
    method GetNode(index: int) returns (node: SNode?<T>)
      requires Valid()
      ensures !InRange(index, length) ==> node == null
      ensures InRange(index, length) ==> node == nodes[Normalised(index, length)]
    {
      if !InRange(index, length) {
        return null;
      }
      var k := if index < 0 then index + length else index;
      node := first;
      for i := 0 to k
        invariant node == nodes[i]
      {
        node := node.next;
      }
    }

    /** Puts a new node at the front in constant time. */
    method Prepend(value: T)
      requires Valid()
      modifies this
      ensures Valid() && fresh(Repr - old(Repr))
      ensures Contents == [value] + old(Contents)
      ensures nodes == [first] + old(nodes)
    {
      var node := new SNode(value, first);
      first := node;
      length := length + 1;
      nodes := [node] + nodes;
      Contents := [value] + Contents;
      Repr := Repr + {node};
    }

    /** The shared body of `insert` and of the older `add(data, index)`: the new
        node links to the node at `k` (none when `k` is the length) and is linked
        from `first` or from the node before `k`. */
    method LinkAt(value: T, k: int)
      requires Valid() && 0 <= k <= length
      modifies Repr
      ensures Valid() && fresh(Repr - old(Repr))
      ensures Contents == InsertAt(old(Contents), k, value)
    {
      if k == 0 {
        Prepend(value);
      } else {
        LinkAfter(value, k);
      }
    }

    /** `LinkAt` past the front: the node before `k` is relinked. */
    method LinkAfter(value: T, k: int)
      requires Valid() && 0 < k <= length
      modifies Repr
      ensures Valid() && fresh(Repr - old(Repr))
      ensures Contents == InsertAt(old(Contents), k, value)
    {
      var nextNode := GetNode(k);
      var prevNode := GetNode(k - 1);
      OthersDiffer(k - 1);
      var node := new SNode(value, nextNode);
      prevNode.next := node;
      length := length + 1;
      nodes := InsertAt(nodes, k, node);
      Contents := InsertAt(Contents, k, value);
      Repr := Repr + {node};
    }

    /** The shared body of `pop` once the index is normalised: the node at `k`
        is bypassed by `first` or by the node before it, and returned. */
    method UnlinkAt(k: int) returns (node: SNode<T>)
      requires Valid() && 0 <= k < length
      modifies Repr
      ensures Valid() && Repr == old(Repr)
      ensures node == old(nodes[k]) && node.value == old(Contents[k])
      ensures nodes == RemoveAt(old(nodes), k)
      ensures Contents == RemoveAt(old(Contents), k)
    {
      node := GetNode(k);
      OthersDiffer(k);
      if k == 0 {
        first := node.next;
      } else {
        var prevNode := GetNode(k - 1);
        OthersDiffer(k - 1);
        prevNode.next := node.next;
      }
      length := length - 1;
      nodes := RemoveAt(nodes, k);
      Contents := RemoveAt(Contents, k);
    }

    /** Overwrites the value of the node at `k`. */
    method SetAt(k: int, value: T)
      requires Valid() && 0 <= k < length
      modifies Repr
      ensures Valid() && Repr == old(Repr)
      ensures Contents == old(Contents)[k := value]
    {
      var node := GetNode(k);
      OthersDiffer(k);
      node.value := value;
      Contents := Contents[k := value];
    }

    /** `__iter__`: the values met walking from `first` along `next`. */
    method Values() returns (values: seq<T>)
      requires Valid()
      ensures values == Contents
    {
      values := [];
      var node := first;
      var i := 0;
      while node != null
        invariant 0 <= i <= |nodes|
        invariant node == if i < |nodes| then nodes[i] else null
        invariant values == Contents[..i]
        decreases |nodes| - i
      {
        values := values + [node.value];
        node := node.next;
        i := i + 1;
      }
    }

    /** `show_nodes` (and the older `__iter__`): the nodes themselves, first
        to last. */
    method Nodes() returns (result: seq<SNode<T>>)
      requires Valid()
      ensures result == nodes
    {
      result := [];
      var node := first;
      var i := 0;
      while node != null
        invariant 0 <= i <= |nodes|
        invariant node == if i < |nodes| then nodes[i] else null
        invariant result == nodes[..i]
        decreases |nodes| - i
      {
        result := result + [node];
        node := node.next;
        i := i + 1;
      }
    }

    /** `__contains__`: whether some node holds a value equal to `item`. */
    method Contains(item: T) returns (found: bool)
      requires Valid()
      ensures found <==> item in Contents
    {
      var node := first;
      var i := 0;
      while node != null
        invariant 0 <= i <= |nodes|
        invariant node == if i < |nodes| then nodes[i] else null
        invariant item !in Contents[..i]
        decreases |nodes| - i
      {
        if node.value == item {
          return true;
        }
        node := node.next;
        i := i + 1;
      }
      return false;
    }
  }

  /** The node after position `i` of a chain, `None` after the last. */
  ghost function NextOf<T>(s: seq<SNode<T>>, i: int): SNode?<T>
  {
    if 0 <= i && i + 1 < |s| then s[i + 1] else null
  }
}
