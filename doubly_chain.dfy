/** The doubly linked chain shared by the doubly linked lists: `first` and
    `last` links, a `length` counter and nodes joined both ways by `next` and
    `prev`. Its methods are the code the list classes have in common; the
    classes differ only in how they pick the index they hand to it. */
module DoublyChain {
  import opened Nodes
  import opened ListIndex

  class DoublyLinkedList<T(==)> {
    var first: DNode?<T>
    var last: DNode?<T>
    var length: int

    /** The nodes from `first` to `last`, in order, and their values. */
    ghost var nodes: seq<DNode<T>>
    ghost var Contents: seq<T>
    ghost var Repr: set<object>

    /** `first` and `last` are the two ends, each node links forward to the
        next and back to the previous one, the ends link to nothing, no node
        occurs twice, and `length` counts the nodes. */
    ghost predicate Valid()
      reads this, Repr
    {
      && this in Repr
      && (forall i :: 0 <= i < |nodes| ==> nodes[i] in Repr)
      && length == |nodes| == |Contents|
      && first == (if nodes == [] then null else nodes[0])
      && last == (if nodes == [] then null else nodes[|nodes| - 1])
      && (forall i :: 0 <= i < |nodes| ==> nodes[i].value == Contents[i])
      && (forall i {:trigger nodes[i].next} :: 0 <= i < |nodes| ==> nodes[i].next == NextOf(nodes, i))
      && (forall i {:trigger nodes[i].prev} :: 0 <= i < |nodes| ==> nodes[i].prev == PrevOf(nodes, i))
    }

    /** The chain has no cycle: were a node met twice, the nodes after both
        visits would agree up to the end of the chain, where one of them has
        a successor and the other has none. */
    lemma {:induction false} DistinctNodes(i: int, j: int)
      requires Valid() && 0 <= i < j < |nodes|
      ensures nodes[i] != nodes[j]
      decreases |nodes| - j
    {
      assert nodes[i].next == NextOf(nodes, i) && nodes[j].next == NextOf(nodes, j);
      if j + 1 < |nodes| {
        DistinctNodes(i + 1, j + 1);
      }
    }

    /** Every node other than the one at `k` is a different object. */
    lemma OthersDiffer(k: int)
      requires Valid() && 0 <= k < |nodes|
      ensures forall i :: 0 <= i < |nodes| && i != k ==> nodes[i] != nodes[k]
    {
      forall i | 0 <= i < |nodes| && i != k
        ensures nodes[i] != nodes[k]
      {
        if i < k {
          DistinctNodes(i, k);
        } else {
          DistinctNodes(k, i);
        }
      }
    }

    /** An empty list: both ends are `None`. */
    constructor ()
      ensures Valid() && fresh(Repr)
      ensures Contents == [] && first == null && last == null
    {
      first, last, length := null, null, 0;
      nodes, Contents := [], [];
      Repr := {this};
    }

    /** Both ends are missing exactly when the list is empty. */
    lemma EndsMissingIffEmpty()
      requires Valid()
      ensures first == null <==> Contents == []
      ensures last == null <==> Contents == []
    {
    }

    /** `_get_node` (and `get` in the older copies): `None` outside
        `[-length, length - 1]`; otherwise the node at the normalised index,
        reached from `first` along `next` when it lies in the front half and
        from `last` along `prev` when it does not. Either walk ends on the node
        a forward walk would reach. */
    method GetNode(index: int) returns (node: DNode?<T>)
      requires Valid()
      ensures !InRange(index, length) ==> node == null
      ensures InRange(index, length) ==> node == nodes[Normalised(index, length)]
    {
      if !InRange(index, length) {
        return null;
      }
      var k := if index < 0 then index + length else index;
      if k < length - k - 1 {
        node := first;
        for i := 0 to k
          invariant node == nodes[i]
        {
          node := node.next;
        }
      } else {
        node := last;
        for i := 0 to length - k - 1
          invariant node == nodes[length - 1 - i]
        {
          node := node.prev;
        }
      }
    }

    /** The refined `add`: a new node in front; on an empty list it is also
        the last node. */
    method Prepend(value: T)
      requires Valid()
      modifies Repr
      ensures Valid() && fresh(Repr - old(Repr))
      ensures Contents == [value] + old(Contents)
      ensures old(Contents) == [] ==> first == last
    {
      var nextNode := first;
      if nextNode != null { OthersDiffer(0); }
      var node := new DNode(value, null, nextNode);
      first := node;
      if nextNode != null {
        nextNode.prev := node;
      } else {
        last := node;
      }
      length := length + 1;
      nodes := [node] + nodes;
      Contents := [value] + Contents;
      Repr := Repr + {node};
    }

    /** The older `add`: a new node after `last`; on an empty list it is also
        the first node. */
    method Append(value: T)
      requires Valid()
      modifies Repr
      ensures Valid() && fresh(Repr - old(Repr))
      ensures Contents == old(Contents) + [value]
      ensures old(Contents) == [] ==> first == last
    {
      var prevNode := last;
      if prevNode != null { OthersDiffer(|nodes| - 1); }
      var node := new DNode(value, prevNode, null);
      last := node;
      if prevNode != null {
        prevNode.next := node;
      } else {
        first := node;
      }
      length := length + 1;
      nodes := nodes + [node];
      Contents := Contents + [value];
      Repr := Repr + {node};
    }

    /** The shared body of the refined `insert`, the older `insert` and of
        `add(data, index)`: at the end the new node follows the node at
        `k - 1` and becomes `last`; elsewhere it goes between the node at `k`
        and that node's `prev`, and becomes `first` when there is none. */
    method LinkAt(value: T, k: int)
      requires Valid() && 0 <= k <= length
      modifies Repr
      ensures Valid() && fresh(Repr - old(Repr))
      ensures Contents == InsertAt(old(Contents), k, value)
    {
      if k == length {
        var prevNode := GetNode(k - 1);
        assert prevNode == last;
        Append(value);
      } else if k == 0 {
        Prepend(value);
      } else {
        LinkBefore(value, k);
      }
    }

    /** `LinkAt` strictly inside the list: the node at `k` and the one before
        it are relinked to the new node. */
    method LinkBefore(value: T, k: int)
      requires Valid() && 0 < k < length
      modifies Repr
      ensures Valid() && fresh(Repr - old(Repr))
      ensures Contents == InsertAt(old(Contents), k, value)
    {
      var nextNode := GetNode(k);
      var prevNode := nextNode.prev;
      assert prevNode == nodes[k - 1];
      OthersDiffer(k - 1);
      OthersDiffer(k);
      var node := new DNode(value, prevNode, nextNode);
      nextNode.prev := node;
      prevNode.next := node;
      length := length + 1;
      RecordInsert(k, node);
    }

    /** Records in the ghost state a node the links already place at `k`. */
    ghost method RecordInsert(k: int, node: DNode<T>)
      requires 0 < k < |nodes| == |Contents| == length - 1
      requires this in Repr && node !in Repr
      requires forall i :: 0 <= i < |nodes| ==> nodes[i] in Repr
      requires first == nodes[0] && last == nodes[|nodes| - 1]
      requires forall i :: 0 <= i < |nodes| ==> nodes[i].value == Contents[i]
      requires forall i {:trigger nodes[i].next} :: 0 <= i < |nodes| && i != k - 1 ==>
        nodes[i].next == NextOf(nodes, i)
      requires forall i {:trigger nodes[i].prev} :: 0 <= i < |nodes| && i != k ==>
        nodes[i].prev == PrevOf(nodes, i)
      requires nodes[k - 1].next == node && node.next == nodes[k]
      requires nodes[k].prev == node && node.prev == nodes[k - 1]
      modifies this
      ensures Valid() && Repr == old(Repr) + {node}
      ensures Contents == InsertAt(old(Contents), k, node.value)
    {
      nodes := InsertAt(nodes, k, node);
      Contents := InsertAt(Contents, k, node.value);
      Repr := Repr + {node};
    }

    /** The shared body of `pop` once the index is normalised: the node at `k`
        is bypassed in both directions, and `first` or `last` moves when it
        was an end. */
    method UnlinkAt(k: int) returns (node: DNode<T>)
      requires Valid() && 0 <= k < length
      modifies Repr
      ensures Valid() && Repr == old(Repr)
      ensures node == old(nodes[k]) && node.value == old(Contents[k])
      ensures nodes == RemoveAt(old(nodes), k)
      ensures Contents == RemoveAt(old(Contents), k)
      ensures k == old(length) - 1 ==> last == (if k == 0 then null else old(nodes[k - 1]))
    {
      node := GetNode(k);
      var prevNode, nextNode := node.prev, node.next;
      OthersDiffer(k);
      if k > 0 { OthersDiffer(k - 1); }
      if k + 1 < |nodes| { OthersDiffer(k + 1); }
      if prevNode != null {
        prevNode.next := nextNode;
      } else {
        first := nextNode;
      }
      if nextNode != null {
        nextNode.prev := prevNode;
      } else {
        last := prevNode;
      }
      length := length - 1;
      RecordRemove(k);
    }

    /** Records in the ghost state that the links now bypass the node at `k`. */
    ghost method RecordRemove(k: int)
      requires 0 <= k < |nodes| == |Contents| == length + 1
      requires this in Repr && forall i :: 0 <= i < |nodes| ==> nodes[i] in Repr
      requires first == if k == 0 then NextOf(nodes, 0) else nodes[0]
      requires last == if k == |nodes| - 1 then PrevOf(nodes, k) else nodes[|nodes| - 1]
      requires forall i :: 0 <= i < |nodes| ==> nodes[i].value == Contents[i]
      requires forall i {:trigger nodes[i].next} :: 0 <= i < |nodes| && i != k - 1 ==>
        nodes[i].next == NextOf(nodes, i)
      requires forall i {:trigger nodes[i].prev} :: 0 <= i < |nodes| && i != k + 1 ==>
        nodes[i].prev == PrevOf(nodes, i)
      requires k > 0 ==> nodes[k - 1].next == NextOf(nodes, k)
      requires k + 1 < |nodes| ==> nodes[k + 1].prev == PrevOf(nodes, k)
      modifies this
      ensures Valid() && Repr == old(Repr) && nodes == RemoveAt(old(nodes), k)
      ensures Contents == RemoveAt(old(Contents), k)
    {
      nodes := RemoveAt(nodes, k);
      Contents := RemoveAt(Contents, k);
    }

    /** Overwrites the value of the node at `k`. */
    method SetAt(k: int, value: T)
      requires Valid() && 0 <= k < length
      modifies Repr
      ensures Valid() && Repr == old(Repr)
      ensures Contents == old(Contents)[k := value]
    {
      var node := GetNode(k);
      OthersDiffer(k);
      node.value := value;
      Contents := Contents[k := value];
    }

    /** The refined `__iter__`: the values met walking from `first` along `next`. */
    method Values() returns (values: seq<T>)
      requires Valid()
      ensures values == Contents
    {
      values := [];
      var node := first;
      var i := 0;
      while node != null
        invariant 0 <= i <= |nodes|
        invariant node == if i < |nodes| then nodes[i] else null
        invariant values == Contents[..i]
        decreases |nodes| - i
      {
        values := values + [node.value];
        node := node.next;
        i := i + 1;
      }
    }

    /** `show_nodes` (and the older `__iter__`): the nodes themselves, first
        to last. */
    method Nodes() returns (result: seq<DNode<T>>)
      requires Valid()
      ensures result == nodes
    {
      result := [];
      var node := first;
      var i := 0;
      while node != null
        invariant 0 <= i <= |nodes|
        invariant node == if i < |nodes| then nodes[i] else null
        invariant result == nodes[..i]
        decreases |nodes| - i
      {
        result := result + [node];
        node := node.next;
        i := i + 1;
      }
    }

    /** `__contains__`: whether some node holds a value equal to `item`. */
    method Contains(item: T) returns (found: bool)
      requires Valid()
      ensures found <==> item in Contents
    {
      var node := first;
      var i := 0;
      while node != null
        invariant 0 <= i <= |nodes|
        invariant node == if i < |nodes| then nodes[i] else null
        invariant item !in Contents[..i]
        decreases |nodes| - i
      {
        if node.value == item {
          return true;
        }
        node := node.next;
        i := i + 1;
      }
      return false;
    }
  }

  /** The node after position `i` of a chain, `None` after the last. */
  ghost function NextOf<T>(s: seq<DNode<T>>, i: int): DNode?<T>
  {
    if 0 <= i && i + 1 < |s| then s[i + 1] else null
  }

  /** The node before position `i` of a chain, `None` before the first. */
  ghost function PrevOf<T>(s: seq<DNode<T>>, i: int): DNode?<T>
  {
    if 0 < i <= |s| then s[i - 1] else null
  }
}
