/** The refined `BinarySearchTree` of algorithms/binary_search_tree.py: a
    root and a node count that `add`, `remove` and `balance` change in place.
    The nodes are `SearchTrees.Tree` values, so redirecting a parent's link
    is modelled by the tree value that the change leaves behind. */
module BinarySearchTrees {
  import opened Errors
  import opened SortSpec
  import opened SearchTrees

  class BinarySearchTree {
    var root: Tree
    var length: int

    /** The nodes keep the search-tree ordering. */
    ghost predicate Valid()
      reads this
    {
      IsBst(root)
    }

    /** `_length` is the number of nodes. */
    ghost predicate Counted()
      reads this
    {
      length == |Inorder(root)|
    }

    /** The state `__init__` starts from: no root and a count of 0. */
    constructor Empty()
      ensures root == Nil && length == 0
      ensures Valid() && Counted()
    {
      root := Nil;
      length := 0;
    }

    /** `BinarySearchTree(iterable)`: the balanced tree of the values, or
        `KeyError` when a value repeats. */
    static method New(values: seq<int>) returns (t: BinarySearchTree, r: Result<()>)
      ensures fresh(t) && t.Valid()
      ensures r.Ok? <==> Distinct(values)
      ensures r.Err? ==> r.error == KeyError && t.root == Nil && t.length == 0
      ensures r.Ok? ==> t.Counted() && Inorder(t.root) == SortedOf(values) && Balanced(t.root)
    {
      t := new BinarySearchTree.Empty();
      r := t.Build(values);
      SortedOfCorrect(values);
    }

    /** `_build_binary_search_tree`, called on an empty root: values with a
        repeat raise `KeyError`; otherwise the middle of their sorted copy
        becomes the root, each half is built the same way below it, and
        every node created adds one to the count. */
    method Build(values: seq<int>) returns (r: Result<()>)
      requires root == Nil
      modifies this
      ensures r.Ok? <==> Distinct(values)
      ensures r.Err? ==> r.error == KeyError && root == Nil && length == old(length)
      ensures r.Ok? ==> root == CreateNodes(SortedOf(values)) && length == old(length) + |values|
      ensures r.Ok? ==> Valid() && Inorder(root) == SortedOf(values) && Balanced(root)
      ensures Valid()
    {
      DistinctIffSetSize(values);
      if |values| != |SetOf(values)| {
        return Err(KeyError);
      }
      var sorted := SortedOf(values);
      SortedOfCorrect(values);
      SortedOfDistinct(values);
      CreateNodesInorder(sorted);
      CreateNodesBst(sorted);
      CreateNodesBalanced(sorted);
      root := CreateNodes(sorted);
      length := length + |sorted|;
      r := Ok(());
    }

    /** `inorder`: the values in ascending order. */
    method InorderValues() returns (values: seq<int>)
      requires Valid()
      ensures values == Inorder(root)
      ensures StrictlyIncreasing(values)
    {
      values := Collect(root, []);
      BstIffIncreasing(root);
    }

    /** `_get_inordered_values`: walks the left subtree, appends the node's
        value, then walks the right subtree, all into one list. */
    static method Collect(node: Tree, collected: seq<int>) returns (out: seq<int>)
      ensures out == collected + Inorder(node)
      decreases node
    {
      out := collected;
      if node != Nil {
        if node.left != Nil {
          out := Collect(node.left, out);
        }
        out := out + [node.value];
        if node.right != Nil {
          out := Collect(node.right, out);
        }
      }
    }

    /** `exists`: the refined lookup from the root finds the value exactly
        when it is in the tree. */
    method Exists(v: int) returns (b: bool)
      requires Valid()
      ensures b <==> v in Inorder(root)
    {
      ExistsFinds(root, v);
      b := GetNode(root, v, root) != Nil;
    }

    /** `add`: a new value becomes a leaf where the descent for it runs
        out, which puts it at its sorted place in the listing; a value
        already present raises `KeyError` and changes nothing. */
    method Add(v: int) returns (r: Result<()>)
      requires Valid()
      modifies this
      ensures Valid()
      ensures r.Ok? <==> v !in old(Inorder(root))
      ensures r.Ok? ==> root == Insert(old(root), v) && length == old(length) + 1
      ensures r.Ok? ==> Inorder(root) == InsertSorted(v, old(Inorder(root)))
      ensures r.Err? ==> r.error == KeyError && root == old(root) && length == old(length)
      ensures old(Counted()) ==> Counted()
    {
      ghost var before := root;
      var parent := GetParent(root, v);
      if root != Nil && root.value != v {
        ParentSlot(root, v);
      }
      if root == Nil {
        root := Node(Nil, v, Nil);
      } else if parent != Nil && v < parent.value && parent.left == Nil {
        // the new leaf fills the parent's empty left link
        InsertInorder(root, v);
        root := Insert(root, v);
      } else if parent != Nil && v > parent.value && parent.right == Nil {
        // the new leaf fills the parent's empty right link
        InsertInorder(root, v);
        root := Insert(root, v);
      } else {
        return Err(KeyError);
      }
      BstIffIncreasing(before);
      InsertSortedCorrect(v, Inorder(before));
      length := length + 1;
      r := Ok(());
    }

    /** `_get_successor_node`: `ValueError` for no node; otherwise the
        leftmost node of its right subtree, which holds the next larger
        value of the subtree, or `None` when there is no right subtree. */
    static method GetSuccessorNode(node: Tree) returns (r: Result<Tree>)
      ensures node == Nil <==> r == Err(ValueError)
      ensures node != Nil && node.right == Nil ==> r == Ok(Nil)
      ensures node != Nil && node.right != Nil ==> r == Ok(Leftmost(node.right))
      ensures r.Ok? && r.value != Nil && IsBst(node) ==>
        && r.value.left == Nil
        && r.value.value in Inorder(node) && node.value < r.value.value
        && forall y :: y in Inorder(node) && node.value < y ==> r.value.value <= y
    {
      if node == Nil {
        return Err(ValueError);
      }
      var successor := node.right;
      if successor != Nil {
        while successor.left != Nil
          invariant successor.Node? && Leftmost(successor) == Leftmost(node.right)
          decreases successor
        {
          successor := successor.left;
        }
        if IsBst(node) {
          SuccessorIsNext(node);
        }
      }
      r := Ok(successor);
    }

    /** `remove`: a missing value raises `ValueError` and changes nothing.
        Otherwise a leaf is cut off and a node with one child is replaced by
        that child; a node with two children is replaced by its successor
        node, after the successor's value has been removed from the tree by
        a call of `remove` whose lost count is given back. Exactly the value
        leaves the listing and the count drops by one. */
    method Remove(v: int) returns (r: Result<()>)
      requires Valid()
      modifies this
      ensures Valid()
      ensures r.Ok? <==> v in old(Inorder(root))
      ensures r.Ok? ==> root == Delete(old(root), v) && length == old(length) - 1
      ensures r.Ok? ==> Inorder(root) == Without(old(Inorder(root)), v)
      ensures r.Err? ==> r.error == ValueError && root == old(root) && length == old(length)
      ensures old(Counted()) ==> Counted()
      decreases if HasTwoChildren(Search(root, v)) then 1 else 0
    {
      var parent := GetParent(root, v);
      var node := GetNode(root, v, parent);
      RemoveLookupFinds(root, v);
      SearchFinds(root, v);
      if node == Nil {
        return Err(ValueError);
      }
      ghost var before := root;
      DeleteInorder(before, v);
      DeleteKeepsBst(before, v);
      BstIffIncreasing(before);
      WithoutOnce(Inorder(before), v);
      if IsLeaf(node) {
        // the parent's link to the node (or the root) becomes None
        root := Delete(root, v);
      } else if HasOneChildOnly(node) {
        // the parent's link to the node (or the root) goes to its child
        root := Delete(root, v);
      } else {
        var successor := GetSuccessorNode(node);
        var s := successor.value.value;
        SuccessorRemoval(before, v);
        SearchFinds(before, s);
        var inner := Remove(s);
        // the successor node was moved, not taken out of the tree
        length := length + 1;
        root := Relabel(root, v, s);
      }
      length := length - 1;
      r := Ok(());
    }

    /** `balance`, with the count kept: the same values, rebuilt into a
        balanced search tree. */
    method Balance()
      requires Valid()
      modifies this
      ensures Valid() && Balanced(root)
      ensures Inorder(root) == old(Inorder(root))
      ensures Counted()
    {
      var values := InorderValues();
      IncreasingIsOwnSort(values);
      root := Nil;
      length := 0;
      var built := Build(values);
    }

    /** `balance` as written: the rebuild counts every node again on top of
        the count already held. */
    method BalanceAsWritten()
      requires Valid()
      modifies this
      ensures Valid() && Balanced(root)
      ensures Inorder(root) == old(Inorder(root))
      ensures length == old(length) + |Inorder(root)|
    {
      var values := InorderValues();
      IncreasingIsOwnSort(values);
      root := Nil;
      var built := Build(values);
    }
  }

  /** Two values added and the tree balanced as written: the count reads
      4 for a tree of 2 nodes. */
  method BalanceCountsTwice() returns (count: int, nodes: int)
    ensures count == 4 && nodes == 2
  {
    var t := new BinarySearchTree.Empty();
    var a := t.Add(1);
    var b := t.Add(2);
    t.BalanceAsWritten();
    count, nodes := t.length, |Inorder(t.root)|;
  }
}
