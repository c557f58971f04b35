/** The older `BinarySearchTree` of binary_search_tree.py. Its fields,
    `__init__`, `add`, `balance` and `inorder` are those of the refined tree;
    it differs in `exists` and `remove`, which look a node up through its
    parent, and in `remove`, which does not give back the count lost by the
    inner removal of a successor. */
module LegacyBinarySearchTrees {
  import opened Errors
  import opened SearchTrees
  import BinarySearchTrees

  type BinarySearchTree = BinarySearchTrees.BinarySearchTree

  /** `exists`: the parent search, then a look at the root or at the
      parent's two children, finds the value exactly when it is in the
      tree. */
  method Exists(t: BinarySearchTree, v: int) returns (b: bool)
    requires t.Valid()
    ensures b <==> v in Inorder(t.root)
  {
    var parent := GetParent(t.root, v);
    LegacyLookupFinds(t.root, v);
    b := LegacyGetNode(t.root, v, parent) != Nil;
  }

  /** `remove` as written: the tree and the listing change as in the
      refined tree, but removing a node with two children counts the inner
      removal of its successor as well, so the count drops by two. */
  method Remove(t: BinarySearchTree, v: int) returns (r: Result<()>)
    requires t.Valid()
    modifies t
    ensures t.Valid()
    ensures r.Ok? <==> v in old(Inorder(t.root))
    ensures r.Ok? ==> t.root == Delete(old(t.root), v)
    ensures r.Ok? ==> Inorder(t.root) == Without(old(Inorder(t.root)), v)
    ensures r.Ok? ==> t.length == old(t.length) - (if HasTwoChildren(Search(old(t.root), v)) then 2 else 1)
    ensures r.Err? ==> r.error == ValueError && t.root == old(t.root) && t.length == old(t.length)
    decreases if HasTwoChildren(Search(t.root, v)) then 1 else 0
  {
    var parent := GetParent(t.root, v);
    var node := LegacyGetNode(t.root, v, parent);
    LegacyLookupFinds(t.root, v);
    if node == Nil {
      return Err(ValueError);
    }
    ghost var before := t.root;
    DeleteInorder(before, v);
    DeleteKeepsBst(before, v);
    if IsLeaf(node) {
      // the parent's link to the node (or the root) becomes None
      t.root := Delete(t.root, v);
    } else if HasOneChildOnly(node) {
      // the parent's link to the node (or the root) goes to its child
      t.root := Delete(t.root, v);
    } else {
      var successor := BinarySearchTrees.BinarySearchTree.GetSuccessorNode(node);
      var s := successor.value.value;
      SuccessorRemoval(before, v);
      SearchFinds(before, s);
      var inner := Remove(t, s);
      t.root := Relabel(t.root, v, s);
    }
    t.length := t.length - 1;
    r := Ok(());
  }

  /** Three values added and the middle one removed: the count reads 1 for
      a tree of 2 nodes. */
  method RemoveCountsTwice() returns (count: int, nodes: int)
    ensures count == 1 && nodes == 2
  {
    var t := new BinarySearchTrees.BinarySearchTree.Empty();
    var a := t.Add(2);
    var b := t.Add(1);
    var c := t.Add(3);
    var d := Remove(t, 2);
    count, nodes := t.length, |Inorder(t.root)|;
  }
}
