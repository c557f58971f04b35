/** The binary search trees of both tree modules, as values: a node is its
    value and its two subtrees, `Nil` standing for a missing child. The
    functions here are the recursive lookups and the tree each change
    leaves behind; the lemmas tie them to the inorder listing. */
module SearchTrees {
  import opened SortSpec

  datatype Tree = Nil | Node(left: Tree, value: int, right: Tree)

  /** `inorder`: left subtree, the node, right subtree. */
  function Inorder(t: Tree): seq<int>
  {
    match t
    case Nil => []
    case Node(l, x, r) => Inorder(l) + [x] + Inorder(r)
  }

  /** Every value of a left subtree is below its node, every value of a
      right subtree above it. */
  ghost predicate IsBst(t: Tree)
  {
    match t
    case Nil => true
    case Node(l, x, r) =>
      && IsBst(l) && IsBst(r)
      && (forall y :: y in Inorder(l) ==> y < x)
      && (forall y :: y in Inorder(r) ==> x < y)
  }

  /** `is_leaf`. */
  predicate IsLeaf(t: Tree)
    requires t.Node?
  {
    t.left == Nil && t.right == Nil
  }

  /** `has_one_child_only`. */
  predicate HasOneChildOnly(t: Tree)
    requires t.Node?
  {
    (t.left == Nil) != (t.right == Nil)
  }

  // ------------------------------------------------------- ordered listings

  /** The parts of a strictly increasing listing split around `x`. */
  lemma SplitIncreasing(a: seq<int>, x: int, b: seq<int>)
    requires StrictlyIncreasing(a + [x] + b)
    ensures StrictlyIncreasing(a) && StrictlyIncreasing(b)
    ensures (forall y :: y in a ==> y < x) && (forall y :: y in b ==> x < y)
  {
    var s := a + [x] + b;
    assert forall i :: 0 <= i < |a| ==> s[i] == a[i];
    assert s[|a|] == x;
    assert forall i :: 0 <= i < |b| ==> s[|a| + 1 + i] == b[i];
    forall i, j | 0 <= i < j < |b|
      ensures b[i] < b[j]
    {
      assert s[|a| + 1 + i] < s[|a| + 1 + j];
    }
    forall y | y in a
      ensures y < x
    {
      var i :| 0 <= i < |a| && a[i] == y;
      assert s[i] < s[|a|];
    }
    forall y | y in b
      ensures x < y
    {
      var i :| 0 <= i < |b| && b[i] == y;
      assert s[|a|] < s[|a| + 1 + i];
    }
  }

  /** Strictly increasing parts on either side of `x` join into a strictly
      increasing listing. */
  lemma JoinIncreasing(a: seq<int>, x: int, b: seq<int>)
    requires StrictlyIncreasing(a) && StrictlyIncreasing(b)
    requires (forall y :: y in a ==> y < x) && (forall y :: y in b ==> x < y)
    ensures StrictlyIncreasing(a + [x] + b)
  {
    var s := a + [x] + b;
    forall i, j | 0 <= i < j < |s|
      ensures s[i] < s[j]
    {
      if j < |a| {
        assert s[i] == a[i] && s[j] == a[j];
      } else if i < |a| {
        assert s[i] == a[i] && a[i] in a;
        if j > |a| {
          assert s[j] == b[j - |a| - 1] && b[j - |a| - 1] in b;
        }
      } else if i == |a| {
        assert s[j] == b[j - |a| - 1] && b[j - |a| - 1] in b;
      } else {
        assert s[i] == b[i - |a| - 1] && s[j] == b[j - |a| - 1];
      }
    }
  }

  /** A listing split around `x` is strictly increasing exactly when both
      sides are and `x` lies between them. */
  lemma IncreasingAround(a: seq<int>, x: int, b: seq<int>)
    ensures StrictlyIncreasing(a + [x] + b) <==>
      && StrictlyIncreasing(a) && StrictlyIncreasing(b)
      && (forall y :: y in a ==> y < x) && (forall y :: y in b ==> x < y)
  {
    if StrictlyIncreasing(a + [x] + b) {
      SplitIncreasing(a, x, b);
    }
    if && StrictlyIncreasing(a) && StrictlyIncreasing(b)
       && (forall y :: y in a ==> y < x) && (forall y :: y in b ==> x < y)
    {
      JoinIncreasing(a, x, b);
    }
  }

  /** The search-tree ordering holds exactly when the inorder listing is
      strictly increasing. */
  lemma {:induction false} BstIffIncreasing(t: Tree)
    ensures IsBst(t) <==> StrictlyIncreasing(Inorder(t))
  {
    if t.Node? {
      BstIffIncreasing(t.left);
      BstIffIncreasing(t.right);
      IncreasingAround(Inorder(t.left), t.value, Inorder(t.right));
    }
  }

  // ---------------------------------------------------------------- lookups

  /** `_get_parent_node(value, subtree_root)`: `Nil` for an empty subtree or
      one rooted at `value`; otherwise the node below which the descent
      towards `value` stops, because the child on that side is missing or
      holds `value`. */
  function GetParent(t: Tree, v: int): (p: Tree)
    ensures p == Nil || (p.value != v && p.value in Inorder(t))
  {
    if t == Nil || t.value == v then Nil
    else if v < t.value && t.left != Nil && v != t.left.value then GetParent(t.left, v)
    else if v > t.value && t.right != Nil && v != t.right.value then GetParent(t.right, v)
    else t
  }

  /** The child slot of `p` on the side of `v`. */
  function Slot(p: Tree, v: int): Tree
    requires p.Node?
  {
    if v < p.value then p.left else p.right
  }

  /** Below a root other than `v`, the parent search ends at a node whose
      slot on `v`'s side is empty or holds `v`, and `v` is in the tree
      exactly when that slot holds it. */
  lemma {:induction false} ParentSlot(t: Tree, v: int)
    requires IsBst(t) && t != Nil && t.value != v
    ensures var p := GetParent(t, v);
      && p.Node? && p.value != v
      && (Slot(p, v) == Nil || Slot(p, v).value == v)
      && (v in Inorder(t) <==> Slot(p, v) != Nil)
  {
    if v < t.value && t.left != Nil && v != t.left.value {
      ParentSlot(t.left, v);
    } else if v > t.value && t.right != Nil && v != t.right.value {
      ParentSlot(t.right, v);
    }
  }

  /** `_get_node(value, subtree_root)` of the refined tree: the subtree
      rooted at `value` found by descending from `subtree_root`, the root
      itself when no subtree is given and the root holds `value`, and `Nil`
      when the descent runs out. */
  function GetNode(root: Tree, v: int, subtree: Tree): (r: Tree)
    ensures r == Nil || r.value == v
  {
    if subtree == Nil && root != Nil && v == root.value then root
    else if subtree != Nil && subtree.value < v then GetNode(root, v, subtree.right)
    else if subtree != Nil && subtree.value > v then GetNode(root, v, subtree.left)
    else subtree
  }

  /** Descending from a subtree finds `v` exactly when it is there, as long
      as running out cannot land on a root holding `v`. */
  lemma {:induction false} GetNodeFinds(root: Tree, v: int, subtree: Tree)
    requires IsBst(subtree)
    requires root == Nil || root.value != v
    ensures var n := GetNode(root, v, subtree);
      (n != Nil <==> v in Inorder(subtree)) && (n != Nil ==> n.value == v)
  {
    if subtree != Nil && subtree.value < v {
      GetNodeFinds(root, v, subtree.right);
    } else if subtree != Nil && subtree.value > v {
      GetNodeFinds(root, v, subtree.left);
    }
  }

  /** `exists(value)` of the refined tree: the descent from the root finds a
      node exactly when the value is in the tree. */
  lemma ExistsFinds(root: Tree, v: int)
    requires IsBst(root)
    ensures var n := GetNode(root, v, root);
      (n != Nil <==> v in Inorder(root)) && (n != Nil ==> n.value == v)
  {
    if root != Nil && root.value != v {
      GetNodeFinds(root, v, root);
    }
  }

  /** Away from a root holding `v`, the refined lookup is a plain descent. */
  lemma {:induction false} GetNodeIsSearch(root: Tree, v: int, subtree: Tree)
    requires root == Nil || root.value != v
    ensures GetNode(root, v, subtree) == Search(subtree, v)
  {
    if subtree != Nil && subtree.value < v {
      GetNodeIsSearch(root, v, subtree.right);
    } else if subtree != Nil && subtree.value > v {
      GetNodeIsSearch(root, v, subtree.left);
    }
  }

  /** The lookup `remove` makes in the refined tree, from the node the
      parent search returns, finds the subtree a plain descent from the root
      finds. */
  lemma RemoveLookupFinds(root: Tree, v: int)
    ensures GetNode(root, v, GetParent(root, v)) == Search(root, v)
  {
    if root != Nil && root.value != v {
      GetNodeIsSearch(root, v, GetParent(root, v));
      ParentFound(root, v);
    }
  }

  /** The subtree rooted at `v`, or `Nil`: a plain search-tree descent. */
  function Search(t: Tree, v: int): (r: Tree)
    ensures r == Nil || (r.value == v && v in Inorder(t))
  {
    if t == Nil then Nil
    else if v < t.value then Search(t.left, v)
    else if v > t.value then Search(t.right, v)
    else t
  }

  /** Below a root other than `v`, the parent search follows the plain
      descent: the parent's slot on `v`'s side, and the descent from the
      parent, give the subtree the descent from the root finds. */
  lemma {:induction false} ParentFound(t: Tree, v: int)
    requires t != Nil && t.value != v
    ensures GetParent(t, v).Node?
    ensures Slot(GetParent(t, v), v) == Search(t, v)
    ensures Search(GetParent(t, v), v) == Search(t, v)
  {
    if v < t.value && t.left != Nil && v != t.left.value {
      ParentFound(t.left, v);
    } else if v > t.value && t.right != Nil && v != t.right.value {
      ParentFound(t.right, v);
    }
  }

  /** A search finds a subtree rooted at `v` exactly when `v` is in the
      tree. */
  lemma {:induction false} SearchFinds(t: Tree, v: int)
    requires IsBst(t)
    ensures (Search(t, v) != Nil <==> v in Inorder(t))
    ensures Search(t, v) != Nil ==> Search(t, v).value == v
  {
    if t != Nil {
      SearchFinds(t.left, v);
      SearchFinds(t.right, v);
    }
  }

  /** `_get_node(value, parent)` of the older tree: only the root (when no
      parent is given) or the parent's two children are looked at. */
  function LegacyGetNode(root: Tree, v: int, parent: Tree): (r: Tree)
    ensures r == Nil || r.value == v
  {
    if parent == Nil && root != Nil && v == root.value then root
    else if parent != Nil && parent.left != Nil && v == parent.left.value then parent.left
    else if parent != Nil && parent.right != Nil && v == parent.right.value then parent.right
    else Nil
  }

  /** The parent search stops at a subtree, which is a search tree too. */
  lemma {:induction false} ParentIsBst(t: Tree, v: int)
    requires IsBst(t)
    ensures IsBst(GetParent(t, v))
  {
    if t != Nil && t.value != v {
      if v < t.value && t.left != Nil && v != t.left.value {
        ParentIsBst(t.left, v);
      } else if v > t.value && t.right != Nil && v != t.right.value {
        ParentIsBst(t.right, v);
      }
    }
  }

  /** The older tree's lookup through the parent finds exactly the subtree
      a plain descent finds. */
  lemma LegacyLookupFinds(root: Tree, v: int)
    requires IsBst(root)
    ensures LegacyGetNode(root, v, GetParent(root, v)) == Search(root, v)
    ensures Search(root, v) != Nil <==> v in Inorder(root)
  {
    SearchFinds(root, v);
    if root != Nil && root.value != v {
      var p := GetParent(root, v);
      ParentSlot(root, v);
      ParentFound(root, v);
      ParentIsBst(root, v);
      if p.left != Nil {
        assert p.left.value in Inorder(p.left);
      }
      if p.right != Nil {
        assert p.right.value in Inorder(p.right);
      }
    }
  }

  // -------------------------------------------------------------- successor

  /** The leftmost node of a non-empty subtree. */
  function Leftmost(t: Tree): (m: Tree)
    requires t.Node?
    ensures m.Node? && m.left == Nil
  {
    if t.left == Nil then t else Leftmost(t.left)
  }

  /** The leftmost node holds the smallest value, which comes first in the
      inorder listing. */
  lemma {:induction false} LeftmostSmallest(t: Tree)
    requires IsBst(t) && t.Node?
    ensures Leftmost(t).value in Inorder(t) && Inorder(t)[0] == Leftmost(t).value
    ensures forall y :: y in Inorder(t) ==> Leftmost(t).value <= y
  {
    if t.left != Nil {
      LeftmostSmallest(t.left);
    }
  }

  /** The leftmost node of the right subtree holds the next larger value
      of the tree after the node's own. */
  lemma SuccessorIsNext(t: Tree)
    requires IsBst(t) && t.Node? && t.right.Node?
    ensures var s := Leftmost(t.right).value;
      && s in Inorder(t) && t.value < s
      && forall y :: y in Inorder(t) && t.value < y ==> s <= y
  {
    LeftmostSmallest(t.right);
  }

  // ------------------------------------------------------------------- add

  /** The tree after a new value is attached as a leaf where the descent
      for it runs out. */
  function Insert(t: Tree, v: int): (r: Tree)
    ensures |Inorder(r)| <= |Inorder(t)| + 1
  {
    match t
    case Nil => Node(Nil, v, Nil)
    case Node(l, x, r) =>
      if v < x then Node(Insert(l, v), x, r)
      else if v > x then Node(l, x, Insert(r, v))
      else t
  }

  /** `InsertSorted` walks past a prefix of smaller values. */
  lemma {:induction false} InsertSortedSkips(v: int, p: seq<int>, q: seq<int>)
    requires forall y :: y in p ==> y < v
    ensures InsertSorted(v, p + q) == p + InsertSorted(v, q)
  {
    if p != [] {
      var x, rest := p[0], p[1..];
      assert x in p && p == [x] + rest;
      forall y | y in rest ensures y < v {
        assert y in p;
      }
      InsertSortedSkips(v, rest, q);
      assert (p + q)[0] == x && (p + q)[1..] == rest + q;
      assert InsertSorted(v, p + q) == [x] + InsertSorted(v, rest + q);
      assert [x] + (rest + InsertSorted(v, q)) == p + InsertSorted(v, q);
    } else {
      assert p + q == q;
    }
  }

  /** `InsertSorted` stops before a suffix starting above the value. */
  lemma {:induction false} InsertSortedStops(v: int, p: seq<int>, q: seq<int>)
    requires q == [] || v <= q[0]
    ensures InsertSorted(v, p + q) == InsertSorted(v, p) + q
  {
    if p != [] {
      assert (p + q)[0] == p[0] && (p + q)[1..] == p[1..] + q;
      InsertSortedStops(v, p[1..], q);
    } else {
      assert p + q == q;
    }
  }

  /** Adding a new value to a search tree keeps the ordering and inserts the
      value into the inorder listing at its sorted place. */
  lemma {:induction false} InsertInorder(t: Tree, v: int)
    requires IsBst(t) && v !in Inorder(t)
    ensures Inorder(Insert(t, v)) == InsertSorted(v, Inorder(t))
    ensures IsBst(Insert(t, v))
  {
    if t.Node? {
      var l, x, r := t.left, t.value, t.right;
      if v < x {
        InsertInorder(l, v);
        InsertSortedStops(v, Inorder(l), [x] + Inorder(r));
        assert Inorder(t) == Inorder(l) + ([x] + Inorder(r));
        InsertSortedCorrect(v, []);
        InsertSortedMembers(Inorder(l), v);
      } else {
        InsertInorder(r, v);
        InsertSortedSkips(v, Inorder(l) + [x], Inorder(r));
        InsertSortedMembers(Inorder(r), v);
      }
    }
  }

  /** Inserting adds exactly the new value to the listing. */
  lemma InsertSortedMembers(s: seq<int>, v: int)
    ensures forall y :: y in InsertSorted(v, s) <==> y in s || y == v
  {
    InsertSortedMultiset(v, s);
    forall y
      ensures y in InsertSorted(v, s) <==> y in s || y == v
    {
      assert y in InsertSorted(v, s) <==> y in multiset(InsertSorted(v, s));
      assert y in s <==> y in multiset(s);
    }
  }

  lemma {:induction false} InsertSortedMultiset(v: int, s: seq<int>)
    ensures multiset(InsertSorted(v, s)) == multiset(s) + multiset{v}
  {
    if s != [] && v > s[0] {
      InsertSortedMultiset(v, s[1..]);
      assert s == [s[0]] + s[1..];
    }
  }

  // ---------------------------------------------------------------- remove

  /** A listing with every occurrence of `v` left out. */
  function Without(s: seq<int>, v: int): (r: seq<int>)
    ensures v !in r && |r| <= |s|
  {
    if s == [] then [] else (if s[0] == v then [] else [s[0]]) + Without(s[1..], v)
  }

  lemma {:induction false} WithoutConcat(a: seq<int>, b: seq<int>, v: int)
    ensures Without(a + b, v) == Without(a, v) + Without(b, v)
  {
    if a != [] {
      assert (a + b)[0] == a[0] && (a + b)[1..] == a[1..] + b;
      WithoutConcat(a[1..], b, v);
    } else {
      assert a + b == b;
    }
  }

  lemma {:induction false} WithoutAbsent(s: seq<int>, v: int)
    requires v !in s
    ensures Without(s, v) == s
  {
    if s != [] {
      WithoutAbsent(s[1..], v);
    }
  }

  lemma {:induction false} WithoutMembers(s: seq<int>, v: int)
    ensures forall y :: y in Without(s, v) <==> y in s && y != v
  {
    if s != [] {
      WithoutMembers(s[1..], v);
      assert s == [s[0]] + s[1..];
    }
  }

  /** The tree after `remove(v)`: found below its parent, a leaf is cut
      off, a node with one child is replaced by that child, and a node with
      two children takes the value of its successor, which is removed from
      the right subtree. */
  function Delete(t: Tree, v: int): (r: Tree)
    ensures |Inorder(r)| <= |Inorder(t)|
  {
    match t
    case Nil => Nil
    case Node(l, x, r) =>
      if v < x then Node(Delete(l, v), x, r)
      else if v > x then Node(l, x, Delete(r, v))
      else if IsLeaf(t) then Nil
      else if HasOneChildOnly(t) then (if l != Nil then l else r)
      else
        var s := Leftmost(r).value;
        Node(l, s, Delete(r, s))
  }

  /** Removing a value from a search tree takes exactly that value out of
      the inorder listing. */
  lemma {:induction false} DeleteInorder(t: Tree, v: int)
    requires IsBst(t)
    ensures Inorder(Delete(t, v)) == Without(Inorder(t), v)
    decreases t, 1
  {
    if t.Node? {
      if v < t.value {
        DeleteBelow(t, v);
      } else if v > t.value {
        DeleteAbove(t, v);
      } else {
        DeleteHere(t);
      }
    }
  }

  /** A value below the node is removed from the left subtree alone. */
  lemma {:induction false} DeleteBelow(t: Tree, v: int)
    requires IsBst(t) && t.Node? && v < t.value
    ensures Inorder(Delete(t, v)) == Without(Inorder(t), v)
    decreases t, 0
  {
    var L, x, R := Inorder(t.left), t.value, Inorder(t.right);
    DeleteInorder(t.left, v);
    WithoutConcat(L + [x], R, v);
    WithoutConcat(L, [x], v);
    WithoutAbsent(R, v);
    assert Without([x], v) == [x];
  }

  /** A value above the node is removed from the right subtree alone. */
  lemma {:induction false} DeleteAbove(t: Tree, v: int)
    requires IsBst(t) && t.Node? && v > t.value
    ensures Inorder(Delete(t, v)) == Without(Inorder(t), v)
    decreases t, 0
  {
    var L, x, R := Inorder(t.left), t.value, Inorder(t.right);
    DeleteInorder(t.right, v);
    WithoutConcat(L + [x], R, v);
    WithoutConcat(L, [x], v);
    WithoutAbsent(L, v);
    assert Without([x], v) == [x];
  }

  /** The node's own value: its subtrees' listings remain; with two
      children, the successor's value takes the node's place and leaves the
      right subtree. */
  lemma {:induction false} DeleteHere(t: Tree)
    requires IsBst(t) && t.Node?
    ensures Inorder(Delete(t, t.value)) == Without(Inorder(t), t.value)
    decreases t, 0
  {
    var L, x, R := Inorder(t.left), t.value, Inorder(t.right);
    WithoutConcat(L + [x], R, x);
    WithoutConcat(L, [x], x);
    WithoutAbsent(L, x);
    WithoutAbsent(R, x);
    assert Without([x], x) == [];
    if !IsLeaf(t) && !HasOneChildOnly(t) {
      var r := t.right;
      var s := Leftmost(r).value;
      LeftmostSmallest(r);
      DeleteInorder(r, s);
      BstIffIncreasing(r);
      assert R == [s] + R[1..];
      assert s !in R[1..];
      WithoutConcat([s], R[1..], s);
      WithoutAbsent(R[1..], s);
    }
  }

  /** A node with both children, the third case of `remove`. */
  predicate HasTwoChildren(t: Tree)
  {
    t.Node? && t.left != Nil && t.right != Nil
  }

  /** The tree with the node holding `v` given the value `s` instead, its
      links kept: the successor node taking the removed node's place. */
  function Relabel(t: Tree, v: int, s: int): Tree
  {
    match t
    case Nil => Nil
    case Node(l, x, r) =>
      if v < x then Node(Relabel(l, v, s), x, r)
      else if v > x then Node(l, x, Relabel(r, v, s))
      else Node(l, s, r)
  }

  /** The subtree a search finds holds values of the tree only, and is a
      search tree when the tree is. */
  lemma {:induction false} SearchWithin(t: Tree, v: int)
    ensures forall y :: y in Inorder(Search(t, v)) ==> y in Inorder(t)
    ensures IsBst(t) ==> IsBst(Search(t, v))
  {
    if t.Node? {
      SearchWithin(t.left, v);
      SearchWithin(t.right, v);
    }
  }

  /** Searching for the smallest value finds the leftmost node. */
  lemma {:induction false} SearchLeftmost(t: Tree)
    requires IsBst(t) && t.Node?
    ensures Search(t, Leftmost(t).value) == Leftmost(t)
  {
    if t.left != Nil {
      LeftmostSmallest(t.left);
      SearchLeftmost(t.left);
    }
  }

  /** The third case of `remove`, as the source performs it: for a node with
      two children holding `v`, the search for the successor's value finds
      the successor node (which has no left child, so removing it is one of
      the first two cases), and removing that value from the whole tree and
      then putting it in place of `v` leaves the tree `Delete` describes. */
  lemma {:induction false} SuccessorRemoval(t: Tree, v: int)
    requires IsBst(t) && HasTwoChildren(Search(t, v))
    ensures var s := Leftmost(Search(t, v).right).value;
      && Search(t, s) == Leftmost(Search(t, v).right)
      && Relabel(Delete(t, s), v, s) == Delete(t, v)
  {
    var n := Search(t, v);
    var s := Leftmost(n.right).value;
    SearchWithin(t, v);
    LeftmostSmallest(n.right);
    assert s in Inorder(n);
    if v < t.value {
      SearchWithin(t.left, v);
      SuccessorRemoval(t.left, v);
    } else if v > t.value {
      SearchWithin(t.right, v);
      SuccessorRemoval(t.right, v);
    } else {
      SuccessorIsNext(t);
      SearchLeftmost(t.right);
    }
  }

  /** Leaving a value out of a strictly increasing listing keeps it
      strictly increasing. */
  lemma {:induction false} WithoutIncreasing(s: seq<int>, v: int)
    requires StrictlyIncreasing(s)
    ensures StrictlyIncreasing(Without(s, v))
  {
    if s != [] {
      var rest := Without(s[1..], v);
      WithoutIncreasing(s[1..], v);
      WithoutMembers(s[1..], v);
      if s[0] != v {
        forall i, j | 0 <= i < j < |[s[0]] + rest|
          ensures ([s[0]] + rest)[i] < ([s[0]] + rest)[j]
        {
          if i == 0 {
            assert rest[j - 1] in rest;
            var k :| 0 <= k < |s[1..]| && s[1..][k] == rest[j - 1];
            assert s[0] < s[k + 1];
          } else {
            assert ([s[0]] + rest)[i] == rest[i - 1];
          }
        }
      }
    }
  }

  /** Removing keeps the search-tree ordering. */
  lemma DeleteKeepsBst(t: Tree, v: int)
    requires IsBst(t)
    ensures IsBst(Delete(t, v))
  {
    DeleteInorder(t, v);
    BstIffIncreasing(t);
    WithoutIncreasing(Inorder(t), v);
    BstIffIncreasing(Delete(t, v));
  }

  /** A value listed once leaves a listing one shorter. */
  lemma {:induction false} WithoutOnce(s: seq<int>, v: int)
    requires StrictlyIncreasing(s) && v in s
    ensures |Without(s, v)| == |s| - 1
  {
    if s[0] == v {
      forall k | 0 <= k < |s| - 1
        ensures s[1..][k] != v
      {
        assert s[0] < s[k + 1];
      }
      WithoutAbsent(s[1..], v);
    } else {
      assert v in s[1..];
      WithoutOnce(s[1..], v);
    }
  }

  // ------------------------------------------------------------------ build

  /** `create_nodes`: the middle value at the root, the values before it on
      the left and the values after it on the right, built the same way. */
  function CreateNodes(values: seq<int>): (r: Tree)
    ensures r == Nil <==> values == []
    decreases |values|
  {
    if values == [] then Nil
    else
      var mid := |values| / 2;
      Node(CreateNodes(values[..mid]), values[mid], CreateNodes(values[mid + 1..]))
  }

  /** A list is the part before position `i`, the element there, and the rest. */
  lemma SplitAround(s: seq<int>, i: int)
    requires 0 <= i < |s|
    ensures s == s[..i] + [s[i]] + s[i + 1..]
  {
    assert s[..i] + [s[i]] == s[..i + 1];
  }

  /** Building lists the values back in their given order. */
  lemma {:induction false} CreateNodesInorder(values: seq<int>)
    ensures Inorder(CreateNodes(values)) == values
    decreases |values|
  {
    if values != [] {
      var mid := |values| / 2;
      CreateNodesInorder(values[..mid]);
      CreateNodesInorder(values[mid + 1..]);
      SplitAround(values, mid);
    }
  }

  /** A strictly increasing sequence builds a search tree. */
  lemma CreateNodesBst(values: seq<int>)
    requires StrictlyIncreasing(values)
    ensures IsBst(CreateNodes(values))
  {
    CreateNodesInorder(values);
    BstIffIncreasing(CreateNodes(values));
  }

  /** The number of edges on the longest path from the root down to a
      missing child. */
  function Height(t: Tree): nat
  {
    if t == Nil then 0 else 1 + Max(Height(t.left), Height(t.right))
  }

  /** The number of edges on the shortest such path. */
  function MinDepth(t: Tree): nat
  {
    if t == Nil then 0 else 1 + Min(MinDepth(t.left), MinDepth(t.right))
  }

  function Max(a: nat, b: nat): nat { if a < b then b else a }
  function Min(a: nat, b: nat): nat { if a < b then a else b }

  /** All paths from the root down differ in length by at most one. */
  predicate Balanced(t: Tree)
  {
    Height(t) <= MinDepth(t) + 1
  }

  /** The number of binary digits of `n`. */
  function BitLength(n: nat): nat
  {
    if n == 0 then 0 else 1 + BitLength(n / 2)
  }

  lemma {:induction false} BitLengthMonotone(a: nat, b: nat)
    requires a <= b
    ensures BitLength(a) <= BitLength(b)
  {
    if a > 0 {
      BitLengthMonotone(a / 2, b / 2);
    }
  }

  /** A tree built from `n` values has height `BitLength(n)`. */
  lemma {:induction false} CreateNodesHeight(values: seq<int>)
    ensures Height(CreateNodes(values)) == BitLength(|values|)
    decreases |values|
  {
    var n := |values|;
    if n > 0 {
      var mid := n / 2;
      var left, right := values[..mid], values[mid + 1..];
      assert |left| == mid && |right| == n - mid - 1;
      CreateNodesHeight(left);
      CreateNodesHeight(right);
      BitLengthMonotone(n - mid - 1, mid);
      assert CreateNodes(values) == Node(CreateNodes(left), values[mid], CreateNodes(right));
    }
  }

  /** A tree built from `n` values has shortest path `BitLength(n + 1) - 1`. */
  lemma {:induction false} CreateNodesMinDepth(values: seq<int>)
    ensures MinDepth(CreateNodes(values)) + 1 == BitLength(|values| + 1)
    decreases |values|
  {
    var n := |values|;
    if n > 0 {
      var mid := n / 2;
      var left, right := values[..mid], values[mid + 1..];
      assert |left| == mid && |right| == n - mid - 1;
      assert CreateNodes(values) == Node(CreateNodes(left), values[mid], CreateNodes(right));
      CreateNodesMinDepth(left);
      CreateNodesMinDepth(right);
      BitLengthMonotone(n - mid, mid + 1);
      assert (n + 1) / 2 == n - mid;
      assert BitLength(n + 1) == 1 + BitLength(n - mid);
    }
  }

  /** `create_nodes` builds a balanced tree: what `balance` promises. */
  lemma CreateNodesBalanced(values: seq<int>)
    ensures Balanced(CreateNodes(values))
  {
    CreateNodesHeight(values);
    CreateNodesMinDepth(values);
    BitLengthMonotone(|values|, |values| + 1);
  }

  // --------------------------------------------------------- duplicate check

  /** No value occurs twice. */
  predicate Distinct(s: seq<int>)
  {
    forall i, j :: 0 <= i < j < |s| ==> s[i] != s[j]
  }

  /** `set(iterable)`. */
  function SetOf(s: seq<int>): set<int>
  {
    if s == [] then {} else SetOf(s[..|s| - 1]) + {s[|s| - 1]}
  }

  lemma {:induction false} SetOfMembers(s: seq<int>)
    ensures forall y :: y in SetOf(s) <==> y in s
  {
    if s != [] {
      SetOfMembers(s[..|s| - 1]);
      assert s == s[..|s| - 1] + [s[|s| - 1]];
    }
  }

  /** `len(iterable) == len(set(iterable))` exactly when no value repeats. */
  lemma {:induction false} DistinctIffSetSize(s: seq<int>)
    ensures |SetOf(s)| <= |s|
    ensures |SetOf(s)| == |s| <==> Distinct(s)
  {
    if s != [] {
      var n := |s| - 1;
      var p := s[..n];
      DistinctIffSetSize(p);
      SetOfMembers(p);
      if s[n] in p {
        var i :| 0 <= i < n && p[i] == s[n];
        assert s[i] == s[n];
      } else {
        assert Distinct(s) <==> Distinct(p) by {
          if Distinct(p) {
            forall i, j | 0 <= i < j < |s|
              ensures s[i] != s[j]
            {
              if j == n {
                assert p[i] in p;
              } else {
                assert s[i] == p[i] && s[j] == p[j];
              }
            }
          }
          if Distinct(s) {
            forall i, j | 0 <= i < j < n
              ensures p[i] != p[j]
            {
              assert s[i] == p[i] && s[j] == p[j];
            }
          }
        }
      }
    }
  }

  /** A strictly increasing listing has no repeats and is its own sorted
      copy: rebuilding a tree from its listing sorts nothing. */
  lemma IncreasingIsOwnSort(s: seq<int>)
    requires StrictlyIncreasing(s)
    ensures Distinct(s) && SortedOf(s) == s
  {
    SortedOfUnique(s, s);
  }

  /** Python's `sorted` of values without repeats is strictly increasing. */
  lemma SortedOfDistinct(s: seq<int>)
    requires Distinct(s)
    ensures StrictlyIncreasing(SortedOf(s))
  {
    var r := SortedOf(s);
    SortedOfCorrect(s);
    SetOfMembers(s);
    SetOfMembers(r);
    forall y
      ensures y in SetOf(r) <==> y in SetOf(s)
    {
      assert y in r <==> y in multiset(r);
      assert y in s <==> y in multiset(s);
    }
    assert SetOf(r) == SetOf(s);
    DistinctIffSetSize(s);
    DistinctIffSetSize(r);
  }
}
