/** The three in-place sorts: `bubble_sort`, `selection_sort` and
    `insertion_sort`, which swap slots of the caller's list. */
module InPlaceSorts {
  import opened SortSpec

  /** The slots from `k` on are in order and none of the slots before `k`
      exceeds slot `k`: the suffix holds the largest elements, sorted. */
  ghost predicate SuffixPlaced(s: seq<int>, k: int)
  {
    && 0 <= k <= |s|
    && (forall x :: k <= x < |s| - 1 ==> s[x] <= s[x + 1])
    && (k < |s| ==> forall x :: 0 <= x < k ==> s[x] <= s[k])
  }

  /** Neighbours in order everywhere means sorted. */
  lemma {:induction false} AdjacentSorted(s: seq<int>)
    requires forall x :: 0 <= x < |s| - 1 ==> s[x] <= s[x + 1]
    ensures IsSorted(s)
  {
    if |s| > 1 {
      var t := s[1..];
      assert forall x :: 0 <= x < |t| - 1 ==> t[x] <= t[x + 1] by {
        forall x | 0 <= x < |t| - 1 ensures t[x] <= t[x + 1] {
          assert t[x] == s[x + 1] && t[x + 1] == s[x + 2];
        }
      }
      AdjacentSorted(t);
      forall x, y | 0 <= x < y < |s| ensures s[x] <= s[y] {
        if x > 0 {
          assert s[x] == t[x - 1] && s[y] == t[y - 1];
        } else {
          assert s[1] == t[0] && s[y] == t[y - 1];
        }
      }
    }
  }

  /** The slots before `k` are sorted and hold the smallest elements. */
  ghost predicate PrefixPlaced(s: seq<int>, k: int)
    requires 0 <= k <= |s|
  {
    && (forall x, y :: 0 <= x < y < k ==> s[x] <= s[y])
    && (forall x, y :: 0 <= x < k <= y < |s| ==> s[x] <= s[y])
  }

  /** Exchanges two slots, as Python's `a[i], a[j] = a[j], a[i]` does. */
  method Swap(a: array<int>, i: int, j: int)
    requires 0 <= i < a.Length && 0 <= j < a.Length
    modifies a
    ensures a[..] == old(a[..])[i := old(a[j])][j := old(a[i])]
    ensures multiset(a[..]) == multiset(old(a[..]))
  {
    a[i], a[j] := a[j], a[i];
  }

  /** Bubble sort: passes of adjacent swaps until a pass swaps nothing; pass `i`
      stops `i` slots before the end. */
  method BubbleSort(a: array<int>)
    modifies a
    ensures IsSorted(a[..])
    ensures multiset(a[..]) == multiset(old(a[..]))
  {
    var n := a.Length;
    var checkAgain := true;
    var i := 0;
    while checkAgain
      invariant 0 <= i <= n + 1
      invariant checkAgain ==> i <= n
      invariant i <= n ==> SuffixPlaced(a[..], n - i)
      invariant !checkAgain ==> IsSorted(a[..])
      invariant multiset(a[..]) == multiset(old(a[..]))
      decreases if checkAgain then n + 1 - i else 0
    {
      checkAgain := BubblePass(a, i);
      i := i + 1;
    }
  }

  /** Pass `i` of bubble sort (the body of its `for j` loop): it carries the
      largest of the first `n - i` slots to slot `n - i - 1`, and reports whether
      it swapped anything. */
  method BubblePass(a: array<int>, i: int) returns (swapped: bool)
    requires 0 <= i <= a.Length && SuffixPlaced(a[..], a.Length - i)
    modifies a
    ensures multiset(a[..]) == multiset(old(a[..]))
    ensures i < a.Length ==> SuffixPlaced(a[..], a.Length - i - 1)
    ensures !swapped ==> IsSorted(a[..])
    ensures swapped ==> i + 2 <= a.Length
  {
    var n := a.Length;
    swapped := false;
    if i == n {
      AdjacentSorted(a[..]);
      return;
    }
    var j := 0;
    while j < n - i - 1
      invariant 0 <= j <= n - i - 1
      invariant PassInvariant(a[..], j, n - i, swapped)
      invariant swapped ==> i + 2 <= n
      invariant multiset(a[..]) == multiset(old(a[..]))
    {
      swapped := BubbleCompare(a, j, n - i, swapped);
      j := j + 1;
    }
    PassEnd(a[..], n - i, swapped);
  }

  /** One comparison of a bubble pass: slots `j` and `j + 1` are exchanged when
      out of order, and the swap flag records it. */
  method BubbleCompare(a: array<int>, j: int, ghost k: int, swapped: bool) returns (swapped': bool)
    requires j + 1 < k && PassInvariant(a[..], j, k, swapped)
    modifies a
    ensures PassInvariant(a[..], j + 1, k, swapped')
    ensures multiset(a[..]) == multiset(old(a[..]))
    ensures swapped' == (swapped || old(a[j + 1]) < old(a[j]))
  {
    ghost var before := a[..];
    swapped' := swapped;
    if a[j + 1] < a[j] {
      Swap(a, j + 1, j);
      swapped' := true;
    }
    BubbleStep(before, a[..], j, k, swapped, swapped');
  }

  /** What holds after comparing slots up to `j` in a pass that stops below `k`:
      the suffix from `k` is placed, slot `j` holds the largest of the slots up to
      it, and a pass without swaps so far found them in order. */
  ghost predicate PassInvariant(s: seq<int>, j: int, k: int, swapped: bool)
  {
    && 0 <= j < k <= |s|
    && SuffixPlaced(s, k)
    && (forall x :: 0 <= x < j ==> s[x] <= s[j])
    && (!swapped ==> forall x :: 0 <= x < j ==> s[x] <= s[x + 1])
  }

  /** One comparison of a bubble pass keeps the pass invariant. */
  lemma BubbleStep(s: seq<int>, t: seq<int>, j: int, k: int, swapped: bool, swapped': bool)
    requires j + 1 < k && PassInvariant(s, j, k, swapped)
    requires t == if s[j + 1] < s[j] then s[j + 1 := s[j]][j := s[j + 1]] else s
    requires swapped' == (swapped || s[j + 1] < s[j])
    ensures PassInvariant(t, j + 1, k, swapped')
  {
    if s[j + 1] < s[j] {
      SwapBelowKeepsSuffix(s, j, k);
    }
  }

  /** At the end of a pass the slot just below the placed suffix holds the
      largest remaining element; without swaps the prefix was sorted already. */
  lemma PassEnd(s: seq<int>, k: int, swapped: bool)
    requires 1 <= k && PassInvariant(s, k - 1, k, swapped)
    ensures SuffixPlaced(s, k - 1)
    ensures !swapped ==> IsSorted(s)
  {
    if !swapped {
      AdjacentSorted(s);
    }
  }

  /** Exchanging two neighbouring slots below `k` keeps the slots from `k` on placed. */
  lemma SwapBelowKeepsSuffix(s: seq<int>, j: int, k: int)
    requires 0 <= j && j + 1 < k <= |s| && SuffixPlaced(s, k)
    ensures SuffixPlaced(s[j + 1 := s[j]][j := s[j + 1]], k)
  {
    var t := s[j + 1 := s[j]][j := s[j + 1]];
    if k < |s| {
      forall x | 0 <= x < k ensures t[x] <= t[k] {
        if x == j { assert t[x] == s[j + 1]; } else if x == j + 1 { assert t[x] == s[j]; } else { assert t[x] == s[x]; }
      }
    }
  }

  /** Selection sort: slot `i` receives the minimum of the slots from `i` on. */
  method SelectionSort(a: array<int>)
    modifies a
    ensures IsSorted(a[..])
    ensures multiset(a[..]) == multiset(old(a[..]))
  {
    var n := a.Length;
    var i := 0;
    while i < n - 1
      invariant 0 <= i <= if n == 0 then 0 else n - 1
      invariant PrefixPlaced(a[..], i)
      invariant multiset(a[..]) == multiset(old(a[..]))
    {
      var curMin, curMinIndex := a[i], i;
      var j := i + 1;
      while j < n
        invariant i + 1 <= j <= n
        invariant i <= curMinIndex < j && curMin == a[curMinIndex]
        invariant forall k :: i <= k < j ==> curMin <= a[k]
      {
        if a[j] < curMin {
          curMin, curMinIndex := a[j], j;
        }
        j := j + 1;
      }
      Swap(a, i, curMinIndex);
      i := i + 1;
    }
  }

  /** Insertion sort: slot `i` sinks left past every larger neighbour. */
  method InsertionSort(a: array<int>)
    modifies a
    ensures IsSorted(a[..])
    ensures multiset(a[..]) == multiset(old(a[..]))
  {
    var n := a.Length;
    var i := 1;
    while i < n
      invariant n == 0 || 1 <= i <= n
      invariant forall x, y :: 0 <= x < y < i && y < n ==> a[x] <= a[y]
      invariant multiset(a[..]) == multiset(old(a[..]))
    {
      var k := i;
      while k > 0 && a[k] < a[k - 1]
        invariant 0 <= k <= i
        invariant forall x, y :: 0 <= x < y <= i && x != k && y != k ==> a[x] <= a[y]
        invariant forall y :: k < y <= i ==> a[k] < a[y]
        invariant multiset(a[..]) == multiset(old(a[..]))
      {
        Swap(a, k, k - 1);
        k := k - 1;
      }
      i := i + 1;
    }
  }
}
