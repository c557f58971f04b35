/** Binary search over a sorted list, in its iterative and its recursive form;
    both give the index of the value searched for, or `None` when it is absent. */
module BinarySearch {
  import opened Errors
  import opened SortSpec

  /** `binary_search_recursive`: looks at the middle slot `(len - 1) // 2` and
      recurses into the slice on its left or on its right; `shift` is where the
      slice starts in the list first given. */
  function BinarySearchRecursive(a: seq<int>, value: int, shift: int): (r: Option<int>)
    ensures r.Some? ==> shift <= r.value < shift + |a|
    decreases |a|
  {
    if a == [] then None
    else
      var mid := (|a| - 1) / 2;
      if a[mid] == value then Some(shift + mid)
      else if a[mid] > value then BinarySearchRecursive(a[..mid], value, shift)
      else BinarySearchRecursive(a[mid + 1..], value, shift + mid + 1)
  }

  /** A slice of a sorted list is sorted. */
  lemma SliceSorted(a: seq<int>, lo: int, hi: int)
    requires IsSorted(a) && 0 <= lo <= hi <= |a|
    ensures IsSorted(a[lo..hi])
  {
    var t := a[lo..hi];
    forall x, y | 0 <= x < y < |t| ensures t[x] <= t[y] {
      assert t[x] == a[lo + x] && t[y] == a[lo + y];
    }
  }

  /** The left and right parts of a slice are slices of the list first given. */
  lemma SliceParts(a: seq<int>, lo: int, hi: int, m: int)
    requires 0 <= lo <= hi <= |a| && 0 <= m < hi - lo
    ensures a[lo..hi][..m] == a[lo..lo + m]
    ensures a[lo..hi][m + 1..] == a[lo + m + 1..hi]
  {
  }

  /** The same search on the window `[lo, hi)` of `a`, by index rather than by
      slicing; it returns positions in `a`. */
  function SearchWindow(a: seq<int>, value: int, lo: int, hi: int): Option<int>
    requires 0 <= lo <= hi <= |a|
    decreases hi - lo
  {
    if lo == hi then None
    else
      var mid := (lo + hi - 1) / 2;
      if a[mid] == value then Some(mid)
      else if a[mid] > value then SearchWindow(a, value, lo, mid)
      else SearchWindow(a, value, mid + 1, hi)
  }

  /** One step of the search on the slice `a[lo..hi]`, written with positions in `a`. */
  lemma SliceStep(a: seq<int>, value: int, lo: int, hi: int)
    requires 0 <= lo < hi <= |a|
    ensures var w := (lo + hi - 1) / 2;
      BinarySearchRecursive(a[lo..hi], value, lo) ==
        if a[w] == value then Some(w)
        else if a[w] > value then BinarySearchRecursive(a[lo..w], value, lo)
        else BinarySearchRecursive(a[w + 1..hi], value, w + 1)
  {
    var s := a[lo..hi];
    var mid := (|s| - 1) / 2;
    assert lo + mid == (lo + hi - 1) / 2;
    assert s[mid] == a[lo + mid];
    SliceParts(a, lo, hi, mid);
  }

  /** Searching the slice `a[lo..hi]` with shift `lo` is searching the window. */
  lemma {:induction false} SliceIsWindow(a: seq<int>, value: int, lo: int, hi: int)
    requires 0 <= lo <= hi <= |a|
    ensures BinarySearchRecursive(a[lo..hi], value, lo) == SearchWindow(a, value, lo, hi)
    decreases hi - lo
  {
    if lo < hi {
      var w := (lo + hi - 1) / 2;
      SliceStep(a, value, lo, hi);
      if a[w] > value {
        SliceIsWindow(a, value, lo, w);
      } else if a[w] < value {
        SliceIsWindow(a, value, w + 1, hi);
      }
    }
  }

  /** An index returned by the window search points at the value and lies in
      the window. */
  lemma {:induction false} WindowFound(a: seq<int>, value: int, lo: int, hi: int)
    requires 0 <= lo <= hi <= |a|
    ensures var r := SearchWindow(a, value, lo, hi);
      r.Some? ==> lo <= r.value < hi && a[r.value] == value
    decreases hi - lo
  {
    if lo < hi {
      var mid := (lo + hi - 1) / 2;
      if a[mid] > value {
        WindowFound(a, value, lo, mid);
      } else if a[mid] < value {
        WindowFound(a, value, mid + 1, hi);
      }
    }
  }

  /** On a sorted list the window search finds every value present in the window. */
  lemma {:induction false} WindowComplete(a: seq<int>, value: int, lo: int, hi: int, k: int)
    requires IsSorted(a) && 0 <= lo <= k < hi <= |a| && a[k] == value
    ensures SearchWindow(a, value, lo, hi).Some?
    decreases hi - lo
  {
    var mid := (lo + hi - 1) / 2;
    if a[mid] > value {
      WindowComplete(a, value, lo, mid, k);
    } else if a[mid] < value {
      WindowComplete(a, value, mid + 1, hi, k);
    }
  }

  /** An index returned points at the value; on a sorted list an index is
      returned exactly when the value is present. */
  lemma BinarySearchRecursiveCorrect(a: seq<int>, value: int)
    ensures var r := BinarySearchRecursive(a, value, 0);
      r.Some? ==> 0 <= r.value < |a| && a[r.value] == value
    ensures IsSorted(a) ==> (BinarySearchRecursive(a, value, 0).Some? <==> value in a)
  {
    assert a[0..|a|] == a;
    SliceIsWindow(a, value, 0, |a|);
    WindowFound(a, value, 0, |a|);
    if IsSorted(a) && value in a {
      var k :| 0 <= k < |a| && a[k] == value;
      WindowComplete(a, value, 0, |a|, k);
    }
  }

  /** `binary_search_iterative`: narrows the window `[start, end]` around the
      middle slot `(start + end) // 2`. It looks at exactly the slots the
      recursive version looks at, so both return the same answer on every list,
      sorted or not. */
  method BinarySearchIterative(a: seq<int>, value: int) returns (r: Option<int>)
    ensures r == BinarySearchRecursive(a, value, 0)
  {
    assert a[0..|a|] == a;
    SliceIsWindow(a, value, 0, |a|);
    if a == [] {
      return None;
    }
    var start, end := 0, |a| - 1;
    while start <= end
      invariant 0 <= start <= end + 1 <= |a|
      invariant SearchWindow(a, value, start, end + 1) == SearchWindow(a, value, 0, |a|)
      decreases end - start
    {
      var mid := (start + end) / 2;
      if a[mid] == value {
        return Some(mid);
      } else if a[mid] > value {
        end := mid - 1;
      } else {
        start := mid + 1;
      }
    }
    return None;
  }
}
