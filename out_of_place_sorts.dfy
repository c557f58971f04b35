/** The two out-of-place sorts, `merge_sort` and `quick_sort`, which build and
    return a new list; and the older `merge_sort` whose base case only covers
    one-element lists. */
module OutOfPlaceSorts {
  import opened Errors
  import opened SortSpec

  /** The merge of what is left of two lists from cursors `i` and `j`: the rest
      of one list once the other is used up, otherwise the smaller head goes
      first, and on a tie the head of the first list (the second list's head is
      taken only when strictly smaller). */
  function MergeFrom(a: seq<int>, b: seq<int>, i: int, j: int): (r: seq<int>)
    requires 0 <= i <= |a| && 0 <= j <= |b|
    ensures |r| == |a| - i + |b| - j
    decreases |a| - i + |b| - j
  {
    if i == |a| then b[j..]
    else if j == |b| then a[i..]
    else if a[i] > b[j] then [b[j]] + MergeFrom(a, b, i, j + 1)
    else [a[i]] + MergeFrom(a, b, i + 1, j)
  }

  /** The merge of two whole lists. */
  function Merged(a: seq<int>, b: seq<int>): (r: seq<int>)
    ensures |r| == |a| + |b|
  {
    MergeFrom(a, b, 0, 0)
  }

  /** Every element of a sorted list from position `i` on is at least the one at `i`. */
  lemma SortedFrom(s: seq<int>, i: int)
    requires IsSorted(s) && 0 <= i < |s|
    ensures forall k :: 0 <= k < |s[i..]| ==> s[i] <= s[i..][k]
    ensures IsSorted(s[i..])
  {
    var t := s[i..];
    forall x, y | 0 <= x < y < |t| ensures t[x] <= t[y] {
      assert t[x] == s[i + x] && t[y] == s[i + y];
    }
  }

  /** `b` bounds every element of `s` from below when it bounds every element
      of a list with the same elements. */
  lemma LowerBoundTransfers(b: int, s: seq<int>, t: seq<int>)
    requires multiset(s) == multiset(t)
    requires forall k :: 0 <= k < |t| ==> b <= t[k]
    ensures forall k :: 0 <= k < |s| ==> b <= s[k]
  {
    forall k | 0 <= k < |s| ensures b <= s[k] {
      assert s[k] in multiset(t);
      var m :| 0 <= m < |t| && t[m] == s[k];
    }
  }

  /** Merging what is left of two sorted lists gives a sorted list holding
      exactly the remaining elements of both. */
  lemma {:induction false} MergeFromCorrect(a: seq<int>, b: seq<int>, i: int, j: int)
    requires IsSorted(a) && IsSorted(b)
    requires 0 <= i <= |a| && 0 <= j <= |b|
    ensures IsSorted(MergeFrom(a, b, i, j))
    ensures multiset(MergeFrom(a, b, i, j)) == multiset(a[i..]) + multiset(b[j..])
    decreases |a| - i + |b| - j
  {
    if i == |a| {
      if j < |b| { SortedFrom(b, j); }
    } else if j == |b| {
      SortedFrom(a, i);
    } else if a[i] > b[j] {
      MergeFromCorrect(a, b, i, j + 1);
      TakeSecondSorted(a, b, i, j);
    } else {
      MergeFromCorrect(a, b, i + 1, j);
      TakeFirstSorted(a, b, i, j);
    }
  }

  /** Putting the second list's head before the merge of the rest keeps it
      sorted when that head is smaller than the first list's. */
  lemma TakeSecondSorted(a: seq<int>, b: seq<int>, i: int, j: int)
    requires IsSorted(a) && IsSorted(b)
    requires 0 <= i < |a| && 0 <= j < |b| && a[i] > b[j]
    requires IsSorted(MergeFrom(a, b, i, j + 1))
    requires multiset(MergeFrom(a, b, i, j + 1)) == multiset(a[i..]) + multiset(b[j + 1..])
    ensures IsSorted([b[j]] + MergeFrom(a, b, i, j + 1))
    ensures multiset([b[j]] + MergeFrom(a, b, i, j + 1)) == multiset(a[i..]) + multiset(b[j..])
  {
    var m := MergeFrom(a, b, i, j + 1);
    SortedFrom(a, i);
    SortedFrom(b, j);
    var rest := a[i..] + b[j + 1..];
    assert b[j..] == [b[j]] + b[j + 1..];
    forall k | 0 <= k < |rest| ensures b[j] <= rest[k] {
      if k < |a[i..]| {
        assert rest[k] == a[i..][k];
      } else {
        assert rest[k] == b[j..][k - |a[i..]| + 1];
      }
    }
    LowerBoundTransfers(b[j], m, rest);
    ConsSorted(b[j], m);
  }

  /** Putting the first list's head before the merge of the rest keeps it
      sorted when that head is no larger than the second list's. */
  lemma TakeFirstSorted(a: seq<int>, b: seq<int>, i: int, j: int)
    requires IsSorted(a) && IsSorted(b)
    requires 0 <= i < |a| && 0 <= j < |b| && a[i] <= b[j]
    requires IsSorted(MergeFrom(a, b, i + 1, j))
    requires multiset(MergeFrom(a, b, i + 1, j)) == multiset(a[i + 1..]) + multiset(b[j..])
    ensures IsSorted([a[i]] + MergeFrom(a, b, i + 1, j))
    ensures multiset([a[i]] + MergeFrom(a, b, i + 1, j)) == multiset(a[i..]) + multiset(b[j..])
  {
    var m := MergeFrom(a, b, i + 1, j);
    SortedFrom(a, i);
    SortedFrom(b, j);
    var rest := a[i + 1..] + b[j..];
    assert a[i..] == [a[i]] + a[i + 1..];
    forall k | 0 <= k < |rest| ensures a[i] <= rest[k] {
      if k < |a[i + 1..]| {
        assert rest[k] == a[i..][k + 1];
      } else {
        assert rest[k] == b[j..][k - |a[i + 1..]|];
      }
    }
    LowerBoundTransfers(a[i], m, rest);
    ConsSorted(a[i], m);
  }

  /** Merging two sorted lists gives a sorted list holding the elements of both. */
  lemma MergedCorrect(a: seq<int>, b: seq<int>)
    requires IsSorted(a) && IsSorted(b)
    ensures IsSorted(Merged(a, b))
    ensures multiset(Merged(a, b)) == multiset(a) + multiset(b)
  {
    MergeFromCorrect(a, b, 0, 0);
    assert a[0..] == a && b[0..] == b;
  }

  /** The inner `merge` of `merge_sort`: walks both lists with two cursors and
      copies the rest of one list once the other is used up. */
  method Merge(a: seq<int>, b: seq<int>) returns (r: seq<int>)
    ensures r == Merged(a, b)
  {
    var i, j := 0, 0;
    r := [];
    while i < |a| || j < |b|
      invariant 0 <= i <= |a| && 0 <= j <= |b|
      invariant r + MergeFrom(a, b, i, j) == Merged(a, b)
      decreases |a| - i + |b| - j
    {
      if i >= |a| {
        r := r + b[j..];
        j := |b|;
      } else if j >= |b| {
        r := r + a[i..];
        i := |a|;
      } else if a[i] > b[j] {
        r := r + [b[j]];
        j := j + 1;
      } else {
        r := r + [a[i]];
        i := i + 1;
      }
    }
  }

  /** A list of at most one element is its own sorted copy. */
  lemma ShortIsSorted(a: seq<int>)
    requires |a| <= 1
    ensures IsSorted(a) && a == SortedOf(a)
  {
    SortedOfUnique(a, a);
  }

  /** A list holds the elements of its two halves. */
  lemma SplitMultiset(a: seq<int>, mid: int)
    requires 0 <= mid <= |a|
    ensures multiset(a) == multiset(a[..mid]) + multiset(a[mid..])
  {
    assert a == a[..mid] + a[mid..];
  }

  /** Merging the sorted copies of the two halves of a list gives its sorted copy. */
  lemma MergeHalves(a: seq<int>, mid: int, left: seq<int>, right: seq<int>)
    requires 0 <= mid <= |a|
    requires left == SortedOf(a[..mid]) && right == SortedOf(a[mid..])
    ensures Merged(left, right) == SortedOf(a)
  {
    SortedOfCorrect(a[..mid]);
    SortedOfCorrect(a[mid..]);
    MergedCorrect(left, right);
    SplitMultiset(a, mid);
    SortedOfUnique(a, Merged(left, right));
  }

  /** `merge_sort`: a list of at most one element is returned as it is; longer
      lists are split at `len // 2`, both halves sorted and merged. The result is
      the sorted copy of the input. */
  method MergeSort(a: seq<int>) returns (r: seq<int>)
    ensures r == SortedOf(a)
    ensures |a| <= 1 ==> r == a
    decreases |a|
  {
    if |a| <= 1 {
      ShortIsSorted(a);
      return a;
    }
    var mid := |a| / 2;
    var left := MergeSort(a[..mid]);
    var right := MergeSort(a[mid..]);
    r := Merge(left, right);
    MergeHalves(a, mid, left, right);
  }

  /** The older `merge_sort`, whose base case is `len(arr) == 1` only. `fuel`
      bounds the recursion depth, standing for Python's recursion limit; `None`
      means the limit was hit. An empty list is split into an empty half again
      and again, so it never returns; every non-empty list comes back sorted. */
  method LegacyMergeSort(a: seq<int>, fuel: nat) returns (r: Option<seq<int>>)
    ensures a == [] ==> r == None
    ensures 1 <= |a| <= fuel ==> r == Some(SortedOf(a))
    decreases fuel
  {
    if fuel == 0 {
      return None;
    }
    if |a| == 1 {
      ShortIsSorted(a);
      return Some(a);
    }
    var mid := |a| / 2;
    var left := LegacyMergeSort(a[..mid], fuel - 1);
    if left == None {
      return None;
    }
    var right := LegacyMergeSort(a[mid..], fuel - 1);
    if right == None {
      return None;
    }
    var m := Merge(left.value, right.value);
    if 1 <= |a| <= fuel {
      MergeHalves(a, mid, left.value, right.value);
    }
    return Some(m);
  }

  /** Elements no larger than the pivot, then the pivot, then larger ones: the
      concatenation of two sorted lists around the pivot is sorted. */
  lemma AroundPivotSorted(s: seq<int>, p: int, b: seq<int>)
    requires IsSorted(s) && IsSorted(b)
    requires forall k :: 0 <= k < |s| ==> s[k] <= p
    requires forall k :: 0 <= k < |b| ==> p < b[k]
    ensures IsSorted(s + [p] + b)
  {
    var t := s + [p] + b;
    forall x, y | 0 <= x < y < |t| ensures t[x] <= t[y] {
      if y < |s| {
        assert t[x] == s[x] && t[y] == s[y];
      } else if x > |s| {
        assert t[x] == b[x - |s| - 1] && t[y] == b[y - |s| - 1];
      } else if x == |s| {
        assert t[y] == b[y - |s| - 1];
      } else if y == |s| {
        assert t[x] == s[x];
      } else {
        assert t[x] == s[x] && t[y] == b[y - |s| - 1];
      }
    }
  }

  /** `s` has no element above `p` when a list with the same elements has none. */
  lemma UpperBoundTransfers(p: int, s: seq<int>, t: seq<int>)
    requires multiset(s) == multiset(t)
    requires forall k :: 0 <= k < |t| ==> t[k] <= p
    ensures forall k :: 0 <= k < |s| ==> s[k] <= p
  {
    forall k | 0 <= k < |s| ensures s[k] <= p {
      assert s[k] in multiset(t);
      var m :| 0 <= m < |t| && t[m] == s[k];
    }
  }

  /** `quick_sort`: the first element is the pivot; the rest are split into
      those no larger than it and those larger, each sorted recursively. The
      result is the sorted copy of the input. */
  method QuickSort(a: seq<int>) returns (r: seq<int>)
    ensures r == SortedOf(a)
    ensures |a| <= 1 ==> r == a
    decreases |a|
  {
    if |a| <= 1 {
      ShortIsSorted(a);
      return a;
    }
    var pivot := a[0];
    var smaller, bigger := Partition(a[1..], pivot);
    var s := QuickSort(smaller);
    var b := QuickSort(bigger);
    r := s + [pivot] + b;
    AroundPivot(a, smaller, bigger);
  }

  /** The `for element in array[1:]` loop of `quick_sort`: splits `rest`, in
      order, into the elements no larger than the pivot and those larger. */
  method Partition(rest: seq<int>, pivot: int) returns (smaller: seq<int>, bigger: seq<int>)
    ensures multiset(smaller) + multiset(bigger) == multiset(rest)
    ensures forall x :: 0 <= x < |smaller| ==> smaller[x] <= pivot
    ensures forall x :: 0 <= x < |bigger| ==> pivot < bigger[x]
    ensures |smaller| + |bigger| == |rest|
  {
    smaller, bigger := [], [];
    for k := 0 to |rest|
      invariant multiset(smaller) + multiset(bigger) == multiset(rest[..k])
      invariant |smaller| + |bigger| == k
      invariant forall x :: 0 <= x < |smaller| ==> smaller[x] <= pivot
      invariant forall x :: 0 <= x < |bigger| ==> pivot < bigger[x]
    {
      assert rest[..k + 1] == rest[..k] + [rest[k]];
      if rest[k] <= pivot {
        smaller := smaller + [rest[k]];
      } else {
        bigger := bigger + [rest[k]];
      }
    }
    assert rest[..|rest|] == rest;
  }

  /** The sorted elements no larger than `p`, then `p`, then the sorted larger
      ones: a sorted list of all of them. */
  lemma PivotPlaced(p: int, smaller: seq<int>, bigger: seq<int>)
    requires forall x :: 0 <= x < |smaller| ==> smaller[x] <= p
    requires forall x :: 0 <= x < |bigger| ==> p < bigger[x]
    ensures IsSorted(SortedOf(smaller) + [p] + SortedOf(bigger))
    ensures multiset(SortedOf(smaller) + [p] + SortedOf(bigger))
         == multiset(smaller) + multiset{p} + multiset(bigger)
  {
    var s, b := SortedOf(smaller), SortedOf(bigger);
    SortedOfCorrect(smaller);
    SortedOfCorrect(bigger);
    UpperBoundTransfers(p, s, smaller);
    LowerBoundTransfers(p + 1, b, bigger);
    AroundPivotSorted(s, p, b);
  }

  lemma HeadAndRest(a: seq<int>)
    requires |a| >= 1
    ensures multiset(a) == multiset{a[0]} + multiset(a[1..])
  {
    assert a == [a[0]] + a[1..];
  }

  /** Sorting the elements no larger than the head and those larger, and putting
      the head between them, gives the sorted copy of the list. */
  lemma AroundPivot(a: seq<int>, smaller: seq<int>, bigger: seq<int>)
    requires |a| >= 1
    requires multiset(smaller) + multiset(bigger) == multiset(a[1..])
    requires forall x :: 0 <= x < |smaller| ==> smaller[x] <= a[0]
    requires forall x :: 0 <= x < |bigger| ==> a[0] < bigger[x]
    ensures SortedOf(smaller) + [a[0]] + SortedOf(bigger) == SortedOf(a)
  {
    var t := SortedOf(smaller) + [a[0]] + SortedOf(bigger);
    PivotPlaced(a[0], smaller, bigger);
    HeadAndRest(a);
    SortedOfUnique(a, t);
  }
}
