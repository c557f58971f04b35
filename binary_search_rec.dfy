/** The older recursive binary search `binary_search_rec(arr, k, start=0,
    end=None)`, as written: `end = end or len(arr)` both starts one slot past
    the list and turns an `end` of 0 back into `len(arr)`. */
module LegacyBinarySearch {
  import opened Errors
  import opened SortSpec

  /** How a call ends: an index, `None`, an exception, or recursion deeper than
      the fuel allows (standing for Python's recursion limit). */
  datatype Outcome = Found(index: int) | Absent | Raised(error: Error) | Exhausted

  /** Python's `end or len(arr)`: a missing or zero `end` becomes the length. */
  function EffectiveEnd(arr: seq<int>, end: Option<int>): int
  {
    if end == None || end.value == 0 then |arr| else end.value
  }

  /** One call per unit of fuel; the middle slot is read with Python's indexing
      (negative positions count from the end, others past the end raise). */
  function BinarySearchRec(arr: seq<int>, k: int, start: int, end: Option<int>, fuel: nat): (r: Outcome)
    ensures r.Found? ==> -|arr| <= r.index < |arr|
    ensures r.Raised? ==> r.error == IndexError
    decreases fuel
  {
    if fuel == 0 then Exhausted
    else
      var e := EffectiveEnd(arr, end);
      if start > e then Absent
      else
        var mid := (start + e) / 2;
        if !(-|arr| <= mid < |arr|) then Raised(IndexError)
        else
          var x := if mid < 0 then arr[mid + |arr|] else arr[mid];
          if x == k then Found(mid)
          else if x > k then BinarySearchRec(arr, k, start, Some(mid - 1), fuel - 1)
          else BinarySearchRec(arr, k, mid + 1, Some(e), fuel - 1)
  }

  /** From a non-negative start, an index returned holds the value searched for. */
  lemma {:induction false} FoundIsCorrect(arr: seq<int>, k: int, start: int, end: Option<int>, fuel: nat)
    requires start >= 0
    ensures var r := BinarySearchRec(arr, k, start, end, fuel);
      r.Found? ==> 0 <= r.index < |arr| && arr[r.index] == k
    decreases fuel
  {
    if fuel > 0 {
      var e := EffectiveEnd(arr, end);
      var mid := (start + e) / 2;
      FoundStep(arr, k, start, end, fuel);
      if start <= e && mid < |arr| && arr[mid] != k {
        var next := if arr[mid] > k then (start, Some(mid - 1)) else (mid + 1, Some(e));
        FoundIsCorrect(arr, k, next.0, next.1, fuel - 1);
      }
    }
  }

  /** One call from a non-negative start: the middle slot is never negative,
      so a call either returns that slot when it holds the value, or recurses
      into one half, or returns no index at all. */
  lemma FoundStep(arr: seq<int>, k: int, start: int, end: Option<int>, fuel: nat)
    requires start >= 0 && fuel > 0
    ensures var e := EffectiveEnd(arr, end);
      var mid := (start + e) / 2;
      var r := BinarySearchRec(arr, k, start, end, fuel);
      if start <= e && mid < |arr| && arr[mid] != k then
        var next := if arr[mid] > k then (start, Some(mid - 1)) else (mid + 1, Some(e));
        next.0 >= 0 && r == BinarySearchRec(arr, k, next.0, next.1, fuel - 1)
      else r.Found? ==> r.index == mid && 0 <= mid < |arr| && arr[mid] == k
  {
  }

  /** Searching `[1, 3, 5]` for 1 narrows `end` to 0, which `end or len(arr)`
      turns back into 3: the same call repeats until the recursion limit. */
  lemma {:induction false} EndZeroRepeats(fuel: nat)
    ensures BinarySearchRec([1, 3, 5], 1, 0, Some(0), fuel) == Exhausted
    ensures BinarySearchRec([1, 3, 5], 1, 0, None, fuel) == Exhausted
  {
    if fuel > 0 {
      EndZeroRepeats(fuel - 1);
      assert [1, 3, 5][1] == 3;
    }
  }

  /** Searching `[1]` for 5 moves `start` to 1 and then reads `arr[1]`, one
      slot past the end: an `IndexError` instead of `None`. */
  lemma PastEndRaises(fuel: nat)
    requires fuel >= 2
    ensures BinarySearchRec([1], 5, 0, None, fuel) == Raised(IndexError)
  {
    assert [1][0] == 1;
  }

  /** An empty list reads `arr[0]`: an `IndexError` instead of `None`. */
  lemma EmptyRaises(k: int, fuel: nat)
    requires fuel >= 1
    ensures BinarySearchRec([], k, 0, None, fuel) == Raised(IndexError)
  {
  }

  /** The search as evidently intended: `end` is the last index of the
      inclusive window `[start, end]`, its default is `len(arr) - 1` rather
      than `len(arr)`, and an `end` of 0 is kept rather than replaced. */
  function BinarySearchRecCorrected(arr: seq<int>, k: int, start: int, end: int): Option<int>
    requires 0 <= start && end < |arr|
    decreases end - start + 1
  {
    if start > end then None
    else
      var mid := (start + end) / 2;
      if arr[mid] == k then Some(mid)
      else if arr[mid] > k then BinarySearchRecCorrected(arr, k, start, mid - 1)
      else BinarySearchRecCorrected(arr, k, mid + 1, end)
  }

  /** An index the corrected search returns lies in the window and holds `k`. */
  lemma {:induction false} CorrectedFound(arr: seq<int>, k: int, start: int, end: int)
    requires 0 <= start && end < |arr|
    ensures var r := BinarySearchRecCorrected(arr, k, start, end);
      r.Some? ==> start <= r.value <= end && arr[r.value] == k
    decreases end - start + 1
  {
    if start <= end {
      var mid := (start + end) / 2;
      if arr[mid] > k {
        CorrectedFound(arr, k, start, mid - 1);
      } else if arr[mid] < k {
        CorrectedFound(arr, k, mid + 1, end);
      }
    }
  }

  /** On a sorted list the corrected search finds `k` whenever the window
      holds it. */
  lemma {:induction false} CorrectedComplete(arr: seq<int>, k: int, start: int, end: int, i: int)
    requires 0 <= start && end < |arr|
    requires IsSorted(arr) && start <= i <= end && arr[i] == k
    ensures BinarySearchRecCorrected(arr, k, start, end).Some?
    decreases end - start + 1
  {
    var mid := (start + end) / 2;
    if arr[mid] > k {
      assert i < mid;
      CorrectedComplete(arr, k, start, mid - 1, i);
    } else if arr[mid] < k {
      assert mid < i;
      CorrectedComplete(arr, k, mid + 1, end, i);
    }
  }

  /** The corrected search returns an index of the window holding `k`, and on
      a sorted list it returns one exactly when the window holds `k`. */
  lemma BinarySearchRecCorrectedCorrect(arr: seq<int>, k: int, start: int, end: int)
    requires 0 <= start && end < |arr|
    ensures var r := BinarySearchRecCorrected(arr, k, start, end);
      && (r.Some? ==> start <= r.value <= end && arr[r.value] == k)
      && (IsSorted(arr) ==> (r.Some? <==> exists i :: start <= i <= end && arr[i] == k))
  {
    CorrectedFound(arr, k, start, end);
    if IsSorted(arr) && exists i :: start <= i <= end && arr[i] == k {
      var i :| start <= i <= end && arr[i] == k;
      CorrectedComplete(arr, k, start, end, i);
    }
  }

  /** Where the search as written loops or raises, the corrected one, with
      its default `end`, answers: index 0 for 1 in `[1, 3, 5]`, `None` for 5
      in `[1]` and for the empty list. */
  lemma CorrectedAnswers()
    ensures BinarySearchRecCorrected([1, 3, 5], 1, 0, 2) == Some(0)
    ensures BinarySearchRecCorrected([1], 5, 0, 0) == None
    ensures BinarySearchRecCorrected([], 5, 0, -1) == None
  {
    assert [1, 3, 5][1] == 3 && [1, 3, 5][0] == 1;
    assert [1][0] == 1;
  }
}
