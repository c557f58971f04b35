/** What "sorted ascending" and "a sorted copy" mean for the sorting, searching
    and tree-building code; Python's built-in `sorted` is modelled by `SortedOf`. */
module SortSpec {

  /** Non-decreasing order, as Python's `<` on numbers defines it. */
  ghost predicate IsSorted(s: seq<int>)
  {
    forall i, j :: 0 <= i < j < |s| ==> s[i] <= s[j]
  }

  /** Strictly increasing order: sorted and free of duplicates. */
  ghost predicate StrictlyIncreasing(s: seq<int>)
  {
    forall i, j :: 0 <= i < j < |s| ==> s[i] < s[j]
  }

  /** Places `x` before the first element of `s` that is not smaller. */
  function InsertSorted(x: int, s: seq<int>): (r: seq<int>)
    ensures |r| == |s| + 1
  {
    if s == [] || x <= s[0] then [x] + s
    else [s[0]] + InsertSorted(x, s[1..])
  }

  /** A reference sort (insertion into a sorted list), used as the meaning of
      Python's `sorted(list(values))`. */
  function SortedOf(s: seq<int>): (r: seq<int>)
    ensures |r| == |s|
  {
    if s == [] then [] else InsertSorted(s[0], SortedOf(s[1..]))
  }

  /** A lower bound of `x` and of every element of `s` bounds the insertion. */
  lemma {:induction false} InsertSortedBound(b: int, x: int, s: seq<int>)
    requires b <= x && forall k :: 0 <= k < |s| ==> b <= s[k]
    ensures forall k :: 0 <= k < |InsertSorted(x, s)| ==> b <= InsertSorted(x, s)[k]
  {
    if s != [] && x > s[0] {
      InsertSortedBound(b, x, s[1..]);
    }
  }

  /** A sorted sequence stays sorted under a new head no larger than any element. */
  lemma ConsSorted(h: int, r: seq<int>)
    requires IsSorted(r) && forall k :: 0 <= k < |r| ==> h <= r[k]
    ensures IsSorted([h] + r)
  {
    var t := [h] + r;
    forall i, j | 0 <= i < j < |t| ensures t[i] <= t[j] {
      assert t[j] == r[j - 1];
      if i > 0 { assert t[i] == r[i - 1]; }
    }
  }

  lemma {:induction false} InsertSortedCorrect(x: int, s: seq<int>)
    requires IsSorted(s)
    ensures IsSorted(InsertSorted(x, s))
    ensures multiset(InsertSorted(x, s)) == multiset(s) + multiset{x}
    ensures |InsertSorted(x, s)| == |s| + 1
  {
    if s == [] || x <= s[0] {
      forall k | 0 <= k < |s| ensures x <= s[k] {
        assert s[0] <= s[k];
      }
      ConsSorted(x, s);
    } else {
      var tail := s[1..];
      assert IsSorted(tail) by {
        forall i, j | 0 <= i < j < |tail| ensures tail[i] <= tail[j] {
          assert tail[i] == s[i + 1] && tail[j] == s[j + 1];
        }
      }
      InsertSortedCorrect(x, tail);
      forall k | 0 <= k < |tail| ensures s[0] <= tail[k] {
        assert tail[k] == s[k + 1];
      }
      InsertSortedBound(s[0], x, tail);
      var r := InsertSorted(x, tail);
      ConsSorted(s[0], r);
      assert InsertSorted(x, s) == [s[0]] + r;
      assert s == [s[0]] + tail;
    }
  }

  /** `SortedOf(s)` is sorted and a permutation of `s`. */
  lemma {:induction false} SortedOfCorrect(s: seq<int>)
    ensures IsSorted(SortedOf(s))
    ensures multiset(SortedOf(s)) == multiset(s)
    ensures |SortedOf(s)| == |s|
  {
    if s != [] {
      SortedOfCorrect(s[1..]);
      InsertSortedCorrect(s[0], SortedOf(s[1..]));
      assert s == [s[0]] + s[1..];
    }
  }

  /** The smallest element of a non-empty multiset is unique, so a sorted
      sequence starts with it. */
  lemma SortedHeadIsMinimum(r: seq<int>, x: int)
    requires IsSorted(r) && x in multiset(r)
    ensures r[0] <= x
  {
    var m :| 0 <= m < |r| && r[m] == x;
  }

  lemma TailSorted(r: seq<int>)
    requires IsSorted(r) && r != []
    ensures IsSorted(r[1..])
  {
    var t := r[1..];
    forall i, j | 0 <= i < j < |t| ensures t[i] <= t[j] {
      assert t[i] == r[i + 1] && t[j] == r[j + 1];
    }
  }

  /** There is only one sorted permutation of a sequence: every correct sort
      returns `SortedOf(s)`. */
  lemma {:induction false} SortedPermutationUnique(r: seq<int>, t: seq<int>)
    requires IsSorted(r) && IsSorted(t)
    requires multiset(r) == multiset(t)
    ensures r == t
  {
    if r == [] {
      assert |multiset(t)| == 0;
    } else {
      assert |multiset(t)| == |r|;
      assert t != [];
      assert r[0] in multiset(t) && t[0] in multiset(r);
      SortedHeadIsMinimum(t, r[0]);
      SortedHeadIsMinimum(r, t[0]);
      var r', t' := r[1..], t[1..];
      assert r[0] == t[0];
      assert r == [r[0]] + r' && t == [t[0]] + t';
      assert multiset(r) == multiset{r[0]} + multiset(r');
      assert multiset(t) == multiset{r[0]} + multiset(t');
      assert multiset(r') == multiset(r) - multiset{r[0]};
      assert multiset(t') == multiset(t) - multiset{r[0]};
      TailSorted(r);
      TailSorted(t);
      SortedPermutationUnique(r', t');
    }
  }

  /** Any sorted permutation of `s` is exactly `SortedOf(s)`. */
  lemma SortedOfUnique(s: seq<int>, r: seq<int>)
    requires IsSorted(r) && multiset(r) == multiset(s)
    ensures r == SortedOf(s)
  {
    SortedOfCorrect(s);
    SortedPermutationUnique(r, SortedOf(s));
  }
}
