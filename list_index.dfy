/** Python's list index rules as the linked lists follow them, and the sequence
    edits that the list operations perform on their contents. */
module ListIndex {

  /** An index `list[index]` accepts: from `-length` up to `length - 1`. */
  predicate InRange(index: int, length: int)
  {
    -length <= index <= length - 1
  }

  /** A negative index counts from the end. */
  function Normalised(index: int, length: int): (k: int)
    requires InRange(index, length)
    ensures 0 <= k < length
    ensures k == index || k == index + length
  {
    if index < 0 then index + length else index
  }

  /** The position `list.insert(index, x)` puts `x` at: an index past the end
      appends, a negative one counts from the end, one before the start prepends. */
  function Clamped(index: int, length: int): int
    requires length >= 0
  {
    if index > length then length
    else if -length < index < 0 then length + index
    else if index <= -length then 0
    else index
  }

  /** `Clamped` lands on a valid insertion point, agrees with `Normalised` on
      every index in range, appends for every index from `length` on and
      prepends for every index up to `-length`. */
  lemma ClampedAgrees(index: int, length: int)
    requires length >= 0
    ensures 0 <= Clamped(index, length) <= length
    ensures InRange(index, length) ==> Clamped(index, length) == Normalised(index, length)
    ensures index >= length ==> Clamped(index, length) == length
    ensures index <= -length ==> Clamped(index, length) == 0
  {
  }

  /** `s` with `v` placed before position `i`. */
  function InsertAt<T>(s: seq<T>, i: int, v: T): (r: seq<T>)
    requires 0 <= i <= |s|
    ensures |r| == |s| + 1 && r[i] == v
    ensures forall k :: 0 <= k < i ==> r[k] == s[k]
    ensures forall k :: i < k < |r| ==> r[k] == s[k - 1]
  {
    s[..i] + [v] + s[i..]
  }

  /** `s` without the element at position `i`. */
  function RemoveAt<T>(s: seq<T>, i: int): (r: seq<T>)
    requires 0 <= i < |s|
    ensures |r| == |s| - 1
    ensures forall k :: 0 <= k < i ==> r[k] == s[k]
    ensures forall k :: i <= k < |r| ==> r[k] == s[k + 1]
  {
    s[..i] + s[i + 1..]
  }

  /** Removing what was just inserted gives back the list, and putting back
      what was just removed does too. */
  lemma InsertRemoveRoundTrip<T>(s: seq<T>, i: int, v: T)
    requires 0 <= i <= |s|
    ensures RemoveAt(InsertAt(s, i, v), i) == s
    ensures i < |s| ==> InsertAt(RemoveAt(s, i), i, s[i]) == s
  {
    assert RemoveAt(InsertAt(s, i, v), i) == s;
    if i < |s| {
      assert InsertAt(RemoveAt(s, i), i, s[i]) == s;
    }
  }

  /** The elements of `s` in the opposite order. */
  function Reversed<T>(s: seq<T>): (r: seq<T>)
    ensures |r| == |s|
    ensures forall k :: 0 <= k < |s| ==> r[k] == s[|s| - 1 - k]
  {
    if s == [] then [] else Reversed(s[1..]) + [s[0]]
  }
}
