/** Hashing and bucket chains for the hash table: the `_hash` sum, the slot a
    key belongs in, walks along a chain, and the bucket array read as a
    key-to-value mapping, with the facts each table operation relies on. A
    bucket chain is modelled by the sequence of its `[key, value]` pairs, an
    empty sequence standing for the `None` of an unused slot. Keys are strings
    or integers. */
module HashBuckets {
  import opened Errors
  import opened ListIndex

  datatype Key = Str(text: string) | Int(number: int)

  /** One `[key, value]` pair of a bucket chain. */
  datatype Entry<V> = Entry(key: Key, value: V)

  // ---------------------------------------------------------------- hashing

  function Pow(base: int, exp: nat): (r: int)
    ensures base >= 0 ==> r >= 0
  {
    if exp == 0 then 1 else base * Pow(base, exp - 1)
  }

  function Abs(x: int): nat
  {
    if x < 0 then -x else x
  }

  /** `str(n)` for a non-negative integer: its decimal digits. */
  function DecimalDigits(n: nat): (s: string)
    ensures |s| >= 1
  {
    if n < 10 then [('0' as int + n) as char]
    else DecimalDigits(n / 10) + [('0' as int + n % 10) as char]
  }

  /** `str(key)`: a string is itself, an integer its decimal form. */
  function KeyText(key: Key): string
  {
    match key
    case Str(s) => s
    case Int(n) => if n < 0 then "-" + DecimalDigits(-n) else DecimalDigits(n)
  }

  /** The constant that keeps `1` and `'1'` apart: 53 for strings, 47 for
      everything else. */
  function KeyConst(key: Key): int
  {
    if key.Str? then 53 else 47
  }

  /** What symbol `i` of the text adds to the hash: its distance from the
      constant, times the constant to a power cycling from 5 down to 1. */
  function Term(text: string, c: int, i: int): int
    requires 0 <= i < |text|
  {
    Abs(c - text[i] as int) * Pow(c, 5 - i % 5)
  }

  /** The sum of the first `n` symbols' terms. */
  function HashPrefix(text: string, c: int, n: int): (h: int)
    requires c > 0 && 0 <= n <= |text|
    ensures h >= 0
  {
    if n == 0 then 0 else HashPrefix(text, c, n - 1) + Term(text, c, n - 1)
  }

  /** The unreduced hash value of a key. */
  function HashSum(key: Key): nat
  {
    HashPrefix(KeyText(key), KeyConst(key), |KeyText(key)|)
  }

  /** The slot of `key` among `capacity` slots. */
  function Bucket(key: Key, capacity: int): (b: int)
    requires capacity > 0
    ensures 0 <= b < capacity
  {
    HashSum(key) % capacity
  }

  /** The integer `1` and the string `'1'` hash to different sums. */
  lemma StrAndIntKeysDiffer()
    ensures HashSum(Str("1")) == 4 * Pow(53, 5)
    ensures HashSum(Int(1)) == 2 * Pow(47, 5)
    ensures HashSum(Str("1")) != HashSum(Int(1))
  {
    assert KeyText(Int(1)) == "1";
    assert Pow(53, 5) == 418195493;
    assert Pow(47, 5) == 229345007;
  }

  // ---------------------------------------------------------------- buckets

  /** The keys of a chain, in chain order. */
  function KeysOf<V>(bucket: seq<Entry<V>>): (keys: seq<Key>)
    ensures |keys| == |bucket|
    ensures forall i :: 0 <= i < |bucket| ==> keys[i] == bucket[i].key
  {
    seq(|bucket|, i requires 0 <= i < |bucket| => bucket[i].key)
  }

  /** No key occurs twice. */
  predicate DistinctKeys<V>(entries: seq<Entry<V>>)
  {
    forall i, j :: 0 <= i < j < |entries| ==> entries[i].key != entries[j].key
  }

  /** The value a walk along the chain finds for `key`: that of the first
      pair with this key. */
  function Find<V>(bucket: seq<Entry<V>>, key: Key): (r: Option<V>)
    ensures r.Some? ==> Entry(key, r.value) in bucket
  {
    if bucket == [] then None
    else if bucket[0].key == key then Some(bucket[0].value)
    else Find(bucket[1..], key)
  }

  lemma {:induction false} FindNoneIff<V>(bucket: seq<Entry<V>>, key: Key)
    ensures Find(bucket, key).None? <==> key !in KeysOf(bucket)
  {
    if bucket != [] {
      FindNoneIff(bucket[1..], key);
      assert KeysOf(bucket) == [bucket[0].key] + KeysOf(bucket[1..]);
    }
  }

  lemma {:induction false} FindAt<V>(bucket: seq<Entry<V>>, i: int)
    requires DistinctKeys(bucket) && 0 <= i < |bucket|
    ensures Find(bucket, bucket[i].key) == Some(bucket[i].value)
  {
    if i > 0 {
      FindAt(bucket[1..], i - 1);
    }
  }

  /** Taking pair `i` out of a chain without repeated keys loses its key and
      nothing else. */
  lemma {:induction false} FindAfterRemove<V>(bucket: seq<Entry<V>>, i: int, key: Key)
    requires DistinctKeys(bucket) && 0 <= i < |bucket|
    ensures Find(RemoveAt(bucket, i), key) == if key == bucket[i].key then None else Find(bucket, key)
  {
    if key == bucket[i].key {
      FindNoneIff(RemoveAt(bucket, i), key);
    } else if i > 0 {
      assert RemoveAt(bucket, i) == [bucket[0]] + RemoveAt(bucket[1..], i - 1);
      FindAfterRemove(bucket[1..], i - 1, key);
    } else {
      assert RemoveAt(bucket, 0) == bucket[1..];
    }
  }

  /** Overwriting the value of pair `i` changes what its key finds and
      nothing else. */
  lemma {:induction false} FindAfterOverwrite<V>(bucket: seq<Entry<V>>, i: int, value: V, key: Key)
    requires DistinctKeys(bucket) && 0 <= i < |bucket|
    ensures Find(bucket[i := Entry(bucket[i].key, value)], key) ==
      if key == bucket[i].key then Some(value) else Find(bucket, key)
  {
    if i > 0 {
      assert bucket[i := Entry(bucket[i].key, value)][1..] == bucket[1..][i - 1 := Entry(bucket[i].key, value)];
      FindAfterOverwrite(bucket[1..], i - 1, value, key);
    }
  }

  // ----------------------------------------------------------- the array

  /** All pairs, bucket after bucket, in chain order: the order iteration
      visits them. */
  function Flatten<V>(buckets: seq<seq<Entry<V>>>): seq<Entry<V>>
  {
    if buckets == [] then [] else Flatten(buckets[..|buckets| - 1]) + buckets[|buckets| - 1]
  }

  /** Every pair sits in the slot its key hashes to. */
  ghost predicate Placed<V>(buckets: seq<seq<Entry<V>>>, capacity: int)
    requires capacity > 0
  {
    forall b, j :: 0 <= b < |buckets| && 0 <= j < |buckets[b]| ==> Bucket(buckets[b][j].key, capacity) == b
  }

  lemma {:induction false} FlattenUpdate<V>(buckets: seq<seq<Entry<V>>>, b: int, bucket: seq<Entry<V>>)
    requires 0 <= b < |buckets|
    ensures |Flatten(buckets[b := bucket])| == |Flatten(buckets)| - |buckets[b]| + |bucket|
  {
    var n := |buckets| - 1;
    if b < n {
      assert buckets[b := bucket][..n] == buckets[..n][b := bucket];
      FlattenUpdate(buckets[..n], b, bucket);
    } else {
      assert buckets[b := bucket][..n] == buckets[..n];
    }
  }

  /** A key is listed exactly when some bucket holds it. */
  lemma {:induction false} FlattenKeys<V>(buckets: seq<seq<Entry<V>>>, key: Key)
    ensures key in KeysOf(Flatten(buckets)) <==> exists b :: 0 <= b < |buckets| && key in KeysOf(buckets[b])
  {
    if buckets != [] {
      var n := |buckets| - 1;
      FlattenKeys(buckets[..n], key);
      var f := Flatten(buckets[..n]);
      assert KeysOf(f + buckets[n]) == KeysOf(f) + KeysOf(buckets[n]);
      if exists b :: 0 <= b < |buckets| && key in KeysOf(buckets[b]) {
        var b :| 0 <= b < |buckets| && key in KeysOf(buckets[b]);
        if b < n {
          assert buckets[..n][b] == buckets[b];
        }
      }
      if key in KeysOf(f) {
        var b :| 0 <= b < n && key in KeysOf(buckets[..n][b]);
        assert buckets[b] == buckets[..n][b];
      }
    }
  }

  /** A key listed before slot `n` hashes below `n`. */
  lemma KeysBelow<V>(buckets: seq<seq<Entry<V>>>, capacity: int, key: Key)
    requires capacity > 0 && Placed(buckets, capacity)
    requires key in KeysOf(Flatten(buckets))
    ensures Bucket(key, capacity) < |buckets|
  {
    FlattenKeys(buckets, key);
    var b :| 0 <= b < |buckets| && key in KeysOf(buckets[b]);
    var j :| 0 <= j < |buckets[b]| && buckets[b][j].key == key;
  }

  /** Buckets holding only keys that hash to them, none twice, list every
      key once. */
  lemma {:induction false} FlattenDistinct<V>(buckets: seq<seq<Entry<V>>>, capacity: int)
    requires capacity > 0 && Placed(buckets, capacity)
    requires forall b :: 0 <= b < |buckets| ==> DistinctKeys(buckets[b])
    ensures DistinctKeys(Flatten(buckets))
  {
    if buckets != [] {
      var n := |buckets| - 1;
      var front: seq<seq<Entry<V>>> := buckets[..n];
      assert Placed(front, capacity) by {
        forall b: int, j: int | 0 <= b < n && 0 <= j < |front[b]|
          ensures Bucket(front[b][j].key, capacity) == b
        {
          assert front[b] == buckets[b];
        }
      }
      assert forall b :: 0 <= b < n ==> front[b] == buckets[b];
      FlattenDistinct(front, capacity);
      var f: seq<Entry<V>> := Flatten(front);
      var last: seq<Entry<V>> := buckets[n];
      assert Flatten(buckets) == f + last;
      forall i: int, j: int | 0 <= i < j < |f| + |last|
        ensures (f + last)[i].key != (f + last)[j].key
      {
        if i < |f| <= j {
          assert KeysOf(f)[i] == f[i].key;
          KeysBelow(front, capacity, f[i].key);
          assert Bucket(last[j - |f|].key, capacity) == n;
        } else if |f| <= i {
          assert (f + last)[i] == last[i - |f|] && (f + last)[j] == last[j - |f|];
        }
      }
    }
  }

  /** Every listed pair is in the bucket its key hashes to. */
  lemma {:induction false} FlattenEntry<V>(buckets: seq<seq<Entry<V>>>, i: int)
    requires 0 <= i < |Flatten(buckets)|
    ensures exists b, j :: 0 <= b < |buckets| && 0 <= j < |buckets[b]| && buckets[b][j] == Flatten(buckets)[i]
  {
    var n := |buckets| - 1;
    var f := Flatten(buckets[..n]);
    if i < |f| {
      FlattenEntry(buckets[..n], i);
      var b, j :| 0 <= b < n && 0 <= j < |buckets[..n][b]| && buckets[..n][b][j] == f[i];
      assert buckets[b][j] == Flatten(buckets)[i];
    } else {
      assert buckets[n][i - |f|] == Flatten(buckets)[i];
    }
  }


  lemma {:induction false} EmptyFlatten<V>(buckets: seq<seq<Entry<V>>>)
    requires forall b :: 0 <= b < |buckets| ==> buckets[b] == []
    ensures Flatten(buckets) == []
  {
    if buckets != [] {
      EmptyFlatten(buckets[..|buckets| - 1]);
    }
  }

  // ------------------------------------------------- the array as a mapping

  /** What a mapping holds for `key`, `None` when it has no such key. */
  function Stored<V>(m: map<Key, V>, key: Key): Option<V>
  {
    if key in m then Some(m[key]) else None
  }

  /** What `get` finds for `key`: the walk along the chain in its slot. */
  function Lookup<V>(buckets: seq<seq<Entry<V>>>, key: Key): Option<V>
    requires |buckets| > 0
  {
    Find(buckets[Bucket(key, |buckets|)], key)
  }

  /** The buckets stand for the mapping `m`: every pair is in its key's
      slot, no chain repeats a key, and the walk for each key finds what `m`
      holds for it; with no slots, `m` is empty. */
  ghost predicate Represents<V>(buckets: seq<seq<Entry<V>>>, m: map<Key, V>)
  {
    && (|buckets| == 0 ==> m == map[])
    && (|buckets| > 0 ==>
          && Placed(buckets, |buckets|)
          && forall k {:trigger Lookup(buckets, k)} :: Lookup(buckets, k) == Stored(m, k))
    && (forall b :: 0 <= b < |buckets| ==> DistinctKeys(buckets[b]))
  }

  /** `n` unused slots stand for the empty mapping and list nothing. */
  lemma RepresentsEmpty<V>(n: nat)
    ensures var s: seq<seq<Entry<V>>> := seq(n, _ => []);
      Represents(s, map[]) && Flatten(s) == []
  {
    var s: seq<seq<Entry<V>>> := seq(n, _ => []);
    EmptyFlatten(s);
    if n > 0 {
      forall k
        ensures Lookup(s, k) == Stored(map[], k)
      {
      }
    }
  }

  /** The chain in `key`'s slot holds `key` exactly when the mapping does,
      and then with the mapped value. */
  lemma RepresentsFind<V>(s: seq<seq<Entry<V>>>, m: map<Key, V>, key: Key)
    requires Represents(s, m) && |s| > 0
    ensures var chain := s[Bucket(key, |s|)];
      && (key in m <==> key in KeysOf(chain))
      && forall j :: 0 <= j < |chain| && chain[j].key == key ==> key in m && m[key] == chain[j].value
  {
    var chain := s[Bucket(key, |s|)];
    assert Lookup(s, key) == Stored(m, key);
    FindNoneIff(chain, key);
    forall j | 0 <= j < |chain| && chain[j].key == key
      ensures key in m && m[key] == chain[j].value
    {
      FindAt(chain, j);
    }
  }

  /** A new key put in front of its slot's chain: the mapping gains the
      pair and one more pair is listed. */
  lemma RepresentsInsert<V>(s: seq<seq<Entry<V>>>, m: map<Key, V>, key: Key, value: V)
    requires Represents(s, m) && |s| > 0 && key !in m
    ensures var h := Bucket(key, |s|);
      var t := s[h := [Entry(key, value)] + s[h]];
      Represents(t, m[key := value]) && |Flatten(t)| == |Flatten(s)| + 1
  {
    var n := |s|;
    var h := Bucket(key, n);
    var e := Entry(key, value);
    var t: seq<seq<Entry<V>>> := s[h := [e] + s[h]];
    RepresentsFind(s, m, key);
    assert Placed(t, n) by {
      forall b: int, j: int | 0 <= b < n && 0 <= j < |t[b]|
        ensures Bucket(t[b][j].key, n) == b
      {
        if b == h && j > 0 {
          assert t[b][j] == s[h][j - 1];
        }
      }
    }
    forall k
      ensures Lookup(t, k) == Stored(m[key := value], k)
    {
      assert Lookup(s, k) == Stored(m, k);
      if Bucket(k, n) == h {
        assert ([e] + s[h])[1..] == s[h];
      }
    }
    forall b | 0 <= b < n
      ensures DistinctKeys(t[b])
    {
      if b == h {
        forall i: int, j: int | 0 <= i < j < |t[b]|
          ensures t[b][i].key != t[b][j].key
        {
          if i == 0 {
            assert KeysOf(s[h])[j - 1] == t[b][j].key;
          } else {
            assert t[b][i] == s[h][i - 1] && t[b][j] == s[h][j - 1];
          }
        }
      }
    }
    FlattenUpdate(s, h, [e] + s[h]);
  }

  /** Taking the pair at position `j` of `key`'s chain out of it: the
      mapping loses the key, which mapped to that pair's value, and one pair
      fewer is listed. */
  lemma RepresentsRemove<V>(s: seq<seq<Entry<V>>>, m: map<Key, V>, key: Key, j: int)
    requires Represents(s, m) && |s| > 0
    requires 0 <= j < |s[Bucket(key, |s|)]| && s[Bucket(key, |s|)][j].key == key
    ensures var h := Bucket(key, |s|);
      var t := s[h := RemoveAt(s[h], j)];
      && key in m && m[key] == s[h][j].value
      && Represents(t, m - {key}) && |Flatten(t)| == |Flatten(s)| - 1
  {
    var n := |s|;
    var h := Bucket(key, n);
    var rest := RemoveAt(s[h], j);
    var t: seq<seq<Entry<V>>> := s[h := rest];
    RepresentsFind(s, m, key);
    assert Placed(t, n) by {
      forall b: int, i: int | 0 <= b < n && 0 <= i < |t[b]|
        ensures Bucket(t[b][i].key, n) == b
      {
        if b == h {
          assert t[b][i] == s[h][if i < j then i else i + 1];
        }
      }
    }
    forall k
      ensures Lookup(t, k) == Stored(m - {key}, k)
    {
      assert Lookup(s, k) == Stored(m, k);
      if Bucket(k, n) == h {
        FindAfterRemove(s[h], j, k);
      }
    }
    forall b | 0 <= b < n
      ensures DistinctKeys(t[b])
    {
      if b == h {
        forall p, q | 0 <= p < q < |rest|
          ensures rest[p].key != rest[q].key
        {
          assert rest[p] == s[h][if p < j then p else p + 1];
          assert rest[q] == s[h][if q < j then q else q + 1];
        }
      }
    }
    FlattenUpdate(s, h, rest);
  }

  /** Overwriting the value of the pair at position `j` of `key`'s chain:
      the mapping sends the key to the new value and as many pairs are
      listed. */
  lemma RepresentsOverwrite<V>(s: seq<seq<Entry<V>>>, m: map<Key, V>, key: Key, j: int, value: V)
    requires Represents(s, m) && |s| > 0
    requires 0 <= j < |s[Bucket(key, |s|)]| && s[Bucket(key, |s|)][j].key == key
    ensures var h := Bucket(key, |s|);
      var t := s[h := s[h][j := Entry(key, value)]];
      && key in m
      && Represents(t, m[key := value]) && |Flatten(t)| == |Flatten(s)|
  {
    var n := |s|;
    var h := Bucket(key, n);
    var updated := s[h][j := Entry(key, value)];
    var t: seq<seq<Entry<V>>> := s[h := updated];
    RepresentsFind(s, m, key);
    assert Placed(t, n) by {
      forall b: int, i: int | 0 <= b < n && 0 <= i < |t[b]|
        ensures Bucket(t[b][i].key, n) == b
      {
        if b == h {
          assert t[b][i].key == s[h][i].key;
        }
      }
    }
    forall k
      ensures Lookup(t, k) == Stored(m[key := value], k)
    {
      assert Lookup(s, k) == Stored(m, k);
      if Bucket(k, n) == h {
        FindAfterOverwrite(s[h], j, value, k);
      }
    }
    forall b | 0 <= b < n
      ensures DistinctKeys(t[b])
    {
      if b == h {
        forall p, q | 0 <= p < q < |updated|
          ensures updated[p].key != updated[q].key
        {
          assert updated[p].key == s[h][p].key && updated[q].key == s[h][q].key;
        }
      }
    }
    FlattenUpdate(s, h, updated);
  }

  // ------------------------------------------------------ listing the pairs

  /** The mapping built by storing a list's pairs one after another. */
  function MapOf<V>(entries: seq<Entry<V>>): map<Key, V>
  {
    if entries == [] then map[]
    else
      var last := entries[|entries| - 1];
      MapOf(entries[..|entries| - 1])[last.key := last.value]
  }

  /** Storing one more pair of a list updates the mapping with it. */
  lemma MapOfNext<V>(entries: seq<Entry<V>>, i: int)
    requires 0 <= i < |entries|
    ensures MapOf(entries[..i + 1]) == MapOf(entries[..i])[entries[i].key := entries[i].value]
  {
    assert entries[..i + 1][..i] == entries[..i];
  }

  /** The pairs bring only keys `m` lacks, none of them twice. */
  predicate NewKeys<V>(entries: seq<Entry<V>>, m: map<Key, V>)
  {
    DistinctKeys(entries) && forall i :: 0 <= i < |entries| ==> entries[i].key !in m
  }

  /** Adding pair `i` to `m` merged with the earlier pairs: its key is new
      exactly when the longer prefix still brings only new keys, which it
      does when the whole list does; storing it extends the merge. */
  lemma NewKeysNext<V>(entries: seq<Entry<V>>, m: map<Key, V>, i: int)
    requires 0 <= i < |entries| && NewKeys(entries[..i], m)
    ensures NewKeys(entries[..i + 1], m) <==> entries[i].key !in m + MapOf(entries[..i])
    ensures NewKeys(entries, m) ==> NewKeys(entries[..i + 1], m)
    ensures m + MapOf(entries[..i + 1]) == (m + MapOf(entries[..i]))[entries[i].key := entries[i].value]
  {
    var e := entries[i];
    MapOfNext(entries, i);
    MapOfKeys(entries[..i], e.key);
    assert entries[..i + 1] == entries[..i] + [e];
    if e.key in MapOf(entries[..i]) {
      var j :| 0 <= j < i && KeysOf(entries[..i])[j] == e.key;
      assert entries[..i + 1][j].key == entries[..i + 1][i].key;
    }
  }

  /** The keys stored are the keys listed. */
  lemma {:induction false} MapOfKeys<V>(entries: seq<Entry<V>>, key: Key)
    ensures key in MapOf(entries) <==> key in KeysOf(entries)
  {
    if entries != [] {
      var n := |entries| - 1;
      MapOfKeys(entries[..n], key);
      assert KeysOf(entries) == KeysOf(entries[..n]) + [entries[n].key];
    }
  }

  /** With no key listed twice, each key maps to its own pair's value and
      there are as many keys as pairs. */
  lemma {:induction false} MapOfDistinct<V>(entries: seq<Entry<V>>)
    requires DistinctKeys(entries)
    ensures |MapOf(entries)| == |entries|
    ensures forall i :: 0 <= i < |entries| ==>
      entries[i].key in MapOf(entries) && MapOf(entries)[entries[i].key] == entries[i].value
  {
    if entries != [] {
      var n := |entries| - 1;
      var front := entries[..n];
      MapOfDistinct(front);
      MapOfKeys(front, entries[n].key);
      assert entries[n].key !in KeysOf(front);
      forall i | 0 <= i < n
        ensures entries[i] == front[i]
      {
      }
    }
  }

  /** Represented buckets list every key of the mapping exactly once, each
      with its mapped value. */
  lemma RepresentsPairs<V>(s: seq<seq<Entry<V>>>, m: map<Key, V>)
    requires Represents(s, m)
    ensures var all := Flatten(s);
      && DistinctKeys(all)
      && (forall k :: k in KeysOf(all) <==> k in m)
      && (forall i :: 0 <= i < |all| ==> all[i].key in m && m[all[i].key] == all[i].value)
  {
    var all := Flatten(s);
    var n := |s|;
    if n == 0 {
      assert s == [];
    } else {
      FlattenDistinct(s, n);
      forall k
        ensures k in KeysOf(all) <==> k in m
      {
        FlattenKeys(s, k);
        RepresentsFind(s, m, k);
        if k in KeysOf(all) {
          var b :| 0 <= b < n && k in KeysOf(s[b]);
          var j :| 0 <= j < |s[b]| && s[b][j].key == k;
          assert Bucket(s[b][j].key, n) == b;
        }
      }
      forall i | 0 <= i < |all|
        ensures all[i].key in m && m[all[i].key] == all[i].value
      {
        FlattenEntry(s, i);
        var b, j :| 0 <= b < n && 0 <= j < |s[b]| && s[b][j] == all[i];
        assert Bucket(s[b][j].key, n) == b;
        RepresentsFind(s, m, all[i].key);
      }
    }
  }

  /** A list of pairs with distinct keys, listing each key of `m` once with
      its value and nothing else, rebuilds `m` when stored in order. */
  lemma {:induction false} MapOfRebuilds<V>(all: seq<Entry<V>>, m: map<Key, V>)
    requires DistinctKeys(all)
    requires forall k :: k in KeysOf(all) <==> k in m
    requires forall i :: 0 <= i < |all| ==> all[i].key in m && m[all[i].key] == all[i].value
    ensures |all| == |m| && MapOf(all) == m
  {
    MapOfDistinct(all);
    forall k
      ensures k in MapOf(all) <==> k in m
    {
      MapOfKeys(all, k);
    }
    forall k | k in m
      ensures MapOf(all)[k] == m[k]
    {
      var keys := KeysOf(all);
      assert k in keys;
      var i :| 0 <= i < |keys| && keys[i] == k;
      assert all[i].key == k && MapOf(all)[all[i].key] == all[i].value;
    }
    assert MapOf(all).Keys == m.Keys;
  }

  /** Storing the pairs the buckets list, in listing order, rebuilds the
      mapping they represent, and there are as many pairs as keys. */
  lemma RepresentsListed<V>(s: seq<seq<Entry<V>>>, m: map<Key, V>)
    requires Represents(s, m)
    ensures |Flatten(s)| == |m| && MapOf(Flatten(s)) == m
  {
    RepresentsPairs(s, m);
    MapOfRebuilds(Flatten(s), m);
  }
}
