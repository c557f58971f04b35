/** The hash table with separate chaining: an array of buckets, each the chain
    of `[key, value]` pairs whose keys hash to that slot, a counted length,
    and a capacity that doubles once the load factor passes 0.75. A bucket
    chain is modelled by the sequence of its pairs, an empty sequence standing
    for the `None` of an unused slot; the chain's own linking code is the one
    modelled in the singly linked chain. What the buckets mean, and what each
    change of one bucket does to that meaning, is stated in `HashBuckets`. */
module HashTables {
  import opened Errors
  import opened ListIndex
  import opened HashBuckets

  class HashTable<V(==)> {
    /** The slots; `len(slots)` is the capacity. */
    var slots: array<seq<Entry<V>>>
    var length: int
    /** The key-to-value mapping the table stands for. */
    ghost var Contents: map<Key, V>

    /** The slots represent `Contents` and `length` counts their pairs. */
    ghost predicate Valid()
      reads this, slots
    {
      Represents(slots[..], Contents) && length == |Flatten(slots[..])|
    }

    /** The load factor is at most 0.75. */
    predicate LoadBounded()
      reads this
    {
      4 * length <= 3 * slots.Length
    }

    /** `_get_load_factor() > max_load_factor`, in exact arithmetic:
        `length / capacity > 0.75`. */
    predicate LoadFactorExceeded()
      reads this
      requires slots.Length > 0
    {
      4 * length > 3 * slots.Length
    }

    /** `HashTable(capacity)`: `capacity` empty slots, none for a negative
        capacity. */
    constructor (capacity: int)
      ensures Valid() && LoadBounded() && fresh(slots)
      ensures slots.Length == (if capacity < 0 then 0 else capacity)
      ensures Contents == map[] && length == 0
    {
      slots := new seq<Entry<V>>[if capacity < 0 then 0 else capacity](_ => []);
      length := 0;
      Contents := map[];
      new;
      RepresentsEmpty<V>(slots.Length);
      assert slots[..] == seq(slots.Length, _ => []);
    }

    /** `_hash`: the key's sum reduced modulo the capacity, or
        `ZeroDivisionError` when there are no slots. */
    method Hash(key: Key) returns (r: Result<int>)
      ensures r.Err? <==> slots.Length == 0
      ensures r.Err? ==> r.error == ZeroDivisionError
      ensures r.Ok? ==> r.value == Bucket(key, slots.Length)
    {
      var c := if key.Str? then 53 else 47;
      var text := KeyText(key);
      var hashValue := 0;
      for i := 0 to |text|
        invariant hashValue == HashPrefix(text, c, i)
      {
        hashValue := hashValue + Abs(c - text[i] as int) * Pow(c, 5 - i % 5);
      }
      if slots.Length == 0 {
        return Err(ZeroDivisionError);
      }
      return Ok(hashValue % slots.Length);
    }

    /** `len`: the number of pairs, which is the number of keys. */
    method Length() returns (n: int)
      requires Valid()
      ensures n == |Contents|
    {
      RepresentsListed(slots[..], Contents);
      return length;
    }

    /** A walk along one chain for `key`: the position of its pair, or
        nothing when the chain has no such key. */
    static method Scan(bucket: seq<Entry<V>>, key: Key) returns (i: Option<nat>)
      ensures i.None? <==> key !in KeysOf(bucket)
      ensures i.Some? ==> i.value < |bucket| && bucket[i.value].key == key
    {
      for j := 0 to |bucket|
        invariant key !in KeysOf(bucket[..j])
      {
        if bucket[j].key == key {
          return Some(j);
        }
        assert KeysOf(bucket[..j + 1]) == KeysOf(bucket[..j]) + [bucket[j].key];
      }
      assert bucket[..|bucket|] == bucket;
      return None;
    }

    /** `get`: the stored value, `None` standing for `default` when the key is
        absent, or `ZeroDivisionError` when there are no slots. */
    method Get(key: Key) returns (r: Result<Option<V>>)
      requires Valid()
      ensures r.Err? <==> slots.Length == 0
      ensures r.Err? ==> r.error == ZeroDivisionError
      ensures r.Ok? ==> r.value == Stored(Contents, key)
    {
      var h := Hash(key);
      if h.Err? {
        return Err(h.error);
      }
      var bucket := slots[h.value];
      RepresentsFind(slots[..], Contents, key);
      var i := Scan(bucket, key);
      if i.Some? {
        return Ok(Some(bucket[i.value].value));
      }
      return Ok(None);
    }

    /** The pairs as `__iter__` visits them: slot by slot, each chain from its
        first node. */
    method Items() returns (items: seq<Entry<V>>)
      ensures items == Flatten(slots[..])
    {
      items := [];
      for b := 0 to slots.Length
        invariant items == Flatten(slots[..b])
      {
        var bucket := slots[b];
        for j := 0 to |bucket|
          invariant items == Flatten(slots[..b]) + bucket[..j]
        {
          items := items + [bucket[j]];
        }
        assert slots[..b + 1][..b] == slots[..b];
      }
      assert slots[..slots.Length] == slots[..];
    }

    /** `keys`: every key once, in iteration order. */
    method Keys() returns (keys: seq<Key>)
      requires Valid()
      ensures keys == KeysOf(Flatten(slots[..]))
      ensures |keys| == length && forall k :: k in keys <==> k in Contents
      ensures forall i, j :: 0 <= i < j < |keys| ==> keys[i] != keys[j]
    {
      var items := Items();
      RepresentsPairs(slots[..], Contents);
      keys := KeysOf(items);
    }

    /** `values`: the value of each key, in iteration order. */
    method Values() returns (values: seq<V>)
      requires Valid()
      ensures |values| == length
      ensures forall i :: 0 <= i < |values| ==>
        Flatten(slots[..])[i].key in Contents && values[i] == Contents[Flatten(slots[..])[i].key]
    {
      var items := Items();
      RepresentsPairs(slots[..], Contents);
      values := seq(|items|, i requires 0 <= i < |items| => items[i].value);
    }

    /** `__contains__`: whether the key is among `keys()`. */
    method Contains(key: Key) returns (found: bool)
      requires Valid()
      ensures found <==> key in Contents
    {
      var keys := Keys();
      found := key in keys;
    }

    /** `__getitem__`: the value, or `KeyError` for an absent key. */
    method GetItem(key: Key) returns (r: Result<V>)
      requires Valid()
      ensures r.Ok? <==> key in Contents
      ensures r.Ok? ==> r.value == Contents[key]
      ensures r.Err? ==> r.error == KeyError
    {
      var present := Contains(key);
      if !present {
        return Err(KeyError);
      }
      var value := Get(key);
      return Ok(value.value.value);
    }

    /** The new-key branch shared by `add` and `__setitem__`: the pair goes in
        front of its slot's chain and the length grows by one. */
    method InsertNew(key: Key, value: V, h: int)
      requires Valid() && slots.Length > 0 && h == Bucket(key, slots.Length)
      requires key !in Contents
      modifies this, slots
      ensures Valid() && slots == old(slots)
      ensures slots[h] == [Entry(key, value)] + old(slots[h])
      ensures Contents == old(Contents)[key := value] && length == old(length) + 1
    {
      ghost var s := slots[..];
      RepresentsInsert(s, Contents, key, value);
      slots[h] := [Entry(key, value)] + slots[h];
      assert slots[..] == s[h := [Entry(key, value)] + s[h]];
      length := length + 1;
      Contents := Contents[key := value];
    }

    /** The filling loop of `_increase_capacity`: a new table of `capacity`
        slots receives the pairs one by one in the given order. Its `add`
        never meets a key twice and never resizes, since it ends at most
        three-quarters full. */
    static method Rehash(items: seq<Entry<V>>, capacity: int) returns (temp: HashTable<V>)
      requires capacity > 0 && 4 * |items| <= 3 * capacity && DistinctKeys(items)
      ensures fresh(temp) && fresh(temp.slots) && temp.Valid() && temp.LoadBounded()
      ensures temp.slots.Length == capacity
      ensures temp.Contents == MapOf(items) && temp.length == |items|
    {
      temp := new HashTable<V>(capacity);
      for i := 0 to |items|
        invariant fresh(temp) && fresh(temp.slots) && temp.Valid()
        invariant temp.slots.Length == capacity
        invariant temp.length == i
        invariant temp.Contents == MapOf(items[..i])
      {
        var e := items[i];
        MapOfKeys(items[..i], e.key);
        var h := temp.Hash(e.key);
        temp.InsertNew(e.key, e.value, h.value);
        MapOfNext(items, i);
        assert !temp.LoadFactorExceeded();
      }
      assert items[..|items|] == items;
    }

    /** `_increase_capacity`: a table of twice the capacity receives every
        pair in iteration order, and its slots replace this one's; the
        mapping and the length stay the same. */
    method IncreaseCapacity()
      requires Valid() && slots.Length > 0 && 2 * length <= 3 * slots.Length
      modifies this
      ensures Valid() && LoadBounded() && fresh(slots)
      ensures slots.Length == 2 * old(slots.Length)
      ensures Contents == old(Contents) && length == old(length)
    {
      var items := Items();
      RepresentsPairs(slots[..], Contents);
      RepresentsListed(slots[..], Contents);
      var temp := Rehash(items, 2 * slots.Length);
      slots := temp.slots;
    }

    /** `add`: `ZeroDivisionError` with no slots, `KeyError` with nothing
        changed when the key is present; otherwise the pair joins its chain,
        the length grows by one and the capacity doubles if the load factor
        now passes 0.75. */
    method Add(key: Key, value: V) returns (r: Result<()>)
      requires Valid() && LoadBounded()
      modifies this, slots
      ensures Valid() && LoadBounded()
      ensures slots == old(slots) || (fresh(slots) && slots.Length == 2 * old(slots.Length))
      ensures r.Err? <==> old(slots.Length) == 0 || key in old(Contents)
      ensures r.Err? ==> r.error == (if old(slots.Length) == 0 then ZeroDivisionError else KeyError)
      ensures r.Err? ==> Contents == old(Contents) && length == old(length) && slots == old(slots)
      ensures r.Ok? ==> Contents == old(Contents)[key := value] && length == old(length) + 1
      ensures r.Ok? ==> (slots == old(slots) <==> 4 * length <= 3 * old(slots.Length))
    {
      var h := Hash(key);
      if h.Err? {
        return Err(h.error);
      }
      RepresentsFind(slots[..], Contents, key);
      var i := Scan(slots[h.value], key);
      if i.Some? {
        return Err(KeyError);
      }
      InsertNew(key, value, h.value);
      if LoadFactorExceeded() {
        IncreaseCapacity();
      }
      return Ok(());
    }

    /** `__setitem__`: `ZeroDivisionError` with no slots; a present key gets
        its value overwritten in place, with the same length and no resize; a
        new key is added as by `add`. */
    method SetItem(key: Key, value: V) returns (r: Result<()>)
      requires Valid() && LoadBounded()
      modifies this, slots
      ensures Valid() && LoadBounded()
      ensures slots == old(slots) || (fresh(slots) && slots.Length == 2 * old(slots.Length))
      ensures r.Err? <==> old(slots.Length) == 0
      ensures r.Err? ==> r.error == ZeroDivisionError && Contents == old(Contents) && length == old(length)
      ensures r.Ok? ==> Contents == old(Contents)[key := value]
      ensures r.Ok? ==> length == old(length) + (if key in old(Contents) then 0 else 1)
      ensures key in old(Contents) ==> slots == old(slots)
      ensures r.Ok? ==> (slots == old(slots) <==> 4 * length <= 3 * old(slots.Length))
    {
      var h := Hash(key);
      if h.Err? {
        return Err(h.error);
      }
      RepresentsFind(slots[..], Contents, key);
      var i := Scan(slots[h.value], key);
      if i.Some? {
        var j := i.value;
        ghost var s := slots[..];
        RepresentsOverwrite(s, Contents, key, j, value);
        slots[h.value] := slots[h.value][j := Entry(key, value)];
        assert slots[..] == s[h.value := s[h.value][j := Entry(key, value)]];
        Contents := Contents[key := value];
        return Ok(());
      }
      InsertNew(key, value, h.value);
      if LoadFactorExceeded() {
        IncreaseCapacity();
      }
      return Ok(());
    }

    /** `pop`: `ZeroDivisionError` with no slots, `KeyError` with nothing
        changed for an absent key; otherwise the key's value, with its pair
        taken out of the chain, the slot left unused when the chain empties,
        and the length one smaller. */
    method Pop(key: Key) returns (r: Result<V>)
      requires Valid() && LoadBounded()
      modifies slots, this
      ensures Valid() && LoadBounded() && slots == old(slots)
      ensures r.Err? <==> old(slots.Length) == 0 || key !in old(Contents)
      ensures r.Err? ==> r.error == (if old(slots.Length) == 0 then ZeroDivisionError else KeyError)
      ensures r.Err? ==> Contents == old(Contents) && length == old(length)
      ensures r.Ok? ==> r.value == old(Contents[key])
      ensures r.Ok? ==> Contents == old(Contents) - {key} && length == old(length) - 1
    {
      var h := Hash(key);
      if h.Err? {
        return Err(h.error);
      }
      RepresentsFind(slots[..], Contents, key);
      var i := Scan(slots[h.value], key);
      if i.None? {
        return Err(KeyError);
      }
      var j := i.value;
      ghost var s := slots[..];
      RepresentsRemove(s, Contents, key, j);
      var value := slots[h.value][j].value;
      slots[h.value] := RemoveAt(slots[h.value], j);
      assert slots[..] == s[h.value := RemoveAt(s[h.value], j)];
      length := length - 1;
      Contents := Contents - {key};
      return Ok(value);
    }

    /** `pop` as written: after the pair leaves its chain, the emptied-chain
        check reads `first`, an attribute the chain class does not have (it
        keeps `_first`), so every pop of a present key raises
        `AttributeError` and skips the length update: the key is gone but
        `len` still counts it. */
    method PopAsWritten(key: Key) returns (r: Result<V>)
      requires Valid() && LoadBounded()
      modifies slots, this
      ensures slots == old(slots) && length == old(length)
      ensures r.Err?
      ensures r.error == if old(slots.Length) == 0 then ZeroDivisionError
        else if key in old(Contents) then AttributeError else KeyError
      ensures old(slots.Length) > 0 && key in old(Contents) ==>
        |Flatten(slots[..])| == old(length) - 1 != length
    {
      var h := Hash(key);
      if h.Err? {
        return Err(h.error);
      }
      RepresentsFind(slots[..], Contents, key);
      var i := Scan(slots[h.value], key);
      if i.None? {
        return Err(KeyError);
      }
      var j := i.value;
      ghost var s := slots[..];
      RepresentsRemove(s, Contents, key, j);
      slots[h.value] := RemoveAt(slots[h.value], j);
      assert slots[..] == s[h.value := RemoveAt(s[h.value], j)];
      return Err(AttributeError);
    }

    /** `_build_hash_table`: `add` for each pair in order, stopping at the
        first that raises. It runs to the end exactly when there are slots
        (or nothing to add) and the pairs bring only new keys, none twice;
        then the table maps the old keys as before and the new ones as
        given. */
    method BuildFrom(items: seq<Entry<V>>) returns (r: Result<()>)
      requires Valid() && LoadBounded()
      modifies this, slots
      ensures Valid() && LoadBounded()
      ensures slots == old(slots) || fresh(slots)
      ensures r.Ok? <==> (items == [] || old(slots.Length) > 0) && NewKeys(items, old(Contents))
      ensures r.Err? ==> r.error == KeyError || r.error == ZeroDivisionError
      ensures r.Ok? ==> length == old(length) + |items|
      ensures r.Ok? ==> Contents == old(Contents) + MapOf(items)
    {
      ghost var start := Contents;
      for i := 0 to |items|
        invariant Valid() && LoadBounded()
        invariant slots == old(slots) || fresh(slots)
        invariant i == 0 ==> slots == old(slots)
        invariant i > 0 ==> old(slots.Length) > 0 && slots.Length > 0
        invariant NewKeys(items[..i], start)
        invariant length == old(length) + i
        invariant Contents == start + MapOf(items[..i])
      {
        NewKeysNext(items, start, i);
        var added := Add(items[i].key, items[i].value);
        if added.Err? {
          return added;
        }
      }
      assert items[..|items|] == items;
      return Ok(());
    }
  
    /** `HashTable(capacity, iterable)`: the empty table, then
        `_build_hash_table` over the pairs. */
    static method New(capacity: int, items: seq<Entry<V>>) returns (t: HashTable<V>, r: Result<()>)
      ensures fresh(t) && fresh(t.slots) && t.Valid() && t.LoadBounded()
      ensures r.Ok? <==> (items == [] || capacity > 0) && NewKeys(items, map[])
      ensures r.Err? ==> r.error == KeyError || r.error == ZeroDivisionError
      ensures r.Ok? ==> t.Contents == MapOf(items) && t.length == |items|
    {
      t := new HashTable<V>(capacity);
      r := t.BuildFrom(items);
      assert map[] + MapOf(items) == MapOf(items);
    }
  }
}
