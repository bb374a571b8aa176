/**
The key space of a cluster node: the keys with their values, their expire times, and the index of
keys by hash slot, which is a sequence sorted by slot and then by key.
*/
module KeySpace {

  type Key = string

  datatype Entry = Entry(slot: nat, key: Key)

  // ---- The slot index ----

  // memcmp order on keys, as far as it matters: a strict total order.
  ghost predicate IsOrder(less: (Key, Key) -> bool)
  {
    && (forall a :: !less(a, a))
    && (forall a, b :: a != b ==> less(a, b) || less(b, a))
    && (forall a, b, c {:trigger less(a, b), less(b, c)} :: less(a, b) && less(b, c) ==> less(a, c))
  }

  predicate Before(less: (Key, Key) -> bool, x: Entry, y: Entry)
  {
    x.slot < y.slot || (x.slot == y.slot && less(x.key, y.key))
  }

  ghost predicate Sorted(less: (Key, Key) -> bool, index: seq<Entry>)
  {
    forall i, j :: 0 <= i < j < |index| ==> Before(less, index[i], index[j])
  }

  // The index lists each key once, under its slot.
  ghost predicate Indexes(index: seq<Entry>, keys: set<Key>, slotOf: Key -> nat)
  {
    && (forall i :: 0 <= i < |index| ==> index[i].key in keys && index[i].slot == slotOf(index[i].key))
    && (forall k :: k in keys ==> Entry(slotOf(k), k) in index)
  }

  // How many entries come before x: where zslInsert puts it, and one less than the rank zslGetRank gives it.
  function Place(less: (Key, Key) -> bool, index: seq<Entry>, x: Entry): (p: nat)
    ensures p <= |index|
    ensures forall i :: 0 <= i < p ==> Before(less, index[i], x)
    ensures p < |index| ==> !Before(less, index[p], x)
  {
    if index == [] || !Before(less, index[0], x) then 0 else 1 + Place(less, index[1..], x)
  }

  function Insert(less: (Key, Key) -> bool, index: seq<Entry>, x: Entry): seq<Entry>
  {
    var p := Place(less, index, x);
    index[..p] + [x] + index[p..]
  }

  function Remove(index: seq<Entry>, x: Entry): seq<Entry>
  {
    if index == [] then [] else if index[0] == x then index[1..] else [index[0]] + Remove(index[1..], x)
  }

  lemma InsertSorted(less: (Key, Key) -> bool, index: seq<Entry>, x: Entry)
    requires IsOrder(less) && Sorted(less, index) && x !in index
    ensures Sorted(less, Insert(less, index, x))
  {
    var p := Place(less, index, x);
    forall j | p <= j < |index|
      ensures Before(less, x, index[j])
    {
      assert index[j] in index;
      assert !Before(less, index[p], x) && index[p] in index;
      assert Before(less, x, index[p]) by { Total(less, x, index[p]); }
      if p < j {
        Transitive(less, x, index[p], index[j]);
      }
    }
  }

  lemma Total(less: (Key, Key) -> bool, x: Entry, y: Entry)
    requires IsOrder(less) && x != y
    ensures Before(less, x, y) || Before(less, y, x)
  {
  }

  lemma Transitive(less: (Key, Key) -> bool, x: Entry, y: Entry, z: Entry)
    requires IsOrder(less) && Before(less, x, y) && Before(less, y, z)
    ensures Before(less, x, z)
  {
  }

  lemma InsertLists(less: (Key, Key) -> bool, index: seq<Entry>, x: Entry, y: Entry)
    ensures y in Insert(less, index, x) <==> y == x || y in index
  {
    var p := Place(less, index, x);
    assert index == index[..p] + index[p..];
  }

  lemma InsertIndexes(less: (Key, Key) -> bool, index: seq<Entry>, keys: set<Key>, slotOf: Key -> nat, k: Key)
    requires Indexes(index, keys, slotOf) && k !in keys
    ensures Entry(slotOf(k), k) !in index
    ensures Indexes(Insert(less, index, Entry(slotOf(k), k)), keys + {k}, slotOf)
  {
    var x := Entry(slotOf(k), k);
    var r := Insert(less, index, x);
    forall i | 0 <= i < |r|
      ensures r[i].key in keys + {k} && r[i].slot == slotOf(r[i].key)
    {
      InsertLists(less, index, x, r[i]);
    }
    forall j | j in keys + {k}
      ensures Entry(slotOf(j), j) in r
    {
      InsertLists(less, index, x, Entry(slotOf(j), j));
    }
  }

  lemma {:induction false} RemoveIs(index: seq<Entry>, p: nat)
    requires p < |index| && forall i :: 0 <= i < p ==> index[i] != index[p]
    ensures Remove(index, index[p]) == index[..p] + index[p + 1..]
  {
    if p > 0 {
      RemoveIs(index[1..], p - 1);
    }
  }

  function Without(index: seq<Entry>, p: nat): seq<Entry>
    requires p < |index|
  {
    index[..p] + index[p + 1..]
  }

  lemma WithoutSorted(less: (Key, Key) -> bool, index: seq<Entry>, p: nat)
    requires Sorted(less, index) && p < |index|
    ensures Sorted(less, Without(index, p))
  {
  }

  // No two entries of the index have the same key.
  lemma KeysDiffer(less: (Key, Key) -> bool, index: seq<Entry>, keys: set<Key>, slotOf: Key -> nat, p: nat, i: nat)
    requires IsOrder(less) && Sorted(less, index) && Indexes(index, keys, slotOf)
    requires p < |index| && i < |index| && i != p
    ensures index[i].key != index[p].key
  {
    assert if i < p then Before(less, index[i], index[p]) else Before(less, index[p], index[i]);
  }

  lemma WithoutIndexes(less: (Key, Key) -> bool, index: seq<Entry>, keys: set<Key>, slotOf: Key -> nat, p: nat)
    requires IsOrder(less) && Sorted(less, index) && Indexes(index, keys, slotOf) && p < |index|
    ensures Indexes(Without(index, p), keys - {index[p].key}, slotOf)
  {
    var r := Without(index, p);
    forall i | 0 <= i < |r|
      ensures r[i].key in keys - {index[p].key} && r[i].slot == slotOf(r[i].key)
    {
      KeysDiffer(less, index, keys, slotOf, p, if i < p then i else i + 1);
    }
    forall k | k in keys - {index[p].key}
      ensures Entry(slotOf(k), k) in r
    {
      StillListed(index, p, Entry(slotOf(k), k));
    }
  }

  lemma StillListed(index: seq<Entry>, p: nat, x: Entry)
    requires p < |index| && x in index && x != index[p]
    ensures x in Without(index, p)
  {
    assert index == index[..p] + [index[p]] + index[p + 1..];
  }

  // Where a key is in the index.
  lemma KeyPlace(less: (Key, Key) -> bool, index: seq<Entry>, keys: set<Key>, slotOf: Key -> nat, k: Key)
    returns (p: nat)
    requires IsOrder(less) && Sorted(less, index) && Indexes(index, keys, slotOf) && k in keys
    ensures p < |index| && index[p] == Entry(slotOf(k), k)
    ensures forall i :: 0 <= i < |index| && i != p ==> index[i] != index[p]
  {
    p :| 0 <= p < |index| && index[p] == Entry(slotOf(k), k);
    forall i | 0 <= i < |index| && i != p
      ensures index[i] != index[p]
    {
      assert if i < p then Before(less, index[i], index[p]) else Before(less, index[p], index[i]);
    }
  }

  lemma RemoveKey(less: (Key, Key) -> bool, index: seq<Entry>, keys: set<Key>, slotOf: Key -> nat, k: Key)
    requires IsOrder(less) && Sorted(less, index) && Indexes(index, keys, slotOf) && k in keys
    ensures var r := Remove(index, Entry(slotOf(k), k)); Sorted(less, r) && Indexes(r, keys - {k}, slotOf)
  {
    var p := KeyPlace(less, index, keys, slotOf, k);
    RemoveIs(index, p);
    WithoutSorted(less, index, p);
    WithoutIndexes(less, index, keys, slotOf, p);
  }

  // ---- Keys in a slot ----

  ghost function InSlot(keys: set<Key>, slotOf: Key -> nat, slot: nat): set<Key>
  {
    set k | k in keys && slotOf(k) == slot
  }

  // The entries of one slot stand together: from `first` on, `n` of them.
  ghost predicate Stretch(index: seq<Entry>, slot: nat, first: nat, n: nat)
  {
    && first + n <= |index|
    && forall i :: 0 <= i < |index| ==> (index[i].slot == slot <==> first <= i < first + n)
  }

  // Counting entries counts keys.
  lemma {:induction false} StretchCounts(less: (Key, Key) -> bool, index: seq<Entry>, keys: set<Key>,
                                         slotOf: Key -> nat, slot: nat, first: nat, n: nat)
    requires IsOrder(less) && Sorted(less, index) && Indexes(index, keys, slotOf) && Stretch(index, slot, first, n)
    ensures |InSlot(keys, slotOf, slot)| == n
    decreases n
  {
    if n == 0 {
      forall k | k in keys
        ensures slotOf(k) != slot
      {
        assert Entry(slotOf(k), k) in index;
      }
      assert InSlot(keys, slotOf, slot) == {};
    } else {
      var k := index[first].key;
      WithoutSorted(less, index, first);
      WithoutIndexes(less, index, keys, slotOf, first);
      StretchShrinks(index, slot, first, n);
      StretchCounts(less, Without(index, first), keys - {k}, slotOf, slot, first, n - 1);
      SlotLoses(keys, slotOf, slot, k);
    }
  }

  lemma SlotLoses(keys: set<Key>, slotOf: Key -> nat, slot: nat, k: Key)
    requires k in keys && slotOf(k) == slot
    ensures |InSlot(keys, slotOf, slot)| == |InSlot(keys - {k}, slotOf, slot)| + 1
  {
    assert InSlot(keys, slotOf, slot) == InSlot(keys - {k}, slotOf, slot) + {k};
  }

  // ---- The database ----

  // The clock and the state of the server as expiry sees them.
  datatype Env = Env(now: int, loading: bool, isSlave: bool)

  predicate Due(expires: map<Key, int>, key: Key, env: Env)
  {
    key in expires && expires[key] >= 0 && !env.loading && env.now > expires[key]
  }

  // Only a master deletes what is due.
  predicate Reaped(expires: map<Key, int>, key: Key, env: Env) { Due(expires, key, env) && !env.isSlave }

  function After<T>(m: map<Key, T>, expires: map<Key, int>, key: Key, env: Env): map<Key, T>
  {
    if Reaped(expires, key, env) then m - {key} else m
  }

  lemma KeysWithout<T>(m: map<Key, T>, key: Key)
    ensures (m - {key}).Keys == m.Keys - {key}
  {
  }

  lemma RemoveAbsent<T>(m: map<Key, T>, key: Key)
    requires key !in m
    ensures m - {key} == m
  {
  }

  lemma RemoveFromEmpty<T>(m: map<Key, T>, key: Key)
    requires |m| == 0
    ensures m - {key} == m
  {
    assert m.Keys == {};
  }

  // Whether or not the old value was due, storing or removing a key leaves nothing of it.
  lemma AfterThenSet<T>(m: map<Key, T>, expires: map<Key, int>, key: Key, env: Env, val: T)
    ensures After(m, expires, key, env)[key := val] == m[key := val]
    ensures After(m, expires, key, env) - {key} == m - {key}
  {
  }

  // What renaming comes to, whether or not the new name was there.
  lemma RenameValue<T>(m: map<Key, T>, src: Key, dst: Key, val: T)
    requires src != dst
    ensures (m - {dst})[dst := val] - {src} == m[dst := val] - {src}
  {
  }

  datatype Renamed = SameObject | NoKey | Zero | Ok

  class Db<V(==)> {
    var dict: map<Key, V>
    var expires: map<Key, int>
    var index: seq<Entry>
    const slotOf: Key -> nat
    const less: (Key, Key) -> bool

    // Only keys that exist expire, and the index holds precisely the keys that exist, under their slots.
    ghost predicate Valid()
      reads this
    {
      IsOrder(less) && expires.Keys <= dict.Keys && Sorted(less, index) && Indexes(index, dict.Keys, slotOf)
    }

    constructor (slotOf: Key -> nat, less: (Key, Key) -> bool)
      requires IsOrder(less)
      ensures Valid() && dict == map[] && expires == map[] && this.slotOf == slotOf && this.less == less
    {
      this.slotOf, this.less := slotOf, less;
      dict, expires, index := map[], map[], [];
    }

    method Add(key: Key, val: V)
      requires Valid() && key !in dict
      modifies this
      ensures Valid() && dict == old(dict)[key := val] && expires == old(expires)
    {
      InsertIndexes(less, index, dict.Keys, slotOf, key);
      InsertSorted(less, index, Entry(slotOf(key), key));
      assert dict[key := val].Keys == dict.Keys + {key};
      dict := dict[key := val];
      index := Insert(less, index, Entry(slotOf(key), key));
    }

    method Overwrite(key: Key, val: V)
      requires Valid() && key in dict
      modifies this`dict
      ensures Valid() && dict == old(dict)[key := val]
    {
      assert dict[key := val].Keys == dict.Keys;
      dict := dict[key := val];
    }

    method Delete(key: Key) returns (deleted: bool)
      requires Valid()
      modifies this
      ensures Valid() && (deleted <==> key in old(dict))
      ensures dict == old(dict) - {key} && expires == old(expires) - {key}
      ensures deleted ==> index == Remove(old(index), Entry(slotOf(key), key))
      ensures !deleted ==> index == old(index)
    {
      if |expires| > 0 { expires := expires - {key}; } else { RemoveFromEmpty(expires, key); }
      if key in dict {
        Unlink(key);
        return true;
      }
      RemoveAbsent(dict, key);
      return false;
    }

    // The main dict and the index lose the key together.
    method Unlink(key: Key)
      requires Valid() && key in dict && key !in expires
      modifies this`dict, this`index
      ensures Valid() && dict == old(dict) - {key} && index == Remove(old(index), Entry(slotOf(key), key))
    {
      RemoveKey(less, index, dict.Keys, slotOf, key);
      KeysWithout(dict, key);
      dict := dict - {key};
      index := Remove(index, Entry(slotOf(key), key));
    }

    method RemoveExpire(key: Key) returns (removed: bool)
      requires Valid() && key in dict
      modifies this`expires
      ensures Valid() && expires == old(expires) - {key} && (removed <==> key in old(expires))
    {
      removed := key in expires;
      expires := expires - {key};
    }

    method SetExpire(key: Key, when: int)
      requires Valid() && key in dict
      modifies this`expires
      ensures Valid() && expires == old(expires)[key := when]
    {
      expires := expires[key := when];
    }

    // A key with an expire time is in the main dict: the assertion of getExpire cannot fail.
    method GetExpire(key: Key) returns (when: int)
      requires Valid()
      ensures when == if key in expires then expires[key] else -1
    {
      if |expires| == 0 || key !in expires { return -1; }
      assert key in dict;
      return expires[key];
    }

    method ExpireIfNeeded(key: Key, env: Env) returns (expired: bool)
      requires Valid()
      modifies this
      ensures Valid() && (expired <==> Due(old(expires), key, env))
      ensures dict == After(old(dict), old(expires), key, env) && expires == After(old(expires), old(expires), key, env)
    {
      var when := GetExpire(key);
      if when < 0 { return false; }
      if env.loading { return false; }
      if env.isSlave { return env.now > when; }
      if env.now <= when { return false; }
      expired := Delete(key);
    }

    // setKey: whatever was there before, the key has the value and no expire time.
    method SetKey(key: Key, val: V, env: Env)
      requires Valid()
      modifies this
      ensures Valid() && dict == old(dict)[key := val] && expires == old(expires) - {key}
    {
      AfterThenSet(dict, expires, key, env, val);
      AfterThenSet(expires, expires, key, env, 0);
      var _ := ExpireIfNeeded(key, env);
      if key !in dict {
        Add(key, val);
      } else {
        Overwrite(key, val);
      }
      var _ := RemoveExpire(key);
    }

    // The new name replaces what was there and takes over the expire time, and the old name goes.
    method Move(src: Key, dst: Key, o: V, expire: int)
      requires Valid() && src != dst && src in dict
      modifies this
      ensures Valid() && dict == old(dict)[dst := o] - {src}
      ensures expires == (if expire != -1 then old(expires)[dst := expire] else old(expires) - {dst}) - {src}
    {
      RenameValue(dict, src, dst, o);
      RenameValue(expires, src, dst, expire);
      if dst in dict {
        var _ := Delete(dst);
      } else {
        RemoveAbsent(dict, dst);
        RemoveAbsent(expires, dst);
      }
      Add(dst, o);
      if expire != -1 { SetExpire(dst, expire); }
      var _ := Delete(src);
    }

    /* renameGenericCommand: the value and the expire time move to the new name, whose own are lost;
       unless the new name exists and must not. */
    method Rename(src: Key, dst: Key, nx: bool, env: Env) returns (r: Renamed)
      requires Valid()
      modifies this
      ensures Valid()
      ensures r == SameObject <==> src == dst
      ensures r == SameObject ==> dict == old(dict) && expires == old(expires)
      ensures src != dst ==>
                var d1, e1 := After(old(dict), old(expires), src, env), After(old(expires), old(expires), src, env);
                var d2, e2 := After(d1, e1, dst, env), After(e1, e1, dst, env);
                if src !in d1 then r == NoKey && dict == d1 && expires == e1
                else if nx && dst in d2 then r == Zero && dict == d2 && expires == e2
                else r == Ok && dict == d2[dst := d1[src]] - {src}
                     && expires == (if src in e1 && e1[src] != -1 then e2[dst := e1[src]] else e2 - {dst}) - {src}
    {
      if src == dst { return SameObject; }
      var _ := ExpireIfNeeded(src, env);
      if src !in dict { return NoKey; }
      var o := dict[src];
      var expire := GetExpire(src);
      var _ := ExpireIfNeeded(dst, env);
      if nx && dst in dict { return Zero; }
      Move(src, dst, o, expire);
      r := Ok;
    }

    // zslFirstInRange and zslLastInRange, for a range of one score; -1 stands for no node.
    method FirstInRange(slot: nat) returns (i: int)
      ensures -1 <= i < |index|
      ensures i == -1 ==> forall k :: 0 <= k < |index| ==> index[k].slot != slot
      ensures i != -1 ==> index[i].slot == slot && forall k :: 0 <= k < i ==> index[k].slot != slot
    {
      i := 0;
      while i < |index|
        invariant 0 <= i <= |index| && forall k :: 0 <= k < i ==> index[k].slot != slot
      {
        if index[i].slot == slot { return; }
        i := i + 1;
      }
      i := -1;
    }

    method LastInRange(slot: nat) returns (i: int)
      ensures -1 <= i < |index|
      ensures i == -1 ==> forall k :: 0 <= k < |index| ==> index[k].slot != slot
      ensures i != -1 ==> index[i].slot == slot && forall k :: i < k < |index| ==> index[k].slot != slot
    {
      i := |index| - 1;
      while i >= 0
        invariant -1 <= i < |index| && forall k :: i < k < |index| ==> index[k].slot != slot
      {
        if index[i].slot == slot { return; }
        i := i - 1;
      }
    }

    // The ranks of the first and last entries of a slot give the number of its keys.
    method CountKeysInSlot(slot: nat) returns (count: int)
      requires Valid()
      ensures count == |InSlot(dict.Keys, slotOf, slot)|
    {
      count := 0;
      var zn := FirstInRange(slot);
      if zn == -1 {
        StretchCounts(less, index, dict.Keys, slotOf, slot, 0, 0);
        return;
      }
      ghost var first := zn;
      var rank := zn + 1;
      count := |index| - (rank - 1);
      zn := LastInRange(slot);
      if zn != -1 {
        rank := zn + 1;
        count := count - (|index| - rank);
      }
      Together(less, index, slot, first, zn);
      StretchCounts(less, index, dict.Keys, slotOf, slot, first, zn - first + 1);
    }

    // The node at n goes, and the next one takes its place.
    method DelNode(n: nat, slot: nat, ghost left: nat) returns (key: Key)
      requires Valid() && Stretch(index, slot, n, left) && n < |index| && index[n].slot == slot
      modifies this
      ensures Valid() && left > 0 && Stretch(index, slot, n, left - 1)
      ensures key in old(dict) && slotOf(key) == slot && dict == old(dict) - {key} && expires == old(expires) - {key}
    {
      key := index[n].key;
      RemoveFirst(less, index, dict.Keys, slotOf, n);
      StretchShrinks(index, slot, n, left);
      var _ := Delete(key);
    }

    method DelStretch(n: nat, slot: nat, ghost count: nat) returns (j: nat)
      requires Valid() && Stretch(index, slot, n, count)
      modifies this
      ensures Valid() && j == |InSlot(old(dict).Keys, slotOf, slot)|
      ensures dict == old(dict) - InSlot(old(dict).Keys, slotOf, slot)
      ensures expires == old(expires) - InSlot(old(dict).Keys, slotOf, slot)
    {
      j := 0;
      ghost var gone, left, all := {}, count, InSlot(dict.Keys, slotOf, slot);
      RemoveNothing(dict, {});
      RemoveNothing(expires, {});
      while n < |index| && index[n].slot == slot
        invariant Valid() && Stretch(index, slot, n, left) && |gone| == j
        invariant dict == old(dict) - gone && expires == old(expires) - gone
        invariant gone + InSlot(dict.Keys, slotOf, slot) == all
        decreases left
      {
        ghost var keys := dict.Keys;
        var key := DelNode(n, slot, left);
        GoneGrows(keys, gone, slotOf, slot, key, all);
        NextGone(old(dict), gone, key);
        NextGone(old(expires), gone, key);
        assert dict.Keys == keys - {key};
        gone := gone + {key};
        left := left - 1;
        j := j + 1;
      }
      StretchCounts(less, index, dict.Keys, slotOf, slot, n, left);
      assert InSlot(dict.Keys, slotOf, slot) == {};
    }

    // Removes the keys of a slot and no others, and returns how many they were.
    method DelKeysInSlot(slot: nat) returns (j: nat)
      requires Valid()
      modifies this
      ensures Valid() && j == |InSlot(old(dict).Keys, slotOf, slot)|
      ensures dict == old(dict) - InSlot(old(dict).Keys, slotOf, slot)
      ensures expires == old(expires) - InSlot(old(dict).Keys, slotOf, slot)
    {
      var n := FirstInRange(slot);
      if n == -1 {
        StretchCounts(less, index, dict.Keys, slotOf, slot, 0, 0);
        RemoveNothing(dict, InSlot(dict.Keys, slotOf, slot));
        RemoveNothing(expires, InSlot(dict.Keys, slotOf, slot));
        return 0;
      }
      ghost var count := Stretches(less, index, slot, n);
      j := DelStretch(n, slot, count);
    }
  }

  lemma Together(less: (Key, Key) -> bool, index: seq<Entry>, slot: nat, first: int, last: int)
    requires Sorted(less, index) && 0 <= first < |index| && index[first].slot == slot
    requires 0 <= last < |index| && index[last].slot == slot
    requires forall k :: 0 <= k < first ==> index[k].slot != slot
    requires forall k :: last < k < |index| ==> index[k].slot != slot
    ensures first <= last && Stretch(index, slot, first, last - first + 1)
  {
    forall i | first < i < last
      ensures index[i].slot == slot
    {
      assert Before(less, index[first], index[i]) && Before(less, index[i], index[last]);
    }
  }

  lemma Stretches(less: (Key, Key) -> bool, index: seq<Entry>, slot: nat, first: int) returns (n: nat)
    requires Sorted(less, index) && 0 <= first < |index| && index[first].slot == slot
    requires forall k :: 0 <= k < first ==> index[k].slot != slot
    ensures Stretch(index, slot, first, n)
  {
    var last := |index| - 1;
    while index[last].slot != slot
      invariant first <= last < |index| && forall k :: last < k < |index| ==> index[k].slot != slot
      decreases last
    {
      last := last - 1;
    }
    Together(less, index, slot, first, last);
    n := last - first + 1;
  }

  lemma RemoveFirst(less: (Key, Key) -> bool, index: seq<Entry>, keys: set<Key>, slotOf: Key -> nat, p: nat)
    requires IsOrder(less) && Sorted(less, index) && Indexes(index, keys, slotOf) && p < |index|
    ensures index[p] == Entry(slotOf(index[p].key), index[p].key) && Remove(index, index[p]) == Without(index, p)
  {
    forall i | 0 <= i < p
      ensures index[i] != index[p]
    {
      KeysDiffer(less, index, keys, slotOf, p, i);
    }
    RemoveIs(index, p);
  }

  lemma StretchShrinks(index: seq<Entry>, slot: nat, first: nat, n: nat)
    requires Stretch(index, slot, first, n) && first < |index| && index[first].slot == slot
    ensures n > 0 && Stretch(Without(index, first), slot, first, n - 1)
  {
  }

  lemma GoneGrows(keys: set<Key>, gone: set<Key>, slotOf: Key -> nat, slot: nat, key: Key, all: set<Key>)
    requires gone + InSlot(keys, slotOf, slot) == all && key in keys && slotOf(key) == slot
    ensures (gone + {key}) + InSlot(keys - {key}, slotOf, slot) == all
  {
  }

  lemma RemoveNothing<T>(m: map<Key, T>, none: set<Key>)
    requires |none| == 0
    ensures m - none == m
  {
    assert none == {};
  }

  lemma NextGone<T>(m: map<Key, T>, gone: set<Key>, key: Key)
    ensures m - gone - {key} == m - (gone + {key})
  {
  }
}
