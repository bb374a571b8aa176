/**
The hash dictionary of dict.c: an object whose two tables are fields that its methods reassign, bucket arrays
and chains being sequences. Every method keeps the invariant that ties the tables, counters and rehash index to
the finite map `Contents()`.
*/
module HashDict {
  import opened Words
  import opened DictModel

  const DICT_HT_INITIAL_SIZE := 4
  const DICT_FORCE_RESIZE_RATIO := 5
  const LONG_MAX := 0x7FFF_FFFF_FFFF_FFFF

  method ChainSearch<K(==), V>(c: Chain<K, V>, k: K) returns (i: nat)
    ensures i <= |c|
    ensures i < |c| ==> c[i].key == k
    ensures ChainGet(c, k) == if i < |c| then Some(c[i].val) else None
  {
    i := 0;
    assert c[0..] == c;
    while i < |c| && c[i].key != k
      invariant i <= |c|
      invariant ChainGet(c, k) == ChainGet(c[i..], k)
    {
      assert c[i..][1..] == c[i + 1..];
      i := i + 1;
    }
  }

  // _dictNextPower: the least power of two from 4 on that is not below the size, if that is below LONG_MAX.
  method NextPower(size: nat) returns (i: nat, bits: nat)
    ensures size >= LONG_MAX ==> i == LONG_MAX
    ensures size < LONG_MAX ==> bits == NextPowerBits(size, 2) && i == Pow2(bits) && bits < WORD_BITS
  {
    if size >= LONG_MAX { return LONG_MAX, 0; }
    i, bits := DICT_HT_INITIAL_SIZE, 2;
    while i < size
      invariant i == Pow2(bits) && bits >= 2 && NextPowerBits(size, 2) == NextPowerBits(size, bits)
      invariant i < 2 * LONG_MAX
      decreases size - i
    {
      i := i * 2;
      bits := bits + 1;
    }
    Pow2Of64();
    Pow2Bound(bits, 64);
  }

  class Dict<K(==,!new), V> {
    const hash: K -> Word
    var d: Tables<K, V>
    var iterators: nat
    var canResize: bool
    ghost var m0: map<K, V>
    ghost var m1: map<K, V>
    ghost var contents: map<K, V>

    ghost predicate Valid()
      reads this
    {
      Represents(d, hash, m0, m1) && contents == m0 + m1
    }

    // The finite map the dictionary stands for.
    ghost function Contents(): map<K, V>
      reads this
    {
      contents
    }

    constructor (hash: K -> Word)
      ensures Valid() && Contents() == map[] && iterators == 0 && d.rehashidx == -1 && canResize
      ensures this.hash == hash
    {
      this.hash := hash;
      d := Tables(Ht(0, [], 0), Ht(0, [], 0), -1);
      iterators, canResize, m0, m1, contents := 0, true, map[], map[], map[];
    }

    // dictExpand
    method Expand(size: nat) returns (ok: bool)
      requires Valid() && size < LONG_MAX
      modifies this`d
      ensures Valid()
      ensures ok <==> && !Rehashing(old(d)) && old(d).ht0.used <= size
                      && |old(d).ht0.table| != Pow2(NextPowerBits(size, 2))
      ensures !ok ==> d == old(d)
      ensures ok && old(d).ht0.table == [] ==>
                !Rehashing(d) && d.ht0.table != [] && d.ht0.bits == NextPowerBits(size, 2)
      ensures ok && old(d).ht0.table != [] ==>
                d.rehashidx == 0 && d.ht0 == old(d).ht0 && d.ht1.bits == NextPowerBits(size, 2)
    {
      var realsize, bits := NextPower(size);
      if Rehashing(d) || d.ht0.used > size {
        return false;
      }
      if realsize == |d.ht0.table| {
        return false;
      }
      var n := Ht(bits, seq(realsize, _ => []), 0);
      EmptyTableHoldsNothing(n, hash);
      if d.ht0.table == [] {
        d := d.(ht0 := n);
        return true;
      }
      d := d.(ht1 := n, rehashidx := 0);
      return true;
    }

    // While the bucket b of ht[0] is being moved, `de` is what is left of it and the table is not touched.
    ghost predicate Moving(t: seq<Chain<K, V>>, b: nat, de: Chain<K, V>)
      reads this
    {
      && d.ht0.table == t && b < |t| && b == d.rehashidx && d.ht1.table != []
      && Holds(Ht(d.ht0.bits, t[b := de], d.ht0.used), hash, m0) && Holds(d.ht1, hash, m1) && m0.Keys !! m1.Keys
      && contents == m0 + m1
    }

    // dictRehash's inner loop over one chain: entry by entry to the head of its bucket in ht[1].
    method MoveChain(b: nat, ghost t: seq<Chain<K, V>>)
      requires b < |t| && Moving(t, b, t[b])
      modifies this`d, this`m0, this`m1
      ensures Moving(t, b, [])
      ensures d.ht0 == old(d).ht0.(used := old(d).ht0.used - |t[b]|)
      ensures d.ht1.bits == old(d).ht1.bits && d.rehashidx == old(d).rehashidx
    {
      var de := d.ht0.table[b];
      while de != []
        invariant Moving(t, b, de)
        invariant |de| <= |t[b]| && d.ht0 == old(d).ht0.(used := old(d).ht0.used - (|t[b]| - |de|))
        invariant d.ht1.bits == old(d).ht1.bits && d.rehashidx == old(d).rehashidx
      {
        MoveFirst(b, de, t);
        de := de[1..];
      }
    }

    method MoveFirst(b: nat, de: Chain<K, V>, ghost t: seq<Chain<K, V>>)
      requires de != [] && Moving(t, b, de)
      modifies this`d, this`m0, this`m1
      ensures Moving(t, b, de[1..])
      ensures d.ht0 == old(d).ht0.(used := old(d).ht0.used - 1)
      ensures d.ht1.bits == old(d).ht1.bits && d.rehashidx == old(d).rehashidx
    {
      var e := de[0];
      var h := Index(hash(e.key), d.ht1.bits);
      MoveEntry(Ht(d.ht0.bits, t[b := de], d.ht0.used), d.ht1, hash, m0, m1, b, e, h, de[1..]);
      UpdateTwice(t, b, de, de[1..]);
      d := d.(ht0 := d.ht0.(used := d.ht0.used - 1),
              ht1 := Ht(d.ht1.bits, d.ht1.table[h := [e] + d.ht1.table[h]], d.ht1.used + 1));
      m0, m1 := m0 - {e.key}, m1[e.key := e.val];
    }

    // The whole bucket at rehashidx goes to ht[1].
    method MoveBucket()
      requires Valid() && 0 <= d.rehashidx < |d.ht0.table|
      modifies this`d, this`m0, this`m1
      ensures Valid() && d.rehashidx == old(d).rehashidx + 1
      ensures d.ht0.used == old(d).ht0.used - |old(d).ht0.table[old(d).rehashidx]|
      ensures d.ht0.table == old(d).ht0.table[old(d).rehashidx := []]
      ensures d.ht0.bits == old(d).ht0.bits && d.ht1.bits == old(d).ht1.bits
    {
      var b := d.rehashidx;
      assert d.ht0.table[b := d.ht0.table[b]] == d.ht0.table;
      MoveChain(b, d.ht0.table);
      d := d.(ht0 := d.ht0.(table := d.ht0.table[b := []]));
      PassEmptyBucket(d);
      d := d.(rehashidx := d.rehashidx + 1);
    }

    // dictRehash's walk over empty buckets, at most `budget` of them.
    method SkipEmpty(budget: nat) returns (emptyVisits: nat, gaveUp: bool)
      requires Valid() && Rehashing(d) && d.ht0.used != 0 && budget > 0
      modifies this`d
      ensures Valid() && old(d).rehashidx <= d.rehashidx < |d.ht0.table|
      ensures d == old(d).(rehashidx := d.rehashidx)
      ensures EmptyBetween(d.ht0.table, old(d).rehashidx, d.rehashidx)
      ensures emptyVisits <= budget && d.rehashidx == old(d).rehashidx + budget - emptyVisits
      ensures gaveUp ==> emptyVisits == 0
      ensures !gaveUp ==> emptyVisits > 0 && d.ht0.table[d.rehashidx] != []
    {
      emptyVisits := budget;
      RehashIndexInside(d, hash);
      while d.ht0.table[d.rehashidx] == []
        invariant Valid() && old(d).rehashidx <= d.rehashidx < |d.ht0.table|
        invariant d == old(d).(rehashidx := old(d).rehashidx + budget - emptyVisits)
        invariant emptyVisits > 0
        decreases |d.ht0.table| - d.rehashidx
      {
        PassEmptyBucket(d);
        d := d.(rehashidx := d.rehashidx + 1);
        RehashIndexInside(d, hash);
        emptyVisits := emptyVisits - 1;
        if emptyVisits == 0 {
          return emptyVisits, true;
        }
      }
      return emptyVisits, false;
    }

    /* dictRehash: it ends the rehash exactly when the steps and ten times as many empty buckets suffice for what is
       left; otherwise as many buckets have moved, or as many empty ones been passed, as asked for. */
    method Rehash(steps: nat) returns (more: bool)
      requires Valid()
      modifies this`d, this`m0, this`m1
      ensures Valid() && Contents() == old(Contents())
      ensures more == Rehashing(d)
      ensures !Rehashing(old(d)) ==> d == old(d)
      ensures Rehashing(old(d)) ==> (more <==> !Finishes(old(d).ht0.table, old(d).rehashidx, steps))
      ensures more ==> SameFrom(old(d).ht0.table, d.ht0.table, d.rehashidx)
      ensures more ==> StoppedAfter(old(d).ht0.table, old(d).rehashidx, d.rehashidx, steps)
      ensures more ==> d.ht0.bits == old(d).ht0.bits && d.ht1.bits == old(d).ht1.bits
      ensures Rehashing(old(d)) && !more ==> d.ht0.bits == old(d).ht1.bits && d.ht0.table != []
    {
      if !Rehashing(d) {
        return false;
      }
      ghost var t, i := d.ht0.table, d.rehashidx;
      var gaveUp := MoveBuckets(steps);
      if gaveUp {
        StillFull(t, i, steps);
        return true;
      }
      ghost var moved := Full(t, i, d.rehashidx);
      if d.ht0.used == 0 {
        NothingLeft(t);
        AllDone(t, i, d.rehashidx, moved, d.rehashidx - i - moved, steps);
      } else {
        StillFull(t, i, steps);
      }
      var done := FinishRehash();
      more := !done;
    }

    // The loop of dictRehash.
    method MoveBuckets(steps: nat) returns (gaveUp: bool)
      requires Valid() && Rehashing(d)
      modifies this`d, this`m0, this`m1
      ensures Valid() && Rehashing(d)
      ensures d.ht0.bits == old(d).ht0.bits && d.ht1.bits == old(d).ht1.bits
      ensures SameFrom(old(d).ht0.table, d.ht0.table, d.rehashidx)
      ensures gaveUp ==> d.ht0.used != 0 && PassedAll(old(d).ht0.table, old(d).rehashidx, d.rehashidx, steps)
      ensures !gaveUp ==> MovedSome(old(d).ht0.table, old(d).rehashidx, d.rehashidx, steps, d.ht0.used == 0)
    {
      var n: nat, emptyVisits: nat := steps, steps * 10;
      ghost var t, i := d.ht0.table, d.rehashidx;
      ghost var moved: nat, passed: nat := 0, 0;
      while n > 0 && d.ht0.used != 0
        invariant Valid() && Rehashing(d)
        invariant d.ht0.bits == old(d).ht0.bits && d.ht1.bits == old(d).ht1.bits
        invariant moved + n == steps && passed + emptyVisits == 10 * steps && (steps > 0 ==> emptyVisits > 0)
        invariant Counted(t, i, moved, passed) && (moved == 0 ==> passed == 0)
      {
        n := n - 1;
        ghost var visits := emptyVisits;
        emptyVisits, gaveUp := MoveNext(emptyVisits, t, i, moved, passed);
        if gaveUp {
          return;
        }
        moved, passed := moved + 1, passed + visits - emptyVisits;
      }
      MovedSomeIs(t, i, d.rehashidx, moved, passed, steps, d.ht0.used == 0);
      gaveUp := false;
    }

    // Past empty buckets, which are counted.
    method SkipCounted(budget: nat, ghost t: seq<Chain<K, V>>, ghost i: nat, ghost moved: nat, ghost passed: nat)
      returns (emptyVisits: nat, gaveUp: bool)
      requires Valid() && Rehashing(d) && d.ht0.used != 0 && budget > 0 && Counted(t, i, moved, passed)
      modifies this`d
      ensures Valid() && d == old(d).(rehashidx := d.rehashidx) && 0 <= d.rehashidx < |d.ht0.table|
      ensures emptyVisits <= budget && PassedEmpty(t, i, moved, passed + budget - emptyVisits)
      ensures if gaveUp then emptyVisits == 0 else emptyVisits > 0 && d.ht0.table[d.rehashidx] != []
    {
      emptyVisits, gaveUp := SkipEmpty(budget);
      GaveUp(t, d.ht0.table, i, old(d).rehashidx, d.rehashidx, moved, passed);
    }

    // The bucket found is moved, and counted.
    method MoveCounted(ghost t: seq<Chain<K, V>>, ghost i: nat, ghost moved: nat, ghost passed: nat)
      requires Valid() && 0 <= d.rehashidx < |d.ht0.table| && d.ht0.table[d.rehashidx] != []
      requires PassedEmpty(t, i, moved, passed)
      modifies this`d, this`m0, this`m1
      ensures Valid() && Rehashing(d) && d.ht0.bits == old(d).ht0.bits && d.ht1.bits == old(d).ht1.bits
      ensures Counted(t, i, moved + 1, passed)
    {
      ghost var u, b := d.ht0.table, d.rehashidx;
      MoveBucket();
      MovedOne(t, u, i, b, moved, passed, d.ht0.table, d.rehashidx);
    }

    // One turn of dictRehash's loop: past empty buckets to the next one with entries, which is moved.
    method MoveNext(budget: nat, ghost t: seq<Chain<K, V>>, ghost i: nat, ghost moved: nat, ghost passed: nat)
      returns (emptyVisits: nat, gaveUp: bool)
      requires Valid() && Rehashing(d) && d.ht0.used != 0 && budget > 0 && Counted(t, i, moved, passed)
      modifies this`d, this`m0, this`m1
      ensures Valid() && Rehashing(d) && d.ht0.bits == old(d).ht0.bits && d.ht1.bits == old(d).ht1.bits
      ensures emptyVisits <= budget
      ensures if gaveUp then d.ht0.used != 0 && PassedEmpty(t, i, moved, passed + budget)
              else emptyVisits > 0 && Counted(t, i, moved + 1, passed + budget - emptyVisits)
    {
      emptyVisits, gaveUp := SkipCounted(budget, t, i, moved, passed);
      if !gaveUp {
        MoveCounted(t, i, moved, passed + budget - emptyVisits);
      }
    }

    ghost predicate Counted(t: seq<Chain<K, V>>, i: nat, moved: nat, passed: nat)
      reads this
    {
      SameFrom(t, d.ht0.table, d.rehashidx) && Progress(t, i, d.rehashidx, moved, passed)
    }

    ghost predicate PassedEmpty(t: seq<Chain<K, V>>, i: nat, moved: nat, passed: nat)
      reads this
    {
      && SameFrom(t, d.ht0.table, d.rehashidx) && i <= d.rehashidx <= |t|
      && Full(t, i, d.rehashidx) == moved && d.rehashidx - i == moved + passed
    }

    lemma NothingLeft(t: seq<Chain<K, V>>)
      requires Valid() && SameFrom(t, d.ht0.table, d.rehashidx) && d.ht0.used == 0
      ensures forall b :: d.rehashidx <= b < |t| ==> t[b] == []
    {
      TotalLenZero(d.ht0.table);
    }

    lemma StillFull(t: seq<Chain<K, V>>, i: nat, steps: nat)
      requires Valid() && Rehashing(d) && SameFrom(t, d.ht0.table, d.rehashidx)
      requires d.ht0.used != 0 && i <= d.rehashidx <= |t|
      requires Full(t, i, d.rehashidx) >= steps || d.rehashidx - i - Full(t, i, d.rehashidx) >= 10 * steps
      ensures !Finishes(t, i, steps)
    {
      RehashIndexInside(d, hash);
      var b :| d.rehashidx <= b < |d.ht0.table| && d.ht0.table[b] != [];
      NotDone(t, i, d.rehashidx, steps, b);
    }

    /* dictRehashMilliseconds; elapsed(k) is the time passed after k calls that left more to do. Without a limit on
       the time the rehash is over after at most as many calls as there are buckets. */
    method RehashMilliseconds(elapsed: nat -> int, ms: int) returns (rehashes: nat)
      requires Valid()
      modifies this`d, this`m0, this`m1
      ensures Valid() && Contents() == old(Contents())
      ensures Rehashing(d) ==> exists k :: 0 < k <= |old(d).ht0.table| && rehashes == 100 * k && elapsed(k) > ms
      ensures !Rehashing(d) ==> exists k :: 0 <= k <= |old(d).ht0.table| && rehashes == 100 * k
    {
      rehashes := 0;
      ghost var k, size := 0, |d.ht0.table|;
      var more := Rehash(100);
      while more
        invariant Valid() && more == Rehashing(d) && rehashes == 100 * k
        invariant more ==> |d.ht0.table| == size && k < d.rehashidx <= size
        invariant k <= size
        decreases more, size - k
      {
        rehashes := rehashes + 100;
        k := k + 1;
        if elapsed(rehashes / 100) > ms { break; }
        more := Rehash(100);
      }
    }

    // The end of dictRehash: when ht[0] is empty, ht[1] takes its place.
    method FinishRehash() returns (done: bool)
      requires Valid() && Rehashing(d)
      modifies this`d, this`m0, this`m1
      ensures Valid() && Contents() == old(Contents())
      ensures done == (old(d).ht0.used == 0)
      ensures if done then d == Tables(old(d).ht1, Ht(0, [], 0), -1) else d == old(d)
    {
      if d.ht0.used == 0 {
        TakePlace(d, hash, m0, m1);
        d, m0, m1 := Tables(d.ht1, Ht(0, [], 0), -1), m1, map[];
        return true;
      }
      return false;
    }

    // _dictRehashStep, with its callers' test
    method RehashStep()
      requires Valid()
      modifies this`d, this`m0, this`m1
      ensures Valid() && Contents() == old(Contents())
      ensures old(d).ht0.table != [] ==> d.ht0.table != []
      ensures !Rehashing(old(d)) || iterators > 0 ==> d == old(d)
      ensures Rehashing(old(d)) && iterators == 0 ==>
                (Rehashing(d) <==> !Finishes(old(d).ht0.table, old(d).rehashidx, 1))
      ensures Rehashing(d) && iterators == 0 ==> StoppedAfter(old(d).ht0.table, old(d).rehashidx, d.rehashidx, 1)
    {
      if Rehashing(d) {
        if iterators == 0 {
          var _ := Rehash(1);
        }
      }
    }

    // As many keys as buckets, and resizing is allowed or the chains have become long.
    predicate Crowded()
      reads this
    {
      && !Rehashing(d) && d.ht0.table != [] && d.ht0.used >= |d.ht0.table|
      && (canResize || d.ht0.used / |d.ht0.table| > DICT_FORCE_RESIZE_RATIO)
    }

    /* _dictExpandIfNeeded: below the size bound it never fails. The first table has 4 buckets, a crowded
       one starts to grow to twice its keys, and any other is left alone. */
    method ExpandIfNeeded() returns (ok: bool)
      requires Valid() && 2 * |Contents()| < LONG_MAX
      modifies this`d
      ensures Valid() && ok && d.ht0.table != []
      ensures old(d).ht0.table == [] ==> !Rehashing(d) && |d.ht0.table| == DICT_HT_INITIAL_SIZE
      ensures old(Crowded()) ==>
              d.rehashidx == 0 && d.ht0 == old(d).ht0 && d.ht1.bits == NextPowerBits(2 * old(d).ht0.used, 2)
      ensures old(d).ht0.table != [] && !old(Crowded()) ==> d == old(d)
    {
      SizeIsCount(d, hash, m0, m1);
      if Rehashing(d) {
        return true;
      }
      if d.ht0.table == [] {
        ok := Expand(DICT_HT_INITIAL_SIZE);
        return ok;
      }
      var used, size := d.ht0.used, |d.ht0.table|;
      if used >= size && (canResize || used / size > DICT_FORCE_RESIZE_RATIO) {
        ok := Expand(used * 2);
        return ok;
      }
      return true;
    }

    // The search loop over both tables shared by _dictKeyIndex, dictFind and dictGenericDelete.
    method Search(k: K) returns (found: bool, t: nat, idx: nat, pos: nat)
      requires Valid() && d.ht0.table != []
      ensures found == (k in Contents()) && t <= 1 && idx < |Table(d, t).table|
      ensures found ==> && pos < |Table(d, t).table[idx]|
                        && Table(d, t).table[idx][pos] == Entry(k, Contents()[k])
      ensures !found ==> t == (if Rehashing(d) then 1 else 0) && idx == Index(hash(k), Table(d, t).bits)
    {
      t := 0;
      idx := Index(hash(k), d.ht0.bits);
      assert Agrees(d.ht0, hash, m0, k);
      assert Agrees(d.ht1, hash, m1, k);
      pos := ChainSearch(d.ht0.table[idx], k);
      if pos < |d.ht0.table[idx]| {
        return true, t, idx, pos;
      }
      if !Rehashing(d) {
        return false, t, idx, pos;
      }
      t := 1;
      idx := Index(hash(k), d.ht1.bits);
      pos := ChainSearch(d.ht1.table[idx], k);
      return pos < |d.ht1.table[idx]|, t, idx, pos;
    }

    // A new entry at the head of bucket idx of table t.
    method LinkAt(t: nat, idx: nat, k: K, v: V)
      requires Valid() && d.ht0.table != [] && k !in Contents()
      requires t == (if Rehashing(d) then 1 else 0) && idx == Index(hash(k), Table(d, t).bits)
      modifies this`d, this`m0, this`m1, this`contents
      ensures Valid() && Contents() == old(Contents())[k := v]
    {
      var ht := Table(d, t);
      ht := Ht(ht.bits, ht.table[idx := [Entry(k, v)] + ht.table[idx]], ht.used + 1);
      InsertKeeps(d, hash, m0, m1, t, idx, k, v, ht);
      d := WithTable(d, t, ht);
      SetInUnion(m0, m1, k, v);
      if t == 0 {
        m0 := m0[k := v];
      } else {
        m1 := m1[k := v];
      }
      contents := contents[k := v];
    }

    // A new value in the entry at position pos of bucket idx of table t.
    method SetAt(t: nat, idx: nat, pos: nat, v: V)
      requires Valid() && t <= 1 && idx < |Table(d, t).table| && pos < |Table(d, t).table[idx]|
      modifies this`d, this`m0, this`m1, this`contents
      ensures Valid() && Contents() == old(Contents())[Table(old(d), t).table[idx][pos].key := v]
    {
      var ht := Table(d, t);
      var k := ht.table[idx][pos].key;
      ht := Ht(ht.bits, ht.table[idx := ht.table[idx][pos := Entry(k, v)]], ht.used);
      SetValKeeps(d, hash, m0, m1, t, idx, pos, v, ht);
      d := WithTable(d, t, ht);
      SetInUnion(m0, m1, k, v);
      if t == 0 {
        m0 := m0[k := v];
      } else {
        m1 := m1[k := v];
      }
      contents := contents[k := v];
    }

    // The entry at position pos of bucket idx of table t goes away.
    method UnlinkAt(t: nat, idx: nat, pos: nat)
      requires Valid() && t <= 1 && idx < |Table(d, t).table| && pos < |Table(d, t).table[idx]|
      modifies this`d, this`m0, this`m1, this`contents
      ensures Valid() && Contents() == old(Contents()) - {Table(old(d), t).table[idx][pos].key}
    {
      var ht := Table(d, t);
      var c := ht.table[idx];
      ghost var k := c[pos].key;
      ht := Ht(ht.bits, ht.table[idx := c[..pos] + c[pos + 1..]], ht.used - 1);
      UnlinkKeeps(d, hash, m0, m1, t, idx, pos, ht);
      d := WithTable(d, t, ht);
      RemoveFromUnion(m0, m1, k);
      m0, m1, contents := m0 - {k}, m1 - {k}, contents - {k};
    }

    // dictAddRaw followed by setting the value, as in dictAdd
    method Add(k: K, v: V) returns (ok: bool)
      requires Valid() && 2 * |Contents()| < LONG_MAX
      modifies this`d, this`m0, this`m1, this`contents
      ensures Valid() && ok == (k !in old(Contents()))
      ensures Contents() == if ok then old(Contents())[k := v] else old(Contents())
    {
      RehashStep();
      var expanded := ExpandIfNeeded();
      if !expanded {
        return false;
      }
      var found, t, idx, _ := Search(k);
      if found {
        return false;
      }
      LinkAt(t, idx, k, v);
      return true;
    }

    // dictFind
    method Find(k: K) returns (r: Option<V>)
      requires Valid()
      modifies this`d, this`m0, this`m1
      ensures Valid() && Contents() == old(Contents()) && r == MapGet(Contents(), k)
      ensures old(d).ht0.table != [] ==> d.ht0.table != []
    {
      if d.ht0.table == [] {
        EmptyDict(k);
        return None;
      }
      RehashStep();
      var found, t, idx, pos := Search(k);
      if found {
        return Some(Table(d, t).table[idx][pos].val);
      }
      return None;
    }

    // A dictionary without a table has no keys.
    lemma EmptyDict(k: K)
      requires Valid() && d.ht0.table == []
      ensures k !in Contents()
    {
      assert Agrees(d.ht0, hash, m0, k);
      assert Agrees(d.ht1, hash, m1, k);
    }

    // dictReplace: 1 for a new key, 0 for an update.
    method Replace(k: K, v: V) returns (added: bool)
      requires Valid() && 2 * |Contents()| < LONG_MAX
      modifies this`d, this`m0, this`m1, this`contents
      ensures Valid() && added == (k !in old(Contents()))
      ensures Contents() == old(Contents())[k := v]
    {
      added := Add(k, v);
      if added {
        return;
      }
      if d.ht0.table == [] {
        EmptyDict(k);
      }
      RehashStep();
      var found, t, idx, pos := Search(k);
      SetAt(t, idx, pos, v);
    }

    // dictGenericDelete
    method Delete(k: K) returns (ok: bool)
      requires Valid()
      modifies this`d, this`m0, this`m1, this`contents
      ensures Valid() && ok == (k in old(Contents())) && Contents() == old(Contents()) - {k}
    {
      if d.ht0.table == [] {
        EmptyDict(k);
        return false;
      }
      RehashStep();
      ok := Remove(k);
    }

    // The part of dictGenericDelete after the rehash step.
    method Remove(k: K) returns (ok: bool)
      requires Valid() && d.ht0.table != []
      modifies this`d, this`m0, this`m1, this`contents
      ensures Valid() && ok == (k in old(Contents())) && Contents() == old(Contents()) - {k}
    {
      var found, t, idx, pos := Search(k);
      if !found {
        return false;
      }
      UnlinkAt(t, idx, pos);
      return true;
    }

    ghost function Minimal(): nat
      reads this
    {
      if |Contents()| < DICT_HT_INITIAL_SIZE then DICT_HT_INITIAL_SIZE else |Contents()|
    }

    lemma MinimalIs()
      requires Valid() && !Rehashing(d)
      ensures Minimal() == (if d.ht0.used < DICT_HT_INITIAL_SIZE then DICT_HT_INITIAL_SIZE else d.ht0.used)
    {
      SizeIsCount(d, hash, m0, m1);
    }

    // dictResize: shrink to the smallest power of two that holds the keys.
    method Resize() returns (ok: bool)
      requires Valid() && |Contents()| < 0x8000_0000
      modifies this`d
      ensures Valid()
      ensures ok <==> canResize && !Rehashing(old(d)) && |old(d).ht0.table| != Pow2(NextPowerBits(old(Minimal()), 2))
      ensures !ok ==> d == old(d)
      ensures ok && old(d).ht0.table != [] ==>
                d.rehashidx == 0 && d.ht0 == old(d).ht0 && d.ht1.bits == NextPowerBits(old(Minimal()), 2)
    {
      if !canResize || Rehashing(d) {
        return false;
      }
      MinimalIs();
      var minimal := d.ht0.used;
      if minimal < DICT_HT_INITIAL_SIZE {
        minimal := DICT_HT_INITIAL_SIZE;
      }
      ok := Expand(minimal);
    }
  }
}
