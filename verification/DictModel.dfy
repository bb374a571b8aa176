/**
The two-table hash dictionary as a value: buckets are chains of entries, a key lives in the
bucket that the low bits of its hash select, and during an incremental rehash both tables
hold keys.
*/
module DictModel {
  import opened Words

  type Word = w: Bits | |w| == WORD_BITS witness Zeros(WORD_BITS)

  datatype Option<+T> = None | Some(value: T)

  datatype Entry<K, V> = Entry(key: K, val: V)

  type Chain<K, V> = seq<Entry<K, V>>

  // `dictht`: an empty `table` is the NULL table, otherwise it has 2^bits buckets (sizemask 2^bits - 1).
  datatype Ht<K, V> = Ht(bits: nat, table: seq<Chain<K, V>>, used: int)

  // `h & sizemask`
  function Index(h: Word, bits: nat): (i: nat)
    requires bits <= WORD_BITS
    ensures i == Val(h[..bits]) < Pow2(bits)
  {
    MaskKeepsLowBits(h, bits);
    Val(And(h, Mask(bits, WORD_BITS)))
  }

  // ---- Chains ----

  function ChainGet<K(==), V>(c: Chain<K, V>, k: K): Option<V>
  {
    if c == [] then None
    else if c[0].key == k then Some(c[0].val)
    else ChainGet(c[1..], k)
  }

  ghost predicate Unique<K, V>(c: Chain<K, V>)
  {
    forall i, j :: 0 <= i < j < |c| ==> c[i].key != c[j].key
  }

  lemma {:induction false} ChainGetAt<K, V>(c: Chain<K, V>, i: nat)
    requires i < |c| && Unique(c)
    ensures ChainGet(c, c[i].key) == Some(c[i].val)
  {
    if i > 0 {
      assert c[0].key != c[i].key;
      assert Unique(c[1..]);
      ChainGetAt(c[1..], i - 1);
    }
  }

  lemma {:induction false} ChainGetMember<K, V>(c: Chain<K, V>, k: K)
    ensures ChainGet(c, k).Some? <==> exists i :: 0 <= i < |c| && c[i].key == k
  {
    if c != [] && c[0].key != k {
      ChainGetMember(c[1..], k);
      if i :| 0 <= i < |c| && c[i].key == k {
        assert c[1..][i - 1].key == k;
      }
    }
  }

  lemma {:induction false} ChainGetAppend<K, V>(a: Chain<K, V>, b: Chain<K, V>, k: K)
    ensures ChainGet(a + b, k) == if ChainGet(a, k).Some? then ChainGet(a, k) else ChainGet(b, k)
  {
    if a == [] {
      assert a + b == b;
    } else {
      ChainGetAppend(a[1..], b, k);
      assert (a + b)[1..] == a[1..] + b;
    }
  }

  // Unlinking the entry at position i removes its key and nothing else.
  lemma ChainUnlink<K, V>(c: Chain<K, V>, i: nat, k: K)
    requires i < |c| && Unique(c)
    ensures var r := c[..i] + c[i + 1..];
            Unique(r) && ChainGet(r, k) == if k == c[i].key then None else ChainGet(c, k)
  {
    var r := c[..i] + c[i + 1..];
    assert forall j :: 0 <= j < |r| ==> r[j] == c[if j < i then j else j + 1];
    ChainGetAppend(c[..i], c[i + 1..], k);
    assert c == c[..i] + ([c[i]] + c[i + 1..]);
    ChainGetAppend(c[..i], [c[i]] + c[i + 1..], k);
    assert ([c[i]] + c[i + 1..])[1..] == c[i + 1..];
    if k == c[i].key {
      ChainGetMember(r, k);
    }
  }

  // Overwriting the value of the entry at position i.
  lemma ChainSetVal<K, V>(c: Chain<K, V>, i: nat, v: V, k: K)
    requires i < |c| && Unique(c)
    ensures var r := c[i := Entry(c[i].key, v)];
            Unique(r) && ChainGet(r, k) == if k == c[i].key then Some(v) else ChainGet(c, k)
  {
    var r := c[i := Entry(c[i].key, v)];
    if k == c[i].key {
      ChainGetAt(r, i);
    } else {
      var a, b := c[..i], c[i + 1..];
      assert c == a + ([c[i]] + b) && r == a + ([r[i]] + b);
      ChainGetAppend(a, [c[i]] + b, k);
      ChainGetAppend(a, [r[i]] + b, k);
      assert ([c[i]] + b)[1..] == b && ([r[i]] + b)[1..] == b;
    }
  }

  // ---- Tables ----

  function TotalLen<K, V>(t: seq<Chain<K, V>>): nat
  {
    if t == [] then 0 else |t[0]| + TotalLen(t[1..])
  }

  lemma {:induction false} TotalLenUpdate<K, V>(t: seq<Chain<K, V>>, i: nat, c: Chain<K, V>)
    requires i < |t|
    ensures TotalLen(t[i := c]) == TotalLen(t) - |t[i]| + |c|
    ensures TotalLen(t) >= |t[i]|
  {
    if i == 0 {
      assert t[0 := c][1..] == t[1..];
    } else {
      TotalLenUpdate(t[1..], i - 1, c);
      assert t[i := c][1..] == t[1..][i - 1 := c];
    }
  }

  lemma {:induction false} TotalLenZero<K, V>(t: seq<Chain<K, V>>)
    ensures TotalLen(t) == 0 <==> forall i :: 0 <= i < |t| ==> t[i] == []
  {
    if t != [] {
      TotalLenZero(t[1..]);
      if forall i :: 0 <= i < |t| ==> t[i] == [] {
        assert t[0] == [];
        assert forall i :: 0 <= i < |t[1..]| ==> t[1..][i] == [];
      } else {
        var i :| 0 <= i < |t| && t[i] != [];
        if i > 0 {
          assert t[1..][i - 1] != [];
        }
      }
    }
  }

  ghost predicate HtValid<K(!new), V>(ht: Ht<K, V>, hash: K -> Word)
  {
    && ht.used == TotalLen(ht.table)
    && ht.bits < WORD_BITS
    && (ht.table == [] || |ht.table| == Pow2(ht.bits))
    && (forall b {:trigger BucketOk(ht.table[b], hash, ht.bits, b)} :: 0 <= b < |ht.table| ==>
          BucketOk(ht.table[b], hash, ht.bits, b))
  }

  // No key twice in a chain, and every key in the bucket its hash selects.
  ghost predicate BucketOk<K(!new), V>(c: Chain<K, V>, hash: K -> Word, bits: nat, b: nat)
    requires bits < WORD_BITS
  {
    Unique(c) && forall j :: 0 <= j < |c| ==> Index(hash(c[j].key), bits) == b
  }

  function HtGet<K(==), V>(ht: Ht<K, V>, hash: K -> Word, k: K): Option<V>
    requires ht.bits < WORD_BITS && (ht.table == [] || |ht.table| == Pow2(ht.bits))
  {
    if ht.table == [] then None else ChainGet(ht.table[Index(hash(k), ht.bits)], k)
  }

  function MapGet<K, V>(m: map<K, V>, k: K): Option<V>
  {
    if k in m then Some(m[k]) else None
  }

  // The table holds exactly the keys and values of m, each once, and `used` counts them.
  ghost predicate Holds<K(!new), V>(ht: Ht<K, V>, hash: K -> Word, m: map<K, V>)
  {
    && HtValid(ht, hash)
    && |m| == ht.used
    && forall k {:trigger Agrees(ht, hash, m, k)} :: Agrees(ht, hash, m, k)
  }

  ghost predicate Agrees<K, V>(ht: Ht<K, V>, hash: K -> Word, m: map<K, V>, k: K)
    requires ht.bits < WORD_BITS && (ht.table == [] || |ht.table| == Pow2(ht.bits))
  {
    HtGet(ht, hash, k) == MapGet(m, k)
  }

  // What replacing one bucket does to the whole table.
  lemma BucketEdit<K(!new), V>(ht: Ht<K, V>, r: Ht<K, V>, hash: K -> Word, b: nat, c: Chain<K, V>)
    requires HtValid(ht, hash) && b < |ht.table| && BucketOk(c, hash, ht.bits, b)
    requires r == Ht(ht.bits, ht.table[b := c], ht.used - |ht.table[b]| + |c|)
    ensures HtValid(r, hash)
    ensures forall k :: HtGet(r, hash, k) ==
                        if Index(hash(k), ht.bits) == b then ChainGet(c, k) else HtGet(ht, hash, k)
  {
    TotalLenUpdate(ht.table, b, c);
    forall j | 0 <= j < |r.table| ensures BucketOk(r.table[j], hash, r.bits, j) {
      assert BucketOk(ht.table[j], hash, ht.bits, j);
    }
  }

  lemma EntryInMap<K(!new), V>(ht: Ht<K, V>, hash: K -> Word, m: map<K, V>, b: nat, i: nat)
    requires Holds(ht, hash, m) && b < |ht.table| && i < |ht.table[b]|
    ensures var e := ht.table[b][i]; e.key in m && m[e.key] == e.val
    ensures BucketOk(ht.table[b], hash, ht.bits, b)
  {
    var k := ht.table[b][i].key;
    assert BucketOk(ht.table[b], hash, ht.bits, b);
    ChainGetAt(ht.table[b], i);
    assert Agrees(ht, hash, m, k);
  }

  // Linking a new entry at the head of its bucket.
  lemma HtInsert<K(!new), V>(ht: Ht<K, V>, r: Ht<K, V>, hash: K -> Word, m: map<K, V>, k: K, v: V)
    requires Holds(ht, hash, m) && ht.table != [] && k !in m
    requires var b := Index(hash(k), ht.bits);
             r == Ht(ht.bits, ht.table[b := [Entry(k, v)] + ht.table[b]], ht.used + 1)
    ensures Holds(r, hash, m[k := v])
  {
    var b := Index(hash(k), ht.bits);
    var m' := m[k := v];
    var chain := ht.table[b];
    var c := [Entry(k, v)] + chain;
    assert Agrees(ht, hash, m, k) && BucketOk(chain, hash, ht.bits, b);
    ChainGetMember(chain, k);
    assert c[1..] == chain;
    BucketEdit(ht, r, hash, b, c);
    forall x ensures Agrees(r, hash, m', x) {
      assert Agrees(ht, hash, m, x);
    }
  }

  // Unlinking the entry at position i of bucket b.
  lemma HtUnlink<K(!new), V>(ht: Ht<K, V>, r: Ht<K, V>, hash: K -> Word, m: map<K, V>, b: nat, i: nat)
    requires Holds(ht, hash, m) && b < |ht.table| && i < |ht.table[b]|
    requires r == Ht(ht.bits, ht.table[b := ht.table[b][..i] + ht.table[b][i + 1..]], ht.used - 1)
    ensures Holds(r, hash, m - {ht.table[b][i].key})
  {
    var c := ht.table[b];
    var d := c[..i] + c[i + 1..];
    var k := c[i].key;
    EntryInMap(ht, hash, m, b, i);
    ChainUnlink(c, i, k);
    assert forall j :: 0 <= j < |d| ==> d[j] == c[if j < i then j else j + 1];
    BucketEdit(ht, r, hash, b, d);
    forall x ensures Agrees(r, hash, m - {k}, x) {
      ChainUnlink(c, i, x);
      assert Agrees(ht, hash, m, x);
    }
    assert m.Keys == (m - {k}).Keys + {k};
  }

  // Overwriting the value of the entry at position i of bucket b.
  lemma HtSetVal<K(!new), V>(ht: Ht<K, V>, r: Ht<K, V>, hash: K -> Word, m: map<K, V>, b: nat, i: nat, v: V)
    requires Holds(ht, hash, m) && b < |ht.table| && i < |ht.table[b]|
    requires r == Ht(ht.bits, ht.table[b := ht.table[b][i := Entry(ht.table[b][i].key, v)]], ht.used)
    ensures Holds(r, hash, m[ht.table[b][i].key := v])
  {
    var c := ht.table[b];
    var k := c[i].key;
    var d := c[i := Entry(k, v)];
    var m' := m[k := v];
    EntryInMap(ht, hash, m, b, i);
    ChainSetVal(c, i, v, k);
    BucketEdit(ht, r, hash, b, d);
    forall x ensures Agrees(r, hash, m', x) {
      ChainSetVal(c, i, v, x);
      assert Agrees(ht, hash, m, x);
    }
    assert m[k := v].Keys == m.Keys;
  }

  // ---- The dictionary ----

  datatype Tables<K, V> = Tables(ht0: Ht<K, V>, ht1: Ht<K, V>, rehashidx: int)

  predicate Rehashing<K, V>(d: Tables<K, V>) { d.rehashidx != -1 }

  // Outside a rehash there is no second table; during one, ht[0] is empty below rehashidx.
  ghost predicate RehashShape<K, V>(d: Tables<K, V>)
  {
    if Rehashing(d) then
      && d.ht0.table != [] && d.ht1.table != []
      && 0 <= d.rehashidx <= |d.ht0.table|
      && forall b :: 0 <= b < d.rehashidx ==> d.ht0.table[b] == []
    else
      d.ht1 == Ht(0, [], 0)
  }

  // The invariant: ht[0] holds m0, ht[1] holds m1, and no key is in both.
  ghost predicate Represents<K(!new), V>(d: Tables<K, V>, hash: K -> Word, m0: map<K, V>, m1: map<K, V>)
  {
    && Holds(d.ht0, hash, m0)
    && Holds(d.ht1, hash, m1)
    && m0.Keys !! m1.Keys
    && RehashShape(d)
  }

  // While keys are left in ht[0], rehashidx points inside it: dictRehash's assertion.
  lemma RehashIndexInside<K(!new), V>(d: Tables<K, V>, hash: K -> Word)
    requires HtValid(d.ht0, hash) && RehashShape(d) && Rehashing(d) && d.ht0.used != 0
    ensures d.rehashidx < |d.ht0.table|
    ensures exists b :: d.rehashidx <= b < |d.ht0.table| && d.ht0.table[b] != []
  {
    TotalLenZero(d.ht0.table);
    var b :| 0 <= b < |d.ht0.table| && d.ht0.table[b] != [];
    assert b >= d.rehashidx;
  }

  // Stepping over an empty bucket.
  lemma PassEmptyBucket<K, V>(d: Tables<K, V>)
    requires RehashShape(d) && Rehashing(d) && d.rehashidx < |d.ht0.table| && d.ht0.table[d.rehashidx] == []
    ensures RehashShape(d.(rehashidx := d.rehashidx + 1))
  {
  }

  lemma UpdateTwice<T>(t: seq<T>, b: nat, x: T, y: T)
    requires b < |t|
    ensures t[b := x][b := y] == t[b := y]
  {
  }

  lemma SetInUnion<K, V>(m0: map<K, V>, m1: map<K, V>, k: K, v: V)
    ensures k !in m1 ==> m0[k := v] + m1 == (m0 + m1)[k := v]
    ensures m0 + m1[k := v] == (m0 + m1)[k := v]
  {
  }

  lemma RemoveFromUnion<K, V>(m0: map<K, V>, m1: map<K, V>, k: K)
    ensures (m0 - {k}) + (m1 - {k}) == (m0 + m1) - {k}
  {
  }

  // A binding moves from one map to the other: their union is the same.
  lemma MoveBinding<K, V>(m0: map<K, V>, m1: map<K, V>, k: K, v: V)
    requires m0.Keys !! m1.Keys && k in m0 && m0[k] == v
    ensures (m0 - {k}).Keys !! m1[k := v].Keys
    ensures (m0 - {k}) + m1[k := v] == m0 + m1
  {
  }

  // The entry at the head of bucket b of ht0 is linked at the head of its bucket of ht1.
  lemma MoveEntry<K(!new), V>(ht0: Ht<K, V>, ht1: Ht<K, V>, hash: K -> Word, m0: map<K, V>, m1: map<K, V>,
                              b: nat, e: Entry<K, V>, h: nat, rest: Chain<K, V>)
    requires Holds(ht0, hash, m0) && Holds(ht1, hash, m1) && m0.Keys !! m1.Keys && ht1.table != []
    requires b < |ht0.table| && ht0.table[b] == [e] + rest && h == Index(hash(e.key), ht1.bits)
    ensures Holds(Ht(ht0.bits, ht0.table[b := rest], ht0.used - 1), hash, m0 - {e.key})
    ensures Holds(Ht(ht1.bits, ht1.table[h := [e] + ht1.table[h]], ht1.used + 1), hash, m1[e.key := e.val])
    ensures (m0 - {e.key}).Keys !! m1[e.key := e.val].Keys
    ensures (m0 - {e.key}) + m1[e.key := e.val] == m0 + m1
  {
    var k, v := e.key, e.val;
    EntryInMap(ht0, hash, m0, b, 0);
    MoveBinding(m0, m1, k, v);
    assert ht0.table[b][..0] + ht0.table[b][1..] == rest;
    HtUnlink(ht0, Ht(ht0.bits, ht0.table[b := rest], ht0.used - 1), hash, m0, b, 0);
    HtInsert(ht1, Ht(ht1.bits, ht1.table[h := [Entry(k, v)] + ht1.table[h]], ht1.used + 1), hash, m1, k, v);
  }

  // ---- How far a rehash gets ----

  // How many of the buckets from i to j have entries.
  ghost function Full<K, V>(t: seq<Chain<K, V>>, i: nat, j: nat): (n: nat)
    requires i <= j <= |t|
    ensures n <= j - i
    decreases j
  {
    if i == j then 0 else Full(t, i, j - 1) + if t[j - 1] != [] then 1 else 0
  }

  lemma {:induction false} FullSplit<K, V>(t: seq<Chain<K, V>>, i: nat, j: nat, k: nat)
    requires i <= j <= k <= |t|
    ensures Full(t, i, k) == Full(t, i, j) + Full(t, j, k)
    decreases k
  {
    if j < k {
      FullSplit(t, i, j, k - 1);
    }
  }

  lemma {:induction false} FullZero<K, V>(t: seq<Chain<K, V>>, i: nat, j: nat)
    requires i <= j <= |t|
    ensures Full(t, i, j) == 0 <==> forall b :: i <= b < j ==> t[b] == []
    decreases j
  {
    if i < j {
      FullZero(t, i, j - 1);
    }
  }

  // From idx on the two tables have the same buckets.
  ghost predicate SameFrom<K, V>(t: seq<Chain<K, V>>, u: seq<Chain<K, V>>, idx: int)
  {
    0 <= idx && |u| == |t| && forall b :: idx <= b < |t| ==> u[b] == t[b]
  }

  // From i to idx, `moved` buckets with entries and `passed` empty ones, the last one with entries.
  ghost predicate Progress<K, V>(t: seq<Chain<K, V>>, i: nat, idx: int, moved: nat, passed: nat)
  {
    i <= idx <= |t| && Full(t, i, idx) == moved && moved + passed == idx - i && (moved > 0 ==> t[idx - 1] != [])
  }

  /* The buckets from i on are done with within this many steps: there are none with entries, or not more than
     steps, and fewer than ten times as many empty ones before the last of them. */
  ghost predicate Finishes<K, V>(t: seq<Chain<K, V>>, i: nat, steps: nat)
    requires i <= |t|
  {
    || Full(t, i, |t|) == 0
    || exists e: nat :: EndsAt(t, i, e) && Full(t, i, e) <= steps && e - i - Full(t, i, e) < 10 * steps
  }

  // The last bucket with entries is the one before e.
  ghost predicate EndsAt<K, V>(t: seq<Chain<K, V>>, i: nat, e: nat)
  {
    i < e <= |t| && t[e - 1] != [] && Full(t, e, |t|) == 0
  }

  // Exactly the steps asked for were made, or exactly ten times as many empty buckets passed.
  ghost predicate StoppedAfter<K, V>(t: seq<Chain<K, V>>, i: nat, idx: int, steps: nat)
  {
    PassedAll(t, i, idx, steps) || (MovedSome(t, i, idx, steps, false) && (steps > 0 ==> idx > i))
  }

  // All the empty buckets that were allowed have been passed, and more steps were left.
  ghost predicate PassedAll<K, V>(t: seq<Chain<K, V>>, i: nat, idx: int, steps: nat)
  {
    i < idx <= |t| && Full(t, i, idx) < steps && idx - i - Full(t, i, idx) == 10 * steps
  }

  // The steps are used up, or nothing was left to do.
  ghost predicate MovedSome<K, V>(t: seq<Chain<K, V>>, i: nat, idx: int, steps: nat, done: bool)
  {
    && i <= idx <= |t| && Progress(t, i, idx, Full(t, i, idx), idx - i - Full(t, i, idx))
    && Full(t, i, idx) <= steps && (done || Full(t, i, idx) == steps)
    && (steps > 0 ==> idx - i - Full(t, i, idx) < 10 * steps) && (Full(t, i, idx) == 0 ==> idx == i)
  }

  ghost predicate EmptyBetween<K, V>(u: seq<Chain<K, V>>, a: int, b: int)
  {
    0 <= a <= b <= |u| && forall k :: a <= k < b ==> u[k] == []
  }

  // Over empty buckets, as far as was allowed.
  lemma GaveUp<K, V>(t: seq<Chain<K, V>>, u: seq<Chain<K, V>>, i: nat, a: int, b: int, moved: nat, passed: nat)
    requires Progress(t, i, a, moved, passed) && SameFrom(t, u, a) && EmptyBetween(u, a, b)
    ensures i <= b <= |t| && Full(t, i, b) == moved && b - i == moved + passed + (b - a) && SameFrom(t, u, b)
  {
    FullSplit(t, i, a, b);
    FullZero(t, a, b);
  }

  // The next bucket is emptied.
  lemma MovedOne<K, V>(t: seq<Chain<K, V>>, u: seq<Chain<K, V>>, i: nat, b: int, moved: nat, passed: nat,
                       u': seq<Chain<K, V>>, b': int)
    requires i <= b < |t| && SameFrom(t, u, b) && u[b] != [] && Full(t, i, b) == moved && b - i == moved + passed
    requires u' == u[b := []] && b' == b + 1
    ensures Progress(t, i, b', moved + 1, passed) && SameFrom(t, u', b')
  {
  }

  lemma MovedSomeIs<K, V>(t: seq<Chain<K, V>>, i: nat, idx: int, moved: nat, passed: nat, steps: nat, done: bool)
    requires Progress(t, i, idx, moved, passed) && moved <= steps && (done || moved == steps)
    requires (steps > 0 ==> passed < 10 * steps) && (moved == 0 ==> passed == 0)
    ensures MovedSome(t, i, idx, steps, done)
  {
  }

  lemma AllDone<K, V>(t: seq<Chain<K, V>>, i: nat, idx: nat, moved: nat, passed: nat, steps: nat)
    requires Progress(t, i, idx, moved, passed) && moved <= steps && (moved > 0 ==> passed < 10 * steps)
    requires forall b :: idx <= b < |t| ==> t[b] == []
    requires moved == 0 ==> passed == 0
    ensures Finishes(t, i, steps)
  {
    FullZero(t, idx, |t|);
    FullSplit(t, i, idx, |t|);
    if moved > 0 {
      assert EndsAt(t, i, idx);
    }
  }

  // With a bucket left, the end lies beyond it, and so do all that was counted.
  lemma NotDone<K, V>(t: seq<Chain<K, V>>, i: nat, idx: nat, steps: nat, b: nat)
    requires i <= idx <= b < |t| && t[b] != []
    requires Full(t, i, idx) >= steps || idx - i - Full(t, i, idx) >= 10 * steps
    ensures !Finishes(t, i, steps)
  {
    FullSplit(t, i, idx, |t|);
    FullZero(t, idx, |t|);
    forall e: nat | EndsAt(t, i, e)
      ensures Full(t, i, e) > steps || e - i - Full(t, i, e) >= 10 * steps
    {
      FullZero(t, e, |t|);
      FullSplit(t, i, idx, e);
      FullZero(t, idx, e);
    }
  }

  // ht[0] is empty: ht[1] takes its place.
  lemma TakePlace<K(!new), V>(d: Tables<K, V>, hash: K -> Word, m0: map<K, V>, m1: map<K, V>)
    requires Represents(d, hash, m0, m1) && Rehashing(d) && d.ht0.used == 0
    ensures Represents(Tables(d.ht1, Ht(0, [], 0), -1), hash, m1, map[])
    ensures m1 + map[] == m0 + m1
  {
    assert m0 == map[];
    EmptyTableHoldsNothing<K, V>(Ht(0, [], 0), hash);
  }

  lemma EmptyTableHoldsNothing<K(!new), V>(ht: Ht<K, V>, hash: K -> Word)
    requires ht.used == 0 && ht.bits < WORD_BITS
    requires ht.table == [] || |ht.table| == Pow2(ht.bits)
    requires forall b :: 0 <= b < |ht.table| ==> ht.table[b] == []
    ensures Holds(ht, hash, map[])
  {
    TotalLenZero(ht.table);
  }

  // The smallest exponent from `bits` on whose power of two is at least `size`: `_dictNextPower`.
  function NextPowerBits(size: nat, bits: nat): (r: nat)
    ensures r >= bits && size <= Pow2(r)
    ensures forall i :: bits <= i < r ==> Pow2(i) < size
    decreases size - Pow2(bits)
  {
    if Pow2(bits) >= size then bits else NextPowerBits(size, bits + 1)
  }

  // dictSize() counts the keys of the map.
  lemma SizeIsCount<K(!new), V>(d: Tables<K, V>, hash: K -> Word, m0: map<K, V>, m1: map<K, V>)
    requires Represents(d, hash, m0, m1)
    ensures |m0 + m1| == d.ht0.used + d.ht1.used
  {
    assert (m0 + m1).Keys == m0.Keys + m1.Keys;
    assert |(m0 + m1).Keys| == |m0.Keys| + |m1.Keys|;
  }

  // ---- Operations on one of the two tables ----

  function Table<K, V>(d: Tables<K, V>, t: nat): Ht<K, V> { if t == 0 then d.ht0 else d.ht1 }

  function WithTable<K, V>(d: Tables<K, V>, t: nat, ht: Ht<K, V>): Tables<K, V>
  {
    if t == 0 then d.(ht0 := ht) else d.(ht1 := ht)
  }

  ghost function Part<K, V>(m0: map<K, V>, m1: map<K, V>, t: nat): map<K, V> { if t == 0 then m0 else m1 }

  // Editing one bucket keeps the shape: below rehashidx a bucket of ht[0] may only become (stay) empty.
  lemma ShapeAfterEdit<K, V>(d: Tables<K, V>, t: nat, ht: Ht<K, V>, b: nat, c: Chain<K, V>)
    requires RehashShape(d) && t <= 1 && (t == 1 ==> Rehashing(d))
    requires b < |Table(d, t).table| && ht.table == Table(d, t).table[b := c]
    requires t == 0 && Rehashing(d) ==> Table(d, t).table[b] != []
    ensures RehashShape(WithTable(d, t, ht))
  {
  }

  // Table t is replaced by one that holds m.
  lemma Reassemble<K(!new), V>(d: Tables<K, V>, hash: K -> Word, m0: map<K, V>, m1: map<K, V>,
                               t: nat, ht: Ht<K, V>, m: map<K, V>)
    requires Represents(d, hash, m0, m1) && t <= 1 && Holds(ht, hash, m)
    requires RehashShape(WithTable(d, t, ht)) && m.Keys !! Part(m0, m1, 1 - t).Keys
    ensures Represents(WithTable(d, t, ht), hash, if t == 0 then m else m0, if t == 0 then m1 else m)
  {
  }

  lemma UnlinkKeeps<K(!new), V>(d: Tables<K, V>, hash: K -> Word, m0: map<K, V>, m1: map<K, V>,
                                t: nat, b: nat, i: nat, ht: Ht<K, V>)
    requires Represents(d, hash, m0, m1) && t <= 1 && b < |Table(d, t).table| && i < |Table(d, t).table[b]|
    requires var o := Table(d, t);
             ht == Ht(o.bits, o.table[b := o.table[b][..i] + o.table[b][i + 1..]], o.used - 1)
    ensures var k := Table(d, t).table[b][i].key;
            && Represents(WithTable(d, t, ht), hash, m0 - {k}, m1 - {k})
            && k in Part(m0, m1, t)
  {
    var o, m := Table(d, t), Part(m0, m1, t);
    var k := o.table[b][i].key;
    EntryInMap(o, hash, m, b, i);
    HtUnlink(o, ht, hash, m, b, i);
    ShapeAfterEdit(d, t, ht, b, ht.table[b]);
    Reassemble(d, hash, m0, m1, t, ht, m - {k});
    var other := Part(m0, m1, 1 - t);
    assert other - {k} == other;
  }

  lemma SetValKeeps<K(!new), V>(d: Tables<K, V>, hash: K -> Word, m0: map<K, V>, m1: map<K, V>,
                                t: nat, b: nat, i: nat, v: V, ht: Ht<K, V>)
    requires Represents(d, hash, m0, m1) && t <= 1 && b < |Table(d, t).table| && i < |Table(d, t).table[b]|
    requires var o := Table(d, t);
             ht == Ht(o.bits, o.table[b := o.table[b][i := Entry(o.table[b][i].key, v)]], o.used)
    ensures var k := Table(d, t).table[b][i].key;
            var m := Part(m0, m1, t);
            && k in m
            && Represents(WithTable(d, t, ht), hash, if t == 0 then m[k := v] else m0, if t == 0 then m1 else m[k := v])
  {
    var o, m := Table(d, t), Part(m0, m1, t);
    var k := o.table[b][i].key;
    EntryInMap(o, hash, m, b, i);
    HtSetVal(o, ht, hash, m, b, i, v);
    ShapeAfterEdit(d, t, ht, b, ht.table[b]);
    assert m[k := v].Keys == m.Keys;
    Reassemble(d, hash, m0, m1, t, ht, m[k := v]);
  }

  lemma InsertKeeps<K(!new), V>(d: Tables<K, V>, hash: K -> Word, m0: map<K, V>, m1: map<K, V>,
                                t: nat, b: nat, k: K, v: V, ht: Ht<K, V>)
    requires Represents(d, hash, m0, m1) && d.ht0.table != [] && k !in m0 && k !in m1
    requires t == (if Rehashing(d) then 1 else 0) && b == Index(hash(k), Table(d, t).bits)
    requires var o := Table(d, t);
             ht == Ht(o.bits, o.table[b := [Entry(k, v)] + o.table[b]], o.used + 1)
    ensures var m := Part(m0, m1, t)[k := v];
            Represents(WithTable(d, t, ht), hash, if t == 0 then m else m0, if t == 0 then m1 else m)
  {
    var o, m := Table(d, t), Part(m0, m1, t);
    HtInsert(o, ht, hash, m, k, v);
    ShapeAfterEdit(d, t, ht, b, ht.table[b]);
    Reassemble(d, hash, m0, m1, t, ht, m[k := v]);
  }
}
