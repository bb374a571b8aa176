/**
dictScan over the two-table dictionary: what one call emits, and what a whole run of calls emits
while the dictionary changes between the calls.
*/
module DictScan {
  import opened Words
  import opened ScanCursor
  import opened DictModel

  // ---- One call ----

  // The tables of the two are taken so that the first is not larger than the second.
  function Smaller<K, V>(d: Tables<K, V>): Ht<K, V>
  {
    if Rehashing(d) && |d.ht0.table| > |d.ht1.table| then d.ht1 else d.ht0
  }

  function Larger<K, V>(d: Tables<K, V>): Ht<K, V>
  {
    if Rehashing(d) && |d.ht0.table| > |d.ht1.table| then d.ht0 else d.ht1
  }

  // The state a scan call may meet: well-formed tables in a possible stage of a rehash.
  ghost predicate Scannable<K(!new), V>(d: Tables<K, V>, hash: K -> Word)
  {
    HtValid(d.ht0, hash) && HtValid(d.ht1, hash) && RehashShape(d)
  }

  lemma SmallerHasFewerBits<K(!new), V>(d: Tables<K, V>, hash: K -> Word)
    requires Scannable(d, hash) && Rehashing(d)
    ensures Smaller(d).bits <= Larger(d).bits && Smaller(d).table != [] && Larger(d).table != []
  {
    var a, b := Smaller(d).bits, Larger(d).bits;
    if b < a {
      Pow2Monotonic(b, a);
    }
  }

  // What the call hands to the callback.
  ghost predicate Emits<K(!new), V>(d: Tables<K, V>, hash: K -> Word, v: Word, e: Entry<K, V>)
    requires Scannable(d, hash)
  {
    if d.ht0.used + d.ht1.used == 0 then false
    else if !Rehashing(d) then e in d.ht0.table[Index(v, d.ht0.bits)]
    else
      SmallerHasFewerBits(d, hash);
      || e in Smaller(d).table[Index(v, Smaller(d).bits)]
      || exists b: Bits :: InLargerBucket(d, hash, v, e, b)
  }

  ghost predicate InLargerBucket<K(!new), V>(d: Tables<K, V>, hash: K -> Word, v: Word, e: Entry<K, V>, b: Bits)
    requires Scannable(d, hash) && Rehashing(d)
  {
    SmallerHasFewerBits(d, hash);
    VisitedWith(Larger(d).table, v, Smaller(d).bits, Larger(d).bits, b, e)
  }

  function NextOf<K, V>(d: Tables<K, V>, v: Word): Word
    requires Smaller(d).bits <= WORD_BITS
  {
    if d.ht0.used + d.ht1.used == 0 then Zeros(WORD_BITS) else NextCursor(v, Smaller(d).bits)
  }

  // `v & (m0 ^ m1)` is zero exactly when the bits between the masks are.
  lemma MaskDifference(v: Word, k0: nat, k1: nat)
    requires k0 <= k1 <= WORD_BITS
    ensures !BitsBetween(v, k0, k1) <==> v[k0..k1] == Zeros(k1 - k0)
  {
    var w := And(v, Xor(Mask(k0, WORD_BITS), Mask(k1, WORD_BITS)));
    assert forall i :: 0 <= i < WORD_BITS ==> w[i] == (k0 <= i < k1 && v[i]);
    if v[k0..k1] == Zeros(k1 - k0) {
      forall i | k0 <= i < k1 ensures !v[i] {
        assert v[i] == v[k0..k1][i - k0];
      }
      assert w == Zeros(WORD_BITS);
    } else {
      var i :| 0 <= i < k1 - k0 && v[k0..k1][i];
      assert w[k0 + i];
    }
  }

  // `v & (m0 ^ m1)`
  predicate BitsBetween(v: Word, k0: nat, k1: nat)
    requires k0 <= k1 <= WORD_BITS
  {
    And(v, Xor(Mask(k0, WORD_BITS), Mask(k1, WORD_BITS))) != Zeros(WORD_BITS)
  }

  // The high bits count up, and only the all-ones counter brings them back to zero.
  lemma StepOfExpansion(w: Word, k0: nat, k1: nat)
    requires k0 <= k1 <= WORD_BITS
    ensures var w' := NextExpansion(w, k0);
            && w'[..k0] == w[..k0]
            && Val(w[k0..k1]) < Pow2(k1 - k0)
            && (if BitsBetween(w', k0, k1) then Val(w'[k0..k1]) == Val(w[k0..k1]) + 1
                 else Val(w[k0..k1]) + 1 == Pow2(k1 - k0))
  {
    var x := w[k0..k1];
    var w' := NextExpansion(w, k0);
    NextExpansionIncrementsHighBits(w, k0);
    assert w[k0..][..k1 - k0] == x;
    IncPrefix(w[k0..], k1 - k0);
    assert w'[k0..k1] == Inc(x);
    IncAddsOne(x);
    OnesAreMaximal(x);
    MaskDifference(w', k0, k1);
    ValOfZeros(k1 - k0);
    ValInjective(w'[k0..k1], Zeros(k1 - k0));
  }

  lemma {:induction false} OnesAreMaximal(x: Bits)
    ensures x == Ones(|x|) <==> Val(x) == Pow2(|x|) - 1
  {
    if x != [] {
      OnesAreMaximal(x[1..]);
      assert x == Ones(|x|) <==> x[0] && x[1..] == Ones(|x| - 1);
    }
  }

  // The buckets of the larger table from cursor w on, in the order the loop visits them.
  function Expansions<K, V>(table: seq<Chain<K, V>>, w: Word, k0: nat, k1: nat): (r: Chain<K, V>)
    requires k0 <= k1 <= WORD_BITS && |table| == Pow2(k1)
    decreases Pow2(k1 - k0) - Val(w[k0..k1])
  {
    StepOfExpansion(w, k0, k1);
    var w' := NextExpansion(w, k0);
    table[Index(w, k1)] + (if BitsBetween(w', k0, k1) then Expansions(table, w', k0, k1) else [])
  }

  // The loop over the expansions of the cursor in the larger table (dict.c 893-905).
  method ScanExpansions<K, V>(table: seq<Chain<K, V>>, v: Word, k0: nat, k1: nat)
    returns (emitted: seq<Entry<K, V>>, w: Word)
    requires k0 <= k1 <= WORD_BITS && |table| == Pow2(k1)
    ensures w[..k0] == v[..k0]
    ensures emitted == Expansions(table, v, k0, k1)
  {
    w := v;
    emitted := [];
    var again := true;
    while again
      invariant w[..k0] == v[..k0]
      invariant emitted + (if again then Expansions(table, w, k0, k1) else []) == Expansions(table, v, k0, k1)
      decreases if again then 1 + Pow2(k1 - k0) - Val(w[k0..k1]) else 0
    {
      StepOfExpansion(w, k0, k1);
      emitted := emitted + table[Index(w, k1)];
      w := NextExpansion(w, k0);
      again := BitsBetween(w, k0, k1);
    }
  }

  // Those are the buckets of `Visited`, no more and no less.
  lemma {:induction false} ExpansionsAreVisited<K, V>(table: seq<Chain<K, V>>, w: Word, k0: nat, k1: nat,
                                                      e: Entry<K, V>)
    requires k0 <= k1 <= WORD_BITS && |table| == Pow2(k1)
    ensures e in Expansions(table, w, k0, k1) <==> exists b: Bits :: VisitedWith(table, w, k0, k1, b, e)
    decreases Pow2(k1 - k0) - Val(w[k0..k1])
  {
    var c := w[..k1];
    var w' := NextExpansion(w, k0);
    StepOfExpansion(w, k0, k1);
    VisitedFirst(c, w, k0, k1);
    if e in table[Index(w, k1)] {
      assert VisitedWith(table, w, k0, k1, c, e);
    }
    if BitsBetween(w', k0, k1) {
      ExpansionsAreVisited(table, w', k0, k1, e);
      if b: Bits :| VisitedWith(table, w', k0, k1, b, e) {
        VisitedFirst(b, w, k0, k1);
        assert VisitedWith(table, w, k0, k1, b, e);
      }
    }
    if b: Bits :| VisitedWith(table, w, k0, k1, b, e) {
      VisitedFirst(b, w, k0, k1);
      assert b != c ==> VisitedWith(table, w', k0, k1, b, e);
    }
  }

  ghost predicate VisitedWith<K, V>(table: seq<Chain<K, V>>, v: Word, k0: nat, k1: nat, b: Bits, e: Entry<K, V>)
    requires k0 <= k1 <= WORD_BITS && |table| == Pow2(k1)
  {
    |b| == k1 && Visited(b, v, k0, k1) && e in table[Val(b)]
  }

  // The first bucket visited is the cursor's own; the others are those of the next cursor.
  lemma VisitedFirst(b: Bits, w: Word, k0: nat, k1: nat)
    requires k0 <= k1 <= WORD_BITS && |b| == k1
    ensures var w' := NextExpansion(w, k0);
            Visited(b, w, k0, k1) <==> b == w[..k1] || (BitsBetween(w', k0, k1) && Visited(b, w', k0, k1))
  {
    var c := w[..k1];
    StepOfExpansion(w, k0, k1);
    assert c[..k0] == w[..k0] && c[k0..] == w[k0..k1];
    ValInjective(b[k0..], c[k0..]);
    assert b == b[..k0] + b[k0..] && c == c[..k0] + c[k0..];
  }

  // The entries a call hands to the callback, in order.
  ghost function Emitted<K(!new), V>(d: Tables<K, V>, hash: K -> Word, v: Word): Chain<K, V>
    requires Scannable(d, hash)
  {
    if d.ht0.used + d.ht1.used == 0 then []
    else if !Rehashing(d) then d.ht0.table[Index(v, d.ht0.bits)]
    else
      SmallerHasFewerBits(d, hash);
      var t0, t1 := Smaller(d), Larger(d);
      t0.table[Index(v, t0.bits)] + Expansions(t1.table, v, t0.bits, t1.bits)
  }

  lemma EmittedIff<K(!new), V(!new)>(d: Tables<K, V>, hash: K -> Word, v: Word, e: Entry<K, V>)
    requires Scannable(d, hash)
    ensures e in Emitted(d, hash, v) <==> Emits(d, hash, v, e)
  {
    if d.ht0.used + d.ht1.used != 0 && Rehashing(d) {
      SmallerHasFewerBits(d, hash);
      var t0, t1 := Smaller(d), Larger(d);
      ExpansionsAreVisited(t1.table, v, t0.bits, t1.bits, e);
      if b: Bits :| VisitedWith(t1.table, v, t0.bits, t1.bits, b, e) {
        assert InLargerBucket(d, hash, v, e, b);
      }
    }
  }

  // dictScan
  method Scan<K(!new), V(!new)>(d: Tables<K, V>, ghost hash: K -> Word, v: Word)
    returns (emitted: seq<Entry<K, V>>, next: Word)
    requires Scannable(d, hash)
    ensures emitted == Emitted(d, hash, v)
    ensures forall e :: e in emitted <==> Emits(d, hash, v, e)
    ensures Apart(d, hash) ==> Unique(emitted)
    ensures next == NextOf(d, v)
  {
    forall e ensures e in Emitted(d, hash, v) <==> Emits(d, hash, v, e) {
      EmittedIff(d, hash, v, e);
    }
    if Apart(d, hash) {
      EmittedOnce(d, hash, v);
    }
    if d.ht0.used + d.ht1.used == 0 {
      return [], Zeros(WORD_BITS);
    }
    var k0, w := Smaller(d).bits, v;
    if !Rehashing(d) {
      emitted := d.ht0.table[Index(v, k0)];
    } else {
      SmallerHasFewerBits(d, hash);
      var t0, t1 := Smaller(d), Larger(d);
      emitted := t0.table[Index(v, k0)];
      var rest;
      rest, w := ScanExpansions(t1.table, v, k0, t1.bits);
      emitted := emitted + rest;
    }
    SameNext(v, w, k0);
    w := Or(w, Not(Mask(k0, WORD_BITS)));
    w := Rev(w);
    w := Inc(w);
    next := Rev(w);
  }

  lemma SameNext(v: Word, w: Word, k: nat)
    requires k <= WORD_BITS && v[..k] == w[..k]
    ensures NextCursor(v, k) == NextCursor(w, k)
  {
    NextCursorIsSuccessor(v, k);
    NextCursorIsSuccessor(w, k);
  }

  // Each call makes the reversed cursor a greater number, or ends the scan.
  lemma ScanAdvances<K(!new), V>(d: Tables<K, V>, hash: K -> Word, v: Word)
    requires Scannable(d, hash)
    ensures NextOf(d, v) == Zeros(WORD_BITS) || Val(Reverse(NextOf(d, v))) > Val(Reverse(v))
  {
    var k := Smaller(d).bits;
    RevValIsValOfReverse(v);
    RevValIsValOfReverse(NextOf(d, v));
    RevLessIsNumeric(v, v);
    CallMovesPastOwed(v, v, k);
    RevLessIsNumeric(v, NextCursor(v, k));
  }

  // ---- No key twice in one call ----

  // No key is in both tables.
  ghost predicate Apart<K(!new), V>(d: Tables<K, V>, hash: K -> Word)
    requires Scannable(d, hash)
  {
    forall k :: HtGet(d.ht0, hash, k) == None || HtGet(d.ht1, hash, k) == None
  }

  lemma RepresentsApart<K(!new), V>(d: Tables<K, V>, hash: K -> Word, m0: map<K, V>, m1: map<K, V>)
    requires Represents(d, hash, m0, m1)
    ensures Scannable(d, hash) && Apart(d, hash)
  {
    forall k ensures HtGet(d.ht0, hash, k) == None || HtGet(d.ht1, hash, k) == None {
      assert Agrees(d.ht0, hash, m0, k) && Agrees(d.ht1, hash, m1, k);
    }
  }

  lemma UniqueAppend<K, V>(a: Chain<K, V>, b: Chain<K, V>)
    requires Unique(a) && Unique(b)
    requires forall x, y :: x in a && y in b ==> x.key != y.key
    ensures Unique(a + b)
  {
    var c := a + b;
    forall i, j | 0 <= i < j < |c|
      ensures c[i].key != c[j].key
    {
      if i < |a| <= j {
        assert a[i] in a && b[j - |a|] in b;
      }
    }
  }

  // An entry of a table is in the bucket of its hash, and the table answers for its key.
  lemma EntryPlace<K(!new), V>(ht: Ht<K, V>, hash: K -> Word, b: nat, e: Entry<K, V>)
    requires HtValid(ht, hash) && b < |ht.table| && e in ht.table[b]
    ensures Index(hash(e.key), ht.bits) == b && HtGet(ht, hash, e.key) == Some(e.val)
  {
    var c := ht.table[b];
    assert BucketOk(c, hash, ht.bits, b);
    var i :| 0 <= i < |c| && c[i] == e;
    ChainGetAt(c, i);
  }

  // Every later bucket of the expansion loop has greater bits between the masks.
  lemma LaterBucketDiffers(b: Bits, w: Word, k0: nat, k1: nat)
    requires k0 <= k1 <= WORD_BITS && |b| == k1
    requires var w' := NextExpansion(w, k0); BitsBetween(w', k0, k1) && Visited(b, w', k0, k1)
    ensures Val(b) != Index(w, k1)
  {
    StepOfExpansion(w, k0, k1);
    ValInjective(b, w[..k1]);
    assert w[..k1][k0..] == w[k0..k1];
  }

  lemma {:induction false} ExpansionsOnce<K(!new), V>(ht: Ht<K, V>, hash: K -> Word, w: Word, k0: nat)
    requires HtValid(ht, hash) && ht.table != [] && k0 <= ht.bits
    ensures Unique(Expansions(ht.table, w, k0, ht.bits))
    decreases Pow2(ht.bits - k0) - Val(w[k0..ht.bits])
  {
    var k1 := ht.bits;
    var first, w' := ht.table[Index(w, k1)], NextExpansion(w, k0);
    StepOfExpansion(w, k0, k1);
    assert BucketOk(first, hash, k1, Index(w, k1));
    if BitsBetween(w', k0, k1) {
      ExpansionsOnce(ht, hash, w', k0);
      var rest := Expansions(ht.table, w', k0, k1);
      forall x, y | x in first && y in rest
        ensures x.key != y.key
      {
        ExpansionsAreVisited(ht.table, w', k0, k1, y);
        var b: Bits :| VisitedWith(ht.table, w', k0, k1, b, y);
        LaterBucketDiffers(b, w, k0, k1);
        EntryPlace(ht, hash, Val(b), y);
        EntryPlace(ht, hash, Index(w, k1), x);
      }
      UniqueAppend(first, rest);
    } else {
      assert first + [] == first;
    }
  }

  lemma ExpansionIsHeld<K(!new), V>(ht: Ht<K, V>, hash: K -> Word, w: Word, k0: nat, e: Entry<K, V>)
    requires HtValid(ht, hash) && ht.table != [] && k0 <= ht.bits && e in Expansions(ht.table, w, k0, ht.bits)
    ensures HtGet(ht, hash, e.key).Some?
  {
    ExpansionsAreVisited(ht.table, w, k0, ht.bits, e);
    var b: Bits :| VisitedWith(ht.table, w, k0, ht.bits, b, e);
    EntryPlace(ht, hash, Val(b), e);
  }

  // One call hands out no key twice, in the middle of a rehash or not.
  lemma EmittedOnce<K(!new), V>(d: Tables<K, V>, hash: K -> Word, v: Word)
    requires Scannable(d, hash) && Apart(d, hash)
    ensures Unique(Emitted(d, hash, v))
  {
    if d.ht0.used + d.ht1.used != 0 {
      if !Rehashing(d) {
        assert BucketOk(d.ht0.table[Index(v, d.ht0.bits)], hash, d.ht0.bits, Index(v, d.ht0.bits));
      } else {
        SmallerHasFewerBits(d, hash);
        var t0, t1 := Smaller(d), Larger(d);
        var b := Index(v, t0.bits);
        var first, rest := t0.table[b], Expansions(t1.table, v, t0.bits, t1.bits);
        assert BucketOk(first, hash, t0.bits, b);
        ExpansionsOnce(t1, hash, v, t0.bits);
        forall x, y | x in first && y in rest
          ensures x.key != y.key
        {
          EntryPlace(t0, hash, b, x);
          ExpansionIsHeld(t1, hash, v, t0.bits, y);
        }
        UniqueAppend(first, rest);
      }
    }
  }

  // The returned cursor has no bit above the mask of the smaller table.
  lemma NextFitsMask<K(!new), V>(d: Tables<K, V>, hash: K -> Word, v: Word, i: nat)
    requires Scannable(d, hash) && Smaller(d).bits <= i < WORD_BITS
    ensures !NextOf(d, v)[i]
  {
    NextCursorIsSuccessor(v, Smaller(d).bits);
  }

  // ---- Whole runs ----

  /* The dictionary as each call of a scan finds it, and the cursors: the first is 0 and each call
     gets the cursor the previous one returned. Nothing is said about what happens to the
     dictionary between two calls. */
  ghost predicate ScanRun<K(!new), V>(ds: seq<Tables<K, V>>, hash: K -> Word, cs: seq<Word>)
  {
    && |cs| == |ds| + 1
    && cs[0] == Zeros(WORD_BITS)
    && (forall i :: 0 <= i < |ds| ==> Scannable(ds[i], hash))
    && (forall i :: 0 <= i < |ds| ==> cs[i + 1] == NextOf(ds[i], cs[i]))
  }

  // No call in the middle of a rehash has a cursor with a one above a zero between the two masks.
  ghost predicate GoodCall<K(!new), V>(d: Tables<K, V>, hash: K -> Word, v: Word)
    requires Scannable(d, hash)
  {
    Rehashing(d) ==>
      (SmallerHasFewerBits(d, hash); OnesThenZeros(v[Smaller(d).bits..Larger(d).bits]))
  }

  ghost predicate Present<K(!new), V>(d: Tables<K, V>, hash: K -> Word, k: K)
    requires Scannable(d, hash)
  {
    HtGet(d.ht0, hash, k).Some? || HtGet(d.ht1, hash, k).Some?
  }

  ghost predicate EmitsKey<K(!new), V(!new)>(d: Tables<K, V>, hash: K -> Word, v: Word, k: K)
    requires Scannable(d, hash)
  {
    exists e :: Emits(d, hash, v, e) && e.key == k
  }

  // A table that answers for k has k in the bucket its hash selects.
  lemma FoundInBucket<K(!new), V>(ht: Ht<K, V>, hash: K -> Word, k: K) returns (e: Entry<K, V>)
    requires HtValid(ht, hash) && HtGet(ht, hash, k).Some?
    ensures ht.table != [] && e in ht.table[Index(hash(k), ht.bits)] && e.key == k
    ensures ht.used != 0
  {
    var c := ht.table[Index(hash(k), ht.bits)];
    ChainGetMember(c, k);
    var i :| 0 <= i < |c| && c[i].key == k;
    e := c[i];
    TotalLenZero(ht.table);
  }

  // A good call emits every present key it moves past.
  lemma GoodCallEmitsOwed<K(!new), V(!new)>(d: Tables<K, V>, hash: K -> Word, v: Word, k: K)
    requires Scannable(d, hash) && GoodCall(d, hash, v) && Present(d, hash, k)
    requires Owed(hash(k), v, Smaller(d).bits)
    ensures EmitsKey(d, hash, v, k)
  {
    var h := hash(k);
    var k0 := Smaller(d).bits;
    if HtGet(d.ht0, hash, k).Some? && (!Rehashing(d) || d.ht0 == Smaller(d)) {
      var e := FoundInBucket(d.ht0, hash, k);
      SameBucket(h, v, k0);
      assert Emits(d, hash, v, e);
    } else if HtGet(Smaller(d), hash, k).Some? {
      var e := FoundInBucket(Smaller(d), hash, k);
      SameBucket(h, v, k0);
      assert Emits(d, hash, v, e);
    } else {
      var t1 := Larger(d);
      SmallerHasFewerBits(d, hash);
      var e := FoundInBucket(t1, hash, k);
      OwedIsVisited(h, v, k0, t1.bits);
      assert InLargerBucket(d, hash, v, e, h[..t1.bits]);
      assert Emits(d, hash, v, e);
    }
  }

  lemma SameBucket(h: Word, v: Word, k: nat)
    requires k <= WORD_BITS && h[..k] == v[..k]
    ensures Index(h, k) == Index(v, k)
  {
  }

  /* The invariant of the design comment: after i good calls, every key that was present at each of
     them and whose reversed hash is below the cursor, or any hash at all once the cursor is back to 0,
     has been emitted. */
  lemma {:induction false} BelowCursorEmitted<K(!new), V(!new)>(ds: seq<Tables<K, V>>, hash: K -> Word,
                                                                cs: seq<Word>, n: nat, k: K)
    requires ScanRun(ds, hash, cs) && n <= |ds|
    requires forall i :: 0 <= i < n ==> GoodCall(ds[i], hash, cs[i]) && Present(ds[i], hash, k)
    requires RevLess(hash(k), cs[n]) || (n > 0 && cs[n] == Zeros(WORD_BITS))
    ensures exists i :: 0 <= i < n && EmitsKey(ds[i], hash, cs[i], k)
  {
    var h := hash(k);
    if n == 0 {
      RevValOfZeros(WORD_BITS);
      RevLessIsNumeric(h, cs[0]);
    } else {
      var d, v := ds[n - 1], cs[n - 1];
      assert Present(d, hash, k) && GoodCall(d, hash, v);
      PresentMeansUsed(d, hash, k);
      CallMovesPastOwed(h, v, Smaller(d).bits);
      if Owed(h, v, Smaller(d).bits) {
        GoodCallEmitsOwed(d, hash, v, k);
      } else {
        BelowCursorEmitted(ds, hash, cs, n - 1, k);
      }
    }
  }

  lemma PresentMeansUsed<K(!new), V>(d: Tables<K, V>, hash: K -> Word, k: K)
    requires Scannable(d, hash) && Present(d, hash, k)
    ensures d.ht0.used + d.ht1.used != 0
  {
    if HtGet(d.ht0, hash, k).Some? {
      var _ := FoundInBucket(d.ht0, hash, k);
    } else {
      var _ := FoundInBucket(d.ht1, hash, k);
    }
  }

  // The guarantee: a scan from cursor 0 back to 0 emits every key present throughout.
  lemma ScanIsComplete<K(!new), V(!new)>(ds: seq<Tables<K, V>>, hash: K -> Word, cs: seq<Word>, k: K)
    requires ScanRun(ds, hash, cs) && ds != [] && cs[|ds|] == Zeros(WORD_BITS)
    requires forall i :: 0 <= i < |ds| ==> GoodCall(ds[i], hash, cs[i])
    requires forall i :: 0 <= i < |ds| ==> Present(ds[i], hash, k)
    ensures exists i :: 0 <= i < |ds| && EmitsKey(ds[i], hash, cs[i], k)
  {
    BelowCursorEmitted(ds, hash, cs, |ds|, k);
  }

  /* A condition on the table sizes alone: each call meets no rehash, or two tables at most one
     doubling apart, or a smaller table not smaller than the one the previous call used. */
  ghost predicate GentleResizing<K(!new), V>(ds: seq<Tables<K, V>>)
  {
    forall i :: 0 <= i < |ds| && Rehashing(ds[i]) ==>
      || Larger(ds[i]).bits <= Smaller(ds[i]).bits + 1
      || (i > 0 ==> Smaller(ds[i - 1]).bits <= Smaller(ds[i]).bits)
  }

  lemma GentleCallsAreGood<K(!new), V>(ds: seq<Tables<K, V>>, hash: K -> Word, cs: seq<Word>, i: nat)
    requires ScanRun(ds, hash, cs) && GentleResizing(ds) && i < |ds|
    ensures GoodCall(ds[i], hash, cs[i])
  {
    var d, v := ds[i], cs[i];
    if Rehashing(d) {
      SmallerHasFewerBits(d, hash);
      var k0, k1 := Smaller(d).bits, Larger(d).bits;
      if k1 > k0 + 1 {
        forall j | 0 <= j < k1 - k0 ensures !v[k0..k1][j] {
          assert v[k0..k1][j] == v[k0 + j];
          if i > 0 {
            NextFitsMask(ds[i - 1], hash, cs[i - 1], k0 + j);
          }
        }
      }
      assert OnesThenZeros(v[k0..k1]);
    }
  }

  // The guarantee for growing, stable and halving tables needs no condition on the cursors.
  lemma GentleScanIsComplete<K(!new), V(!new)>(ds: seq<Tables<K, V>>, hash: K -> Word, cs: seq<Word>, k: K)
    requires ScanRun(ds, hash, cs) && ds != [] && cs[|ds|] == Zeros(WORD_BITS)
    requires GentleResizing(ds)
    requires forall i :: 0 <= i < |ds| ==> Present(ds[i], hash, k)
    ensures exists i :: 0 <= i < |ds| && EmitsKey(ds[i], hash, cs[i], k)
  {
    forall i | 0 <= i < |ds| ensures GoodCall(ds[i], hash, cs[i]) {
      GentleCallsAreGood(ds, hash, cs, i);
    }
    ScanIsComplete(ds, hash, cs, k);
  }

  // ---- Termination ----

  // Cursors below 2^K in all their bits, increasing in reversed order, are at least their position.
  lemma {:induction false} CursorCounts<K(!new), V>(ds: seq<Tables<K, V>>, hash: K -> Word, cs: seq<Word>,
                                                    bits: nat, n: nat)
    requires ScanRun(ds, hash, cs) && n <= |ds| && bits <= WORD_BITS
    requires forall i :: 0 <= i < n ==> Smaller(ds[i]).bits <= bits
    requires forall i :: 0 < i <= n ==> cs[i] != Zeros(WORD_BITS)
    ensures cs[n][bits..] == Zeros(WORD_BITS - bits)
    ensures RevVal(cs[n][..bits]) >= n
  {
    if n > 0 {
      CursorCounts(ds, hash, cs, bits, n - 1);
      var d, v, w := ds[n - 1], cs[n - 1], cs[n];
      assert Smaller(d).bits <= bits && w == NextOf(d, v) && w != Zeros(WORD_BITS);
      CursorStep(d, hash, v, bits);
    }
  }

  lemma CursorStep<K(!new), V>(d: Tables<K, V>, hash: K -> Word, v: Word, bits: nat)
    requires Scannable(d, hash) && Smaller(d).bits <= bits <= WORD_BITS
    requires v[bits..] == Zeros(WORD_BITS - bits) && NextOf(d, v) != Zeros(WORD_BITS)
    ensures NextOf(d, v)[bits..] == Zeros(WORD_BITS - bits)
    ensures RevVal(NextOf(d, v)[..bits]) > RevVal(v[..bits])
  {
    var w := NextOf(d, v);
    forall j | bits <= j < WORD_BITS ensures !w[j] {
      NextFitsMask(d, hash, v, j);
    }
    assert w[bits..] == Zeros(WORD_BITS - bits);
    ScanAdvances(d, hash, v);
    RevValIsValOfReverse(v);
    RevValIsValOfReverse(w);
    RevLessIsNumeric(v, w);
    assert w == w[..bits] + Zeros(WORD_BITS - bits);
    RevLessZeroTail(v, w[..bits]);
    RevLessIsNumeric(v[..bits], w[..bits]);
  }

  // ---- A dictionary that does not change ----

  // What each call of a run hands out, and all of it together.
  ghost function Calls<K(!new), V>(ds: seq<Tables<K, V>>, hash: K -> Word, cs: seq<Word>): seq<Chain<K, V>>
    requires ScanRun(ds, hash, cs)
  {
    seq(|ds|, i requires 0 <= i < |ds| => Emitted(ds[i], hash, cs[i]))
  }

  ghost function Flatten<K, V>(xs: seq<Chain<K, V>>): Chain<K, V>
  {
    if xs == [] then [] else xs[0] + Flatten(xs[1..])
  }

  lemma {:induction false} InFlatten<K, V>(xs: seq<Chain<K, V>>, e: Entry<K, V>)
    ensures e in Flatten(xs) <==> exists i :: 0 <= i < |xs| && e in xs[i]
  {
    if xs != [] {
      InFlatten(xs[1..], e);
      if i :| 0 < i < |xs| && e in xs[i] {
        assert e in xs[1..][i - 1];
      }
    }
  }

  lemma {:induction false} UniqueFlatten<K, V>(xs: seq<Chain<K, V>>)
    requires forall i :: 0 <= i < |xs| ==> Unique(xs[i])
    requires forall i, j, x, y :: 0 <= i < j < |xs| && x in xs[i] && y in xs[j] ==> x.key != y.key
    ensures Unique(Flatten(xs))
  {
    if xs != [] {
      var rest := xs[1..];
      UniqueFlatten(rest);
      forall x, y | x in xs[0] && y in Flatten(rest)
        ensures x.key != y.key
      {
        InFlatten(rest, y);
        var i :| 0 <= i < |rest| && y in rest[i];
        assert y in xs[i + 1];
      }
      UniqueAppend(xs[0], Flatten(rest));
    }
  }

  // A whole scan, from 0 to the first return to 0, over one dictionary that is not being rehashed.
  ghost predicate Stable<K(!new), V>(ds: seq<Tables<K, V>>, hash: K -> Word, cs: seq<Word>, d: Tables<K, V>)
  {
    && ScanRun(ds, hash, cs) && ds != [] && Scannable(d, hash) && !Rehashing(d)
    && (forall i :: 0 <= i < |ds| ==> ds[i] == d)
    && (forall i :: 0 < i < |ds| ==> cs[i] != Zeros(WORD_BITS)) && cs[|ds|] == Zeros(WORD_BITS)
  }

  lemma {:induction false} StableCursorsGrow<K(!new), V>(ds: seq<Tables<K, V>>, hash: K -> Word, cs: seq<Word>,
                                                         d: Tables<K, V>, i: nat, j: nat)
    requires Stable(ds, hash, cs, d) && i < j < |ds|
    ensures RevVal(cs[i][..d.ht0.bits]) < RevVal(cs[j][..d.ht0.bits])
    decreases j
  {
    var bits := d.ht0.bits;
    CursorCounts(ds, hash, cs, bits, j - 1);
    assert cs[j] == NextOf(d, cs[j - 1]);
    CursorStep(d, hash, cs[j - 1], bits);
    if i < j - 1 {
      StableCursorsGrow(ds, hash, cs, d, i, j - 1);
    }
  }

  // An entry handed out by a call is in the bucket of that call's cursor.
  lemma StableBucket<K(!new), V>(d: Tables<K, V>, hash: K -> Word, v: Word, e: Entry<K, V>)
    requires Scannable(d, hash) && !Rehashing(d) && e in Emitted(d, hash, v)
    ensures Index(hash(e.key), d.ht0.bits) == Index(v, d.ht0.bits) && HtGet(d.ht0, hash, e.key) == Some(e.val)
  {
    EntryPlace(d.ht0, hash, Index(v, d.ht0.bits), e);
  }

  // No two calls hand out the same key.
  lemma StableCallsDiffer<K(!new), V>(ds: seq<Tables<K, V>>, hash: K -> Word, cs: seq<Word>, d: Tables<K, V>,
                                      i: nat, j: nat, x: Entry<K, V>, y: Entry<K, V>)
    requires Stable(ds, hash, cs, d) && i < j < |ds|
    requires x in Emitted(d, hash, cs[i]) && y in Emitted(d, hash, cs[j])
    ensures x.key != y.key
  {
    StableBucket(d, hash, cs[i], x);
    StableBucket(d, hash, cs[j], y);
    StableCursorsGrow(ds, hash, cs, d, i, j);
    ValInjective(cs[i][..d.ht0.bits], cs[j][..d.ht0.bits]);
  }

  lemma StableUnique<K(!new), V(!new)>(ds: seq<Tables<K, V>>, hash: K -> Word, cs: seq<Word>, d: Tables<K, V>)
    requires Stable(ds, hash, cs, d)
    ensures Unique(Flatten(Calls(ds, hash, cs)))
  {
    var xs := Calls(ds, hash, cs);
    forall i | 0 <= i < |xs|
      ensures Unique(xs[i])
    {
      EmittedOnce(d, hash, cs[i]);
    }
    forall i, j, x: Entry<K, V>, y: Entry<K, V> | 0 <= i < j < |xs| && x in xs[i] && y in xs[j]
      ensures x.key != y.key
    {
      StableCallsDiffer(ds, hash, cs, d, i, j, x, y);
    }
    UniqueFlatten(xs);
  }

  /* A whole scan of a dictionary that does not change hands out its keys, each with its value, each by exactly one
     call and once: no key is at two positions of all that was handed out. */
  lemma StableScanExact<K(!new), V(!new)>(ds: seq<Tables<K, V>>, hash: K -> Word, cs: seq<Word>, d: Tables<K, V>)
    requires Stable(ds, hash, cs, d)
    ensures Unique(Flatten(Calls(ds, hash, cs)))
    ensures forall e :: e in Flatten(Calls(ds, hash, cs)) <==> HtGet(d.ht0, hash, e.key) == Some(e.val)
  {
    StableUnique(ds, hash, cs, d);
    forall e
      ensures e in Flatten(Calls(ds, hash, cs)) <==> HtGet(d.ht0, hash, e.key) == Some(e.val)
    {
      StableScanHas(ds, hash, cs, d, e);
    }
  }

  lemma StableScanHas<K(!new), V(!new)>(ds: seq<Tables<K, V>>, hash: K -> Word, cs: seq<Word>, d: Tables<K, V>,
                                        e: Entry<K, V>)
    requires Stable(ds, hash, cs, d)
    ensures e in Flatten(Calls(ds, hash, cs)) <==> HtGet(d.ht0, hash, e.key) == Some(e.val)
  {
    var xs := Calls(ds, hash, cs);
    InFlatten(xs, e);
    if i :| 0 <= i < |xs| && e in xs[i] {
      StableBucket(d, hash, cs[i], e);
    }
    if HtGet(d.ht0, hash, e.key) == Some(e.val) {
      assert Present(d, hash, e.key);
      ScanIsComplete(ds, hash, cs, e.key);
      var i :| 0 <= i < |ds| && EmitsKey(ds[i], hash, cs[i], e.key);
      var x :| Emits(d, hash, cs[i], x) && x.key == e.key;
      EmittedIff(d, hash, cs[i], x);
      StableBucket(d, hash, cs[i], x);
      assert e in xs[i];
    }
  }

  // ---- The number of calls ----

  // With tables of at most 2^bits buckets, a scan is over after at most 2^bits calls.
  lemma ScanTerminates<K(!new), V>(ds: seq<Tables<K, V>>, hash: K -> Word, cs: seq<Word>, bits: nat)
    requires ScanRun(ds, hash, cs) && bits <= WORD_BITS && |ds| == Pow2(bits)
    requires forall i :: 0 <= i < |ds| ==> Smaller(ds[i]).bits <= bits
    ensures exists i :: 0 < i <= |ds| && cs[i] == Zeros(WORD_BITS)
  {
    if forall i :: 0 < i <= |ds| ==> cs[i] != Zeros(WORD_BITS) {
      CursorCounts(ds, hash, cs, bits, |ds|);
    }
  }
}
