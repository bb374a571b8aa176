/**
The scan guarantee as the design comment of dict.c states it does not hold of the code. Which cursors let a
call during a rehash pass over a key that is in the dictionary, exactly; and a run in which a key is present at
every call and emitted by none. In it a table of 16 buckets starts to shrink to 4 between the first and the
second call, and has finished shrinking at the third.
*/
module ScanCounterexample {
  import opened Words
  import opened ScanCursor
  import opened DictModel
  import opened DictScan

  function OneKeyTable(bits: nat, b: nat): Ht<nat, nat>
    requires b < Pow2(bits)
  {
    Ht(bits, seq(Pow2(bits), _ => [])[b := [Entry(0, 0)]], 1)
  }

  function EmptyTable(bits: nat): Ht<nat, nat>
  {
    Ht(bits, seq(Pow2(bits), _ => []), 0)
  }

  lemma OneKeyTableValid(hash: nat -> Word, bits: nat, b: nat)
    requires b < Pow2(bits) && bits < WORD_BITS && b == Val(hash(0)[..bits])
    ensures HtValid(OneKeyTable(bits, b), hash)
    ensures HtGet(OneKeyTable(bits, b), hash, 0).Some?
  {
    EmptyTableHoldsNothing(EmptyTable(bits), hash);
    BucketEdit(EmptyTable(bits), OneKeyTable(bits, b), hash, b, [Entry(0, 0)]);
  }

  // ---- Which calls are complete ----

  // A dictionary in the middle of a rehash between tables of 2^k0 and 2^k1 buckets.
  ghost predicate Sized(d: Tables<nat, nat>, hash: nat -> Word, k0: nat, k1: nat)
  {
    Scannable(d, hash) && Rehashing(d) && Smaller(d).bits == k0 && Larger(d).bits == k1
  }

  // The call at cursor v passes over key k without handing it to the callback.
  ghost predicate PassesOver(d: Tables<nat, nat>, hash: nat -> Word, v: Word, k: nat)
    requires Scannable(d, hash) && Smaller(d).bits <= WORD_BITS
  {
    Present(d, hash, k) && Owed(hash(k), v, Smaller(d).bits) && !EmitsKey(d, hash, v, k)
  }

  // One key, still in the larger table, in a bucket that the expansion loop does not visit.
  function Shrinking(h: Word, k0: nat, k1: nat): Tables<nat, nat>
    requires k0 <= k1 <= WORD_BITS
  {
    Tables(OneKeyTable(k1, Index(h, k1)), EmptyTable(k0), 0)
  }

  lemma ShrinkingSized(h: Word, hash: nat -> Word, k0: nat, k1: nat)
    requires k0 < k1 < WORD_BITS && hash(0) == h
    ensures Sized(Shrinking(h, k0, k1), hash, k0, k1) && Present(Shrinking(h, k0, k1), hash, 0)
  {
    OneKeyTableValid(hash, k1, Index(h, k1));
    EmptyTableHoldsNothing(EmptyTable(k0), hash);
    Pow2Monotonic(k0, k1);
  }

  lemma ShrinkingNotEmitted(h: Word, hash: nat -> Word, v: Word, k0: nat, k1: nat)
    requires k0 < k1 < WORD_BITS && Sized(Shrinking(h, k0, k1), hash, k0, k1) && !Visited(h[..k1], v, k0, k1)
    ensures !EmitsKey(Shrinking(h, k0, k1), hash, v, 0)
  {
    var d := Shrinking(h, k0, k1);
    Pow2Monotonic(k0, k1);
    forall b: Bits, e
      ensures !VisitedWith(d.ht0.table, v, k0, k1, b, e)
    {
      if |b| == k1 {
        ValInjective(b, h[..k1]);
      }
    }
  }

  lemma PassedOver(v: Word, k0: nat, k1: nat) returns (d: Tables<nat, nat>, hash: nat -> Word)
    requires k0 <= k1 < WORD_BITS && !OnesThenZeros(v[k0..k1])
    ensures Sized(d, hash, k0, k1) && PassesOver(d, hash, v, 0)
  {
    var h: Word := OwedNotVisited(v, k0, k1);
    hash := _ => h;
    d := Shrinking(h, k0, k1);
    ShrinkingSized(h, hash, k0, k1);
    ShrinkingNotEmitted(h, hash, v, k0, k1);
  }

  /* A call during a rehash between these sizes emits every key that it moves past, whatever the dictionary
     holds, if and only if the cursor bits between the two masks are ones and then zeros. */
  lemma CallCompleteIff(v: Word, k0: nat, k1: nat)
    requires k0 <= k1 < WORD_BITS
    ensures OnesThenZeros(v[k0..k1])
            <==> forall d, hash, k :: Sized(d, hash, k0, k1) ==> !PassesOver(d, hash, v, k)
  {
    if OnesThenZeros(v[k0..k1]) {
      forall d, hash, k | Sized(d, hash, k0, k1)
        ensures !PassesOver(d, hash, v, k)
      {
        if Present(d, hash, k) && Owed(hash(k), v, k0) {
          GoodCallEmitsOwed(d, hash, v, k);
        }
      }
    } else {
      var d, hash := PassedOver(v, k0, k1);
    }
  }

  // ---- A whole scan that misses a key ----

  const KEY_HASH: Word := [false, false, true, false] + Zeros(60)   // 0100b

  function Hash(k: nat): Word { KEY_HASH }

  // Cursors 0000b, 1000b, 10b, 01b, 11b and back to 0.
  function Cursor(i: nat): Word
  {
    match i
    case 1 => [false, false, false, true] + Zeros(60)
    case 2 => [false, true] + Zeros(62)
    case 3 => [true, false] + Zeros(62)
    case 4 => [true, true] + Zeros(62)
    case _ => Zeros(WORD_BITS)
  }

  lemma SmallPowers()
    ensures Pow2(2) == 4 && Pow2(4) == 16
  {
  }

  function State(i: nat): Tables<nat, nat>
  {
    SmallPowers();
    if i == 0 then Tables(OneKeyTable(4, 4), Ht(0, [], 0), -1)
    else if i == 1 then Tables(OneKeyTable(4, 4), EmptyTable(2), 0)
    else Tables(OneKeyTable(2, 0), Ht(0, [], 0), -1)
  }

  lemma SmallValues()
    ensures Val(KEY_HASH[..4]) == 4 && Val(KEY_HASH[..2]) == 0
    ensures Val([true, false]) == 1 && Val([false, true]) == 2 && Val([true, true]) == 3
    ensures Val([false, false, false, false]) == 0
  {
    assert KEY_HASH[..4] == [false, false, true, false] && KEY_HASH[..2] == [false, false];
    assert Val([]) == 0;
    assert Val([true]) == 1 + 2 * Val([true][1..]) && Val([false]) == 2 * Val([false][1..]);
    assert [true, false][1..] == [false] && [false, true][1..] == [true] && [true, true][1..] == [true];
    assert [false, true, false][1..] == [true, false] && [false, false, true, false][1..] == [false, true, false];
    assert [false, false][1..] == [false] && [false, false, false][1..] == [false, false];
    assert [false, false, false, false][1..] == [false, false, false];
  }

  lemma NoTableValid()
    ensures HtValid<nat, nat>(Ht(0, [], 0), Hash) && HtGet<nat, nat>(Ht(0, [], 0), Hash, 0) == None
  {
  }

  lemma StatesScannable(i: nat)
    ensures Scannable(State(i), Hash) && Present(State(i), Hash, 0)
  {
    SmallPowers();
    SmallValues();
    NoTableValid();
    if i == 0 {
      OneKeyTableValid(Hash, 4, 4);
    } else if i == 1 {
      OneKeyTableValid(Hash, 4, 4);
      EmptyTableHoldsNothing(EmptyTable(2), Hash);
    } else {
      OneKeyTableValid(Hash, 2, 0);
    }
  }

  lemma SmallSuccessors()
    ensures RevNext([false, false, false, false]) == [false, false, false, true]
    ensures RevNext([false, false]) == [false, true] && RevNext([false, true]) == [true, false]
    ensures RevNext([true, false]) == [true, true] && RevNext([true, true]) == [false, false]
  {
    assert RevNext([]) == [];
    assert [true][..0] == [] && [false][..0] == [];
    assert RevNext([true]) == [false] && RevNext([false]) == [true];
    assert [false, true][..1] == [false] && [true, true][..1] == [true];
    assert [true, false][..1] == [true] && [false, false][..1] == [false];
  }

  // The low k bits of the cursor of call i, where k is the exponent of the smaller table.
  lemma LowBits(i: nat)
    requires i < 5
    ensures i == 0 ==> Cursor(i)[..4] == [false, false, false, false]
    ensures i == 1 ==> Cursor(i)[..2] == [false, false] && Cursor(i)[2..4] == [false, true]
    ensures i == 2 ==> Cursor(i)[..2] == [false, true]
    ensures i == 3 ==> Cursor(i)[..2] == [true, false]
    ensures i == 4 ==> Cursor(i)[..2] == [true, true]
  {
  }

  lemma CursorsFollow(i: nat)
    requires i < 5
    ensures Cursor(i + 1) == NextOf(State(i), Cursor(i))
  {
    SmallPowers();
    SmallSuccessors();
    LowBits(i);
    var k := Smaller(State(i)).bits;
    assert k == if i == 0 then 4 else 2;
    NextCursorIsSuccessor(Cursor(i), k);
    assert i == 4 ==> [false, false] + Zeros(62) == Zeros(64);
  }

  lemma NotEmitted(i: nat)
    requires i < 5 && Scannable(State(i), Hash)
    ensures !EmitsKey(State(i), Hash, Cursor(i), 0)
  {
    SmallPowers();
    SmallValues();
    LowBits(i);
    if i == 1 {
      forall b: Bits, e ensures !VisitedWith(State(1).ht0.table, Cursor(1), 2, 4, b, e) {
        NotVisited(b, e);
      }
    }
  }

  // Only bucket 0100b has an entry, and the expansion loop starts past it.
  lemma NotVisited(b: Bits, e: Entry<nat, nat>)
    requires Pow2(4) == 16
    ensures !VisitedWith(State(1).ht0.table, Cursor(1), 2, 4, b, e)
  {
    SmallValues();
    LowBits(1);
    if |b| == 4 {
      ValInjective(b, KEY_HASH[..4]);
      assert KEY_HASH[..4][2..] == [true, false];
    }
  }

  // A call at which key 0 is in the dictionary and is not emitted.
  ghost predicate Misses(d: Tables<nat, nat>, c: Word, next: Word)
  {
    Scannable(d, Hash) && Present(d, Hash, 0) && !EmitsKey(d, Hash, c, 0) && next == NextOf(d, c)
  }

  lemma CallMisses(i: nat) returns (d: Tables<nat, nat>)
    requires i < 5
    ensures Misses(d, Cursor(i), Cursor(i + 1))
  {
    StatesScannable(i);
    CursorsFollow(i);
    NotEmitted(i);
    d := State(i);
  }

  // The first n calls.
  ghost predicate MissingRun(ds: seq<Tables<nat, nat>>, cs: seq<Word>)
  {
    && |cs| == |ds| + 1 && cs[0] == Zeros(WORD_BITS)
    && forall i :: 0 <= i < |ds| ==> Misses(ds[i], cs[i], cs[i + 1])
  }

  lemma {:induction false} FirstCalls(n: nat) returns (ds: seq<Tables<nat, nat>>, cs: seq<Word>)
    requires n <= 5
    ensures MissingRun(ds, cs) && |ds| == n && cs[n] == Cursor(n)
  {
    if n == 0 {
      ds, cs := [], [Cursor(0)];
    } else {
      ds, cs := FirstCalls(n - 1);
      var d := CallMisses(n - 1);
      OneMoreCall(ds, cs, d, Cursor(n));
      ds, cs := ds + [d], cs + [Cursor(n)];
    }
  }

  lemma OneMoreCall(ds: seq<Tables<nat, nat>>, cs: seq<Word>, d: Tables<nat, nat>, c: Word)
    requires MissingRun(ds, cs) && Misses(d, cs[|ds|], c)
    ensures MissingRun(ds + [d], cs + [c])
  {
    var ds', cs' := ds + [d], cs + [c];
    forall i | 0 <= i < |ds'|
      ensures Misses(ds'[i], cs'[i], cs'[i + 1])
    {
      if i < |ds| {
        assert Misses(ds[i], cs[i], cs[i + 1]);
      }
    }
  }

  // Key 0 is in the dictionary at all five calls of a complete scan and is never emitted.
  lemma GuaranteeFails() returns (ds: seq<Tables<nat, nat>>, cs: seq<Word>)
    ensures |ds| == 5 && ScanRun(ds, Hash, cs) && cs[5] == Zeros(WORD_BITS)
    ensures forall i :: 0 <= i < 5 ==> Present(ds[i], Hash, 0) && !EmitsKey(ds[i], Hash, cs[i], 0)
  {
    ds, cs := FirstCalls(5);
    RunOfMisses(ds, cs);
  }

  lemma RunOfMisses(ds: seq<Tables<nat, nat>>, cs: seq<Word>)
    requires MissingRun(ds, cs)
    ensures ScanRun(ds, Hash, cs)
    ensures forall i :: 0 <= i < |ds| ==> Present(ds[i], Hash, 0) && !EmitsKey(ds[i], Hash, cs[i], 0)
  {
    forall i | 0 <= i < |ds|
      ensures Scannable(ds[i], Hash) && Present(ds[i], Hash, 0) && !EmitsKey(ds[i], Hash, cs[i], 0)
      ensures cs[i + 1] == NextOf(ds[i], cs[i])
    {
      assert Misses(ds[i], cs[i], cs[i + 1]);
    }
  }
}
