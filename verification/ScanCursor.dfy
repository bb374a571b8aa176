/**
The cursor arithmetic of `dictScan`: the bit-reversal loop, the step through the expansions of
a bucket in the larger table, and the reversed increment.
*/
module ScanCursor {
  import opened Words

  // ---- rev(): reversal by swapping ever smaller neighbouring blocks ----

  predicate Halving(s: nat) { s == 32 || s == 16 || s == 8 || s == 4 || s == 2 || s == 1 }

  // Where bit i comes from once the blocks of s bits have been put in the opposite order.
  function BlockReversed(i: nat, s: nat): int
    requires s > 0
  {
    WORD_BITS - s - i + 2 * (i % s)
  }

  lemma Remainder(i: int, m: nat, q: int, r: nat)
    requires r < m && i == q * m + r
    ensures i % m == r
  {
    var d := q - i / m;
    assert d * m == i % m - r;
    MultipleIsFarFromZero(d, m);
  }

  lemma MultipleIsFarFromZero(d: int, m: nat)
    ensures d > 0 ==> d * m >= m
    ensures d < 0 ==> d * m + m <= 0
  {
  }

  lemma HalfBlock(i: int, s: nat, m: nat)
    requires m == 2 * s && s > 0
    ensures i % s == if i % m >= s then i % m - s else i % m
    ensures (i + s) % m == if i % m >= s then i % m - s else i % m + s
  {
    var q, r := i / m, i % m;
    assert q * m == (2 * q) * s;
    if r >= s {
      Remainder(i, s, 2 * q + 1, r - s);
      Remainder(i + s, m, q + 1, r - s);
    } else {
      Remainder(i, s, 2 * q, r);
      Remainder(i + s, m, q, r + s);
    }
  }

  // In a block of 4s bits, the halves of the two halves are told apart by the shifted mask.
  lemma QuarterBlock(i: nat, s: nat, t: nat, m: nat)
    requires s > 0 && t == 2 * s && m == 2 * t
    ensures i % t < s <==> ((i % m < t) != (i >= s && (i - s) % m < t))
  {
    HalfBlock(i, t, m);
    HalfBlock(i - s, t, m);
    HalfBlock(i - s, s, t);
    HalfBlock(i, s, t);
    if i < s {
      Remainder(i, m, 0, i);
    } else {
      ShiftedRemainder(i, s, m);
    }
  }

  lemma ShiftedRemainder(i: int, s: nat, m: nat)
    requires s < m
    ensures (i - s) % m == if i % m >= s then i % m - s else i % m - s + m
  {
    var q, r := i / m, i % m;
    assert i == q * m + r;
    if r >= s {
      Remainder(i - s, m, q, r - s);
    } else {
      assert (q - 1) * m == q * m - m;
      Remainder(i - s, m, q - 1, r - s + m);
    }
  }

  lemma SwapStep(i: nat, s: nat)
    requires i < WORD_BITS && Halving(s)
    ensures 0 <= BlockReversed(i, s) < WORD_BITS
    ensures i % (2 * s) < s ==> i + s < WORD_BITS && BlockReversed(i + s, 2 * s) == BlockReversed(i, s)
    ensures i % (2 * s) >= s ==> i >= s && BlockReversed(i - s, 2 * s) == BlockReversed(i, s)
  {
    var m := 2 * s;
    HalfBlock(i, s, m);
    HalfBlock(i - s, s, m);
    if i >= WORD_BITS - m {
      assert (WORD_BITS / m - 1) * m == WORD_BITS - m;
      Remainder(i, m, WORD_BITS / m - 1, i - (WORD_BITS - m));
    }
    if i < m {
      Remainder(i, m, 0, i);
    }
    if i >= WORD_BITS - s {
      assert (WORD_BITS / s - 1) * s == WORD_BITS - s;
      Remainder(i, s, WORD_BITS / s - 1, i - (WORD_BITS - s));
    }
  }

  // After the round with block size s, bit i is bit BlockReversed(i, s) of the original word.
  ghost predicate Swapped(v: Bits, word: Bits, s: nat)
    requires |v| == |word| == WORD_BITS && s > 0
  {
    forall i :: 0 <= i < WORD_BITS ==> 0 <= BlockReversed(i, s) < WORD_BITS && v[i] == word[BlockReversed(i, s)]
  }

  ghost predicate Alternating(mask: Bits, s: nat)
    requires |mask| == WORD_BITS && s > 0
  {
    forall i :: 0 <= i < WORD_BITS ==> mask[i] == (i % (2 * s) < s)
  }

  lemma MaskRound(mask: Bits, s: nat)
    requires |mask| == WORD_BITS && Halving(s) && Alternating(mask, 2 * s)
    ensures Alternating(Xor(mask, Shl(mask, s)), s)
  {
    forall i | 0 <= i < WORD_BITS
      ensures Xor(mask, Shl(mask, s))[i] == (i % (2 * s) < s)
    {
      QuarterBlock(i, s, 2 * s, 4 * s);
      assert i >= s ==> Shl(mask, s)[i] == mask[i - s];
    }
  }

  lemma SwapRound(v: Bits, word: Bits, mask: Bits, s: nat)
    requires |v| == |word| == |mask| == WORD_BITS && Halving(s)
    requires Swapped(v, word, 2 * s) && Alternating(mask, s)
    ensures Swapped(Or(And(Shr(v, s), mask), And(Shl(v, s), Not(mask))), word, s)
  {
    var w := Or(And(Shr(v, s), mask), And(Shl(v, s), Not(mask)));
    forall i | 0 <= i < WORD_BITS
      ensures 0 <= BlockReversed(i, s) < WORD_BITS && w[i] == word[BlockReversed(i, s)]
    {
      SwapStep(i, s);
      assert w[i] == if mask[i] then v[i + s] else v[i - s];
    }
  }

  lemma FirstRound(word: Bits)
    requires |word| == WORD_BITS
    ensures Swapped(word, word, WORD_BITS) && Alternating(Ones(WORD_BITS), WORD_BITS)
  {
    forall i | 0 <= i < WORD_BITS
      ensures BlockReversed(i, WORD_BITS) == i && i % (2 * WORD_BITS) < WORD_BITS
    {
    }
  }

  lemma LastRound(v: Bits, word: Bits)
    requires |v| == |word| == WORD_BITS && Swapped(v, word, 1)
    ensures v == Reverse(word)
  {
    forall i | 0 <= i < WORD_BITS
      ensures BlockReversed(i, 1) == WORD_BITS - 1 - i
    {
    }
  }

  method Rev(word: Bits) returns (v: Bits)
    requires |word| == WORD_BITS
    ensures v == Reverse(word)
  {
    var s := WORD_BITS;
    var mask := Ones(WORD_BITS);
    v := word;
    FirstRound(word);
    while s / 2 > 0
      invariant s == WORD_BITS || Halving(s)
      invariant |v| == |mask| == WORD_BITS
      invariant Alternating(mask, s) && Swapped(v, word, s)
    {
      s := s / 2;
      MaskRound(mask, s);
      mask := Xor(mask, Shl(mask, s));
      SwapRound(v, word, mask, s);
      v := Or(And(Shr(v, s), mask), And(Shl(v, s), Not(mask)));
    }
    LastRound(v, word);
  }

  // ---- One scan call, seen from the cursor ----

  // `v | ~m0`, reversed, incremented, reversed again (dictScan's last lines) ...
  function NextCursor(v: Bits, k: nat): (r: Bits)
    requires k <= |v|
    ensures |r| == |v|
  {
    Reverse(Inc(Reverse(Or(v, Not(Mask(k, |v|))))))
  }

  lemma {:induction false} IncCarriesThroughOnes(n: nat, w: Bits)
    ensures Inc(Ones(n) + w) == Zeros(n) + Inc(w)
  {
    if n == 0 {
      assert Ones(0) + w == w;
      assert Zeros(0) + Inc(w) == Inc(w);
    } else {
      IncCarriesThroughOnes(n - 1, w);
      assert (Ones(n) + w)[1..] == Ones(n - 1) + w;
      assert [false] + (Zeros(n - 1) + Inc(w)) == Zeros(n) + Inc(w);
    }
  }

  lemma ReverseAppend(a: Bits, b: Bits)
    ensures Reverse(a + b) == Reverse(b) + Reverse(a)
  {
  }

  // ... is the successor, in reversed order, of the k-bit bucket index, with all higher bits clear.
  lemma NextCursorIsSuccessor(v: Bits, k: nat)
    requires k <= |v|
    ensures NextCursor(v, k) == RevNext(v[..k]) + Zeros(|v| - k)
  {
    var n := |v| - k;
    var p := v[..k];
    assert Or(v, Not(Mask(k, |v|))) == p + Ones(n);
    ReverseAppend(p, Ones(n));
    assert Reverse(Ones(n)) == Ones(n);
    IncCarriesThroughOnes(n, Reverse(p));
    RevNextIsReversedInc(p);
    ReverseAppend(Zeros(n), Inc(Reverse(p)));
    assert Reverse(Zeros(n)) == Zeros(n);
  }

  // `(((v | m0) + 1) & ~m0) | (v & m0)`: line 902 of dict.c.
  function NextExpansion(v: Bits, k: nat): (r: Bits)
    requires k <= |v|
    ensures |r| == |v|
  {
    var m0 := Mask(k, |v|);
    Or(And(Inc(Or(v, m0)), Not(m0)), And(v, m0))
  }

  lemma NextExpansionIncrementsHighBits(v: Bits, k: nat)
    requires k <= |v|
    ensures NextExpansion(v, k) == v[..k] + Inc(v[k..])
  {
    var m0 := Mask(k, |v|);
    assert Or(v, m0) == Ones(k) + v[k..];
    IncCarriesThroughOnes(k, v[k..]);
    assert And(Zeros(k) + Inc(v[k..]), Not(m0)) == Zeros(k) + Inc(v[k..]);
    assert And(v, m0) == v[..k] + Zeros(|v| - k);
  }

  // The increment of a prefix of the high bits does not depend on the bits above it.
  lemma {:induction false} IncPrefix(w: Bits, d: nat)
    requires d <= |w|
    ensures Inc(w)[..d] == Inc(w[..d])
  {
    if d > 0 {
      IncPrefix(w[1..], d - 1);
      assert w[..d][1..] == w[1..][..d - 1];
      assert Inc(w)[..d] == [Inc(w)[0]] + Inc(w)[1..][..d - 1];
    }
  }

  // ---- What a call has to emit, and when it does ----

  /* The hashes that a call with cursor v and smaller table of 2^k buckets moves past: those not
     below v whose low k bits are those of v. */
  ghost predicate Owed(h: Bits, v: Bits, k: nat)
    requires |h| == |v| && k <= |v|
  {
    h[..k] == v[..k] && !RevLess(h, v)
  }

  // The next cursor is past a hash, or the scan is over, if and only if the low bits say so.
  lemma PassedByLowBits(h: Bits, v: Bits, k: nat, n: Bits)
    requires |h| == |v| && k <= |v| && n == NextCursor(v, k)
    ensures n == Zeros(|v|) || RevLess(h, n) <==> h[..k] == v[..k] || RevLess(h[..k], v[..k])
  {
    var p := v[..k];
    NextCursorIsSuccessor(v, k);
    RevNextIsSuccessor(h[..k], p);
    RevLessZeroTail(h, RevNext(p));
    if p == Ones(k) {
      assert Zeros(k) + Zeros(|v| - k) == Zeros(|v|);
    } else {
      assert n[..k] == RevNext(p) && Zeros(|v|)[..k] == Zeros(k);
    }
  }

  // A hash is below the next cursor, or the scan is over, only if it was below v or is owed now.
  lemma CallMovesPastOwed(h: Bits, v: Bits, k: nat)
    requires |h| == |v| && k <= |v|
    ensures NextCursor(v, k) == Zeros(|v|) || RevLess(h, NextCursor(v, k)) ==> RevLess(h, v) || Owed(h, v, k)
    ensures Owed(h, v, k) ==> NextCursor(v, k) == Zeros(|v|) || RevLess(h, NextCursor(v, k))
  {
    PassedByLowBits(h, v, k, NextCursor(v, k));
    if RevLess(h[..k], v[..k]) {
      PrefixDecides(h, v, k);
    }
  }

  lemma {:induction false} PrefixDecides(a: Bits, b: Bits, k: nat)
    requires |a| == |b| && k <= |a|
    requires RevLess(a[..k], b[..k])
    ensures RevLess(a, b)
  {
    if a[0] == b[0] {
      assert a[..k][1..] == a[1..][..k - 1] && b[..k][1..] == b[1..][..k - 1];
      PrefixDecides(a[1..], b[1..], k - 1);
    }
  }

  /* The buckets of the larger table that the expansion loop visits when it starts at cursor v:
     same low k0 bits, and high bits that, read as a number, are not below those of v. */
  ghost predicate Visited(b: Bits, v: Bits, k0: nat, k1: nat)
    requires k0 <= k1 <= |v| && |b| == k1
  {
    b[..k0] == v[..k0] && Val(v[k0..k1]) <= Val(b[k0..])
  }

  // The cursor bits between the two masks form 0...01...1, that is x & (x + 1) == 0.
  predicate OnesThenZeros(x: Bits)
  {
    forall i, j :: 0 <= i < j < |x| && x[j] ==> x[i]
  }

  // The call emits every hash it moves past, wherever in the larger table that hash may live.
  ghost predicate ExpansionsComplete(v: Bits, k0: nat, k1: nat)
    requires k0 <= k1 <= |v|
  {
    forall h: Bits :: |h| == |v| && Owed(h, v, k0) ==> Visited(h[..k1], v, k0, k1)
  }

  lemma {:induction false} AboveOnesThenZeros(e: Bits, x: Bits)
    requires |e| == |x| && OnesThenZeros(x) && !RevLess(e, x)
    ensures Val(x) <= Val(e)
  {
    if x != [] {
      if x[0] {
        assert OnesThenZeros(x[1..]);
        AboveOnesThenZeros(e[1..], x[1..]);
      } else {
        assert x == Zeros(|x|);
        ValOfZeros(|x|);
      }
    }
  }

  // Moving a one below a zero makes a word smaller as a number but larger in reversed order.
  lemma MovedBit(x: Bits, i: nat, j: nat) returns (e: Bits)
    requires i < j < |x| && x[j] && !x[i]
    ensures |e| == |x| && Val(e) < Val(x) && !RevLess(e, x)
  {
    e := x[i := true][j := false];
    ValOfSetBit(e, j);
    assert e[j := true] == x[i := true];
    ValOfSetBit(x, i);
    Pow2Monotonic(i, j);
    FirstDifferenceDecides(x, e, i);
    RevLessIsNumeric(x, e);
    RevLessIsNumeric(e, x);
  }

  lemma {:induction false} FirstDifferenceDecides(a: Bits, b: Bits, i: nat)
    requires |a| == |b| && i < |a| && a[..i] == b[..i] && !a[i] && b[i]
    ensures RevLess(a, b)
  {
    if i > 0 {
      assert a[0] == a[..i][0] && b[0] == b[..i][0];
      assert a[1..][..i - 1] == a[..i][1..] && b[1..][..i - 1] == b[..i][1..];
      FirstDifferenceDecides(a[1..], b[1..], i - 1);
    }
  }

  /* Exactly when a call during rehashing is complete. A cursor with no bit, or with a single
     possible bit, between the masks always qualifies; so do 01, 11, 001, 011, 111, ... */
  lemma CompleteIffOnesThenZeros(v: Bits, k0: nat, k1: nat)
    requires k0 <= k1 <= |v|
    ensures ExpansionsComplete(v, k0, k1) <==> OnesThenZeros(v[k0..k1])
  {
    if OnesThenZeros(v[k0..k1]) {
      forall h: Bits | |h| == |v| && Owed(h, v, k0)
        ensures Visited(h[..k1], v, k0, k1)
      {
        OwedIsVisited(h, v, k0, k1);
      }
    } else {
      var h := OwedNotVisited(v, k0, k1);
    }
  }

  lemma OwedIsVisited(h: Bits, v: Bits, k0: nat, k1: nat)
    requires k0 <= k1 <= |v| == |h| && OnesThenZeros(v[k0..k1]) && Owed(h, v, k0)
    ensures Visited(h[..k1], v, k0, k1)
  {
    var x, e := v[k0..k1], h[..k1][k0..];
    assert h == v[..k0] + e + h[k1..] && v == v[..k0] + x + v[k1..];
    if RevLess(e, x) {
      PrefixIsLess(v[..k0], e, x, h[k1..], v[k1..]);
    }
    AboveOnesThenZeros(e, x);
    assert h[..k1][..k0] == h[..k0];
  }

  lemma OwedNotVisited(v: Bits, k0: nat, k1: nat) returns (h: Bits)
    requires k0 <= k1 <= |v| && !OnesThenZeros(v[k0..k1])
    ensures |h| == |v| && Owed(h, v, k0) && !Visited(h[..k1], v, k0, k1)
  {
    var x := v[k0..k1];
    var p, t := v[..k0], v[k1..];
    var i, j :| 0 <= i < j < |x| && x[j] && !x[i];
    var e := MovedBit(x, i, j);
    h := p + (e + t);
    assert v == p + (x + t);
    RevLessCommonPrefix(p, e + t, x + t);
    if RevLess(h, v) {
      CommonTail(e, x, t);
    }
    assert h[..k0] == p;
    assert h[..k1][k0..] == e;
  }

  lemma PrefixIsLess(p: Bits, e: Bits, x: Bits, a: Bits, b: Bits)
    requires |e| == |x| && |a| == |b| && RevLess(e, x)
    ensures RevLess(p + e + a, p + x + b)
  {
    assert (e + a)[..|e|] == e && (x + b)[..|x|] == x;
    PrefixDecides(e + a, x + b, |e|);
    RevLessCommonPrefix(p, e + a, x + b);
    assert p + e + a == p + (e + a) && p + x + b == p + (x + b);
  }

  lemma {:induction false} CommonTail(e: Bits, x: Bits, t: Bits)
    requires |e| == |x| && RevLess(e + t, x + t)
    ensures RevLess(e, x)
  {
    if e == [] {
      assert e + t == t && x + t == t;
      RevLessIsNumeric(t, t);
    } else if e[0] == x[0] {
      assert (e + t)[1..] == e[1..] + t && (x + t)[1..] == x[1..] + t;
      CommonTail(e[1..], x[1..], t);
    }
  }

  // The design comment's worked example gone wrong: sizes 16 and 4, cursor 1000b, bucket 0100b.
  lemma SkippedBucket()
    ensures var v := [false, false, false, true] + Zeros(60);
            var h := [false, false, true, false] + Zeros(60);
            Owed(h, v, 2) && !Visited(h[..4], v, 2, 4) && !ExpansionsComplete(v, 2, 4)
  {
    var v := [false, false, false, true] + Zeros(60);
    var h := [false, false, true, false] + Zeros(60);
    assert v[..2] == h[..2] == [false, false];
    assert v[2..4] == [false, true] && h[..4][2..] == [true, false];
    FirstDifferenceDecides(v, h, 2);
    RevLessIsNumeric(v, h);
    RevLessIsNumeric(h, v);
    assert Val([true]) == 1 + 2 * Val([]) && Val([false]) == 0;
    assert [false, true][1..] == [true] && [true, false][1..] == [false];
  }
}
