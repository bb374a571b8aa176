/**
Machine words as bit strings. Bit `i` of a word is element `i` of the sequence, so the least
significant bit comes first and the low `k` bits of `w` are the prefix `w[..k]`.
The operations are those of C's `unsigned long`: pointwise logic, shifts that drop bits,
and an increment that wraps around.
*/
module Words {

  type Bits = seq<bool>

  const WORD_BITS: nat := 64

  function Pow2(n: nat): (p: nat)
    ensures p >= 1
  {
    if n == 0 then 1 else 2 * Pow2(n - 1)
  }

  lemma {:induction false} Pow2Monotonic(m: nat, n: nat)
    requires m <= n
    ensures Pow2(m) <= Pow2(n)
    ensures m < n ==> 2 * Pow2(m) <= Pow2(n)
  {
    if m < n {
      Pow2Monotonic(m, n - 1);
    }
  }

  lemma {:induction false} Pow2Sum(a: nat, b: nat)
    ensures Pow2(a + b) == Pow2(a) * Pow2(b)
  {
    if a > 0 {
      Pow2Sum(a - 1, b);
    }
  }

  lemma Pow2Of16()
    ensures Pow2(16) == 0x1_0000
  {
    assert Pow2(4) == 16;
    Pow2Sum(4, 4);
    Pow2Sum(8, 8);
  }

  lemma Pow2Of64()
    ensures Pow2(64) == 0x1_0000_0000_0000_0000 && Pow2(63) == 0x8000_0000_0000_0000
  {
    Pow2Of16();
    Pow2Sum(16, 16);
    Pow2Sum(32, 32);
    Pow2Sum(63, 1);
    assert Pow2(1) == 2;
  }

  lemma Pow2Bound(m: nat, n: nat)
    ensures Pow2(m) < Pow2(n) ==> m < n
  {
    if n <= m {
      Pow2Monotonic(n, m);
    }
  }

  function Zeros(n: nat): (w: Bits)
    ensures |w| == n
  {
    seq(n, _ => false)
  }

  function Ones(n: nat): (w: Bits)
    ensures |w| == n
  {
    seq(n, _ => true)
  }

  // The mask 2^k - 1 as an n-bit word.
  function Mask(k: nat, n: nat): (w: Bits)
    requires k <= n
    ensures |w| == n
  {
    Ones(k) + Zeros(n - k)
  }

  function And(a: Bits, b: Bits): (w: Bits)
    requires |a| == |b|
    ensures |w| == |a|
  {
    seq(|a|, i requires 0 <= i < |a| => a[i] && b[i])
  }

  function Or(a: Bits, b: Bits): (w: Bits)
    requires |a| == |b|
    ensures |w| == |a|
  {
    seq(|a|, i requires 0 <= i < |a| => a[i] || b[i])
  }

  function Xor(a: Bits, b: Bits): (w: Bits)
    requires |a| == |b|
    ensures |w| == |a|
  {
    seq(|a|, i requires 0 <= i < |a| => a[i] != b[i])
  }

  function Not(a: Bits): (w: Bits)
    ensures |w| == |a|
  {
    seq(|a|, i requires 0 <= i < |a| => !a[i])
  }

  function Shl(a: Bits, s: nat): (w: Bits)
    ensures |w| == |a|
  {
    seq(|a|, i requires 0 <= i < |a| => i >= s && a[i - s])
  }

  function Shr(a: Bits, s: nat): (w: Bits)
    ensures |w| == |a|
  {
    seq(|a|, i requires 0 <= i < |a| => i + s < |a| && a[i + s])
  }

  // Adding one, dropping the carry out of the top bit.
  function Inc(w: Bits): (r: Bits)
    ensures |r| == |w|
  {
    if w == [] then []
    else if w[0] then [false] + Inc(w[1..])
    else [true] + w[1..]
  }

  // The unsigned number a word stands for.
  function Val(w: Bits): (n: nat)
    ensures n < Pow2(|w|)
  {
    if w == [] then 0
    else (if w[0] then 1 else 0) + 2 * Val(w[1..])
  }

  lemma {:induction false} IncAddsOne(w: Bits)
    ensures Val(Inc(w)) == if w == Ones(|w|) then 0 else Val(w) + 1
    ensures w == Ones(|w|) ==> Inc(w) == Zeros(|w|)
  {
    if w != [] {
      IncAddsOne(w[1..]);
      assert w == Ones(|w|) <==> w[0] && w[1..] == Ones(|w| - 1);
      assert [false] + Zeros(|w| - 1) == Zeros(|w|);
      assert Inc(w)[1..] == if w[0] then Inc(w[1..]) else w[1..];
    }
  }

  lemma {:induction false} ValInjective(a: Bits, b: Bits)
    requires |a| == |b|
    ensures Val(a) == Val(b) <==> a == b
  {
    if a != [] {
      ValInjective(a[1..], b[1..]);
      assert a == [a[0]] + a[1..] && b == [b[0]] + b[1..];
    }
  }

  lemma {:induction false} ValOfZeros(n: nat)
    ensures Val(Zeros(n)) == 0
  {
    if n > 0 {
      ValOfZeros(n - 1);
      assert Zeros(n)[1..] == Zeros(n - 1);
    }
  }

  // Masking with 2^k - 1 keeps the low k bits, and as a number it is below 2^k.
  lemma {:induction false} ValPadded(w: Bits, n: nat)
    ensures Val(w + Zeros(n)) == Val(w)
  {
    if w == [] {
      ValOfZeros(n);
      assert w + Zeros(n) == Zeros(n);
    } else {
      ValPadded(w[1..], n);
      assert (w + Zeros(n))[1..] == w[1..] + Zeros(n);
    }
  }

  lemma MaskKeepsLowBits(w: Bits, k: nat)
    requires k <= |w|
    ensures And(w, Mask(k, |w|)) == w[..k] + Zeros(|w| - k)
    ensures Val(And(w, Mask(k, |w|))) == Val(w[..k]) < Pow2(k)
  {
    assert And(w, Mask(k, |w|)) == w[..k] + Zeros(|w| - k);
    ValPadded(w[..k], |w| - k);
  }

  // Changing one bit from clear to set adds 2^i.
  lemma {:induction false} ValOfSetBit(w: Bits, i: nat)
    requires i < |w| && !w[i]
    ensures Val(w[i := true]) == Val(w) + Pow2(i)
  {
    if i == 0 {
      assert w[0 := true][1..] == w[1..];
    } else {
      ValOfSetBit(w[1..], i - 1);
      assert w[i := true][1..] == w[1..][i - 1 := true];
    }
  }

  // The low w bits of a number.
  function ToBits(n: nat, w: nat): (r: Bits)
    ensures |r| == w
  {
    if w == 0 then [] else [n % 2 == 1] + ToBits(n / 2, w - 1)
  }

  lemma {:induction false} ValOfToBits(n: nat, w: nat)
    requires n < Pow2(w)
    ensures Val(ToBits(n, w)) == n
  {
    if w > 0 {
      ValOfToBits(n / 2, w - 1);
      assert ToBits(n, w)[1..] == ToBits(n / 2, w - 1);
    }
  }

  lemma {:induction false} ToBitsOfVal(b: Bits)
    ensures ToBits(Val(b), |b|) == b
  {
    if b != [] {
      ToBitsOfVal(b[1..]);
      assert b == [b[0]] + b[1..];
    }
  }

  function Reverse(w: Bits): (r: Bits)
    ensures |r| == |w|
    ensures forall i :: 0 <= i < |w| ==> r[i] == w[|w| - 1 - i]
  {
    seq(|w|, i requires 0 <= i < |w| => w[|w| - 1 - i])
  }

  // ---- Order of words read with bit 0 as the most significant one, that is the order of
  // ---- their bit-reversals.

  predicate RevLess(a: Bits, b: Bits)
    requires |a| == |b|
  {
    a != [] && (if a[0] == b[0] then RevLess(a[1..], b[1..]) else b[0])
  }

  // The number whose bits are those of w in the opposite order.
  function RevVal(w: Bits): (n: nat)
    ensures n < Pow2(|w|)
  {
    if w == [] then 0
    else (if w[0] then Pow2(|w| - 1) else 0) + RevVal(w[1..])
  }

  lemma {:induction false} RevLessIsNumeric(a: Bits, b: Bits)
    requires |a| == |b|
    ensures RevLess(a, b) <==> RevVal(a) < RevVal(b)
    ensures RevVal(a) == RevVal(b) <==> a == b
  {
    if a != [] {
      RevLessIsNumeric(a[1..], b[1..]);
      assert a == [a[0]] + a[1..] && b == [b[0]] + b[1..];
    }
  }

  lemma {:induction false} ValAppend(w: Bits, x: bool)
    ensures Val(w + [x]) == Val(w) + (if x then Pow2(|w|) else 0)
  {
    if w == [] {
      assert w + [x] == [x];
      assert Val([x][1..]) == 0;
    } else {
      ValAppend(w[1..], x);
      assert (w + [x])[1..] == w[1..] + [x];
    }
  }

  lemma {:induction false} RevValIsValOfReverse(w: Bits)
    ensures RevVal(w) == Val(Reverse(w))
  {
    if w != [] {
      RevValIsValOfReverse(w[1..]);
      assert Reverse(w) == Reverse(w[1..]) + [w[0]];
      ValAppend(Reverse(w[1..]), w[0]);
    }
  }

  lemma {:induction false} RevLessAppend(a: Bits, b: Bits, x: bool, y: bool)
    requires |a| == |b|
    ensures RevLess(a + [x], b + [y]) <==> RevLess(a, b) || (a == b && !x && y)
  {
    if a == [] {
      assert a + [x] == [x] && b + [y] == [y];
      assert [x][1..] == [y][1..] == [];
    } else {
      RevLessAppend(a[1..], b[1..], x, y);
      assert (a + [x])[1..] == a[1..] + [x] && (b + [y])[1..] == b[1..] + [y];
      assert a == [a[0]] + a[1..] && b == [b[0]] + b[1..];
    }
  }

  lemma {:induction false} RevLessCommonPrefix(p: Bits, a: Bits, b: Bits)
    requires |a| == |b|
    ensures RevLess(p + a, p + b) <==> RevLess(a, b)
  {
    if p == [] {
      assert p + a == a && p + b == b;
    } else {
      RevLessCommonPrefix(p[1..], a, b);
      assert (p + a)[1..] == p[1..] + a && (p + b)[1..] == p[1..] + b;
    }
  }

  // Nothing is below a word of zeros, so only the leading part of `p + Zeros(n)` matters.
  lemma {:induction false} RevLessZeroTail(h: Bits, p: Bits)
    requires |p| <= |h|
    ensures RevLess(h, p + Zeros(|h| - |p|)) <==> RevLess(h[..|p|], p)
  {
    var q := p + Zeros(|h| - |p|);
    if p == [] {
      RevLessIsNumeric(h, q);
      RevValOfZeros(|h|);
      assert q == Zeros(|h|) && h[..0] == [];
    } else {
      RevLessZeroTail(h[1..], p[1..]);
      assert q[1..] == p[1..] + Zeros(|h| - |p|);
      assert h[..|p|][1..] == h[1..][..|p| - 1];
    }
  }

  lemma {:induction false} RevValOfZeros(n: nat)
    ensures RevVal(Zeros(n)) == 0
  {
    if n > 0 {
      RevValOfZeros(n - 1);
      assert Zeros(n)[1..] == Zeros(n - 1);
    }
  }

  // The next word in the reversed order, wrapping from all ones to all zeros.
  function RevNext(p: Bits): (r: Bits)
    ensures |r| == |p|
  {
    if p == [] then []
    else
      var n := |p| - 1;
      if p[n] then RevNext(p[..n]) + [false] else p[..n] + [true]
  }

  lemma {:induction false} RevNextIsReversedInc(p: Bits)
    ensures Reverse(Inc(Reverse(p))) == RevNext(p)
  {
    if p != [] {
      var n := |p| - 1;
      RevNextIsReversedInc(p[..n]);
      var r := Reverse(p);
      assert r[1..] == Reverse(p[..n]);
      if p[n] {
        assert Reverse([false] + Inc(r[1..])) == Reverse(Inc(r[1..])) + [false];
      } else {
        assert Reverse([true] + r[1..]) == p[..n] + [true];
      }
    }
  }

  // RevNext is the immediate successor: exactly the words up to and including p come before it.
  lemma {:induction false} RevNextIsSuccessor(h: Bits, p: Bits)
    requires |h| == |p|
    ensures p == Ones(|p|) ==> RevNext(p) == Zeros(|p|) && (h == p || RevLess(h, p))
    ensures p != Ones(|p|) ==> RevNext(p) != Zeros(|p|) && (RevLess(h, RevNext(p)) <==> h == p || RevLess(h, p))
  {
    if p != [] {
      var n := |p| - 1;
      var hs, ps := h[..n], p[..n];
      RevNextIsSuccessor(hs, ps);
      assert h == hs + [h[n]] && p == ps + [p[n]];
      RevLessAppend(hs, ps, h[n], p[n]);
      if p[n] {
        assert p == Ones(|p|) <==> ps == Ones(n);
        RevLessAppend(hs, RevNext(ps), h[n], false);
        if ps == Ones(n) {
          assert RevNext(p) == Zeros(|p|);
        } else {
          assert RevNext(p)[..n] == RevNext(ps);
          assert Zeros(|p|)[..n] == Zeros(n);
        }
      } else {
        assert p != Ones(|p|) by { assert !p[n]; }
        assert RevNext(p)[n];
        RevLessAppend(hs, ps, h[n], true);
      }
    }
  }
}
