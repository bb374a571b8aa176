/**
The integer set: sorted integers packed little endian in 2, 4 or 8 bytes each, in one block of bytes
that is widened in place when a value does not fit.
*/
module Intset {

  type Byte = x: int | 0 <= x < 256

  type Int64 = x: int | -0x8000_0000_0000_0000 <= x < 0x8000_0000_0000_0000

  // ---- Integers as bytes ----

  function Pow256(k: nat): (p: nat)
    ensures p > 0
  {
    if k == 0 then 1 else 256 * Pow256(k - 1)
  }

  function EncodeU(n: nat, k: nat): (b: seq<Byte>)
    ensures |b| == k
  {
    if k == 0 then [] else [n % 256] + EncodeU(n / 256, k - 1)
  }

  function DecodeU(b: seq<Byte>): nat
  {
    if b == [] then 0 else b[0] + 256 * DecodeU(b[1..])
  }

  lemma {:induction false} DecodeOfEncode(n: nat, k: nat)
    requires n < Pow256(k)
    ensures DecodeU(EncodeU(n, k)) == n
  {
    if k > 0 {
      DecodeOfEncode(n / 256, k - 1);
      assert EncodeU(n, k)[1..] == EncodeU(n / 256, k - 1);
    }
  }

  // Two's complement in k bytes
  predicate FitsIn(v: int, k: nat) { -(Pow256(k) as int) <= 2 * v < Pow256(k) }

  function Encode(v: int, k: nat): (b: seq<Byte>)
    requires FitsIn(v, k)
    ensures |b| == k
  {
    EncodeU(if v < 0 then v + Pow256(k) else v, k)
  }

  function Decode(b: seq<Byte>): int
  {
    var n := DecodeU(b);
    if 2 * n < Pow256(|b|) then n else n - Pow256(|b|)
  }

  lemma DecodeEncode(v: int, k: nat)
    requires FitsIn(v, k)
    ensures Decode(Encode(v, k)) == v
  {
    DecodeOfEncode(if v < 0 then v + Pow256(k) else v, k);
  }

  predicate IsEncoding(e: nat) { e == 2 || e == 4 || e == 8 }

  lemma Widths()
    ensures Pow256(2) == 0x1_0000 && Pow256(4) == 0x1_0000_0000 && Pow256(8) == 0x1_0000_0000_0000_0000
  {
    assert Pow256(2) == 0x1_0000;
    assert Pow256(4) == 256 * (256 * Pow256(2));
    assert Pow256(6) == 256 * (256 * Pow256(4));
    assert Pow256(8) == 256 * (256 * Pow256(6));
  }

  // _intsetValueEncoding: the narrowest encoding that fits.
  function ValueEncoding(v: Int64): (e: nat)
    ensures IsEncoding(e)
  {
    if v < -0x8000_0000 || v > 0x7FFF_FFFF then 8
    else if v < -0x8000 || v > 0x7FFF then 4
    else 2
  }

  lemma NarrowestEncoding(v: Int64, e: nat)
    requires IsEncoding(e)
    ensures FitsIn(v, e) <==> ValueEncoding(v) <= e
  {
    Widths();
  }

  // ---- Slots in a block of bytes ----

  lemma MulStep(i: nat, j: nat, e: nat)
    requires i < j
    ensures i * e + e <= j * e
  {
    assert j * e == (i + 1) * e + (j - i - 1) * e;
  }

  // The bytes of the i-th integer when each takes e.
  function Slot(c: seq<Byte>, i: nat, e: nat): (b: seq<Byte>)
    requires i * e + e <= |c|
    ensures |b| == e
  {
    c[i * e..i * e + e]
  }

  function Splice(c: seq<Byte>, o: nat, b: seq<Byte>): (d: seq<Byte>)
    requires o + |b| <= |c|
    ensures |d| == |c|
  {
    c[..o] + b + c[o + |b|..]
  }

  lemma SpliceSame(c: seq<Byte>, o: nat, b: seq<Byte>)
    requires o + |b| <= |c|
    ensures Splice(c, o, b)[o..o + |b|] == b
  {
  }

  lemma SpliceOther(c: seq<Byte>, o: nat, b: seq<Byte>, p: nat, q: nat)
    requires o + |b| <= |c| && p <= q <= |c| && (q <= o || o + |b| <= p)
    ensures Splice(c, o, b)[p..q] == c[p..q]
  {
  }

  // The integers in a block of whole slots.
  ghost predicate Holds(c: seq<Byte>, e: nat, vs: seq<int>)
  {
    |c| == |vs| * e && forall i {:trigger vs[i]} :: 0 <= i < |vs| ==> HoldsAt(c, e, i, vs[i])
  }

  ghost predicate HoldsAt(c: seq<Byte>, e: nat, i: nat, v: int)
  {
    i * e + e <= |c| && FitsIn(v, e) && Slot(c, i, e) == Encode(v, e)
  }

  ghost predicate Sorted(vs: seq<int>)
  {
    forall i, j :: 0 <= i < j < |vs| ==> vs[i] < vs[j]
  }

  // Writing one slot sets it and leaves every other slot.
  lemma WriteSlot(c: seq<Byte>, e: nat, k: nat, v: int, i: nat, u: int)
    requires k * e + e <= |c| && FitsIn(v, e)
    ensures var d := Splice(c, k * e, Encode(v, e));
            HoldsAt(d, e, k, v) && (i != k && HoldsAt(c, e, i, u) ==> HoldsAt(d, e, i, u))
  {
    SpliceSame(c, k * e, Encode(v, e));
    if i != k && HoldsAt(c, e, i, u) {
      if i < k { MulStep(i, k, e); } else { MulStep(k, i, e); }
      SpliceOther(c, k * e, Encode(v, e), i * e, i * e + e);
    }
  }

  // A value that fits k bytes fits more, and its neighbours in a sorted set leave it at one end or the other.
  lemma FitsWider(v: int, e: nat, f: nat)
    requires IsEncoding(e) && IsEncoding(f) && e <= f && FitsIn(v, e)
    ensures FitsIn(v, f)
  {
    Widths();
  }

  // ---- Moving whole slots ----

  // What stood at o before the tail from p was moved up by e, or down by e, stands there or e further.
  lemma TailUp(c: seq<Byte>, junk: seq<Byte>, p: nat, o: nat)
    requires p <= |c| && o + |junk| <= |c|
    ensures var e, d := |junk|, Splice(c + junk, p + |junk|, c[p..]);
            && (o + e <= p ==> d[o..o + e] == c[o..o + e])
            && (p <= o ==> d[o + e..o + e + e] == c[o..o + e])
  {
    var e, d := |junk|, Splice(c + junk, p + |junk|, c[p..]);
    if o + e <= p {
      SpliceOther(c + junk, p + e, c[p..], o, o + e);
    }
    if p <= o {
      assert d == (c + junk)[..p + e] + c[p..];
      assert d[o + e..o + e + e] == c[p..][o - p..o - p + e];
    }
  }

  lemma TailDown(c: seq<Byte>, e: nat, p: nat, o: nat)
    requires p + e <= |c| && o + e <= |c|
    ensures var d := c[..p] + c[p + e..];
            && (o + e <= p ==> d[o..o + e] == c[o..o + e])
            && (p + e <= o ==> d[o - e..o] == c[o..o + e])
  {
  }

  ghost predicate HoldsFrom(c: seq<Byte>, o: nat, e: nat, v: int)
  {
    o + e <= |c| && FitsIn(v, e) && c[o..o + e] == Encode(v, e)
  }

  lemma ValueUp(c: seq<Byte>, junk: seq<Byte>, p: nat, o: nat, v: int, d: seq<Byte>)
    requires p <= |c| && HoldsFrom(c, o, |junk|, v) && d == Splice(c + junk, p + |junk|, c[p..])
    ensures o + |junk| <= p ==> HoldsFrom(d, o, |junk|, v)
    ensures p <= o ==> HoldsFrom(d, o + |junk|, |junk|, v)
  {
    TailUp(c, junk, p, o);
  }

  // Slots from `pos` on move up by one.
  lemma ShiftUp(c: seq<Byte>, e: nat, vs: seq<int>, pos: nat, junk: seq<Byte>, i: nat, d: seq<Byte>)
    requires Holds(c, e, vs) && pos <= |vs| && |junk| == e && i < |vs| && pos * e <= |c|
    requires d == Splice(c + junk, pos * e + e, c[pos * e..])
    ensures HoldsAt(d, e, if i < pos then i else i + 1, vs[i])
  {
    assert HoldsAt(c, e, i, vs[i]);
    ValueUp(c, junk, pos * e, i * e, vs[i], d);
    if i < pos {
      MulStep(i, pos, e);
    } else {
      SlotsFit(pos, i, e);
      MulNext(i, e);
    }
  }

  lemma MulNext(i: nat, e: nat)
    ensures (i + 1) * e == i * e + e
  {
  }

  // Slots after `pos` move down by one, over it.
  lemma ShiftDown(c: seq<Byte>, e: nat, vs: seq<int>, pos: nat, i: nat)
    requires Holds(c, e, vs) && pos < |vs| && i < |vs| && i != pos && pos * e + e <= |c|
    ensures HoldsAt(c[..pos * e] + c[pos * e + e..], e, if i < pos then i else i - 1, vs[i])
  {
    assert HoldsAt(c, e, i, vs[i]);
    TailDown(c, e, pos * e, i * e);
    if i < pos {
      MulStep(i, pos, e);
    } else {
      MulStep(pos, i, e);
      assert (i - 1) * e == i * e - e;
    }
  }

  lemma SlotsFit(i: nat, n: nat, e: nat)
    requires i <= n
    ensures i * e <= n * e
  {
    if i < n { MulStep(i, n, e); }
  }

  // ---- The set ----

  ghost function Elements(vs: seq<int>): set<int> { set x | x in vs }

  function Insert(vs: seq<int>, pos: nat, v: int): seq<int>
    requires pos <= |vs|
  {
    vs[..pos] + [v] + vs[pos..]
  }

  function Without(vs: seq<int>, pos: nat): seq<int>
    requires pos < |vs|
  {
    vs[..pos] + vs[pos + 1..]
  }

  // Where a value is, or would go, in a sorted sequence.
  ghost predicate Between(vs: seq<int>, pos: nat, v: int)
  {
    pos <= |vs| && (forall i :: 0 <= i < pos ==> vs[i] < v) && (forall i :: pos <= i < |vs| ==> v < vs[i])
  }

  lemma InsertSorted(vs: seq<int>, pos: nat, v: int)
    requires Sorted(vs) && Between(vs, pos, v)
    ensures Sorted(Insert(vs, pos, v)) && v !in vs && Elements(Insert(vs, pos, v)) == Elements(vs) + {v}
  {
    assert vs == vs[..pos] + vs[pos..];
  }

  lemma WithoutSorted(vs: seq<int>, pos: nat)
    requires Sorted(vs) && pos < |vs|
    ensures Sorted(Without(vs, pos)) && Elements(Without(vs, pos)) == Elements(vs) - {vs[pos]}
  {
    assert vs == vs[..pos] + [vs[pos]] + vs[pos + 1..];
    assert vs[pos] !in vs[..pos] && vs[pos] !in vs[pos + 1..];
  }

  class IntSet {
    var encoding: nat
    var length: nat
    var contents: seq<Byte>
    ghost var vs: seq<int>

    ghost predicate Valid()
      reads this
    {
      IsEncoding(encoding) && length == |vs| && Holds(contents, encoding, vs) && Sorted(vs)
    }

    constructor ()
      ensures Valid() && vs == [] && encoding == 2
    {
      encoding, length, contents, vs := 2, 0, [], [];
    }

    // _intsetGet
    method Get(i: nat) returns (v: int)
      requires Valid() && i < length
      ensures v == vs[i]
    {
      assert HoldsAt(contents, encoding, i, vs[i]);
      DecodeEncode(vs[i], encoding);
      v := Decode(Slot(contents, i, encoding));
    }

    // intsetSearch
    method Search(value: Int64) returns (found: bool, pos: nat)
      requires Valid()
      ensures found <==> value in vs
      ensures found ==> pos < length && vs[pos] == value
      ensures !found ==> Between(vs, pos, value)
    {
      if length == 0 { return false, 0; }
      var last := Get(length - 1);
      if value > last { return false, length; }
      var first := Get(0);
      if value < first { return false, 0; }
      var min, max := 0, length - 1;
      while max >= min
        invariant 0 <= min <= max + 1 <= length
        invariant forall i :: 0 <= i < min ==> vs[i] < value
        invariant forall i :: max < i < length ==> value < vs[i]
      {
        var mid := (min + max) / 2;
        var cur := Get(mid);
        if value > cur {
          min := mid + 1;
        } else if value < cur {
          max := mid - 1;
        } else {
          return true, mid;
        }
      }
      return false, min;
    }

    // intsetFind
    method Find(value: Int64) returns (found: bool)
      requires Valid()
      ensures found <==> value in Elements(vs)
    {
      if ValueEncoding(value) > encoding {
        TooWide(contents, encoding, vs, value);
        return false;
      }
      var pos;
      found, pos := Search(value);
    }

    method Set(i: nat, v: int)
      requires i * encoding + encoding <= |contents| && FitsIn(v, encoding)
      modifies this`contents
      ensures contents == Splice(old(contents), i * encoding, Encode(v, encoding))
    {
      contents := Splice(contents, i * encoding, Encode(v, encoding));
    }

    // The end of intsetAdd: room for one more slot, the tail moved, the value written.
    method InsertAt(value: Int64, pos: nat)
      requires Valid() && FitsIn(value, encoding) && Between(vs, pos, value)
      modifies this
      ensures Valid() && encoding == old(encoding) && vs == Insert(old(vs), pos, value)
    {
      var e := encoding;
      SlotsFit(pos, length, e);
      var junk: seq<Byte> := seq(e, i => 0);
      ghost var c := contents;
      assert c[|c|..] == [];
      contents := contents + junk;
      if pos < length {
        contents := Splice(contents, pos * e + e, contents[pos * e..length * e]);
      }
      assert contents == Splice(c + junk, pos * e + e, c[pos * e..]);
      InsertHolds(c, e, vs, pos, junk, value);
      InsertSorted(vs, pos, value);
      Set(pos, value);
      length := length + 1;
      vs := Insert(vs, pos, value);
    }

    // The loop of intsetUpgradeAndAdd: from the last slot to the first, so none is overwritten before it is read.
    method Widen(cur: nat, prepend: nat)
      requires IsEncoding(cur) && IsEncoding(encoding) && cur < encoding && prepend <= 1 && length == |vs|
      requires |contents| == (length + 1) * encoding && length * cur <= |contents|
      requires Holds(contents[..length * cur], cur, vs)
      modifies this`contents
      ensures |contents| == (length + 1) * encoding
      ensures forall k {:trigger vs[k]} :: 0 <= k < length ==> HoldsAt(contents, encoding, k + prepend, vs[k])
    {
      ghost var c := contents[..length * cur];
      var i := length;
      while i > 0
        invariant 0 <= i <= length && Upgrading(c, contents, cur, encoding, vs, i, prepend)
      {
        i := i - 1;
        UpgradeSlot(c, contents, cur, encoding, vs, i, prepend);
        UpgradeRest(c, contents, cur, encoding, vs, i, prepend);
        var v := Decode(Slot(contents, i, cur));
        Set(i + prepend, v);
      }
    }

    // intsetUpgradeAndAdd: the value goes to one end or the other.
    method UpgradeAndAdd(value: Int64)
      requires Valid() && ValueEncoding(value) > encoding
      modifies this
      ensures Valid() && encoding == ValueEncoding(value)
      ensures vs == Insert(old(vs), if value < 0 then 0 else old(length), value)
    {
      var cur, prepend := encoding, if value < 0 then 1 else 0;
      TooWide(contents, cur, vs, value);
      InsertSorted(vs, if value < 0 then 0 else length, value);
      encoding := ValueEncoding(value);
      NarrowestEncoding(value, encoding);
      GrowFits(length, cur, encoding);
      ghost var c := contents;
      contents := contents + seq((length + 1) * encoding - |contents|, i => 0);
      assert contents[..length * cur] == c;
      Widen(cur, prepend);
      UpgradeEnd(contents, encoding, vs, prepend, value);
      Set(if prepend == 1 then 0 else length, value);
      length := length + 1;
      vs := Insert(vs, if value < 0 then 0 else |vs|, value);
    }

    // intsetAdd
    method Add(value: Int64) returns (success: bool)
      requires Valid()
      modifies this
      ensures Valid() && (success <==> value !in Elements(old(vs)))
      ensures Elements(vs) == Elements(old(vs)) + {value}
      ensures encoding == if ValueEncoding(value) > old(encoding) then ValueEncoding(value) else old(encoding)
    {
      if ValueEncoding(value) > encoding {
        TooWide(contents, encoding, vs, value);
        InsertSorted(vs, if value < 0 then 0 else length, value);
        UpgradeAndAdd(value);
        return true;
      }
      NarrowestEncoding(value, encoding);
      var found, pos := Search(value);
      if found {
        assert Elements(vs) + {value} == Elements(vs);
        return false;
      }
      InsertSorted(vs, pos, value);
      InsertAt(value, pos);
      return true;
    }

    // intsetRemove: the encoding stays.
    method Remove(value: Int64) returns (success: bool)
      requires Valid()
      modifies this
      ensures Valid() && (success <==> value in Elements(old(vs)))
      ensures Elements(vs) == Elements(old(vs)) - {value} && encoding == old(encoding)
    {
      if ValueEncoding(value) > encoding {
        TooWide(contents, encoding, vs, value);
        return false;
      }
      var found, pos := Search(value);
      if !found { return false; }
      RemoveAt(pos);
      return true;
    }

    method RemoveAt(pos: nat)
      requires Valid() && pos < length
      modifies this
      ensures Valid() && encoding == old(encoding) && Elements(vs) == Elements(old(vs)) - {old(vs)[pos]}
      ensures vs == Without(old(vs), pos)
    {
      var e := encoding;
      MulStep(pos, length, e);
      ghost var c := contents;
      if pos < length - 1 {
        contents := Splice(contents, pos * e, contents[pos * e + e..]);
      }
      assert (length - 1) * e == length * e - e;
      contents := contents[..(length - 1) * e];
      assert pos == length - 1 ==> c[pos * e + e..] == [];
      assert contents == c[..pos * e] + c[pos * e + e..];
      RemoveHolds(c, e, vs, pos);
      WithoutSorted(vs, pos);
      length := length - 1;
      vs := Without(vs, pos);
    }
  }

  lemma InsertHolds(c: seq<Byte>, e: nat, vs: seq<int>, pos: nat, junk: seq<Byte>, v: int)
    requires Holds(c, e, vs) && pos <= |vs| && |junk| == e && pos * e <= |c| && FitsIn(v, e)
    ensures var d := Splice(c + junk, pos * e + e, c[pos * e..]);
            pos * e + e <= |d| && Holds(Splice(d, pos * e, Encode(v, e)), e, Insert(vs, pos, v))
  {
    var d := Splice(c + junk, pos * e + e, c[pos * e..]);
    var us := Insert(vs, pos, v);
    assert |us| * e == |vs| * e + e;
    forall i | 0 <= i < |us|
      ensures HoldsAt(Splice(d, pos * e, Encode(v, e)), e, i, us[i])
    {
      var k := if i < pos then i else i - 1;
      if i != pos {
        ShiftUp(c, e, vs, pos, junk, k, d);
      }
      WriteSlot(d, e, pos, v, i, us[i]);
    }
  }

  lemma RemoveHolds(c: seq<Byte>, e: nat, vs: seq<int>, pos: nat)
    requires Holds(c, e, vs) && pos < |vs| && pos * e + e <= |c|
    ensures Holds(c[..pos * e] + c[pos * e + e..], e, Without(vs, pos))
  {
    var us := Without(vs, pos);
    assert |us| * e == |vs| * e - e;
    forall i | 0 <= i < |us|
      ensures HoldsAt(c[..pos * e] + c[pos * e + e..], e, i, us[i])
    {
      ShiftDown(c, e, vs, pos, if i < pos then i else i + 1);
    }
  }

  lemma GrowFits(n: nat, e: nat, f: nat)
    requires e <= f
    ensures n * e <= (n + 1) * f && n * e <= n * f
  {
    assert n * (f - e) >= 0;
  }

  // Slots from i on are in their new place in the new width f; those below are as they were in c.
  ghost predicate Upgrading(c: seq<Byte>, d: seq<Byte>, e: nat, f: nat, vs: seq<int>, i: nat, prepend: nat)
  {
    && |d| == (|vs| + 1) * f && i * e <= |c| && i * e <= |d| && d[..i * e] == c[..i * e]
    && forall k {:trigger vs[k]} :: i <= k < |vs| ==> HoldsAt(d, f, k + prepend, vs[k])
  }

  // One turn of the upgrade: slot i is read in the old width and written in the new one, below it nothing changes.
  lemma UpgradeSlot(c: seq<Byte>, d: seq<Byte>, e: nat, f: nat, vs: seq<int>, i: nat, prepend: nat)
    requires IsEncoding(e) && IsEncoding(f) && e < f && prepend <= 1 && Holds(c, e, vs) && i < |vs|
    requires (i + 1) * e <= |c| && (i + 1) * e <= |d| == (|vs| + 1) * f && d[..(i + 1) * e] == c[..(i + 1) * e]
    ensures i * e + e <= |d| && (i + prepend) * f + f <= |d| && Decode(Slot(d, i, e)) == vs[i] && FitsIn(vs[i], f)
    ensures i * e <= |c| && Splice(d, (i + prepend) * f, Encode(vs[i], f))[..i * e] == c[..i * e]
  {
    assert HoldsAt(c, e, i, vs[i]);
    assert (i + 1) * e == i * e + e;
    assert Slot(d, i, e) == d[..(i + 1) * e][i * e..] == Slot(c, i, e);
    DecodeEncode(vs[i], e);
    FitsWider(vs[i], e, f);
    MulStep(i + prepend, |vs| + 1, f);
    GrowFits(i, e, f);
    SlotsFit(i, i + prepend, f);
    SpliceOther(d, (i + prepend) * f, Encode(vs[i], f), 0, i * e);
    assert d[0..i * e] == d[..(i + 1) * e][..i * e];
    assert c[..(i + 1) * e][..i * e] == c[..i * e];
  }

  lemma UpgradeRest(c: seq<Byte>, d: seq<Byte>, e: nat, f: nat, vs: seq<int>, i: nat, prepend: nat)
    requires i < |vs| && Upgrading(c, d, e, f, vs, i + 1, prepend)
    requires FitsIn(vs[i], f) && (i + prepend) * f + f <= |d|
    ensures var d' := Splice(d, (i + prepend) * f, Encode(vs[i], f));
            forall k {:trigger vs[k]} :: i <= k < |vs| ==> HoldsAt(d', f, k + prepend, vs[k])
  {
    forall k | i <= k < |vs|
      ensures HoldsAt(Splice(d, (i + prepend) * f, Encode(vs[i], f)), f, k + prepend, vs[k])
    {
      WriteSlot(d, f, i + prepend, vs[i], k + prepend, vs[k]);
    }
  }

  // A value that needs a wider encoding is beyond all that are stored.
  lemma TooWide(c: seq<Byte>, e: nat, vs: seq<int>, v: Int64)
    requires IsEncoding(e) && Holds(c, e, vs) && ValueEncoding(v) > e
    ensures Between(vs, if v < 0 then 0 else |vs|, v) && v !in vs
  {
    NarrowestEncoding(v, e);
    forall i | 0 <= i < |vs|
      ensures if v < 0 then v < vs[i] else vs[i] < v
    {
      assert HoldsAt(c, e, i, vs[i]);
    }
  }

  lemma UpgradeEnd(d: seq<Byte>, f: nat, vs: seq<int>, prepend: nat, v: int)
    requires prepend <= 1 && |d| == (|vs| + 1) * f && FitsIn(v, f)
    requires forall k {:trigger vs[k]} :: 0 <= k < |vs| ==> HoldsAt(d, f, k + prepend, vs[k])
    ensures var at := if prepend == 1 then 0 else |vs|;
            at * f + f <= |d| && Holds(Splice(d, at * f, Encode(v, f)), f, Insert(vs, at, v))
  {
    var at := if prepend == 1 then 0 else |vs|;
    var us := Insert(vs, at, v);
    MulStep(at, |vs| + 1, f);
    forall i | 0 <= i < |us|
      ensures HoldsAt(Splice(d, at * f, Encode(v, f)), f, i, us[i])
    {
      if i != at {
        assert us[i] == vs[i - prepend];
      }
      WriteSlot(d, f, at, v, i, us[i]);
    }
  }
}
