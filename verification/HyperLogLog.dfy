/**
HyperLogLog objects: a header with the cached cardinality and a register area in one of the two
encodings, updated in place by PFADD, PFCOUNT and PFMERGE. `Regs()` is the vector of 16384
registers that the object stands for, whatever its encoding.
*/
module HyperLogLog {
  import opened Basics
  import opened Words
  import opened HllDense
  import opened HllSparse
  import opened HllCount

  const HLL_HDR_SIZE: nat := 16

  // ---- Strings that do not cover the registers ----

  // The string sets a register beyond the last one. Zeros beyond it set nothing.
  ghost predicate Overruns(s: seq<Byte>)
  {
    exists k :: HLL_REGISTERS <= k < |Decode(s)| && Decode(s)[k] != 0
  }

  /* What walking over an opcode string comes to: the caller gets its registers, or an error, or the walk has
     left the register area, which the source does not notice. */
  datatype Outcome = Fine | Refused | PastEnd

  ghost function Verdict(s: seq<Byte>): Outcome
  {
    if Overruns(s) then PastEnd else if |Decode(s)| == HLL_REGISTERS then Fine else Refused
  }

  // The opcodes read so far have set nothing beyond the last register.
  ghost predicate Inside(done: seq<nat>) { forall k :: HLL_REGISTERS <= k < |done| ==> done[k] == 0 }

  lemma InsideRun(done: seq<nat>, v: nat, n: nat)
    requires Inside(done) && (v == 0 || |done| + n <= HLL_REGISTERS)
    ensures Inside(done + Rep(v, n))
  {
  }

  lemma PastRun(s: seq<Byte>, done: seq<nat>, v: nat, n: nat, tail: seq<nat>)
    requires Decode(s) == (done + Rep(v, n)) + tail && v != 0 && n > 0 && |done| + n > HLL_REGISTERS
    ensures Overruns(s)
  {
    var k := |done| + n - 1;
    assert Decode(s)[k] == (done + Rep(v, n))[k] == v;
  }

  lemma VerdictAtEnd(s: seq<Byte>, done: seq<nat>)
    requires Decode(s) == done && Inside(done)
    ensures Verdict(s) == if |done| == HLL_REGISTERS then Fine else Refused
  {
  }

  // Any value after a string that covers the registers is beyond them.
  lemma ValueAfterEndOverruns(s: seq<Byte>, b: Byte)
    requires WholeOpcodes(s) && |Decode(s)| >= HLL_REGISTERS && IsVal(b)
    ensures Overruns(s + [b])
  {
    DecodeConcat(s, [b]);
    assert Decode([b]) == Rep(ValValue(b), ValLen(b)) + Decode([]);
    assert Decode(s + [b])[|Decode(s)|] == ValValue(b);
  }

  // 16384 zeros and one value; with one more zero instead, the string is refused.
  lemma ShortestOverrun()
    ensures Verdict([127, 255, 128]) == PastEnd && Verdict([127, 255, 0]) == Refused
  {
    DecodeZeroRun(HLL_REGISTERS);
    ValueAfterEndOverruns([127, 255], 128);
    assert [127, 255] + [128] == [127, 255, 128];
    DecodeConcat([127, 255], [0]);
    assert [127, 255] + [0] == [127, 255, 0];
    assert Decode([0]) == Rep(0, 1) + Decode([]);
  }

  // ---- Sparse to dense ----

  // What has been read is in the registers, and zeros are in the others.
  ghost predicate Mirrors(regs: seq<nat>, done: seq<nat>)
  {
    |regs| == HLL_REGISTERS && forall k :: 0 <= k < HLL_REGISTERS ==> regs[k] == if k < |done| then done[k] else 0
  }

  lemma MirrorsZeros(regs: seq<nat>, done: seq<nat>, n: nat)
    requires Mirrors(regs, done)
    ensures Mirrors(regs, done + Rep(0, n))
  {
  }

  lemma MirrorsOne(regs: seq<nat>, done: seq<nat>, v: nat, n: nat)
    requires |done| + n < HLL_REGISTERS && Mirrors(regs, done + Rep(v, n))
    ensures Mirrors(regs[|done| + n := v], done + Rep(v, n + 1))
  {
  }

  /* hllSparseToDense: an error exactly for the strings that do not cover 16384 registers, among those that
     do not lead it past the register area. */
  method SparseToDense(s: seq<Byte>) returns (o: Outcome, dense: seq<Byte>)
    ensures o == Verdict(s)
    ensures o == Fine ==> DenseBuffer(dense) && Registers(dense) == Decode(s)
  {
    dense := EmptyDense();
    EmptyDenseIsZero();
    var idx, at := 0, s;
    ghost var done: seq<nat> := [];
    while at != []
      invariant DenseBuffer(dense) && |done| == idx && Decode(s) == done + Decode(at)
      invariant Mirrors(Registers(dense), done) && Inside(done)
      decreases |at|
    {
      var runlen, regval := Span(at), RunValue(at);
      DecodeStep(done, at, regval, runlen);
      if IsVal(at[0]) {
        var past;
        dense, idx, past := SetRun(dense, done, idx, regval, runlen);
        if past {
          PastRun(s, done, regval, runlen, Decode(Rest(at)));
          return PastEnd, dense;
        }
      } else {
        MirrorsZeros(Registers(dense), done, runlen);
        idx := idx + runlen;
      }
      InsideRun(done, regval, runlen);
      done := done + Rep(regval, runlen);
      at := Rest(at);
    }
    assert Decode(s) == done;
    VerdictAtEnd(s, done);
    o := if idx == HLL_REGISTERS then Fine else Refused;
    if o == Fine {
      assert Registers(dense) == done;
    }
  }

  // The inner loop of hllSparseToDense over one VAL opcode, up to a register that is not there.
  method SetRun(dense: seq<Byte>, ghost done: seq<nat>, start: nat, regval: nat, runlen: nat)
    returns (r: seq<Byte>, idx: nat, past: bool)
    requires DenseBuffer(dense) && |done| == start && regval <= HLL_REGISTER_MAX && runlen > 0
    requires Mirrors(Registers(dense), done)
    ensures past <==> start + runlen > HLL_REGISTERS
    ensures !past ==> DenseBuffer(r) && idx == start + runlen && Mirrors(Registers(r), done + Rep(regval, runlen))
  {
    r, idx := dense, start;
    assert done + Rep(regval, 0) == done;
    while idx < start + runlen
      invariant DenseBuffer(r) && start <= idx <= start + runlen && (idx == start || idx <= HLL_REGISTERS)
      invariant Mirrors(Registers(r), done + Rep(regval, idx - start))
    {
      if idx >= HLL_REGISTERS {
        return r, idx, true;
      }
      SetIsUpdate(r, idx, regval);
      MirrorsOne(Registers(r), done, regval, idx - start);
      r := SetRegister(r, idx, regval);
      idx := idx + 1;
    }
    past := false;
  }

  // ---- One element into a sparse string ----

  datatype Edit = Unchanged | Updated(s: seq<Byte>) | Promote

  /* hllSparseAdd up to the point where it either has updated the string or decides to promote.
     `maxBytes` is server.hll_sparse_max_bytes. */
  method SparseEdit(s: seq<Byte>, index: nat, count: nat, maxBytes: nat) returns (e: Edit)
    requires ValidSparse(s) && index < HLL_REGISTERS && count >= 1
    ensures count > VAL_MAX_VALUE ==> e == Promote
    ensures e == Unchanged ==> Decode(s)[index] >= count
    ensures e.Updated? ==> && Decode(s)[index] < count && ValidSparse(e.s)
                           && Decode(e.s) == Decode(s)[index := count]
    ensures e == Promote ==> Decode(s)[index] < count
    ensures e == Promote ==> count > VAL_MAX_VALUE || HLL_HDR_SIZE + |s| + 3 > maxBytes
    ensures e.Updated? ==> |e.s| <= |s| || HLL_HDR_SIZE + |e.s| <= maxBytes
  {
    if count > VAL_MAX_VALUE {
      SparseValuesSmall(s);
      return Promote;
    }
    var prev, before, at, first, span := Locate(s, index);
    var oplen := OpLen(at);
    CoveredValue(s, prev, before, at, first, index);
    Covered(s, prev, before, at, first, oplen);
    if IsVal(at[0]) && ValValue(at[0]) >= count {
      return Unchanged;
    }
    var pieces := NewOpcodes(at, first, index, count);
    var deltalen := |pieces| - oplen;
    if deltalen > 0 && HLL_HDR_SIZE + |s| + deltalen > maxBytes {
      return Promote;
    }
    var r := Splice(s, prev, before, at, first, index, count, pieces);
    return Updated(r);
  }

  // The opcodes to put in place of the one found: a VAL of length one, or the pieces of a run.
  method NewOpcodes(at: seq<Byte>, first: nat, index: nat, count: nat) returns (pieces: seq<Byte>)
    requires at != [] && first <= index < first + Span(at) && 1 <= count <= VAL_MAX_VALUE && Span(at) <= XZERO_MAX_LEN
    ensures pieces == SplitOpcode(at, first, index, count) && |pieces| <= OpLen(at) + 3
  {
    if (IsVal(at[0]) || IsZero(at[0])) && Span(at) == 1 {
      pieces := [ValSet(count, 1)];
      SplitOfOne(at, first, index, count);
    } else {
      pieces := SplitOpcode(at, first, index, count);
      SplitLength(at, first, index, count);
    }
  }

  method Splice(s: seq<Byte>, prev: seq<Byte>, before: seq<Byte>, at: seq<Byte>, first: nat, index: nat, count: nat,
                pieces: seq<Byte>)
    returns (r: seq<Byte>)
    requires ValidSparse(s) && AtOpcode(s, prev, before, at, first) && at != [] && OpLen(at) <= |at|
    requires first <= index < first + Span(at) && 1 <= count <= VAL_MAX_VALUE
    requires pieces == SplitOpcode(at, first, index, count)
    ensures ValidSparse(r) && index < |Decode(s)| && Decode(r) == Decode(s)[index := count]
    ensures |r| <= |s| + |pieces| - OpLen(at)
  {
    var oplen := OpLen(at);
    Substituted(s, prev, before, at, first, index, count, pieces, oplen);
    r := before + pieces + at[oplen..];
    assert prev <= before <= r;
    ghost var scanned;
    r, scanned := MergePass(r, prev);
  }

  // Cases B and C of the source are the general split on a run of one register.
  lemma SplitOfOne(at: seq<Byte>, first: nat, index: nat, count: nat)
    requires at != [] && Span(at) == 1 && index == first && 1 <= count <= VAL_MAX_VALUE
    ensures SplitOpcode(at, first, index, count) == [ValSet(count, 1)]
  {
  }

  lemma SplitLength(at: seq<Byte>, first: nat, index: nat, count: nat)
    requires at != [] && first <= index < first + Span(at) && 1 <= count <= VAL_MAX_VALUE
    ensures |SplitOpcode(at, first, index, count)| <= OpLen(at) + 3
  {
  }

  // No sparse register is above 32.
  lemma {:induction false} SparseValuesSmall(s: seq<Byte>)
    ensures forall i :: 0 <= i < |Decode(s)| ==> Decode(s)[i] <= VAL_MAX_VALUE
    decreases |s|
  {
    if s != [] {
      SparseValuesSmall(Rest(s));
    }
  }

  // ---- The pattern length of a hash ----

  /* hllPatLen on the 64-bit hash: the register index is its low 14 bits, the count the position of the
     first one from bit 14 on, where bit 63 counts as set. */
  method PatLen(hash: Bits) returns (count: nat, index: nat)
    requires |hash| == WORD_BITS
    ensures index == Val(hash[..14]) < HLL_REGISTERS
    ensures 1 <= count <= 50 && (hash[13 + count] || 13 + count == 63)
    ensures forall j :: 14 <= j < 13 + count ==> !hash[j]
  {
    assert Pow2(14) == HLL_REGISTERS by { Pow2Of14(); }
    index := Val(hash[..14]);
    var h := hash[63 := true];
    var bit := 14;
    count := 1;
    while !h[bit]
      invariant 14 <= bit <= 63 && count == bit - 13
      invariant forall j :: 14 <= j < bit ==> !hash[j]
      decreases 63 - bit
    {
      count := count + 1;
      bit := bit + 1;
    }
  }

  lemma Pow2Of14()
    ensures Pow2(14) == 16384
  {
    assert Pow2(7) == 128;
    Pow2Sum(7, 7);
  }

  // ---- Specifications over register vectors ----

  function PointwiseMax(a: seq<nat>, b: seq<nat>): (r: seq<nat>)
    requires |a| == |b|
    ensures |r| == |a|
  {
    seq(|a|, i requires 0 <= i < |a| => Max(a[i], b[i]))
  }

  // An element is the register index and pattern length of its hash.
  datatype Element = Element(index: nat, count: nat)

  ghost predicate GoodElement(e: Element) { e.index < HLL_REGISTERS && 1 <= e.count <= HLL_REGISTER_MAX }

  ghost predicate RegisterVector(r: seq<nat>)
  {
    |r| == HLL_REGISTERS && forall i :: 0 <= i < HLL_REGISTERS ==> r[i] <= HLL_REGISTER_MAX
  }

  ghost function AddOne(r: seq<nat>, e: Element): (r': seq<nat>)
    requires RegisterVector(r) && GoodElement(e)
    ensures RegisterVector(r')
  {
    r[e.index := Max(r[e.index], e.count)]
  }

  ghost function AddAll(r: seq<nat>, es: seq<Element>): (r': seq<nat>)
    requires RegisterVector(r) && forall i :: 0 <= i < |es| ==> GoodElement(es[i])
    ensures RegisterVector(r')
  {
    if es == [] then r else AddOne(AddAll(r, es[..|es| - 1]), es[|es| - 1])
  }

  lemma AddAllStep(r: seq<nat>, es: seq<Element>, j: nat)
    requires RegisterVector(r) && j < |es| && forall i :: 0 <= i < |es| ==> GoodElement(es[i])
    ensures AddAll(r, es[..j + 1]) == AddOne(AddAll(r, es[..j]), es[j])
  {
    assert es[..j + 1][..j] == es[..j];
  }

  // ---- The objects ----

  datatype Encoding = DenseEncoding | SparseEncoding

  const CACHE_INVALID: nat := 0x8000_0000_0000_0000   // bit 7 of card[7]

  class Hll {
    var encoding: Encoding
    var card: nat
    var data: seq<Byte>
    const PE: Table
    const finish: (real, nat) -> nat   // hllCount's arithmetic after the sum: alpha, bias and logarithm

    ghost predicate Valid()
      reads this
    {
      if encoding.DenseEncoding? then DenseBuffer(data) else ValidSparse(data)
    }

    ghost function Regs(): (r: seq<nat>)
      reads this
      requires Valid()
      ensures RegisterVector(r)
    {
      SparseValuesSmall(data);
      if encoding.DenseEncoding? then Registers(data) else Decode(data)
    }

    // The approximated cardinality of a register vector.
    ghost function Estimate(r: seq<nat>): nat
    {
      finish(SumPE(PE, r), ZeroCount(r))
    }

    predicate CacheValid()
      reads this
    {
      card < CACHE_INVALID
    }

    // Whenever the cache is marked valid it holds the count of the current registers.
    ghost predicate Coherent()
      reads this
      requires Valid()
    {
      CacheValid() ==> card == Estimate(Regs())
    }

    /* createHLLObject. The cache is valid and holds zero, which is right exactly when the arithmetic after
       the sum makes zero of 16384 zero registers. */
    constructor (PE: Table, finish: (real, nat) -> nat)
      ensures Valid() && Regs() == Rep(0, HLL_REGISTERS) && card == 0
      ensures this.PE == PE && this.finish == finish
      ensures Coherent() <==> finish(HLL_REGISTERS as real, HLL_REGISTERS) == 0
    {
      this.PE, this.finish := PE, finish;
      encoding, card, data := SparseEncoding, 0, ZeroRun(HLL_REGISTERS);
      new;
      DecodeZeroRun(HLL_REGISTERS);
      SumRep(PE, 0, HLL_REGISTERS);
    }

    // HLL_INVALIDATE_CACHE
    method InvalidateCache()
      modifies this`card
      ensures !CacheValid() && card >= old(card)
    {
      if card < CACHE_INVALID {
        card := card + CACHE_INVALID;
      }
    }

    // hllSparseToDense on the object
    method ToDense()
      requires Valid()
      modifies this`encoding, this`data
      ensures Valid() && encoding.DenseEncoding? && Regs() == old(Regs())
    {
      if encoding.SparseEncoding? {
        var o;
        o, data := SparseToDense(data);
        encoding := DenseEncoding;
      }
    }

    // hllDenseAdd
    method DenseAdd(e: Element) returns (ret: int)
      requires Valid() && encoding.DenseEncoding? && GoodElement(e)
      modifies this`data
      ensures Valid() && Regs() == AddOne(old(Regs()), e)
      ensures ret == if old(Regs())[e.index] < e.count then 1 else 0
    {
      GetIsRegister(data, e.index);
      var oldcount := GetRegister(data, e.index);
      if e.count > oldcount {
        SetIsUpdate(data, e.index, e.count);
        data := SetRegister(data, e.index, e.count);
        return 1;
      }
      return 0;
    }

    // hllSparseAdd
    method SparseAdd(e: Element, maxBytes: nat) returns (ret: int)
      requires Valid() && encoding.SparseEncoding? && GoodElement(e)
      modifies this
      ensures Valid() && Regs() == AddOne(old(Regs()), e)
      ensures ret == if old(Regs())[e.index] < e.count then 1 else 0
      ensures card == old(card) || !CacheValid()
      ensures ret == 0 ==> card == old(card)
    {
      var edit := SparseEdit(data, e.index, e.count, maxBytes);
      match edit
      case Unchanged =>
        ret := 0;
      case Updated(s) =>
        data := s;
        InvalidateCache();
        ret := 1;
      case Promote =>
        ToDense();
        ret := DenseAdd(e);
        assert ret == 1;
    }

    // hllAdd
    method Add(e: Element, maxBytes: nat) returns (ret: int)
      requires Valid() && GoodElement(e)
      modifies this
      ensures Valid() && Regs() == AddOne(old(Regs()), e)
      ensures ret == if old(Regs())[e.index] < e.count then 1 else 0
      ensures card == old(card) || !CacheValid()
      ensures ret == 0 ==> card == old(card)
    {
      match encoding
      case DenseEncoding => ret := DenseAdd(e);
      case SparseEncoding => ret := SparseAdd(e, maxBytes);
    }

    // PFADD on an existing key: returns whether any register changed.
    method PfAdd(es: seq<Element>, maxBytes: nat) returns (updated: bool)
      requires Valid() && Coherent() && forall i :: 0 <= i < |es| ==> GoodElement(es[i])
      modifies this
      ensures Valid() && Coherent() && Regs() == AddAll(old(Regs()), es)
      ensures updated == (Regs() != old(Regs())) && if updated then !CacheValid() else card == old(card)
    {
      updated := AddElements(es, maxBytes);
      if updated {
        InvalidateCache();
      }
    }

    // The loop of PFADD over its elements.
    method AddElements(es: seq<Element>, maxBytes: nat) returns (updated: bool)
      requires Valid() && forall i :: 0 <= i < |es| ==> GoodElement(es[i])
      modifies this
      ensures Valid() && Regs() == AddAll(old(Regs()), es) && updated == (Regs() != old(Regs()))
      ensures card == old(card) || !CacheValid()
      ensures !updated ==> card == old(card)
    {
      updated := false;
      ghost var r0 := Regs();
      var j := 0;
      while j < |es|
        invariant 0 <= j <= |es| && Valid() && Regs() == AddAll(r0, es[..j])
        invariant Grown(r0, updated, old(card))
      {
        AddAllStep(r0, es, j);
        updated := AddNext(es[j], maxBytes, r0, updated, old(card));
        j := j + 1;
      }
      assert es[..|es|] == es;
    }

    // Compared with registers and a cache of before.
    ghost predicate Grown(r0: seq<nat>, updated: bool, card0: nat)
      reads this
      requires Valid()
    {
      && Dominates(Regs(), r0) && updated == (Regs() != r0)
      && (card == card0 || !CacheValid()) && (!updated ==> card == card0)
    }

    method AddNext(e: Element, maxBytes: nat, ghost r0: seq<nat>, updated: bool, ghost card0: nat) returns (u: bool)
      requires Valid() && GoodElement(e) && Grown(r0, updated, card0)
      modifies this
      ensures Valid() && Regs() == AddOne(old(Regs()), e) && Grown(r0, u, card0)
    {
      AddOneGrows(Regs(), e, r0);
      var ret := Add(e, maxBytes);
      u := updated || ret == 1;
    }

    // PFCOUNT on one key
    method PfCount() returns (n: nat)
      requires Valid() && Coherent()
      modifies this`card
      ensures Valid() && Coherent() && Regs() == old(Regs()) && n == Estimate(Regs())
      ensures card == n
    {
      if CacheValid() {
        n := card;
      } else {
        n := Count();
        card := n;
      }
    }

    // hllCount: what it returns depends on the registers only, not on their encoding.
    method Count() returns (n: nat)
      requires Valid()
      ensures n == Estimate(Regs())
    {
      var E, ez;
      if encoding.DenseEncoding? {
        E, ez := DenseSum(PE, data);
      } else {
        var invalid;
        E, ez, invalid := SparseSum(PE, data);
      }
      n := finish(E, ez);
    }

    // hllMerge: the registers are merged into `max` by taking maxima.
    method MergeInto(max: array<nat>)
      requires Valid() && max.Length == HLL_REGISTERS
      modifies max
      ensures max[..] == PointwiseMax(old(max[..]), Regs())
    {
      if encoding.DenseEncoding? {
        var i := 0;
        while i < HLL_REGISTERS
          invariant 0 <= i <= HLL_REGISTERS
          invariant forall k :: 0 <= k < HLL_REGISTERS ==>
            max[k] == if k < i then Max(old(max[k]), Register(data, k)) else old(max[k])
        {
          GetIsRegister(data, i);
          var val := GetRegister(data, i);
          if val > max[i] {
            max[i] := val;
          }
          i := i + 1;
        }
      } else {
        ghost var m0 := max[..];
        var o := MergeSparse(data, max);
        MergedAll(max[..], m0, Decode(data));
      }
    }

    // PFMERGE with this object as destination: the destination counts as a source too.
    method PfMerge(sources: seq<Hll>)
      requires Valid() && AllValid([this] + sources)
      modifies this
      ensures Valid() && Coherent() && encoding.DenseEncoding?
      ensures Regs() == old(MergeAll(Rep(0, HLL_REGISTERS), RegsOf([this] + sources)))
    {
      var max := MergedRegisters([this] + sources);
      ToDense();
      WriteRegisters(max);
      InvalidateCache();
    }

    // PFMERGE's last loop: every register of the dense destination is set.
    method WriteRegisters(max: array<nat>)
      requires Valid() && encoding.DenseEncoding? && RegisterVector(max[..])
      modifies this`data
      ensures Valid() && Regs() == max[..]
    {
      var j := 0;
      while j < HLL_REGISTERS
        invariant 0 <= j <= HLL_REGISTERS && DenseBuffer(data)
        invariant forall k :: 0 <= k < j ==> Registers(data)[k] == max[k]
      {
        assert max[j] == max[..][j];
        SetIsUpdate(data, j, max[j]);
        data := SetRegister(data, j, max[j]);
        j := j + 1;
      }
      assert Registers(data) == max[..];
    }
  }

  // PFADD on a missing key: a new object, which counts as an update even without elements.
  method PfAddMissing(PE: Table, finish: (real, nat) -> nat, es: seq<Element>, maxBytes: nat)
    returns (h: Hll, updated: bool)
    requires forall i :: 0 <= i < |es| ==> GoodElement(es[i])
    ensures fresh(h) && h.Valid() && h.Coherent() && !h.CacheValid() && h.PE == PE && h.finish == finish
    ensures h.Regs() == AddAll(Rep(0, HLL_REGISTERS), es) && updated
  {
    h := new Hll(PE, finish);
    updated := h.AddElements(es, maxBytes);
    updated := true;
    h.InvalidateCache();
  }

  ghost predicate AllValid(hs: seq<Hll>)
    reads hs
  {
    forall i :: 0 <= i < |hs| ==> hs[i].Valid()
  }

  ghost function RegsOf(hs: seq<Hll>): (r: seq<seq<nat>>)
    requires AllValid(hs)
    reads hs
    ensures |r| == |hs| && forall i :: 0 <= i < |r| ==> RegisterVector(r[i])
  {
    seq(|hs|, i requires 0 <= i < |hs| && AllValid(hs) reads hs => hs[i].Regs())
  }

  // Pointwise maximum of a vector with each of a list of vectors.
  ghost function MergeAll(r: seq<nat>, rs: seq<seq<nat>>): (r': seq<nat>)
    requires RegisterVector(r) && forall i :: 0 <= i < |rs| ==> RegisterVector(rs[i])
    ensures RegisterVector(r')
  {
    if rs == [] then r
    else
      var last := rs[|rs| - 1];
      assert RegisterVector(last);
      PointwiseMax(MergeAll(r, rs[..|rs| - 1]), last)
  }

  /* hllMerge on a sparse string: run by run. On an error the registers that the string does cover have been
     merged all the same. */
  method MergeSparse(s: seq<Byte>, max: array<nat>) returns (o: Outcome)
    requires max.Length == HLL_REGISTERS
    modifies max
    ensures o == Verdict(s)
    ensures o != PastEnd ==> MergedWith(max[..], old(max[..]), Decode(s))
  {
    var i, at := 0, s;
    ghost var done: seq<nat> := [];
    ghost var m0 := max[..];
    while at != []
      invariant |done| == i && Decode(s) == done + Decode(at)
      invariant MergedWith(max[..], m0, done) && Inside(done)
      decreases |at|
    {
      var runlen, regval := Span(at), RunValue(at);
      DecodeStep(done, at, regval, runlen);
      if IsVal(at[0]) {
        var past := MergeRun(max, m0, done, i, regval, runlen);
        if past {
          PastRun(s, done, regval, runlen, Decode(Rest(at)));
          return PastEnd;
        }
      } else {
        MergedZeros(max[..], m0, done, runlen);
      }
      InsideRun(done, regval, runlen);
      i := i + runlen;
      done := done + Rep(regval, runlen);
      at := Rest(at);
    }
    assert Decode(s) == done;
    VerdictAtEnd(s, done);
    o := if i == HLL_REGISTERS then Fine else Refused;
  }

  // The registers read so far are merged, the others untouched.
  ghost predicate MergedWith(m: seq<nat>, m0: seq<nat>, done: seq<nat>)
  {
    && |m| == |m0| == HLL_REGISTERS
    && forall k :: 0 <= k < HLL_REGISTERS ==> m[k] == if k < |done| then Max(m0[k], done[k]) else m0[k]
  }

  lemma MergedZeros(m: seq<nat>, m0: seq<nat>, done: seq<nat>, n: nat)
    requires MergedWith(m, m0, done)
    ensures MergedWith(m, m0, done + Rep(0, n))
  {
  }

  lemma MergedOne(m: seq<nat>, m0: seq<nat>, done: seq<nat>, v: nat, n: nat)
    requires |done| + n < HLL_REGISTERS && MergedWith(m, m0, done + Rep(v, n))
    ensures MergedWith(m[|done| + n := Max(m[|done| + n], v)], m0, done + Rep(v, n + 1))
  {
  }

  lemma MergedAll(m: seq<nat>, m0: seq<nat>, r: seq<nat>)
    requires MergedWith(m, m0, r) && |r| == HLL_REGISTERS
    ensures m == PointwiseMax(m0, r)
  {
  }

  // The inner loop of hllMerge over one VAL opcode, up to a register that is not there.
  method MergeRun(max: array<nat>, ghost m0: seq<nat>, ghost done: seq<nat>, start: nat, regval: nat, runlen: nat)
    returns (past: bool)
    requires max.Length == HLL_REGISTERS && MergedWith(max[..], m0, done) && |done| == start && runlen > 0
    modifies max
    ensures past <==> start + runlen > HLL_REGISTERS
    ensures !past ==> MergedWith(max[..], m0, done + Rep(regval, runlen))
  {
    var i := start;
    assert done + Rep(regval, 0) == done;
    while i < start + runlen
      invariant start <= i <= start + runlen && (i == start || i <= HLL_REGISTERS)
      invariant MergedWith(max[..], m0, done + Rep(regval, i - start))
    {
      if i >= HLL_REGISTERS {
        return true;
      }
      ghost var before := max[..];
      MergedOne(before, m0, done, regval, i - start);
      if regval > max[i] {
        max[i] := regval;
      }
      assert max[..] == before[i := Max(before[i], regval)];
      i := i + 1;
    }
    past := false;
  }

  // The loop over the keys that PFMERGE and multi-key PFCOUNT share.
  method MergedRegisters(hs: seq<Hll>) returns (max: array<nat>)
    requires AllValid(hs)
    ensures fresh(max) && max[..] == old(MergeAll(Rep(0, HLL_REGISTERS), RegsOf(hs)))
  {
    max := new nat[HLL_REGISTERS](_ => 0);
    ghost var none := Rep(0, HLL_REGISTERS);
    assert max[..] == none;
    ghost var rs := RegsOf(hs);
    for j := 0 to |hs|
      invariant fresh(max) && max.Length == HLL_REGISTERS
      invariant max[..] == MergeAll(none, rs[..j])
    {
      MergeAllStep(none, rs, j);
      hs[j].MergeInto(max);
    }
    assert rs[..|hs|] == rs;
  }

  // Each register of a merge is the greatest of its sources.
  lemma {:induction false} MergeAllIsMax(r: seq<nat>, rs: seq<seq<nat>>, k: nat)
    requires RegisterVector(r) && k < HLL_REGISTERS && forall i :: 0 <= i < |rs| ==> RegisterVector(rs[i])
    ensures r[k] <= MergeAll(r, rs)[k] && forall i :: 0 <= i < |rs| ==> rs[i][k] <= MergeAll(r, rs)[k]
    ensures MergeAll(r, rs)[k] == r[k] || exists i :: 0 <= i < |rs| && rs[i][k] == MergeAll(r, rs)[k]
  {
    if rs != [] {
      var n := |rs| - 1;
      var m := MergeAll(r, rs[..n]);
      MergeAllIsMax(r, rs[..n], k);
      assert MergeAll(r, rs)[k] == Max(m[k], rs[n][k]);
      if m[k] != r[k] {
        var i :| 0 <= i < n && rs[..n][i][k] == m[k];
        assert rs[i][k] == m[k];
      }
    }
  }

  lemma MergeAllStep(r: seq<nat>, rs: seq<seq<nat>>, j: nat)
    requires RegisterVector(r) && j < |rs| && forall i :: 0 <= i < |rs| ==> RegisterVector(rs[i])
    ensures MergeAll(r, rs[..j + 1]) == PointwiseMax(MergeAll(r, rs[..j]), rs[j])
  {
    assert rs[..j + 1][..j] == rs[..j];
  }

  /* PFCOUNT with several keys: the count of their merge, through the raw encoding. `of` supplies the
     table and the final arithmetic. */
  method PfCountUnion(hs: seq<Hll>, of: Hll) returns (n: nat)
    requires of.Valid() && AllValid(hs)
    ensures n == of.Estimate(MergeAll(Rep(0, HLL_REGISTERS), RegsOf(hs)))
  {
    var max := MergedRegisters(hs);
    var E, ez := RawSum(of.PE, max[..]);
    n := of.finish(E, ez);
  }

  ghost predicate Dominates(a: seq<nat>, b: seq<nat>)
  {
    |a| == |b| && forall i :: 0 <= i < |a| ==> b[i] <= a[i]
  }

  // Once a register has grown past its first value the vector never equals the first one again.
  lemma AddOneGrows(r: seq<nat>, e: Element, r0: seq<nat>)
    requires RegisterVector(r) && GoodElement(e) && Dominates(r, r0)
    ensures Dominates(AddOne(r, e), r0)
    ensures AddOne(r, e) != r0 <==> r != r0 || r[e.index] < e.count
  {
    var r' := AddOne(r, e);
    if r[e.index] < e.count {
      assert r'[e.index] > r0[e.index];
    } else {
      assert r' == r;
    }
  }
}
