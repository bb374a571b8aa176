/**
The two quantities hllCount is computed from, the sum of 2^-register and the number of zero
registers, by the three loops of the source: unrolled over the dense bytes, run by run over the
sparse opcodes, and word by word over raw registers. Sums are taken over the reals.
*/
module HllCount {
  import opened Basics
  import opened Words
  import opened HllDense
  import opened HllSparse

  // The precomputed table PE of powers 2^-reg; the loops only rely on its entry for 0.
  type Table = f: nat -> real | f(0) == 1.0 witness _ => 1.0

  ghost function SumPE(PE: Table, r: seq<nat>): real
  {
    if r == [] then 0.0 else SumPE(PE, r[..|r| - 1]) + PE(r[|r| - 1])
  }

  ghost function ZeroCount(r: seq<nat>): nat
  {
    if r == [] then 0 else ZeroCount(r[..|r| - 1]) + (if r[|r| - 1] == 0 then 1 else 0)
  }

  lemma {:induction false} SumAppend(PE: Table, a: seq<nat>, b: seq<nat>)
    ensures SumPE(PE, a + b) == SumPE(PE, a) + SumPE(PE, b) && ZeroCount(a + b) == ZeroCount(a) + ZeroCount(b)
  {
    if b == [] {
      assert a + b == a;
    } else {
      SumAppend(PE, a, b[..|b| - 1]);
      assert (a + b)[..|a + b| - 1] == a + b[..|b| - 1];
    }
  }

  lemma SumOne(PE: Table, a: seq<nat>, x: nat)
    ensures SumPE(PE, a + [x]) == SumPE(PE, a) + PE(x) && ZeroCount(a + [x]) == ZeroCount(a) + (if x == 0 then 1 else 0)
  {
    assert (a + [x])[..|a|] == a;
  }

  lemma SumFour(PE: Table, a: seq<nat>, x0: nat, x1: nat, x2: nat, x3: nat)
    ensures SumPE(PE, a + [x0, x1, x2, x3]) == SumPE(PE, a) + ((PE(x0) + PE(x1)) + (PE(x2) + PE(x3)))
    ensures ZeroCount(a + [x0, x1, x2, x3]) ==
            ZeroCount(a) + Zero(x0) + Zero(x1) + Zero(x2) + Zero(x3)
  {
    SumOne(PE, a, x0);
    SumOne(PE, a + [x0], x1);
    SumOne(PE, a + [x0] + [x1], x2);
    SumOne(PE, a + [x0] + [x1] + [x2], x3);
    assert a + [x0, x1, x2, x3] == a + [x0] + [x1] + [x2] + [x3];
  }

  function Zero(x: nat): nat { if x == 0 then 1 else 0 }

  lemma {:induction false} SumRep(PE: Table, v: nat, n: nat)
    ensures SumPE(PE, Rep(v, n)) == n as real * PE(v) && ZeroCount(Rep(v, n)) == if v == 0 then n else 0
  {
    if n > 0 {
      SumRep(PE, v, n - 1);
      assert Rep(v, n)[..n - 1] == Rep(v, n - 1);
    }
  }

  // ---- Dense ----

  // `b & 63` and `(b >> 2) & 63`
  function LowSix(b: Byte): nat { Val(And(Widen(b), Mask(6, WORD_BITS))) }

  function HighSix(b: Byte): nat { Val(And(Shr(Widen(b), 2), Mask(6, WORD_BITS))) }

  lemma LowSixIsStraddle(b0: Byte, b1: Byte)
    ensures LowSix(b0) == Straddle(b0, b1, 0)
  {
    assert And(Widen(b0), Mask(6, WORD_BITS)) ==
           And(Or(Shr(Widen(b0), 0), Shl(Widen(b1), 8)), Mask(6, WORD_BITS));
  }

  lemma HighSixIsStraddle(b0: Byte, b1: Byte)
    ensures HighSix(b0) == Straddle(b0, b1, 2)
  {
    assert And(Shr(Widen(b0), 2), Mask(6, WORD_BITS)) ==
           And(Or(Shr(Widen(b0), 2), Shl(Widen(b1), 6)), Mask(6, WORD_BITS));
  }

  // The four registers packed in the three bytes from 3q on, as the unrolled loop reads them.
  method FourRegisters(p: seq<Byte>, q: nat) returns (r0: nat, r1: nat, r2: nat, r3: nat)
    requires DenseBuffer(p) && 4 * q + 3 < HLL_REGISTERS
    ensures r0 == Register(p, 4 * q) && r1 == Register(p, 4 * q + 1)
    ensures r2 == Register(p, 4 * q + 2) && r3 == Register(p, 4 * q + 3)
  {
    FirstOfFour(p, q);
    SecondOfFour(p, q);
    ThirdOfFour(p, q);
    LastOfFour(p, q);
    r0 := LowSix(p[3 * q]);
    r1 := Straddle(p[3 * q], p[3 * q + 1], 6);
    r2 := Straddle(p[3 * q + 1], p[3 * q + 2], 4);
    r3 := HighSix(p[3 * q + 2]);
  }

  lemma SecondOfFour(p: seq<Byte>, q: nat)
    requires DenseBuffer(p) && 4 * q + 3 < HLL_REGISTERS
    ensures Straddle(p[3 * q], p[3 * q + 1], 6) == Register(p, 4 * q + 1)
  {
    StraddleIsRegister(p, 4 * q + 1, 3 * q, 6);
  }

  lemma ThirdOfFour(p: seq<Byte>, q: nat)
    requires DenseBuffer(p) && 4 * q + 3 < HLL_REGISTERS
    ensures Straddle(p[3 * q + 1], p[3 * q + 2], 4) == Register(p, 4 * q + 2)
  {
    StraddleIsRegister(p, 4 * q + 2, 3 * q + 1, 4);
  }

  lemma FirstOfFour(p: seq<Byte>, q: nat)
    requires DenseBuffer(p) && 4 * q + 3 < HLL_REGISTERS
    ensures LowSix(p[3 * q]) == Register(p, 4 * q)
  {
    LowSixIsStraddle(p[3 * q], p[3 * q + 1]);
    StraddleIsRegister(p, 4 * q, 3 * q, 0);
  }

  lemma LastOfFour(p: seq<Byte>, q: nat)
    requires DenseBuffer(p) && 4 * q + 3 < HLL_REGISTERS
    ensures HighSix(p[3 * q + 2]) == Register(p, 4 * q + 3)
  {
    HighSixIsStraddle(p[3 * q + 2], p[3 * q + 3]);
    StraddleIsRegister(p, 4 * q + 3, 3 * q + 2, 2);
  }

  lemma StraddleIsRegister(p: seq<Byte>, i: nat, byte: nat, fb: nat)
    requires DenseBuffer(p) && i < HLL_REGISTERS && i * HLL_BITS == 8 * byte + fb && fb < 8
    ensures byte + 1 < |p| && Straddle(p[byte], p[byte + 1], fb) == Register(p, i)
  {
    Place(i * HLL_BITS, byte, fb);
    GetIsRegister(p, i);
  }

  lemma Place(n: nat, byte: nat, fb: nat)
    requires n == 8 * byte + fb && fb < 8
    ensures n / 8 == byte && n % 8 == fb
  {
  }

  // The sum and the number of zeros of the first n registers.
  ghost predicate Summed(PE: Table, regs: seq<nat>, n: nat, E: real, ez: nat)
  {
    n <= |regs| && E == SumPE(PE, regs[..n]) && ez == ZeroCount(regs[..n])
  }

  lemma PrefixOfFour(PE: Table, regs: seq<nat>, j: nat, E: real, ez: nat, r0: nat, r1: nat, r2: nat, r3: nat)
    requires 4 * j + 3 < |regs| && Summed(PE, regs, 4 * j, E, ez)
    requires regs[4 * j] == r0 && regs[4 * j + 1] == r1 && regs[4 * j + 2] == r2 && regs[4 * j + 3] == r3
    ensures Summed(PE, regs, 4 * (j + 1), E + ((PE(r0) + PE(r1)) + (PE(r2) + PE(r3))),
                   ez + Zero(r0) + Zero(r1) + Zero(r2) + Zero(r3))
  {
    SumFour(PE, regs[..4 * j], r0, r1, r2, r3);
    assert regs[..4 * (j + 1)] == regs[..4 * j] + [r0, r1, r2, r3];
  }

  // One turn of the loop of hllDenseSum.
  method AddFour(PE: Table, p: seq<Byte>, j: nat, E: real, ez: nat) returns (E': real, ez': nat)
    requires DenseBuffer(p) && 4 * j + 3 < HLL_REGISTERS && Summed(PE, Registers(p), 4 * j, E, ez)
    ensures Summed(PE, Registers(p), 4 * (j + 1), E', ez')
  {
    var r0, r1, r2, r3 := FourRegisters(p, j);
    PrefixOfFour(PE, Registers(p), j, E, ez, r0, r1, r2, r3);
    ez' := ez + Zero(r0) + Zero(r1) + Zero(r2) + Zero(r3);
    E' := E + ((PE(r0) + PE(r1)) + (PE(r2) + PE(r3)));
  }

  // hllDenseSum
  method DenseSum(PE: Table, p: seq<Byte>) returns (E: real, ez: nat)
    requires DenseBuffer(p)
    ensures E == SumPE(PE, Registers(p)) && ez == ZeroCount(Registers(p))
  {
    E, ez := 0.0, 0;
    var j := 0;
    while j < HLL_REGISTERS / 4
      invariant 0 <= j <= HLL_REGISTERS / 4 && Summed(PE, Registers(p), 4 * j, E, ez)
    {
      E, ez := AddFour(PE, p, j, E, ez);
      j := j + 1;
    }
    assert Registers(p)[..HLL_REGISTERS] == Registers(p);
  }

  // ---- Sparse ----

  lemma AfterRun(PE: Table, done: seq<nat>, regval: nat, runlen: nat)
    ensures SumPE(PE, done + Rep(regval, runlen)) == SumPE(PE, done) + runlen as real * PE(regval)
    ensures ZeroCount(done + Rep(regval, runlen)) == ZeroCount(done) + if regval == 0 then runlen else 0
  {
    SumAppend(PE, done, Rep(regval, runlen));
    SumRep(PE, regval, runlen);
  }

  lemma DecodeStep(done: seq<nat>, at: seq<Byte>, regval: nat, runlen: nat)
    requires at != [] && regval == RunValue(at) && runlen == Span(at)
    ensures done + Decode(at) == (done + Rep(regval, runlen)) + Decode(Rest(at))
    ensures regval == 0 <==> !IsVal(at[0])
  {
    Associate(done, Rep(regval, runlen), Decode(Rest(at)));
  }

  // hllSparseSum; `invalid` is set exactly when the opcodes do not cover 16384 registers.
  method SparseSum(PE: Table, s: seq<Byte>) returns (E: real, ez: nat, invalid: bool)
    ensures E == SumPE(PE, Decode(s)) && ez == ZeroCount(Decode(s))
    ensures invalid == (|Decode(s)| != HLL_REGISTERS)
  {
    var at, idx := s, 0;
    E, ez := 0.0, 0;
    ghost var done: seq<nat> := [];
    while at != []
      invariant Decode(s) == done + Decode(at) && |done| == idx
      invariant ez == ZeroCount(done) && E + ez as real == SumPE(PE, done)
      decreases |at|
    {
      var runlen, regval := Span(at), RunValue(at);
      DecodeStep(done, at, regval, runlen);
      AfterRun(PE, done, regval, runlen);
      idx := idx + runlen;
      if IsVal(at[0]) {
        E := E + PE(regval) * runlen as real;
      } else {
        ez := ez + runlen;
      }
      done := done + Rep(regval, runlen);
      at := Rest(at);
    }
    assert Decode(s) == done;
    invalid := idx != HLL_REGISTERS;
    E := E + ez as real;
  }

  // ---- Raw ----

  // hllRawSum: eight registers at a time, a zero word being eight zero registers.
  method RawSum(PE: Table, regs: seq<nat>) returns (E: real, ez: nat)
    requires |regs| == HLL_REGISTERS
    ensures E == SumPE(PE, regs) && ez == ZeroCount(regs)
  {
    E, ez := 0.0, 0;
    var j := 0;
    assert regs[..0] == [];
    while j < HLL_REGISTERS / 8
      invariant 0 <= j <= HLL_REGISTERS / 8
      invariant ez == ZeroCount(regs[..8 * j]) && E + ez as real == SumPE(PE, regs[..8 * j])
    {
      var word := regs[8 * j..8 * j + 8];
      assert regs[..8 * (j + 1)] == regs[..8 * j] + word;
      SumAppend(PE, regs[..8 * j], word);
      if word == Rep(0, 8) {
        SumRep(PE, 0, 8);
        ez := ez + 8;
      } else {
        var e, z := WordSum(PE, word);
        E, ez := E + e, ez + z;
      }
      j := j + 1;
    }
    assert regs[..HLL_REGISTERS] == regs;
    E := E + ez as real;
  }

  // The eight tests on the bytes of a word.
  method WordSum(PE: Table, word: seq<nat>) returns (E: real, ez: nat)
    ensures ez == ZeroCount(word) && E + ez as real == SumPE(PE, word)
  {
    E, ez := 0.0, 0;
    assert word[..0] == [];
    for k := 0 to |word|
      invariant ez == ZeroCount(word[..k]) && E + ez as real == SumPE(PE, word[..k])
    {
      SumOne(PE, word[..k], word[k]);
      assert word[..k + 1] == word[..k] + [word[k]];
      if word[k] != 0 {
        E := E + PE(word[k]);
      } else {
        ez := ez + 1;
      }
    }
    assert word[..|word|] == word;
  }
}
