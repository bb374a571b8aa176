/**
The dense HyperLogLog representation: 16384 six-bit registers packed into bytes, least
significant bits first, so that a register may straddle two bytes.
*/
module HllDense {
  import opened Words

  type Byte = b: nat | b < 256

  const HLL_REGISTERS: nat := 16384
  const HLL_BITS: nat := 6
  const HLL_REGISTER_MAX: nat := 63
  const DENSE_BYTES: nat := 12288   // (HLL_REGISTERS * HLL_BITS + 7) / 8

  // The register area followed by the null byte that ends every sds string.
  ghost predicate DenseBuffer(p: seq<Byte>)
  {
    |p| == DENSE_BYTES + 1
  }

  // Bit n of the packed area, bytes read from their least significant bit.
  ghost predicate PackedBit(p: seq<Byte>, n: nat)
    requires n / 8 < |p|
  {
    ToBits(p[n / 8], 8)[n % 8]
  }

  ghost function RegisterBits(p: seq<Byte>, i: nat): (r: Bits)
    requires DenseBuffer(p) && i < HLL_REGISTERS
    ensures |r| == HLL_BITS
  {
    seq(HLL_BITS, j requires 0 <= j < HLL_BITS => PackedBit(p, 6 * i + j))
  }

  // The i-th register: six consecutive packed bits.
  ghost function Register(p: seq<Byte>, i: nat): (r: nat)
    requires DenseBuffer(p) && i < HLL_REGISTERS
    ensures r <= HLL_REGISTER_MAX
  {
    assert Pow2(6) == 64;
    Val(RegisterBits(p, i))
  }

  ghost function Registers(p: seq<Byte>): (r: seq<nat>)
    requires DenseBuffer(p)
    ensures |r| == HLL_REGISTERS
  {
    seq(HLL_REGISTERS, i requires 0 <= i < HLL_REGISTERS => Register(p, i))
  }

  lemma {:induction false} ToBitsPrefix(n: nat, w: nat, v: nat)
    requires w <= v
    ensures ToBits(n, v)[..w] == ToBits(n, w)
  {
    if w > 0 {
      ToBitsPrefix(n / 2, w - 1, v - 1);
      assert ToBits(n, v)[..w] == [ToBits(n, v)[0]] + ToBits(n, v)[1..][..w - 1];
    }
  }

  lemma {:induction false} ToBitsHigh(n: nat, w: nat, v: nat, j: nat)
    requires n < Pow2(w) && w <= j < v
    ensures !ToBits(n, v)[j]
  {
    if w == 0 {
      ToBitsOfZero(v);
    } else {
      ToBitsHigh(n / 2, w - 1, v - 1, j - 1);
      assert ToBits(n, v)[j] == ToBits(n, v)[1..][j - 1];
    }
  }

  lemma {:induction false} ToBitsOfZero(v: nat)
    ensures ToBits(0, v) == Zeros(v)
  {
    if v > 0 {
      ToBitsOfZero(v - 1);
      assert Zeros(v) == [false] + Zeros(v - 1);
    }
  }

  // A byte widened to an unsigned long.
  function Widen(b: Byte): (w: Bits)
    ensures |w| == WORD_BITS
    ensures forall j :: 0 <= j < 8 ==> w[j] == ToBits(b, 8)[j]
    ensures forall j :: 8 <= j < WORD_BITS ==> !w[j]
  {
    ToBitsPrefix(b, 8, WORD_BITS);
    assert Pow2(8) == 256;
    assert forall j :: 8 <= j < WORD_BITS ==> !ToBits(b, WORD_BITS)[j] by {
      forall j | 8 <= j < WORD_BITS ensures !ToBits(b, WORD_BITS)[j] {
        ToBitsHigh(b, 8, WORD_BITS, j);
      }
    }
    ToBits(b, WORD_BITS)
  }

  // An unsigned long stored into a byte.
  function Narrow(w: Bits): (b: Byte)
    requires |w| == WORD_BITS
    ensures ToBits(b, 8) == w[..8]
  {
    ToBitsOfVal(w[..8]);
    assert Pow2(8) == 256;
    Val(w[..8])
  }

  // `(b0 >> s | b1 << (8 - s)) & 63`
  function Straddle(b0: Byte, b1: Byte, s: nat): nat
    requires s <= 8
  {
    Val(And(Or(Shr(Widen(b0), s), Shl(Widen(b1), 8 - s)), Mask(HLL_BITS, WORD_BITS)))
  }

  // HLL_DENSE_GET_REGISTER
  function GetRegister(p: seq<Byte>, regnum: nat): (r: nat)
    requires DenseBuffer(p) && regnum < HLL_REGISTERS
  {
    var byte := regnum * HLL_BITS / 8;
    var fb := regnum * HLL_BITS % 8;
    Straddle(p[byte], p[byte + 1], fb)
  }

  lemma GetIsRegister(p: seq<Byte>, regnum: nat)
    requires DenseBuffer(p) && regnum < HLL_REGISTERS
    ensures GetRegister(p, regnum) == Register(p, regnum)
  {
    var byte := regnum * HLL_BITS / 8;
    var fb := regnum * HLL_BITS % 8;
    var b0 := Widen(p[byte]);
    var b1 := Widen(p[byte + 1]);
    var w := Or(Shr(b0, fb), Shl(b1, 8 - fb));
    MaskKeepsLowBits(w, HLL_BITS);
    forall j | 0 <= j < HLL_BITS
      ensures w[j] == RegisterBits(p, regnum)[j]
    {
      StraddlePosition(regnum, j);
      StraddleBit(p[byte], p[byte + 1], fb, j);
    }
    assert w[..HLL_BITS] == RegisterBits(p, regnum);
  }

  lemma StraddleBit(x: Byte, y: Byte, fb: nat, j: nat)
    requires fb < 8 && j < HLL_BITS
    ensures Or(Shr(Widen(x), fb), Shl(Widen(y), 8 - fb))[j]
            == if fb + j < 8 then ToBits(x, 8)[fb + j] else ToBits(y, 8)[fb + j - 8]
  {
  }

  // Where bit j of a register lies.
  lemma StraddlePosition(regnum: nat, j: nat)
    requires j < HLL_BITS
    ensures var byte, fb := regnum * HLL_BITS / 8, regnum * HLL_BITS % 8;
            && (fb + j < 8 ==> (6 * regnum + j) / 8 == byte && (6 * regnum + j) % 8 == fb + j)
            && (fb + j >= 8 ==> (6 * regnum + j) / 8 == byte + 1 && (6 * regnum + j) % 8 == fb + j - 8)
  {
  }

  // `b &= ~(HLL_REGISTER_MAX << fb); b |= v << fb;`
  function StoreLow(b: Byte, v: Bits, fb: nat): (r: Byte)
    requires |v| == WORD_BITS
  {
    Narrow(Or(And(Widen(b), Not(Shl(Mask(HLL_BITS, WORD_BITS), fb))), Shl(v, fb)))
  }

  // `b &= ~(HLL_REGISTER_MAX >> fb8); b |= v >> fb8;`
  function StoreHigh(b: Byte, v: Bits, fb8: nat): (r: Byte)
    requires |v| == WORD_BITS
  {
    Narrow(Or(And(Widen(b), Not(Shr(Mask(HLL_BITS, WORD_BITS), fb8))), Shr(v, fb8)))
  }

  lemma StoreLowBits(b: Byte, v: Bits, fb: nat, j: nat)
    requires |v| == WORD_BITS && fb < 8 && j < 8
    requires forall i :: 6 <= i < WORD_BITS ==> !v[i]
    ensures ToBits(StoreLow(b, v, fb), 8)[j] == if fb <= j < fb + 6 then v[j - fb] else ToBits(b, 8)[j]
  {
    var w := Or(And(Widen(b), Not(Shl(Mask(HLL_BITS, WORD_BITS), fb))), Shl(v, fb));
    assert ToBits(StoreLow(b, v, fb), 8)[j] == w[..8][j];
    assert w[j] == ((Widen(b)[j] && !(fb <= j && Mask(HLL_BITS, WORD_BITS)[j - fb])) || (fb <= j && v[j - fb]));
  }

  lemma StoreHighBits(b: Byte, v: Bits, fb8: nat, j: nat)
    requires |v| == WORD_BITS && 1 <= fb8 <= 8 && j < 8
    requires forall i :: 6 <= i < WORD_BITS ==> !v[i]
    ensures ToBits(StoreHigh(b, v, fb8), 8)[j] == if j + fb8 < 6 then v[j + fb8] else ToBits(b, 8)[j]
  {
    var w := Or(And(Widen(b), Not(Shr(Mask(HLL_BITS, WORD_BITS), fb8))), Shr(v, fb8));
    assert ToBits(StoreHigh(b, v, fb8), 8)[j] == w[..8][j];
    assert w[j] == ((Widen(b)[j] && !Mask(HLL_BITS, WORD_BITS)[j + fb8]) || v[j + fb8]);
  }

  // HLL_DENSE_SET_REGISTER
  function SetRegister(p: seq<Byte>, regnum: nat, val: nat): (r: seq<Byte>)
    requires DenseBuffer(p) && regnum < HLL_REGISTERS
    ensures DenseBuffer(r)
  {
    var byte := regnum * HLL_BITS / 8;
    var fb := regnum * HLL_BITS % 8;
    var fb8 := 8 - fb;
    var v := ToBits(val, WORD_BITS);
    var q := p[byte := StoreLow(p[byte], v, fb)];
    q[byte + 1 := StoreHigh(q[byte + 1], v, fb8)]
  }

  lemma RegisterValueBits(val: nat)
    requires val <= HLL_REGISTER_MAX
    ensures forall j :: 0 <= j < 6 ==> ToBits(val, WORD_BITS)[j] == ToBits(val, 6)[j]
    ensures forall j :: 6 <= j < WORD_BITS ==> !ToBits(val, WORD_BITS)[j]
    ensures Val(ToBits(val, 6)) == val
  {
    assert Pow2(6) == 64;
    ToBitsPrefix(val, 6, WORD_BITS);
    forall j | 6 <= j < WORD_BITS ensures !ToBits(val, WORD_BITS)[j] {
      ToBitsHigh(val, 6, WORD_BITS, j);
    }
    ValOfToBits(val, 6);
  }

  lemma StoreLowValue(b: Byte, val: nat, fb: nat, j: nat)
    requires val <= HLL_REGISTER_MAX && fb < 8 && j < 8
    ensures ToBits(StoreLow(b, ToBits(val, WORD_BITS), fb), 8)[j] ==
            if fb <= j < fb + 6 then ToBits(val, 6)[j - fb] else ToBits(b, 8)[j]
  {
    RegisterValueBits(val);
    StoreLowBits(b, ToBits(val, WORD_BITS), fb, j);
  }

  lemma StoreHighValue(b: Byte, val: nat, fb8: nat, j: nat)
    requires val <= HLL_REGISTER_MAX && 1 <= fb8 <= 8 && j < 8
    ensures ToBits(StoreHigh(b, ToBits(val, WORD_BITS), fb8), 8)[j] ==
            if j + fb8 < 6 then ToBits(val, 6)[j + fb8] else ToBits(b, 8)[j]
  {
    RegisterValueBits(val);
    StoreHighBits(b, ToBits(val, WORD_BITS), fb8, j);
  }

  // Which packed bits belong to the register, in terms of the two bytes it may touch.
  lemma BitPosition(regnum: nat, n: nat, byte: nat, fb: nat, b: nat, j: nat)
    requires byte == regnum * HLL_BITS / 8 && fb == regnum * HLL_BITS % 8 && b == n / 8 && j == n % 8
    ensures b == byte ==> n - 6 * regnum == j - fb && (6 * regnum <= n < 6 * regnum + 6 <==> fb <= j < fb + 6)
    ensures b == byte + 1 ==> n - 6 * regnum == j + (8 - fb) && (6 * regnum <= n < 6 * regnum + 6 <==> j + (8 - fb) < 6)
    ensures b != byte && b != byte + 1 ==> !(6 * regnum <= n < 6 * regnum + 6)
  {
    assert n == 8 * b + j && regnum * HLL_BITS == 8 * byte + fb;
  }

  // The bytes after the assignment.
  lemma SetRegisterBytes(p: seq<Byte>, regnum: nat, val: nat, byte: nat, fb: nat)
    requires DenseBuffer(p) && regnum < HLL_REGISTERS
    requires byte == regnum * HLL_BITS / 8 && fb == regnum * HLL_BITS % 8
    ensures var v := ToBits(val, WORD_BITS);
            var r := SetRegister(p, regnum, val);
            && byte + 1 < |p|
            && r[byte] == StoreLow(p[byte], v, fb)
            && r[byte + 1] == StoreHigh(p[byte + 1], v, 8 - fb)
            && forall b :: 0 <= b < |p| && b != byte && b != byte + 1 ==> r[b] == p[b]
  {
  }

  // Only the six bits of the register change, and they become those of val.
  lemma SetChangesSixBits(p: seq<Byte>, regnum: nat, val: nat, n: nat)
    requires DenseBuffer(p) && regnum < HLL_REGISTERS && val <= HLL_REGISTER_MAX && n / 8 < |p|
    ensures PackedBit(SetRegister(p, regnum, val), n) ==
            if 6 * regnum <= n < 6 * regnum + 6 then ToBits(val, 6)[n - 6 * regnum] else PackedBit(p, n)
  {
    var byte := regnum * HLL_BITS / 8;
    var fb := regnum * HLL_BITS % 8;
    var b, j := n / 8, n % 8;
    BitPosition(regnum, n, byte, fb, b, j);
    SetRegisterBytes(p, regnum, val, byte, fb);
    if b == byte {
      StoreLowValue(p[byte], val, fb, j);
    } else if b == byte + 1 {
      StoreHighValue(p[byte + 1], val, 8 - fb, j);
    }
  }

  // r is p with the six bits of a register replaced by those of val.
  ghost predicate IsSet(p: seq<Byte>, r: seq<Byte>, regnum: nat, val: nat)
    requires DenseBuffer(p) && DenseBuffer(r)
  {
    forall n: nat {:trigger PackedBit(r, n)} :: n / 8 < |p| ==>
      PackedBit(r, n) == if 6 * regnum <= n < 6 * regnum + 6 then ToBits(val, 6)[n - 6 * regnum] else PackedBit(p, n)
  }

  lemma SetThenGet(p: seq<Byte>, r: seq<Byte>, regnum: nat, val: nat, i: nat)
    requires DenseBuffer(p) && DenseBuffer(r) && IsSet(p, r, regnum, val)
    requires regnum < HLL_REGISTERS && val <= HLL_REGISTER_MAX && i < HLL_REGISTERS
    ensures Register(r, i) == if i == regnum then val else Register(p, i)
  {
    var want := if i == regnum then ToBits(val, 6) else RegisterBits(p, i);
    forall j | 0 <= j < HLL_BITS ensures RegisterBits(r, i)[j] == want[j] {
      assert PackedBit(r, 6 * i + j) == want[j];
    }
    assert RegisterBits(r, i) == want;
    RegisterValueBits(val);
  }

  lemma UpdateOfSet(p: seq<Byte>, r: seq<Byte>, regnum: nat, val: nat)
    requires DenseBuffer(p) && DenseBuffer(r) && IsSet(p, r, regnum, val)
    requires regnum < HLL_REGISTERS && val <= HLL_REGISTER_MAX
    ensures Registers(r) == Registers(p)[regnum := val]
  {
    forall i | 0 <= i < HLL_REGISTERS
      ensures Register(r, i) == if i == regnum then val else Register(p, i)
    {
      SetThenGet(p, r, regnum, val, i);
    }
  }

  // Setting a register is an array update on the 16384 registers.
  lemma SetIsUpdate(p: seq<Byte>, regnum: nat, val: nat)
    requires DenseBuffer(p) && regnum < HLL_REGISTERS && val <= HLL_REGISTER_MAX
    ensures Registers(SetRegister(p, regnum, val)) == Registers(p)[regnum := val]
  {
    forall n: nat | n / 8 < |p|
      ensures PackedBit(SetRegister(p, regnum, val), n) ==
              if 6 * regnum <= n < 6 * regnum + 6 then ToBits(val, 6)[n - 6 * regnum] else PackedBit(p, n)
    {
      SetChangesSixBits(p, regnum, val, n);
    }
    UpdateOfSet(p, SetRegister(p, regnum, val), regnum, val);
  }

  // The register area of a fresh dense string: all bytes zero.
  function EmptyDense(): (p: seq<Byte>)
    ensures DenseBuffer(p)
  {
    seq(DENSE_BYTES + 1, _ => 0)
  }

  lemma EmptyDenseIsZero()
    ensures Registers(EmptyDense()) == seq(HLL_REGISTERS, _ => 0)
  {
    ToBitsOfZero(8);
    ValOfZeros(6);
    forall i | 0 <= i < HLL_REGISTERS ensures Register(EmptyDense(), i) == 0 {
      forall j | 0 <= j < 6 ensures !RegisterBits(EmptyDense(), i)[j] {
        assert !Zeros(8)[(6 * i + j) % 8];
      }
      assert RegisterBits(EmptyDense(), i) == Zeros(6);
    }
  }
}
