/**
The checksum of a known text. Registers as machine words, and the same steps on them: what the model computes on
sequences of bits can be computed on words, which ties the polynomial to the value the source gives for "123456789".
*/
module Crc64Check {
  import opened Words
  import opened Octets
  import opened Crc64

  // ---- Words and their bits ----

  function BitsOf(x: bv64, n: nat): (w: Bits)
    ensures |w| == n
  {
    if n == 0 then [] else [x & 1 == 1] + BitsOf(x >> 1, n - 1)
  }

  function Register64(x: bv64): Register { BitsOf(x, 64) }

  lemma XorLaw(x: bv64, y: bv64)
    ensures (x ^ y) & 1 == 1 <==> (x & 1 == 1) != (y & 1 == 1)
    ensures (x ^ y) >> 1 == (x >> 1) ^ (y >> 1)
  {
  }

  lemma {:induction false} XorBits(x: bv64, y: bv64, n: nat)
    ensures BitsOf(x ^ y, n) == Xor(BitsOf(x, n), BitsOf(y, n))
    decreases n
  {
    if n > 0 {
      XorLaw(x, y);
      XorBits(x >> 1, y >> 1, n - 1);
      XorHead(x & 1 == 1, y & 1 == 1, BitsOf(x >> 1, n - 1), BitsOf(y >> 1, n - 1));
    }
  }

  lemma XorHead(a: bool, b: bool, v: Bits, w: Bits)
    requires |v| == |w|
    ensures Xor([a] + v, [b] + w) == [a != b] + Xor(v, w)
  {
  }

  // The word shifted right n times by one.
  function ShiftRight(x: bv64, n: nat): bv64
    decreases n
  {
    if n == 0 then x else ShiftRight(x >> 1, n - 1)
  }

  lemma {:induction false} BitsSplit(x: bv64, m: nat, n: nat)
    ensures BitsOf(x, m + n) == BitsOf(x, m) + BitsOf(ShiftRight(x, m), n)
    decreases m
  {
    if m == 0 {
      assert [] + BitsOf(x, n) == BitsOf(x, n);
    } else {
      BitsSplit(x >> 1, m - 1, n);
      assert m + n - 1 == m - 1 + n;
      assert [x & 1 == 1] + (BitsOf(x >> 1, m - 1) + BitsOf(ShiftRight(x, m), n)) ==
             ([x & 1 == 1] + BitsOf(x >> 1, m - 1)) + BitsOf(ShiftRight(x, m), n);
    }
  }

  lemma {:induction false} ShiftRightAdd(x: bv64, m: nat, n: nat)
    ensures ShiftRight(x, m + n) == ShiftRight(ShiftRight(x, m), n)
    decreases m
  {
    if m > 0 {
      ShiftRightAdd(x >> 1, m - 1, n);
      assert m + n - 1 == m - 1 + n;
    }
  }

  lemma ShiftRightFour(x: bv64)
    ensures ShiftRight(x, 4) == x >> 4
  {
    assert ShiftRight(x, 4) == ShiftRight(x >> 1, 3) == ShiftRight(x >> 1 >> 1, 2);
    FourLaw(x);
  }

  lemma FourLaw(x: bv64)
    ensures x >> 1 >> 1 >> 1 >> 1 == x >> 4
  {
  }

  lemma ShiftRightEight(x: bv64)
    ensures ShiftRight(x, 8) == x >> 8
  {
    ShiftRightAdd(x, 4, 4);
    ShiftRightFour(x);
    ShiftRightFour(x >> 4);
    EightLaw(x);
  }

  lemma EightLaw(x: bv64)
    ensures (x >> 4) >> 4 == x >> 8
  {
  }

  lemma ShiftRightSixteen(x: bv64)
    ensures ShiftRight(x, 16) == x >> 16
  {
    ShiftRightAdd(x, 8, 8);
    ShiftRightEight(x);
    ShiftRightEight(x >> 8);
    SixteenLaw(x);
  }

  lemma SixteenLaw(x: bv64)
    ensures (x >> 8) >> 8 == x >> 16
  {
  }

  lemma ShiftRightHalf(x: bv64)
    ensures ShiftRight(x, 32) == x >> 32
  {
    ShiftRightAdd(x, 16, 16);
    ShiftRightSixteen(x);
    ShiftRightSixteen(x >> 16);
    HalfLaw(x);
  }

  lemma HalfLaw(x: bv64)
    ensures (x >> 16) >> 16 == x >> 32
  {
  }

  // After 64 shifts nothing is left.
  lemma ShiftedOut(x: bv64)
    ensures ShiftRight(x, 64) == 0
  {
    ShiftRightAdd(x, 32, 32);
    ShiftRightHalf(x);
    ShiftRightHalf(x >> 32);
    OutLaw(x);
  }

  lemma OutLaw(x: bv64)
    ensures (x >> 32) >> 32 == 0
  {
  }

  lemma HalfBits(x: bv64)
    ensures Half(Register64(x)) == Register64(x >> 1)
  {
    BitsSplit(x, 64, 1);
    ShiftedOut(x);
    assert BitsOf(0, 1) == [false];
    assert BitsOf(x, 65) == [x & 1 == 1] + BitsOf(x >> 1, 64);
    TailOf(BitsOf(x, 65), x & 1 == 1, BitsOf(x >> 1, 64), BitsOf(x, 64));
  }

  lemma TailOf(w: Bits, b: bool, tail: Bits, front: Bits)
    requires w == [b] + tail && w == front + [false] && |front| == 64
    ensures tail == front[1..] + [false]
  {
    assert tail == w[1..];
  }

  // ---- The steps of the checksum on words ----

  const POLY64: bv64 := 0x95ac_9329_ac4b_c9b5

  function Shift64(x: bv64): bv64 { if x & 1 == 1 then (x >> 1) ^ POLY64 else x >> 1 }

  function Shifts64(x: bv64, n: nat): bv64
    decreases n
  {
    if n == 0 then x else Shifts64(Shift64(x), n - 1)
  }

  lemma ShiftBits(x: bv64)
    ensures Shift(Register64(POLY64), Register64(x)) == Register64(Shift64(x))
  {
    HalfBits(x);
    XorBits(x >> 1, POLY64, 64);
  }

  lemma {:induction false} ShiftsBits(x: bv64, n: nat)
    ensures Shifts(Register64(POLY64), Register64(x), n) == Register64(Shifts64(x, n))
    decreases n
  {
    if n > 0 {
      ShiftBits(x);
      ShiftsBits(Shift64(x), n - 1);
    }
  }

  // One byte: the register c and the byte b leave the register d.
  lemma FeedBits(c: bv64, b: bv64, d: bv64, octet: Octet)
    requires Pad(octet) == Register64(b) && Shifts64(c ^ b, 8) == d
    ensures Feed(Register64(POLY64), Register64(c), octet) == Register64(d)
  {
    XorBits(c, b, 64);
    ShiftsBits(c ^ b, 8);
  }


  // ---- Numbers as words ----

  // The low byte and the others.
  lemma ByteThenRest(n: nat, x: bv64, k: nat)
    requires BitsOf(x, 8) == ToBits(n, 8) && BitsOf(x >> 8, k) == ToBits(n / 256, k)
    ensures BitsOf(x, 8 + k) == ToBits(n, 8 + k)
  {
    BitsSplit(x, 8, k);
    ShiftRightEight(x);
    NumberSplit(n, k);
  }

  // The number halved n times.
  function Halved(n: nat, m: nat): nat
    decreases m
  {
    if m == 0 then n else Halved(n / 2, m - 1)
  }

  lemma {:induction false} ToBitsSplit(n: nat, m: nat, k: nat)
    ensures ToBits(n, m + k) == ToBits(n, m) + ToBits(Halved(n, m), k)
    decreases m
  {
    if m == 0 {
      assert [] + ToBits(n, k) == ToBits(n, k);
    } else {
      ToBitsSplit(n / 2, m - 1, k);
      Heads(n % 2 == 1, ToBits(n / 2, m - 1), ToBits(Halved(n, m), k), ToBits(n, m + k), m - 1 + k, n / 2);
    }
  }

  lemma Heads(b: bool, a: Bits, c: Bits, w: Bits, m: nat, h: nat)
    requires w == [b] + ToBits(h, m) && ToBits(h, m) == a + c
    ensures w == ([b] + a) + c
  {
  }

  lemma HalvedFour(n: nat)
    ensures Halved(n, 4) == n / 16
  {
    assert Halved(n, 4) == Halved(n / 2, 3) == Halved(n / 2 / 2, 2);
    assert n / 2 / 2 / 2 / 2 == n / 16;
  }

  lemma {:induction false} HalvedAdd(n: nat, a: nat, b: nat)
    ensures Halved(n, a + b) == Halved(Halved(n, a), b)
    decreases a
  {
    if a > 0 {
      HalvedAdd(n / 2, a - 1, b);
      assert a + b - 1 == a - 1 + b;
    }
  }

  lemma NumberSplit(n: nat, k: nat)
    ensures ToBits(n, 8 + k) == ToBits(n, 8) + ToBits(n / 256, k)
  {
    ToBitsSplit(n, 8, k);
    HalvedAdd(n, 4, 4);
    HalvedFour(n);
    HalvedFour(n / 16);
    assert n / 16 / 16 == n / 256;
  }

  lemma FourBits(x: bv64)
    ensures BitsOf(x, 4) == [x & 1 == 1, (x >> 1) & 1 == 1, (x >> 2) & 1 == 1, (x >> 3) & 1 == 1]
  {
    TwoBits(x);
    BitsSplit(x, 2, 2);
    ShiftTwo(x);
    TwoBits(x >> 2);
    TwoLaw(x);
  }

  lemma TwoBits(x: bv64)
    ensures BitsOf(x, 2) == [x & 1 == 1, (x >> 1) & 1 == 1]
  {
    assert BitsOf(x >> 1, 1) == [(x >> 1) & 1 == 1] + BitsOf(x >> 1 >> 1, 0);
  }

  lemma ShiftTwo(x: bv64)
    ensures ShiftRight(x, 2) == x >> 2
  {
    assert ShiftRight(x, 2) == ShiftRight(x >> 1, 1) == x >> 1 >> 1;
    TwoShifts(x);
  }

  lemma TwoShifts(x: bv64)
    ensures x >> 1 >> 1 == x >> 2
  {
  }

  lemma TwoLaw(x: bv64)
    ensures (x >> 2) >> 1 == x >> 3
  {
  }

  // The low four bits of a word.
  predicate Nibble(x: bv64, b0: bool, b1: bool, b2: bool, b3: bool)
  {
    (x & 1 == 1) == b0 && ((x >> 1) & 1 == 1) == b1 && ((x >> 2) & 1 == 1) == b2 && ((x >> 3) & 1 == 1) == b3
  }

  lemma NibbleBits(x: bv64, b0: bool, b1: bool, b2: bool, b3: bool)
    requires Nibble(x, b0, b1, b2, b3)
    ensures BitsOf(x, 4) == [b0, b1, b2, b3]
  {
    FourBits(x);
  }

  lemma EightBits(x: bv64, y: bv64, b0: bool, b1: bool, b2: bool, b3: bool, b4: bool, b5: bool, b6: bool, b7: bool)
    requires y == x >> 4 && Nibble(x, b0, b1, b2, b3) && Nibble(y, b4, b5, b6, b7)
    ensures BitsOf(x, 8) == [b0, b1, b2, b3, b4, b5, b6, b7]
  {
    BitsSplit(x, 4, 4);
    ShiftRightFour(x);
    NibbleBits(x, b0, b1, b2, b3);
    NibbleBits(y, b4, b5, b6, b7);
  }

  // The polynomial, byte by byte from the top.
  lemma PolyWord()
    ensures Register64(0x95ac_9329_ac4b_c9b5) == ToBits(0x95ac_9329_ac4b_c9b5, 64)
  {
    PolyWordByte7();
    ByteThenRest(0x95, 0x95, 0);
    PolyWordByte6();
    ByteThenRest(0x95ac, 0x95ac, 8);
    PolyWordByte5();
    ByteThenRest(0x95ac93, 0x95ac93, 16);
    PolyWordByte4();
    ByteThenRest(0x95ac9329, 0x95ac9329, 24);
    PolyWordByte3();
    ByteThenRest(0x95ac9329ac, 0x95ac9329ac, 32);
    PolyWordByte2();
    ByteThenRest(0x95ac9329ac4b, 0x95ac9329ac4b, 40);
    PolyWordByte1();
    ByteThenRest(0x95ac9329ac4bc9, 0x95ac9329ac4bc9, 48);
    PolyWordByte0();
    ByteThenRest(0x95ac9329ac4bc9b5, 0x95ac9329ac4bc9b5, 56);
  }

  lemma PolyWordByte7()
    ensures BitsOf(0x95, 8) == ToBits(0x95, 8)
  {
    EightBits(0x95, 0x9, true, false, true, false, true, false, false, true);
  }

  lemma PolyWordByte6()
    ensures BitsOf(0x95ac, 8) == ToBits(0x95ac, 8)
  {
    EightBits(0x95ac, 0x95a, false, false, true, true, false, true, false, true);
  }

  lemma PolyWordByte5()
    ensures BitsOf(0x95ac93, 8) == ToBits(0x95ac93, 8)
  {
    EightBits(0x95ac93, 0x95ac9, true, true, false, false, true, false, false, true);
  }

  lemma PolyWordByte4()
    ensures BitsOf(0x95ac9329, 8) == ToBits(0x95ac9329, 8)
  {
    EightBits(0x95ac9329, 0x95ac932, true, false, false, true, false, true, false, false);
  }

  lemma PolyWordByte3()
    ensures BitsOf(0x95ac9329ac, 8) == ToBits(0x95ac9329ac, 8)
  {
    EightBits(0x95ac9329ac, 0x95ac9329a, false, false, true, true, false, true, false, true);
  }

  lemma PolyWordByte2()
    ensures BitsOf(0x95ac9329ac4b, 8) == ToBits(0x95ac9329ac4b, 8)
  {
    EightBits(0x95ac9329ac4b, 0x95ac9329ac4, true, true, false, true, false, false, true, false);
  }

  lemma PolyWordByte1()
    ensures BitsOf(0x95ac9329ac4bc9, 8) == ToBits(0x95ac9329ac4bc9, 8)
  {
    EightBits(0x95ac9329ac4bc9, 0x95ac9329ac4bc, true, false, false, true, false, false, true, true);
  }

  lemma PolyWordByte0()
    ensures BitsOf(0x95ac9329ac4bc9b5, 8) == ToBits(0x95ac9329ac4bc9b5, 8)
  {
    EightBits(0x95ac9329ac4bc9b5, 0x95ac9329ac4bc9b, true, false, true, false, true, true, false, true);
  }

  // And the checksum that is to come out.
  lemma CheckWord()
    ensures Register64(0xe9c6_d914_c4b8_d9ca) == ToBits(0xe9c6_d914_c4b8_d9ca, 64)
  {
    CheckWordByte7();
    ByteThenRest(0xe9, 0xe9, 0);
    CheckWordByte6();
    ByteThenRest(0xe9c6, 0xe9c6, 8);
    CheckWordByte5();
    ByteThenRest(0xe9c6d9, 0xe9c6d9, 16);
    CheckWordByte4();
    ByteThenRest(0xe9c6d914, 0xe9c6d914, 24);
    CheckWordByte3();
    ByteThenRest(0xe9c6d914c4, 0xe9c6d914c4, 32);
    CheckWordByte2();
    ByteThenRest(0xe9c6d914c4b8, 0xe9c6d914c4b8, 40);
    CheckWordByte1();
    ByteThenRest(0xe9c6d914c4b8d9, 0xe9c6d914c4b8d9, 48);
    CheckWordByte0();
    ByteThenRest(0xe9c6d914c4b8d9ca, 0xe9c6d914c4b8d9ca, 56);
  }

  lemma CheckWordByte7()
    ensures BitsOf(0xe9, 8) == ToBits(0xe9, 8)
  {
    EightBits(0xe9, 0xe, true, false, false, true, false, true, true, true);
  }

  lemma CheckWordByte6()
    ensures BitsOf(0xe9c6, 8) == ToBits(0xe9c6, 8)
  {
    EightBits(0xe9c6, 0xe9c, false, true, true, false, false, false, true, true);
  }

  lemma CheckWordByte5()
    ensures BitsOf(0xe9c6d9, 8) == ToBits(0xe9c6d9, 8)
  {
    EightBits(0xe9c6d9, 0xe9c6d, true, false, false, true, true, false, true, true);
  }

  lemma CheckWordByte4()
    ensures BitsOf(0xe9c6d914, 8) == ToBits(0xe9c6d914, 8)
  {
    EightBits(0xe9c6d914, 0xe9c6d91, false, false, true, false, true, false, false, false);
  }

  lemma CheckWordByte3()
    ensures BitsOf(0xe9c6d914c4, 8) == ToBits(0xe9c6d914c4, 8)
  {
    EightBits(0xe9c6d914c4, 0xe9c6d914c, false, false, true, false, false, false, true, true);
  }

  lemma CheckWordByte2()
    ensures BitsOf(0xe9c6d914c4b8, 8) == ToBits(0xe9c6d914c4b8, 8)
  {
    EightBits(0xe9c6d914c4b8, 0xe9c6d914c4b, false, false, false, true, true, true, false, true);
  }

  lemma CheckWordByte1()
    ensures BitsOf(0xe9c6d914c4b8d9, 8) == ToBits(0xe9c6d914c4b8d9, 8)
  {
    EightBits(0xe9c6d914c4b8d9, 0xe9c6d914c4b8d, true, false, false, true, true, false, true, true);
  }

  lemma CheckWordByte0()
    ensures BitsOf(0xe9c6d914c4b8d9ca, 8) == ToBits(0xe9c6d914c4b8d9ca, 8)
  {
    EightBits(0xe9c6d914c4b8d9ca, 0xe9c6d914c4b8d9c, false, true, false, true, false, false, true, true);
  }

  // ---- The text "123456789" ----

  lemma DigitPadded(b: bv64, n: nat)
    requires b >> 8 == 0 && BitsOf(b, 8) == ToBits(n, 8)
    ensures Pad(ToBits(n, 8)) == Register64(b)
  {
    BitsSplit(b, 8, 56);
    ShiftRightEight(b);
    ZeroBits(56);
  }

  lemma {:induction false} ZeroBits(n: nat)
    ensures BitsOf(0, n) == Zeros(n)
  {
    if n > 0 {
      ZeroBits(n - 1);
      assert [false] + Zeros(n - 1) == Zeros(n);
    }
  }

  function Text(from: nat): seq<Octet>
    requires 49 <= from <= 58
    decreases 58 - from
  {
    if from == 58 then [] else [ToBits(from, 8)] + Text(from + 1)
  }

  // One digit: the register c becomes d.
  lemma Digit(n: nat, b: bv64, c: bv64, d: bv64)
    requires 49 <= n < 58 && b >> 8 == 0 && BitsOf(b, 8) == ToBits(n, 8) && Shifts64(c ^ b, 8) == d
    ensures Crc(Register64(POLY64), Register64(c), Text(n)) == Crc(Register64(POLY64), Register64(d), Text(n + 1))
  {
    DigitPadded(b, n);
    FeedBits(c, b, d, ToBits(n, 8));
    assert Text(n)[0] == ToBits(n, 8) && Text(n)[1..] == Text(n + 1);
  }

  lemma EightShifts(x: bv64, a: bv64, d: bv64)
    requires a == Shift64(Shift64(Shift64(Shift64(x)))) && d == Shift64(Shift64(Shift64(Shift64(a))))
    ensures Shifts64(x, 8) == d
  {
    FourShifts(x, 4);
    FourShifts(a, 0);
  }

  lemma FourShifts(x: bv64, n: nat)
    ensures Shifts64(x, n + 4) == Shifts64(Shift64(Shift64(Shift64(Shift64(x)))), n)
  {
    var y := Shift64(Shift64(x));
    assert Shifts64(x, n + 4) == Shifts64(Shift64(x), n + 3) == Shifts64(y, n + 2);
    assert Shifts64(y, n + 2) == Shifts64(Shift64(y), n + 1) == Shifts64(Shift64(Shift64(y)), n);
  }

  lemma Digit1()
    ensures Crc(Register64(POLY64), Register64(0x0000_0000_0000_0000), Text(49)) ==
            Crc(Register64(POLY64), Register64(0xfdc1_7184_a9f7_39fa), Text(50))
  {
    EightBits(0x31, 0x3, true, false, false, false, true, true, false, false);
    EightShifts(0x0000_0000_0000_0031, 0x7d08_ff3b_88be_6f82, 0xfdc1_7184_a9f7_39fa);
    Digit(49, 0x31, 0x0000_0000_0000_0000, 0xfdc1_7184_a9f7_39fa);
  }

  lemma Digit2()
    ensures Crc(Register64(POLY64), Register64(0xfdc1_7184_a9f7_39fa), Text(50)) ==
            Crc(Register64(POLY64), Register64(0xe103_6451_3a98_ed96), Text(51))
  {
    EightBits(0x32, 0x3, false, true, false, false, true, true, false, false);
    EightShifts(0xfdc1_7184_a9f7_39c8, 0x9a70_8431_e6d4_ba29, 0xe103_6451_3a98_ed96);
    Digit(50, 0x32, 0xfdc1_7184_a9f7_39fa, 0xe103_6451_3a98_ed96);
  }

  lemma Digit3()
    ensures Crc(Register64(POLY64), Register64(0xe103_6451_3a98_ed96), Text(51)) ==
            Crc(Register64(POLY64), Register64(0xd5bc_fb81_4479_b1ac), Text(52))
  {
    EightBits(0x33, 0x3, true, true, false, false, true, true, false, false);
    EightShifts(0xe103_6451_3a98_eda5, 0xac62_13c3_e179_cc34, 0xd5bc_fb81_4479_b1ac);
    Digit(51, 0x33, 0xe103_6451_3a98_ed96, 0xd5bc_fb81_4479_b1ac);
  }

  lemma Digit4()
    ensures Crc(Register64(POLY64), Register64(0xd5bc_fb81_4479_b1ac), Text(52)) ==
            Crc(Register64(POLY64), Register64(0x4359_3c5d_cda5_21f0), Text(53))
  {
    EightBits(0x34, 0x3, false, false, true, false, true, true, false, false);
    EightShifts(0xd5bc_fb81_4479_b198, 0x98f7_5c91_b80c_52ac, 0x4359_3c5d_cda5_21f0);
    Digit(52, 0x34, 0xd5bc_fb81_4479_b1ac, 0x4359_3c5d_cda5_21f0);
  }

  lemma Digit5()
    ensures Crc(Register64(POLY64), Register64(0x4359_3c5d_cda5_21f0), Text(53)) ==
            Crc(Register64(POLY64), Register64(0xf075_8513_239c_7e0d), Text(54))
  {
    EightBits(0x35, 0x3, true, false, true, false, true, true, false, false);
    EightShifts(0x4359_3c5d_cda5_21c5, 0xa647_b643_2e0a_10f2, 0xf075_8513_239c_7e0d);
    Digit(53, 0x35, 0x4359_3c5d_cda5_21f0, 0xf075_8513_239c_7e0d);
  }

  lemma Digit6()
    ensures Crc(Register64(POLY64), Register64(0xf075_8513_239c_7e0d), Text(54)) ==
            Crc(Register64(POLY64), Register64(0xa3a9_0925_b2ab_4903), Text(55))
  {
    EightBits(0x36, 0x3, false, true, true, false, true, true, false, false);
    EightShifts(0xf075_8513_239c_7e3b, 0x1db2_ca34_07b0_bed5, 0xa3a9_0925_b2ab_4903);
    Digit(54, 0x36, 0xf075_8513_239c_7e0d, 0xa3a9_0925_b2ab_4903);
  }

  lemma Digit7()
    ensures Crc(Register64(POLY64), Register64(0xa3a9_0925_b2ab_4903), Text(55)) ==
            Crc(Register64(POLY64), Register64(0x4782_4d36_2431_ad45), Text(56))
  {
    EightBits(0x37, 0x3, true, true, true, false, true, true, false, false);
    EightShifts(0xa3a9_0925_b2ab_4934, 0xd540_4a2f_2144_99fc, 0x4782_4d36_2431_ad45);
    Digit(55, 0x37, 0xa3a9_0925_b2ab_4903, 0x4782_4d36_2431_ad45);
  }

  lemma Digit8()
    ensures Crc(Register64(POLY64), Register64(0x4782_4d36_2431_ad45), Text(56)) ==
            Crc(Register64(POLY64), Register64(0x49ec_20b3_15e8_6dc2), Text(57))
  {
    EightBits(0x38, 0x3, false, false, false, true, true, true, false, false);
    EightShifts(0x4782_4d36_2431_ad7d, 0x33a6_927c_3cd8_918c, 0x49ec_20b3_15e8_6dc2);
    Digit(56, 0x38, 0x4782_4d36_2431_ad45, 0x49ec_20b3_15e8_6dc2);
  }

  lemma Digit9()
    ensures Crc(Register64(POLY64), Register64(0x49ec_20b3_15e8_6dc2), Text(57)) ==
            Crc(Register64(POLY64), Register64(0xe9c6_d914_c4b8_d9ca), Text(58))
  {
    EightBits(0x39, 0x3, true, false, false, true, true, true, false, false);
    EightShifts(0x49ec_20b3_15e8_6dfb, 0x162b_506e_04d7_ffe9, 0xe9c6_d914_c4b8_d9ca);
    Digit(57, 0x39, 0x49ec_20b3_15e8_6dc2, 0xe9c6_d914_c4b8_d9ca);
  }

  // crc64(0, "123456789") is e9c6d914c4b8d9ca, as the source says.
  lemma CheckValue()
    ensures Crc(Poly(), Zeros(64), Text(49)) == ToBits(0xe9c6_d914_c4b8_d9ca, 64)
  {
    PolyWord();
    ZeroBits(64);
    Digit1();
    Digit2();
    Digit3();
    Digit4();
    Digit5();
    Digit6();
    Digit7();
    Digit8();
    Digit9();
    CheckWord();
  }
}
