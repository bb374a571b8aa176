/**
Counting the bits set in a string, 28 bytes at a time with sideways additions in 32-bit words.
*/
module Popcount {

  // ---- Bit by bit ----

  function Bit(b: bool): nat { if b then 1 else 0 }

  // The entries of the table bitsinbyte.
  function BitsInByte(b: bv8): nat
  {
    Bit(b & 1 != 0) + Bit(b & 2 != 0) + Bit(b & 4 != 0) + Bit(b & 8 != 0) +
    Bit(b & 16 != 0) + Bit(b & 32 != 0) + Bit(b & 64 != 0) + Bit(b & 128 != 0)
  }

  // Holds of every table entry; it is used where `AtByte` is written.
  predicate AtByte(b: bv8) { true }

  ghost predicate IsTable(table: bv8 -> nat)
  {
    forall b {:trigger AtByte(b)} :: AtByte(b) ==> table(b) == BitsInByte(b)
  }

  function CountBits(table: bv8 -> nat, s: seq<bv8>): nat
  {
    if s == [] then 0 else table(s[0]) + CountBits(table, s[1..])
  }

  // ---- Within a 32-bit word ----

  function Pairs(x: bv32): bv32 { x - ((x >> 1) & 0x5555_5555) }

  function Nibbles(x: bv32): bv32 { (x & 0x3333_3333) + ((x >> 2) & 0x3333_3333) }

  function Bytes(x: bv32): bv32 { (x + (x >> 4)) & 0x0F0F_0F0F }

  function Sideways(x: bv32): bv32 { Bytes(Nibbles(Pairs(x))) }

  function Word(b: bv8, c: bv8, d: bv8, e: bv8): bv32
  {
    (b as bv32) | ((c as bv32) << 8) | ((d as bv32) << 16) | ((e as bv32) << 24)
  }

  // The bits of one byte, added up in a word.
  function Pop(b: bv8): bv32
  {
    var x := b as bv32;
    (x & 1) + ((x >> 1) & 1) + ((x >> 2) & 1) + ((x >> 3) & 1) +
    ((x >> 4) & 1) + ((x >> 5) & 1) + ((x >> 6) & 1) + ((x >> 7) & 1)
  }

  lemma Byte0(b: bv8, c: bv8, d: bv8, e: bv8) ensures Sideways(Word(b, c, d, e)) & 0xff == Pop(b) {}

  lemma Byte1(b: bv8, c: bv8, d: bv8, e: bv8) ensures (Sideways(Word(b, c, d, e)) >> 8) & 0xff == Pop(c) {}

  lemma Byte2(b: bv8, c: bv8, d: bv8, e: bv8) ensures (Sideways(Word(b, c, d, e)) >> 16) & 0xff == Pop(d) {}

  lemma Byte3(b: bv8, c: bv8, d: bv8, e: bv8) ensures (Sideways(Word(b, c, d, e)) >> 24) & 0xff == Pop(e) {}

  lemma BitsOf(b: bv8)
    ensures var x := b as bv32;
            && (x & 1) as nat == Bit(b & 1 != 0) && ((x >> 1) & 1) as nat == Bit(b & 2 != 0)
            && ((x >> 2) & 1) as nat == Bit(b & 4 != 0) && ((x >> 3) & 1) as nat == Bit(b & 8 != 0)
            && ((x >> 4) & 1) as nat == Bit(b & 16 != 0) && ((x >> 5) & 1) as nat == Bit(b & 32 != 0)
            && ((x >> 6) & 1) as nat == Bit(b & 64 != 0) && ((x >> 7) & 1) as nat == Bit(b & 128 != 0)
  {
  }

  lemma AddBits(a: bv32, b: bv32, c: bv32, d: bv32, e: bv32, f: bv32, g: bv32, h: bv32)
    requires a <= 1 && b <= 1 && c <= 1 && d <= 1 && e <= 1 && f <= 1 && g <= 1 && h <= 1
    ensures (a + b + c + d + e + f + g + h) as nat
         == (a as nat) + (b as nat) + (c as nat) + (d as nat) + (e as nat) + (f as nat) + (g as nat) + (h as nat)
  {
  }

  lemma PopCounts(b: bv8)
    ensures Pop(b) as nat == BitsInByte(b)
  {
    var x := b as bv32;
    BitsOf(b);
    AddBits(x & 1, (x >> 1) & 1, (x >> 2) & 1, (x >> 3) & 1, (x >> 4) & 1, (x >> 5) & 1, (x >> 6) & 1, (x >> 7) & 1);
  }

  // ---- Seven words, as far as it takes only a few laws of addition ----

  datatype Ops<!W> = Ops(add: (W, W) -> W, pack: (W, W, W, W) -> W, top: W -> W, num: W -> nat)

  ghost predicate AddsColumns<W(!new)>(o: Ops<W>)
  {
    forall a, b, c, d, e, f, g, h {:trigger o.add(o.pack(a, b, c, d), o.pack(e, f, g, h))} ::
      o.add(o.pack(a, b, c, d), o.pack(e, f, g, h)) == o.pack(o.add(a, e), o.add(b, f), o.add(c, g), o.add(d, h))
  }

  ghost predicate AddsSmall<W(!new)>(o: Ops<W>)
  {
    forall a, b {:trigger o.add(a, b)} :: o.num(a) + o.num(b) <= 255 ==> o.num(o.add(a, b)) == o.num(a) + o.num(b)
  }

  ghost predicate GathersTop<W(!new)>(o: Ops<W>)
  {
    forall a, b, c, d {:trigger o.top(o.pack(a, b, c, d))} ::
      o.num(a) <= 56 && o.num(b) <= 56 && o.num(c) <= 56 && o.num(d) <= 56 ==>
      o.top(o.pack(a, b, c, d)) == o.add(o.add(o.add(a, b), c), d)
  }

  ghost predicate Laws<W(!new)>(o: Ops<W>) { AddsColumns(o) && AddsSmall(o) && GathersTop(o) }

  datatype Quad<T> = Quad(a: T, b: T, c: T, d: T)

  function Pack<W>(o: Ops<W>, q: Quad<W>): W { o.pack(q.a, q.b, q.c, q.d) }

  function Add<W>(o: Ops<W>, q: Quad<W>, r: Quad<W>): Quad<W>
  {
    Quad(o.add(q.a, r.a), o.add(q.b, r.b), o.add(q.c, r.c), o.add(q.d, r.d))
  }

  function Total<W>(o: Ops<W>, q: Quad<W>): nat { o.num(q.a) + o.num(q.b) + o.num(q.c) + o.num(q.d) }

  predicate Small<W>(o: Ops<W>, n: nat, q: Quad<W>)
  {
    o.num(q.a) <= 8 * n && o.num(q.b) <= 8 * n && o.num(q.c) <= 8 * n && o.num(q.d) <= 8 * n
  }

  lemma AddQuad<W(!new)>(o: Ops<W>, n: nat, q: Quad<W>, r: Quad<W>)
    requires AddsColumns(o) && AddsSmall(o) && 1 <= n < 7 && Small(o, n, q) && Small(o, 1, r)
    ensures o.add(Pack(o, q), Pack(o, r)) == Pack(o, Add(o, q, r))
    ensures Small(o, n + 1, Add(o, q, r)) && Total(o, Add(o, q, r)) == Total(o, q) + Total(o, r)
  {
  }

  lemma TopOfQuad<W(!new)>(o: Ops<W>, q: Quad<W>)
    requires AddsSmall(o) && GathersTop(o) && Small(o, 7, q)
    ensures o.num(o.top(Pack(o, q))) == Total(o, q)
  {
  }

  // Seven words of small bytes: the top byte of the product holds the sum of all their bytes.
  lemma Seven<W(!new)>(o: Ops<W>, q1: Quad<W>, q2: Quad<W>, q3: Quad<W>, q4: Quad<W>, q5: Quad<W>, q6: Quad<W>,
                       q7: Quad<W>)
    requires Laws(o) && Small(o, 1, q1) && Small(o, 1, q2) && Small(o, 1, q3) && Small(o, 1, q4)
    requires Small(o, 1, q5) && Small(o, 1, q6) && Small(o, 1, q7)
    ensures o.num(o.top(o.add(o.add(o.add(o.add(o.add(o.add(
              Pack(o, q1), Pack(o, q2)), Pack(o, q3)), Pack(o, q4)), Pack(o, q5)), Pack(o, q6)), Pack(o, q7))))
         == Total(o, q1) + Total(o, q2) + Total(o, q3) + Total(o, q4) + Total(o, q5) + Total(o, q6) + Total(o, q7)
  {
    AddQuad(o, 1, q1, q2);
    var s2 := Add(o, q1, q2);
    AddQuad(o, 2, s2, q3);
    var s3 := Add(o, s2, q3);
    AddQuad(o, 3, s3, q4);
    var s4 := Add(o, s3, q4);
    AddQuad(o, 4, s4, q5);
    var s5 := Add(o, s4, q5);
    AddQuad(o, 5, s5, q6);
    var s6 := Add(o, s5, q6);
    AddQuad(o, 6, s6, q7);
    TopOfQuad(o, Add(o, s6, q7));
  }

  // ---- Those laws hold of 32-bit words ----

  // What the operations are; each definition is used where its mark is written.
  predicate At(x: bv32) { true }
  predicate AtTwo(a: bv32, b: bv32) { true }
  predicate AtFour(a: bv32, b: bv32, c: bv32, d: bv32) { true }

  ghost predicate IsNum(num: bv32 -> nat)
  {
    forall x {:trigger At(x)} :: At(x) ==> num(x) == x as nat
  }

  ghost predicate IsTop(top: bv32 -> bv32)
  {
    forall x {:trigger At(x)} :: At(x) ==> top(x) == (x * 0x0101_0101) >> 24
  }

  ghost predicate IsAdd(add: (bv32, bv32) -> bv32)
  {
    forall a, b {:trigger AtTwo(a, b)} :: AtTwo(a, b) ==> add(a, b) == a + b
  }

  ghost predicate IsPack(pack: (bv32, bv32, bv32, bv32) -> bv32)
  {
    forall a, b, c, d {:trigger AtFour(a, b, c, d)} ::
      AtFour(a, b, c, d) ==> pack(a, b, c, d) == a + 0x100 * b + 0x1_0000 * c + 0x100_0000 * d
  }

  ghost predicate IsWord(o: Ops<bv32>) { IsAdd(o.add) && IsPack(o.pack) && IsTop(o.top) && IsNum(o.num) }

  // Small numbers are added without wrapping around, as counting one by one shows.

  predicate AtDown(b: bv32) { true }
  predicate AtUp(b: bv32) { true }

  ghost predicate CountsDown(num: bv32 -> nat)
  {
    forall b {:trigger AtDown(b)} :: AtDown(b) && num(b) <= 255 ==>
        if b == 0 then num(b) == 0 else num(b - 1) == num(b) - 1
  }

  ghost predicate CountsUp(num: bv32 -> nat)
  {
    forall b {:trigger AtUp(b)} :: AtUp(b) && num(b) <= 254 ==> num(b + 1) == num(b) + 1
  }

  lemma Down(b: bv32)
    requires b as nat <= 255 && b != 0
    ensures (b - 1) as nat == (b as nat) - 1
  {
  }

  lemma Up(b: bv32)
    requires b as nat <= 254
    ensures (b + 1) as nat == (b as nat) + 1
  {
  }

  lemma NumCounts(num: bv32 -> nat)
    requires IsNum(num)
    ensures CountsDown(num) && CountsUp(num)
  {
    forall b | AtDown(b) && num(b) <= 255
      ensures if b == 0 then num(b) == 0 else num(b - 1) == num(b) - 1
    {
      assert At(b) && At(b - 1);
      if b != 0 { Down(b); }
    }
    forall b | AtUp(b) && num(b) <= 254
      ensures num(b + 1) == num(b) + 1
    {
      assert At(b) && At(b + 1);
      Up(b);
    }
  }

  ghost predicate AddsUpTo(num: bv32 -> nat, n: nat)
  {
    forall a, b {:trigger AtTwo(a, b)} :: AtTwo(a, b) && num(b) <= n && num(a) + num(b) <= 255 ==>
        num(a + b) == num(a) + num(b)
  }

  lemma {:induction false} AddsByCounting(num: bv32 -> nat, n: nat)
    requires CountsDown(num) && CountsUp(num) && n <= 255
    ensures AddsUpTo(num, n)
  {
    if n > 0 {
      AddsByCounting(num, n - 1);
    }
    forall a, b | AtTwo(a, b) && num(b) <= n && num(a) + num(b) <= 255
      ensures num(a + b) == num(a) + num(b)
    {
      assert AtDown(b);
      if b == 0 {
        assert a + b == a;
      } else {
        assert AtTwo(a, b - 1);
        assert AtUp(a + (b - 1));
      }
    }
  }

  lemma SmallLaw(o: Ops<bv32>)
    requires IsWord(o)
    ensures AddsSmall(o)
  {
    NumCounts(o.num);
    AddsByCounting(o.num, 255);
    forall a, b | o.num(a) + o.num(b) <= 255
      ensures o.num(o.add(a, b)) == o.num(a) + o.num(b)
    {
      assert AtTwo(a, b);
    }
  }

  lemma ColumnsLaw(o: Ops<bv32>)
    requires IsAdd(o.add) && IsPack(o.pack)
    ensures AddsColumns(o)
  {
    forall a, b, c, d, e, f, g, h
      ensures o.add(o.pack(a, b, c, d), o.pack(e, f, g, h))
              == o.pack(o.add(a, e), o.add(b, f), o.add(c, g), o.add(d, h))
    {
      assert AtFour(a, b, c, d) && AtFour(e, f, g, h) && AtFour(a + e, b + f, c + g, d + h);
      assert AtTwo(a, e) && AtTwo(b, f) && AtTwo(c, g) && AtTwo(d, h);
      assert AtTwo(a + 0x100 * b + 0x1_0000 * c + 0x100_0000 * d, e + 0x100 * f + 0x1_0000 * g + 0x100_0000 * h);
    }
  }

  lemma Highest(p: bv32, q: bv32, r: bv32, t: bv32)
    requires p <= 255 && q <= 255 && r <= 255 && t <= 255
    ensures (p + 0x100 * q + 0x1_0000 * r + 0x100_0000 * t) >> 24 == t
  {
  }

  ghost predicate HighestByte()
  {
    forall p, q, r, t {:trigger AtFour(p, q, r, t)} ::
      AtFour(p, q, r, t) && p <= 255 && q <= 255 && r <= 255 && t <= 255 ==>
      (p + 0x100 * q + 0x1_0000 * r + 0x100_0000 * t) >> 24 == t
  }

  lemma HighestLaw()
    ensures HighestByte()
  {
    forall p, q, r, t | AtFour(p, q, r, t) && p <= 255 && q <= 255 && r <= 255 && t <= 255
      ensures (p + 0x100 * q + 0x1_0000 * r + 0x100_0000 * t) >> 24 == t
    {
      Highest(p, q, r, t);
    }
  }

  // Multiplying by 0x01010101 leaves in each byte the sum of those up to it.
  lemma Gather(a: bv32, b: bv32, c: bv32, d: bv32)
    requires a <= 56 && b <= 56 && c <= 56 && d <= 56
    ensures ((a + 0x100 * b + 0x1_0000 * c + 0x100_0000 * d) * 0x0101_0101) >> 24 == a + b + c + d
  {
    HighestLaw();
    assert AtFour(a, a + b, a + b + c, a + b + c + d);
  }

  lemma Cap(a: bv32)
    requires a as nat <= 56
    ensures a <= 56
  {
  }

  ghost predicate Gathers(num: bv32 -> nat)
  {
    forall a, b, c, d {:trigger AtFour(a, b, c, d)} ::
      AtFour(a, b, c, d) && num(a) <= 56 && num(b) <= 56 && num(c) <= 56 && num(d) <= 56 ==>
      ((a + 0x100 * b + 0x1_0000 * c + 0x100_0000 * d) * 0x0101_0101) >> 24 == a + b + c + d
  }

  lemma GatherLaw(num: bv32 -> nat)
    requires IsNum(num)
    ensures Gathers(num)
  {
    forall a, b, c, d | AtFour(a, b, c, d) && num(a) <= 56 && num(b) <= 56 && num(c) <= 56 && num(d) <= 56
      ensures ((a + 0x100 * b + 0x1_0000 * c + 0x100_0000 * d) * 0x0101_0101) >> 24 == a + b + c + d
    {
      assert At(a) && At(b) && At(c) && At(d);
      Cap(a);
      Cap(b);
      Cap(c);
      Cap(d);
      Gather(a, b, c, d);
    }
  }

  lemma TopLaw(o: Ops<bv32>)
    requires IsWord(o)
    ensures GathersTop(o)
  {
    GatherLaw(o.num);
    forall a, b, c, d | o.num(a) <= 56 && o.num(b) <= 56 && o.num(c) <= 56 && o.num(d) <= 56
      ensures o.top(o.pack(a, b, c, d)) == o.add(o.add(o.add(a, b), c), d)
    {
      assert AtFour(a, b, c, d) && At(a + 0x100 * b + 0x1_0000 * c + 0x100_0000 * d);
      assert AtTwo(a, b) && AtTwo(a + b, c) && AtTwo(a + b + c, d);
    }
  }

  // ---- The words of a block ----

  function BytesOf(y: bv32): Quad<bv32> { Quad(y & 0xff, (y >> 8) & 0xff, (y >> 16) & 0xff, (y >> 24) & 0xff) }

  predicate AtWord(y: bv32) { true }

  ghost predicate Unpacks()
  {
    forall y {:trigger AtWord(y)} :: AtWord(y) ==>
      y == (y & 0xff) + 0x100 * ((y >> 8) & 0xff) + 0x1_0000 * ((y >> 16) & 0xff) + 0x100_0000 * ((y >> 24) & 0xff)
  }

  lemma UnpackLaw()
    ensures Unpacks()
  {
  }

  lemma PackBytes(o: Ops<bv32>, y: bv32)
    requires IsPack(o.pack)
    ensures Pack(o, BytesOf(y)) == y
  {
    UnpackLaw();
    assert AtWord(y);
    assert AtFour(y & 0xff, (y >> 8) & 0xff, (y >> 16) & 0xff, (y >> 24) & 0xff);
  }

  lemma CountOf(o: Ops<bv32>, table: bv8 -> nat, x: bv32, b: bv8)
    requires IsNum(o.num) && IsTable(table) && x == Pop(b)
    ensures o.num(x) == table(b) <= 8
  {
    assert At(x) && AtByte(b);
    PopCounts(b);
  }

  type FourBytes = (bv8, bv8, bv8, bv8) -> bv32

  predicate AtBytes(b: bv8, c: bv8, d: bv8, e: bv8) { true }

  ghost predicate IsSideways(side: FourBytes)
  {
    forall b, c, d, e {:trigger AtBytes(b, c, d, e)} :: AtBytes(b, c, d, e) ==>
        side(b, c, d, e) == Sideways(Word(b, c, d, e))
  }

  lemma CountByte0(o: Ops<bv32>, table: bv8 -> nat, side: FourBytes, b: bv8, c: bv8, d: bv8, e: bv8)
    requires IsNum(o.num) && IsTable(table) && IsSideways(side)
    ensures o.num(side(b, c, d, e) & 0xff) == table(b) <= 8
  {
    assert AtBytes(b, c, d, e);
    Byte0(b, c, d, e);
    CountOf(o, table, side(b, c, d, e) & 0xff, b);
  }

  lemma CountByte1(o: Ops<bv32>, table: bv8 -> nat, side: FourBytes, b: bv8, c: bv8, d: bv8, e: bv8)
    requires IsNum(o.num) && IsTable(table) && IsSideways(side)
    ensures o.num((side(b, c, d, e) >> 8) & 0xff) == table(c) <= 8
  {
    assert AtBytes(b, c, d, e);
    Byte1(b, c, d, e);
    CountOf(o, table, (side(b, c, d, e) >> 8) & 0xff, c);
  }

  lemma CountByte2(o: Ops<bv32>, table: bv8 -> nat, side: FourBytes, b: bv8, c: bv8, d: bv8, e: bv8)
    requires IsNum(o.num) && IsTable(table) && IsSideways(side)
    ensures o.num((side(b, c, d, e) >> 16) & 0xff) == table(d) <= 8
  {
    assert AtBytes(b, c, d, e);
    Byte2(b, c, d, e);
    CountOf(o, table, (side(b, c, d, e) >> 16) & 0xff, d);
  }

  lemma CountByte3(o: Ops<bv32>, table: bv8 -> nat, side: FourBytes, b: bv8, c: bv8, d: bv8, e: bv8)
    requires IsNum(o.num) && IsTable(table) && IsSideways(side)
    ensures o.num((side(b, c, d, e) >> 24) & 0xff) == table(e) <= 8
  {
    assert AtBytes(b, c, d, e);
    Byte3(b, c, d, e);
    CountOf(o, table, (side(b, c, d, e) >> 24) & 0xff, e);
  }

  lemma SidewaysCounts(o: Ops<bv32>, table: bv8 -> nat, side: FourBytes, b: bv8, c: bv8, d: bv8, e: bv8)
    requires IsWord(o) && IsTable(table) && IsSideways(side)
    ensures var q := BytesOf(side(b, c, d, e));
            Small(o, 1, q) && Total(o, q) == table(b) + table(c) + table(d) + table(e)
  {
    CountByte0(o, table, side, b, c, d, e);
    CountByte1(o, table, side, b, c, d, e);
    CountByte2(o, table, side, b, c, d, e);
    CountByte3(o, table, side, b, c, d, e);
  }

  function SidewaysOf(b: bv8, c: bv8, d: bv8, e: bv8): bv32 { Sideways(Word(b, c, d, e)) }

  // One word: its bytes after the sideways additions are the counts of its bytes before.
  method SidewaysSum(ghost o: Ops<bv32>, ghost table: bv8 -> nat, b: bv8, c: bv8, d: bv8, e: bv8) returns (y: bv32)
    requires IsWord(o) && IsTable(table)
    ensures Pack(o, BytesOf(y)) == y && Small(o, 1, BytesOf(y))
    ensures Total(o, BytesOf(y)) == table(b) + table(c) + table(d) + table(e)
  {
    var aux := Word(b, c, d, e);
    aux := aux - ((aux >> 1) & 0x5555_5555);
    aux := (aux & 0x3333_3333) + ((aux >> 2) & 0x3333_3333);
    y := (aux + (aux >> 4)) & 0x0F0F_0F0F;
    PackBytes(o, y);
    SidewaysCounts(o, table, SidewaysOf, b, c, d, e);
  }

  // The sum of seven words and its top byte, in terms of the operations.
  lemma SumOfSeven(o: Ops<bv32>, y1: bv32, y2: bv32, y3: bv32, y4: bv32, y5: bv32, y6: bv32, y7: bv32)
    requires IsWord(o)
    ensures o.top(o.add(o.add(o.add(o.add(o.add(o.add(y1, y2), y3), y4), y5), y6), y7))
         == ((y1 + y2 + y3 + y4 + y5 + y6 + y7) * 0x0101_0101) >> 24
  {
    assert AtTwo(y1, y2) && AtTwo(y1 + y2, y3) && AtTwo(y1 + y2 + y3, y4) && AtTwo(y1 + y2 + y3 + y4, y5);
    assert AtTwo(y1 + y2 + y3 + y4 + y5, y6) && AtTwo(y1 + y2 + y3 + y4 + y5 + y6, y7);
    assert At(y1 + y2 + y3 + y4 + y5 + y6 + y7);
  }

  function AddWords(a: bv32, b: bv32): bv32 { a + b }

  function PackWord(a: bv32, b: bv32, c: bv32, d: bv32): bv32 { a + 0x100 * b + 0x1_0000 * c + 0x100_0000 * d }

  function TopByte(x: bv32): bv32 { (x * 0x0101_0101) >> 24 }

  function Number(x: bv32): nat { x as nat }

  function WordOps(): Ops<bv32> { Ops(AddWords, PackWord, TopByte, Number) }

  lemma WordOpsAre()
    ensures IsWord(WordOps())
  {
  }

  // The last line of the main loop.
  method AddUp(ghost o: Ops<bv32>, y1: bv32, y2: bv32, y3: bv32, y4: bv32, y5: bv32, y6: bv32, y7: bv32)
    returns (n: nat)
    requires IsWord(o)
    ensures n == o.num(o.top(o.add(o.add(o.add(o.add(o.add(o.add(y1, y2), y3), y4), y5), y6), y7)))
  {
    var v := ((y1 + y2 + y3 + y4 + y5 + y6 + y7) * 0x0101_0101) >> 24;
    SumOfSeven(o, y1, y2, y3, y4, y5, y6, y7);
    assert At(v);
    n := v as nat;
  }

  // ---- The whole string ----

  lemma CountFour(table: bv8 -> nat, s: seq<bv8>)
    requires |s| >= 4
    ensures CountBits(table, s) == table(s[0]) + table(s[1]) + table(s[2]) + table(s[3]) + CountBits(table, s[4..])
  {
    assert s[1..][1..] == s[2..] && s[2..][1..] == s[3..] && s[3..][1..] == s[4..];
    assert CountBits(table, s[1..]) == table(s[1]) + CountBits(table, s[2..]);
    assert CountBits(table, s[2..]) == table(s[2]) + CountBits(table, s[3..]);
    assert CountBits(table, s[3..]) == table(s[3]) + CountBits(table, s[4..]);
  }

  method CountWord(ghost o: Ops<bv32>, ghost table: bv8 -> nat, s: seq<bv8>, i: nat) returns (y: bv32)
    requires IsWord(o) && IsTable(table) && i + 4 <= |s|
    ensures Pack(o, BytesOf(y)) == y && Small(o, 1, BytesOf(y))
    ensures CountBits(table, s[i..]) == Total(o, BytesOf(y)) + CountBits(table, s[i + 4..])
  {
    y := SidewaysSum(o, table, s[i], s[i + 1], s[i + 2], s[i + 3]);
    CountFour(table, s[i..]);
    assert s[i..][4..] == s[i + 4..];
  }

  // One turn of the main loop: 28 bytes.
  method CountBlock(ghost table: bv8 -> nat, s: seq<bv8>, i: nat) returns (n: nat)
    requires IsTable(table) && i + 28 <= |s|
    ensures CountBits(table, s[i..]) == n + CountBits(table, s[i + 28..])
  {
    ghost var o := WordOps();
    WordOpsAre();
    SmallLaw(o);
    ColumnsLaw(o);
    TopLaw(o);
    n := CountSeven(o, table, s, i);
  }

  method CountSeven(ghost o: Ops<bv32>, ghost table: bv8 -> nat, s: seq<bv8>, i: nat) returns (n: nat)
    requires IsWord(o) && Laws(o) && IsTable(table) && i + 28 <= |s|
    ensures CountBits(table, s[i..]) == n + CountBits(table, s[i + 28..])
  {
    var aux1 := CountWord(o, table, s, i);
    var aux2 := CountWord(o, table, s, i + 4);
    var aux3 := CountWord(o, table, s, i + 8);
    var aux4 := CountWord(o, table, s, i + 12);
    var aux5 := CountWord(o, table, s, i + 16);
    var aux6 := CountWord(o, table, s, i + 20);
    var aux7 := CountWord(o, table, s, i + 24);
    Seven(o, BytesOf(aux1), BytesOf(aux2), BytesOf(aux3), BytesOf(aux4), BytesOf(aux5), BytesOf(aux6), BytesOf(aux7));
    n := AddUp(o, aux1, aux2, aux3, aux4, aux5, aux6, aux7);
  }

  // redisPopcount, for a string that starts `skew` bytes past a word boundary
  method Popcount(table: bv8 -> nat, s: seq<bv8>, skew: nat) returns (bits: nat)
    requires IsTable(table)
    ensures bits == CountBits(table, s)
  {
    bits := 0;
    var i := 0;
    assert s[0..] == s;
    while (skew + i) % 4 != 0 && i < |s|
      invariant i <= |s| && bits + CountBits(table, s[i..]) == CountBits(table, s)
      decreases |s| - i
    {
      assert s[i..][1..] == s[i + 1..];
      bits := bits + table(s[i]);
      i := i + 1;
    }
    while |s| - i >= 28
      invariant i <= |s| && bits + CountBits(table, s[i..]) == CountBits(table, s)
    {
      var n := CountBlock(table, s, i);
      bits := bits + n;
      i := i + 28;
    }
    while i < |s|
      invariant i <= |s| && bits + CountBits(table, s[i..]) == CountBits(table, s)
    {
      assert s[i..][1..] == s[i + 1..];
      bits := bits + table(s[i]);
      i := i + 1;
    }
  }
}
