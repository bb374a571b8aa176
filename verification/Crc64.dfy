/**
CRC64 as computed byte by byte from a table, its bit by bit meaning, and the footer that guards the
payload of DUMP and RESTORE. Registers and bytes are sequences of bits, least significant first.
*/
module Crc64 {
  import opened Basics
  import opened Words
  import opened Octets

  type Register = w: Bits | |w| == 64 witness Zeros(64)

  // ---- Bit by bit ----

  function Half(x: Register): Register { x[1..] + [false] }

  // One bit is shifted out; when it is set the polynomial is added.
  function Shift(poly: Register, x: Register): Register
  {
    if x[0] then Xor(Half(x), poly) else Half(x)
  }

  function Shifts(poly: Register, x: Register, n: nat): Register
    decreases n
  {
    if n == 0 then x else Shifts(poly, Shift(poly, x), n - 1)
  }

  function Pad(b: Octet): Register { b + Zeros(56) }

  // A byte is added to the register and shifted through.
  function Feed(poly: Register, c: Register, b: Octet): Register
  {
    Shifts(poly, Xor(c, Pad(b)), 8)
  }

  function Crc(poly: Register, c: Register, s: seq<Octet>): Register
    decreases |s|
  {
    if s == [] then c else Crc(poly, Feed(poly, c, s[0]), s[1..])
  }

  // ---- Linearity ----

  lemma XorHalf(x: Register, y: Register)
    ensures Half(Xor(x, y)) == Xor(Half(x), Half(y))
  {
  }

  lemma XorSwap(x: Register, y: Register, p: Register)
    ensures Xor(Xor(x, y), p) == Xor(Xor(x, p), y) == Xor(x, Xor(y, p))
    ensures Xor(Xor(x, p), Xor(y, p)) == Xor(x, y)
  {
  }

  lemma ShiftXor(poly: Register, x: Register, y: Register)
    ensures Shift(poly, Xor(x, y)) == Xor(Shift(poly, x), Shift(poly, y))
  {
    XorHalf(x, y);
    XorSwap(Half(x), Half(y), poly);
  }

  lemma {:induction false} ShiftsXor(poly: Register, x: Register, y: Register, n: nat)
    ensures Shifts(poly, Xor(x, y), n) == Xor(Shifts(poly, x, n), Shifts(poly, y, n))
    decreases n
  {
    if n > 0 {
      ShiftXor(poly, x, y);
      ShiftsXor(poly, Shift(poly, x), Shift(poly, y), n - 1);
    }
  }

  lemma XorCancel(x: Register, y: Register, p: Register)
    requires Xor(x, p) == Xor(y, p)
    ensures x == y
  {
    assert forall i :: 0 <= i < 64 ==> Xor(x, p)[i] == (x[i] != p[i]) && Xor(y, p)[i] == (y[i] != p[i]);
  }

  // The top bit of the polynomial tells which bit was shifted out.
  lemma ShiftInjective(poly: Register, x: Register, y: Register)
    requires poly[63] && Shift(poly, x) == Shift(poly, y)
    ensures x == y
  {
    assert Shift(poly, x)[63] == x[0] && Shift(poly, y)[63] == y[0];
    if x[0] {
      XorCancel(Half(x), Half(y), poly);
    }
    assert x == [x[0]] + Half(x)[..63] && y == [y[0]] + Half(y)[..63];
  }

  lemma {:induction false} ShiftsInjective(poly: Register, x: Register, y: Register, n: nat)
    requires poly[63] && Shifts(poly, x, n) == Shifts(poly, y, n)
    ensures x == y
    decreases n
  {
    if n > 0 {
      ShiftsInjective(poly, Shift(poly, x), Shift(poly, y), n - 1);
      ShiftInjective(poly, x, y);
    }
  }

  // Zero bits at the bottom are merely shifted out.
  lemma {:induction false} ShiftsOfHigh(poly: Register, x: Register, k: nat)
    requires k <= 64 && x[..k] == Zeros(k)
    ensures Shifts(poly, x, k) == x[k..] + Zeros(k)
    decreases k
  {
    if k > 0 {
      assert x[0] == x[..k][0] == false;
      assert Half(x)[..k - 1] == x[1..k] == x[..k][1..];
      assert Zeros(k)[1..] == Zeros(k - 1);
      ShiftsOfHigh(poly, Half(x), k - 1);
      assert Half(x)[k - 1..] == x[k..] + [false];
      assert x[k..] + [false] + Zeros(k - 1) == x[k..] + Zeros(k);
    } else {
      assert x[0..] + [] == x;
    }
  }

  lemma {:induction false} ShiftsOfZero(poly: Register, n: nat)
    ensures Shifts(poly, Zeros(64), n) == Zeros(64)
    decreases n
  {
    if n > 0 {
      assert Half(Zeros(64)) == Zeros(64);
      ShiftsOfZero(poly, n - 1);
    }
  }

  // ---- Byte by byte ----

  // The low byte of the register.
  function Low(c: Register): Octet { c[..8] }

  function High(c: Register): Register { Zeros(8) + c[8..] }

  lemma SplitRegister(c: Register, b: Octet)
    ensures Xor(c, Pad(b)) == Xor(Pad(Xor(Low(c), b)), High(c))
  {
    var l, r := Xor(c, Pad(b)), Xor(Pad(Xor(Low(c), b)), High(c));
    forall i | 0 <= i < 64
      ensures l[i] == r[i]
    {
      if i >= 8 {
        assert Pad(b)[i] == false && Pad(Xor(Low(c), b))[i] == false && High(c)[i] == c[i];
      }
    }
  }

  // What the table has to hold: each byte shifted through an empty register.
  ghost predicate IsTable(poly: Register, table: Octet -> Register)
  {
    forall b :: table(b) == Shifts(poly, Pad(b), 8)
  }

  lemma TableStep(poly: Register, table: Octet -> Register, c: Register, b: Octet)
    requires IsTable(poly, table)
    ensures Feed(poly, c, b) == Xor(table(Xor(Low(c), b)), Shr(c, 8))
  {
    var x := Xor(Low(c), b);
    SplitRegister(c, b);
    ShiftsXor(poly, Pad(x), High(c), 8);
    assert High(c)[..8] == Zeros(8);
    ShiftsOfHigh(poly, High(c), 8);
    assert High(c)[8..] + Zeros(8) == Shr(c, 8);
  }

  // crc64 computes the bit by bit checksum.
  method Crc64(poly: Register, table: Octet -> Register, crc: Register, s: seq<Octet>) returns (r: Register)
    requires IsTable(poly, table)
    ensures r == Crc(poly, crc, s)
  {
    r := crc;
    var j := 0;
    assert s[0..] == s;
    while j < |s|
      invariant j <= |s| && Crc(poly, r, s[j..]) == Crc(poly, crc, s)
    {
      TableStep(poly, table, r, s[j]);
      assert s[j..][1..] == s[j + 1..];
      r := Xor(table(Xor(Low(r), s[j])), Shr(r, 8));
      j := j + 1;
    }
  }

  lemma {:induction false} CrcAppend(poly: Register, c: Register, s: seq<Octet>, t: seq<Octet>)
    ensures Crc(poly, c, s + t) == Crc(poly, Crc(poly, c, s), t)
    decreases |s|
  {
    if s == [] {
      assert s + t == t;
    } else {
      HeadOfSum(s, t);
      CrcAppend(poly, Feed(poly, c, s[0]), s[1..], t);
    }
  }

  lemma {:induction false} CrcInjective(poly: Register, c: Register, d: Register, s: seq<Octet>)
    requires poly[63] && Crc(poly, c, s) == Crc(poly, d, s)
    ensures c == d
    decreases |s|
  {
    if s != [] {
      CrcInjective(poly, Feed(poly, c, s[0]), Feed(poly, d, s[0]), s[1..]);
      ShiftsInjective(poly, Xor(c, Pad(s[0])), Xor(d, Pad(s[0])), 8);
      XorCancel(c, d, Pad(s[0]));
    }
  }

  // ---- Up to eight bytes at once ----

  // The bytes after the first, as they will be once it is shifted through.
  function Later(s: seq<Octet>): Register
    requires 0 < |s| <= 8
  {
    Zeros(8) + Flat(s[1..]) + Zeros(64 - 8 * |s|)
  }

  lemma WordSplits(s: seq<Octet>)
    requires 0 < |s| <= 8
    ensures Padded(s) == Xor(Pad(s[0]), Later(s))
  {
    var f := Flat(s[1..]);
    var l, r := Padded(s), Xor(Pad(s[0]), Later(s));
    forall i | 0 <= i < 64
      ensures l[i] == r[i]
    {
      if i < 8 {
        assert Later(s)[i] == false && Pad(s[0])[i] == s[0][i];
      } else {
        assert Pad(s[0])[i] == false;
      }
    }
  }

  lemma LaterShifts(poly: Register, s: seq<Octet>)
    requires 0 < |s| <= 8
    ensures Shifts(poly, Later(s), 8) == Padded(s[1..])
  {
    assert Later(s)[..8] == Zeros(8);
    ShiftsOfHigh(poly, Later(s), 8);
    assert Later(s)[8..] == Flat(s[1..]) + Zeros(64 - 8 * |s|);
    assert Zeros(64 - 8 * |s|) + Zeros(8) == Zeros(64 - 8 * |s[1..]|);
  }

  lemma {:induction false} ShiftsAdd(poly: Register, x: Register, m: nat, n: nat)
    ensures Shifts(poly, Shifts(poly, x, m), n) == Shifts(poly, x, m + n)
    decreases m
  {
    if m > 0 {
      ShiftsAdd(poly, Shift(poly, x), m - 1, n);
    }
  }

  lemma FirstThenLater(poly: Register, c: Register, first: Register, later: Register, k: nat, n: nat)
    ensures Shifts(poly, Xor(Shifts(poly, Xor(c, first), k), Shifts(poly, later, k)), n)
         == Shifts(poly, Xor(c, Xor(first, later)), k + n)
  {
    ShiftsXor(poly, Xor(c, first), later, k);
    XorSwap(c, first, later);
    ShiftsAdd(poly, Xor(c, Xor(first, later)), k, n);
  }

  lemma FeedFirst(poly: Register, c: Register, s: seq<Octet>)
    requires 0 < |s| <= 8
    ensures Shifts(poly, Xor(Feed(poly, c, s[0]), Padded(s[1..])), 8 * |s[1..]|)
         == Shifts(poly, Xor(c, Padded(s)), 8 * |s|)
  {
    LaterShifts(poly, s);
    WordSplits(s);
    FirstThenLater(poly, c, Pad(s[0]), Later(s), 8, 8 * |s[1..]|);
  }

  // Up to eight bytes are one word added to the register and shifted through.
  lemma {:induction false} CrcOfWord(poly: Register, c: Register, s: seq<Octet>)
    requires |s| <= 8
    ensures Crc(poly, c, s) == Shifts(poly, Xor(c, Padded(s)), 8 * |s|)
    decreases |s|
  {
    if s == [] {
      assert Xor(c, Padded(s)) == c;
    } else {
      CrcOfWord(poly, Feed(poly, c, s[0]), s[1..]);
      FeedFirst(poly, c, s);
    }
  }

  // Two different blocks of up to eight bytes never leave the same register.
  lemma BlocksDiffer(poly: Register, c: Register, s: seq<Octet>, t: seq<Octet>)
    requires poly[63] && |s| == |t| <= 8 && s != t
    ensures Crc(poly, c, s) != Crc(poly, c, t)
  {
    if Crc(poly, c, s) == Crc(poly, c, t) {
      CrcOfWord(poly, c, s);
      CrcOfWord(poly, c, t);
      ShiftsInjective(poly, Xor(c, Padded(s)), Xor(c, Padded(t)), 8 * |s|);
      XorSwap(c, Padded(s), c);
      XorSwap(c, Padded(t), c);
      WordInjective(c, s, t);
    }
  }

  lemma WordInjective(c: Register, s: seq<Octet>, t: seq<Octet>)
    requires |s| == |t| <= 8 && Xor(c, Padded(s)) == Xor(c, Padded(t))
    ensures s == t
  {
    assert forall i :: 0 <= i < 64 ==>
        Xor(c, Padded(s))[i] == (c[i] != Padded(s)[i]) && Xor(c, Padded(t))[i] == (c[i] != Padded(t)[i]);
    assert Padded(s) == Padded(t);
    assert Flat(s) == Padded(s)[..8 * |s|] && Flat(t) == Padded(t)[..8 * |t|];
    FlatInjective(s, t);
  }

  // A change confined to eight consecutive bytes, anywhere, changes the checksum.
  lemma BurstDetected(poly: Register, c: Register, pre: seq<Octet>, s: seq<Octet>, t: seq<Octet>, post: seq<Octet>)
    requires poly[63] && |s| == |t| <= 8 && s != t
    ensures Crc(poly, c, pre + s + post) != Crc(poly, c, pre + t + post)
  {
    var d := Crc(poly, c, pre);
    CrcAppend(poly, c, pre, s);
    CrcAppend(poly, c, pre + s, post);
    CrcAppend(poly, c, pre, t);
    CrcAppend(poly, c, pre + t, post);
    BlocksDiffer(poly, d, s, t);
    if Crc(poly, c, pre + s + post) == Crc(poly, c, pre + t + post) {
      CrcInjective(poly, Crc(poly, d, s), Crc(poly, d, t), post);
    }
  }

  // ---- The footer of a DUMP payload ----

  const RDB_VERSION: nat := 6
  const POLY_VALUE: nat := 0x95ac_9329_ac4b_c9b5

  // The Jones polynomial in reflected order, which is entry 0x80 of the table.
  function Poly(): Register { ToBits(POLY_VALUE, 64) }

  function Version(): seq<Octet> { [ToBits(RDB_VERSION % 256, 8), ToBits(RDB_VERSION / 256, 8)] }

  // createDumpPayload, after the object has been serialized
  function CreatePayload(data: seq<Octet>): seq<Octet>
  {
    var p := data + Version();
    p + Unflat(Crc(Poly(), Zeros(64), p))
  }

  predicate VerifyPayload(p: seq<Octet>)
  {
    && |p| >= 10
    && p[|p| - 10..|p| - 8] == Version()
    && Unflat(Crc(Poly(), Zeros(64), p[..|p| - 8])) == p[|p| - 8..]
  }

  // The bytes of a number's top half tell its size.
  lemma {:induction false} TopBit(n: nat, w: nat)
    requires w > 0 && n < Pow2(w)
    ensures ToBits(n, w)[w - 1] <==> n >= Pow2(w - 1)
  {
    if w > 1 {
      TopBit(n / 2, w - 1);
      assert ToBits(n, w)[w - 1] == ToBits(n / 2, w - 1)[w - 2];
    }
  }

  lemma PolyTop()
    ensures Poly()[63]
  {
    Pow2Of64();
    TopBit(POLY_VALUE, 64);
  }

  lemma LastBitOut(poly: Register, y: Register)
    requires y == [true] + Zeros(63)
    ensures Shifts(poly, y, 1) == poly
  {
    assert Half(y) == Zeros(64);
    assert Xor(Zeros(64), poly) == poly;
  }

  // Entry 0x80 of the table is the polynomial itself.
  lemma TableEntry80(poly: Register, b: Octet)
    requires b == Zeros(7) + [true]
    ensures Shifts(poly, Pad(b), 8) == poly
  {
    var x := Pad(b);
    assert x[..7] == Zeros(7) && x[7..] + Zeros(7) == [true] + Zeros(63);
    ShiftsOfHigh(poly, x, 7);
    LastBitOut(poly, x[7..] + Zeros(7));
    ShiftsAdd(poly, x, 7, 1);
  }

  // Following a message by its checksum empties the register, and nothing else of eight bytes does.
  lemma FooterEmpties(poly: Register, d: Register, f: seq<Octet>)
    requires poly[63] && |f| == 8
    ensures Crc(poly, d, f) == Zeros(64) <==> f == Unflat(d)
  {
    CrcOfWord(poly, d, f);
    ShiftsOfZero(poly, 64);
    assert Padded(f) == Flat(f);
    if Crc(poly, d, f) == Zeros(64) {
      ShiftsInjective(poly, Xor(d, Padded(f)), Zeros(64), 64);
      assert forall i :: 0 <= i < 64 ==> Xor(d, Padded(f))[i] == (d[i] != Padded(f)[i]);
      assert d == Padded(f);
      FlatInjective(f, Unflat(d));
    }
    if f == Unflat(d) {
      assert Xor(d, d) == Zeros(64);
    }
  }

  // A payload is accepted when it has a footer, the right version, and leaves the register empty.
  lemma VerifyIsEmptyRegister(p: seq<Octet>)
    ensures VerifyPayload(p) <==>
              |p| >= 10 && p[|p| - 10..|p| - 8] == Version() && Crc(Poly(), Zeros(64), p) == Zeros(64)
  {
    if |p| >= 10 {
      var body, footer := p[..|p| - 8], p[|p| - 8..];
      assert p == body + footer;
      PolyTop();
      CrcAppend(Poly(), Zeros(64), body, footer);
      FooterEmpties(Poly(), Crc(Poly(), Zeros(64), body), footer);
    }
  }

  // What DUMP produces, RESTORE accepts.
  lemma CreatedIsVerified(data: seq<Octet>)
    ensures VerifyPayload(CreatePayload(data))
  {
    var body := data + Version();
    var footer := Unflat(Crc(Poly(), Zeros(64), body));
    var p := body + footer;
    assert |footer| == 8;
    assert p[..|p| - 8] == body && p[|p| - 8..] == footer;
    assert p[|p| - 10..|p| - 8] == Version();
  }

  // No change confined to eight consecutive bytes of an accepted payload, footer included, is accepted.
  lemma DamageIsRejected(pre: seq<Octet>, s: seq<Octet>, t: seq<Octet>, post: seq<Octet>)
    requires |s| == |t| <= 8 && s != t && VerifyPayload(pre + s + post)
    ensures !VerifyPayload(pre + t + post)
  {
    VerifyIsEmptyRegister(pre + s + post);
    VerifyIsEmptyRegister(pre + t + post);
    PolyTop();
    BurstDetected(Poly(), Zeros(64), pre, s, t, post);
  }
}
