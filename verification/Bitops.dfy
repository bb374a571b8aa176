/**
Finding the first bit of a kind in a string, combining strings bit by bit, and changing one bit.
A byte is its eight bits, most significant first, so a string reads as one row of bits.
*/
module Bitops {
  import opened Words
  import opened Octets

  // ---- BITPOS ----

  // The first position of a bit, or the length when there is none.
  function First(w: Bits, bit: bool): (n: nat)
    ensures n <= |w| && (n < |w| ==> w[n] == bit) && forall i :: 0 <= i < n ==> w[i] != bit
  {
    if w == [] || w[0] == bit then 0 else 1 + First(w[1..], bit)
  }

  lemma {:induction false} FirstIs(w: Bits, bit: bool, n: nat)
    requires n <= |w| && (n < |w| ==> w[n] == bit) && forall i :: 0 <= i < n ==> w[i] != bit
    ensures First(w, bit) == n
  {
    if n > 0 {
      FirstIs(w[1..], bit, n - 1);
    }
  }

  lemma FirstAppend(a: Bits, b: Bits, bit: bool)
    ensures First(a + b, bit) == if First(a, bit) < |a| then First(a, bit) else |a| + First(b, bit)
  {
    var f, g := First(a, bit), First(b, bit);
    FirstIs(a + b, bit, if f < |a| then f else |a| + g);
  }

  // Every bit is the other one.
  predicate Plain(w: Bits, bit: bool) { forall i :: 0 <= i < |w| ==> w[i] != bit }

  function Skip(bit: bool, n: nat): Bits { if bit then Zeros(n) else Ones(n) }

  lemma SkipIsPlain(w: Bits, bit: bool)
    ensures w == Skip(bit, |w|) <==> Plain(w, bit)
  {
  }

  lemma Skipped(s: seq<Octet>, i: nat, k: nat, bit: bool)
    requires i + k <= |s| && Plain(Flat(s[..i]), bit) && Plain(Flat(s[i..i + k]), bit)
    ensures Plain(Flat(s[..i + k]), bit)
  {
    FlatAppend(s[..i], s[i..i + k]);
    assert s[..i + k] == s[..i] + s[i..i + k];
  }

  // After j of the eight rounds, c bytes with the bits f have come in.
  ghost predicate Loaded(word: Bits, f: Bits, c: nat, j: nat)
  {
    c <= j <= 8 && |f| == 8 * c && word == Zeros(64 - 8 * j) + f + Zeros(8 * (j - c))
  }

  method LoadWord(s: seq<Octet>) returns (word: Bits)
    ensures word == Padded(if |s| < 8 then s else s[..8])
  {
    word := Zeros(64);
    var c := 0;
    ghost var f := Flat(s[..0]);
    for j := 0 to 8
      invariant c == (if j <= |s| then j else |s|)
      invariant f == Flat(s[..c]) && Loaded(word, f, c, j)
    {
      ShiftByte(word, f, c, j);
      word := word[8..] + Zeros(8);
      if c < |s| {
        LastByte(word, f, c, s[c]);
        NextFlat(s, c);
        word := word[..56] + s[c];
        f := f + s[c];
        c := c + 1;
      }
    }
    AllLoaded(s, word, c);
  }

  lemma AllLoaded(s: seq<Octet>, word: Bits, c: nat)
    requires c == (if |s| < 8 then |s| else 8) && Loaded(word, Flat(s[..c]), c, 8)
    ensures word == Padded(if |s| < 8 then s else s[..8])
  {
    assert s[..c] == if |s| < 8 then s else s[..8];
  }

  lemma NextFlat(s: seq<Octet>, c: nat)
    requires c < |s|
    ensures Flat(s[..c + 1]) == Flat(s[..c]) + s[c]
  {
    FlatAppend(s[..c], [s[c]]);
    assert s[..c + 1] == s[..c] + [s[c]];
  }

  lemma ShiftByte(word: Bits, f: Bits, c: nat, j: nat)
    requires Loaded(word, f, c, j) && j < 8
    ensures |word| == 64 && Loaded(word[8..] + Zeros(8), f, c, j + 1)
  {
  }

  lemma LastByte(word: Bits, f: Bits, c: nat, b: Octet)
    requires c < 8 && Loaded(word, f, c, c + 1)
    ensures |word| == 64 && Loaded(word[..56] + b, f + b, c + 1, c + 1)
  {
  }

  // Where the word answers the question, and when it does not.
  lemma FirstAfter(pre: Bits, rest: Bits, bit: bool)
    requires Plain(pre, bit)
    ensures First(pre + rest, bit) == |pre| + First(rest, bit)
  {
    FirstIs(pre, bit, |pre|);
    FirstAppend(pre, rest, bit);
  }

  lemma ShortWord(f: Bits, z: nat, bit: bool)
    requires z > 0
    ensures First(f + Zeros(z), bit) == |f| + z ==> bit && Plain(f, bit)
    ensures First(f + Zeros(z), bit) < |f| + z ==> First(f, bit) == First(f + Zeros(z), bit)
  {
    FirstAppend(f, Zeros(z), bit);
    FirstIs(Zeros(z), bit, if bit then z else 0);
  }

  lemma LongWord(a: Bits, b: Bits, bit: bool)
    requires !Plain(a, bit)
    ensures First(a + b, bit) == First(a, bit) < |a|
  {
    FirstAppend(a, b, bit);
  }

  lemma RestOfString(s: seq<Octet>, i: nat)
    requires i <= |s|
    ensures Flat(s) == Flat(s[..i]) + Flat(s[i..])
  {
    FlatAppend(s[..i], s[i..]);
    assert s == s[..i] + s[i..];
  }

  // The word loaded from what is left of the string: less than eight bytes, or eight bytes and more.
  lemma ShortAnswers(rest: seq<Octet>, bit: bool, word: Bits)
    requires |rest| < 8 && word == Padded(rest)
    ensures First(word, bit) == 64 ==> bit && Plain(Flat(rest), bit)
    ensures First(word, bit) < 64 ==> First(Flat(rest), bit) == First(word, bit)
  {
    ShortWord(Flat(rest), 64 - 8 * |rest|, bit);
  }

  lemma LongAnswers(rest: seq<Octet>, head: seq<Octet>, bit: bool, word: Bits)
    requires |rest| >= 8 && head == rest[..8] && word == Padded(head) && !Plain(Flat(head), bit)
    ensures First(Flat(rest), bit) == First(word, bit) < 64
  {
    RestOfString(rest, 8);
    LongWord(Flat(head), Flat(rest[8..]), bit);
    assert word == Flat(head);
  }

  // Only the bit at k is set.
  ghost predicate OneAt(one: Bits, k: nat) { |one| == 64 && forall i :: 0 <= i < 64 ==> (one[i] <==> i == k) }

  lemma OneIsZero(one: Bits, k: nat)
    requires OneAt(one, k)
    ensures one == Zeros(64) <==> k >= 64
  {
    assert k < 64 ==> one[k] && !Zeros(64)[k];
  }

  lemma TestOne(one: Bits, word: Bits, k: nat)
    requires |word| == 64 && k < 64 && OneAt(one, k)
    ensures And(one, word) != Zeros(64) <==> word[k]
  {
    assert And(one, word)[k] == word[k];
  }

  // Bit by bit, with a single one moving from the most significant bit to the least; a match is always found.
  method ScanWord(word: Bits, bit: bool) returns (pos: nat)
    requires |word| == 64 && !Plain(word, bit)
    ensures pos == First(word, bit) < 64
  {
    pos := 0;
    var one := Ones(64);
    one := Shr1(one);
    one := Not(one);
    while one != Zeros(64)
      invariant pos <= 64 && OneAt(one, pos)
      invariant forall i :: 0 <= i < pos ==> word[i] != bit
      decreases 64 - pos
    {
      OneIsZero(one, pos);
      TestOne(one, word, pos);
      if (And(one, word) != Zeros(64)) == bit {
        FirstIs(word, bit, pos);
        return;
      }
      pos := pos + 1;
      one := Shr1(one);
    }
    OneIsZero(one, pos);
    assert false;
  }

  function Shr1(w: Bits): Bits
    requires |w| == 64
  {
    [false] + w[..63]
  }

  lemma PlainWord(word: Bits)
    requires |word| == 64
    ensures word == Zeros(64) <==> First(word, true) == 64
  {
    SkipIsPlain(word, true);
    if Plain(word, true) {
      FirstIs(word, true, 64);
    }
  }

  /* redisBitpos, for a string that starts `skew` bytes past a word boundary: bytes equal to the skip
     value are passed over one by one and then eight at a time. */
  method Bitpos(s: seq<Octet>, skew: nat, bit: bool) returns (pos: int)
    ensures bit && Plain(Flat(s), true) ==> pos == -1
    ensures !(bit && Plain(Flat(s), true)) ==> pos == First(Flat(s), bit)
  {
    var i := SkipPlain(s, skew, bit);
    var rest := s[i..];
    var word := LoadWord(rest);
    RestOfString(s, i);
    FirstAfter(Flat(s[..i]), Flat(rest), bit);
    if |rest| < 8 {
      ShortAnswers(rest, bit, word);
    } else {
      assert rest[..8] == s[i..i + 8];
      LongAnswers(rest, rest[..8], bit, word);
    }
    if bit {
      PlainWord(word);
      if word == Zeros(64) { return -1; }
    }
    var k := ScanWord(word, bit);
    pos := 8 * i + k;
  }

  method SkipPlain(s: seq<Octet>, skew: nat, bit: bool) returns (i: nat)
    ensures i <= |s| && Plain(Flat(s[..i]), bit)
    ensures |s| - i >= 8 ==> !Plain(Flat(s[i..i + 8]), bit)
  {
    i := 0;
    while (skew + i) % 8 != 0 && i < |s|
      invariant i <= |s| && Plain(Flat(s[..i]), bit)
      decreases |s| - i
    {
      SkipIsPlain(s[i], bit);
      if s[i] != Skip(bit, 8) { break; }
      assert Flat(s[i..i + 1]) == s[i];
      Skipped(s, i, 1, bit);
      i := i + 1;
    }
    while |s| - i >= 8
      invariant i <= |s| && Plain(Flat(s[..i]), bit)
    {
      var word := Flat(s[i..i + 8]);
      SkipIsPlain(word, bit);
      if word != Skip(bit, 64) { break; }
      Skipped(s, i, 8, bit);
      i := i + 8;
    }
  }

  // ---- GETBIT and SETBIT ----

  function GetBit(s: seq<Octet>, offset: nat): bool { offset / 8 < |s| && s[offset / 8][offset % 8] }

  // The bit at an offset of the string read as one row of bits, or zero past its end.
  lemma {:induction false} GetBitReads(s: seq<Octet>, offset: nat)
    ensures GetBit(s, offset) <==> offset < |Flat(s)| && Flat(s)[offset]
  {
    if s != [] && offset >= 8 {
      GetBitReads(s[1..], offset - 8);
      assert (offset - 8) / 8 == offset / 8 - 1 && (offset - 8) % 8 == offset % 8;
    }
  }

  method SetBit(s: seq<Octet>, offset: nat, on: bool) returns (r: seq<Octet>, was: bool)
    ensures was == GetBit(s, offset)
    ensures |r| == if offset / 8 < |s| then |s| else offset / 8 + 1
    ensures forall p {:trigger GetBit(r, p)} :: 0 <= p ==> GetBit(r, p) == if p == offset then on else GetBit(s, p)
  {
    var byte := offset / 8;
    r := if |s| < byte + 1 then s + seq(byte + 1 - |s|, i => Zeros(8)) else s;
    var bit := offset % 8;
    was := r[byte][bit];
    r := r[byte := r[byte][bit := on]];
    forall p | 0 <= p && p != offset
      ensures GetBit(r, p) == GetBit(s, p)
    {
      assert p == 8 * (p / 8) + p % 8 && offset == 8 * byte + bit;
    }
  }
}
