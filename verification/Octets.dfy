/**
Bytes as eight bits, and a string of bytes as one row of bits. Which bit of a byte comes first is
for the modules that use this to say.
*/
module Octets {
  import opened Words

  type Octet = w: Bits | |w| == 8 witness Zeros(8)

  function Flat(s: seq<Octet>): (w: Bits)
    ensures |w| == 8 * |s|
  {
    if s == [] then [] else s[0] + Flat(s[1..])
  }

  // A row of bits cut into bytes again.
  function Unflat(w: Bits): (s: seq<Octet>)
    requires |w| % 8 == 0
    ensures 8 * |s| == |w| && Flat(s) == w
  {
    if w == [] then [] else [w[..8]] + Unflat(w[8..])
  }

  // Up to eight bytes as a word, padded with zeros.
  function Padded(s: seq<Octet>): (w: Bits)
    requires |s| <= 8
    ensures |w| == 64
  {
    Flat(s) + Zeros(64 - 8 * |s|)
  }

  lemma {:induction false} FlatAppend(s: seq<Octet>, t: seq<Octet>)
    ensures Flat(s + t) == Flat(s) + Flat(t)
  {
    if s == [] {
      assert s + t == t;
    } else {
      FlatAppend(s[1..], t);
      assert (s + t)[1..] == s[1..] + t;
    }
  }

  lemma {:induction false} UnflatOfFlat(s: seq<Octet>)
    ensures Unflat(Flat(s)) == s
  {
    if s != [] {
      UnflatOfFlat(s[1..]);
      assert Flat(s)[..8] == s[0] && Flat(s)[8..] == Flat(s[1..]);
      assert s == [s[0]] + s[1..];
    }
  }

  lemma FlatInjective(s: seq<Octet>, t: seq<Octet>)
    requires Flat(s) == Flat(t)
    ensures s == t
  {
    UnflatOfFlat(s);
    UnflatOfFlat(t);
  }
}
