/**
BITOP: combining strings of different lengths as if each were padded with zero bytes, in blocks of
four words as long as all of them last, and then byte by byte.
*/
module Bitop {
  import opened Words
  import opened Octets
  import opened Bitops

  datatype Op = AND | OR | XOR | NOT

  function Apply(op: Op, a: Bits, b: Bits): (w: Bits)
    requires |a| == |b|
    ensures |w| == |a|
  {
    match op
    case AND => And(a, b)
    case OR => Or(a, b)
    case XOR => Xor(a, b)
    case NOT => a
  }

  // A byte of a string, or zero past its end.
  function Byte(s: seq<Octet>, j: nat): Octet { if j < |s| then s[j] else Zeros(8) }

  // What stands at byte j when the first n strings are combined.
  function Combined(op: Op, src: seq<seq<Octet>>, n: nat, j: nat): Octet
    requires 1 <= n <= |src|
  {
    if n == 1 then (if op == NOT then Not(Byte(src[0], j)) else Byte(src[0], j))
    else Apply(op, Combined(op, src, n - 1, j), Byte(src[n - 1], j))
  }

  // ---- Words ----

  function WordOp(op: Op, a: seq<Octet>, b: seq<Octet>): (c: seq<Octet>)
    requires |a| == |b| == 8
    ensures |c| == 8
  {
    Unflat(Apply(op, Flat(a), Flat(b)))
  }

  function WordNot(a: seq<Octet>): (c: seq<Octet>)
    requires |a| == 8
    ensures |c| == 8
  {
    Unflat(Not(Flat(a)))
  }

  lemma ApplyConcat(op: Op, a: Bits, b: Bits, c: Bits, d: Bits)
    requires |a| == |b| && |c| == |d|
    ensures Apply(op, a + c, b + d) == Apply(op, a, b) + Apply(op, c, d)
    ensures Not(a + c) == Not(a) + Not(c)
  {
  }

  // A word operation works on each byte.
  lemma {:induction false} WordIsBytes(op: Op, a: seq<Octet>, b: seq<Octet>, k: nat)
    requires |a| == |b| && k < |a|
    ensures Unflat(Apply(op, Flat(a), Flat(b)))[k] == Apply(op, a[k], b[k])
    ensures Unflat(Not(Flat(a)))[k] == Not(a[k])
  {
    ApplyConcat(op, a[0], b[0], Flat(a[1..]), Flat(b[1..]));
    UnflatHead(Apply(op, a[0], b[0]), Apply(op, Flat(a[1..]), Flat(b[1..])));
    UnflatHead(Not(a[0]), Not(Flat(a[1..])));
    if k > 0 {
      WordIsBytes(op, a[1..], b[1..], k - 1);
    }
  }

  lemma UnflatHead(h: Octet, t: Bits)
    requires |t| % 8 == 0
    ensures Unflat(h + t) == [h] + Unflat(t)
  {
    assert (h + t)[..8] == h && (h + t)[8..] == t;
  }

  // ---- The computation ----

  // `after` is as before but for n bytes from `at`, which are combined with another string's.
  ghost predicate Changed(op: Op, other: seq<Octet>, before: seq<Octet>, after: seq<Octet>, at: nat, n: nat)
  {
    && |after| == |before| && at + n <= |before|
    && forall k :: 0 <= k < |before| ==>
         after[k] == if at <= k < at + n then Apply(op, before[k], Byte(other, k)) else before[k]
  }

  ghost predicate Flipped(before: seq<Octet>, after: seq<Octet>, at: nat, n: nat)
  {
    && |after| == |before| && at + n <= |before|
    && forall k :: 0 <= k < |before| ==> after[k] == if at <= k < at + n then Not(before[k]) else before[k]
  }

  function Put(res: seq<Octet>, at: nat, w: seq<Octet>): (r: seq<Octet>)
    requires |w| == 8 && at + 8 <= |res|
    ensures |r| == |res| && forall k :: 0 <= k < |res| ==> r[k] == if at <= k < at + 8 then w[k - at] else res[k]
  {
    res[..at] + w + res[at + 8..]
  }

  method PutWord(op: Op, res: seq<Octet>, at: nat, other: seq<Octet>) returns (r: seq<Octet>)
    requires at + 8 <= |res| && at + 8 <= |other|
    ensures Changed(op, other, res, r, at, 8)
  {
    var a, b := res[at..at + 8], other[at..at + 8];
    r := Put(res, at, WordOp(op, a, b));
    forall k | at <= k < at + 8
      ensures r[k] == Apply(op, res[k], Byte(other, k))
    {
      WordIsBytes(op, a, b, k - at);
      assert a[k - at] == res[k] && b[k - at] == other[k];
    }
  }

  method PutNot(res: seq<Octet>, at: nat) returns (r: seq<Octet>)
    requires at + 8 <= |res|
    ensures Flipped(res, r, at, 8)
  {
    var a := res[at..at + 8];
    r := Put(res, at, WordNot(a));
    forall k | at <= k < at + 8
      ensures r[k] == Not(res[k])
    {
      WordIsBytes(NOT, a, a, k - at);
      assert a[k - at] == res[k];
    }
  }

  // Four words of one more source.
  method FourWords(op: Op, res: seq<Octet>, at: nat, other: seq<Octet>) returns (r: seq<Octet>)
    requires at + 32 <= |res| && at + 32 <= |other|
    ensures Changed(op, other, res, r, at, 32)
  {
    r := PutWord(op, res, at, other);
    r := PutWord(op, r, at + 8, other);
    r := PutWord(op, r, at + 16, other);
    r := PutWord(op, r, at + 24, other);
  }

  method FourNots(res: seq<Octet>, at: nat) returns (r: seq<Octet>)
    requires at + 32 <= |res|
    ensures Flipped(res, r, at, 32)
  {
    r := PutNot(res, at);
    r := PutNot(r, at + 8);
    r := PutNot(r, at + 16);
    r := PutNot(r, at + 24);
  }

  ghost predicate AllLast(src: seq<seq<Octet>>, n: nat) { forall i :: 0 <= i < |src| ==> n <= |src[i]| }

  // One turn of the fast path: a block that holds the first source comes to hold the combination of all.
  method Block(op: Op, src: seq<seq<Octet>>, res: seq<Octet>, at: nat) returns (r: seq<Octet>)
    requires 1 <= |src| && (op == NOT ==> |src| == 1) && AllLast(src, at + 32) && at + 32 <= |res|
    requires forall k :: at <= k < at + 32 ==> res[k] == src[0][k]
    ensures |r| == |res| && forall k :: 0 <= k < |res| ==>
              r[k] == if at <= k < at + 32 then Combined(op, src, |src|, k) else res[k]
  {
    if op == NOT {
      r := FourNots(res, at);
      return;
    }
    r := res;
    var i := 1;
    while i < |src|
      invariant 1 <= i <= |src| && |r| == |res|
      invariant forall k :: 0 <= k < |res| ==> r[k] == if at <= k < at + 32 then Combined(op, src, i, k) else res[k]
    {
      ghost var before := r;
      r := FourWords(op, r, at, src[i]);
      OneMore(op, src, i, before, r, at);
      i := i + 1;
    }
  }

  lemma OneMore(op: Op, src: seq<seq<Octet>>, i: nat, before: seq<Octet>, after: seq<Octet>, at: nat)
    requires 1 <= i < |src| && Changed(op, src[i], before, after, at, 32)
    requires forall k :: at <= k < at + 32 ==> before[k] == Combined(op, src, i, k)
    ensures forall k :: at <= k < at + 32 ==> after[k] == Combined(op, src, i + 1, k)
  {
    forall k | at <= k < at + 32
      ensures after[k] == Combined(op, src, i + 1, k)
    {
      assert before[k] == Combined(op, src, i, k);
    }
  }

  method Lengths(src: seq<seq<Octet>>) returns (minlen: nat, maxlen: nat)
    requires 1 <= |src|
    ensures AllLast(src, minlen) && (forall i :: 0 <= i < |src| ==> |src[i]| <= maxlen)
    ensures exists i :: 0 <= i < |src| && |src[i]| == maxlen
  {
    minlen, maxlen := 0, 0;
    var j := 0;
    ghost var longest := 0;
    while j < |src|
      invariant j <= |src| && forall i :: 0 <= i < j ==> minlen <= |src[i]| <= maxlen
      invariant j > 0 ==> longest < j && |src[longest]| == maxlen
      invariant j == 0 ==> maxlen == 0
    {
      if |src[j]| > maxlen || j == 0 { longest := j; }
      if |src[j]| > maxlen { maxlen := |src[j]|; }
      if j == 0 || |src[j]| < minlen { minlen := |src[j]|; }
      j := j + 1;
    }
  }

  lemma NextSource(op: Op, src: seq<seq<Octet>>, i: nat, j: nat, output: Octet, byte: Octet)
    requires 1 <= i < |src| && output == Combined(op, src, i, j) && byte == Byte(src[i], j)
    ensures Apply(op, output, byte) == Combined(op, src, i + 1, j)
  {
  }

  // The slow path computes one byte.
  method CombineByte(op: Op, src: seq<seq<Octet>>, j: nat) returns (output: Octet)
    requires 1 <= |src| && (op == NOT ==> |src| == 1)
    ensures output == Combined(op, src, |src|, j)
  {
    output := if |src[0]| <= j then Zeros(8) else src[0][j];
    if op == NOT { output := Not(output); }
    var i := 1;
    while i < |src|
      invariant 1 <= i <= |src| && output == Combined(op, src, i, j)
    {
      var byte: Octet := if |src[i]| <= j then Zeros(8) else src[i][j];
      NextSource(op, src, i, j, output, byte);
      output := Apply(op, output, byte);
      i := i + 1;
    }
  }

  // The compute part of bitopCommand: as long as the longest source, every byte the combination of all.
  method Compute(op: Op, src: seq<seq<Octet>>) returns (res: seq<Octet>)
    requires 1 <= |src| && (op == NOT ==> |src| == 1)
    ensures forall j :: 0 <= j < |res| ==> res[j] == Combined(op, src, |src|, j)
    ensures (forall i :: 0 <= i < |src| ==> |src[i]| <= |res|) && exists i :: 0 <= i < |src| && |src[i]| == |res|
  {
    var minlen, maxlen := Lengths(src);
    res := seq(maxlen, i => Zeros(8));
    var j := 0;
    if minlen >= 32 && |src| <= 16 {
      res := src[0][..minlen] + seq(maxlen - minlen, i => Zeros(8));
      while minlen - j >= 32
        invariant 0 <= j <= minlen <= maxlen && |res| == maxlen
        invariant forall k :: 0 <= k < j ==> res[k] == Combined(op, src, |src|, k)
        invariant forall k :: j <= k < minlen ==> res[k] == src[0][k]
      {
        res := Block(op, src, res, j);
        j := j + 32;
      }
    }
    while j < maxlen
      invariant 0 <= j <= maxlen && |res| == maxlen
      invariant forall k :: 0 <= k < j ==> res[k] == Combined(op, src, |src|, k)
    {
      var output := CombineByte(op, src, j);
      res := res[j := output];
      j := j + 1;
    }
  }

  // Bit by bit: AND, OR and XOR ask whether all, any or an odd number of the padded sources have the bit.
  ghost function HowMany(src: seq<seq<Octet>>, n: nat, j: nat, b: nat): nat
    requires n <= |src| && b < 8
  {
    if n == 0 then 0 else HowMany(src, n - 1, j, b) + if Byte(src[n - 1], j)[b] then 1 else 0
  }

  lemma {:induction false} CombinedBit(op: Op, src: seq<seq<Octet>>, n: nat, j: nat, b: nat)
    requires 1 <= n <= |src| && b < 8 && (op == NOT ==> n == 1)
    ensures HowMany(src, n, j, b) <= n
    ensures var h := HowMany(src, n, j, b);
            Combined(op, src, n, j)[b] <==>
              match op
              case AND => h == n
              case OR => h > 0
              case XOR => h % 2 == 1
              case NOT => h == 0
  {
    if n == 1 {
      assert HowMany(src, 0, j, b) == 0;
    } else {
      CombinedBit(op, src, n - 1, j, b);
    }
  }
}
