/**
The slots of a node as they are written to the cluster configuration file, as ranges, and read back.
*/
module SlotRanges {
  import opened Basics
  import opened AofLog

  datatype Range = Range(start: nat, stop: nat)

  predicate InRange(k: nat, r: Range) { r.start <= k <= r.stop }

  // ---- From a bitmap to ranges ----

  // Where the run of set bits at j ends.
  function RunEnd(bits: seq<bool>, j: nat): (e: nat)
    requires j <= |bits|
    ensures j <= e <= |bits|
    ensures forall i :: j <= i < e ==> bits[i]
    ensures e < |bits| ==> !bits[e]
    decreases |bits| - j
  {
    if j < |bits| && bits[j] then RunEnd(bits, j + 1) else j
  }

  // The maximal runs of set bits from j on.
  function Runs(bits: seq<bool>, j: nat): seq<Range>
    requires j <= |bits|
    decreases |bits| - j
  {
    if j == |bits| then []
    else if !bits[j] then Runs(bits, j + 1)
    else var e := RunEnd(bits, j + 1); [Range(j, e - 1)] + Runs(bits, e)
  }

  lemma {:induction false} RunEndIs(bits: seq<bool>, s: nat, e: nat)
    requires s <= e <= |bits| && (forall i :: s <= i < e ==> bits[i]) && (e < |bits| ==> !bits[e])
    ensures RunEnd(bits, s) == e
    decreases e - s
  {
    if s < e {
      RunEndIs(bits, s + 1, e);
    }
  }

  function PrintRange(r: Range): string
  {
    if r.start == r.stop then " " + Dec(r.start) else " " + Dec(r.start) + "-" + Dec(r.stop)
  }

  // How a range is shown is left to the caller.
  function ShowAll(show: Range -> string, rs: seq<Range>): string
  {
    if rs == [] then "" else show(rs[0]) + ShowAll(show, rs[1..])
  }

  // What is to be printed for the slots from p on.
  ghost function Text(show: Range -> string, bits: seq<bool>, p: nat): string
    requires p <= |bits|
  {
    ShowAll(show, Runs(bits, p))
  }

  ghost predicate IsRun(bits: seq<bool>, start: nat, e: nat)
  {
    start < e <= |bits| && (forall i :: start <= i < e ==> bits[i]) && (e < |bits| ==> !bits[e])
  }

  lemma TextOfRun(show: Range -> string, bits: seq<bool>, start: nat, e: nat)
    requires IsRun(bits, start, e)
    ensures Text(show, bits, start) == show(Range(start, e - 1)) + Text(show, bits, e)
  {
    RunEndIs(bits, start + 1, e);
  }

  // A finished run is printed.
  method EmitRun(show: Range -> string, bits: seq<bool>, ci: string, start: nat, e: nat, ghost all: string)
    returns (r: string)
    requires IsRun(bits, start, e) && ci + Text(show, bits, start) == all
    ensures r + Text(show, bits, e) == all
  {
    TextOfRun(show, bits, start, e);
    Associate(ci, show(Range(start, e - 1)), Text(show, bits, e));
    r := ci + show(Range(start, e - 1));
  }

  // The slots part of clusterGenNodeDescription; a run that reaches the last slot is closed by stepping over it.
  method DescribeSlots(show: Range -> string, bits: seq<bool>) returns (ci: string)
    requires |bits| == CLUSTER_SLOTS
    ensures ci == ShowAll(show, Runs(bits, 0))
  {
    ghost var all := Text(show, bits, 0);
    ci := "";
    var start := -1;
    var j := 0;
    while j < CLUSTER_SLOTS
      invariant j <= CLUSTER_SLOTS + 1 && -1 <= start < j && (j >= CLUSTER_SLOTS ==> start == -1)
      invariant start != -1 ==> forall i :: start <= i < j ==> bits[i]
      invariant j < CLUSTER_SLOTS ==> ci + Text(show, bits, if start == -1 then j else start) == all
      invariant j >= CLUSTER_SLOTS ==> ci + Text(show, bits, CLUSTER_SLOTS) == all
    {
      var bit := bits[j];
      if bit && start == -1 { start := j; }
      if start != -1 && (!bit || j == CLUSTER_SLOTS - 1) {
        if bit && j == CLUSTER_SLOTS - 1 { j := j + 1; }
        ci := EmitRun(show, bits, ci, start, j, all);
        start := -1;
      }
      j := j + 1;
    }
    assert ci + "" == ci;
  }

  // ---- What the ranges mean ----

  ghost predicate Covers(rs: seq<Range>, k: nat)
  {
    exists i :: 0 <= i < |rs| && InRange(k, rs[i])
  }

  lemma CoversCons(r: Range, rs: seq<Range>, k: nat)
    ensures Covers([r] + rs, k) <==> InRange(k, r) || Covers(rs, k)
  {
    var all := [r] + rs;
    if Covers(rs, k) {
      var i :| 0 <= i < |rs| && InRange(k, rs[i]);
      assert InRange(k, all[i + 1]);
    }
    assert InRange(k, r) ==> InRange(k, all[0]);
  }

  // The ranges hold the slots of the bitmap and no others.
  lemma {:induction false} RunsCover(bits: seq<bool>, j: nat, k: nat)
    requires j <= |bits|
    ensures Covers(Runs(bits, j), k) <==> j <= k < |bits| && bits[k]
    decreases |bits| - j
  {
    if j < |bits| && bits[j] {
      var e := RunEnd(bits, j + 1);
      RunsCover(bits, e, k);
      CoversCons(Range(j, e - 1), Runs(bits, e), k);
    } else if j < |bits| {
      RunsCover(bits, j + 1, k);
    }
  }

  // ---- Reading ----

  function TokenLen(s: string): (n: nat)
    ensures n <= |s|
  {
    if s == "" || s[0] == ' ' then 0 else 1 + TokenLen(s[1..])
  }

  // The arguments of a line.
  function Split(s: string): seq<string>
  {
    if s == "" then []
    else if s[0] == ' ' then Split(s[1..])
    else var n := TokenLen(s); [s[..n]] + Split(s[n..])
  }

  function Dash(t: string): (n: nat)
    ensures n <= |t| && (n < |t| ==> t[n] == '-')
  {
    if t == "" || t[0] == '-' then 0 else 1 + Dash(t[1..])
  }

  // One slot or a range
  function ParseRange(t: string): (int, int)
  {
    var n := Dash(t);
    if n < |t| then (Atoi(t[..n]), Atoi(t[n + 1..])) else (Atoi(t), Atoi(t))
  }

  predicate Inside(t: string)
  {
    var (start, stop) := ParseRange(t);
    0 <= start && stop < CLUSTER_SLOTS
  }

  // The slots one argument names.
  predicate Names(t: string, k: nat)
  {
    var (start, stop) := ParseRange(t);
    start <= k <= stop
  }

  // The slot arguments of clusterLoadConfig, for a node that has no slots yet
  method LoadSlots(args: seq<string>) returns (bits: seq<bool>)
    requires forall i :: 0 <= i < |args| ==> Inside(args[i])
    ensures |bits| == CLUSTER_SLOTS
    ensures forall k :: 0 <= k < CLUSTER_SLOTS ==> (bits[k] <==> exists i :: 0 <= i < |args| && Names(args[i], k))
  {
    bits := seq(CLUSTER_SLOTS, i => false);
    var j := 0;
    while j < |args|
      invariant j <= |args| && |bits| == CLUSTER_SLOTS
      invariant forall k :: 0 <= k < CLUSTER_SLOTS ==> (bits[k] <==> exists i :: 0 <= i < j && Names(args[i], k))
    {
      ghost var before := bits;
      assert Inside(args[j]);
      var (start, stop) := ParseRange(args[j]);
      var s := start;
      while s <= stop
        invariant start <= s && (s <= stop + 1 || s == start) && |bits| == CLUSTER_SLOTS
        invariant forall k :: 0 <= k < CLUSTER_SLOTS ==> (bits[k] <==> before[k] || start <= k < s)
      {
        bits := bits[s := true];
        s := s + 1;
      }
      j := j + 1;
    }
  }

  // ---- Round trip ----

  lemma {:induction false} TokenOfPlain(t: string, rest: string)
    requires (forall i :: 0 <= i < |t| ==> t[i] != ' ') && (rest == "" || rest[0] == ' ')
    ensures TokenLen(t + rest) == |t|
  {
    if t == "" {
      assert t + rest == rest;
    } else {
      TokenOfPlain(t[1..], rest);
      assert (t + rest)[1..] == t[1..] + rest;
    }
  }

  lemma SplitOne(t: string, rest: string)
    requires t != "" && (forall i :: 0 <= i < |t| ==> t[i] != ' ') && (rest == "" || rest[0] == ' ')
    ensures Split(" " + t + rest) == [t] + Split(rest)
  {
    var u := t + rest;
    TokenOfPlain(t, rest);
    assert " " + t + rest == " " + u;
    assert (" " + u)[1..] == u;
    assert u[..|t|] == t && u[|t|..] == rest;
  }

  function Token(r: Range): string
  {
    if r.start == r.stop then Dec(r.start) else Dec(r.start) + "-" + Dec(r.stop)
  }

  function Tokens(rs: seq<Range>): seq<string> { seq(|rs|, i requires 0 <= i < |rs| => Token(rs[i])) }

  lemma TokenIsPlain(r: Range)
    ensures Token(r) != "" && forall i :: 0 <= i < |Token(r)| ==> Token(r)[i] != ' '
    ensures PrintRange(r) == " " + Token(r)
  {
    DecIsDigits(r.start);
    DecIsDigits(r.stop);
    if r.start != r.stop {
      Associate(" ", Dec(r.start), "-");
      Associate(" ", Dec(r.start) + "-", Dec(r.stop));
    }
  }

  lemma {:induction false} DashOfDigits(a: string, b: string)
    requires forall i :: 0 <= i < |a| ==> IsDigit(a[i])
    ensures Dash(a) == |a| && Dash(a + "-" + b) == |a|
  {
    if a == "" {
      assert a + "-" + b == "-" + b;
    } else {
      DashOfDigits(a[1..], b);
      assert (a + "-" + b)[1..] == a[1..] + "-" + b;
    }
  }

  lemma ParseOfToken(r: Range)
    ensures ParseRange(Token(r)) == (r.start, r.stop)
  {
    var a, b := Dec(r.start), Dec(r.stop);
    DecIsDigits(r.start);
    DashOfDigits(a, b);
    AtoiOfDec(r.start, "");
    AtoiOfDec(r.stop, "");
    assert a + "" == a && b + "" == b;
    if r.start != r.stop {
      assert Token(r) == a + "-" + b;
      assert (a + "-" + b)[..|a|] == a && (a + "-" + b)[|a| + 1..] == b;
    }
  }

  lemma {:induction false} SplitOfPrint(rs: seq<Range>)
    ensures Split(ShowAll(PrintRange, rs)) == Tokens(rs)
    ensures ShowAll(PrintRange, rs) == "" || ShowAll(PrintRange, rs)[0] == ' '
  {
    if rs != [] {
      SplitOfPrint(rs[1..]);
      TokenIsPlain(rs[0]);
      SplitOne(Token(rs[0]), ShowAll(PrintRange, rs[1..]));
      assert Tokens(rs) == [Token(rs[0])] + Tokens(rs[1..]);
    }
  }

  lemma {:induction false} RunsInside(bits: seq<bool>, j: nat, i: nat)
    requires j <= |bits| && i < |Runs(bits, j)|
    ensures Runs(bits, j)[i].stop < |bits|
    decreases |bits| - j
  {
    if bits[j] {
      if i > 0 {
        RunsInside(bits, RunEnd(bits, j + 1), i - 1);
      }
    } else {
      RunsInside(bits, j + 1, i);
    }
  }

  // What is written for any set of slots is read back as that set.
  method WriteThenRead(bits: seq<bool>) returns (again: seq<bool>)
    requires |bits| == CLUSTER_SLOTS
    ensures again == bits
  {
    var text := DescribeSlots(PrintRange, bits);
    ghost var rs := Runs(bits, 0);
    SplitOfPrint(rs);
    var args := Split(text);
    forall i | 0 <= i < |args|
      ensures Inside(args[i])
    {
      RunsInside(bits, 0, i);
      ParseOfToken(rs[i]);
    }
    again := LoadSlots(args);
    forall k | 0 <= k < CLUSTER_SLOTS
      ensures (exists i :: 0 <= i < |args| && Names(args[i], k)) <==> bits[k]
    {
      RunsCover(bits, 0, k);
      NamesCover(rs, k);
    }
  }

  lemma NamesCover(rs: seq<Range>, k: nat)
    ensures (exists i :: 0 <= i < |Tokens(rs)| && Names(Tokens(rs)[i], k)) <==> Covers(rs, k)
  {
    forall i | 0 <= i < |rs|
      ensures Names(Tokens(rs)[i], k) <==> InRange(k, rs[i])
    {
      ParseOfToken(rs[i]);
    }
  }
}
