/**
The sparse HyperLogLog representation: a byte string of run-length opcodes ZERO, XZERO and VAL,
read in order over the 16384 registers. The macros are written with the arithmetic that the
masks and shifts of the source amount to on bytes.
*/
module HllSparse {
  import opened Basics
  import opened HllDense

  const VAL_MAX_VALUE: nat := 32
  const VAL_MAX_LEN: nat := 4
  const ZERO_MAX_LEN: nat := 64
  const XZERO_MAX_LEN: nat := 16384

  predicate IsZero(b: Byte) { b < 64 }          // 00xxxxxx
  predicate IsXzero(b: Byte) { 64 <= b < 128 }  // 01xxxxxx yyyyyyyy
  predicate IsVal(b: Byte) { b >= 128 }         // 1vvvvvxx

  function ZeroLen(b: Byte): nat { b % 64 + 1 }

  // The second byte of an XZERO; past the end it is the null byte that ends the string.
  function XzeroLen(s: seq<Byte>): nat
    requires s != []
  {
    var hi: nat, lo: nat := s[0] % 64, if |s| > 1 then s[1] else 0;
    hi * 256 + lo + 1
  }

  function ValValue(b: Byte): nat { (b / 4) % 32 + 1 }

  function ValLen(b: Byte): nat { b % 4 + 1 }

  function ValSet(val: nat, len: nat): (b: Byte)
    requires 1 <= val <= VAL_MAX_VALUE && 1 <= len <= VAL_MAX_LEN
    ensures IsVal(b) && ValValue(b) == val && ValLen(b) == len
  {
    ((val - 1) * 4 + (len - 1)) + 128
  }

  // A run of zeros as XZERO or ZERO, whichever the length needs.
  function ZeroRun(len: nat): (r: seq<Byte>)
    requires 1 <= len <= XZERO_MAX_LEN
  {
    if len > ZERO_MAX_LEN then [(len - 1) / 256 + 64, (len - 1) % 256] else [len - 1]
  }

  // ---- Meaning of an opcode string ----

  function OpLen(s: seq<Byte>): (n: nat)
    requires s != []
    ensures 1 <= n <= 2
  {
    if IsXzero(s[0]) then 2 else 1
  }

  function Span(s: seq<Byte>): (n: nat)
    requires s != []
    ensures n >= 1
  {
    if IsZero(s[0]) then ZeroLen(s[0]) else if IsXzero(s[0]) then XzeroLen(s) else ValLen(s[0])
  }

  function RunValue(s: seq<Byte>): nat
    requires s != []
  {
    if IsVal(s[0]) then ValValue(s[0]) else 0
  }

  function Rep(v: nat, n: nat): (r: seq<nat>)
    ensures |r| == n
  {
    seq(n, _ => v)
  }

  // The string without its first opcode.
  function Rest(s: seq<Byte>): (r: seq<Byte>)
    requires s != []
    ensures |r| < |s|
  {
    if |s| <= OpLen(s) then [] else s[OpLen(s)..]
  }

  // The registers an opcode string stands for.
  function Decode(s: seq<Byte>): seq<nat>
    decreases |s|
  {
    if s == [] then [] else Rep(RunValue(s), Span(s)) + Decode(Rest(s))
  }

  // The string is made of whole opcodes.
  predicate WholeOpcodes(s: seq<Byte>)
  {
    s != [] ==> |s| >= OpLen(s) && WholeOpcodes(s[OpLen(s)..])
  }

  ghost predicate ValidSparse(s: seq<Byte>)
  {
    WholeOpcodes(s) && |Decode(s)| == HLL_REGISTERS
  }

  // The first opcode does not depend on what follows it.
  lemma FirstOpcode(a: seq<Byte>, b: seq<Byte>)
    requires a != [] && |a| >= OpLen(a)
    ensures OpLen(a + b) == OpLen(a) && Span(a + b) == Span(a) && RunValue(a + b) == RunValue(a)
    ensures Rest(a) == a[OpLen(a)..] && Rest(a + b) == a[OpLen(a)..] + b
  {
    assert (a + b)[OpLen(a)..] == a[OpLen(a)..] + b;
  }

  lemma {:induction false} WholeAppend(a: seq<Byte>, b: seq<Byte>)
    requires WholeOpcodes(a)
    ensures WholeOpcodes(a + b) <==> WholeOpcodes(b)
    decreases |a|
  {
    if a == [] {
      assert a + b == b;
    } else {
      var n := OpLen(a);
      WholeAppend(a[n..], b);
      assert (a + b)[n..] == a[n..] + b;
    }
  }

  lemma {:induction false} DecodeConcat(a: seq<Byte>, b: seq<Byte>)
    requires WholeOpcodes(a)
    ensures Decode(a + b) == Decode(a) + Decode(b)
    decreases |a|
  {
    if a == [] {
      assert a + b == b;
    } else {
      FirstOpcode(a, b);
      var rest := a[OpLen(a)..];
      DecodeConcat(rest, b);
      Associate(Rep(RunValue(a), Span(a)), Decode(rest), Decode(b));
    }
  }

  lemma DecodeAppend(a: seq<Byte>, b: seq<Byte>)
    requires WholeOpcodes(a)
    ensures Decode(a + b) == Decode(a) + Decode(b)
    ensures WholeOpcodes(a + b) <==> WholeOpcodes(b)
  {
    DecodeConcat(a, b);
    WholeAppend(a, b);
  }

  // The first opcode of t on its own.
  lemma SingleOpcode(t: seq<Byte>, n: nat)
    requires t != [] && n == OpLen(t) <= |t|
    ensures WholeOpcodes(t[..n]) && Decode(t[..n]) == Rep(RunValue(t), Span(t)) && Rest(t) == t[n..]
  {
    var op := t[..n];
    assert t == op + t[n..];
    FirstOpcode(op, t[n..]);
    assert op[n..] == [] && Rest(op) == [];
    assert Decode(op) == Rep(RunValue(op), Span(op)) + [];
  }

  lemma Regroup<T>(a: seq<T>, t: seq<T>, n: nat)
    requires n <= |t|
    ensures (a + t[..n]) + t[n..] == a + t && a <= a + t[..n]
  {
    assert t[..n] + t[n..] == t;
  }

  /* A position p inside the string is the pair of what lies before it and what starts at it. Here the
     opcode at such a position: what it covers, and the position after it. */
  lemma OpcodeAfter(a: seq<Byte>, t: seq<Byte>, n: nat)
    requires WholeOpcodes(a) && WholeOpcodes(a + t) && t != [] && n == OpLen(t)
    ensures n <= |t| && WholeOpcodes(t[n..]) && WholeOpcodes(a + t[..n])
    ensures Decode(a + t) == Decode(a) + (Rep(RunValue(t), Span(t)) + Decode(t[n..]))
    ensures Decode(a + t[..n]) == Decode(a) + Rep(RunValue(t), Span(t))
  {
    DecodeAppend(a, t);
    SingleOpcode(t, n);
    DecodeAppend(a, t[..n]);
  }

  lemma DecodeZeroRun(len: nat)
    requires 1 <= len <= XZERO_MAX_LEN
    ensures WholeOpcodes(ZeroRun(len)) && Decode(ZeroRun(len)) == Rep(0, len)
  {
    var s := ZeroRun(len);
    assert Rest(s) == [] && s[OpLen(s)..] == [];
    assert Rep(0, len) + [] == Rep(0, len);
  }

  lemma DecodeVal(val: nat, len: nat)
    requires 1 <= val <= VAL_MAX_VALUE && 1 <= len <= VAL_MAX_LEN
    ensures WholeOpcodes([ValSet(val, len)]) && Decode([ValSet(val, len)]) == Rep(val, len)
  {
    var s := [ValSet(val, len)];
    assert Rest(s) == [] && s[1..] == [];
    assert Rep(val, len) + [] == Rep(val, len);
  }

  // ---- hllSparseAdd, step 1: find the opcode that covers the register ----

  // `at` starts at a boundary of s, `first` registers are covered before it, and `prev` is an earlier boundary.
  ghost predicate AtOpcode(s: seq<Byte>, prev: seq<Byte>, before: seq<Byte>, at: seq<Byte>, first: nat)
  {
    s == before + at && WholeOpcodes(before) && WholeOpcodes(prev) && prev <= before && |Decode(before)| == first
  }

  lemma AtOpcodeStep(s: seq<Byte>, prev: seq<Byte>, before: seq<Byte>, at: seq<Byte>, first: nat, n: nat)
    requires WholeOpcodes(s) && AtOpcode(s, prev, before, at, first) && at != [] && n == OpLen(at)
    ensures n <= |at| && AtOpcode(s, before, before + at[..n], at[n..], first + Span(at))
  {
    OpcodeAfter(before, at, n);
    Regroup(before, at, n);
  }

  lemma MoreOpcodes(s: seq<Byte>, prev: seq<Byte>, before: seq<Byte>, at: seq<Byte>, first: nat)
    requires ValidSparse(s) && AtOpcode(s, prev, before, at, first) && first < HLL_REGISTERS
    ensures at != []
  {
    assert at == [] ==> before + at == before;
  }

  method Locate(s: seq<Byte>, index: nat)
    returns (prev: seq<Byte>, before: seq<Byte>, at: seq<Byte>, first: nat, span: nat)
    requires ValidSparse(s) && index < HLL_REGISTERS
    ensures AtOpcode(s, prev, before, at, first) && at != [] && span == Span(at)
    ensures first <= index < first + span
  {
    prev, before, at, first, span := [], [], s, 0, 0;
    while true
      invariant AtOpcode(s, prev, before, at, first) && first <= index
      decreases |at|
    {
      MoreOpcodes(s, prev, before, at, first);
      var oplen := OpLen(at);
      span := Span(at);
      if index <= first + span - 1 {
        break;
      }
      AtOpcodeStep(s, prev, before, at, first, oplen);
      prev, before, at, first := before, before + at[..oplen], at[oplen..], first + span;
    }
  }

  // ---- Step 2: split the opcode ----

  // What is left of the run on one side of the register: nothing, a VAL or zeros.
  function Side(isVal: bool, v: nat, i: nat): seq<Byte>
    requires i < if isVal then VAL_MAX_LEN else XZERO_MAX_LEN + 1
    requires isVal ==> 1 <= v <= VAL_MAX_VALUE
  {
    if i == 0 then [] else if isVal then [ValSet(v, i)] else ZeroRun(i)
  }

  function One(count: nat): seq<Byte>
    requires 1 <= count <= VAL_MAX_VALUE
  {
    [ValSet(count, 1)]
  }

  // The opcodes that replace the one at `at`, whose first register is `first`.
  function SplitOpcode(at: seq<Byte>, first: nat, index: nat, count: nat): (r: seq<Byte>)
    requires at != [] && first <= index < first + Span(at) && 1 <= count <= VAL_MAX_VALUE
  {
    SplitRun(IsVal(at[0]), RunValue(at), Span(at), index - first, count)
  }

  // The same for register i of a run of n.
  function SplitRun(isVal: bool, v: nat, n: nat, i: nat, count: nat): seq<Byte>
    requires i < n <= (if isVal then VAL_MAX_LEN else XZERO_MAX_LEN) && 1 <= count <= VAL_MAX_VALUE
    requires isVal ==> 1 <= v <= VAL_MAX_VALUE
  {
    Side(isVal, v, i) + One(count) + Side(isVal, v, n - 1 - i)
  }

  lemma ConcatThree(a: seq<Byte>, b: seq<Byte>, c: seq<Byte>, da: seq<nat>, db: seq<nat>, dc: seq<nat>)
    requires WholeOpcodes(a) && WholeOpcodes(b) && WholeOpcodes(c)
    requires Decode(a) == da && Decode(b) == db && Decode(c) == dc
    ensures WholeOpcodes(a + b + c) && Decode(a + b + c) == da + db + dc
  {
    DecodeAppend(a, b);
    DecodeAppend(a + b, c);
  }

  lemma RepSplit(v: nat, n: nat, i: nat, count: nat)
    requires i < n
    ensures Rep(v, i) + [count] + Rep(v, n - 1 - i) == Rep(v, n)[i := count]
  {
  }

  lemma SideDecodes(isVal: bool, v: nat, i: nat)
    requires i < if isVal then VAL_MAX_LEN else XZERO_MAX_LEN + 1
    requires if isVal then 1 <= v <= VAL_MAX_VALUE else v == 0
    ensures WholeOpcodes(Side(isVal, v, i)) && Decode(Side(isVal, v, i)) == Rep(v, i)
  {
    if i != 0 {
      if isVal { DecodeVal(v, i); } else { DecodeZeroRun(i); }
    }
  }

  lemma OneDecodes(count: nat)
    requires 1 <= count <= VAL_MAX_VALUE
    ensures WholeOpcodes(One(count)) && Decode(One(count)) == [count]
  {
    DecodeVal(count, 1);
    assert Rep(count, 1) == [count];
  }

  lemma Pieces(a: seq<Byte>, b: seq<Byte>, c: seq<Byte>, v: nat, n: nat, i: nat, count: nat)
    requires i < n && WholeOpcodes(a) && WholeOpcodes(b) && WholeOpcodes(c)
    requires Decode(a) == Rep(v, i) && Decode(b) == [count] && Decode(c) == Rep(v, n - 1 - i)
    ensures WholeOpcodes(a + b + c) && Decode(a + b + c) == Rep(v, n)[i := count]
  {
    ConcatThree(a, b, c, Rep(v, i), [count], Rep(v, n - 1 - i));
    RepSplit(v, n, i, count);
  }

  // The pieces stand for the run with one register changed.
  lemma SplitDecodes(at: seq<Byte>, first: nat, index: nat, count: nat)
    requires at != [] && first <= index < first + Span(at) && 1 <= count <= VAL_MAX_VALUE && Span(at) <= XZERO_MAX_LEN
    ensures WholeOpcodes(SplitOpcode(at, first, index, count))
    ensures Decode(SplitOpcode(at, first, index, count)) == Rep(RunValue(at), Span(at))[index - first := count]
  {
    SplitRunDecodes(IsVal(at[0]), RunValue(at), Span(at), index - first, count);
  }

  lemma SplitRunDecodes(isVal: bool, v: nat, n: nat, i: nat, count: nat)
    requires i < n <= (if isVal then VAL_MAX_LEN else XZERO_MAX_LEN) && 1 <= count <= VAL_MAX_VALUE
    requires if isVal then 1 <= v <= VAL_MAX_VALUE else v == 0
    ensures var r := SplitRun(isVal, v, n, i, count); WholeOpcodes(r) && Decode(r) == Rep(v, n)[i := count]
  {
    OneDecodes(count);
    SideDecodes(isVal, v, i);
    SideDecodes(isVal, v, n - 1 - i);
    Pieces(Side(isVal, v, i), One(count), Side(isVal, v, n - 1 - i), v, n, i, count);
  }

  // ---- Step 3: put the new opcodes in place of the old one ----

  lemma Covered(s: seq<Byte>, prev: seq<Byte>, before: seq<Byte>, at: seq<Byte>, first: nat, n: nat)
    requires ValidSparse(s) && AtOpcode(s, prev, before, at, first) && at != [] && n == OpLen(at)
    ensures n <= |at| && WholeOpcodes(at[n..]) && Span(at) <= XZERO_MAX_LEN
    ensures Decode(s) == Decode(before) + (Rep(RunValue(at), Span(at)) + Decode(at[n..]))
    ensures first + Span(at) <= HLL_REGISTERS
  {
    OpcodeAfter(before, at, n);
  }

  // The register that is looked for has the value of the run it is in.
  lemma CoveredValue(s: seq<Byte>, prev: seq<Byte>, before: seq<Byte>, at: seq<Byte>, first: nat, index: nat)
    requires ValidSparse(s) && AtOpcode(s, prev, before, at, first) && at != [] && first <= index < first + Span(at)
    ensures index < |Decode(s)| && Decode(s)[index] == RunValue(at)
  {
    var n := OpLen(at);
    Covered(s, prev, before, at, first, n);
    UpdateMiddle(Decode(before), Rep(RunValue(at), Span(at)), Decode(at[n..]), index - first, 0);
  }

  lemma ReplacePieces(before: seq<Byte>, pieces: seq<Byte>, tail: seq<Byte>, run: seq<nat>, i: nat, count: nat)
    requires WholeOpcodes(before) && WholeOpcodes(pieces) && WholeOpcodes(tail) && i < |run|
    requires Decode(pieces) == run[i := count]
    ensures WholeOpcodes(before + pieces + tail)
    ensures |Decode(before)| + i < |Decode(before) + (run + Decode(tail))|
    ensures Decode(before + pieces + tail) ==
            (Decode(before) + (run + Decode(tail)))[|Decode(before)| + i := count]
  {
    ConcatThree(before, pieces, tail, Decode(before), run[i := count], Decode(tail));
    UpdateMiddle(Decode(before), run, Decode(tail), i, count);
  }

  // The substitution changes exactly the register that is being updated.
  lemma Substituted(s: seq<Byte>, prev: seq<Byte>, before: seq<Byte>, at: seq<Byte>, first: nat, index: nat, count: nat,
                    pieces: seq<Byte>, n: nat)
    requires ValidSparse(s) && AtOpcode(s, prev, before, at, first) && at != [] && n == OpLen(at) <= |at|
    requires first <= index < first + Span(at) && 1 <= count <= VAL_MAX_VALUE
    requires pieces == SplitOpcode(at, first, index, count)
    ensures WholeOpcodes(before + pieces + at[n..]) && index < |Decode(s)|
    ensures Decode(before + pieces + at[n..]) == Decode(s)[index := count]
  {
    Covered(s, prev, before, at, first, n);
    SplitDecodes(at, first, index, count);
    ReplacePieces(before, pieces, at[n..], Rep(RunValue(at), Span(at)), index - first, count);
  }

  lemma UpdateMiddle(a: seq<nat>, b: seq<nat>, c: seq<nat>, i: nat, x: nat)
    requires i < |b|
    ensures |a + (b + c)| > |a| + i && (a + (b + c))[|a| + i] == b[i]
    ensures a + b[i := x] + c == (a + (b + c))[|a| + i := x]
  {
  }

  // ---- Step 4: merge adjacent VAL opcodes ----

  // Two VALs of one value become one.
  lemma TwoVals(at: seq<Byte>, tail: seq<Byte>, v: nat, l0: nat, l1: nat)
    requires WholeOpcodes(at) && |at| >= 2 && IsVal(at[0]) && IsVal(at[1]) && tail == at[2..]
    requires v == ValValue(at[0]) == ValValue(at[1]) && l0 == ValLen(at[0]) && l1 == ValLen(at[1])
    ensures WholeOpcodes(tail) && Decode(at) == Rep(v, l0 + l1) + Decode(tail)
  {
    assert Rest(at) == at[1..] && Rest(at[1..]) == at[1..][1..] == tail;
    assert Decode(at[1..]) == Rep(v, l1) + Decode(tail);
    RepJoin(v, l0, l1, Decode(tail));
  }

  lemma OneVal(op: Byte, tail: seq<Byte>, v: nat, l: nat)
    requires IsVal(op) && ValValue(op) == v && ValLen(op) == l && WholeOpcodes(tail)
    ensures var t := [op] + tail; WholeOpcodes(t) && Decode(t) == Rep(v, l) + Decode(tail)
  {
    var t := [op] + tail;
    assert t[1..] == tail && Rest(t) == tail;
  }

  lemma MergeVals(at: seq<Byte>, tail: seq<Byte>, op: Byte, v: nat, l0: nat, l1: nat)
    requires WholeOpcodes(at) && |at| >= 2 && IsVal(at[0]) && IsVal(at[1]) && tail == at[2..]
    requires v == ValValue(at[0]) == ValValue(at[1]) && l0 == ValLen(at[0]) && l1 == ValLen(at[1])
    requires IsVal(op) && ValValue(op) == v && ValLen(op) == l0 + l1
    ensures WholeOpcodes([op] + tail) && Decode([op] + tail) == Decode(at)
  {
    TwoVals(at, tail, v, l0, l1);
    OneVal(op, tail, v, l0 + l1);
  }

  // What follows can be replaced by what decodes to the same.
  lemma ReplaceTail(before: seq<Byte>, t: seq<Byte>, u: seq<Byte>)
    requires WholeOpcodes(before) && WholeOpcodes(before + t)
    ensures WholeOpcodes(t)
    ensures WholeOpcodes(u) && Decode(u) == Decode(t) ==>
            WholeOpcodes(before + u) && Decode(before + u) == Decode(before + t)
  {
    DecodeAppend(before, t);
    DecodeAppend(before, u);
  }

  // Two VALs at the front that fit into one.
  predicate Joins(x: seq<Byte>)
  {
    && |x| > 1 && IsVal(x[0]) && IsVal(x[1]) && ValValue(x[0]) == ValValue(x[1])
    && ValLen(x[0]) + ValLen(x[1]) <= VAL_MAX_LEN
  }

  function Joined(at: seq<Byte>): seq<Byte>
    requires Joins(at)
  {
    [ValSet(ValValue(at[0]), ValLen(at[0]) + ValLen(at[1]))] + at[2..]
  }

  lemma JoinedDecodes(at: seq<Byte>)
    requires WholeOpcodes(at) && Joins(at)
    ensures WholeOpcodes(Joined(at)) && Decode(Joined(at)) == Decode(at)
  {
    var v, l0, l1 := ValValue(at[0]), ValLen(at[0]), ValLen(at[1]);
    MergeVals(at, at[2..], ValSet(v, l0 + l1), v, l0, l1);
  }

  lemma MergeTwo(before: seq<Byte>, at: seq<Byte>, u: seq<Byte>)
    requires WholeOpcodes(before + at) && WholeOpcodes(before) && Joins(at) && u == Joined(at)
    ensures WholeOpcodes(before + u) && Decode(before + u) == Decode(before + at)
  {
    ReplaceTail(before, at, u);
    JoinedDecodes(at);
  }

  lemma RepJoin(v: nat, m: nat, n: nat, t: seq<nat>)
    ensures Rep(v, m) + (Rep(v, n) + t) == Rep(v, m + n) + t
  {
  }

  // None of the first k opcodes could be joined with the one after it.
  predicate Settled(x: seq<Byte>, k: nat)
    decreases k
  {
    k == 0 || x == [] || (!Joins(x) && Settled(Rest(x), k - 1))
  }

  // The string is k opcodes.
  predicate Opcodes(x: seq<Byte>, k: nat)
  {
    if k == 0 then x == [] else x != [] && |x| >= OpLen(x) && Opcodes(x[OpLen(x)..], k - 1)
  }

  // The next opcode joins the settled ones if it cannot be joined itself.
  lemma {:induction false} SettleOne(mid: seq<Byte>, at: seq<Byte>, n: nat, k: nat)
    requires Opcodes(mid, k) && Settled(mid + at, k) && at != [] && n == OpLen(at) <= |at| && !Joins(at)
    ensures Opcodes(mid + at[..n], k + 1) && Settled(mid + at, k + 1)
    decreases k
  {
    if k == 0 {
      assert mid + at == at && mid + at[..n] == at[..n] && at[..n][n..] == [];
    } else {
      var m := OpLen(mid);
      FirstOpcode(mid, at);
      FirstOpcode(mid, at[..n]);
      SettleOne(mid[m..], at, n, k - 1);
      assert (mid + at[..n])[m..] == mid[m..] + at[..n];
    }
  }

  // A VAL that grows cannot be joined with the one before it if it could not before.
  lemma {:induction false} SettledStays(mid: seq<Byte>, at: seq<Byte>, at': seq<Byte>, k: nat)
    requires Opcodes(mid, k) && Settled(mid + at, k) && at != [] && at' != [] && IsVal(at[0]) && IsVal(at'[0])
    requires ValValue(at'[0]) == ValValue(at[0]) && ValLen(at'[0]) >= ValLen(at[0])
    ensures Settled(mid + at', k)
    decreases k
  {
    if k > 0 {
      var m := OpLen(mid);
      FirstOpcode(mid, at);
      FirstOpcode(mid, at');
      SettledStays(mid[m..], at, at', k - 1);
      assert |mid| > 1 ==> (mid + at)[1] == (mid + at')[1] == mid[1];
      assert |mid| == 1 ==> (mid + at)[1] == at[0] && (mid + at')[1] == at'[0];
    }
  }

  lemma {:induction false} SettledToTheEnd(mid: seq<Byte>, k: nat, j: nat)
    requires Opcodes(mid, k) && Settled(mid, k)
    ensures Settled(mid, j)
    decreases k
  {
    if k > 0 && j > 0 {
      assert Rest(mid) == mid[OpLen(mid)..];
      SettledToTheEnd(mid[OpLen(mid)..], k - 1, j - 1);
    }
  }

  // Where the scan is: `done` turns have been made or are still to come, the others have shortened the string.
  ghost predicate Passing(s: seq<Byte>, before: seq<Byte>, at: seq<Byte>, done: nat)
  {
    && WholeOpcodes(before + at) && WholeOpcodes(before) && Decode(before + at) == Decode(s)
    && done + (|s| - |before + at|) == 5 && |before + at| <= |s|
  }

  // And the opcodes it has left behind since `start`.
  ghost predicate Behind(start: seq<Byte>, before: seq<Byte>, mid: seq<Byte>, at: seq<Byte>, k: nat)
  {
    before == start + mid && Opcodes(mid, k) && Settled(mid + at, k)
  }

  lemma PassingStart(s: seq<Byte>, start: seq<Byte>)
    requires WholeOpcodes(s) && WholeOpcodes(start) && start <= s
    ensures Passing(s, start, s[|start|..], 5) && Behind(start, start, [], s[|start|..], 0)
  {
    assert start + [] == start && start + s[|start|..] == s;
  }

  lemma PassingJoin(s: seq<Byte>, before: seq<Byte>, at: seq<Byte>, joined: seq<Byte>, done: nat)
    requires Passing(s, before, at, done) && done > 0 && Joins(at)
    requires joined == Joined(at)
    ensures Passing(s, before, joined, done - 1)
  {
    MergeTwo(before, at, joined);
  }

  lemma PassingOn(s: seq<Byte>, before: seq<Byte>, at: seq<Byte>, n: nat, done: nat)
    requires Passing(s, before, at, done) && at != [] && n == OpLen(at)
    ensures n <= |at| && Passing(s, before + at[..n], at[n..], done)
  {
    OpcodeAfter(before, at, n);
    Regroup(before, at, n);
  }

  lemma BehindOn(start: seq<Byte>, before: seq<Byte>, mid: seq<Byte>, at: seq<Byte>, n: nat, k: nat)
    requires Behind(start, before, mid, at, k) && at != [] && n == OpLen(at) <= |at| && !Joins(at)
    ensures Behind(start, before + at[..n], mid + at[..n], at[n..], k + 1)
  {
    SettleOne(mid, at, n, k);
    Associate(start, mid, at[..n]);
    assert (mid + at[..n]) + at[n..] == mid + at;
  }

  /* The scan over at most five opcodes from the one before the edit. Each of its five turns either joins two VALs or
     leaves an opcode behind that cannot be joined with the next, unless the string ends first. */
  method MergePass(s: seq<Byte>, start: seq<Byte>) returns (r: seq<Byte>, ghost scanned: nat)
    requires WholeOpcodes(s) && WholeOpcodes(start) && start <= s
    ensures WholeOpcodes(r) && Decode(r) == Decode(s) && |r| <= |s| && start <= r
    ensures Settled(r[|start|..], scanned)
    ensures scanned + (|s| - |r|) == 5 || Settled(r[|start|..], |r|)
  {
    var before, at, scanlen: nat := start, s[|start|..], 5;
    ghost var mid: seq<Byte> := [];
    scanned := 0;
    PassingStart(s, start);
    while at != [] && scanlen > 0
      invariant Passing(s, before, at, scanned + scanlen) && Behind(start, before, mid, at, scanned)
      decreases scanlen
    {
      before, at, mid, scanned := PassTurn(s, start, before, at, mid, scanned, scanlen);
      scanlen := scanlen - 1;
    }
    r := before + at;
    PassDone(start, mid, at, r, scanned);
  }

  // One turn: two VALs become one, or the scan goes on to the next opcode.
  method PassTurn(ghost s: seq<Byte>, ghost start: seq<Byte>, before: seq<Byte>, at: seq<Byte>, ghost mid: seq<Byte>,
                  ghost k: nat, ghost left: nat)
    returns (front: seq<Byte>, rest: seq<Byte>, ghost behind: seq<Byte>, ghost count: nat)
    requires Passing(s, before, at, k + left) && Behind(start, before, mid, at, k) && at != [] && left > 0
    ensures Passing(s, front, rest, count + left - 1) && Behind(start, front, behind, rest, count)
  {
    front, rest, behind, count := before, at, mid, k;
    if Joins(at) {
      rest := Joined(at);
      PassingJoin(s, before, at, rest, k + left);
      SettledStays(mid, at, rest, k);
    } else {
      var n := OpLen(at);
      PassingOn(s, before, at, n, k + left);
      BehindOn(start, before, mid, at, n, k);
      front, rest := before + at[..n], at[n..];
      behind, count := mid + at[..n], k + 1;
    }
  }

  lemma PassDone(start: seq<Byte>, mid: seq<Byte>, at: seq<Byte>, r: seq<Byte>, k: nat)
    requires r == (start + mid) + at && Opcodes(mid, k) && Settled(mid + at, k)
    ensures start <= r && Settled(r[|start|..], k) && (at == [] ==> Settled(r[|start|..], |r|))
  {
    assert r[|start|..] == mid + at;
    if at == [] {
      assert mid + at == mid;
      SettledToTheEnd(mid, k, |r|);
    }
  }
}
