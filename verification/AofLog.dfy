/**
The append-only log: commands printed in the Redis protocol, and the loader that reads them back,
including what it does with a log that stops in the middle of a command.
*/
module AofLog {
  import opened Basics

  type Command = seq<string>

  const CRLF: string := "\r\n"
  const FGETS_MAX: nat := 127   // char buf[128] with its terminating null

  // ---- Printing ----

  function DigitChar(d: nat): char
    requires d < 10
  {
    "0123456789"[d]
  }

  // ll2string on a non-negative number
  function Dec(n: nat): (s: string)
    ensures s != []
  {
    if n < 10 then [DigitChar(n)] else Dec(n / 10) + [DigitChar(n % 10)]
  }

  function PrintArg(a: string): string { "$" + Dec(|a|) + CRLF + a + CRLF }

  function PrintArgs(args: seq<string>): string
  {
    if args == [] then "" else PrintArg(args[0]) + PrintArgs(args[1..])
  }

  function Print(cmd: Command): string { "*" + Dec(|cmd|) + CRLF + PrintArgs(cmd) }

  function PrintLog(cmds: seq<Command>): string
  {
    if cmds == [] then "" else Print(cmds[0]) + PrintLog(cmds[1..])
  }

  // catAppendOnlyGenericCommand
  method CatCommand(dst: string, cmd: Command) returns (r: string)
    ensures r == dst + Print(cmd)
  {
    r := dst + "*" + Dec(|cmd|) + CRLF;
    ghost var head := r;
    var j := 0;
    assert cmd[..0] == [];
    while j < |cmd|
      invariant 0 <= j <= |cmd|
      invariant r == head + PrintArgs(cmd[..j])
    {
      var o := cmd[j];
      assert cmd[..j + 1] == cmd[..j] + [o];
      PrintArgsAppend(cmd[..j], o);
      r := r + ("$" + Dec(|o|) + CRLF);
      r := r + o;
      r := r + CRLF;
      CatPieces(head, PrintArgs(cmd[..j]), "$" + Dec(|o|) + CRLF, o, CRLF);
      j := j + 1;
    }
    assert cmd[..|cmd|] == cmd;
  }

  lemma CatPieces(head: string, done: string, h: string, o: string, c: string)
    ensures head + done + h + o + c == head + (done + (h + o + c))
  {
    assert head + done + h + o + c == head + (done + h + o + c);
    assert done + h + o + c == done + (h + o + c);
  }

  lemma {:induction false} PrintArgsAppend(args: seq<string>, a: string)
    ensures PrintArgs(args + [a]) == PrintArgs(args) + PrintArg(a)
  {
    if args == [] {
      assert [a][1..] == [];
      assert args + [a] == [a];
    } else {
      PrintArgsAppend(args[1..], a);
      assert (args + [a])[1..] == args[1..] + [a];
    }
  }

  // ---- Reading ----

  predicate IsDigit(c: char) { '0' <= c <= '9' }

  predicate IsSpace(c: char) { c == ' ' || c == '\t' || c == '\n' || c == '\r' || c == 11 as char || c == 12 as char }

  function DigitsValue(s: string, acc: nat): nat
  {
    if s == "" || !IsDigit(s[0]) then acc
    else DigitsValue(s[1..], acc * 10 + (s[0] as nat - '0' as nat))
  }

  function SkipSpace(s: string): string
  {
    if s != "" && IsSpace(s[0]) then SkipSpace(s[1..]) else s
  }

  // atoi and strtol in base 10
  function Atoi(s: string): int
  {
    var t := SkipSpace(s);
    if t != "" && t[0] == '-' then -(DigitsValue(t[1..], 0) as int)
    else if t != "" && t[0] == '+' then DigitsValue(t[1..], 0)
    else DigitsValue(t, 0)
  }

  // How many characters fgets takes: up to and including a newline, at most `max`.
  function LineLen(t: string, max: nat): (n: nat)
    ensures n <= |t| && n <= max
    ensures t != "" && max > 0 ==> n > 0
  {
    if t == "" || max == 0 then 0
    else if t[0] == '\n' then 1
    else 1 + LineLen(t[1..], max - 1)
  }

  datatype Read<T> = Got(value: T, rest: string) | EndOfFile | Fatal

  // The loop over the arguments of one command (aof.c 654-675).
  function LoadArgs(t: string, argc: nat): (r: Read<seq<string>>)
    ensures r.Got? ==> |r.rest| <= |t| && |r.value| == argc
  {
    if argc == 0 then Got([], t)
    else if t == "" then EndOfFile
    else
      var n := LineLen(t, FGETS_MAX);
      var line, rest := t[..n], t[n..];
      if line[0] != '$' then Fatal
      else
        var len := Atoi(line[1..]);
        if len < 0 then Fatal                                 // a negative length asks for too much memory
        else if |rest| < len then EndOfFile                   // fread of the argument
        else if |rest| < len + 2 then EndOfFile               // fread of the CRLF
        else
          match LoadArgs(rest[len + 2..], argc - 1)
          case Got(args, rest') => Got([rest[..len]] + args, rest')
          case EndOfFile => EndOfFile
          case Fatal => Fatal
  }

  // One round of the loader's main loop, at a position that is not the end of the file.
  function LoadCommand(t: string): (r: Read<Command>)
    requires t != ""
    ensures r.Got? ==> |r.rest| < |t| && r.value != []
  {
    var n := LineLen(t, FGETS_MAX);
    var line, rest := t[..n], t[n..];
    if line[0] != '*' then Fatal
    else if |line| == 1 then (if rest == "" then EndOfFile else Fatal)
    else if line[1] == 0 as char then (if rest == "" && line[n - 1] != '\n' then EndOfFile else Fatal)
    else
      var argc := Atoi(line[1..]);
      if argc < 1 then Fatal else LoadArgs(rest, argc)
  }

  // What the loader executed, how far the log was valid, and how it ended.
  datatype Outcome = Complete | Truncated | BadFormat
  datatype Loaded = Loaded(cmds: seq<Command>, validUpTo: nat, outcome: Outcome)

  // loadAppendOnlyFile on a file that is not empty; `validUpTo` as with aof-load-truncated.
  function Load(t: string): (r: Loaded)
    ensures r.validUpTo <= |t|
    decreases |t|
  {
    if t == "" then Loaded([], 0, Complete)
    else
      match LoadCommand(t)
      case EndOfFile => Loaded([], 0, Truncated)
      case Fatal => Loaded([], 0, BadFormat)
      case Got(cmd, rest) =>
        var r := Load(rest);
        Loaded([cmd] + r.cmds, |t| - |rest| + r.validUpTo, r.outcome)
  }

  // One command off the front of the file.
  lemma LoadStep(t: string, cmd: Command, rest: string, r: Loaded)
    requires t != "" && LoadCommand(t) == Got(cmd, rest) && r == Load(rest)
    ensures Load(t) == Loaded([cmd] + r.cmds, |t| - |rest| + r.validUpTo, r.outcome)
  {
    match LoadCommand(t)
    case Got(_, _) =>
  }

  // ---- Numbers and lines ----

  lemma {:induction false} DecIsDigits(n: nat)
    ensures forall i :: 0 <= i < |Dec(n)| ==> IsDigit(Dec(n)[i])
    ensures n > 0 ==> Dec(n)[0] != '0'
  {
    if n >= 10 {
      DecIsDigits(n / 10);
    }
  }

  // Reading a printed number gives the number back and stops at the first other character.
  lemma {:induction false} DecValue(n: nat, t: string)
    ensures DigitsValue(Dec(n) + t, 0) == DigitsValue(t, n)
  {
    var d := DigitChar(n % 10);
    if n < 10 {
      assert ([d] + t)[1..] == t;
    } else {
      assert Dec(n) + t == Dec(n / 10) + ([d] + t);
      DecValue(n / 10, [d] + t);
      assert ([d] + t)[1..] == t;
    }
  }

  lemma AtoiOfDec(n: nat, t: string)
    requires t == "" || !IsDigit(t[0])
    ensures Atoi(Dec(n) + t) == n
  {
    DecIsDigits(n);
    DecValue(n, t);
    assert IsDigit((Dec(n) + t)[0]);
  }

  function Pow10(k: nat): (p: nat)
    ensures p > 0
  {
    if k == 0 then 1 else 10 * Pow10(k - 1)
  }

  lemma {:induction false} DecShort(n: nat, k: nat)
    requires n < Pow10(k) && k >= 1
    ensures |Dec(n)| <= k
  {
    if n >= 10 {
      DecShort(n / 10, k - 1);
    }
  }

  // Lengths and argument counts that fit the C types.
  const LIMIT: nat := 0x8000_0000_0000_0000

  lemma DecOfLimit(n: nat)
    requires n < LIMIT
    ensures |Dec(n)| <= 20
  {
    assert Pow10(5) == 100000;
    Pow10Sum(5, 5);
    Pow10Sum(10, 10);
    DecShort(n, 20);
  }

  lemma {:induction false} Pow10Sum(a: nat, b: nat)
    ensures Pow10(a + b) == Pow10(a) * Pow10(b)
  {
    if a > 0 {
      Pow10Sum(a - 1, b);
    }
  }

  // A line that ends in a newline within the limit is read whole.
  lemma {:induction false} WholeLine(x: string, t: string, max: nat)
    requires forall i :: 0 <= i < |x| ==> x[i] != '\n'
    requires |x| < max
    ensures LineLen(x + "\n" + t, max) == |x| + 1
  {
    var s := x + "\n" + t;
    if x != "" {
      WholeLine(x[1..], t, max - 1);
      assert s[1..] == x[1..] + "\n" + t;
    }
  }

  // Without a newline, everything up to the limit.
  lemma {:induction false} LastLine(x: string, max: nat)
    requires forall i :: 0 <= i < |x| ==> x[i] != '\n'
    requires |x| <= max
    ensures LineLen(x, max) == |x|
  {
    if x != "" {
      LastLine(x[1..], max - 1);
    }
  }

  // `c` a marker, then a printed number and CRLF: the header lines of the log.
  function Header(c: char, n: nat): string { [c] + Dec(n) + CRLF }

  lemma HeaderLine(c: char, n: nat, t: string)
    requires c != '\n' && n < LIMIT
    ensures LineLen(Header(c, n) + t, FGETS_MAX) == |Header(c, n)|
    ensures (Header(c, n) + t)[..|Header(c, n)|] == Header(c, n)
    ensures (Header(c, n) + t)[|Header(c, n)|..] == t
    ensures Atoi(Header(c, n)[1..]) == n
  {
    var x := [c] + Dec(n) + "\r";
    DecIsDigits(n);
    DecOfLimit(n);
    WholeLine(x, t, FGETS_MAX);
    assert Header(c, n) + t == x + "\n" + t;
    assert Header(c, n)[1..] == Dec(n) + CRLF;
    AtoiOfDec(n, CRLF);
  }

  // ---- Round trip ----

  ghost predicate Loadable(cmd: Command)
  {
    0 < |cmd| < LIMIT && forall i :: 0 <= i < |cmd| ==> |cmd[i]| < LIMIT
  }

  // One argument, seen as its header line, its text with CRLF, and the rest.
  lemma ArgStep(line: string, len: nat, a: string, q: string, argc: nat)
    requires line != "" && line[0] == '$' && Atoi(line[1..]) == len && |a| == len + 2 && argc > 0
    requires LineLen(line + (a + q), FGETS_MAX) == |line|
    ensures LoadArgs(line + (a + q), argc) ==
            match LoadArgs(q, argc - 1)
            case Got(args, r) => Got([a[..len]] + args, r)
            case EndOfFile => EndOfFile
            case Fatal => Fatal
  {
    var t, body := line + (a + q), a + q;
    assert t[..|line|] == line && t[|line|..] == body;
    assert body[len + 2..] == q && body[..len] == a[..len];
  }

  lemma PrintArgParts(a: string, more: string, t: string)
    ensures (PrintArg(a) + more) + t == Header('$', |a|) + (a + CRLF + (more + t))
  {
    assert PrintArg(a) == Header('$', |a|) + (a + CRLF);
  }

  lemma {:induction false} LoadPrintedArgs(args: seq<string>, t: string)
    requires forall i :: 0 <= i < |args| ==> |args[i]| < LIMIT
    ensures LoadArgs(PrintArgs(args) + t, |args|) == Got(args, t)
  {
    if args == [] {
      assert "" + t == t;
    } else {
      var a, tail := args[0], PrintArgs(args[1..]) + t;
      LoadPrintedArgs(args[1..], t);
      PrintArgParts(a, PrintArgs(args[1..]), t);
      HeaderLine('$', |a|, a + CRLF + tail);
      ArgStep(Header('$', |a|), |a|, a + CRLF, tail, |args|);
      assert (a + CRLF)[..|a|] == a;
      assert args == [a] + args[1..];
    }
  }

  lemma LoadPrinted(cmd: Command, t: string)
    requires Loadable(cmd)
    ensures Print(cmd) + t != "" && LoadCommand(Print(cmd) + t) == Got(cmd, t)
  {
    var body := PrintArgs(cmd) + t;
    assert Print(cmd) + t == Header('*', |cmd|) + body;
    HeaderLine('*', |cmd|, body);
    DecIsDigits(|cmd|);
    assert Header('*', |cmd|)[1] == Dec(|cmd|)[0];
    LoadPrintedArgs(cmd, t);
  }

  // Loading the printed form of any list of commands gives the list back.
  lemma {:induction false} RoundTrip(cmds: seq<Command>)
    requires forall i :: 0 <= i < |cmds| ==> Loadable(cmds[i])
    ensures Load(PrintLog(cmds)) == Loaded(cmds, |PrintLog(cmds)|, Complete)
  {
    if cmds != [] {
      RoundTrip(cmds[1..]);
      LoadPrinted(cmds[0], PrintLog(cmds[1..]));
      assert cmds == [cmds[0]] + cmds[1..];
    }
  }

  // ---- Logs that are damaged ----

  // What follows a valid log is loaded as it would be alone.
  lemma {:induction false} LoadAfter(cmds: seq<Command>, p: string, t: string, r: Loaded)
    requires p == PrintLog(cmds) && r == Load(t) && forall i :: 0 <= i < |cmds| ==> Loadable(cmds[i])
    ensures Load(p + t) == Loaded(cmds + r.cmds, |p| + r.validUpTo, r.outcome)
  {
    if cmds == [] {
      NothingBefore(t);
      NothingBefore(r.cmds);
    } else {
      var q := PrintLog(cmds[1..]);
      LoadAfter(cmds[1..], q, t, r);
      AfterStep(cmds[0], cmds[1..], q, t, r);
      FirstOfSum(cmds, r.cmds);
    }
  }

  lemma NothingBefore<T>(t: seq<T>)
    ensures [] + t == t
  {
  }

  lemma FirstOfSum<T>(a: seq<T>, b: seq<T>)
    requires a != []
    ensures a + b == [a[0]] + (a[1..] + b)
  {
  }

  lemma AfterStep(cmd: Command, cmds: seq<Command>, p: string, t: string, r: Loaded)
    requires Loadable(cmd) && Load(p + t) == Loaded(cmds + r.cmds, |p| + r.validUpTo, r.outcome)
    ensures Load((Print(cmd) + p) + t) ==
            Loaded([cmd] + (cmds + r.cmds), |Print(cmd) + p| + r.validUpTo, r.outcome)
  {
    LoadPrinted(cmd, p + t);
    Associate(Print(cmd), p, t);
    LoadStep(Print(cmd) + (p + t), cmd, p + t, Load(p + t));
  }

  // A command that cannot be read ends the load there, with the error, after all the commands before it.
  lemma DamageIsReported(cmds: seq<Command>, t: string)
    requires t != "" && LoadCommand(t) == Fatal && forall i :: 0 <= i < |cmds| ==> Loadable(cmds[i])
    ensures Load(PrintLog(cmds) + t) == Loaded(cmds, |PrintLog(cmds)|, BadFormat)
  {
    LoadAfter(cmds, PrintLog(cmds), t, Load(t));
    assert cmds + [] == cmds;
  }

  // A line that does not start with '*' where a command should be.
  lemma BadLine(cmds: seq<Command>, t: string)
    requires t != "" && t[0] != '*' && forall i :: 0 <= i < |cmds| ==> Loadable(cmds[i])
    ensures Load(PrintLog(cmds) + t) == Loaded(cmds, |PrintLog(cmds)|, BadFormat)
  {
    DamageIsReported(cmds, t);
  }

  // A whole line with a number of arguments below one: zero, negative or not a number.
  lemma BadCount(cmds: seq<Command>, x: string, t: string)
    requires 0 < |x| < FGETS_MAX - 1 && (forall i :: 0 <= i < |x| ==> x[i] != '\n') && Atoi(x + "\n") < 1
    requires forall i :: 0 <= i < |cmds| ==> Loadable(cmds[i])
    ensures Load(PrintLog(cmds) + ("*" + x + "\n" + t)) == Loaded(cmds, |PrintLog(cmds)|, BadFormat)
  {
    var u := "*" + x + "\n" + t;
    WholeLine("*" + x, t, FGETS_MAX);
    var n := |x| + 2;
    assert u[..n] == "*" + x + "\n" && u[..n][1..] == x + "\n";
    DamageIsReported(cmds, u);
  }

  // `fails` is passed on over whole arguments.
  ghost predicate PassesOn(fails: (string, nat) -> bool)
  {
    forall a: string, q: string, argc: nat {:trigger fails(PrintArg(a) + q, argc)} ::
      |a| < LIMIT && argc > 0 && fails(q, argc - 1) ==> fails(PrintArg(a) + q, argc)
  }

  lemma {:induction false} FailsLater(fails: (string, nat) -> bool, args: seq<string>, u: string, argc: nat)
    requires PassesOn(fails) && |args| < argc && fails(u, argc - |args|)
    requires forall i :: 0 <= i < |args| ==> |args[i]| < LIMIT
    ensures fails(PrintArgs(args) + u, argc)
  {
    if args == [] {
      NothingBefore(u);
    } else {
      var a, more := args[0], PrintArgs(args[1..]);
      FailsLater(fails, args[1..], u, argc - 1);
      assert fails(PrintArg(a) + (more + u), argc);
      Associate(PrintArg(a), more, u);
    }
  }

  predicate Unreadable(t: string, argc: nat) { LoadArgs(t, argc) == Fatal }

  lemma UnreadablePassesOn()
    ensures PassesOn(Unreadable)
  {
    forall a: string, q: string, argc: nat | |a| < LIMIT && argc > 0 && Unreadable(q, argc - 1)
      ensures Unreadable(PrintArg(a) + q, argc)
    {
      SkipArg(a, q, argc);
    }
  }

  lemma NoDollar(u: string, argc: nat)
    requires argc > 0 && u != "" && u[0] != '$'
    ensures Unreadable(u, argc)
  {
  }

  lemma NegativeLength(x: string, t: string, argc: nat)
    requires argc > 0 && |x| < FGETS_MAX - 1 && (forall i :: 0 <= i < |x| ==> x[i] != '\n') && Atoi(x + "\n") < 0
    ensures Unreadable("$" + x + "\n" + t, argc)
  {
    var u := "$" + x + "\n" + t;
    WholeLine("$" + x, t, FGETS_MAX);
    var n := |x| + 2;
    assert u[..n] == "$" + x + "\n" && u[..n][1..] == x + "\n";
  }

  // After a header and some whole arguments, something that cannot be read as the next argument.
  lemma UnreadableArg(cmds: seq<Command>, argc: nat, args: seq<string>, u: string)
    requires |args| < argc < LIMIT && Unreadable(u, argc - |args|) && forall i :: 0 <= i < |args| ==> |args[i]| < LIMIT
    requires forall i :: 0 <= i < |cmds| ==> Loadable(cmds[i])
    ensures Load(PrintLog(cmds) + (Header('*', argc) + (PrintArgs(args) + u))) ==
            Loaded(cmds, |PrintLog(cmds)|, BadFormat)
  {
    var body := PrintArgs(args) + u;
    HeaderLine('*', argc, body);
    DecIsDigits(argc);
    assert Header('*', argc)[1] == Dec(argc)[0];
    CommandStep(Header('*', argc), body, argc);
    UnreadablePassesOn();
    FailsLater(Unreadable, args, u, argc);
    DamageIsReported(cmds, Header('*', argc) + body);
  }

  // A line that does not start with '$' where an argument should be.
  lemma BadArg(cmds: seq<Command>, argc: nat, args: seq<string>, u: string)
    requires |args| < argc < LIMIT && u != "" && u[0] != '$' && forall i :: 0 <= i < |args| ==> |args[i]| < LIMIT
    requires forall i :: 0 <= i < |cmds| ==> Loadable(cmds[i])
    ensures Load(PrintLog(cmds) + (Header('*', argc) + (PrintArgs(args) + u))) ==
            Loaded(cmds, |PrintLog(cmds)|, BadFormat)
  {
    NoDollar(u, argc - |args|);
    UnreadableArg(cmds, argc, args, u);
  }

  // A whole line with a negative length where an argument should be.
  lemma BadLength(cmds: seq<Command>, argc: nat, args: seq<string>, x: string, t: string)
    requires |args| < argc < LIMIT && |x| < FGETS_MAX - 1 && (forall i :: 0 <= i < |x| ==> x[i] != '\n')
    requires Atoi(x + "\n") < 0 && forall i :: 0 <= i < |args| ==> |args[i]| < LIMIT
    requires forall i :: 0 <= i < |cmds| ==> Loadable(cmds[i])
    ensures Load(PrintLog(cmds) + (Header('*', argc) + (PrintArgs(args) + ("$" + x + "\n" + t)))) ==
            Loaded(cmds, |PrintLog(cmds)|, BadFormat)
  {
    NegativeLength(x, t, argc - |args|);
    UnreadableArg(cmds, argc, args, "$" + x + "\n" + t);
  }

  /* How a load ends is decided by what stands at valid_up_to: nothing, a command that breaks off, or one that is
     not a command. */
  lemma {:induction false} OutcomeAt(t: string)
    ensures var r := Load(t);
            if r.validUpTo == |t| then r.outcome == Complete
            else r.outcome == match LoadCommand(t[r.validUpTo..])
                              case EndOfFile => Truncated
                              case Fatal => BadFormat
                              case Got(_, _) => Complete
    ensures Load(t).outcome == Complete ==> Load(t).validUpTo == |t|
    decreases |t|
  {
    if t != "" && LoadCommand(t).Got? {
      var cmd, rest := LoadCommand(t).value, LoadCommand(t).rest;
      OutcomeAt(rest);
      LoadStep(t, cmd, rest, Load(rest));
      var c := CommandLocal(t, "");
      assert t[Load(t).validUpTo..] == rest[Load(rest).validUpTo..];
    } else if t != "" {
      assert t[0..] == t;
    }
  }

  // ---- Logs that stop early ----

  lemma HeaderCut(c: char, n: nat, p: string)
    requires c != '\n' && n < LIMIT && p != "" && p <= Header(c, n) && |p| < |Header(c, n)|
    ensures LineLen(p, FGETS_MAX) == |p| && p[0] == c
    ensures |p| > 1 ==> IsDigit(p[1]) && p[1] == Dec(n)[0]
  {
    DecIsDigits(n);
    DecOfLimit(n);
    var x := [c] + Dec(n) + "\r";
    assert Header(c, n) == x + "\n";
    assert forall i :: 0 <= i < |p| ==> p[i] == Header(c, n)[i] && p[i] == x[i];
    LastLine(p, FGETS_MAX);
  }

  // A number read from text that starts with a digit is not negative, and positive if the digit is.
  lemma {:induction false} AtoiStartsWithDigit(t: string)
    requires t != "" && IsDigit(t[0])
    ensures Atoi(t) >= 0 && (t[0] != '0' ==> Atoi(t) >= 1)
  {
    DigitsGrow(t[1..], t[0] as nat - '0' as nat);
  }

  lemma {:induction false} DigitsGrow(t: string, acc: nat)
    ensures DigitsValue(t, acc) >= acc
  {
    if t != "" && IsDigit(t[0]) {
      DigitsGrow(t[1..], acc * 10 + (t[0] as nat - '0' as nat));
    }
  }

  // An argument that is cut short, in its header, its text or its CRLF, is an unexpected end of file.
  lemma ArgCut(a: string, p: string, argc: nat)
    requires |a| < LIMIT && p <= PrintArg(a) && |p| < |PrintArg(a)| && argc > 0
    ensures LoadArgs(p, argc) == EndOfFile
  {
    var h := Header('$', |a|);
    assert PrintArg(a) == h + (a + CRLF);
    if p != "" {
      if |p| < |h| {
        assert p <= h by { assert h == PrintArg(a)[..|h|]; }
        HeaderCut('$', |a|, p);
        assert p[..|p|] == p && p[|p|..] == "";
        if |p| > 1 {
          AtoiStartsWithDigit(p[1..]);
        } else {
          assert p[1..] == "";
        }
      } else {
        var q := p[|h|..];
        assert p == h + q by { assert p[..|h|] == PrintArg(a)[..|h|]; }
        HeaderLine('$', |a|, q);
      }
    }
  }

  lemma {:induction false} ArgsCut(args: seq<string>, p: string)
    requires forall i :: 0 <= i < |args| ==> |args[i]| < LIMIT
    requires p <= PrintArgs(args) && |p| < |PrintArgs(args)|
    ensures LoadArgs(p, |args|) == EndOfFile
  {
    var a, tail := args[0], PrintArgs(args[1..]);
    var first := PrintArg(a);
    assert PrintArgs(args) == first + tail;
    if |p| < |first| {
      assert p <= first by { assert first == PrintArgs(args)[..|first|]; }
      ArgCut(a, p, |args|);
    } else {
      var q := p[|first|..];
      assert p == first + q by { assert p[..|first|] == PrintArgs(args)[..|first|]; }
      assert q <= tail by { assert tail == PrintArgs(args)[|first|..]; }
      ArgsCut(args[1..], q);
      SkipArg(a, q, |args|);
    }
  }

  // After a whole argument the loader goes on with the next one.
  lemma SkipArg(a: string, q: string, argc: nat)
    requires |a| < LIMIT && argc > 0 && !LoadArgs(q, argc - 1).Got?
    ensures LoadArgs(PrintArg(a) + q, argc) == LoadArgs(q, argc - 1)
  {
    var body := a + CRLF + q;
    assert PrintArg(a) + q == Header('$', |a|) + body;
    HeaderLine('$', |a|, body);
    assert body[|a| + 2..] == q;
  }

  lemma CommandCut(cmd: Command, p: string)
    requires Loadable(cmd) && p != "" && p <= Print(cmd) && |p| < |Print(cmd)|
    ensures LoadCommand(p) == EndOfFile
  {
    var h := Header('*', |cmd|);
    assert Print(cmd) == h + PrintArgs(cmd);
    if |p| < |h| {
      assert p <= h by { assert h == Print(cmd)[..|h|]; }
      HeaderCut('*', |cmd|, p);
      assert p[..|p|] == p && p[|p|..] == "";
      if |p| > 1 {
        DecIsDigits(|cmd|);
        AtoiStartsWithDigit(p[1..]);
      }
    } else {
      var q := p[|h|..];
      assert p == h + q by { assert p[..|h|] == Print(cmd)[..|h|]; }
      assert q <= PrintArgs(cmd) by { assert PrintArgs(cmd) == Print(cmd)[|h|..]; }
      HeaderLine('*', |cmd|, q);
      DecIsDigits(|cmd|);
      assert h[1] == Dec(|cmd|)[0];
      ArgsCut(cmd, q);
    }
  }

  /* Loading any prefix of a log executes precisely the commands wholly inside the prefix, and the log is
     valid up to the end of the last of them: i commands, where p reaches the end of the i-th but not of
     the next. */
  lemma {:induction false} LoadPrefix(cmds: seq<Command>, p: string) returns (i: nat)
    requires forall j :: 0 <= j < |cmds| ==> Loadable(cmds[j])
    requires p <= PrintLog(cmds)
    ensures i <= |cmds| && |PrintLog(cmds[..i])| <= |p| && (i < |cmds| ==> |p| < |PrintLog(cmds[..i + 1])|)
    ensures Load(p) == Loaded(cmds[..i], |PrintLog(cmds[..i])|,
                              if |p| == |PrintLog(cmds[..i])| then Complete else Truncated)
    decreases |cmds|, 1
  {
    if cmds == [] {
      i := 0;
    } else {
      var first := Print(cmds[0]);
      if |p| < |first| {
        i := 0;
        PrefixOfFirst(cmds, first, p);
      } else {
        var q := PrefixRest(first, PrintLog(cmds[1..]), p);
        i := LoadBeyond(cmds, first, q);
      }
    }
  }

  // The prefix goes past the first command.
  lemma {:induction false} LoadBeyond(cmds: seq<Command>, first: string, q: string) returns (i: nat)
    requires cmds != [] && forall j :: 0 <= j < |cmds| ==> Loadable(cmds[j])
    requires first == Print(cmds[0]) && q <= PrintLog(cmds[1..])
    ensures i <= |cmds| && |PrintLog(cmds[..i])| <= |first + q|
    ensures i < |cmds| ==> |first + q| < |PrintLog(cmds[..i + 1])|
    ensures Load(first + q) == Loaded(cmds[..i], |PrintLog(cmds[..i])|,
                                      if |first + q| == |PrintLog(cmds[..i])| then Complete else Truncated)
    decreases |cmds|, 0
  {
    i := LoadPrefix(cmds[1..], q);
    PrefixStep(cmds, first, q, i, Load(q).outcome);
    PrefixShift(cmds, i);
    if i < |cmds| - 1 {
      PrefixShift(cmds, i + 1);
    }
    i := i + 1;
  }

  lemma PrefixOfFirst(cmds: seq<Command>, first: string, p: string)
    requires cmds != [] && Loadable(cmds[0]) && first == Print(cmds[0])
    requires p <= PrintLog(cmds) && |p| < |first|
    ensures PrintLog(cmds[..0]) == "" && PrintLog(cmds[..1]) == first
    ensures Load(p) == Loaded([], 0, if p == "" then Complete else Truncated)
  {
    assert cmds[..1] == [cmds[0]] && [cmds[0]][1..] == [];
    assert first + "" == first;
    assert p <= first by { assert first == PrintLog(cmds)[..|first|]; }
    if p != "" {
      CommandCut(cmds[0], p);
    }
  }

  lemma PrefixRest(first: string, tail: string, p: string) returns (q: string)
    requires p <= first + tail && |first| <= |p|
    ensures p == first + q && q <= tail
  {
    q := p[|first|..];
    assert p[..|first|] == (first + tail)[..|first|] == first;
    assert tail == (first + tail)[|first|..];
  }

  lemma PrefixStep(cmds: seq<Command>, first: string, q: string, i: nat, out: Outcome)
    requires cmds != [] && Loadable(cmds[0]) && i < |cmds| && first == Print(cmds[0])
    requires Load(q) == Loaded(cmds[1..][..i], |PrintLog(cmds[1..][..i])|, out)
    ensures Load(first + q) == Loaded(cmds[..i + 1], |PrintLog(cmds[..i + 1])|, out)
  {
    LoadPrinted(cmds[0], q);
    PrefixShift(cmds, i);
  }

  lemma PrefixShift(cmds: seq<Command>, i: nat)
    requires cmds != [] && i < |cmds|
    ensures cmds[..i + 1] == [cmds[0]] + cmds[1..][..i]
    ensures PrintLog(cmds[..i + 1]) == Print(cmds[0]) + PrintLog(cmds[1..][..i])
  {
    assert cmds[..i + 1][1..] == cmds[1..][..i];
  }

  // ---- Truncating a damaged log ----

  lemma {:induction false} LineEnds(t: string, max: nat)
    requires t != "" && max > 0
    ensures var n := LineLen(t, max); n == max || t[n - 1] == '\n' || n == |t|
  {
    if t[0] != '\n' && t[1..] != "" && max > 1 {
      LineEnds(t[1..], max - 1);
    }
  }

  // A line that ended before the end of the text does not depend on what follows.
  lemma {:induction false} LineStable(t: string, u: string, max: nat)
    requires t != "" && max > 0
    requires var n := LineLen(t, max); n < |t| && n <= |u| && t[..n] == u[..n]
    ensures LineLen(u, max) == LineLen(t, max)
  {
    var n := LineLen(t, max);
    LineEnds(t, max);
    assert t[..n][0] == u[..n][0];
    if t[0] != '\n' && max > 1 {
      assert t[1..][..n - 1] == t[..n][1..] && u[1..][..n - 1] == u[..n][1..];
      LineStable(t[1..], u[1..], max - 1);
    }
  }

  lemma CutTwice(t: string, n: nat, m: nat)
    requires n <= |t| && m <= |t[n..]|
    ensures t == t[..n] + (t[n..][..m] + t[n..][m..])
  {
    assert t[n..] == t[n..][..m] + t[n..][m..];
  }

  lemma SwapTail(line: string, a: string, c: string, x: string)
    ensures (line + (a + c)) + x == line + (a + (c + x))
  {
    assert a + (c + x) == (a + c) + x;
  }

  // The arguments of a command are read from a piece c of the text, whatever comes after it.
  lemma {:induction false} ArgsLocal(t: string, argc: nat, x: string) returns (c: string)
    requires LoadArgs(t, argc).Got?
    ensures t == c + LoadArgs(t, argc).rest && (argc > 0 ==> c != "")
    ensures LoadArgs(c + x, argc) == Got(LoadArgs(t, argc).value, x)
  {
    if argc == 0 {
      c := "";
      assert c + x == x;
    } else {
      var n := LineLen(t, FGETS_MAX);
      var line, rest := t[..n], t[n..];
      var len := Atoi(line[1..]);
      var a, r := rest[..len + 2], rest[len + 2..];
      CutTwice(t, n, len + 2);
      ArgStep(line, len, a, r, argc);
      var c' := ArgsLocal(r, argc - 1, x);
      c := line + (a + c');
      SwapTail(line, a, c', LoadArgs(r, argc - 1).rest);
      SwapTail(line, a, c', x);
      PrefixOf(line, a + (c' + x));
      LineStable(t, line + (a + (c' + x)), FGETS_MAX);
      ArgStep(line, len, a, c' + x, argc);
    }
  }

  lemma PrefixOf(line: string, b: string)
    ensures (line + b)[..|line|] == line && (line + b)[|line|..] == b
  {
  }

  // One command, seen as its first line and the rest.
  lemma CommandStep(line: string, body: string, argc: nat)
    requires |line| > 1 && line[0] == '*' && line[1] != 0 as char && Atoi(line[1..]) == argc && argc >= 1
    requires LineLen(line + body, FGETS_MAX) == |line|
    ensures LoadCommand(line + body) == LoadArgs(body, argc)
  {
    PrefixOf(line, body);
  }

  // The parts of a text that starts with a whole command.
  lemma CommandParts(t: string, line: string, r: string, argc: int)
    requires t != "" && LoadCommand(t).Got?
    requires line == t[..LineLen(t, FGETS_MAX)] && r == t[LineLen(t, FGETS_MAX)..] && argc == Atoi(line[1..])
    ensures t == line + r && |line| > 1 && line[0] == '*' && line[1] != 0 as char && argc >= 1
    ensures LoadArgs(r, argc) == LoadCommand(t) && |line| == LineLen(t, FGETS_MAX)
  {
  }

  lemma CommandLocal(t: string, x: string) returns (c: string)
    requires t != "" && LoadCommand(t).Got?
    ensures t == c + LoadCommand(t).rest && c != ""
    ensures LoadCommand(c + x) == Got(LoadCommand(t).value, x)
  {
    var n := LineLen(t, FGETS_MAX);
    var line, r := t[..n], t[n..];
    var argc := Atoi(line[1..]);
    CommandParts(t, line, r, argc);
    var c' := ArgsLocal(r, argc, x);
    c := line + c';
    Associate(line, c', LoadArgs(r, argc).rest);
    Associate(line, c', x);
    PrefixOf(line, c' + x);
    LineStable(t, line + (c' + x), FGETS_MAX);
    CommandStep(line, c' + x, argc);
  }

  /* Whatever the file holds: truncating it at valid_up_to leaves a log that loads completely and to
     the same commands. */
  lemma {:induction false} TruncatedLogIsClean(t: string)
    ensures var r := Load(t); Load(t[..r.validUpTo]) == Loaded(r.cmds, r.validUpTo, Complete)
    decreases |t|
  {
    if t != "" && LoadCommand(t).Got? {
      var cmd, rest := LoadCommand(t).value, LoadCommand(t).rest;
      var v := Load(rest).validUpTo;
      TruncatedLogIsClean(rest);
      var c := CommandLocal(t, rest[..v]);
      CleanStep(t, c, cmd, rest, rest[..v], Load(rest));
      CutAfter(c, rest, v);
    }
  }

  lemma CleanStep(t: string, c: string, cmd: Command, rest: string, cut: string, r: Loaded)
    requires t == c + rest && c != "" && LoadCommand(t) == Got(cmd, rest) && LoadCommand(c + cut) == Got(cmd, cut)
    requires r == Load(rest) && Load(cut) == Loaded(r.cmds, |cut|, Complete) && r.validUpTo == |cut|
    ensures Load(t) == Loaded([cmd] + r.cmds, |c| + |cut|, r.outcome)
    ensures Load(c + cut) == Loaded([cmd] + r.cmds, |c| + |cut|, Complete)
  {
    LoadStep(t, cmd, rest, r);
    LoadStep(c + cut, cmd, cut, Load(cut));
  }

  lemma CutAfter(c: string, rest: string, v: nat)
    requires v <= |rest|
    ensures (c + rest)[..|c| + v] == c + rest[..v]
  {
  }
}
