/**
How the rewrite writes a list: RPUSH commands of at most 64 items each, written item by item, where the
number of arguments of a command is printed before its items are.
*/
module AofLists {
  import opened Basics
  import opened AofLog

  const ITEMS_PER_CMD: nat := 64
  const RPUSH: string := "RPUSH"

  function Take(items: seq<string>): nat { if |items| > ITEMS_PER_CMD then ITEMS_PER_CMD else |items| }

  // The commands that rebuild a list.
  function Chunks(key: string, items: seq<string>): seq<Command>
  {
    if items == [] then [] else [[RPUSH, key] + items[..Take(items)]] + Chunks(key, items[Take(items)..])
  }

  // ---- Text, whatever the form of a count and of an argument ----

  datatype Form = Form(count: nat -> string, arg: string -> string)

  function Args(f: Form, args: seq<string>): string
  {
    if args == [] then "" else f.arg(args[0]) + Args(f, args[1..])
  }

  function Log(f: Form, cmds: seq<Command>): string
  {
    if cmds == [] then "" else (f.count(|cmds[0]|) + Args(f, cmds[0])) + Log(f, cmds[1..])
  }

  // What is still to be written when the open command has room for some more items.
  ghost function Pending(f: Form, key: string, items: seq<string>, room: nat): string
  {
    var n := if room < |items| then room else |items|;
    Args(f, items[..n]) + Log(f, Chunks(key, items[n..]))
  }

  lemma PendingItem(f: Form, key: string, items: seq<string>, room: nat)
    requires items != [] && room > 0
    ensures Pending(f, key, items, room) == f.arg(items[0]) + Pending(f, key, items[1..], room - 1)
  {
    var n := if room < |items| then room else |items|;
    assert items[..n][1..] == items[1..][..n - 1] && items[1..][n - 1..] == items[n..];
    Associate(f.arg(items[0]), Args(f, items[1..][..n - 1]), Log(f, Chunks(key, items[n..])));
  }

  lemma ArgsOfCommand(f: Form, key: string, items: seq<string>)
    ensures Args(f, [RPUSH, key] + items) == f.arg(RPUSH) + (f.arg(key) + Args(f, items))
  {
    var c := [RPUSH, key] + items;
    assert c[1..] == [key] + items && c[1..][1..] == items;
  }

  lemma Regroup(a: string, b: string, c: string, d: string, e: string)
    ensures (a + (b + (c + d))) + e == ((a + b) + c) + (d + e)
  {
  }

  // A new command: its count, its name and its key come first.
  lemma PendingCommand(f: Form, key: string, items: seq<string>)
    requires items != []
    ensures Pending(f, key, items, 0)
         == ((f.count(2 + Take(items)) + f.arg(RPUSH)) + f.arg(key)) + Pending(f, key, items, ITEMS_PER_CMD)
  {
    var n := Take(items);
    var c := [RPUSH, key] + items[..n];
    var rest := Log(f, Chunks(key, items[n..]));
    assert items[..0] == [] && items[0..] == items;
    assert Chunks(key, items)[1..] == Chunks(key, items[n..]) && Chunks(key, items)[0] == c;
    ArgsOfCommand(f, key, items[..n]);
    Regroup(f.count(2 + n), f.arg(RPUSH), f.arg(key), Args(f, items[..n]), rest);
  }

  method WriteHead(f: Form, key: string, out: string, items: nat, ghost rest: seq<string>, ghost all: string)
    returns (r: string)
    requires rest != [] && items == |rest| && out + Pending(f, key, rest, 0) == all
    ensures r + Pending(f, key, rest, ITEMS_PER_CMD) == all
  {
    var cmdItems := if items > ITEMS_PER_CMD then ITEMS_PER_CMD else items;
    var first := (f.count(2 + cmdItems) + f.arg(RPUSH)) + f.arg(key);
    PendingCommand(f, key, rest);
    Associate(out, first, Pending(f, key, rest, ITEMS_PER_CMD));
    r := out + first;
  }

  method WriteItem(f: Form, key: string, out: string, item: string, ghost rest: seq<string>, ghost room: nat,
                   ghost all: string)
    returns (r: string)
    requires rest != [] && item == rest[0] && room > 0 && out + Pending(f, key, rest, room) == all
    ensures r + Pending(f, key, rest[1..], room - 1) == all
  {
    PendingItem(f, key, rest, room);
    Associate(out, f.arg(item), Pending(f, key, rest[1..], room - 1));
    r := out + f.arg(item);
  }

  lemma PendingAtEnds(f: Form, key: string, items: seq<string>)
    ensures Pending(f, key, items, 0) == Log(f, Chunks(key, items))
    ensures forall room: nat :: Pending(f, key, [], room) == ""
  {
    assert items[..0] == [] && items[0..] == items;
    assert "" + Log(f, Chunks(key, items)) == Log(f, Chunks(key, items));
  }

  // rewriteListObject
  method RewriteList(f: Form, key: string, list: seq<string>) returns (out: string)
    ensures out == Log(f, Chunks(key, list))
  {
    ghost var all := Log(f, Chunks(key, list));
    out := "";
    var count, items, i := 0, |list|, 0;
    assert list[0..] == list;
    PendingAtEnds(f, key, list);
    while i < |list|
      invariant 0 <= i <= |list| && items == |list| - i && 0 <= count < ITEMS_PER_CMD
      invariant out + Pending(f, key, list[i..], if count == 0 then 0 else ITEMS_PER_CMD - count) == all
    {
      if count == 0 {
        out := WriteHead(f, key, out, items, list[i..], all);
      }
      out := WriteItem(f, key, out, list[i], list[i..], ITEMS_PER_CMD - count, all);
      assert list[i..][1..] == list[i + 1..];
      count := count + 1;
      if count == ITEMS_PER_CMD { count := 0; }
      items := items - 1;
      i := i + 1;
    }
    assert list[i..] == [] && out + "" == out;
  }

  // ---- What the commands do ----

  // The list that RPUSH commands build up.
  ghost function Pushed(cmds: seq<Command>): seq<string>
    requires forall i :: 0 <= i < |cmds| ==> |cmds[i]| >= 2
  {
    if cmds == [] then [] else cmds[0][2..] + Pushed(cmds[1..])
  }

  // Each command names the key, pushes between 1 and 64 items, and together they rebuild the list.
  lemma {:induction false} ChunksRebuild(key: string, items: seq<string>)
    ensures forall i :: 0 <= i < |Chunks(key, items)| ==>
              2 < |Chunks(key, items)[i]| <= 2 + ITEMS_PER_CMD && Chunks(key, items)[i][..2] == [RPUSH, key]
    ensures Pushed(Chunks(key, items)) == items
  {
    if items != [] {
      var n := Take(items);
      ChunksRebuild(key, items[n..]);
      var cs := Chunks(key, items);
      assert cs[1..] == Chunks(key, items[n..]);
      assert cs[0][2..] == items[..n] && cs[0][..2] == [RPUSH, key];
      assert items == items[..n] + items[n..];
    }
  }

  // ---- As the file has it ----

  function FileForm(): Form { Form((n: nat) => Header('*', n), PrintArg) }

  lemma {:induction false} ArgsInFile(args: seq<string>)
    ensures Args(FileForm(), args) == PrintArgs(args)
  {
    if args != [] {
      ArgsInFile(args[1..]);
    }
  }

  lemma {:induction false} LogInFile(cmds: seq<Command>)
    ensures Log(FileForm(), cmds) == PrintLog(cmds)
  {
    if cmds != [] {
      LogInFile(cmds[1..]);
      ArgsInFile(cmds[0]);
    }
  }

  // What is written for a list is read back as commands that rebuild it.
  method WriteThenLoad(key: string, list: seq<string>) returns (out: string)
    requires |key| < LIMIT && forall i :: 0 <= i < |list| ==> |list[i]| < LIMIT
    ensures Load(out).outcome == Complete && Load(out).cmds == Chunks(key, list)
  {
    out := RewriteList(FileForm(), key, list);
    LogInFile(Chunks(key, list));
    ChunksLoadable(key, list);
    RoundTrip(Chunks(key, list));
  }

  lemma {:induction false} ChunksLoadable(key: string, items: seq<string>)
    requires |key| < LIMIT && forall i :: 0 <= i < |items| ==> |items[i]| < LIMIT
    ensures forall i :: 0 <= i < |Chunks(key, items)| ==> Loadable(Chunks(key, items)[i])
  {
    if items != [] {
      ChunksLoadable(key, items[Take(items)..]);
    }
  }
}
