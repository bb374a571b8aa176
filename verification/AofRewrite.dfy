/**
The background rewrite of the append-only file as a system of interleaved steps: the parent that
executes commands, feeds the log and sends differences through a pipe, and the child that writes
a snapshot, collects the differences and asks the parent to stop. Operations of the system that
may fail, fail or not as the step says.
*/
module AofRewrite {
  import opened Basics
  import opened AofLog

  // ---- What a log means ----

  // The dataset is abstract: what matters is how a command in a given database changes it.
  datatype Semantics<!D> = Semantics(empty: D, apply: (D, nat, Command) -> D)

  // The fake client of the loader: its dataset and its selected database.
  datatype Replayed<D> = Replayed(data: D, db: nat)

  const SELECT: string := "SELECT"

  function SelectCmd(db: nat): Command { [SELECT, Dec(db)] }

  predicate IsSelect(c: Command) { c != [] && c[0] == SELECT }

  ghost function Step<D>(sem: Semantics<D>, r: Replayed<D>, c: Command): Replayed<D>
  {
    if IsSelect(c) && |c| == 2 && Atoi(c[1]) >= 0 then r.(db := Atoi(c[1]))
    else r.(data := sem.apply(r.data, r.db, c))
  }

  ghost function ReplayFrom<D>(sem: Semantics<D>, r: Replayed<D>, cmds: seq<Command>): Replayed<D>
  {
    if cmds == [] then r else Step(sem, ReplayFrom(sem, r, cmds[..|cmds| - 1]), cmds[|cmds| - 1])
  }

  // Loading starts from an empty dataset with database 0 selected.
  ghost function Replay<D>(sem: Semantics<D>, cmds: seq<Command>): Replayed<D>
  {
    ReplayFrom(sem, Replayed(sem.empty, 0), cmds)
  }

  lemma ReplaySnoc<D>(sem: Semantics<D>, cmds: seq<Command>, c: Command)
    ensures Replay(sem, cmds + [c]) == Step(sem, Replay(sem, cmds), c)
  {
    assert (cmds + [c])[..|cmds|] == cmds;
  }

  lemma SelectSelects<D>(sem: Semantics<D>, cmds: seq<Command>, db: nat)
    ensures Replay(sem, cmds + [SelectCmd(db)]) == Replayed(Replay(sem, cmds).data, db)
  {
    ReplaySnoc(sem, cmds, SelectCmd(db));
    AtoiOfDec(db, "");
    assert Dec(db) + "" == Dec(db);
  }

  // ---- feedAppendOnlyFile ----

  // The commands appended when commands are executed in a database: a SELECT first when the last one differs.
  function Fed(selectedDb: int, db: nat, cs: seq<Command>): seq<Command>
  {
    if db != selectedDb then [SelectCmd(db)] + cs else cs
  }

  ghost function ApplyAll<D>(sem: Semantics<D>, data: D, db: nat, cs: seq<Command>): D
  {
    if cs == [] then data else sem.apply(ApplyAll(sem, data, db, cs[..|cs| - 1]), db, cs[|cs| - 1])
  }

  ghost predicate NoSelect(cs: seq<Command>)
  {
    forall i :: 0 <= i < |cs| ==> !IsSelect(cs[i])
  }

  /* A log in step with the live dataset: it replays to it and, unless the next command will bring a
     SELECT anyway, leaves the loader in the database the parent last selected. */
  ghost predicate InStep<D>(sem: Semantics<D>, cmds: seq<Command>, data: D, selectedDb: int)
  {
    Replay(sem, cmds).data == data && (selectedDb != -1 ==> Replay(sem, cmds).db == selectedDb)
  }

  lemma {:induction false} ReplayMore<D>(sem: Semantics<D>, cmds: seq<Command>, cs: seq<Command>)
    requires NoSelect(cs)
    ensures Replay(sem, cmds + cs)
            == Replayed(ApplyAll(sem, Replay(sem, cmds).data, Replay(sem, cmds).db, cs), Replay(sem, cmds).db)
  {
    if cs == [] {
      assert cmds + cs == cmds;
    } else {
      var n := |cs| - 1;
      ReplayMore(sem, cmds, cs[..n]);
      ReplaySnoc(sem, cmds + cs[..n], cs[n]);
      assert cmds + cs == (cmds + cs[..n]) + [cs[n]];
    }
  }

  lemma FeedKeepsStep<D>(sem: Semantics<D>, cmds: seq<Command>, data: D, selectedDb: int, db: nat, cs: seq<Command>)
    requires InStep(sem, cmds, data, selectedDb) && NoSelect(cs)
    ensures InStep(sem, cmds + Fed(selectedDb, db, cs), ApplyAll(sem, data, db, cs), db)
  {
    if db != selectedDb {
      var mid := cmds + [SelectCmd(db)];
      SelectSelects(sem, cmds, db);
      ReplayMore(sem, mid, cs);
      assert cmds + ([SelectCmd(db)] + cs) == mid + cs;
    } else {
      ReplayMore(sem, cmds, cs);
    }
  }

  lemma {:induction false} PrintLogAppend(a: seq<Command>, b: seq<Command>)
    ensures PrintLog(a + b) == PrintLog(a) + PrintLog(b)
  {
    if a == [] {
      assert a + b == b;
    } else {
      PrintLogAppend(a[1..], b);
      HeadOfSum(a, b);
      Associate(Print(a[0]), PrintLog(a[1..]), PrintLog(b));
    }
  }

  // ---- The system ----

  datatype Child =
    | NoChild
    | Running            // writing the snapshot and reading differences
    | Asked              // has written '!' and waits for the answer
    | Stopped            // has read the answer
    | Exited(ok: bool)

  datatype AofState = Off | WaitRewrite | On

  /* The last four fields are the history the proof refers to: the commands of the log file and buffer,
     of the snapshot, and those fed since the fork, and the dataset at the last fork. */
  datatype Sys<D> = Sys(
    data: D, aof: AofState, file: string, buf: string, selectedDb: int,
    blocks: string, stop: bool, dataPipe: string, askPipe: nat, ackPipe: nat,
    child: Child, childDiff: string, childFile: string,
    logCmds: seq<Command>, snapCmds: seq<Command>, fedCmds: seq<Command>, forkData: D)

  datatype Event =
    | Exec(db: nat, cs: seq<Command>)   // a command, as translated for the log
    | Flush(n: nat)
    | Fork(snapshot: seq<Command>)
    | Start(snapshot: seq<Command>)
    | Stop(n: nat)
    | SendDiff(n: nat)
    | ChildRead(n: nat)
    | ChildAsk
    | ParentAck(written: bool)
    | ChildAck
    | ChildFinish
    | ChildFail
    | Done(openOk: bool, written: bool, renamed: bool)

  // When an event can happen.
  ghost predicate Enabled<D>(sem: Semantics<D>, s: Sys<D>, e: Event)
  {
    match e
    case Exec(db, cs) => AllLoadable(cs) && NoSelect(cs) && db < LIMIT
    case Flush(n) => n <= |s.buf|
    case Fork(snapshot) =>
      // the child writes commands that rebuild the dataset it was forked with
      s.child == NoChild && AllLoadable(snapshot) && Replay(sem, snapshot).data == s.data
    case Start(snapshot) =>
      s.aof == Off && s.child == NoChild && AllLoadable(snapshot) && Replay(sem, snapshot).data == s.data
    case Stop(n) => s.aof != Off && n <= |s.buf|
    case SendDiff(n) => s.child != NoChild && !s.stop && n <= |s.blocks|
    case ChildRead(n) => s.child == Running && n <= |s.dataPipe|
    case ChildAsk => s.child == Running
    case ParentAck(_) => s.child != NoChild && s.askPipe > 0
    case ChildAck => s.child == Asked && s.ackPipe > 0
    case ChildFinish => s.child == Stopped
    case ChildFail => s.child == Running || s.child == Asked || s.child == Stopped
    case Done(_, _, _) => s.child.Exited?
  }

  // The cleanup at the end of backgroundRewriteDoneHandler.
  function Cleanup<D>(s: Sys<D>): Sys<D>
  {
    s.(blocks := "", dataPipe := "", askPipe := 0, ackPipe := 0, child := NoChild)
  }

  function Forked<D>(s: Sys<D>, snapshot: seq<Command>): Sys<D>
  {
    s.(child := Running, childDiff := "", selectedDb := -1, stop := false,
       snapCmds := snapshot, fedCmds := [], forkData := s.data)
  }

  ghost function Next<D>(sem: Semantics<D>, s: Sys<D>, e: Event): Sys<D>
    requires Enabled(sem, s, e)
  {
    match e
    case Exec(db, cs) =>
      var cmds := Fed(s.selectedDb, db, cs);
      var bytes := PrintLog(cmds);
      var data := ApplyAll(sem, s.data, db, cs);
      if s.aof == Off then s.(data := data)
      else
        s.(data := data, selectedDb := db,
           buf := if s.aof == On then s.buf + bytes else s.buf,
           logCmds := if s.aof == On then s.logCmds + cmds else s.logCmds,
           blocks := if s.child != NoChild then s.blocks + bytes else s.blocks,
           fedCmds := s.fedCmds + cmds)
    case Flush(n) => s.(file := s.file + s.buf[..n], buf := s.buf[n..])
    case Fork(snapshot) => Forked(s, snapshot)
    case Start(snapshot) => Forked(s, snapshot).(aof := WaitRewrite)
    case Stop(n) =>
      // the forced flush may write all, a part or nothing; a running child is killed
      Cleanup(s).(file := s.file + s.buf[..n], buf := s.buf[n..], selectedDb := -1, aof := Off)
    case SendDiff(n) => s.(dataPipe := s.dataPipe + s.blocks[..n], blocks := s.blocks[n..])
    case ChildRead(n) => s.(childDiff := s.childDiff + s.dataPipe[..n], dataPipe := s.dataPipe[n..])
    case ChildAsk => s.(child := Asked, askPipe := s.askPipe + 1)
    case ParentAck(written) =>
      s.(askPipe := s.askPipe - 1, stop := true, ackPipe := if written then s.ackPipe + 1 else s.ackPipe)
    case ChildAck => s.(child := Stopped, ackPipe := s.ackPipe - 1)
    case ChildFinish =>
      // the last aofReadDiffFromParent reads until the pipe is empty
      var diff := s.childDiff + s.dataPipe;
      s.(child := Exited(true), childDiff := diff, dataPipe := "", childFile := PrintLog(s.snapCmds) + diff)
    case ChildFail => s.(child := Exited(false))
    case Done(openOk, written, renamed) =>
      if s.child.ok && openOk && written && renamed then
        if s.aof == Off then Cleanup(s).(file := s.childFile + s.blocks)
        else
          Cleanup(s).(file := s.childFile + s.blocks, buf := "", selectedDb := -1, aof := On,
                      logCmds := s.snapCmds + s.fedCmds)
      else
        Cleanup(s)
  }

  // ---- The invariant ----

  ghost predicate LogGood<D>(sem: Semantics<D>, s: Sys<D>)
  {
    s.aof == On ==>
      && s.file + s.buf == PrintLog(s.logCmds)
      && InStep(sem, s.logCmds, s.data, s.selectedDb)
      && AllLoadable(s.logCmds)
  }

  ghost predicate AllLoadable(cmds: seq<Command>)
  {
    forall i :: 0 <= i < |cmds| ==> Loadable(cmds[i])
  }

  // Nothing fed since the fork is lost or duplicated on its way to the child.
  ghost predicate DiffConserved<D>(s: Sys<D>)
  {
    s.childDiff + s.dataPipe + s.blocks == PrintLog(s.fedCmds)
  }

  ghost predicate RewriteGood<D>(sem: Semantics<D>, s: Sys<D>)
  {
    if s.child == NoChild then
      s.blocks == "" && s.dataPipe == "" && s.askPipe == 0 && s.ackPipe == 0
    else
      && (s.aof != Off ==> InStep(sem, s.snapCmds + s.fedCmds, s.data, s.selectedDb))
      && (s.aof == Off ==> s.fedCmds == []) && Replay(sem, s.snapCmds).data == s.forkData
      && AllLoadable(s.snapCmds) && AllLoadable(s.fedCmds)
      && DiffConserved(s)
      && (s.ackPipe > 0 || s.child == Stopped || s.child == Exited(true) ==> s.stop)
      && (s.child == Exited(true) ==> s.dataPipe == "" && s.childFile == PrintLog(s.snapCmds) + s.childDiff)
  }

  ghost predicate Inv<D>(sem: Semantics<D>, s: Sys<D>)
  {
    LogGood(sem, s) && RewriteGood(sem, s)
  }

  // Before anything is logged: AOF is on with an empty file and dataset, or it is not on yet.
  ghost predicate Initial<D>(sem: Semantics<D>, s: Sys<D>)
  {
    && s.child == NoChild && s.blocks == "" && s.dataPipe == "" && s.askPipe == 0 && s.ackPipe == 0
    && s.selectedDb == -1
    && (s.aof == On ==> s.data == sem.empty && s.file == "" && s.buf == "" && s.logCmds == [])
  }

  lemma FedLoadable(selectedDb: int, db: nat, cs: seq<Command>)
    requires AllLoadable(cs) && db < LIMIT
    ensures AllLoadable(Fed(selectedDb, db, cs))
  {
    DecOfLimit(db);
    assert Loadable(SelectCmd(db));
  }

  lemma ExecKeepsLog<D>(sem: Semantics<D>, s: Sys<D>, db: nat, cs: seq<Command>)
    requires Inv(sem, s) && Enabled(sem, s, Exec(db, cs))
    ensures LogGood(sem, Next(sem, s, Exec(db, cs)))
  {
    if s.aof == On {
      var cmds := Fed(s.selectedDb, db, cs);
      FedLoadable(s.selectedDb, db, cs);
      FeedKeepsStep(sem, s.logCmds, s.data, s.selectedDb, db, cs);
      PrintLogAppend(s.logCmds, cmds);
      Associate(s.file, s.buf, PrintLog(cmds));
    }
  }

  lemma ExecKeepsRewrite<D>(sem: Semantics<D>, s: Sys<D>, db: nat, cs: seq<Command>)
    requires Inv(sem, s) && Enabled(sem, s, Exec(db, cs))
    ensures RewriteGood(sem, Next(sem, s, Exec(db, cs)))
  {
    if s.child != NoChild && s.aof != Off {
      var cmds := Fed(s.selectedDb, db, cs);
      FedLoadable(s.selectedDb, db, cs);
      FeedKeepsStep(sem, s.snapCmds + s.fedCmds, s.data, s.selectedDb, db, cs);
      Associate(s.snapCmds, s.fedCmds, cmds);
      PrintLogAppend(s.fedCmds, cmds);
      Associate(s.childDiff + s.dataPipe, s.blocks, PrintLog(cmds));
    }
  }

  // What the child wrote and the blocks it was not sent are together the snapshot and all that was fed.
  lemma RewrittenFile<D>(sem: Semantics<D>, s: Sys<D>)
    requires RewriteGood(sem, s) && s.child == Exited(true)
    ensures s.childFile + s.blocks == PrintLog(s.snapCmds + s.fedCmds)
  {
    PrintLogAppend(s.snapCmds, s.fedCmds);
    assert s.childDiff + "" == s.childDiff;
    Associate(PrintLog(s.snapCmds), s.childDiff, s.blocks);
  }

  lemma DoneKeepsInv<D>(sem: Semantics<D>, s: Sys<D>, e: Event)
    requires Inv(sem, s) && e.Done? && Enabled(sem, s, e)
    ensures Inv(sem, Next(sem, s, e))
  {
    if s.child.ok {
      RewrittenFile(sem, s);
      EmptyTail(s.childFile + s.blocks);
    }
  }

  lemma EmptyTail(a: string)
    ensures a + "" == a
  {
  }

  lemma MovePrefix(a: string, b: string, n: nat)
    requires n <= |b|
    ensures (a + b[..n]) + b[n..] == a + b
  {
    assert b == b[..n] + b[n..];
  }

  lemma MoveKeepsInv<D>(sem: Semantics<D>, s: Sys<D>, e: Event)
    requires Inv(sem, s) && (e.Flush? || e.SendDiff? || e.ChildRead? || e.ChildFinish?) && Enabled(sem, s, e)
    ensures Inv(sem, Next(sem, s, e))
  {
    match e
    case Flush(n) => MovePrefix(s.file, s.buf, n);
    case SendDiff(n) =>
      MovePrefix(s.childDiff + s.dataPipe, s.blocks, n);
      assert s.childDiff + (s.dataPipe + s.blocks[..n]) == s.childDiff + s.dataPipe + s.blocks[..n];
    case ChildRead(n) => MovePrefix(s.childDiff, s.dataPipe, n);
    case ChildFinish =>
      assert (s.childDiff + s.dataPipe) + "" == s.childDiff + s.dataPipe;
  }

  lemma ForkKeepsInv<D>(sem: Semantics<D>, s: Sys<D>, snapshot: seq<Command>)
    requires Inv(sem, s) && s.child == NoChild && AllLoadable(snapshot) && Replay(sem, snapshot).data == s.data
    ensures Inv(sem, Forked(s, snapshot))
    ensures RewriteGood(sem, Forked(s, snapshot).(aof := WaitRewrite))
  {
    assert snapshot + [] == snapshot;
  }

  // Every step keeps the invariant.
  lemma NextKeepsInv<D>(sem: Semantics<D>, s: Sys<D>, e: Event)
    requires Inv(sem, s) && Enabled(sem, s, e)
    ensures Inv(sem, Next(sem, s, e))
  {
    match e
    case Exec(db, cs) => ExecKeepsLog(sem, s, db, cs); ExecKeepsRewrite(sem, s, db, cs);
    case Flush(_) => MoveKeepsInv(sem, s, e);
    case Fork(snapshot) => ForkKeepsInv(sem, s, snapshot);
    case Start(snapshot) => ForkKeepsInv(sem, s, snapshot);
    case Stop(_) =>
    case SendDiff(_) => MoveKeepsInv(sem, s, e);
    case ChildRead(_) => MoveKeepsInv(sem, s, e);
    case ChildAsk =>
    case ParentAck(_) =>
    case ChildAck =>
    case ChildFinish => MoveKeepsInv(sem, s, e);
    case ChildFail =>
    case Done(_, _, _) => DoneKeepsInv(sem, s, e);
  }

  // ---- Whole runs ----

  ghost predicate Run<D>(sem: Semantics<D>, states: seq<Sys<D>>, events: seq<Event>)
  {
    && |states| == |events| + 1
    && Initial(sem, states[0])
    && forall i :: 0 <= i < |events| ==>
         Enabled(sem, states[i], events[i]) && states[i + 1] == Next(sem, states[i], events[i])
  }

  lemma {:induction false} RunKeepsInv<D>(sem: Semantics<D>, states: seq<Sys<D>>, events: seq<Event>, n: nat)
    requires Run(sem, states, events) && n < |states|
    ensures Inv(sem, states[n])
  {
    if n > 0 {
      RunKeepsInv(sem, states, events, n - 1);
      assert states[n - 1 + 1] == states[n];
      NextKeepsInv(sem, states[n - 1], events[n - 1]);
    }
  }

  /* In every run, whatever the interleaving and whichever rewrites succeed or fail: whenever AOF is
     on, loading the file together with the unwritten buffer rebuilds the live dataset. */
  lemma LogAlwaysReplays<D>(sem: Semantics<D>, states: seq<Sys<D>>, events: seq<Event>, n: nat)
    requires Run(sem, states, events) && n < |states| && states[n].aof == On
    ensures var s := states[n];
            var r := Load(s.file + s.buf);
            r.outcome == Complete && Replay(sem, r.cmds).data == s.data
  {
    RunKeepsInv(sem, states, events, n);
    RoundTrip(states[n].logCmds);
  }

  // A rewrite that succeeds leaves a file that alone replays to the live dataset, so the buffer may be dropped.
  lemma RewriteIsSafe<D>(sem: Semantics<D>, states: seq<Sys<D>>, events: seq<Event>, n: nat)
    requires Run(sem, states, events) && n < |events| && states[n].child == Exited(true) && states[n].aof != Off
    requires events[n] == Done(true, true, true)
    ensures var s, t := states[n], states[n + 1];
            var r := Load(t.file);
            && t.file == PrintLog(s.snapCmds) + PrintLog(s.fedCmds)
            && r.outcome == Complete && Replay(sem, r.cmds).data == s.data == t.data && t.buf == "" && t.aof == On
  {
    RunKeepsInv(sem, states, events, n);
    RunKeepsInv(sem, states, events, n + 1);
    var s, t := states[n], states[n + 1];
    assert t == Next(sem, s, events[n]);
    PrintLogAppend(s.snapCmds, s.fedCmds);
    RoundTrip(t.logCmds);
    assert t.file + "" == t.file;
  }

  /* With AOF off, the new file takes the place of the old one all the same, and replays to the dataset that the
     child was forked with: nothing was fed since. */
  lemma RewriteWhileOff<D>(sem: Semantics<D>, states: seq<Sys<D>>, events: seq<Event>, n: nat)
    requires Run(sem, states, events) && n < |events| && states[n].child == Exited(true) && states[n].aof == Off
    requires events[n] == Done(true, true, true)
    ensures var s, t := states[n], states[n + 1];
            var r := Load(t.file);
            && t.file == PrintLog(s.snapCmds) && r.outcome == Complete && Replay(sem, r.cmds).data == s.forkData
            && t.data == s.data && t.buf == s.buf && t.aof == Off
  {
    RunKeepsInv(sem, states, events, n);
    var s := states[n];
    assert states[n + 1] == Next(sem, s, events[n]);
    RewrittenFile(sem, s);
    assert s.snapCmds + [] == s.snapCmds;
    RoundTrip(s.snapCmds);
  }

  // A rewrite that fails, in the child or in the parent, leaves file, buffer and dataset as they were.
  lemma FailedRewriteChangesNothing<D>(sem: Semantics<D>, states: seq<Sys<D>>, events: seq<Event>, n: nat)
    requires Run(sem, states, events) && n < |events| && events[n].Done?
    requires states[n].child == Exited(false) || events[n] != Done(true, true, true)
    ensures var s, t := states[n], states[n + 1];
            && t.file == s.file && t.buf == s.buf && t.data == s.data && t.aof == s.aof && t.selectedDb == s.selectedDb
            && t.logCmds == s.logCmds && t.child == NoChild && t.blocks == "" && t.dataPipe == ""
  {
    assert states[n + 1] == Next(sem, states[n], events[n]);
  }

  // Turning AOF off with a flush that writes everything leaves a file that replays to the live dataset.
  lemma StopLeavesTheLog<D>(sem: Semantics<D>, states: seq<Sys<D>>, events: seq<Event>, n: nat)
    requires Run(sem, states, events) && n < |events| && states[n].aof == On && events[n].Stop?
    ensures var s, t := states[n], states[n + 1];
            && t.file + t.buf == s.file + s.buf && t.aof == Off && t.child == NoChild && t.data == s.data
            && (events[n].n == |s.buf| ==>
                  Load(t.file).outcome == Complete && Replay(sem, Load(t.file).cmds).data == t.data)
  {
    RunKeepsInv(sem, states, events, n);
    var s, k := states[n], events[n].n;
    assert states[n + 1] == Next(sem, s, events[n]);
    MovePrefix(s.file, s.buf, k);
    RoundTrip(s.logCmds);
    assert s.buf[..|s.buf|] == s.buf;
  }

  /* A crash at any point loses the buffer: what loads from the file alone is precisely the logged commands that
     had wholly reached it, and none of them is lost once the buffer is empty. */
  lemma CrashLosesOnlyATail<D>(sem: Semantics<D>, states: seq<Sys<D>>, events: seq<Event>, n: nat) returns (i: nat)
    requires Run(sem, states, events) && n < |states| && states[n].aof == On
    ensures var s := states[n];
            && i <= |s.logCmds| && Load(s.file).cmds == s.logCmds[..i] && Load(s.file).outcome != BadFormat
            && |PrintLog(s.logCmds[..i])| <= |s.file|
            && (i < |s.logCmds| ==> |s.file| < |PrintLog(s.logCmds[..i + 1])|)
            && (s.buf == "" ==> i == |s.logCmds|)
            && Replay(sem, s.logCmds).data == s.data
  {
    RunKeepsInv(sem, states, events, n);
    var s := states[n];
    i := LoadPrefix(s.logCmds, s.file);
    if s.buf == "" {
      RoundTrip(s.logCmds);
      assert s.file + "" == s.file;
    }
  }

  // While the child lives, what it has, what is in the pipe and what is buffered is what was fed, in order.
  lemma NothingLost<D>(sem: Semantics<D>, states: seq<Sys<D>>, events: seq<Event>, n: nat)
    requires Run(sem, states, events) && n < |states| && states[n].child != NoChild
    ensures var s := states[n]; s.childDiff + s.dataPipe + s.blocks == PrintLog(s.fedCmds)
  {
    RunKeepsInv(sem, states, events, n);
  }
}
