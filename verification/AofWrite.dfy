/**
Writing the append-only file: the buffer that accumulates differences for a rewriting child, kept as
a list of blocks, and the flush of the ordinary buffer with its recovery from failed writes.
What write(2) and ftruncate(2) return is an input.
*/
module AofWrite {

  const AOF_RW_BUF_BLOCK_SIZE: nat := 10485760

  // `data` is what is used of the block; free space that was sent before is not given back.
  datatype Block = Block(data: string, free: nat)

  function Bytes(blocks: seq<Block>): string
  {
    if blocks == [] then "" else blocks[0].data + Bytes(blocks[1..])
  }

  predicate BlocksFit(blocks: seq<Block>)
  {
    forall i :: 0 <= i < |blocks| ==> |blocks[i].data| + blocks[i].free <= AOF_RW_BUF_BLOCK_SIZE
  }

  lemma {:induction false} BytesSnoc(blocks: seq<Block>, b: Block)
    ensures Bytes(blocks + [b]) == Bytes(blocks) + b.data
  {
    if blocks == [] {
      assert blocks + [b] == [b];
      assert Bytes([b]) == b.data + Bytes([b][1..]);
    } else {
      BytesSnoc(blocks[1..], b);
      assert (blocks + [b])[1..] == blocks[1..] + [b];
      assert blocks[0].data + (Bytes(blocks[1..]) + b.data) == (blocks[0].data + Bytes(blocks[1..])) + b.data;
    }
  }

  lemma BytesLast(blocks: seq<Block>, s: string, free: nat)
    requires blocks != []
    ensures var n := |blocks| - 1;
            Bytes(blocks[n := Block(blocks[n].data + s, free)]) == Bytes(blocks) + s
  {
    var n := |blocks| - 1;
    var init, b := blocks[..n], Block(blocks[n].data + s, free);
    BytesSnoc(init, b);
    BytesSnoc(init, blocks[n]);
    assert init + [blocks[n]] == blocks;
    assert init + [b] == blocks[n := b];
    assert Bytes(init) + (blocks[n].data + s) == (Bytes(init) + blocks[n].data) + s;
  }

  lemma MovePrefix(a: string, b: string, c: string)
    ensures a + (b + c) == (a + b) + c
  {
  }

  lemma Refill(a: string, done: string, rest: string, n: nat)
    requires n <= |rest|
    ensures (a + done) + rest[..n] == a + (done + rest[..n])
    ensures (done + rest[..n]) + rest[n..] == done + rest
  {
    assert rest == rest[..n] + rest[n..];
  }

  class RewriteBuffer {
    var blocks: seq<Block>
    var handlerInstalled: bool

    ghost predicate Valid() reads this { BlocksFit(blocks) }

    ghost function Contents(): string reads this { Bytes(blocks) }

    // aofRewriteBufferReset
    constructor ()
      ensures Valid() && Contents() == "" && !handlerInstalled
    {
      blocks := [];
      handlerInstalled := false;
    }

    // Copies what fits of s into the last block.
    method FillLast(s: string) returns (n: nat)
      requires Valid() && blocks != []
      modifies this`blocks
      ensures Valid() && |blocks| == |old(blocks)| && n <= |s|
      ensures Contents() == old(Contents()) + s[..n]
      ensures n == 0 && s != "" ==> old(blocks)[|blocks| - 1].free == 0
    {
      var last := blocks[|blocks| - 1];
      n := if last.free < |s| then last.free else |s|;
      BytesLast(blocks, s[..n], last.free - n);
      blocks := blocks[|blocks| - 1 := Block(last.data + s[..n], last.free - n)];
    }

    method AddBlock()
      requires Valid()
      modifies this`blocks
      ensures Valid() && Contents() == old(Contents())
      ensures blocks == old(blocks) + [Block("", AOF_RW_BUF_BLOCK_SIZE)]
    {
      BytesSnoc(blocks, Block("", AOF_RW_BUF_BLOCK_SIZE));
      blocks := blocks + [Block("", AOF_RW_BUF_BLOCK_SIZE)];
    }

    method Append(s: string)
      requires Valid()
      modifies this
      ensures Valid() && handlerInstalled
      ensures Contents() == old(Contents()) + s
    {
      var rest := s;
      ghost var done := "";
      while rest != ""
        invariant Valid() && done + rest == s && Contents() == old(Contents()) + done
        decreases |rest|, if blocks != [] && blocks[|blocks| - 1].free > 0 then 0 else 1
      {
        if blocks != [] {
          var n := FillLast(rest);
          Refill(old(Contents()), done, rest, n);
          done := done + rest[..n];
          rest := rest[n..];
        }
        if rest != "" {
          AddBlock();
        }
      }
      assert done == s;
      handlerInstalled := true;
    }

    /* aofChildWriteDiffData: `write(k, n)` is the result of the k-th write of n bytes. What was sent
       and what remains is what there was; something remains only after a write that failed; and the handler stays
       installed exactly as long as there is something to send. */
    method SendDiff(stop: bool, write: (nat, nat) -> int) returns (sent: string)
      requires Valid()
      requires forall k, n :: write(k, n) <= n
      modifies this
      ensures Valid()
      ensures sent + Contents() == old(Contents())
      ensures stop ==> sent == ""
      ensures !stop && Contents() != "" ==> exists k, n :: n > 0 && write(k, n) <= 0
      ensures handlerInstalled == (old(handlerInstalled) && !stop && Contents() != "")
    {
      sent := "";
      var k := 0;
      while blocks != [] && !stop
        invariant Valid() && sent + Contents() == old(Contents())
        invariant (stop ==> sent == "") && handlerInstalled == old(handlerInstalled)
        decreases |Contents()|, |blocks|
      {
        var first := blocks[0];
        var left := first.data;
        if |first.data| > 0 {
          var n := write(k, |first.data|);
          k := k + 1;
          if n <= 0 { return; }
          left := first.data[n..];
          assert first.data == first.data[..n] + left;
          MovePrefix(first.data[..n], left, Bytes(blocks[1..]));
          MovePrefix(sent, first.data[..n], left + Bytes(blocks[1..]));
          sent := sent + first.data[..n];
        }
        if left == "" {
          blocks := blocks[1..];
          assert left + Contents() == Contents();
        } else {
          blocks := [Block(left, first.free)] + blocks[1..];
        }
      }
      handlerInstalled := false;
    }

    // aofRewriteBufferWrite: all or an error, and the blocks stay.
    method Write(write: (nat, nat) -> int) returns (count: int, written: string)
      requires forall k, n :: write(k, n) <= n
      ensures count == -1 || (written == Contents() && count == |written|)
      ensures count == -1 ==> written < Contents() && exists k, n :: n > 0 && write(k, n) != n
    {
      count, written := 0, "";
      var i := 0;
      assert blocks[0..] == blocks;
      while i < |blocks|
        invariant i <= |blocks| && written + Bytes(blocks[i..]) == Contents() && count == |written|
      {
        var data := blocks[i].data;
        assert blocks[i..][1..] == blocks[i + 1..];
        MovePrefix(written, data, Bytes(blocks[i + 1..]));
        if |data| > 0 {
          var n := write(i, |data|);
          if n != |data| {
            var part := if n < 0 then "" else data[..n];
            PartIsPrefix(written, part, data, Bytes(blocks[i + 1..]));
            return -1, written + part;
          }
          count := count + n;
        }
        written := written + data;
        i := i + 1;
      }
    }
  }

  lemma PartIsPrefix(a: string, part: string, data: string, c: string)
    requires part < data
    ensures a + part < a + data + c
  {
  }

  // ---- flushAppendOnlyFile ----

  datatype Fsync = Always | EverySec | No

  // What the environment does during one flush.
  datatype Env = Env(now: int, syncInProgress: bool, childIo: bool, nwritten: int, truncated: bool)

  class AofFile {
    const policy: Fsync
    const noFsyncOnRewrite: bool
    var file: string           // opened with O_APPEND
    var buf: string
    var currentSize: nat
    var lastWriteOk: bool
    var postponedStart: int
    var lastFsync: int
    var synced: nat            // how much of the file fdatasync has been called for
    var fsyncJobs: nat
    var exited: bool
    ghost var fed: string

    // Every byte fed is in the file or still in the buffer, once and in order, and the size is known.
    ghost predicate Valid()
      reads this
    {
      && file <= fed && synced <= |file|
      && (!exited ==> file + buf == fed && currentSize == |file|)
    }

    constructor (policy: Fsync, noFsyncOnRewrite: bool, file: string)
      ensures Valid() && !exited && this.file == this.fed == file && buf == "" && synced == 0
      ensures this.policy == policy && this.noFsyncOnRewrite == noFsyncOnRewrite
    {
      this.policy, this.noFsyncOnRewrite := policy, noFsyncOnRewrite;
      this.file, buf, currentSize, lastWriteOk := file, "", |file|, true;
      postponedStart, lastFsync, synced, fsyncJobs, exited := 0, 0, 0, 0, false;
      fed := file;
    }

    method Feed(s: string)
      requires Valid() && !exited
      modifies this`buf, this`fed
      ensures Valid() && buf == old(buf) + s && fed == old(fed) + s
    {
      MovePrefix(file, buf, s);
      buf, fed := buf + s, fed + s;
    }

    // With everysec a write waits for a running fsync, for less than two seconds.
    predicate Postpones(force: bool, env: Env)
      reads this
    {
      policy == EverySec && !force && env.syncInProgress &&
      (postponedStart == 0 || env.now - postponedStart < 2)
    }

    // A failed or short write, undone with ftruncate when that works.
    method FailedWrite(nwritten: int, truncated: bool) returns (moved: nat)
      requires Valid() && !exited && -1 <= nwritten < |buf|
      modifies this`file, this`buf, this`currentSize, this`lastWriteOk, this`exited
      ensures Valid() && moved == (if nwritten <= 0 || truncated then 0 else nwritten)
      ensures file == old(file) + old(buf)[..moved]
      ensures exited <==> policy == Always
      ensures !exited ==> !lastWriteOk && buf == old(buf)[moved..]
    {
      var n := nwritten;
      if n > 0 { file := file + buf[..n]; }
      if n != -1 && truncated {
        file := file[..currentSize];
        n := -1;
      }
      moved := if n > 0 then n else 0;
      Moved(old(file), old(buf), moved, fed);
      if policy == Always {
        exited := true;
        return;
      }
      lastWriteOk := false;
      if n > 0 {
        currentSize := currentSize + n;
        buf := buf[n..];
      }
    }

    /* Moves the first `moved` bytes of the buffer to the file: all of them, or none, or what a short
       write left there that could not be truncated away. The process exits rather than go on with
       policy Always after a failure. */
    method Flush(force: bool, env: Env) returns (moved: nat)
      requires Valid() && !exited && -1 <= env.nwritten <= |buf|
      modifies this
      ensures Valid() && fed == old(fed)
      ensures moved <= |old(buf)| && file == old(file) + old(buf)[..moved]
      ensures !exited ==> buf == old(buf)[moved..]
      ensures old(buf) != "" && !old(Postpones(force, env)) ==>
                && (env.nwritten == |old(buf)| ==> moved == |old(buf)| && lastWriteOk && !exited)
                && (env.nwritten < |old(buf)| ==>
                      && moved == (if env.nwritten <= 0 || env.truncated then 0 else env.nwritten)
                      && (exited <==> policy == Always) && (!exited ==> !lastWriteOk))
      ensures old(buf) == "" || old(Postpones(force, env)) ==>
                moved == 0 && !exited && lastWriteOk == old(lastWriteOk) && synced == old(synced)
      ensures old(buf) != "" ==>
                postponedStart == if !old(Postpones(force, env)) then 0
                                  else if old(postponedStart) == 0 then env.now else old(postponedStart)
      ensures policy == Always && old(buf) != "" && !exited && !(noFsyncOnRewrite && env.childIo) ==> synced == |fed|
      ensures old(synced) <= synced
      ensures policy == EverySec && moved > 0 && lastWriteOk && !(noFsyncOnRewrite && env.childIo)
              && env.now > old(lastFsync) ==>
                lastFsync == env.now && fsyncJobs == old(fsyncJobs) + if env.syncInProgress then 0 else 1
    {
      moved := 0;
      assert old(buf)[..0] == "" && old(buf)[0..] == old(buf);
      if buf == "" { return; }
      var syncInProgress := policy == EverySec && env.syncInProgress;
      if policy == EverySec && !force && syncInProgress {
        if postponedStart == 0 {
          postponedStart := env.now;
          return;
        } else if env.now - postponedStart < 2 {
          return;
        }
      }
      postponedStart := 0;
      if env.nwritten != |buf| {
        moved := FailedWrite(env.nwritten, env.truncated);
        return;
      }
      moved := env.nwritten;
      Moved(file, buf, moved, fed);
      file := file + buf;
      lastWriteOk := true;
      currentSize := currentSize + moved;
      buf := "";
      SyncIfNeeded(env, syncInProgress);
    }

    method SyncIfNeeded(env: Env, syncInProgress: bool)
      requires synced <= |file|
      modifies this`synced, this`lastFsync, this`fsyncJobs
      ensures old(synced) <= synced <= |file|
      ensures if noFsyncOnRewrite && env.childIo then unchanged(this)
              else if policy == Always then synced == |file| && lastFsync == env.now && unchanged(this`fsyncJobs)
              else if policy == EverySec && env.now > old(lastFsync) then
                && unchanged(this`synced) && lastFsync == env.now
                && fsyncJobs == old(fsyncJobs) + if syncInProgress then 0 else 1
              else unchanged(this)
    {
      if noFsyncOnRewrite && env.childIo { return; }
      if policy == Always {
        synced := |file|;
        lastFsync := env.now;
      } else if policy == EverySec && env.now > lastFsync {
        if !syncInProgress { fsyncJobs := fsyncJobs + 1; }
        lastFsync := env.now;
      }
    }
  }

  lemma Moved(file: string, buf: string, n: nat, fed: string)
    requires file + buf == fed && n <= |buf|
    ensures (file + buf[..n]) + buf[n..] == fed && file + buf[..n] <= fed
    ensures n == |buf| ==> buf[n..] == "" && file + buf[..n] == fed
  {
    assert buf == buf[..n] + buf[n..];
  }
}
