/**
The slot table of a cluster node: the owner of every slot, the bitmap and count each node carries of
its own slots, and the rebinding of slots when another node claims them with a newer configuration.
*/
module Slots {
  import opened Basics

  type Bitmap = b: seq<bv8> | |b| == 2048 witness seq(2048, i => 0)

  // ---- Bitmaps ----

  predicate TestBit(b: Bitmap, pos: nat)
    requires pos < CLUSTER_SLOTS
  {
    b[pos / 8] & (1 << (pos % 8)) != 0
  }

  function SetBit(b: Bitmap, pos: nat): Bitmap
    requires pos < CLUSTER_SLOTS
  {
    b[pos / 8 := b[pos / 8] | (1 << (pos % 8))]
  }

  function ClearBit(b: Bitmap, pos: nat): Bitmap
    requires pos < CLUSTER_SLOTS
  {
    b[pos / 8 := b[pos / 8] & !(1 << (pos % 8))]
  }

  // Setting or clearing one bit of a byte; used where `AtBits` is written.
  predicate AtBits(x: bv8, i: nat, j: nat) { true }

  ghost predicate SetsBits()
  {
    forall x: bv8, i: nat, j: nat {:trigger AtBits(x, i, j)} :: AtBits(x, i, j) && i < 8 && j < 8 ==>
      ((x | (1 << i)) & (1 << j) != 0 <==> i == j || x & (1 << j) != 0)
  }

  ghost predicate ClearsBits()
  {
    forall x: bv8, i: nat, j: nat {:trigger AtBits(x, i, j)} :: AtBits(x, i, j) && i < 8 && j < 8 ==>
      ((x & !(1 << i)) & (1 << j) != 0 <==> i != j && x & (1 << j) != 0)
  }

  lemma SetLaw()
    ensures SetsBits()
  {
  }

  lemma ClearLaw()
    ensures ClearsBits()
  {
  }

  lemma SameBit(p: nat, q: nat)
    ensures p == q <==> p / 8 == q / 8 && p % 8 == q % 8
  {
    assert p == 8 * (p / 8) + p % 8 && q == 8 * (q / 8) + q % 8;
  }

  lemma SetBitSets(b: Bitmap, p: nat, q: nat)
    requires p < CLUSTER_SLOTS && q < CLUSTER_SLOTS
    ensures TestBit(SetBit(b, p), q) <==> p == q || TestBit(b, q)
  {
    SameBit(p, q);
    SetLaw();
    assert AtBits(b[p / 8], p % 8, q % 8);
  }

  lemma ClearBitClears(b: Bitmap, p: nat, q: nat)
    requires p < CLUSTER_SLOTS && q < CLUSTER_SLOTS
    ensures TestBit(ClearBit(b, p), q) <==> p != q && TestBit(b, q)
  {
    SameBit(p, q);
    ClearLaw();
    assert AtBits(b[p / 8], p % 8, q % 8);
  }

  // How many of the first n slots are in the bitmap.
  ghost function Count(b: Bitmap, n: nat): nat
    requires n <= CLUSTER_SLOTS
  {
    if n == 0 then 0 else Count(b, n - 1) + if TestBit(b, n - 1) then 1 else 0
  }

  // Two bitmaps that differ in one slot, which only the second has.
  lemma {:induction false} CountOneMore(a: Bitmap, b: Bitmap, p: nat, n: nat)
    requires p < CLUSTER_SLOTS && n <= CLUSTER_SLOTS && !TestBit(a, p) && TestBit(b, p)
    requires forall q :: 0 <= q < CLUSTER_SLOTS && q != p ==> TestBit(a, q) == TestBit(b, q)
    ensures Count(b, n) == Count(a, n) + if p < n then 1 else 0
  {
    if n > 0 {
      CountOneMore(a, b, p, n - 1);
    }
  }

  lemma {:induction false} NoSlots(b: Bitmap, n: nat)
    requires n <= CLUSTER_SLOTS
    ensures Count(b, n) == 0 <==> forall q :: 0 <= q < n ==> !TestBit(b, q)
  {
    if n > 0 {
      NoSlots(b, n - 1);
    }
  }

  lemma {:induction false} AllSlots(b: Bitmap, n: nat)
    requires n <= CLUSTER_SLOTS
    ensures Count(b, n) <= n && (Count(b, n) == n <==> forall q :: 0 <= q < n ==> TestBit(b, q))
  {
    if n > 0 {
      AllSlots(b, n - 1);
    }
  }

  // ---- The table ----

  // `slots` and `numslots` are the node's own view of what it serves.
  datatype NodeRec = NodeRec(slots: Bitmap, numslots: int, configEpoch: nat)

  ghost predicate NodeOk(owner: seq<int>, r: NodeRec, n: int)
    requires |owner| == CLUSTER_SLOTS
  {
    && (forall j :: 0 <= j < CLUSTER_SLOTS ==> (TestBit(r.slots, j) <==> owner[j] == n))
    && r.numslots == Count(r.slots, CLUSTER_SLOTS)
  }

  // -1 stands for no owner.
  ghost predicate TableOk(owner: seq<int>, nodes: seq<NodeRec>)
  {
    && |owner| == CLUSTER_SLOTS
    && (forall j :: 0 <= j < CLUSTER_SLOTS ==> -1 <= owner[j] < |nodes|)
    && (forall n {:trigger NodeOk(owner, nodes[n], n)} :: 0 <= n < |nodes| ==> NodeOk(owner, nodes[n], n))
  }

  ghost predicate SameEpochs(a: seq<NodeRec>, b: seq<NodeRec>)
  {
    |a| == |b| && forall n :: 0 <= n < |a| ==> a[n].configEpoch == b[n].configEpoch
  }

  // The counts tell whether a node has no slot, or all of them.
  lemma NumslotsTell(owner: seq<int>, nodes: seq<NodeRec>, n: nat)
    requires TableOk(owner, nodes) && n < |nodes|
    ensures nodes[n].numslots == 0 <==> forall j :: 0 <= j < CLUSTER_SLOTS ==> owner[j] != n
    ensures nodes[n].numslots == CLUSTER_SLOTS <==> forall j :: 0 <= j < CLUSTER_SLOTS ==> owner[j] == n
  {
    assert NodeOk(owner, nodes[n], n);
    NoSlots(nodes[n].slots, CLUSTER_SLOTS);
    AllSlots(nodes[n].slots, CLUSTER_SLOTS);
  }

  lemma GainSlot(owner: seq<int>, r: NodeRec, n: int, j: nat)
    requires |owner| == CLUSTER_SLOTS && j < CLUSTER_SLOTS && owner[j] != n && NodeOk(owner, r, n)
    ensures NodeOk(owner[j := n], r.(slots := SetBit(r.slots, j), numslots := r.numslots + 1), n)
  {
    var b := SetBit(r.slots, j);
    forall q | 0 <= q < CLUSTER_SLOTS
      ensures TestBit(b, q) <==> j == q || TestBit(r.slots, q)
    {
      SetBitSets(r.slots, j, q);
    }
    CountOneMore(r.slots, b, j, CLUSTER_SLOTS);
  }

  lemma LoseSlot(owner: seq<int>, r: NodeRec, n: int, j: nat)
    requires |owner| == CLUSTER_SLOTS && j < CLUSTER_SLOTS && owner[j] == n != -1 && NodeOk(owner, r, n)
    ensures NodeOk(owner[j := -1], r.(slots := ClearBit(r.slots, j), numslots := r.numslots - 1), n)
  {
    var b := ClearBit(r.slots, j);
    forall q | 0 <= q < CLUSTER_SLOTS
      ensures TestBit(b, q) <==> j != q && TestBit(r.slots, q)
    {
      ClearBitClears(r.slots, j, q);
    }
    CountOneMore(b, r.slots, j, CLUSTER_SLOTS);
  }

  // A change of a slot between two other nodes does not concern this one.
  lemma OtherSlot(owner: seq<int>, r: NodeRec, n: int, j: nat, o: int)
    requires |owner| == CLUSTER_SLOTS && j < CLUSTER_SLOTS && owner[j] != n && o != n && NodeOk(owner, r, n)
    ensures NodeOk(owner[j := o], r, n)
  {
  }

  lemma AddKeepsTable(owner: seq<int>, nodes: seq<NodeRec>, n: nat, j: nat)
    requires TableOk(owner, nodes) && n < |nodes| && j < CLUSTER_SLOTS && owner[j] == -1
    ensures var r := nodes[n];
            TableOk(owner[j := n], nodes[n := r.(slots := SetBit(r.slots, j), numslots := r.numslots + 1)])
  {
    var r := nodes[n];
    var nodes' := nodes[n := r.(slots := SetBit(r.slots, j), numslots := r.numslots + 1)];
    forall k | 0 <= k < |nodes|
      ensures NodeOk(owner[j := n], nodes'[k], k)
    {
      assert NodeOk(owner, nodes[k], k);
      if k == n {
        GainSlot(owner, r, n, j);
      } else {
        OtherSlot(owner, nodes[k], k, j, n);
      }
    }
  }

  lemma DelKeepsTable(owner: seq<int>, nodes: seq<NodeRec>, j: nat)
    requires TableOk(owner, nodes) && j < CLUSTER_SLOTS && owner[j] != -1
    ensures var n := owner[j];
            var r := nodes[n];
            && TestBit(r.slots, j)
            && TableOk(owner[j := -1], nodes[n := r.(slots := ClearBit(r.slots, j), numslots := r.numslots - 1)])
  {
    var n := owner[j];
    var r := nodes[n];
    assert NodeOk(owner, r, n);
    var nodes' := nodes[n := r.(slots := ClearBit(r.slots, j), numslots := r.numslots - 1)];
    forall k | 0 <= k < |nodes|
      ensures NodeOk(owner[j := -1], nodes'[k], k)
    {
      assert NodeOk(owner, nodes[k], k);
      if k == n {
        LoseSlot(owner, r, n, j);
      } else {
        OtherSlot(owner, nodes[k], k, j, -1);
      }
    }
  }

  // ---- Rebinding ----

  // A claim wins an unassigned slot, or one whose owner has an older configuration, unless it is being imported.
  predicate Rebinds(o: int, ownerEpoch: nat, sender: int, epoch: nat, claimed: bool, importing: bool)
  {
    claimed && o != sender && !importing && (o == -1 || ownerEpoch < epoch)
  }

  function EpochOf(nodes: seq<NodeRec>, o: int): nat { if 0 <= o < |nodes| then nodes[o].configEpoch else 0 }

  // A sender's configuration epoch and slots.
  datatype Claim = Claim(epoch: nat, slots: Bitmap)

  predicate Moves(owner: seq<int>, nodes: seq<NodeRec>, sender: int, c: Claim, importing: seq<bool>, j: nat)
    requires |owner| == |importing| == CLUSTER_SLOTS && j < CLUSTER_SLOTS
  {
    Rebinds(owner[j], EpochOf(nodes, owner[j]), sender, c.epoch, TestBit(c.slots, j), importing[j])
  }

  // The same for the claim as a whole, on the table as it was.
  ghost predicate Rebound(owner: seq<int>, nodes: seq<NodeRec>, sender: int, c: Claim, importing: seq<bool>,
                          n: nat, owner': seq<int>)
  {
    && |owner| == |importing| == |owner'| == CLUSTER_SLOTS && n <= CLUSTER_SLOTS
    && forall j :: 0 <= j < CLUSTER_SLOTS ==>
         owner'[j] == if j < n && Moves(owner, nodes, sender, c, importing, j) then sender else owner[j]
  }

  // Some of the first n slots is taken from this node.
  ghost predicate Takes(owner: seq<int>, nodes: seq<NodeRec>, sender: int, c: Claim, importing: seq<bool>,
                        n: nat, from: int)
    requires |owner| == |importing| == CLUSTER_SLOTS && n <= CLUSTER_SLOTS
  {
    exists j :: 0 <= j < n && Moves(owner, nodes, sender, c, importing, j) && owner[j] == from
  }

  // These are the slots among the first n that are taken from this node and hold keys.
  ghost predicate LostWithKeys(owner: seq<int>, nodes: seq<NodeRec>, sender: int, c: Claim, importing: seq<bool>,
                               n: nat, me: int, keys: seq<nat>, dirty: seq<nat>)
    requires |owner| == |importing| == |keys| == CLUSTER_SLOTS && n <= CLUSTER_SLOTS
  {
    forall j :: j in dirty <==>
      0 <= j < n && Moves(owner, nodes, sender, c, importing, j) && owner[j] == me && keys[j] > 0
  }

  lemma SameMoves(owner: seq<int>, nodes: seq<NodeRec>, owner': seq<int>, nodes': seq<NodeRec>,
                  sender: int, c: Claim, importing: seq<bool>, j: nat)
    requires |owner| == |owner'| == |importing| == CLUSTER_SLOTS && j < CLUSTER_SLOTS
    requires owner'[j] == owner[j] && SameEpochs(nodes, nodes')
    ensures Moves(owner', nodes', sender, c, importing, j) == Moves(owner, nodes, sender, c, importing, j)
  {
  }

  lemma ReboundStep(owner: seq<int>, nodes: seq<NodeRec>, sender: int, c: Claim, importing: seq<bool>, n: nat,
                    before: seq<int>, after: seq<int>)
    requires n < CLUSTER_SLOTS && Rebound(owner, nodes, sender, c, importing, n, before)
    requires after == if Moves(owner, nodes, sender, c, importing, n) then before[n := sender] else before
    ensures Rebound(owner, nodes, sender, c, importing, n + 1, after)
  {
  }

  lemma LostStep(owner: seq<int>, nodes: seq<NodeRec>, sender: int, c: Claim, importing: seq<bool>, n: nat,
                 me: int, keys: seq<nat>, dirty: seq<nat>, dirty': seq<nat>)
    requires |owner| == |importing| == |keys| == CLUSTER_SLOTS && n < CLUSTER_SLOTS
    requires LostWithKeys(owner, nodes, sender, c, importing, n, me, keys, dirty)
    requires dirty' == if Moves(owner, nodes, sender, c, importing, n) && owner[n] == me && keys[n] > 0
                       then dirty + [n] else dirty
    ensures LostWithKeys(owner, nodes, sender, c, importing, n + 1, me, keys, dirty')
  {
  }

  lemma TakesStep(owner: seq<int>, nodes: seq<NodeRec>, sender: int, c: Claim, importing: seq<bool>, n: nat,
                  from: int, taken: bool, taken': bool)
    requires |owner| == |importing| == CLUSTER_SLOTS && n < CLUSTER_SLOTS
    requires taken <==> Takes(owner, nodes, sender, c, importing, n, from)
    requires taken' <==> taken || (Moves(owner, nodes, sender, c, importing, n) && owner[n] == from)
    ensures taken' <==> Takes(owner, nodes, sender, c, importing, n + 1, from)
  {
  }

  class ClusterState {
    var owner: seq<int>
    var nodes: seq<NodeRec>

    ghost predicate Valid() reads this { TableOk(owner, nodes) }

    constructor (size: nat)
      ensures Valid() && |nodes| == size && owner == seq(CLUSTER_SLOTS, i => -1)
    {
      var none: Bitmap := seq(2048, i => 0);
      owner := seq(CLUSTER_SLOTS, i => -1);
      nodes := seq(size, i => NodeRec(none, 0, 0));
      new;
      NoSlots(none, CLUSTER_SLOTS);
      assert forall n :: 0 <= n < |nodes| ==> NodeOk(owner, nodes[n], n);
    }

    method AddSlot(n: nat, slot: nat) returns (ok: bool)
      requires Valid() && n < |nodes| && slot < CLUSTER_SLOTS
      modifies this
      ensures Valid() && SameEpochs(old(nodes), nodes)
      ensures ok <==> old(owner)[slot] == -1
      ensures owner == if ok then old(owner)[slot := n] else old(owner)
    {
      if owner[slot] != -1 { return false; }
      AddKeepsTable(owner, nodes, n, slot);
      var r := nodes[n];
      assert NodeOk(owner, r, n);
      var old_ := TestBit(r.slots, slot);
      nodes := nodes[n := r.(slots := SetBit(r.slots, slot), numslots := if old_ then r.numslots else r.numslots + 1)];
      owner := owner[slot := n];
      return true;
    }

    // The assertion that the owner's bit was set cannot fail.
    method DelSlot(slot: nat) returns (ok: bool)
      requires Valid() && slot < CLUSTER_SLOTS
      modifies this
      ensures Valid() && SameEpochs(old(nodes), nodes)
      ensures ok <==> old(owner)[slot] != -1
      ensures owner == old(owner)[slot := -1]
    {
      var n := owner[slot];
      if n == -1 { return false; }
      DelKeepsTable(owner, nodes, slot);
      var r := nodes[n];
      var old_ := TestBit(r.slots, slot);
      nodes := nodes[n := r.(slots := ClearBit(r.slots, slot),
                             numslots := if old_ then r.numslots - 1 else r.numslots)];
      assert old_;
      owner := owner[slot := -1];
      return true;
    }

    /* All slots of one node become unassigned. What is returned is the number of slots of the cluster, which is
       the number of deleted ones exactly if the node had them all. */
    method DelNodeSlots(n: nat) returns (deleted: nat)
      requires Valid() && n < |nodes|
      modifies this
      ensures Valid() && SameEpochs(old(nodes), nodes) && deleted == CLUSTER_SLOTS
      ensures |owner| == CLUSTER_SLOTS
      ensures forall j :: 0 <= j < CLUSTER_SLOTS ==> owner[j] == if old(owner)[j] == n then -1 else old(owner)[j]
      ensures nodes[n].numslots == 0
      ensures deleted == old(nodes[n].numslots) <==> forall j :: 0 <= j < CLUSTER_SLOTS ==> old(owner)[j] == n
    {
      NumslotsTell(owner, nodes, n);
      deleted := 0;
      var j := 0;
      while j < CLUSTER_SLOTS
        invariant j <= CLUSTER_SLOTS && deleted == j && Valid() && SameEpochs(old(nodes), nodes)
        invariant forall i :: 0 <= i < CLUSTER_SLOTS ==>
                    owner[i] == if i < j && old(owner)[i] == n then -1 else old(owner)[i]
      {
        assert NodeOk(owner, nodes[n], n);
        if TestBit(nodes[n].slots, j) {
          var _ := DelSlot(j);
        }
        deleted := deleted + 1;
        j := j + 1;
      }
      NumslotsTell(owner, nodes, n);
    }

    // One turn of the loop of clusterUpdateSlotsConfigWith.
    method ClaimSlot(sender: nat, epoch: nat, importing: seq<bool>, j: nat) returns (moved: bool)
      requires Valid() && sender < |nodes| && |importing| == CLUSTER_SLOTS && j < CLUSTER_SLOTS
      modifies this
      ensures Valid() && SameEpochs(old(nodes), nodes)
      ensures moved <==> Rebinds(old(owner)[j], EpochOf(old(nodes), old(owner)[j]), sender, epoch, true, importing[j])
      ensures owner == if moved then old(owner)[j := sender] else old(owner)
    {
      if owner[j] == sender { return false; }
      if importing[j] { return false; }
      if owner[j] == -1 || nodes[owner[j]].configEpoch < epoch {
        var _ := DelSlot(j);
        var _ := AddSlot(sender, j);
        return true;
      }
      return false;
    }

    /* The loop of clusterUpdateSlotsConfigWith: precisely the slots claimed with a newer configuration move;
       dirty are those of them that were this node's and hold keys; `taken` says that the current master lost one. */
    method RebindSlots(sender: nat, c: Claim, importing: seq<bool>, myself: nat, curmaster: int, keys: seq<nat>)
      returns (taken: bool, dirty: seq<nat>)
      requires Valid() && sender < |nodes| && |importing| == |keys| == CLUSTER_SLOTS
      modifies this
      ensures Valid() && SameEpochs(old(nodes), nodes)
      ensures Rebound(old(owner), old(nodes), sender, c, importing, CLUSTER_SLOTS, owner)
      ensures LostWithKeys(old(owner), old(nodes), sender, c, importing, CLUSTER_SLOTS, myself, keys, dirty)
      ensures taken <==> Takes(old(owner), old(nodes), sender, c, importing, CLUSTER_SLOTS, curmaster)
    {
      taken, dirty := false, [];
      var j := 0;
      while j < CLUSTER_SLOTS
        invariant j <= CLUSTER_SLOTS && Valid() && SameEpochs(old(nodes), nodes)
        invariant Rebound(old(owner), old(nodes), sender, c, importing, j, owner)
        invariant LostWithKeys(old(owner), old(nodes), sender, c, importing, j, myself, keys, dirty)
        invariant taken <==> Takes(old(owner), old(nodes), sender, c, importing, j, curmaster)
      {
        ghost var owner0, dirty0, taken0 := owner, dirty, taken;
        SameMoves(old(owner), old(nodes), owner, nodes, sender, c, importing, j);
        if TestBit(c.slots, j) {
          var before := owner[j];
          var moved := ClaimSlot(sender, c.epoch, importing, j);
          if moved {
            if before == myself && keys[j] > 0 { dirty := dirty + [j]; }
            if before == curmaster { taken := true; }
          }
        }
        ReboundStep(old(owner), old(nodes), sender, c, importing, j, owner0, owner);
        LostStep(old(owner), old(nodes), sender, c, importing, j, myself, keys, dirty0, dirty);
        TakesStep(old(owner), old(nodes), sender, c, importing, j, curmaster, taken0, taken);
        j := j + 1;
      }
    }

    /* clusterUpdateSlotsConfigWith: `follow` asks to become a replica of the sender, exactly when a claim took the
       last slot of this node or of its master; `drop` are the slots whose keys are deleted otherwise. */
    method UpdateSlotsConfigWith(sender: nat, c: Claim, importing: seq<bool>, myself: nat, curmaster: nat,
                                 keys: seq<nat>)
      returns (follow: bool, drop: seq<nat>)
      requires Valid() && sender < |nodes| && curmaster < |nodes| && |importing| == |keys| == CLUSTER_SLOTS
      modifies this
      ensures Valid() && SameEpochs(old(nodes), nodes)
      ensures sender == myself ==> owner == old(owner) && !follow && drop == []
      ensures sender != myself ==>
                && Rebound(old(owner), old(nodes), sender, c, importing, CLUSTER_SLOTS, owner)
                && (follow <==> curmaster in old(owner) && curmaster !in owner)
                && if follow then drop == []
                   else LostWithKeys(old(owner), old(nodes), sender, c, importing, CLUSTER_SLOTS, myself, keys, drop)
    {
      if sender == myself { return false, []; }
      var taken;
      taken, drop := RebindSlots(sender, c, importing, myself, curmaster, keys);
      NumslotsTell(owner, nodes, curmaster);
      LostAll(old(owner), old(nodes), sender, c, importing, owner, curmaster);
      follow := taken && nodes[curmaster].numslots == 0;
      if follow { drop := []; }
    }

    ghost function View(importing: seq<bool>): Table
      reads this
    {
      Table(owner, seq(|nodes|, n requires 0 <= n < |nodes| reads this => nodes[n].configEpoch), importing)
    }

    /* A header from a master: its epoch is recorded, and its slots are looked at only if they are not those the
       node already has. */
    method Process(sender: nat, c: Claim, importing: seq<bool>, myself: nat, curmaster: nat, keys: seq<nat>)
      requires Valid() && sender < |nodes| && curmaster < |nodes| && sender != myself
      requires |importing| == |keys| == CLUSTER_SLOTS
      modifies this
      ensures Valid() && View(importing) == Hear(old(View(importing)), sender, c)
    {
      ghost var t := View(importing);
      RecordKeepsTable(owner, nodes, sender, Max(nodes[sender].configEpoch, c.epoch));
      if c.epoch > nodes[sender].configEpoch {
        nodes := nodes[sender := nodes[sender].(configEpoch := c.epoch)];
      }
      ghost var recorded := nodes;
      if nodes[sender].slots != c.slots {
        var _, _ := UpdateSlotsConfigWith(sender, c, importing, myself, curmaster, keys);
      } else {
        assert NodeOk(owner, nodes[sender], sender);
      }
      assert SameEpochs(recorded, nodes);
      HearIsRebound(t, recorded, sender, c, owner);
      assert View(importing).epochs == Hear(t, sender, c).epochs;
    }
  }

  // A master that lost a slot to the sender is left with none if and only if it had some and has none.
  lemma LostAll(owner: seq<int>, nodes: seq<NodeRec>, sender: int, c: Claim, importing: seq<bool>, owner': seq<int>,
                m: nat)
    requires Rebound(owner, nodes, sender, c, importing, CLUSTER_SLOTS, owner')
    ensures Takes(owner, nodes, sender, c, importing, CLUSTER_SLOTS, m)
            && (forall j :: 0 <= j < CLUSTER_SLOTS ==> owner'[j] != m)
            <==> m in owner && m !in owner'
  {
  }

  lemma RecordKeepsTable(owner: seq<int>, nodes: seq<NodeRec>, n: nat, epoch: nat)
    requires TableOk(owner, nodes) && n < |nodes|
    ensures TableOk(owner, nodes[n := nodes[n].(configEpoch := epoch)])
  {
    var nodes' := nodes[n := nodes[n].(configEpoch := epoch)];
    forall k | 0 <= k < |nodes'|
      ensures NodeOk(owner, nodes'[k], k)
    {
      assert NodeOk(owner, nodes[k], k);
    }
  }

  // ---- Claims in any order ----

  // The receiver's table, the configuration epochs it has recorded, and the slots it is importing.
  datatype Table = Table(owner: seq<int>, epochs: seq<nat>, importing: seq<bool>)

  ghost predicate Distinct(claims: seq<Claim>)
  {
    forall a, b :: 0 <= a < b < |claims| ==> claims[a].epoch != claims[b].epoch
  }

  ghost predicate Fits(t: Table, size: nat)
  {
    && |t.owner| == |t.importing| == CLUSTER_SLOTS && |t.epochs| == size
    && forall j :: 0 <= j < CLUSTER_SLOTS ==> -1 <= t.owner[j] < size
  }

  // A header from node n: its epoch is recorded, then its slots are considered.
  ghost function Hear(t: Table, n: nat, c: Claim): (u: Table)
    requires n < |t.epochs| && Fits(t, |t.epochs|)
    ensures Fits(u, |t.epochs|) && u.importing == t.importing
  {
    var epochs := t.epochs[n := Max(t.epochs[n], c.epoch)];
    Table(seq(CLUSTER_SLOTS, j requires 0 <= j < CLUSTER_SLOTS =>
            HeardOwner(t.owner[j], epochs, n, c, j, t.importing[j])),
          epochs, t.importing)
  }

  function HeardOwner(o: int, epochs: seq<nat>, n: nat, c: Claim, j: nat, importing: bool): int
    requires j < CLUSTER_SLOTS && -1 <= o < |epochs|
  {
    if Rebinds(o, if o == -1 then 0 else epochs[o], n, c.epoch, TestBit(c.slots, j), importing) then n else o
  }

  // The loop, with the epoch recorded, gives what is heard.
  lemma HearIsRebound(t: Table, nodes: seq<NodeRec>, n: nat, c: Claim, owner': seq<int>)
    requires n < |t.epochs| == |nodes| && Fits(t, |nodes|) && |owner'| == CLUSTER_SLOTS
    requires forall k :: 0 <= k < |nodes| ==>
               nodes[k].configEpoch == if k == n then Max(t.epochs[n], c.epoch) else t.epochs[k]
    requires || Rebound(t.owner, nodes, n, c, t.importing, CLUSTER_SLOTS, owner')
             || (owner' == t.owner && forall j :: 0 <= j < CLUSTER_SLOTS && TestBit(c.slots, j) ==> t.owner[j] == n)
    ensures owner' == Hear(t, n, c).owner
  {
    var u := Hear(t, n, c);
    forall j | 0 <= j < CLUSTER_SLOTS
      ensures owner'[j] == u.owner[j]
    {
      var o := t.owner[j];
      assert o != -1 ==> EpochOf(nodes, o) == u.epochs[o];
    }
  }

  ghost function HearAll(t: Table, claims: seq<Claim>, order: seq<nat>): (u: Table)
    requires Fits(t, |claims|) && forall i :: 0 <= i < |order| ==> order[i] < |claims|
    ensures Fits(u, |claims|) && u.importing == t.importing
  {
    if order == [] then t
    else
      var n := order[|order| - 1];
      Hear(HearAll(t, claims, order[..|order| - 1]), n, claims[n])
  }

  // The owner of a slot is the node with the newest configuration among those heard that claim it.
  ghost predicate Newest(claims: seq<Claim>, heard: set<nat>, j: nat, o: int)
    requires j < CLUSTER_SLOTS
  {
    && (o == -1 ==> forall n :: n in heard && n < |claims| ==> !TestBit(claims[n].slots, j))
    && (o != -1 ==>
          && 0 <= o < |claims| && o in heard && TestBit(claims[o].slots, j)
          && forall n :: n in heard && n < |claims| && TestBit(claims[n].slots, j) ==>
               claims[n].epoch <= claims[o].epoch)
  }

  ghost predicate TableNewest(t: Table, claims: seq<Claim>, heard: set<nat>)
  {
    && Fits(t, |claims|)
    && (forall j {:trigger t.owner[j]} :: 0 <= j < CLUSTER_SLOTS && !t.importing[j] ==>
          Newest(claims, heard, j, t.owner[j]))
    && (forall n :: 0 <= n < |claims| ==> t.epochs[n] == if n in heard then claims[n].epoch else 0)
  }

  lemma HearKeepsNewest(t: Table, claims: seq<Claim>, heard: set<nat>, n: nat)
    requires Distinct(claims) && TableNewest(t, claims, heard) && n < |claims|
    ensures TableNewest(Hear(t, n, claims[n]), claims, heard + {n})
  {
    var u := Hear(t, n, claims[n]);
    forall j | 0 <= j < CLUSTER_SLOTS && !u.importing[j]
      ensures Newest(claims, heard + {n}, j, u.owner[j])
    {
      assert Newest(claims, heard, j, t.owner[j]);
    }
  }

  ghost function Elements(order: seq<nat>): set<nat> { set x | x in order }

  lemma {:induction false} HearAllNewest(t: Table, claims: seq<Claim>, heard: set<nat>, order: seq<nat>)
    requires Distinct(claims) && TableNewest(t, claims, heard) && forall i :: 0 <= i < |order| ==> order[i] < |claims|
    ensures TableNewest(HearAll(t, claims, order), claims, heard + Elements(order))
  {
    if order == [] {
      assert heard + Elements(order) == heard;
    } else {
      var n := |order| - 1;
      HearAllNewest(t, claims, heard, order[..n]);
      assert order == order[..n] + [order[n]];
      assert heard + Elements(order) == (heard + Elements(order[..n])) + {order[n]};
      HearKeepsNewest(HearAll(t, claims, order[..n]), claims, heard + Elements(order[..n]), order[n]);
    }
  }

  // A slot that is being imported keeps its owner, whatever is claimed.
  lemma {:induction false} ImportedKept(t: Table, claims: seq<Claim>, order: seq<nat>, j: nat)
    requires Fits(t, |claims|) && j < CLUSTER_SLOTS && t.importing[j]
    requires forall i :: 0 <= i < |order| ==> order[i] < |claims|
    ensures HearAll(t, claims, order).owner[j] == t.owner[j]
  {
    if order != [] {
      ImportedKept(t, claims, order[..|order| - 1], j);
    }
  }

  /* Two nodes that come to have heard the same claims, whatever each had heard before, in whatever order and
     however often, agree on every slot that neither is importing: the newest configuration that claims it owns it. */
  lemma ClaimsConverge(claims: seq<Claim>, t: Table, heardT: set<nat>, order: seq<nat>,
                       u: Table, heardU: set<nat>, other: seq<nat>)
    requires Distinct(claims) && TableNewest(t, claims, heardT) && TableNewest(u, claims, heardU)
    requires heardT + Elements(order) == heardU + Elements(other)
    requires forall i :: 0 <= i < |order| ==> order[i] < |claims|
    requires forall i :: 0 <= i < |other| ==> other[i] < |claims|
    ensures HearAll(t, claims, order).epochs == HearAll(u, claims, other).epochs
    ensures forall j :: 0 <= j < CLUSTER_SLOTS && !t.importing[j] && !u.importing[j] ==>
              && HearAll(t, claims, order).owner[j] == HearAll(u, claims, other).owner[j]
              && Newest(claims, heardT + Elements(order), j, HearAll(t, claims, order).owner[j])
  {
    HearAllNewest(t, claims, heardT, order);
    HearAllNewest(u, claims, heardU, other);
    NewestIsUnique(HearAll(t, claims, order), HearAll(u, claims, other), claims, heardT + Elements(order));
  }

  // A node that has heard nothing has a table like that.
  lemma NothingHeard(claims: seq<Claim>, importing: seq<bool>)
    requires |importing| == CLUSTER_SLOTS
    ensures TableNewest(Table(seq(CLUSTER_SLOTS, _ => -1), seq(|claims|, _ => 0), importing), claims, {})
  {
  }

  lemma NewestIsUnique(t: Table, u: Table, claims: seq<Claim>, heard: set<nat>)
    requires Distinct(claims) && TableNewest(t, claims, heard) && TableNewest(u, claims, heard)
    ensures t.epochs == u.epochs
    ensures forall j :: 0 <= j < CLUSTER_SLOTS && !t.importing[j] && !u.importing[j] ==>
              t.owner[j] == u.owner[j] && Newest(claims, heard, j, t.owner[j])
  {
    forall j | 0 <= j < CLUSTER_SLOTS && !t.importing[j] && !u.importing[j]
      ensures t.owner[j] == u.owner[j] && Newest(claims, heard, j, t.owner[j])
    {
      assert Newest(claims, heard, j, t.owner[j]) && Newest(claims, heard, j, u.owner[j]);
    }
  }
}
