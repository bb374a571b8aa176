/**
Current and configuration epochs as they spread through a cluster by message headers and UPDATE
messages, and the resolution of colliding configuration epochs.
Nodes are numbered in decreasing order of their names: node 0 has the greatest one.
*/
module ConfigEpochs {
  import opened Basics

  // ---- One node ----

  /* What a node knows: the current epoch, the configuration epoch of every node, its own included, whether it
     is a master, and the node it replicates, itself when there is none.
     `held` and `bumps` are history: every configuration epoch it has had, and how often a collision moved it. */
  datatype Node = Node(current: nat, known: seq<nat>, isMaster: bool, of: nat, held: set<nat>, bumps: nat)

  // `fromMaster`: the header names no node that its sender replicates.
  datatype Message =
    | Header(src: nat, current: nat, config: nat, fromMaster: bool)
    | Update(src: nat, current: nat, config: nat, about: nat, reported: nat)

  // A header is learnt from before anything else.
  function Learn(x: Node, m: Message): Node
    requires m.src < |x.known|
  {
    x.(current := Max(x.current, m.current), known := x.known[m.src := Max(x.known[m.src], m.config)])
  }

  predicate Collides(x: Node, n: nat, m: Message)
    requires n < |x.known| && m.src < |x.known|
  {
    && m.Header? && m.fromMaster && x.isMaster
    && m.config == x.known[n] && x.known[m.src] == x.known[n] && m.src < n
  }

  function Raise(x: Node, n: nat, epoch: nat): Node
    requires n < |x.known|
  {
    x.(known := x.known[n := epoch], held := x.held + {epoch})
  }

  function Moved(x: Node, n: nat): Node
    requires n < |x.known|
  {
    Raise(x, n, x.current + 1).(current := x.current + 1, bumps := x.bumps + 1)
  }

  // A node that is reported with a newer configuration epoch is a master, even if it is the receiver.
  function Reported(x: Node, n: nat, about: nat, epoch: nat): Node
    requires n < |x.known| && about < |x.known|
  {
    if x.known[about] >= epoch then x
    else if about == n then Raise(x, n, epoch).(isMaster := true, of := n)
    else x.(known := x.known[about := epoch])
  }

  function Receive(x: Node, n: nat, m: Message): Node
    requires n < |x.known| && m.src < |x.known| && (m.Update? ==> m.about < |x.known|)
  {
    var y := Learn(x, m);
    if Collides(y, n, m) then Moved(y, n)
    else if m.Update? then Reported(y, n, m.about, m.reported)
    else y
  }

  function Bumped(x: Node, n: nat): Node
    requires n < |x.known|
  {
    if x.known[n] == 0 || x.known[n] < x.current then Raise(x, n, x.current + 1).(current := x.current + 1) else x
  }

  ghost predicate IsMax(m: nat, known: seq<nat>, current: nat)
  {
    (m == current || m in known) && current <= m && forall j :: 0 <= j < |known| ==> known[j] <= m
  }

  class Epochs {
    var currentEpoch: nat
    var known: seq<nat>
    var isMaster: bool
    var of: nat
    const me: nat
    ghost var held: set<nat>
    ghost var bumps: nat

    ghost predicate Valid() reads this { me < |known| && forall j :: 0 <= j < |known| ==> known[j] <= currentEpoch }

    ghost function View(): Node reads this { Node(currentEpoch, known, isMaster, of, held, bumps) }

    constructor (me: nat, size: nat)
      requires me < size
      ensures Valid() && this.me == me && View() == Node(0, seq(size, i => 0), true, me, {0}, 0)
    {
      this.me := me;
      currentEpoch, known := 0, seq(size, i => 0);
      isMaster, of := true, me;
      held, bumps := {0}, 0;
    }

    method GetMaxEpoch() returns (max: nat)
      ensures IsMax(max, known, currentEpoch)
    {
      max := 0;
      var j := 0;
      while j < |known|
        invariant j <= |known| && (max == 0 || max in known[..j])
        invariant forall i :: 0 <= i < j ==> known[i] <= max
      {
        if known[j] > max { max := known[j]; }
        assert known[..j + 1] == known[..j] + [known[j]];
        j := j + 1;
      }
      assert known[..j] == known;
      if max < currentEpoch { max := currentEpoch; }
    }

    /* clusterBumpConfigEpochWithoutConsensus: the new epoch is above all this node knows; it is refused only
       to a node that already has the greatest. */
    method BumpWithoutConsensus() returns (ok: bool)
      requires Valid()
      modifies this
      ensures Valid() && View() == old(Bumped(View(), me))
      ensures ok <==> (old(known[me]) == 0 || old(known[me] < currentEpoch))
      ensures ok ==> forall j :: 0 <= j < |known| && j != me ==> known[j] < known[me]
    {
      var max := GetMaxEpoch();
      if known[me] == 0 || known[me] != max {
        currentEpoch := currentEpoch + 1;
        known := known[me := currentEpoch];
        held := held + {currentEpoch};
        return true;
      }
      return false;
    }

    // clusterHandleConfigEpochCollision
    method HandleCollision(sender: nat, senderIsMaster: bool)
      requires me < |known| && sender < |known|
      modifies this
      ensures View() == if old(known[sender] == known[me]) && senderIsMaster && old(isMaster) && sender < me
                        then old(Moved(View(), me)) else old(View())
    {
      if known[sender] != known[me] || !senderIsMaster || !isMaster { return; }
      if sender >= me { return; }
      currentEpoch := currentEpoch + 1;
      known := known[me := currentEpoch];
      held, bumps := held + {currentEpoch}, bumps + 1;
    }

    // The header of every message of a known node.
    method LearnFrom(m: Message)
      requires m.src < |known|
      modifies this
      ensures View() == old(Learn(View(), m))
    {
      if m.current > currentEpoch { currentEpoch := m.current; }
      if m.config > known[m.src] { known := known[m.src := m.config]; }
    }

    // The UPDATE case of clusterProcessPacket
    method ProcessUpdate(about: nat, reported: nat)
      requires me < |known| && about < |known|
      modifies this
      ensures View() == old(Reported(View(), me, about, reported))
    {
      if known[about] >= reported { return; }
      if about == me {
        isMaster, of := true, me;
        held := held + {reported};
      }
      known := known[about := reported];
    }

    // What clusterProcessPacket does about epochs.
    method Process(m: Message)
      requires me < |known| && m.src < |known| && (m.Update? ==> m.about < |known|)
      modifies this
      ensures View() == old(Receive(View(), me, m))
    {
      LearnFrom(m);
      match m
      case Header(src, _, config, fromMaster) =>
        if isMaster && fromMaster && config == known[me] {
          HandleCollision(src, fromMaster);
        }
      case Update(_, _, _, about, reported) => ProcessUpdate(about, reported);
    }
  }

  // ---- The cluster ----

  datatype Cluster = Cluster(nodes: seq<Node>, net: set<Message>)

  datatype Event =
    | Send(n: nat)
    | SendUpdate(n: nat, about: nat)
    | Deliver(n: nat, m: Message)
    | Bump(n: nat)                          // without consensus
    | Elect(n: nat, epoch: nat)             // an election won
    | Assign(n: nat, epoch: nat)            // CLUSTER SET-CONFIG-EPOCH
    | Follow(n: nat, master: nat)           // the node becomes a replica

  function Own(c: Cluster, n: nat): nat
    requires n < |c.nodes| && n < |c.nodes[n].known|
  {
    c.nodes[n].known[n]
  }

  ghost predicate Shaped(c: Cluster)
  {
    forall n :: 0 <= n < |c.nodes| ==> |c.nodes[n].known| == |c.nodes| && c.nodes[n].of < |c.nodes|
  }

  ghost predicate Enabled(c: Cluster, e: Event)
    requires Shaped(c)
  {
    match e
    case Send(n) => n < |c.nodes|
    case SendUpdate(n, about) => n < |c.nodes| && about < |c.nodes|
    case Deliver(n, m) =>
      m in c.net && n < |c.nodes| && m.src < |c.nodes| && n != m.src && (m.Update? ==> m.about < |c.nodes|)
    case Bump(n) => n < |c.nodes|
    case Elect(n, epoch) => n < |c.nodes| && epoch <= c.nodes[n].current
    case Assign(n, epoch) => n < |c.nodes| && Own(c, n) == 0
    case Follow(n, master) => n < |c.nodes| && master < |c.nodes|
  }

  // A replica's header carries the configuration epoch of its master.
  function Sent(c: Cluster, n: nat): nat
    requires n < |c.nodes| && c.nodes[n].of < |c.nodes[n].known|
  {
    c.nodes[n].known[c.nodes[n].of]
  }

  function Fresh(c: Cluster, n: nat): Message
    requires n < |c.nodes| && c.nodes[n].of < |c.nodes[n].known|
  {
    Header(n, c.nodes[n].current, Sent(c, n), c.nodes[n].of == n)
  }

  function FreshUpdate(c: Cluster, n: nat, about: nat): Message
    requires n < |c.nodes| && c.nodes[n].of < |c.nodes[n].known| && about < |c.nodes[n].known|
  {
    Update(n, c.nodes[n].current, Sent(c, n), about, c.nodes[n].known[about])
  }

  ghost function Next(c: Cluster, e: Event): Cluster
    requires Shaped(c) && Enabled(c, e)
  {
    match e
    case Send(n) => c.(net := c.net + {Fresh(c, n)})
    case SendUpdate(n, about) => c.(net := c.net + {FreshUpdate(c, n, about)})
    case Deliver(n, m) => c.(nodes := c.nodes[n := Receive(c.nodes[n], n, m)])
    case Bump(n) => c.(nodes := c.nodes[n := Bumped(c.nodes[n], n)])
    case Elect(n, epoch) =>
      c.(nodes := c.nodes[n := Raise(c.nodes[n], n, Max(Own(c, n), epoch)).(isMaster := true, of := n)])
    case Assign(n, epoch) =>
      var x := c.nodes[n];
      c.(nodes := c.nodes[n := Raise(x, n, epoch).(current := Max(x.current, epoch))])
    case Follow(n, master) => c.(nodes := c.nodes[n := c.nodes[n].(isMaster := false, of := master)])
  }

  // ---- No configuration epoch is ahead of the current epoch ----

  ghost predicate NodeGood(x: Node)
  {
    forall j :: 0 <= j < |x.known| ==> x.known[j] <= x.current
  }

  predicate MessageGood(m: Message)
  {
    m.config <= m.current && (m.Update? ==> m.reported <= m.current)
  }

  ghost predicate EpochsGood(c: Cluster)
  {
    && (forall n :: 0 <= n < |c.nodes| ==> NodeGood(c.nodes[n]))
    && (forall m :: m in c.net ==> MessageGood(m))
  }

  // Epochs never go back.
  ghost predicate Grows(x: Node, y: Node)
  {
    x.current <= y.current && |x.known| == |y.known| && forall j :: 0 <= j < |x.known| ==> x.known[j] <= y.known[j]
  }

  lemma ReceiveGood(x: Node, n: nat, m: Message)
    requires NodeGood(x) && MessageGood(m)
    requires n < |x.known| && m.src < |x.known| && (m.Update? ==> m.about < |x.known|)
    ensures NodeGood(Receive(x, n, m)) && Grows(x, Receive(x, n, m))
  {
    assert NodeGood(Learn(x, m)) && Grows(x, Learn(x, m));
  }

  /* What a message brings is recorded, and no record changes that it says nothing about: of the others only the
     receiver's own may move, by a collision. */
  lemma ReceiveRecords(x: Node, n: nat, m: Message)
    requires n < |x.known| && m.src < |x.known| && n != m.src && (m.Update? ==> m.about < |x.known|)
    ensures var y := Receive(x, n, m);
            && y.current >= x.current && y.current >= m.current && |y.known| == |x.known|
            && y.known[m.src] >= m.config && (m.Update? ==> y.known[m.about] >= m.reported)
            && (y.known[m.src] == x.known[m.src] || y.known[m.src] == m.config || (m.Update? && m.about == m.src))
            && (m.Update? ==> y.known[m.about] in {x.known[m.about], m.reported, m.config})
            && (forall j :: 0 <= j < |x.known| && j != m.src && j != n && !(m.Update? && j == m.about) ==>
                  y.known[j] == x.known[j])
            && (m.Update? && m.about != n ==> y.known[n] == x.known[n])
            && (m.Header? ==> y.known[n] == x.known[n] || Collides(Learn(x, m), n, m))
  {
  }

  // A collision ends with an epoch of its own for the receiver: newer than all that it knows.
  lemma CollisionResolved(x: Node, n: nat, m: Message)
    requires NodeGood(x) && MessageGood(m) && n < |x.known| && m.src < |x.known| && m.Header?
    requires Collides(Learn(x, m), n, m)
    ensures var y := Receive(x, n, m);
            && |y.known| == |x.known| && y.known[n] == y.current > x.current && y.bumps == x.bumps + 1
            && forall j :: 0 <= j < |y.known| && j != n ==> y.known[j] < y.known[n]
  {
  }

  ghost predicate AllGrow(c: Cluster, d: Cluster)
  {
    |c.nodes| == |d.nodes| && forall n :: 0 <= n < |c.nodes| ==> Grows(c.nodes[n], d.nodes[n])
  }

  ghost predicate GoodStep(c: Cluster, d: Cluster)
  {
    Shaped(d) && EpochsGood(d) && AllGrow(c, d)
  }

  lemma SendGood(c: Cluster, m: Message)
    requires Shaped(c) && EpochsGood(c) && MessageGood(m)
    ensures GoodStep(c, c.(net := c.net + {m}))
  {
  }

  lemma ReplaceGood(c: Cluster, n: nat, y: Node)
    requires Shaped(c) && EpochsGood(c) && n < |c.nodes| && NodeGood(y) && Grows(c.nodes[n], y) && y.of < |c.nodes|
    ensures GoodStep(c, c.(nodes := c.nodes[n := y]))
  {
  }

  lemma NextGood(c: Cluster, e: Event)
    requires Shaped(c) && EpochsGood(c) && Enabled(c, e)
    ensures Shaped(Next(c, e)) && EpochsGood(Next(c, e)) && AllGrow(c, Next(c, e))
  {
    match e
    case Send(n) => SendGood(c, Fresh(c, n));
    case SendUpdate(n, about) => SendGood(c, FreshUpdate(c, n, about));
    case Deliver(n, m) =>
      ReceiveGood(c.nodes[n], n, m);
      ReplaceGood(c, n, Receive(c.nodes[n], n, m));
    case Bump(n) =>
      ReplaceGood(c, n, Bumped(c.nodes[n], n));
    case Elect(n, epoch) =>
      ReplaceGood(c, n, Raise(c.nodes[n], n, Max(Own(c, n), epoch)).(isMaster := true, of := n));
    case Assign(n, epoch) =>
      ReplaceGood(c, n, Raise(c.nodes[n], n, epoch).(current := Max(c.nodes[n].current, epoch)));
    case Follow(n, master) =>
      ReplaceGood(c, n, c.nodes[n].(isMaster := false, of := master));
  }

  // ---- No node overestimates a master ----

  // The node speaks for itself and not for a master.
  predicate Speaks(c: Cluster, n: nat) { n < |c.nodes| && c.nodes[n].of == n }

  ghost predicate Honest(c: Cluster)
    requires Shaped(c)
  {
    && (forall i, j :: 0 <= i < |c.nodes| && 0 <= j < |c.nodes| && Speaks(c, j) ==> c.nodes[i].known[j] <= Own(c, j))
    && (forall m :: m in c.net ==> MessageHonest(c, m))
  }

  predicate MessageHonest(c: Cluster, m: Message)
    requires forall n :: 0 <= n < |c.nodes| ==> |c.nodes[n].known| == |c.nodes|
  {
    && m.src < |c.nodes| && (Speaks(c, m.src) ==> m.config <= Own(c, m.src))
    && (m.Header? && m.fromMaster ==> Speaks(c, m.src))
    && (m.Update? ==> Speaks(c, m.about) && m.reported <= Own(c, m.about))
  }

  // The step changes no role and reports on masters only.
  predicate RolesKept(c: Cluster, e: Event)
  {
    !e.Follow? && (e.Elect? ==> Speaks(c, e.n)) && (e.SendUpdate? ==> Speaks(c, e.about))
  }

  lemma ReceiveOwn(c: Cluster, n: nat, m: Message, y: Node)
    requires Shaped(c) && EpochsGood(c) && Honest(c) && Enabled(c, Deliver(n, m)) && y == Receive(c.nodes[n], n, m)
    ensures y.of == c.nodes[n].of && Own(c, n) <= y.known[n]
    ensures forall j :: 0 <= j < |c.nodes| && j != n && Speaks(c, j) ==> y.known[j] <= Own(c, j)
  {
    assert MessageHonest(c, m);
  }

  lemma ReceiveHonest(c: Cluster, n: nat, m: Message)
    requires Shaped(c) && EpochsGood(c) && Honest(c) && Enabled(c, Deliver(n, m))
    ensures var d := Next(c, Deliver(n, m)); Shaped(d) && Honest(d)
  {
    var d := Next(c, Deliver(n, m));
    NextGood(c, Deliver(n, m));
    ReceiveOwn(c, n, m, d.nodes[n]);
    GrownHonest(c, d, n);
  }

  // A node that raises only what it may and keeps its role.
  lemma GrownHonest(c: Cluster, d: Cluster, n: nat)
    requires Shaped(c) && Honest(c) && n < |c.nodes| == |d.nodes| && Shaped(d) && d.net == c.net
    requires d.nodes == c.nodes[n := d.nodes[n]] && d.nodes[n].of == c.nodes[n].of && Own(c, n) <= Own(d, n)
    requires forall j :: 0 <= j < |c.nodes| && j != n && Speaks(c, j) ==> d.nodes[n].known[j] <= Own(c, j)
    ensures Honest(d)
  {
    assert forall j :: Speaks(c, j) <==> Speaks(d, j);
    assert forall j :: 0 <= j < |c.nodes| ==> Own(c, j) <= Own(d, j);
    forall m | m in d.net
      ensures MessageHonest(d, m)
    {
      assert MessageHonest(c, m);
    }
  }

  lemma RaiseHonest(c: Cluster, n: nat, y: Node)
    requires Shaped(c) && Honest(c) && n < |c.nodes| == |y.known| && Own(c, n) <= y.known[n]
    requires y.known == c.nodes[n].known[n := y.known[n]] && y.of == c.nodes[n].of
    ensures var d := c.(nodes := c.nodes[n := y]); Shaped(d) && Honest(d)
  {
    var d := c.(nodes := c.nodes[n := y]);
    assert Shaped(d);
    GrownHonest(c, d, n);
  }

  lemma SendHonest(c: Cluster, m: Message)
    requires Shaped(c) && Honest(c) && MessageHonest(c, m)
    ensures var d := c.(net := c.net + {m}); Shaped(d) && Honest(d)
  {
    var d := c.(net := c.net + {m});
    assert Shaped(d);
    assert forall j :: Speaks(c, j) <==> Speaks(d, j);
    forall m' | m' in d.net
      ensures MessageHonest(d, m')
    {
      assert MessageHonest(c, m');
    }
  }

  // While roles stay, a record of a master's configuration epoch is never ahead of that master.
  lemma NextHonest(c: Cluster, e: Event)
    requires Shaped(c) && EpochsGood(c) && Honest(c) && Enabled(c, e) && RolesKept(c, e)
    ensures var d := Next(c, e); Shaped(d) && Honest(d)
  {
    var d := Next(c, e);
    match e
    case Send(n) => SendHonest(c, Fresh(c, n));
    case SendUpdate(n, about) => SendHonest(c, FreshUpdate(c, n, about));
    case Deliver(n, m) => ReceiveHonest(c, n, m);
    case Bump(n) => RaiseHonest(c, n, d.nodes[n]);
    case Elect(n, _) => RaiseHonest(c, n, d.nodes[n]);
    case Assign(n, _) => RaiseHonest(c, n, d.nodes[n]);
  }

  // ---- Collisions ----

  ghost predicate HeldByGreater(c: Cluster, n: nat, v: nat)
    requires n <= |c.nodes|
  {
    exists j :: 0 <= j < n && v in c.nodes[j].held
  }

  // A node leaves a configuration epoch only to one with a greater name that has, or had, the same.
  ghost predicate HistoryGood(c: Cluster, n: nat)
    requires Shaped(c) && n < |c.nodes|
  {
    var x := c.nodes[n];
    && Own(c, n) in x.held && |x.held| == x.bumps + 1
    && (forall v :: v in x.held ==> v <= Own(c, n))
    && (forall v :: v in x.held && v != Own(c, n) ==> HeldByGreater(c, n, v))
  }

  ghost predicate HistoriesGood(c: Cluster)
    requires Shaped(c)
  {
    && (forall n {:trigger HistoryGood(c, n)} :: 0 <= n < |c.nodes| ==> HistoryGood(c, n))
    && (forall m :: m in c.net && Speaks(c, m.src) ==> m.config in c.nodes[m.src].held)
  }

  predicate GossipOnly(e: Event) { e.Send? || e.SendUpdate? || e.Deliver? }

  // What a delivery does to the receiver's own configuration epoch: nothing, or a collision moves it past all others.
  lemma ReceiveEffect(c: Cluster, n: nat, m: Message)
    requires Shaped(c) && EpochsGood(c) && Honest(c) && Enabled(c, Deliver(n, m))
    ensures var x, y := c.nodes[n], Receive(c.nodes[n], n, m);
            || (y.known[n] == x.known[n] && y.held == x.held && y.bumps == x.bumps)
            || (&& m.config == x.known[n] && m.src < n && Speaks(c, m.src) && x.current < y.known[n]
                && y.held == x.held + {y.known[n]} && y.bumps == x.bumps + 1)
  {
    assert MessageHonest(c, m);
  }

  lemma HeldGrows(c: Cluster, d: Cluster, n: nat, v: nat)
    requires n <= |c.nodes| == |d.nodes| && HeldByGreater(c, n, v)
    requires forall j :: 0 <= j < n ==> c.nodes[j].held <= d.nodes[j].held
    ensures HeldByGreater(d, n, v)
  {
    var j :| 0 <= j < n && v in c.nodes[j].held;
    assert v in d.nodes[j].held;
  }

  // A node whose own epoch and history did not change, while the others' histories only grew.
  lemma SameHistory(c: Cluster, d: Cluster, n: nat)
    requires Shaped(c) && Shaped(d) && n < |c.nodes| == |d.nodes| && HistoryGood(c, n)
    requires Own(d, n) == Own(c, n) && d.nodes[n].held == c.nodes[n].held && d.nodes[n].bumps == c.nodes[n].bumps
    requires forall j :: 0 <= j < n ==> c.nodes[j].held <= d.nodes[j].held
    ensures HistoryGood(d, n)
  {
    forall v | v in d.nodes[n].held && v != Own(d, n)
      ensures HeldByGreater(d, n, v)
    {
      HeldGrows(c, d, n, v);
    }
  }

  // A node moved by a collision with one that has a greater name.
  lemma MovedHistory(c: Cluster, d: Cluster, n: nat, src: nat)
    requires Shaped(c) && Shaped(d) && n < |c.nodes| == |d.nodes| && HistoryGood(c, n)
    requires Own(c, n) < Own(d, n) && src < n && Own(c, n) in c.nodes[src].held
    requires d.nodes[n].held == c.nodes[n].held + {Own(d, n)} && d.nodes[n].bumps == c.nodes[n].bumps + 1
    requires forall j :: 0 <= j < n ==> c.nodes[j].held <= d.nodes[j].held
    ensures HistoryGood(d, n)
  {
    assert Own(d, n) !in c.nodes[n].held;
    assert HeldByGreater(c, n, Own(c, n));
    forall v | v in d.nodes[n].held && v != Own(d, n)
      ensures HeldByGreater(d, n, v)
    {
      HeldGrows(c, d, n, v);
    }
  }

  lemma DeliverKeepsHistories(c: Cluster, n: nat, m: Message)
    requires Shaped(c) && EpochsGood(c) && Honest(c) && HistoriesGood(c) && Enabled(c, Deliver(n, m))
    ensures var d := Next(c, Deliver(n, m)); Shaped(d) && HistoriesGood(d)
  {
    var d := Next(c, Deliver(n, m));
    NextGood(c, Deliver(n, m));
    ReceiveEffect(c, n, m);
    ReceiveOwn(c, n, m, d.nodes[n]);
    forall k | 0 <= k < |d.nodes|
      ensures HistoryGood(d, k)
    {
      assert HistoryGood(c, k);
      if k == n && Own(d, n) != Own(c, n) {
        MovedHistory(c, d, n, m.src);
      } else {
        SameHistory(c, d, k);
      }
    }
  }

  lemma NextKeepsHistories(c: Cluster, e: Event)
    requires Shaped(c) && EpochsGood(c) && Honest(c) && HistoriesGood(c) && Enabled(c, e)
    requires GossipOnly(e) && RolesKept(c, e)
    ensures var d := Next(c, e); Shaped(d) && HistoriesGood(d)
  {
    if e.Deliver? {
      DeliverKeepsHistories(c, e.n, e.m);
    } else {
      var d := Next(c, e);
      forall k | 0 <= k < |d.nodes|
        ensures HistoryGood(d, k)
      {
        assert HistoryGood(c, k);
        SameHistory(c, d, k);
      }
      assert HistoryGood(c, e.n);
    }
  }

  // All configuration epochs ever held by the n nodes with the greatest names.
  ghost function HeldBelow(c: Cluster, n: nat): set<nat>
    requires n <= |c.nodes|
  {
    if n == 0 then {} else HeldBelow(c, n - 1) + c.nodes[n - 1].held
  }

  lemma {:induction false} HeldIsBelow(c: Cluster, n: nat, j: nat, v: nat)
    requires j < n <= |c.nodes| && v in c.nodes[j].held
    ensures v in HeldBelow(c, n)
  {
    if j < n - 1 {
      HeldIsBelow(c, n - 1, j, v);
    }
  }

  // n nodes have held at most n configuration epochs between them.
  lemma {:induction false} FewHeld(c: Cluster, n: nat)
    requires Shaped(c) && HistoriesGood(c) && n <= |c.nodes|
    ensures |HeldBelow(c, n)| <= n
  {
    if n > 0 {
      var k := n - 1;
      var held := c.nodes[k].held;
      FewHeld(c, k);
      assert HistoryGood(c, k);
      forall v | v in held && v != Own(c, k)
        ensures v in HeldBelow(c, k)
      {
        var j :| 0 <= j < k && v in c.nodes[j].held;
        HeldIsBelow(c, k, j, v);
      }
      SubsetSize(HeldBelow(c, n), HeldBelow(c, k) + {Own(c, k)});
    }
  }

  lemma FewBumps(c: Cluster, n: nat)
    requires Shaped(c) && HistoriesGood(c) && n < |c.nodes|
    ensures c.nodes[n].bumps <= n
  {
    FewHeld(c, n + 1);
    assert HistoryGood(c, n);
    SubsetSize(c.nodes[n].held, HeldBelow(c, n + 1));
  }

  // ---- Whole runs ----

  ghost predicate Initial(c: Cluster)
  {
    && Shaped(c) && EpochsGood(c) && Honest(c) && c.net == {}
    && forall n :: 0 <= n < |c.nodes| ==> c.nodes[n].held == {Own(c, n)} && c.nodes[n].bumps == 0
  }

  ghost predicate Run(states: seq<Cluster>, events: seq<Event>)
  {
    && |states| == |events| + 1 && Initial(states[0])
    && forall i :: 0 <= i < |events| ==>
         Shaped(states[i]) && Enabled(states[i], events[i]) && states[i + 1] == Next(states[i], events[i])
  }

  // In every run no configuration epoch a node has, knows or sends is above the current epoch beside it.
  lemma {:induction false} ConfigNeverAhead(states: seq<Cluster>, events: seq<Event>, n: nat)
    requires Run(states, events) && n < |states|
    ensures Shaped(states[n]) && EpochsGood(states[n])
  {
    if n > 0 {
      ConfigNeverAhead(states, events, n - 1);
      assert states[n - 1 + 1] == states[n];
      NextGood(states[n - 1], events[n - 1]);
    }
  }

  // And every epoch a node has or knows only grows.
  lemma {:induction false} EpochsOnlyGrow(states: seq<Cluster>, events: seq<Event>, i: nat, n: nat)
    requires Run(states, events) && i <= n < |states|
    ensures AllGrow(states[i], states[n])
    decreases n - i
  {
    if i < n {
      EpochsOnlyGrow(states, events, i, n - 1);
      ConfigNeverAhead(states, events, n - 1);
      assert states[n - 1 + 1] == states[n];
      NextGood(states[n - 1], events[n - 1]);
    }
  }

  lemma {:induction false} MastersAreHonest(states: seq<Cluster>, events: seq<Event>, n: nat)
    requires Run(states, events) && n < |states| && forall i :: 0 <= i < |events| ==> RolesKept(states[i], events[i])
    ensures Shaped(states[n]) && Honest(states[n])
  {
    if n > 0 {
      MastersAreHonest(states, events, n - 1);
      ConfigNeverAhead(states, events, n - 1);
      assert states[n - 1 + 1] == states[n];
      NextHonest(states[n - 1], events[n - 1]);
    }
  }

  // The message says what node j has now.
  predicate SaysNow(c: Cluster, m: Message, j: nat)
    requires j < |c.nodes| && j < |c.nodes[j].known|
  {
    if m.Update? && m.about == j then m.reported == Own(c, j) else m.src == j && m.config == Own(c, j)
  }

  /* Records become exact: a node that received a message saying what a master has, and the master's epoch did not
     change since, records precisely the master's epoch. */
  lemma RecordsAreExact(states: seq<Cluster>, events: seq<Event>, i: nat, n: nat, k: nat, j: nat)
    requires Run(states, events) && i < n < |states|
    requires forall e :: 0 <= e < |events| ==> RolesKept(states[e], events[e])
    requires events[i].Deliver? && events[i].n == k && j < |states[i].nodes| && Speaks(states[i], j)
    requires Shaped(states[i]) && SaysNow(states[i], events[i].m, j)
    requires Shaped(states[n]) && |states[n].nodes| == |states[i].nodes| && Own(states[n], j) == Own(states[i], j)
    ensures k < |states[n].nodes| && states[n].nodes[k].known[j] == Own(states[n], j)
  {
    ReceiveRecords(states[i].nodes[k], k, events[i].m);
    assert states[i + 1] == Next(states[i], events[i]);
    EpochsOnlyGrow(states, events, i + 1, n);
    MastersAreHonest(states, events, n);
    RolesStay(states, events, i, n, j);
    assert Grows(states[i + 1].nodes[k], states[n].nodes[k]);
  }

  // A master's header says what it has, and so does an UPDATE by a node whose record is right.
  lemma SentSaysNow(c: Cluster, n: nat, j: nat)
    requires Shaped(c) && n < |c.nodes| && j < |c.nodes|
    ensures Speaks(c, j) ==> SaysNow(c, Fresh(c, j), j) && Fresh(c, j) in Next(c, Send(j)).net
    ensures c.nodes[n].known[j] == Own(c, j) ==>
              SaysNow(c, FreshUpdate(c, n, j), j) && FreshUpdate(c, n, j) in Next(c, SendUpdate(n, j)).net
  {
  }

  // Winning an election and being assigned an epoch: the node has the epoch then, or one that was newer.
  lemma OwnAfter(c: Cluster, e: Event)
    requires Shaped(c) && Enabled(c, e) && (e.Elect? || e.Assign?)
    ensures var d := Next(c, e);
            && Shaped(d) && Own(d, e.n) >= e.epoch && Own(d, e.n) in {Own(c, e.n), e.epoch}
            && (e.Elect? ==> Master(d, e.n)) && (e.Assign? ==> d.nodes[e.n].current >= e.epoch)
            && forall k :: 0 <= k < |c.nodes| && k != e.n ==> d.nodes[k] == c.nodes[k]
  {
  }

  lemma {:induction false} RolesStay(states: seq<Cluster>, events: seq<Event>, i: nat, n: nat, j: nat)
    requires Run(states, events) && i <= n < |states|
    requires forall e :: 0 <= e < |events| ==> RolesKept(states[e], events[e])
    requires Speaks(states[i], j)
    ensures Speaks(states[n], j)
    decreases n - i
  {
    if i < n {
      RolesStay(states, events, i, n - 1, j);
      RoleKeepingStep(states, events, n - 1);
      NextKeepsRole(states[n - 1], events[n - 1], j);
    }
  }

  lemma RoleKeepingStep(states: seq<Cluster>, events: seq<Event>, n: nat)
    requires Run(states, events) && n < |events| && forall e :: 0 <= e < |events| ==> RolesKept(states[e], events[e])
    ensures var c, e := states[n], events[n];
            && Shaped(c) && EpochsGood(c) && Honest(c) && Enabled(c, e) && RolesKept(c, e)
            && states[n + 1] == Next(c, e)
  {
    ConfigNeverAhead(states, events, n);
    MastersAreHonest(states, events, n);
  }

  lemma NextKeepsRole(c: Cluster, e: Event, j: nat)
    requires Shaped(c) && EpochsGood(c) && Honest(c) && Enabled(c, e) && RolesKept(c, e) && Speaks(c, j)
    ensures Speaks(Next(c, e), j)
  {
    if e.Deliver? {
      ReceiveOwn(c, e.n, e.m, Receive(c.nodes[e.n], e.n, e.m));
    }
  }

  lemma {:induction false} RunHistories(states: seq<Cluster>, events: seq<Event>, n: nat)
    requires Run(states, events) && n < |states|
    requires forall i :: 0 <= i < |events| ==> GossipOnly(events[i]) && RolesKept(states[i], events[i])
    ensures Shaped(states[n]) && HistoriesGood(states[n])
  {
    if n == 0 {
      forall k | 0 <= k < |states[0].nodes|
        ensures HistoryGood(states[0], k)
      {
      }
    } else {
      RunHistories(states, events, n - 1);
      ConfigNeverAhead(states, events, n - 1);
      MastersAreHonest(states, events, n - 1);
      assert states[n - 1 + 1] == states[n];
      NextKeepsHistories(states[n - 1], events[n - 1]);
    }
  }

  /* Collision resolution moves the node with the n-th greatest name at most n times, however long the run,
     however the messages are delayed, duplicated, lost or reordered: the one with the greatest name never. */
  lemma CollisionsEnd(states: seq<Cluster>, events: seq<Event>, i: nat, n: nat)
    requires Run(states, events) && i < |states| && n < |states[i].nodes|
    requires forall k :: 0 <= k < |events| ==> GossipOnly(events[k]) && RolesKept(states[k], events[k])
    ensures states[i].nodes[n].bumps <= n
  {
    RunHistories(states, events, i);
    FewBumps(states[i], n);
  }

  // Node j moves when it hears from node i as it is now.
  predicate WouldMove(c: Cluster, i: nat, j: nat)
    requires i < |c.nodes| && c.nodes[i].of < |c.nodes[i].known| && j < |c.nodes|
    requires i < |c.nodes[j].known| && j < |c.nodes[j].known|
  {
    Collides(Learn(c.nodes[j], Fresh(c, i)), j, Fresh(c, i))
  }

  predicate Master(c: Cluster, n: nat) { Speaks(c, n) && c.nodes[n].isMaster }

  // The masters' configuration epochs are distinct if and only if no up to date header makes a master move.
  lemma DistinctIffNoCollision(c: Cluster)
    requires Shaped(c) && Honest(c)
    ensures (forall i, j :: 0 <= i < j < |c.nodes| && Master(c, i) && Master(c, j) ==> Own(c, i) != Own(c, j))
       <==> (forall i, j :: 0 <= i < j < |c.nodes| && Master(c, i) && Master(c, j) ==> !WouldMove(c, i, j))
  {
    forall i, j | 0 <= i < j < |c.nodes| && Master(c, i) && Master(c, j)
      ensures Own(c, i) == Own(c, j) <==> WouldMove(c, i, j)
    {
      assert c.nodes[j].known[i] <= Own(c, i);
    }
  }
}
