/**
Two winners of one election. A replica whose attempt timed out schedules another one, which zeroes its
count; an answer to the old attempt that arrives before it asks for votes again is not older than the epoch
it last asked in, and is counted towards the new attempt. Which counts let two replicas win the same epoch,
exactly, and that every cluster with two replicas gets there.
*/
module ElectionCounterexample {
  import opened Basics
  import opened Election

  // ---- Where a cluster can get ----

  ghost predicate Leads(voters: set<nat>, c: Cluster, events: seq<Event>, c': Cluster)
    decreases |events|
  {
    if events == [] then c' == c
    else Enabled(voters, c, events[0]) && Leads(voters, Next(voters, c, events[0]), events[1..], c')
  }

  ghost predicate Reaches(voters: set<nat>, c: Cluster, c': Cluster)
  {
    exists events :: Leads(voters, c, events, c')
  }

  lemma Stays(voters: set<nat>, c: Cluster)
    ensures Reaches(voters, c, c)
  {
    assert Leads(voters, c, [], c);
  }

  lemma Steps(voters: set<nat>, c: Cluster, e: Event)
    requires Enabled(voters, c, e)
    ensures Reaches(voters, c, Next(voters, c, e))
  {
    assert Leads(voters, Next(voters, c, e), [], Next(voters, c, e));
    assert Leads(voters, c, [e], Next(voters, c, e));
  }

  lemma {:induction false} LeadsOn(voters: set<nat>, a: Cluster, p: seq<Event>, b: Cluster, q: seq<Event>, c: Cluster)
    requires Leads(voters, a, p, b) && Leads(voters, b, q, c)
    ensures Leads(voters, a, p + q, c)
    decreases |p|
  {
    if p == [] {
      assert p + q == q;
    } else {
      LeadsOn(voters, Next(voters, a, p[0]), p[1..], b, q, c);
      assert (p + q)[1..] == p[1..] + q;
    }
  }

  lemma ReachesOn(voters: set<nat>, a: Cluster, b: Cluster, c: Cluster)
    requires Reaches(voters, a, b) && Reaches(voters, b, c)
    ensures Reaches(voters, a, c)
  {
    var p :| Leads(voters, a, p, b);
    var q :| Leads(voters, b, q, c);
    LeadsOn(voters, a, p, b, q, c);
  }

  lemma ThenSteps(voters: set<nat>, a: Cluster, b: Cluster, e: Event)
    requires Reaches(voters, a, b) && Enabled(voters, b, e)
    ensures Reaches(voters, a, Next(voters, b, e))
  {
    Steps(voters, b, e);
    ReachesOn(voters, a, b, Next(voters, b, e));
  }

  // What is reached from the last state of a run is the last state of a longer run.
  lemma {:induction false} RunOn(voters: set<nat>, states: seq<Cluster>, events: seq<Event>, more: seq<Event>,
                                 c: Cluster)
    returns (states': seq<Cluster>, events': seq<Event>)
    requires Run(voters, states, events) && Leads(voters, states[|events|], more, c)
    ensures Run(voters, states', events') && states'[0] == states[0] && states'[|events'|] == c
    decreases |more|
  {
    if more == [] {
      states', events' := states, events;
    } else {
      var next := Next(voters, states[|events|], more[0]);
      Extend(voters, states, events, more[0]);
      states', events' := RunOn(voters, states + [next], events + [more[0]], more[1..], c);
    }
  }

  lemma Extend(voters: set<nat>, states: seq<Cluster>, events: seq<Event>, e: Event)
    requires Run(voters, states, events) && Enabled(voters, states[|events|], e)
    ensures Run(voters, states + [Next(voters, states[|events|], e)], events + [e])
  {
  }

  // ---- Gathering votes ----

  // The voter can be asked by n and has not voted in this epoch.
  predicate Ready(c: Cluster, v: nat, n: nat, e: nat)
  {
    && v < |c.nodes| && AuthRequest(n, v, e) in c.net
    && c.nodes[v].auth.currentEpoch <= e && c.nodes[v].auth.lastVoteEpoch < e
  }

  // Nothing but these nodes and the network has changed.
  ghost predicate Only(c: Cluster, c': Cluster, changed: set<nat>)
  {
    && |c'.nodes| == |c.nodes| && c'.wins == c.wins
    && forall k :: 0 <= k < |c.nodes| && k !in changed ==> c'.nodes[k] == c.nodes[k]
  }

  ghost predicate AcksKept(c: Cluster, c': Cluster) { forall m :: m in c.net && m.AuthAck? ==> m in c'.net }

  ghost predicate OthersKept(c: Cluster, c': Cluster, n: nat)
  {
    forall m :: m in c.net && m.AuthRequest? && m.src != n ==> m in c'.net
  }

  lemma CastOne(voters: set<nat>, c: Cluster, n: nat, e: nat, v: nat) returns (c': Cluster)
    requires v in voters && Ready(c, v, n, e)
    ensures Reaches(voters, c, c') && AuthAck(v, n, e) in c'.net && Only(c, c', {v})
    ensures AcksKept(c, c') && OthersKept(c, c', n)
    ensures forall u :: u != v && AuthRequest(n, u, e) in c.net ==> AuthRequest(n, u, e) in c'.net
  {
    var m := AuthRequest(n, v, e);
    Steps(voters, c, DeliverRequest(m, true));
    c' := Next(voters, c, DeliverRequest(m, true));
  }

  // Voters that are ready answer.
  lemma {:induction false} CastVotes(voters: set<nat>, c: Cluster, n: nat, e: nat, vs: set<nat>) returns (c': Cluster)
    requires vs <= voters && forall v :: v in vs ==> Ready(c, v, n, e)
    ensures Reaches(voters, c, c') && Only(c, c', vs) && AcksKept(c, c') && OthersKept(c, c', n)
    ensures forall v :: v in vs ==> AuthAck(v, n, e) in c'.net
    decreases |vs|
  {
    if vs == {} {
      c' := c;
      Stays(voters, c);
    } else {
      var v :| v in vs;
      var c1 := CastOne(voters, c, n, e, v);
      assert forall u :: u in vs - {v} ==> Ready(c, u, n, e);
      c' := CastVotes(voters, c1, n, e, vs - {v});
      ReachesOn(voters, c, c1, c');
    }
  }

  predicate MoreVotes(a: Node, b: Node, k: nat)
  {
    && b.auth.authCount == a.auth.authCount + k && b.auth.authSent == a.auth.authSent
    && b.auth.authEpoch == a.auth.authEpoch && b.stale == a.stale
  }

  lemma CountOne(voters: set<nat>, c: Cluster, n: nat, e: nat, v: nat) returns (c': Cluster)
    requires v in voters && n < |c.nodes| && AuthAck(v, n, e) in c.net && c.nodes[n].auth.authEpoch <= e
    ensures Reaches(voters, c, c') && Only(c, c', {n}) && MoreVotes(c.nodes[n], c'.nodes[n], 1)
    ensures c'.net == c.net - {AuthAck(v, n, e)}
  {
    Steps(voters, c, DeliverAck(AuthAck(v, n, e)));
    c' := Next(voters, c, DeliverAck(AuthAck(v, n, e)));
  }

  // Answers that are not older than the epoch last asked in are counted, whether or not votes were asked for since.
  lemma {:induction false} CountVotes(voters: set<nat>, c: Cluster, n: nat, e: nat, vs: set<nat>) returns (c': Cluster)
    requires vs <= voters && n < |c.nodes| && c.nodes[n].auth.authEpoch <= e
    requires forall v :: v in vs ==> AuthAck(v, n, e) in c.net
    ensures Reaches(voters, c, c') && Only(c, c', {n}) && MoreVotes(c.nodes[n], c'.nodes[n], |vs|)
    ensures forall m :: m in c.net && m.AuthRequest? ==> m in c'.net
    decreases |vs|
  {
    if vs == {} {
      c' := c;
      Stays(voters, c);
    } else {
      var v :| v in vs;
      var c1 := CountOne(voters, c, n, e, v);
      c' := CountVotes(voters, c1, n, e, vs - {v});
      ReachesOn(voters, c, c1, c');
    }
  }

  lemma Gather(voters: set<nat>, c: Cluster, n: nat, e: nat, vs: set<nat>) returns (c': Cluster)
    requires vs <= voters && n !in vs && n < |c.nodes| && c.nodes[n].auth.authEpoch == e
    requires forall v :: v in vs ==> Ready(c, v, n, e)
    ensures Reaches(voters, c, c') && Only(c, c', vs + {n}) && MoreVotes(c.nodes[n], c'.nodes[n], |vs|)
    ensures OthersKept(c, c', n)
  {
    var c1 := CastVotes(voters, c, n, e, vs);
    c' := CountVotes(voters, c1, n, e, vs);
    ReachesOn(voters, c, c1, c');
  }

  // ---- Two candidates of one epoch ----

  // The node has just asked for votes, with answers already counted.
  predicate Candidate(c: Cluster, n: nat, e: nat, counted: nat)
  {
    && n < |c.nodes| && c.nodes[n].auth.authSent && c.nodes[n].auth.authEpoch == e
    && c.nodes[n].auth.authCount == counted && c.nodes[n].stale == counted
  }

  ghost predicate Won(c: Cluster, n: nat, e: nat, counted: nat)
  {
    exists x :: x in c.wins && x.who == n && x.epoch == e && x.stale == counted
  }

  lemma Wins(voters: set<nat>, c: Cluster, n: nat)
    requires Enabled(voters, c, Failover(n))
    ensures var c' := Next(voters, c, Failover(n));
            && Won(c', n, c.nodes[n].auth.authEpoch, c.nodes[n].stale)
            && c'.nodes == c.nodes && c.wins <= c'.wins
  {
    var node := c.nodes[n];
    assert Victory(n, node.auth.authEpoch, node.acked, node.stale) in Next(voters, c, Failover(n)).wins;
  }

  // The voters can be divided so that both counts reach the quorum.
  function Share(size: nat, counted: nat): nat { if counted >= Quorum(size) then 0 else Quorum(size) - counted }

  lemma Divide(size: nat, a: nat, b: nat)
    requires size > 0 && a + b >= 2 - size % 2
    ensures Share(size, a) <= size && a + Share(size, a) >= Quorum(size) && b + size - Share(size, a) >= Quorum(size)
  {
  }

  lemma BothGather(voters: set<nat>, c: Cluster, n: nat, w: nat, e: nat, a: nat, b: nat) returns (c': Cluster)
    requires voters != {} && n != w && n !in voters && w !in voters && a + b >= 2 - |voters| % 2
    requires Candidate(c, n, e, a) && Candidate(c, w, e, b)
    requires forall v :: v in voters ==> Ready(c, v, n, e) && Ready(c, v, w, e)
    ensures Reaches(voters, c, c') && |c'.nodes| == |c.nodes|
    ensures forall k :: k == n || k == w ==>
              c'.nodes[k].auth.authSent && c'.nodes[k].auth.authEpoch == e
                  && c'.nodes[k].auth.authCount >= Quorum(|voters|)
    ensures c'.nodes[n].stale == a && c'.nodes[w].stale == b
  {
    Divide(|voters|, a, b);
    var vs := SubsetOfSize(voters, Share(|voters|, a));
    var c1 := Gather(voters, c, n, e, vs);
    assert forall v :: v in voters - vs ==> Ready(c, v, w, e);
    c' := Gather(voters, c1, w, e, voters - vs);
    assert |voters - vs| == |voters| - |vs|;
    ReachesOn(voters, c, c1, c');
  }

  lemma BothWin(voters: set<nat>, c: Cluster, n: nat, w: nat, e: nat, a: nat, b: nat) returns (c': Cluster)
    requires voters != {} && n != w && n !in voters && w !in voters && a + b >= 2 - |voters| % 2
    requires Candidate(c, n, e, a) && Candidate(c, w, e, b)
    requires forall v :: v in voters ==> Ready(c, v, n, e) && Ready(c, v, w, e)
    ensures Reaches(voters, c, c') && Won(c', n, e, a) && Won(c', w, e, b)
  {
    var c1 := BothGather(voters, c, n, w, e, a, b);
    var c2 := Next(voters, c1, Failover(n));
    Wins(voters, c1, n);
    ThenSteps(voters, c, c1, Failover(n));
    Wins(voters, c2, w);
    ThenSteps(voters, c, c2, Failover(w));
    c' := Next(voters, c2, Failover(w));
  }

  // ---- Exactly when ----

  // The epoch is at least as new as anything the cluster has seen.
  ghost predicate Newest(c: Cluster, e: nat)
  {
    && (forall k :: 0 <= k < |c.nodes| ==> c.nodes[k].auth.currentEpoch <= e && c.nodes[k].auth.lastVoteEpoch <= e)
    && (forall x :: x in c.wins ==> x.epoch <= e)
  }

  // Two replicas are about to ask for votes in the epoch that follows e.
  ghost predicate Poised(voters: set<nat>, c: Cluster, n: nat, w: nat, e: nat)
  {
    && n != w && n < |c.nodes| && w < |c.nodes| && n !in voters && w !in voters
    && !c.nodes[n].auth.authSent && !c.nodes[w].auth.authSent
    && c.nodes[n].auth.currentEpoch == e && c.nodes[w].auth.currentEpoch == e
  }

  ghost predicate AllNodes(voters: set<nat>, c: Cluster) { forall v :: v in voters ==> v < |c.nodes| }

  function BothAsked(c: Cluster, n: nat, w: nat): Cluster
    requires n < |c.nodes| && w < |c.nodes|
  {
    Asked(Asked(c, n), w)
  }

  lemma BothAskedReady(voters: set<nat>, c: Cluster, n: nat, w: nat, e: nat)
    requires Poised(voters, c, n, w, e) && Newest(c, e) && AllNodes(voters, c)
    ensures var c2 := BothAsked(c, n, w);
            && Reaches(voters, c, c2)
            && Candidate(c2, n, e + 1, c.nodes[n].auth.authCount) && Candidate(c2, w, e + 1, c.nodes[w].auth.authCount)
            && forall v :: v in voters ==> Ready(c2, v, n, e + 1) && Ready(c2, v, w, e + 1)
  {
    var c1 := Next(voters, c, AskVotes(n));
    Steps(voters, c, AskVotes(n));
    ThenSteps(voters, c, c1, AskVotes(w));
    var c2 := BothAsked(c, n, w);
    forall v | v in voters
      ensures Ready(c2, v, n, e + 1) && Ready(c2, v, w, e + 1)
    {
      assert AuthRequest(n, v, e + 1) in Broadcast(n, e + 1, |c.nodes|);
      assert AuthRequest(w, v, e + 1) in Broadcast(w, e + 1, |c.nodes|);
    }
  }

  // What n counts in the epoch e it has asked in stays the same answers, whatever happens.
  ghost predicate Settled(c: Cluster, n: nat, e: nat, counted: nat)
  {
    && n < |c.nodes| && e <= c.nodes[n].auth.authEpoch <= c.nodes[n].auth.currentEpoch
    && (c.nodes[n].auth.authSent && c.nodes[n].auth.authEpoch == e ==> c.nodes[n].stale == counted)
    && forall x :: x in c.wins && x.who == n && x.epoch == e ==> x.stale == counted
  }

  lemma NextKeepsSettled(voters: set<nat>, c: Cluster, ev: Event, n: nat, e: nat, counted: nat)
    requires Enabled(voters, c, ev) && Settled(c, n, e, counted)
    ensures Settled(Next(voters, c, ev), n, e, counted)
  {
  }

  lemma {:induction false} LeadsSettled(voters: set<nat>, c: Cluster, events: seq<Event>, c': Cluster, n: nat,
                                        e: nat, counted: nat)
    requires Leads(voters, c, events, c') && Settled(c, n, e, counted)
    ensures Settled(c', n, e, counted)
    decreases |events|
  {
    if events != [] {
      NextKeepsSettled(voters, c, events[0], n, e, counted);
      LeadsSettled(voters, Next(voters, c, events[0]), events[1..], c', n, e, counted);
    }
  }

  lemma {:induction false} LeadsInv(voters: set<nat>, c: Cluster, events: seq<Event>, c': Cluster)
    requires Leads(voters, c, events, c') && Inv(voters, c)
    ensures Inv(voters, c')
    decreases |events|
  {
    if events != [] {
      NextKeepsInv(voters, c, events[0]);
      LeadsInv(voters, Next(voters, c, events[0]), events[1..], c');
    }
  }

  ghost predicate WonBy(c: Cluster, n: nat, e: nat) { exists x :: x in c.wins && x.who == n && x.epoch == e }

  // Both win the epoch after e in some future of their asking for votes.
  ghost predicate CanBothWin(voters: set<nat>, c: Cluster, n: nat, w: nat, e: nat)
    requires n < |c.nodes| && w < |c.nodes|
  {
    exists c' :: Reaches(voters, BothAsked(c, n, w), c') && WonBy(c', n, e + 1) && WonBy(c', w, e + 1)
  }

  lemma BothWinningIsCounted(voters: set<nat>, c: Cluster, c': Cluster, n: nat, w: nat, e: nat, a: nat, b: nat)
    requires Inv(voters, c) && n != w && Settled(c, n, e, a) && Settled(c, w, e, b)
    requires Reaches(voters, c, c') && WonBy(c', n, e) && WonBy(c', w, e)
    ensures a + b >= 2 - |voters| % 2
  {
    var events :| Leads(voters, c, events, c');
    LeadsInv(voters, c, events, c');
    LeadsSettled(voters, c, events, c', n, e, a);
    LeadsSettled(voters, c, events, c', w, e, b);
    var x :| x in c'.wins && x.who == n && x.epoch == e;
    var y :| y in c'.wins && y.who == w && y.epoch == e;
    SplitElection(voters, c'.votes, x, y);
  }

  lemma BothAskedSettled(voters: set<nat>, c: Cluster, n: nat, w: nat, e: nat)
    requires Inv(voters, c) && Poised(voters, c, n, w, e) && Newest(c, e)
    ensures var c2 := BothAsked(c, n, w);
            && Inv(voters, c2) && Settled(c2, n, e + 1, c.nodes[n].auth.authCount)
            && Settled(c2, w, e + 1, c.nodes[w].auth.authCount)
  {
    AskKeepsInv(voters, c, n);
    AskKeepsInv(voters, Asked(c, n), w);
  }

  /* Two replicas that ask for votes in the same new epoch can both win it if and only if the answers they had
     counted before are enough: one with an odd number of masters and two with an even one. */
  lemma BothCanWinIff(voters: set<nat>, c: Cluster, n: nat, w: nat, e: nat)
    requires Inv(voters, c) && voters != {} && AllNodes(voters, c) && Poised(voters, c, n, w, e) && Newest(c, e)
    ensures CanBothWin(voters, c, n, w, e)
            <==> c.nodes[n].auth.authCount + c.nodes[w].auth.authCount >= 2 - |voters| % 2
  {
    var a, b := c.nodes[n].auth.authCount, c.nodes[w].auth.authCount;
    var c2 := BothAsked(c, n, w);
    if a + b >= 2 - |voters| % 2 {
      BothAskedReady(voters, c, n, w, e);
      var c' := BothWin(voters, c2, n, w, e + 1, a, b);
      assert WonBy(c', n, e + 1) && WonBy(c', w, e + 1);
    }
    if CanBothWin(voters, c, n, w, e) {
      BothAskedSettled(voters, c, n, w, e);
      var c' :| Reaches(voters, c2, c') && WonBy(c', n, e + 1) && WonBy(c', w, e + 1);
      BothWinningIsCounted(voters, c2, c', n, w, e + 1, a, b);
    }
  }

  // ---- From any state ----

  function NodeBound(nodes: seq<Node>): (e: nat)
    ensures forall k :: 0 <= k < |nodes| ==> nodes[k].auth.currentEpoch <= e && nodes[k].auth.lastVoteEpoch <= e
  {
    if nodes == [] then 0
    else
      var last := nodes[|nodes| - 1].auth;
      Max(NodeBound(nodes[..|nodes| - 1]), Max(last.currentEpoch, last.lastVoteEpoch))
  }

  lemma {:induction false} WinBound(wins: set<Victory>) returns (e: nat)
    ensures forall x :: x in wins ==> x.epoch <= e
    decreases |wins|
  {
    e := 0;
    if wins != {} {
      var x :| x in wins;
      e := WinBound(wins - {x});
      e := Max(e, x.epoch);
    }
  }

  lemma NewestEpoch(c: Cluster) returns (e: nat)
    ensures Newest(c, e)
  {
    e := WinBound(c.wins);
    e := Max(e, NodeBound(c.nodes));
  }

  // Gossip brings a node to the newest epoch.
  lemma Learns(voters: set<nat>, c: Cluster, n: nat, e: nat) returns (c': Cluster)
    requires n < |c.nodes| && Newest(c, e)
    ensures Reaches(voters, c, c') && Newest(c', e) && Only(c, c', {n}) && MoreVotes(c.nodes[n], c'.nodes[n], 0)
    ensures c'.nodes[n].auth.currentEpoch == e
  {
    Steps(voters, c, LearnEpoch(n, e));
    c' := Next(voters, c, LearnEpoch(n, e));
  }

  lemma Schedules(voters: set<nat>, c: Cluster, n: nat, e: nat) returns (c': Cluster)
    requires n < |c.nodes| && Newest(c, e)
    ensures Reaches(voters, c, c') && Newest(c', e) && Only(c, c', {n}) && c'.net == c.net
    ensures c'.nodes[n].auth == Scheduled(c.nodes[n].auth)
  {
    Steps(voters, c, ScheduleAttempt(n));
    c' := Next(voters, c, ScheduleAttempt(n));
  }

  /* One replica that counts enough late answers after scheduling an attempt, in any state, can bring about an
     epoch that it and any other replica both win. */
  lemma LateAnswersElectTwo(voters: set<nat>, c: Cluster, n: nat, w: nat) returns (c': Cluster, e: nat)
    requires voters != {} && AllNodes(voters, c) && n < |c.nodes| && w < |c.nodes|
    requires n != w && n !in voters && w !in voters
    requires !c.nodes[n].auth.authSent && c.nodes[n].auth.authCount >= 2 - |voters| % 2
    ensures Reaches(voters, c, c') && Won(c', n, e, c.nodes[n].auth.authCount) && Won(c', w, e, 0)
  {
    var newest := NewestEpoch(c);
    var c1 := Learns(voters, c, n, newest);
    var c2 := Learns(voters, c1, w, newest);
    ReachesOn(voters, c, c1, c2);
    var c3 := Schedules(voters, c2, w, newest);
    ReachesOn(voters, c, c2, c3);
    BothAskedReady(voters, c3, n, w, newest);
    ReachesOn(voters, c, c3, BothAsked(c3, n, w));
    e := newest + 1;
    c' := BothWin(voters, BothAsked(c3, n, w), n, w, e, c.nodes[n].auth.authCount, 0);
    ReachesOn(voters, c, BothAsked(c3, n, w), c');
  }

  lemma AsksReady(voters: set<nat>, c: Cluster, n: nat, e: nat) returns (c': Cluster)
    requires n < |c.nodes| && n !in voters && AllNodes(voters, c) && Newest(c, e)
    requires !c.nodes[n].auth.authSent && c.nodes[n].auth.currentEpoch == e
    ensures Reaches(voters, c, c') && |c'.nodes| == |c.nodes| && c'.nodes[n].auth.authEpoch == e + 1
    ensures forall v :: v in voters ==> Ready(c', v, n, e + 1)
  {
    Steps(voters, c, AskVotes(n));
    c' := Next(voters, c, AskVotes(n));
    forall v | v in voters
      ensures Ready(c', v, n, e + 1)
    {
      assert AuthRequest(n, v, e + 1) in Broadcast(n, e + 1, |c.nodes|);
    }
  }

  lemma AsksAnew(voters: set<nat>, c: Cluster, n: nat) returns (c': Cluster, e: nat)
    requires n < |c.nodes| && n !in voters && AllNodes(voters, c)
    ensures Reaches(voters, c, c') && |c'.nodes| == |c.nodes| && c'.nodes[n].auth.authEpoch == e
    ensures forall v :: v in voters ==> Ready(c', v, n, e)
  {
    var newest := NewestEpoch(c);
    var c1 := Learns(voters, c, n, newest);
    var c2 := Schedules(voters, c1, n, newest);
    ReachesOn(voters, c, c1, c2);
    c' := AsksReady(voters, c2, n, newest);
    ReachesOn(voters, c, c2, c');
    e := newest + 1;
  }

  // A replica asks, is answered, schedules another attempt, and only then hears the answers.
  lemma CountsLate(voters: set<nat>, c: Cluster, n: nat, vs: set<nat>) returns (c': Cluster)
    requires vs <= voters && AllNodes(voters, c) && n < |c.nodes| && n !in voters
    ensures Reaches(voters, c, c') && |c'.nodes| == |c.nodes|
    ensures !c'.nodes[n].auth.authSent && c'.nodes[n].auth.authCount == |vs|
  {
    var c1, e := AsksAnew(voters, c, n);
    var c2 := CastVotes(voters, c1, n, e, vs);
    ReachesOn(voters, c, c1, c2);
    ThenSteps(voters, c, c2, ScheduleAttempt(n));
    var c3 := Next(voters, c2, ScheduleAttempt(n));
    c' := CountVotes(voters, c3, n, e, vs);
    ReachesOn(voters, c, c3, c');
  }

  /* The promise that an epoch elects at most one node fails in every cluster: whatever the masters, from any
     state, any two replicas can come to win the same epoch. */
  lemma AnyTwoReplicasCanWin(voters: set<nat>, c: Cluster, n: nat, w: nat) returns (c': Cluster, e: nat)
    requires voters != {} && AllNodes(voters, c) && n < |c.nodes| && w < |c.nodes|
    requires n != w && n !in voters && w !in voters
    ensures Reaches(voters, c, c') && Won(c', n, e, 2 - |voters| % 2) && Won(c', w, e, 0)
  {
    var vs := SubsetOfSize(voters, 2 - |voters| % 2);
    var c1 := CountsLate(voters, c, n, vs);
    c', e := LateAnswersElectTwo(voters, c1, n, w);
    ReachesOn(voters, c, c1, c');
  }

  const IDLE: Node := Node(Auth(0, 0, 0, 0, false), {}, 0)

  // With masters 0, 1 and 2 and replicas 3 and 4, one late answer is enough.
  lemma TwoWinners() returns (states: seq<Cluster>, events: seq<Event>)
    ensures Run({0, 1, 2}, states, events)
    ensures var wins := states[|events|].wins;
            exists v, w :: v in wins && w in wins && v.epoch == w.epoch && v.who != w.who && v.stale + w.stale == 1
  {
    var voters: set<nat> := {0, 1, 2};
    var c0 := Cluster([IDLE, IDLE, IDLE, IDLE, IDLE], {}, map[], {});
    assert |voters| == 3;
    var c, e := AnyTwoReplicasCanWin(voters, c0, 3, 4);
    var more :| Leads(voters, c0, more, c);
    assert Run(voters, [c0], []);
    states, events := RunOn(voters, [c0], [], more, c);
    var v :| v in c.wins && v.who == 3 && v.epoch == e && v.stale == 1;
    var w :| w in c.wins && w.who == 4 && w.epoch == e && w.stale == 0;
  }
}
