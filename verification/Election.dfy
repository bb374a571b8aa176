/**
Failover elections: masters that grant votes, replicas that ask for them and count the answers, and
every interleaving of the two with a network that delays and loses messages.
*/
module Election {
  import opened Basics

  function Quorum(size: nat): nat { size / 2 + 1 }

  // ---- The election fields of one node ----

  datatype Auth = Auth(currentEpoch: nat, lastVoteEpoch: nat, authEpoch: nat, authCount: nat, authSent: bool)

  // Any message from a known node may bring a newer current epoch.
  function Learn(a: Auth, epoch: nat): Auth { a.(currentEpoch := Max(a.currentEpoch, epoch)) }

  // The vote itself, once the requester and its slots are found acceptable.
  predicate Grants(a: Auth, reqEpoch: nat, acceptable: bool)
  {
    acceptable && reqEpoch >= a.currentEpoch && a.lastVoteEpoch != a.currentEpoch
  }

  function AfterRequest(a: Auth, reqEpoch: nat, acceptable: bool): Auth
  {
    if Grants(a, reqEpoch, acceptable) then a.(lastVoteEpoch := a.currentEpoch) else a
  }

  predicate Counts(a: Auth, fromVoter: bool, epoch: nat) { fromVoter && epoch >= a.authEpoch }

  function AfterAck(a: Auth, fromVoter: bool, epoch: nat): Auth
  {
    if Counts(a, fromVoter, epoch) then a.(authCount := a.authCount + 1) else a
  }

  // Scheduling a new attempt, and asking for the votes when its time has come.
  function Scheduled(a: Auth): Auth { a.(authCount := 0, authSent := false) }

  function Started(a: Auth): Auth
  {
    a.(currentEpoch := a.currentEpoch + 1, authEpoch := a.currentEpoch + 1, authSent := true)
  }

  // What a master knows about a request besides the epochs.
  datatype Request = Request(
    voterIsSlave: bool, voterSlots: nat, requesterIsMaster: bool, masterKnown: bool, masterFailed: bool,
    forceAck: bool, sinceVoted: int, nodeTimeout: int, configEpoch: nat,
    claimed: seq<bool>, ownerEpoch: seq<int>)   // -1: the slot has no owner

  predicate WellFormed(r: Request) { |r.claimed| == CLUSTER_SLOTS && |r.ownerEpoch| == CLUSTER_SLOTS }

  // No claimed slot is known to be served with a newer configuration.
  ghost predicate SlotsUpToDate(r: Request)
    requires WellFormed(r)
  {
    forall j :: 0 <= j < CLUSTER_SLOTS && r.claimed[j] ==> r.ownerEpoch[j] <= r.configEpoch
  }

  ghost predicate Acceptable(r: Request)
    requires WellFormed(r)
  {
    && !r.voterIsSlave && r.voterSlots > 0
    && !r.requesterIsMaster && r.masterKnown && (r.masterFailed || r.forceAck)
    && r.sinceVoted >= r.nodeTimeout * 2
    && SlotsUpToDate(r)
  }

  // What a replica finds out when it considers a failover.
  datatype Situation = Situation(
    isMaster: bool, hasMaster: bool, masterFailed: bool, manual: bool, masterSlots: nat,
    dataAge: int, maxDataAge: int, checkDataAge: bool,
    now: int, nodeTimeout: int, delay: int, rank: int, mfPending: bool, size: nat)

  // The replica may replace its failed master, or is told to by hand, and its data is not too old.
  predicate MayFailover(s: Situation)
  {
    && !s.isMaster && s.hasMaster && (s.masterFailed || s.manual) && s.masterSlots > 0
    && (s.checkDataAge && !s.manual ==> s.dataAge <= s.maxDataAge)
  }

  function AuthTimeout(s: Situation): int { if s.nodeTimeout * 2 < 2000 then 2000 else s.nodeTimeout * 2 }

  // When a scheduled attempt asks for votes: after half a second, a random delay, and a second for each better replica.
  function AskTime(s: Situation): int
  {
    if s.mfPending then s.now else s.now + 500 + s.delay + s.rank * 1000
  }

  // Of two replicas that schedule at the same time, the one with the better rank asks first, whatever the delays.
  lemma BetterRankAsksFirst(s: Situation, t: Situation)
    requires s.now == t.now && 0 <= s.delay < 500 && 0 <= t.delay < 500 && !s.mfPending && !t.mfPending
    requires 0 <= s.rank < t.rank
    ensures AskTime(s) < AskTime(t) && AskTime(s) >= s.now + 500
  {
  }

  datatype Outcome = Nothing | Schedule | Ask | Win

  class ClusterNode {
    var currentEpoch: nat
    var lastVoteEpoch: nat
    var authEpoch: nat
    var authCount: nat
    var authSent: bool
    var authTime: int
    var authRank: int
    var configEpoch: nat

    ghost function View(): Auth
      reads this
    {
      Auth(currentEpoch, lastVoteEpoch, authEpoch, authCount, authSent)
    }

    // The scheduled time, put off when better replicas turned up meanwhile, has come and is not too long ago.
    ghost predicate Due(s: Situation)
      reads this
    {
      && MayFailover(s) && s.now - authTime <= AuthTimeout(s)
      && s.now >= authTime + (if !authSent && !s.mfPending && s.rank > authRank then (s.rank - authRank) * 1000 else 0)
    }

    // clusterSendFailoverAuthIfNeeded
    method ConsiderRequest(reqEpoch: nat, r: Request) returns (granted: bool)
      requires WellFormed(r)
      modifies this`lastVoteEpoch
      ensures granted <==> old(Grants(View(), reqEpoch, Acceptable(r)))
      ensures View() == old(AfterRequest(View(), reqEpoch, Acceptable(r)))
    {
      granted := false;
      if r.voterIsSlave || r.voterSlots == 0 { return; }
      if reqEpoch < currentEpoch { return; }
      if lastVoteEpoch == currentEpoch { return; }
      if r.requesterIsMaster || !r.masterKnown || (!r.masterFailed && !r.forceAck) { return; }
      if r.sinceVoted < r.nodeTimeout * 2 { return; }
      var j := 0;
      while j < CLUSTER_SLOTS
        invariant j <= CLUSTER_SLOTS
        invariant forall i :: 0 <= i < j && r.claimed[i] ==> r.ownerEpoch[i] <= r.configEpoch
      {
        if r.claimed[j] && r.ownerEpoch[j] > r.configEpoch { return; }
        j := j + 1;
      }
      lastVoteEpoch := currentEpoch;
      granted := true;
    }

    // The FAILOVER_AUTH_ACK case of clusterProcessPacket
    method CountAck(senderIsMaster: bool, senderSlots: nat, epoch: nat)
      modifies this`authCount
      ensures View() == old(AfterAck(View(), senderIsMaster && senderSlots > 0, epoch))
    {
      if senderIsMaster && senderSlots > 0 && epoch >= authEpoch {
        authCount := authCount + 1;
      }
    }

    /* clusterHandleSlaveFailover: an attempt is scheduled, asks once for votes when its delay is over, and
       wins with a quorum; a manual failover skips the delay and the age of the data. */
    method HandleFailover(s: Situation) returns (o: Outcome)
      requires 0 <= s.rank && 0 <= s.delay < 500 && 0 <= s.nodeTimeout
      modifies this
      ensures o == Nothing ==> View() == old(View()) && configEpoch == old(configEpoch)
      ensures o == Schedule ==> View() == Scheduled(old(View())) && authTime >= s.now && configEpoch == old(configEpoch)
      ensures o == Ask ==> !old(authSent) && View() == Started(old(View())) && configEpoch == old(configEpoch)
      ensures o == Win ==> old(authSent) && authCount >= Quorum(s.size) && View() == old(View())
                           && configEpoch == Max(old(configEpoch), authEpoch)
      ensures o == Schedule <==> MayFailover(s) && s.now - old(authTime) > 2 * AuthTimeout(s)
      ensures o == Ask <==> !old(authSent) && old(Due(s))
      ensures o == Win <==> old(authSent) && old(Due(s)) && old(authCount) >= Quorum(s.size)
      ensures o == Schedule ==> authTime == AskTime(s) && authRank == if s.mfPending then 0 else s.rank
      ensures o == Nothing || o == Ask || o == Win ==>
                authTime == old(authTime) || (!old(authSent) && !s.mfPending && s.rank > old(authRank)
                                              && authTime == old(authTime) + (s.rank - old(authRank)) * 1000)
    {
      o := Nothing;
      var authAge := s.now - authTime;
      var authTimeout := s.nodeTimeout * 2;
      if authTimeout < 2000 { authTimeout := 2000; }
      var retryTime := authTimeout * 2;
      if s.isMaster || !s.hasMaster || (!s.masterFailed && !s.manual) || s.masterSlots == 0 { return; }
      if s.checkDataAge && s.dataAge > s.maxDataAge && !s.manual { return; }
      if authAge > retryTime {
        authTime := s.now + 500 + s.delay;
        authCount := 0;
        authSent := false;
        authRank := s.rank;
        authTime := authTime + authRank * 1000;
        if s.mfPending { authTime := s.now; authRank := 0; }
        return Schedule;
      }
      if !authSent && !s.mfPending && s.rank > authRank {
        authTime := authTime + (s.rank - authRank) * 1000;
        authRank := s.rank;
      }
      if s.now < authTime { return; }
      if authAge > authTimeout { return; }
      if !authSent {
        currentEpoch := currentEpoch + 1;
        authEpoch := currentEpoch;
        authSent := true;
        return Ask;
      }
      if authCount >= Quorum(s.size) {
        if configEpoch < authEpoch { configEpoch := authEpoch; }
        return Win;
      }
    }
  }

  // ---- The cluster ----

  datatype Message =
    | AuthRequest(src: nat, dst: nat, epoch: nat)
    | AuthAck(src: nat, dst: nat, epoch: nat)

  /* A node and two things about its present election that the proof keeps: the voters counted since it
     asked for votes, and the answers to an earlier election counted between scheduling and asking. */
  datatype Node = Node(auth: Auth, acked: set<nat>, stale: nat)

  // An election won, with what it was counted from.
  datatype Victory = Victory(who: nat, epoch: nat, voters: set<nat>, stale: nat)

  // `votes` remembers whom each voter voted for in each epoch.
  datatype Cluster = Cluster(nodes: seq<Node>, net: set<Message>, votes: map<(nat, nat), nat>, wins: set<Victory>)

  datatype Event =
    | LearnEpoch(n: nat, epoch: nat)                 // gossip, or an epoch bumped locally
    | DeliverRequest(m: Message, acceptable: bool)
    | DeliverAck(m: Message)
    | Lose(m: Message)
    | ScheduleAttempt(n: nat)
    | AskVotes(n: nat)
    | Failover(n: nat)

  // The voters, the masters serving slots, are fixed and every node knows how many they are.
  predicate Enabled(voters: set<nat>, c: Cluster, e: Event)
  {
    match e
    case LearnEpoch(n, _) => n < |c.nodes|
    case DeliverRequest(m, acceptable) =>
      m in c.net && m.AuthRequest? && m.dst < |c.nodes| && (acceptable ==> m.dst in voters)
    case DeliverAck(m) => m in c.net && m.AuthAck? && m.dst < |c.nodes|
    case Lose(m) => m in c.net
    case ScheduleAttempt(n) => n < |c.nodes|
    case AskVotes(n) => n < |c.nodes| && !c.nodes[n].auth.authSent
    case Failover(n) =>
      n < |c.nodes| && c.nodes[n].auth.authSent && c.nodes[n].auth.authCount >= Quorum(|voters|)
  }

  function Broadcast(src: nat, epoch: nat, size: nat): set<Message>
  {
    set d | 0 <= d < size && d != src :: AuthRequest(src, d, epoch)
  }

  function DeliveredRequest(c: Cluster, m: Message, acceptable: bool): Cluster
    requires m.AuthRequest? && m.dst < |c.nodes|
  {
    var node := c.nodes[m.dst];
    var auth := Learn(node.auth, m.epoch);
    var c1 := c.(nodes := c.nodes[m.dst := node.(auth := AfterRequest(auth, m.epoch, acceptable))], net := c.net - {m});
    if Grants(auth, m.epoch, acceptable) then
      c1.(net := c1.net + {AuthAck(m.dst, m.src, auth.currentEpoch)},
          votes := c.votes[(m.dst, auth.currentEpoch) := m.src])
    else c1
  }

  function DeliveredAck(voters: set<nat>, c: Cluster, m: Message): Cluster
    requires m.AuthAck? && m.dst < |c.nodes|
  {
    var node := c.nodes[m.dst];
    var auth := Learn(node.auth, m.epoch);
    var acked := if auth.authSent && Counts(auth, m.src in voters, m.epoch) then node.acked + {m.src} else node.acked;
    c.(nodes := c.nodes[m.dst := node.(auth := AfterAck(auth, m.src in voters, m.epoch), acked := acked)],
       net := c.net - {m})
  }

  function Asked(c: Cluster, n: nat): Cluster
    requires n < |c.nodes|
  {
    var auth := Started(c.nodes[n].auth);
    c.(nodes := c.nodes[n := Node(auth, {}, auth.authCount)], net := c.net + Broadcast(n, auth.authEpoch, |c.nodes|))
  }

  function Next(voters: set<nat>, c: Cluster, e: Event): Cluster
    requires Enabled(voters, c, e)
  {
    match e
    case LearnEpoch(n, epoch) => c.(nodes := c.nodes[n := c.nodes[n].(auth := Learn(c.nodes[n].auth, epoch))])
    case DeliverRequest(m, acceptable) => DeliveredRequest(c, m, acceptable)
    case DeliverAck(m) => DeliveredAck(voters, c, m)
    case Lose(m) => c.(net := c.net - {m})
    case ScheduleAttempt(n) => c.(nodes := c.nodes[n := c.nodes[n].(auth := Scheduled(c.nodes[n].auth))])
    case AskVotes(n) => Asked(c, n)
    case Failover(n) =>
      var node := c.nodes[n];
      c.(wins := c.wins + {Victory(n, node.auth.authEpoch, node.acked, node.stale)})
  }

  // ---- The invariant ----

  // A vote binds its voter: nobody votes below the current epoch, and only once in it.
  ghost predicate VotesBind(c: Cluster)
  {
    forall v, e :: (v, e) in c.votes ==>
      v < |c.nodes| && VoteBinds(c.nodes[v].auth, e)
  }

  predicate VoteBinds(a: Auth, e: nat)
  {
    e <= a.currentEpoch && (e == a.currentEpoch ==> a.lastVoteEpoch == e)
  }

  // Votes, requests and answers belong to elections their candidate has started.
  ghost predicate Solicited(c: Cluster)
  {
    && (forall v, e :: (v, e) in c.votes ==>
         c.votes[(v, e)] < |c.nodes| && e <= c.nodes[c.votes[(v, e)]].auth.authEpoch)
    && (forall m :: m in c.net && m.AuthRequest? ==> m.src < |c.nodes| && m.epoch <= c.nodes[m.src].auth.authEpoch)
    && (forall m :: m in c.net && m.AuthAck? ==> VotedFor(c.votes, m.src, m.epoch, m.dst))
  }

  predicate VotedFor(votes: map<(nat, nat), nat>, v: nat, e: nat, who: nat)
  {
    (v, e) in votes && votes[(v, e)] == who
  }

  // A candidate's count is its own voters, each once, and the answers of an earlier election.
  ghost predicate CountGood(voters: set<nat>, c: Cluster, n: nat)
    requires n < |c.nodes|
  {
    var node := c.nodes[n];
    && node.auth.authEpoch <= node.auth.currentEpoch
    && (node.auth.authSent ==>
          && node.auth.authCount == |node.acked| + node.stale
          && (forall v :: v in node.acked ==> v in voters && VotedFor(c.votes, v, node.auth.authEpoch, n))
          && (forall v :: v in node.acked ==> AuthAck(v, n, node.auth.authEpoch) !in c.net))
  }

  ghost predicate CountsGood(voters: set<nat>, c: Cluster)
  {
    forall n {:trigger CountGood(voters, c, n)} :: 0 <= n < |c.nodes| ==> CountGood(voters, c, n)
  }

  ghost predicate VictoryGood(voters: set<nat>, votes: map<(nat, nat), nat>, w: Victory)
  {
    && |w.voters| + w.stale >= Quorum(|voters|)
    && forall v :: v in w.voters ==> v in voters && VotedFor(votes, v, w.epoch, w.who)
  }

  ghost predicate WinsGood(voters: set<nat>, c: Cluster)
  {
    forall w :: w in c.wins ==> VictoryGood(voters, c.votes, w)
  }

  ghost predicate Inv(voters: set<nat>, c: Cluster)
  {
    VotesBind(c) && Solicited(c) && CountsGood(voters, c) && WinsGood(voters, c)
  }

  lemma FreshVote(c: Cluster, v: nat, a: Auth, reqEpoch: nat)
    requires VotesBind(c) && v < |c.nodes| && c.nodes[v].auth.currentEpoch <= a.currentEpoch
    requires a.lastVoteEpoch == c.nodes[v].auth.lastVoteEpoch && Grants(a, reqEpoch, true)
    ensures (v, a.currentEpoch) !in c.votes
  {
    assert (v, a.currentEpoch) in c.votes ==> VoteBinds(c.nodes[v].auth, a.currentEpoch);
  }

  // ---- Delivery of a request ----

  lemma RequestKeepsVotes(c: Cluster, m: Message, acceptable: bool)
    requires VotesBind(c) && m.AuthRequest? && m.dst < |c.nodes|
    ensures VotesBind(DeliveredRequest(c, m, acceptable))
  {
    var c' := DeliveredRequest(c, m, acceptable);
    forall v, e | (v, e) in c'.votes
      ensures v < |c'.nodes| && VoteBinds(c'.nodes[v].auth, e)
    {
      if (v, e) in c.votes {
        assert VoteBinds(c.nodes[v].auth, e);
      }
    }
  }

  // What delivering a request does to the votes and the network, in short.
  lemma RequestEffect(c: Cluster, m: Message, acceptable: bool)
    requires VotesBind(c) && Solicited(c) && m in c.net && m.AuthRequest? && m.dst < |c.nodes|
    ensures var c' := DeliveredRequest(c, m, acceptable);
            && c'.wins == c.wins && |c'.nodes| == |c.nodes|
            && (forall n :: 0 <= n < |c.nodes| ==> SameElection(c.nodes[n], c'.nodes[n]))
            && (|| (c'.votes == c.votes && c'.net <= c.net)
                || (&& (m.dst, m.epoch) !in c.votes && c'.votes == c.votes[(m.dst, m.epoch) := m.src]
                    && c'.net <= c.net + {AuthAck(m.dst, m.src, m.epoch)}))
  {
    var auth := Learn(c.nodes[m.dst].auth, m.epoch);
    if Grants(auth, m.epoch, acceptable) {
      FreshVote(c, m.dst, auth, m.epoch);
    }
  }

  predicate SameElection(a: Node, b: Node)
  {
    && a.acked == b.acked && a.stale == b.stale && a.auth.authEpoch == b.auth.authEpoch
    && a.auth.authCount == b.auth.authCount && a.auth.authSent == b.auth.authSent
    && a.auth.currentEpoch <= b.auth.currentEpoch
  }

  // A step that adds at most one fresh vote, with its answer, and leaves the elections alone.
  ghost predicate Harmless(c: Cluster, c': Cluster, v: nat, e: nat, who: nat)
  {
    && c'.wins == c.wins && |c'.nodes| == |c.nodes|
    && (forall n :: 0 <= n < |c.nodes| ==> SameElection(c.nodes[n], c'.nodes[n]))
    && (|| (c'.votes == c.votes && c'.net <= c.net)
        || (&& (v, e) !in c.votes && c'.votes == c.votes[(v, e) := who] && c'.net <= c.net + {AuthAck(v, who, e)}
            && who < |c.nodes| && e <= c.nodes[who].auth.authEpoch))
  }

  lemma HarmlessKeepsSolicited(c: Cluster, c': Cluster, v: nat, e: nat, who: nat)
    requires Harmless(c, c', v, e, who) && Solicited(c)
    ensures Solicited(c')
  {
    forall m | m in c'.net && m.AuthAck?
      ensures VotedFor(c'.votes, m.src, m.epoch, m.dst)
    {
      assert m in c.net ==> VotedFor(c.votes, m.src, m.epoch, m.dst);
    }
  }

  lemma HarmlessKeepsCount(voters: set<nat>, c: Cluster, c': Cluster, v: nat, e: nat, who: nat, n: nat)
    requires Harmless(c, c', v, e, who) && n < |c.nodes| && CountGood(voters, c, n)
    ensures CountGood(voters, c', n)
  {
    assert SameElection(c.nodes[n], c'.nodes[n]);
    forall u | u in c'.nodes[n].acked && c'.nodes[n].auth.authSent
      ensures u in voters && VotedFor(c'.votes, u, c'.nodes[n].auth.authEpoch, n)
      ensures AuthAck(u, n, c'.nodes[n].auth.authEpoch) !in c'.net
    {
      assert VotedFor(c.votes, u, c.nodes[n].auth.authEpoch, n);
    }
  }

  lemma HarmlessKeepsWins(voters: set<nat>, c: Cluster, c': Cluster, v: nat, e: nat, who: nat)
    requires Harmless(c, c', v, e, who) && WinsGood(voters, c)
    ensures WinsGood(voters, c')
  {
    forall w | w in c'.wins
      ensures VictoryGood(voters, c'.votes, w)
    {
      assert VictoryGood(voters, c.votes, w);
      forall u | u in w.voters
        ensures u in voters && VotedFor(c'.votes, u, w.epoch, w.who)
      {
        assert VotedFor(c.votes, u, w.epoch, w.who);
      }
    }
  }

  lemma HarmlessKeepsRest(voters: set<nat>, c: Cluster, c': Cluster, v: nat, e: nat, who: nat)
    requires Harmless(c, c', v, e, who) && Solicited(c) && CountsGood(voters, c) && WinsGood(voters, c)
    ensures Solicited(c') && CountsGood(voters, c') && WinsGood(voters, c')
  {
    HarmlessKeepsSolicited(c, c', v, e, who);
    HarmlessKeepsWins(voters, c, c', v, e, who);
    forall n | 0 <= n < |c'.nodes|
      ensures CountGood(voters, c', n)
    {
      HarmlessKeepsCount(voters, c, c', v, e, who, n);
    }
  }

  lemma RequestKeepsInv(voters: set<nat>, c: Cluster, m: Message, acceptable: bool)
    requires Inv(voters, c) && m in c.net && m.AuthRequest? && m.dst < |c.nodes|
    ensures Inv(voters, DeliveredRequest(c, m, acceptable))
  {
    var c' := DeliveredRequest(c, m, acceptable);
    RequestKeepsVotes(c, m, acceptable);
    RequestEffect(c, m, acceptable);
    assert Harmless(c, c', m.dst, m.epoch, m.src);
    HarmlessKeepsRest(voters, c, c', m.dst, m.epoch, m.src);
  }

  // ---- Delivery of an answer ----

  lemma AckKeepsVotes(voters: set<nat>, c: Cluster, m: Message)
    requires VotesBind(c) && m.AuthAck? && m.dst < |c.nodes|
    ensures VotesBind(DeliveredAck(voters, c, m))
  {
    var c' := DeliveredAck(voters, c, m);
    forall v, e | (v, e) in c'.votes
      ensures v < |c'.nodes| && VoteBinds(c'.nodes[v].auth, e)
    {
      assert VoteBinds(c.nodes[v].auth, e);
    }
  }

  lemma AckIsCounted(voters: set<nat>, c: Cluster, m: Message)
    requires Solicited(c) && m in c.net && m.AuthAck? && m.dst < |c.nodes| && CountGood(voters, c, m.dst)
    ensures CountGood(voters, DeliveredAck(voters, c, m), m.dst)
  {
    assert VotedFor(c.votes, m.src, m.epoch, m.dst);
    var node := c.nodes[m.dst];
    if node.auth.authSent && Counts(node.auth, m.src in voters, m.epoch) {
      assert m == AuthAck(m.src, m.dst, node.auth.authEpoch);
      assert m.src !in node.acked;
    }
  }

  lemma AckKeepsInv(voters: set<nat>, c: Cluster, m: Message)
    requires Inv(voters, c) && m in c.net && m.AuthAck? && m.dst < |c.nodes|
    ensures Inv(voters, DeliveredAck(voters, c, m))
  {
    var c' := DeliveredAck(voters, c, m);
    AckKeepsVotes(voters, c, m);
    forall n | 0 <= n < |c'.nodes|
      ensures CountGood(voters, c', n)
    {
      assert CountGood(voters, c, n);
      if n == m.dst {
        AckIsCounted(voters, c, m);
      }
    }
  }

  // ---- Asking for votes ----

  lemma AskKeepsVotes(c: Cluster, n: nat)
    requires VotesBind(c) && n < |c.nodes|
    ensures VotesBind(Asked(c, n))
  {
    var c' := Asked(c, n);
    forall v, e | (v, e) in c'.votes
      ensures v < |c'.nodes| && VoteBinds(c'.nodes[v].auth, e)
    {
      assert VoteBinds(c.nodes[v].auth, e);
    }
  }

  lemma AskKeepsSolicited(c: Cluster, n: nat)
    requires Solicited(c) && n < |c.nodes| && c.nodes[n].auth.authEpoch <= c.nodes[n].auth.currentEpoch
    ensures Solicited(Asked(c, n))
  {
    var c' := Asked(c, n);
    forall m | m in c'.net && m.AuthRequest?
      ensures m.src < |c'.nodes| && m.epoch <= c'.nodes[m.src].auth.authEpoch
    {
      assert m in c.net ==> m.epoch <= c.nodes[m.src].auth.authEpoch;
    }
  }

  lemma AskKeepsInv(voters: set<nat>, c: Cluster, n: nat)
    requires Inv(voters, c) && n < |c.nodes|
    ensures Inv(voters, Asked(c, n))
  {
    var c' := Asked(c, n);
    assert CountGood(voters, c, n);
    AskKeepsVotes(c, n);
    AskKeepsSolicited(c, n);
    forall k | 0 <= k < |c'.nodes|
      ensures CountGood(voters, c', k)
    {
      assert CountGood(voters, c, k);
    }
  }

  // ---- The other steps ----

  lemma QuietKeepsInv(voters: set<nat>, c: Cluster, n: nat, node: Node)
    requires Inv(voters, c) && n < |c.nodes| && node.auth.lastVoteEpoch == c.nodes[n].auth.lastVoteEpoch
    requires node.auth.authEpoch == c.nodes[n].auth.authEpoch && c.nodes[n].auth.currentEpoch <= node.auth.currentEpoch
    requires node.auth.authSent ==> SameElection(c.nodes[n], node)
    ensures Inv(voters, c.(nodes := c.nodes[n := node]))
  {
    var c' := c.(nodes := c.nodes[n := node]);
    forall v, e | (v, e) in c'.votes
      ensures v < |c'.nodes| && VoteBinds(c'.nodes[v].auth, e)
    {
      assert VoteBinds(c.nodes[v].auth, e);
    }
    forall k | 0 <= k < |c'.nodes|
      ensures CountGood(voters, c', k)
    {
      assert CountGood(voters, c, k);
    }
  }

  lemma LoseKeepsInv(voters: set<nat>, c: Cluster, m: Message)
    requires Inv(voters, c)
    ensures Inv(voters, c.(net := c.net - {m}))
  {
    var c' := c.(net := c.net - {m});
    forall k | 0 <= k < |c'.nodes|
      ensures CountGood(voters, c', k)
    {
      assert CountGood(voters, c, k);
    }
  }

  lemma WinKeepsInv(voters: set<nat>, c: Cluster, n: nat)
    requires Inv(voters, c) && Enabled(voters, c, Failover(n))
    ensures Inv(voters, Next(voters, c, Failover(n)))
  {
    var c' := Next(voters, c, Failover(n));
    assert CountGood(voters, c, n);
    forall k | 0 <= k < |c'.nodes|
      ensures CountGood(voters, c', k)
    {
      assert CountGood(voters, c, k);
    }
  }

  lemma NextKeepsInv(voters: set<nat>, c: Cluster, e: Event)
    requires Inv(voters, c) && Enabled(voters, c, e)
    ensures Inv(voters, Next(voters, c, e))
  {
    match e
    case LearnEpoch(n, epoch) => QuietKeepsInv(voters, c, n, c.nodes[n].(auth := Learn(c.nodes[n].auth, epoch)));
    case DeliverRequest(m, acceptable) => RequestKeepsInv(voters, c, m, acceptable);
    case DeliverAck(m) => AckKeepsInv(voters, c, m);
    case Lose(m) => LoseKeepsInv(voters, c, m);
    case ScheduleAttempt(n) => QuietKeepsInv(voters, c, n, c.nodes[n].(auth := Scheduled(c.nodes[n].auth)));
    case AskVotes(n) => AskKeepsInv(voters, c, n);
    case Failover(n) => WinKeepsInv(voters, c, n);
  }

  // ---- Whole runs ----

  // No votes yet, no election, nothing in flight.
  ghost predicate Initial(c: Cluster)
  {
    && c.net == {} && c.votes == map[] && c.wins == {}
    && forall n :: 0 <= n < |c.nodes| ==>
         !c.nodes[n].auth.authSent && c.nodes[n].auth.authEpoch <= c.nodes[n].auth.currentEpoch
  }

  ghost predicate Run(voters: set<nat>, states: seq<Cluster>, events: seq<Event>)
  {
    && |states| == |events| + 1 && Initial(states[0])
    && forall i :: 0 <= i < |events| ==>
         Enabled(voters, states[i], events[i]) && states[i + 1] == Next(voters, states[i], events[i])
  }

  lemma {:induction false} RunKeepsInv(voters: set<nat>, states: seq<Cluster>, events: seq<Event>, n: nat)
    requires Run(voters, states, events) && n < |states|
    ensures Inv(voters, states[n])
  {
    if n == 0 {
      forall k | 0 <= k < |states[0].nodes|
        ensures CountGood(voters, states[0], k)
      {
      }
    } else {
      RunKeepsInv(voters, states, events, n - 1);
      assert states[n - 1 + 1] == states[n];
      NextKeepsInv(voters, states[n - 1], events[n - 1]);
    }
  }

  lemma SizeOfUnion(a: set<nat>, b: set<nat>, all: set<nat>)
    requires a <= all && b <= all && a !! b
    ensures |a| + |b| <= |all|
  {
    assert |a + b| == |a| + |b|;
    SubsetSize(a + b, all);
  }

  // Two nodes that won the same election have shared a voter unless answers to earlier elections made up for it.
  lemma SplitElection(voters: set<nat>, votes: map<(nat, nat), nat>, v: Victory, w: Victory)
    requires VictoryGood(voters, votes, v) && VictoryGood(voters, votes, w) && v.epoch == w.epoch && v.who != w.who
    ensures v.stale + w.stale >= 2 * Quorum(|voters|) - |voters|
  {
    assert v.voters !! w.voters by {
      assert forall x :: x in v.voters ==> VotedFor(votes, x, v.epoch, v.who);
      assert forall x :: x in w.voters ==> VotedFor(votes, x, w.epoch, w.who);
    }
    SizeOfUnion(v.voters, w.voters, voters);
  }

  /* In every run, two different nodes that won in the same epoch counted answers to earlier elections,
     at least one if the number of masters is odd and at least two if it is even. */
  lemma TwoWinnersNeedStaleVotes(voters: set<nat>, states: seq<Cluster>, events: seq<Event>, n: nat, v: Victory,
                                 w: Victory)
    requires Run(voters, states, events) && n < |states|
    requires v in states[n].wins && w in states[n].wins && v.epoch == w.epoch && v.who != w.who
    ensures v.stale + w.stale >= 2 - |voters| % 2
  {
    RunKeepsInv(voters, states, events, n);
    SplitElection(voters, states[n].votes, v, w);
  }

  lemma {:induction false} SubsetOfSize(all: set<nat>, k: nat) returns (a: set<nat>)
    requires k <= |all|
    ensures a <= all && |a| == k
    decreases k
  {
    if k == 0 {
      a := {};
    } else {
      var x :| x in all;
      a := SubsetOfSize(all - {x}, k - 1);
      a := a + {x};
    }
  }

  /* A run in which no node asks for votes with answers already counted has at most one winner an epoch,
     and each has the votes of a majority. */
  ghost predicate FreshCounts(states: seq<Cluster>, events: seq<Event>)
    requires |states| == |events| + 1
  {
    forall i :: 0 <= i < |events| && events[i].AskVotes? && events[i].n < |states[i].nodes| ==>
      states[i].nodes[events[i].n].auth.authCount == 0
  }

  ghost predicate NoStale(c: Cluster)
  {
    && (forall n :: 0 <= n < |c.nodes| && c.nodes[n].auth.authSent ==> c.nodes[n].stale == 0)
    && (forall w :: w in c.wins ==> w.stale == 0)
  }

  lemma {:induction false} FreshCountsNoStale(voters: set<nat>, states: seq<Cluster>, events: seq<Event>, n: nat)
    requires Run(voters, states, events) && FreshCounts(states, events) && n < |states|
    ensures NoStale(states[n])
  {
    if n > 0 {
      FreshCountsNoStale(voters, states, events, n - 1);
      assert states[n - 1 + 1] == states[n];
    }
  }

  lemma OneWinnerPerEpoch(voters: set<nat>, states: seq<Cluster>, events: seq<Event>, n: nat, v: Victory, w: Victory)
    requires Run(voters, states, events) && FreshCounts(states, events) && n < |states|
    requires v in states[n].wins && w in states[n].wins && v.epoch == w.epoch
    ensures v.who == w.who && |v.voters| >= Quorum(|voters|)
  {
    FreshCountsNoStale(voters, states, events, n);
    RunKeepsInv(voters, states, events, n);
    assert VictoryGood(voters, states[n].votes, v);
    if v.who != w.who {
      TwoWinnersNeedStaleVotes(voters, states, events, n, v, w);
    }
  }
}
