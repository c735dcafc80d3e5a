/**
 Who wins an uninterrupted election: a candidate that meets no newer term, and whose log
 a majority, its own vote included, finds recent enough.
*/
module RaftElection {
  import opened Wrappers
  import opened RaftProtocol
  import opened RaftCluster
  import opened RaftRounds
  import opened RaftProgress

  /** log ends in a later term than other, or in the same one and is not shorter. */
  predicate AsRecent(log: seq<Entry>, other: seq<Entry>) {
    LastTerm(other) < LastTerm(log) || (LastTerm(other) == LastTerm(log) && |other| <= |log|)
  }

  /** m votes for i in this term: it has not voted for another node in it, and holds
      nothing more recent than i's log. */
  predicate Supports(m: Node, i: nat, term: nat, log: seq<Entry>) {
    && m.term <= term && (m.term == term ==> m.votedFor == None || m.votedFor == Some(i))
    && AsRecent(log, m.log)
  }

  /** The nodes from k on that vote for i. */
  function Supporters(nodes: seq<Node>, i: nat, term: nat, k: nat): (s: set<nat>)
    requires i < |nodes|
    ensures forall p: nat :: p in s <==> k <= p < |nodes| && p != i && Supports(nodes[p], i, term, nodes[i].log)
  {
    set p | p in Ids(|nodes|) && k <= p && p != i && Supports(nodes[p], i, term, nodes[i].log)
  }

  /** What one node of no newer term makes of the request. */
  lemma Ballot(m: Node, i: nat, n: Node)
    requires m.term <= n.term
    ensures var (after, reply) := HandleVote(m, VoteRequest(n, i));
      && reply == VoteReply(n.term, Supports(m, i, n.term, n.log))
      && after.term == n.term && after.log == m.log && after.lastApplied == m.lastApplied
      && (m.term < n.term ==> after.role == Follower)
  {
  }

  lemma NewerRefuses(m: Node, i: nat, n: Node)
    requires m.term > n.term
    ensures HandleVote(m, VoteRequest(n, i)) == (m, VoteReply(m.term, false))
  {
  }

  /** What polling from k on does to node p. */
  ghost predicate Polls(n: Node, p: nat, k: nat, m: Node, after: Node) {
    if p < k then after == m
    else
      after.log == m.log && after.lastApplied == m.lastApplied && after.term <= n.term
      && (m.term < n.term ==> after.role == Follower && after.term == n.term)
  }

  ghost predicate AllPolled(nodes: seq<Node>, i: nat, k: nat, after: seq<Node>)
    requires i < |nodes|
  {
    && |after| == |nodes| && after[i] == nodes[i]
    && forall p: nat :: p < |nodes| && p != i ==> Polls(nodes[i], p, k, nodes[p], after[p])
  }

  lemma SupportersStep(nodes: seq<Node>, i: nat, term: nat, k: nat, sent: seq<Node>)
    requires i < |nodes| && k < |nodes| && |sent| == |nodes| && sent[i] == nodes[i]
    requires forall p: nat :: k < p < |nodes| ==> sent[p] == nodes[p]
    ensures |Supporters(nodes, i, term, k)| ==
      |Supporters(sent, i, term, k + 1)| + if k != i && Supports(nodes[k], i, term, nodes[i].log) then 1 else 0
  {
    var s := Supporters(sent, i, term, k + 1);
    assert Supporters(nodes, i, term, k) ==
      if k != i && Supports(nodes[k], i, term, nodes[i].log) then s + {k} else s;
  }

  lemma PolledMore(nodes: seq<Node>, i: nat, k: nat, sent: seq<Node>, after: seq<Node>)
    requires i < |nodes| && k < |nodes| && k != i && |sent| == |nodes| && AllPolled(sent, i, k + 1, after)
    requires sent == nodes[k := sent[k]] && Polls(nodes[i], k, k, nodes[k], sent[k])
    ensures AllPolled(nodes, i, k, after)
  {
  }

  /** Without a newer term the candidate hears everyone, and counts its supporters. */
  lemma {:induction false} Polled(nodes: seq<Node>, i: nat, k: nat, votes: nat)
    requires i < |nodes| && NoneNewer(nodes, i)
    ensures var (after, v, stopped) := PollFrom(nodes, i, k, votes);
      !stopped && v == votes + |Supporters(nodes, i, nodes[i].term, k)| && AllPolled(nodes, i, k, after)
    decreases |nodes| - k
  {
    hide Supports, HandleVote, VoteRequest, AllPolled;
    if k >= |nodes| {
      assert Supporters(nodes, i, nodes[i].term, k) == {};
      NobodyPolled(nodes, i, k);
    } else if k == i {
      SupportersStep(nodes, i, nodes[i].term, k, nodes);
      Polled(nodes, i, k + 1, votes);
      SelfPolled(nodes, i, PollFrom(nodes, i, k, votes).0);
    } else {
      Ballot(nodes[k], i, nodes[i]);
      var (sent, v, _) := AskVote(nodes, i, k, votes);
      SupportersStep(nodes, i, nodes[i].term, k, sent);
      Polled(sent, i, k + 1, v);
      PolledMore(nodes, i, k, sent, PollFrom(sent, i, k + 1, v).0);
    }
  }

  lemma NobodyPolled(nodes: seq<Node>, i: nat, k: nat)
    requires i < |nodes| <= k
    ensures AllPolled(nodes, i, k, nodes)
  {
  }

  lemma SelfPolled(nodes: seq<Node>, i: nat, after: seq<Node>)
    requires i < |nodes| && AllPolled(nodes, i, i + 1, after)
    ensures AllPolled(nodes, i, i, after)
  {
  }

  /** With one, it ends as a follower in a newer term. */
  lemma {:induction false} PolledNewer(nodes: seq<Node>, i: nat, k: nat, votes: nat, p: nat)
    requires i < |nodes| && k <= p < |nodes| && p != i && nodes[p].term > nodes[i].term
    ensures var (after, _, stopped) := PollFrom(nodes, i, k, votes);
      stopped && after[i].role == Follower && after[i].term > nodes[i].term
    decreases |nodes| - k
  {
    hide Supports, HandleVote, VoteRequest;
    if k == i {
      PolledNewer(nodes, i, k + 1, votes, p);
    } else if nodes[k].term > nodes[i].term {
      NewerRefuses(nodes[k], i, nodes[i]);
    } else {
      Ballot(nodes[k], i, nodes[i]);
      var (sent, v, _) := AskVote(nodes, i, k, votes);
      PolledNewer(sent, i, k + 1, v, p);
    }
  }

  /** The new leader's first round starts at the end of its log, knowing nothing of the others. */
  ghost predicate FreshLeader(n: Node, led: Node, peers: nat) {
    && led == n.(role := Leader, nextIndex := led.nextIndex, matchIndex := led.matchIndex)
    && forall p: nat :: p < peers ==> p in led.nextIndex && led.nextIndex[p] == |n.log| && MatchOf(led, p) == -1
  }

  /** A winner, and what its first heartbeat round starts from. */
  ghost predicate WonFrom(nodes: seq<Node>, i: nat, led: seq<Node>)
    requires i < |nodes|
  {
    && |led| == |nodes| && FreshLeader(BeginElection(nodes[i], i), led[i], |nodes|)
    && (forall p: nat :: p < |nodes| ==> led[p].log == nodes[p].log)
    && Leading(led, i)
  }

  lemma TakesOffice(nodes: seq<Node>, i: nat, polled: seq<Node>)
    requires i < |nodes| && CanCommit(nodes[i]) && Started(nodes)
    requires var begun := nodes[i := BeginElection(nodes[i], i)]; NoneNewer(begun, i) && AllPolled(begun, i, 0, polled)
    ensures var led := polled[i := BecomeLeader(polled[i], |nodes|)];
      && WonFrom(nodes, i, led) && Leading(led, i)
      && led[i].role == Leader && led[i].term == nodes[i].term + 1 && led[i].log == nodes[i].log
  {
    var begun, led := nodes[i := BeginElection(nodes[i], i)], polled[i := BecomeLeader(polled[i], |nodes|)];
    forall p: nat | p < |nodes| && p != i ensures Polls(begun[i], p, 0, nodes[p], led[p]) {
    }
  }

  /** The outcome of an uninterrupted election: node i leads its new term if and only if
      no node is in a newer one and it has more than half of the votes. */
  lemma ElectionOutcome(nodes: seq<Node>, i: nat)
    requires i < |nodes| && CanCommit(nodes[i]) && Started(nodes)
    ensures var after, term := ElectionRound(nodes, i), nodes[i].term + 1;
      var newer := exists p: nat :: p < |nodes| && p != i && nodes[p].term > term;
      var votes := 1 + |Supporters(nodes, i, term, 0)|;
      && (newer ==> after[i].role == Follower && after[i].term > term)
      && (!newer && 2 * votes <= |nodes| ==>
            after[i] == BeginElection(nodes[i], i) && AllPolled(nodes[i := after[i]], i, 0, after))
      && (!newer && 2 * votes > |nodes| ==>
            after[i].role == Leader && after[i].term == term && after[i].log == nodes[i].log && NoneNewer(after, i)
            && exists led :: WonFrom(nodes, i, led) && after == HeartbeatRound(led, i))
  {
    hide HeartbeatRound, PollFrom, AllPolled, Supports, WonFrom, Supporters;
    var begun := nodes[i := BeginElection(nodes[i], i)];
    assert Supporters(begun, i, nodes[i].term + 1, 0) == Supporters(nodes, i, nodes[i].term + 1, 0);
    PollFrame(begun, i, 0, 1);
    if p: nat :| p < |nodes| && p != i && nodes[p].term > nodes[i].term + 1 {
      PolledNewer(begun, i, 0, 1, p);
    } else {
      assert NoneNewer(begun, i);
      Polled(begun, i, 0, 1);
      var (polled, votes, _) := PollFrom(begun, i, 0, 1);
      if votes > |nodes| / 2 {
        var led := polled[i := BecomeLeader(polled[i], |nodes|)];
        TakesOffice(nodes, i, polled);
        Round(led, i);
      }
    }
  }

  /** A candidate whose term no node has passed wins if, with itself, a majority in older
      terms holds nothing more recent. */
  lemma RecentLogWins(nodes: seq<Node>, i: nat, majority: set<nat>)
    requires i < |nodes| && CanCommit(nodes[i]) && Started(nodes) && NoneNewer(nodes, i)
    requires majority <= Ids(|nodes|) && i in majority && 2 * |majority| > |nodes|
    requires forall p :: p in majority ==> AsRecent(nodes[i].log, nodes[p].log)
    ensures var after := ElectionRound(nodes, i);
      after[i].role == Leader && after[i].term == nodes[i].term + 1 && NoneNewer(after, i)
  {
    hide HeartbeatRound, ElectionRound, WonFrom, AllPolled, BeginElection, AsRecent, CanCommit, Started;
    ElectionOutcome(nodes, i);
    RecentSupports(nodes, i, majority);
  }

  lemma RecentSupports(nodes: seq<Node>, i: nat, majority: set<nat>)
    requires i < |nodes| && NoneNewer(nodes, i) && majority <= Ids(|nodes|) && i in majority
    requires forall p :: p in majority ==> AsRecent(nodes[i].log, nodes[p].log)
    ensures |majority| <= 1 + |Supporters(nodes, i, nodes[i].term + 1, 0)|
  {
    hide AsRecent;
    var s := Supporters(nodes, i, nodes[i].term + 1, 0);
    assert majority <= s + {i};
    SubsetSize(majority, s + {i});
  }
}
