/**
 What uninterrupted rounds achieve: heartbeats repair every peer and commit what
 the leader wrote in its own term, and an election among nodes without a newer
 term is won exactly when a majority finds the candidate's log recent enough.
*/
module RaftProgress {
  import opened Wrappers
  import opened RaftProtocol
  import opened RaftCluster
  import opened RaftRounds
  import opened RaftRepair

  // ---------- one heartbeat round ----------

  /** No node is in a newer term than node i. */
  predicate NoneNewer(nodes: seq<Node>, i: nat)
    requires i < |nodes|
  {
    forall p: nat :: p < |nodes| ==> nodes[p].term <= nodes[i].term
  }

  /** The leader's own state, apart from what it knows of its peers. */
  ghost predicate SameLeader(n: Node, m: Node) {
    m == n.(nextIndex := m.nextIndex, matchIndex := m.matchIndex)
  }

  /** Peer p has answered the leader's append. */
  ghost predicate Answered(nodes: seq<Node>, i: nat, p: nat, after: seq<Node>)
    requires Indexed(nodes, i) && p < |nodes| && |after| == |nodes|
  {
    && after[p] == HandleAppend(nodes[p], AppendRequest(nodes[i], i, p)).0
    && p in after[i].nextIndex
    && LinkOf(after, i, p) == Step(nodes[i].log, LinkOf(nodes, i, p))
  }

  /** Nothing has happened between i and p. */
  ghost predicate Untold(nodes: seq<Node>, i: nat, p: nat, after: seq<Node>)
    requires Indexed(nodes, i) && p < |nodes| && |after| == |nodes|
  {
    after[p] == nodes[p] && p in after[i].nextIndex && LinkOf(after, i, p) == LinkOf(nodes, i, p)
  }

  lemma Sent(nodes: seq<Node>, i: nat, p: nat)
    requires Indexed(nodes, i) && NoneNewer(nodes, i) && p < |nodes| && i != p
    ensures CanSend(nodes, i, p)
    ensures var (sent, stopped) := SendAppend(nodes, i, p);
      && !stopped && Indexed(sent, i) && NoneNewer(sent, i) && SameLeader(nodes[i], sent[i])
      && Answered(nodes, i, p, sent)
      && forall q: nat :: q < |nodes| && q != i && q != p ==> Untold(nodes, i, q, sent)
  {
    Exchange(nodes, i, p);
    SendKeepsIndexed(nodes, i, p);
  }

  lemma UntoldThen(nodes: seq<Node>, i: nat, p: nat, sent: seq<Node>, after: seq<Node>)
    requires Indexed(nodes, i) && Indexed(sent, i) && p < |nodes| && p != i && |nodes| == |sent| == |after|
    requires SameLeader(nodes[i], sent[i]) && Untold(nodes, i, p, sent)
    ensures Untold(sent, i, p, after) ==> Untold(nodes, i, p, after)
    ensures Answered(sent, i, p, after) ==> Answered(nodes, i, p, after)
  {
    assert AppendRequest(sent[i], i, p) == AppendRequest(nodes[i], i, p);
  }

  lemma ThenUntold(nodes: seq<Node>, i: nat, p: nat, sent: seq<Node>, after: seq<Node>)
    requires Indexed(nodes, i) && Indexed(sent, i) && p < |nodes| && p != i && |nodes| == |sent| == |after|
    requires Answered(nodes, i, p, sent) && Untold(sent, i, p, after)
    ensures Answered(nodes, i, p, after)
  {
  }

  /** The loop over the peers, from k on: each of them answers once. */
  lemma {:induction false} Broadcasts(nodes: seq<Node>, i: nat, k: nat)
    requires Indexed(nodes, i) && NoneNewer(nodes, i)
    ensures var (after, stopped) := BroadcastFrom(nodes, i, k);
      && !stopped && Indexed(after, i) && NoneNewer(after, i) && SameLeader(nodes[i], after[i])
      && forall p: nat :: p < |nodes| && p != i ==> if p < k then Untold(nodes, i, p, after) else Answered(nodes, i, p, after)
    decreases |nodes| - k
  {
    hide Untold, Answered, SendAppend, NoneNewer, SameLeader, Indexed;
    if k >= |nodes| {
      NothingSent(nodes, i);
    } else if k == i {
      Broadcasts(nodes, i, k + 1);
    } else {
      Sent(nodes, i, k);
      var sent := SendAppend(nodes, i, k).0;
      Broadcasts(sent, i, k + 1);
      var after := BroadcastFrom(sent, i, k + 1).0;
      assert BroadcastFrom(nodes, i, k).0 == after;
      LeaderStays(nodes[i], sent[i], after[i]);
      forall p: nat | p < |nodes| && p != i
        ensures if p < k then Untold(nodes, i, p, after) else Answered(nodes, i, p, after)
      {
        if p == k { ThenUntold(nodes, i, p, sent, after); } else { UntoldThen(nodes, i, p, sent, after); }
      }
    }
  }

  lemma NothingSent(nodes: seq<Node>, i: nat)
    requires Indexed(nodes, i)
    ensures SameLeader(nodes[i], nodes[i]) && forall p: nat :: p < |nodes| ==> Untold(nodes, i, p, nodes)
  {
  }

  lemma LeaderStays(n: Node, m: Node, l: Node)
    requires SameLeader(n, m) && SameLeader(m, l)
    ensures SameLeader(n, l)
  {
  }

  /** An append to a peer in a newer term ends the leader's term. */
  lemma NewerDeposes(nodes: seq<Node>, i: nat, p: nat)
    requires CanSend(nodes, i, p) && nodes[p].term > nodes[i].term
    ensures SendAppend(nodes, i, p) == (nodes[i := StepDown(nodes[i], nodes[p].term)], true)
  {
    assert HandleAppend(nodes[p], AppendRequest(nodes[i], i, p)) == (nodes[p], AppendReply(nodes[p].term, false));
    assert nodes[p := nodes[p]] == nodes;
  }

  /** So does a round in which some peer is in a newer term. */
  lemma {:induction false} RoundDeposed(nodes: seq<Node>, i: nat, k: nat, p: nat)
    requires Indexed(nodes, i) && k <= p < |nodes| && p != i && nodes[p].term > nodes[i].term
    ensures var (after, stopped) := BroadcastFrom(nodes, i, k);
      stopped && after[i].role == Follower && after[i].term > nodes[i].term && after[i].votedFor == None
    decreases |nodes| - k
  {
    hide SendAppend, HandleAppend;
    if k == i {
      RoundDeposed(nodes, i, k + 1, p);
    } else {
      SendKeepsIndexed(nodes, i, k);
      if nodes[k].term > nodes[i].term {
        NewerDeposes(nodes, i, k);
      } else {
        Exchange(nodes, i, k);
        RoundDeposed(SendAppend(nodes, i, k).0, i, k + 1, p);
      }
    }
  }

  /** A leader stays in office for a heartbeat round if and only if no peer is in a newer term. */
  lemma StaysInOffice(nodes: seq<Node>, i: nat)
    requires Indexed(nodes, i) && CanCommit(nodes[i]) && nodes[i].role == Leader
    ensures HeartbeatRound(nodes, i)[i].role == Leader <==> NoneNewer(nodes, i)
    ensures !NoneNewer(nodes, i) ==> HeartbeatRound(nodes, i)[i].role == Follower && HeartbeatRound(nodes, i)[i].term > nodes[i].term
  {
    hide BroadcastFrom;
    if NoneNewer(nodes, i) {
      RoundLeader(nodes, i);
    } else {
      var p: nat :| p < |nodes| && nodes[p].term > nodes[i].term;
      RoundDeposed(nodes, i, 0, p);
    }
  }

  // ---------- heartbeat rounds ----------

  ghost predicate Leading(nodes: seq<Node>, i: nat) {
    Indexed(nodes, i) && NoneNewer(nodes, i) && CanCommit(nodes[i])
  }

  /** The peers known to hold the leader's whole log. */
  function InStep(n: Node, i: nat, peers: nat): (s: set<nat>)
    ensures forall p: nat :: p in s <==> p < peers && p != i && MatchOf(n, p) == |n.log| - 1
  {
    set p | p in Ids(peers) && p != i && MatchOf(n, p) == |n.log| - 1
  }

  /** A leader whose log ends in its own term commits all of it once a majority is in step. */
  lemma AdvancesToEnd(n: Node, i: nat, peers: nat)
    requires CanCommit(n)
    ensures var m := AdvanceCommit(n, i, peers);
      && CanCommit(m) && m.commit >= n.commit && SameButCommit(n, m)
      && (n.log != [] && n.log[|n.log| - 1].term == n.term && 1 + |InStep(n, i, peers)| > peers / 2 ==>
            m.commit == |n.log| - 1)
  {
    SubsetSize(InStep(n, i, peers), Holders(n, i, peers, |n.log| - 1));
  }

  ghost predicate SameButCommit(n: Node, m: Node) {
    m == n.(commit := m.commit, lastApplied := m.lastApplied, applied := m.applied)
  }

  /** One round: one append to every peer, then the commit index. */
  lemma Round(nodes: seq<Node>, i: nat)
    requires Leading(nodes, i)
    ensures var after, n := HeartbeatRound(nodes, i), nodes[i];
      && Leading(after, i) && after[i].log == n.log && after[i].term == n.term && after[i].role == n.role
      && after[i].commit >= n.commit
      && (n.log != [] && n.log[|n.log| - 1].term == n.term && 1 + |InStep(after[i], i, |nodes|)| > |nodes| / 2 ==>
            after[i].commit == |n.log| - 1)
      && forall p: nat :: p < |nodes| && p != i ==> Answered(nodes, i, p, after)
  {
    hide Answered, AdvanceCommit, BroadcastFrom, HandleAppend, Step, InStep;
    Broadcasts(nodes, i, 0);
    var sent := BroadcastFrom(nodes, i, 0).0;
    AdvancesToEnd(sent[i], i, |nodes|);
    var after := HeartbeatRound(nodes, i);
    assert InStep(after[i], i, |nodes|) == InStep(sent[i], i, |nodes|);
    forall p: nat | p < |nodes| && p != i ensures Answered(nodes, i, p, after) {
      SentThenAdvanced(nodes, i, p, sent, after);
    }
  }

  lemma SentThenAdvanced(nodes: seq<Node>, i: nat, p: nat, sent: seq<Node>, after: seq<Node>)
    requires Indexed(nodes, i) && p < |nodes| && p != i && |sent| == |after| == |nodes|
    requires Answered(nodes, i, p, sent) && SameButCommit(sent[i], after[i]) && after[p] == sent[p]
    ensures Answered(nodes, i, p, after)
  {
  }

  function Rounds(nodes: seq<Node>, i: nat, r: nat): (after: seq<Node>)
    requires Leading(nodes, i)
    ensures Leading(after, i) && |after| == |nodes|
  {
    if r == 0 then nodes
    else
      Round(Rounds(nodes, i, r - 1), i);
      HeartbeatRound(Rounds(nodes, i, r - 1), i)
  }

  lemma RoundLink(nodes: seq<Node>, i: nat, p: nat)
    requires Leading(nodes, i) && p < |nodes| && p != i
    ensures p in nodes[i].nextIndex && nodes[i].nextIndex[p] <= |nodes[i].log|
    ensures var after := HeartbeatRound(nodes, i);
      && after[i].log == nodes[i].log && after[i].term == nodes[i].term && after[i].role == nodes[i].role
      && p in after[i].nextIndex && LinkOf(after, i, p) == Step(nodes[i].log, LinkOf(nodes, i, p))
  {
    hide HeartbeatRound, HandleAppend, AppendRequest, Step, LinkOf;
    Round(nodes, i);
    assert Answered(nodes, i, p, HeartbeatRound(nodes, i));
  }

  lemma {:induction false} RoundsLink(nodes: seq<Node>, i: nat, p: nat, r: nat)
    requires Leading(nodes, i) && p < |nodes| && p != i
    ensures var after := Rounds(nodes, i, r);
      && after[i].log == nodes[i].log && after[i].term == nodes[i].term && after[i].role == nodes[i].role
      && LinkOf(after, i, p) == Steps(nodes[i].log, LinkOf(nodes, i, p), r)
  {
    hide Leading, LinkOf, HeartbeatRound, HandleAppend, AppendRequest, Step;
    if r > 0 {
      RoundsLink(nodes, i, p, r - 1);
      RoundLink(Rounds(nodes, i, r - 1), i, p);
    }
  }

  /** How many appends to p are refused before one is accepted. */
  function RefusalsLeft(nodes: seq<Node>, i: nat, p: nat): (k: nat)
    requires Indexed(nodes, i) && p < |nodes|
    ensures k <= nodes[i].nextIndex[p]
  {
    var next := nodes[i].nextIndex[p];
    next - MeetingPoint(nodes[i].log, nodes[p].log, next)
  }

  /** Heartbeat rounds repair every peer: each takes one round per refusal and one more. */
  lemma HeartbeatsRepair(nodes: seq<Node>, i: nat, p: nat, r: nat)
    requires Leading(nodes, i) && p < |nodes| && p != i && r > RefusalsLeft(nodes, i, p)
    ensures var after, n := Rounds(nodes, i, r), nodes[i];
      && after[i].log == n.log && after[i].role == n.role && after[i].term == n.term
      && after[i].nextIndex[p] == |n.log| && MatchOf(after[i], p) == |n.log| - 1
      && (Matching(n.log, nodes[p].log) ==> after[p].log == Longer(n.log, nodes[p].log))
  {
    hide Longer, Matching, MeetingPoint, Step, Steps, HandleAppend, AppendRequest, Agrees;
    RoundsLink(nodes, i, p, r);
    Repaired(nodes[i].log, LinkOf(nodes, i, p), r);
  }

  /** The peers that are repaired within r rounds. */
  function RepairedWithin(nodes: seq<Node>, i: nat, r: nat): (s: set<nat>)
    requires Indexed(nodes, i)
    ensures forall p: nat :: p in s <==> p < |nodes| && p != i && RefusalsLeft(nodes, i, p) < r
  {
    set p | p in Ids(|nodes|) && p != i && RefusalsLeft(nodes, i, p) < r
  }

  /** When these are a majority with the leader, and its log ends in its own term, all
      of the log is committed. */
  lemma HeartbeatsCommit(nodes: seq<Node>, i: nat, r: nat)
    requires Leading(nodes, i) && r > 0 && 1 + |RepairedWithin(nodes, i, r)| > |nodes| / 2
    requires nodes[i].log != [] && nodes[i].log[|nodes[i].log| - 1].term == nodes[i].term
    ensures Rounds(nodes, i, r)[i].commit == |nodes[i].log| - 1
  {
    hide NoneNewer, CanCommit, RefusalsLeft, HeartbeatRound, Step, Steps, HandleAppend, AppendRequest, LinkOf, Answered;
    var before, after := Rounds(nodes, i, r - 1), Rounds(nodes, i, r);
    LeaderKept(nodes, i, r - 1);
    LeaderKept(nodes, i, r);
    var inStep := InStep(after[i], i, |nodes|);
    forall p | p in RepairedWithin(nodes, i, r) ensures p in inStep {
      HeartbeatsRepair(nodes, i, p, r);
    }
    SubsetSize(RepairedWithin(nodes, i, r), inStep);
    Round(before, i);
  }

  lemma {:induction false} LeaderKept(nodes: seq<Node>, i: nat, r: nat)
    requires Leading(nodes, i)
    ensures var after, n := Rounds(nodes, i, r), nodes[i];
      && after[i].log == n.log && after[i].term == n.term && after[i].role == n.role && after[i].commit >= n.commit
  {
    hide Leading, HeartbeatRound;
    if r > 0 {
      LeaderKept(nodes, i, r - 1);
      RoundLeader(Rounds(nodes, i, r - 1), i);
    }
  }

  lemma RoundLeader(nodes: seq<Node>, i: nat)
    requires Leading(nodes, i)
    ensures var after, n := HeartbeatRound(nodes, i), nodes[i];
      && after[i].log == n.log && after[i].term == n.term && after[i].role == n.role && after[i].commit >= n.commit
  {
    hide HeartbeatRound, Answered;
    Round(nodes, i);
  }

  /** One round later a repaired peer has committed, too. */
  lemma HeartbeatsCommitPeers(nodes: seq<Node>, i: nat, p: nat, r: nat)
    requires Leading(nodes, i) && p < |nodes| && p != i && r >= RefusalsLeft(nodes, i, p)
    requires Matching(nodes[i].log, nodes[p].log) && Rounds(nodes, i, r)[i].commit == |nodes[i].log| - 1
    ensures var after := Rounds(nodes, i, r + 1);
      nodes[i].log <= after[p].log && after[p].commit >= |nodes[i].log| - 1
  {
    hide HeartbeatRound, Step, Steps, AppendRequest, AdvanceCommit, HandleAppend, InStep;
    var before := Rounds(nodes, i, r);
    RoundsLink(nodes, i, p, r);
    AgreesAfter(nodes[i].log, LinkOf(nodes, i, p), r);
    Round(before, i);
    assert Answered(before, i, p, HeartbeatRound(before, i));
    Answer(before[i], i, p, before[p]);
    HeartbeatsRepair(nodes, i, p, r + 1);
  }

  lemma AgreesAfter(mine: seq<Entry>, l: Link, k: nat)
    requires l.next <= |mine| && k >= l.next - MeetingPoint(mine, l.log, l.next)
    ensures var r := Steps(mine, l, k); Agrees(mine, r.log, r.next)
  {
    if k == l.next - MeetingPoint(mine, l.log, l.next) { Refusals(mine, l, k); } else { Repaired(mine, l, k); }
  }
}
