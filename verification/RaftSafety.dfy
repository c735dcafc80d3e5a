/**
 Every event keeps the invariant, and what follows for all runs: the safety
 properties of Figure 3 of the Raft paper.
*/
module RaftSafety {
  import opened RaftProtocol
  import opened RaftCluster
  import opened RaftInvariant
  import opened RaftSteps
  import opened RaftLogSteps

  lemma Initially(n: nat)
    requires n > 0
    ensures Inv(Init(n), NO_HISTORY)
  {
    var c := Init(n);
    assert forall i: nat :: i < n ==> c.nodes[i] == FRESH_NODE && c.threads[i] == Idle;
  }

  // ---------- a vote exchange ----------

  /** A node hears of a term, and follows if it is newer. */
  function Heard(c: Cluster, p: nat, term: nat): Cluster
    requires |c.threads| == |c.nodes| && p < |c.nodes|
  {
    if term > c.nodes[p].term then Set(c, p, StepDown(c.nodes[p], term), Idle) else c
  }

  lemma HeardKeeps(c: Cluster, h: History, p: nat, term: nat)
    requires Inv(c, h) && p < |c.nodes| && c.threads[p] == Idle
    ensures Inv(Heard(c, p, term), h) && Later(c, h, Heard(c, p, term), h)
  {
    if term > c.nodes[p].term { StepDownKeeps(c, h, p, term); }
  }

  lemma VoteExchange(c: Cluster, i: nat, p: nat)
    requires Wired(c) && Calls(c, i, p) && c.threads[i].Electing?
    ensures
      var a, b := VoteRequest(c.nodes[i], i), Heard(c, p, c.nodes[i].term);
      && b.nodes[i] == c.nodes[i] && b.threads == c.threads && |b.nodes| == |c.nodes|
      && ContinueElection(c, i) ==
         if Grants(b.nodes[p], a) then Granted(b, i, p)
         else if b.nodes[p].term > a.term then Set(b, i, StepDown(b.nodes[i], b.nodes[p].term), Idle)
         else Set(b, i, b.nodes[i], Electing(p + 1, c.threads[i].votes))
  {
  }

  lemma VoteExchangeKeeps(c: Cluster, h: History, i: nat, p: nat) returns (g: History)
    requires Inv(c, h) && Calls(c, i, p) && c.threads[i].Electing?
    ensures Inv(ContinueElection(c, i), g) && Later(c, h, ContinueElection(c, i), g)
  {
    VoteExchange(c, i, p);
    HeardKeeps(c, h, p, c.nodes[i].term);
    var b := Heard(c, p, c.nodes[i].term);
    g := AnswerKeeps(b, h, i, p);
    LaterStill(c, h, b, h, ContinueElection(c, i), g);
  }

  /** The second half of the exchange: the peer has heard of the term and answers. */
  lemma AnswerKeeps(b: Cluster, h: History, i: nat, p: nat) returns (g: History)
    requires Inv(b, h) && Calls(b, i, p) && b.threads[i].Electing? && b.nodes[p].term >= b.nodes[i].term
    ensures
      var d := if Grants(b.nodes[p], VoteRequest(b.nodes[i], i)) then Granted(b, i, p)
         else if b.nodes[p].term > b.nodes[i].term then Set(b, i, StepDown(b.nodes[i], b.nodes[p].term), Idle)
         else Set(b, i, b.nodes[i], Electing(p + 1, b.threads[i].votes));
      Inv(d, g) && Later(b, h, d, g)
  {
    g := h;
    if Grants(b.nodes[p], VoteRequest(b.nodes[i], i)) {
      GrantKeeps(b, h, i, p);
      g := CountVote(b, h, i, p);
    } else if b.nodes[p].term > b.nodes[i].term {
      StepDownKeeps(b, h, i, b.nodes[p].term);
    } else {
      ThreadKeeps(b, h, i, Electing(p + 1, b.threads[i].votes));
    }
  }

  lemma ElectionCases(c: Cluster, i: nat)
    requires Wired(c) && i < |c.nodes| && c.threads[i].Electing? && Enabled(c, Continue(i))
    ensures var Electing(k, votes) := c.threads[i];
      && (k == i ==> ContinueElection(c, i) == Set(c, i, c.nodes[i], Electing(k + 1, votes)))
      && (k != i && k < |c.nodes| ==> Calls(c, i, k))
      && (k >= |c.nodes| && Wins(c, i) ==>
            ContinueElection(c, i) == Set(c, i, BecomeLeader(c.nodes[i], |c.nodes|), Sending(0)))
      && (k >= |c.nodes| && !Wins(c, i) ==> ContinueElection(c, i) == Set(c, i, c.nodes[i], Idle))
  {
  }

  lemma WinnerMayLead(c: Cluster, h: History, i: nat)
    requires Shape(c, h) && Roles(c, h) && i < |c.nodes| && c.threads[i].Electing? && Wins(c, i)
    ensures MayLead(c, h, i)
  {
    assert CountsBallots(c, h, i);
  }

  lemma ElectionKeeps(c: Cluster, h: History, i: nat) returns (g: History)
    requires Inv(c, h) && i < |c.nodes| && c.threads[i].Electing? && Enabled(c, Continue(i))
    ensures Inv(ContinueElection(c, i), g) && Later(c, h, ContinueElection(c, i), g)
  {
    g := h;
    var k := c.threads[i].next;
    ElectionCases(c, i);
    if k == i {
      ThreadKeeps(c, h, i, Electing(k + 1, c.threads[i].votes));
    } else if k < |c.nodes| {
      g := VoteExchangeKeeps(c, h, i, k);
    } else if Wins(c, i) {
      WinnerMayLead(c, h, i);
      ElectKeeps(c, h, i);
      g := Elect(c, h, i);
    } else {
      ThreadKeeps(c, h, i, Idle);
    }
  }

  // ---------- an append exchange ----------

  /** The peer of a current leader is a follower of its log. */
  lemma PeerFollows(c: Cluster, h: History, i: nat, p: nat)
    requires Shape(c, h) && Elected(c, h) && Roles(c, h) && Calls(c, i, p)
    requires c.nodes[i].role == Leader && c.nodes[p].term == c.nodes[i].term
    ensures Follows(c, h, p) && h.logOf[c.nodes[p].term] == c.nodes[i].log
  {
    assert Leads(c, h, i);
    assert c.nodes[p].role == Leader ==> Leads(c, h, p);
  }

  /** The peer's part of an append exchange, once the terms agree. */
  function Appended(b: Cluster, i: nat, p: nat): (Cluster, bool)
    requires CanSend(b.nodes, i, p) && b.nodes[p].term == b.nodes[i].term
  {
    var a := AppendRequest(b.nodes[i], i, p);
    var n := b.nodes[p];
    if PrevMissing(n, a) then (b, false)
    else if PrevConflicts(n, a) then (WithLog(b, p, n.log[..a.prevLogIndex]), false)
    else (b.(nodes := b.nodes[p := Accept(n, a)]), true)
  }

  lemma AppendExchange(c: Cluster, i: nat, p: nat)
    requires Wired(c) && Calls(c, i, p) && c.threads[i].Sending? && CanSend(c.nodes, i, p)
    ensures
      var b := Heard(c, p, c.nodes[i].term);
      && b.nodes[i] == c.nodes[i] && b.threads == c.threads && CanSend(b.nodes, i, p)
      && b.nodes[p].term >= b.nodes[i].term
      && ContinueHeartbeat(c, i) ==
         if b.nodes[p].term > b.nodes[i].term then Set(b, i, StepDown(b.nodes[i], b.nodes[p].term), Idle)
         else
           var (d, ok) := Appended(b, i, p);
           var e := d.(nodes := d.nodes[i := Acknowledge(d.nodes[i], p, AppendRequest(b.nodes[i], i, p), ok)]);
           Set(e, i, e.nodes[i], Sending(p + 1))
  {
  }

  /** The follower of an agreeing position ends with the leader's log in its own. */
  lemma AcceptMerges(h: History, mine: seq<Entry>, leader: seq<Entry>, prev: int)
    requires Traced(h, mine) && Traced(h, leader)
    requires -1 <= prev < |mine| && prev < |leader|
    requires prev >= 0 ==> mine[prev].term == leader[prev].term
    ensures Merge(mine, prev + 1, leader[prev + 1..]) == Adopted(mine, leader)
  {
    if prev >= 0 {
      TracedAgree(h, mine, leader, prev);
    } else {
      assert mine[..0] == leader[..0];
    }
    MergeAdopts(h, mine, leader, prev + 1);
  }

  lemma AcceptCases(b: Cluster, i: nat, p: nat, log: seq<Entry>)
    requires Wired(b) && CanSend(b.nodes, i, p) && b.nodes[p].term == b.nodes[i].term
    requires var a := AppendRequest(b.nodes[i], i, p);
      && !PrevMissing(b.nodes[p], a) && !PrevConflicts(b.nodes[p], a)
      && Merge(b.nodes[p].log, a.prevLogIndex + 1, a.entries) == log
    requires b.nodes[i].commit < |log| && -1 <= b.nodes[p].commit
    ensures var commit := b.nodes[i].commit;
      Appended(b, i, p) ==
      (if commit > b.nodes[p].commit then CommitTo(WithLog(b, p, log), p, commit) else WithLog(b, p, log), true)
  {
    var commit := b.nodes[i].commit;
    if commit > b.nodes[p].commit {
      assert Appended(b, i, p).0.nodes == CommitTo(WithLog(b, p, log), p, commit).nodes;
    }
  }

  lemma FollowerMayCommit(d: Cluster, g: History, i: nat, p: nat)
    requires Shape(d, g) && i < |d.nodes| && p < |d.nodes| && d.nodes[i].term == d.nodes[p].term
    requires Bookkeeping(d.nodes[p]) && Bookkeeping(d.nodes[i]) && Certified(d, g, i)
    requires d.nodes[i].log <= d.nodes[p].log && d.nodes[i].commit > d.nodes[p].commit
    ensures MayCommit(d, g, p, d.nodes[i].commit, g.cert[i].0, g.cert[i].1)
  {
    var k := d.nodes[i].commit;
    assert d.nodes[p].log[..k + 1] == d.nodes[i].log[..k + 1];
  }

  /** After adopting the log, the follower raises its commit index to the leader's. */
  lemma AcceptCommits(d: Cluster, g: History, i: nat, p: nat) returns (f: History)
    requires Inv(d, g) && i < |d.nodes| && p < |d.nodes| && d.nodes[i].term == d.nodes[p].term
    requires d.nodes[i].log <= d.nodes[p].log && d.nodes[i].commit > d.nodes[p].commit
    ensures 0 <= d.nodes[i].commit < |d.nodes[p].log| && -1 <= d.nodes[p].lastApplied
    ensures Inv(CommitTo(d, p, d.nodes[i].commit), f) && Later(d, g, CommitTo(d, p, d.nodes[i].commit), f)
    ensures f.ack == g.ack
  {
    assert Bookkeeping(d.nodes[p]) && Bookkeeping(d.nodes[i]) && Certified(d, g, i);
    FollowerMayCommit(d, g, i, p);
    CommitKeeps(d, g, p, d.nodes[i].commit, g.cert[i].0, g.cert[i].1);
    f := g.(cert := g.cert[p := g.cert[i]]);
  }

  lemma AcceptAdopts(b: Cluster, h: History, i: nat, p: nat)
    requires Shape(b, h) && Logs(b, h) && Commits(b, h) && CanSend(b.nodes, i, p)
    requires b.nodes[p].term == b.nodes[i].term
    requires var a := AppendRequest(b.nodes[i], i, p); !PrevMissing(b.nodes[p], a) && !PrevConflicts(b.nodes[p], a)
    ensures var log := Adopted(b.nodes[p].log, b.nodes[i].log);
      var a := AppendRequest(b.nodes[i], i, p);
      Merge(b.nodes[p].log, a.prevLogIndex + 1, a.entries) == log && b.nodes[i].commit < |log| && -1 <= b.nodes[p].commit
  {
    assert Bookkeeping(b.nodes[i]) && Bookkeeping(b.nodes[p]);
    AcceptMerges(h, b.nodes[p].log, b.nodes[i].log, AppendRequest(b.nodes[i], i, p).prevLogIndex);
  }

  lemma AcceptKeeps(b: Cluster, h: History, i: nat, p: nat) returns (g: History)
    requires Inv(b, h) && Calls(b, i, p) && b.nodes[i].role == Leader && b.nodes[p].term == b.nodes[i].term
    requires CanSend(b.nodes, i, p)
    requires var a := AppendRequest(b.nodes[i], i, p); !PrevMissing(b.nodes[p], a) && !PrevConflicts(b.nodes[p], a)
    ensures var d := Appended(b, i, p).0;
      Inv(d, g) && Later(b, h, d, g) && Ack(g, b.nodes[i].term, p) == |b.nodes[i].log|
  {
    hide Elected, Calls;
    PeerFollows(b, h, i, p);
    var log := Adopted(b.nodes[p].log, b.nodes[i].log);
    AcceptAdopts(b, h, i, p);
    AcceptCases(b, i, p, log);
    AdoptKeeps(b, h, p);
    var d := WithLog(b, p, log);
    g := RecordAck(b, h, p);
    if b.nodes[i].commit > b.nodes[p].commit {
      var f := AcceptCommits(d, g, i, p);
      LaterStill(b, h, d, g, CommitTo(d, p, b.nodes[i].commit), f);
      g := f;
    }
  }

  lemma AppendedKeeps(b: Cluster, h: History, i: nat, p: nat) returns (g: History)
    requires Inv(b, h) && Calls(b, i, p) && b.nodes[i].role == Leader && b.nodes[p].term == b.nodes[i].term
    requires CanSend(b.nodes, i, p)
    ensures var (d, ok) := Appended(b, i, p);
      Inv(d, g) && Later(b, h, d, g) && (ok ==> Ack(g, b.nodes[i].term, p) == |b.nodes[i].log|)
  {
    g := h;
    var a := AppendRequest(b.nodes[i], i, p);
    PeerFollows(b, h, i, p);
    if PrevMissing(b.nodes[p], a) {
    } else if PrevConflicts(b.nodes[p], a) {
      CutKeeps(b, h, p, a.prevLogIndex);
    } else {
      g := AcceptKeeps(b, h, i, p);
    }
  }

  lemma AcknowledgeKeeps(d: Cluster, g: History, i: nat, p: nat, a: AppendArgs, ok: bool)
    requires Inv(d, g) && i < |d.nodes| && p < |d.nodes| && i != p && d.nodes[i].role == Leader
    requires CanSend(d.nodes, i, p) && a == AppendRequest(d.nodes[i], i, p)
    requires ok ==> Ack(g, d.nodes[i].term, p) == |d.nodes[i].log|
    ensures var e := d.(nodes := d.nodes[i := Acknowledge(d.nodes[i], p, a, ok)]);
      Inv(e, g) && Later(d, g, e, g)
  {
    var n := Acknowledge(d.nodes[i], p, a, ok);
    assert d.nodes[i := n] == WithIndices(d, i, n.nextIndex, n.matchIndex).nodes;
    assert Leads(d, g, i);
    AcknowledgeLeads(d, g, i, p, a, ok);
    IndicesKeep(d, g, i, n.nextIndex, n.matchIndex);
  }

  lemma AcknowledgeLeads(d: Cluster, g: History, i: nat, p: nat, a: AppendArgs, ok: bool)
    requires Shape(d, g) && i < |d.nodes| && p < |d.nodes| && i != p && d.nodes[i].role == Leader && Leads(d, g, i)
    requires CanSend(d.nodes, i, p) && a == AppendRequest(d.nodes[i], i, p)
    requires ok ==> Ack(g, d.nodes[i].term, p) == |d.nodes[i].log|
    ensures var n := Acknowledge(d.nodes[i], p, a, ok);
      n.role == Leader && Leads(WithIndices(d, i, n.nextIndex, n.matchIndex), g, i)
  {
    var before, n := d.nodes[i], Acknowledge(d.nodes[i], p, a, ok);
    var e := WithIndices(d, i, n.nextIndex, n.matchIndex);
    assert e.nodes[i] == n && n.log == before.log && n.term == before.term;
    forall q: nat | q < |d.nodes| ensures q in n.nextIndex && n.nextIndex[q] <= |n.log| {
      assert q in before.nextIndex && before.nextIndex[q] <= |n.log|;
    }
    forall q: nat | q < |d.nodes| && q != i ensures MatchOf(n, q) + 1 <= Ack(g, n.term, q) {
      if q != p { assert MatchOf(n, q) == MatchOf(before, q); }
    }
  }

  /** A leader can always build the next request: no index or key is missing. */
  lemma LeaderCanSend(c: Cluster, h: History, i: nat, p: nat)
    requires Inv(c, h) && i < |c.nodes| && p < |c.nodes| && i != p && c.nodes[i].role == Leader
    ensures CanSend(c.nodes, i, p)
  {
    assert Leads(c, h, i) && Bookkeeping(c.nodes[p]);
  }

  lemma AppendExchangeKeeps(c: Cluster, h: History, i: nat, p: nat) returns (g: History)
    requires Inv(c, h) && Calls(c, i, p) && c.threads[i].Sending? && CanSend(c.nodes, i, p)
    ensures Inv(ContinueHeartbeat(c, i), g) && Later(c, h, ContinueHeartbeat(c, i), g)
  {
    AppendExchange(c, i, p);
    HeardKeeps(c, h, p, c.nodes[i].term);
    var b := Heard(c, p, c.nodes[i].term);
    if b.nodes[p].term > b.nodes[i].term {
      StepDownKeeps(b, h, i, b.nodes[p].term);
      g := h;
    } else {
      g := ReplyKeeps(b, h, i, p);
    }
    LaterStill(c, h, b, h, ContinueHeartbeat(c, i), g);
  }

  lemma ReplyKeeps(b: Cluster, h: History, i: nat, p: nat) returns (g: History)
    requires Inv(b, h) && Calls(b, i, p) && b.threads[i].Sending? && CanSend(b.nodes, i, p)
    requires b.nodes[p].term == b.nodes[i].term
    ensures
      var (d, ok) := Appended(b, i, p);
      var e := d.(nodes := d.nodes[i := Acknowledge(d.nodes[i], p, AppendRequest(b.nodes[i], i, p), ok)]);
      var f := Set(e, i, e.nodes[i], Sending(p + 1));
      Inv(f, g) && Later(b, h, f, g)
  {
    hide Elected, Later, Commits, Logs, Grows;
    g := AppendedKeeps(b, h, i, p);
    var (d, ok) := Appended(b, i, p);
    LeaderCanSend(d, g, i, p);
    AcknowledgeKeeps(d, g, i, p, AppendRequest(b.nodes[i], i, p), ok);
    var e := d.(nodes := d.nodes[i := Acknowledge(d.nodes[i], p, AppendRequest(b.nodes[i], i, p), ok)]);
    LaterStill(b, h, d, g, e, g);
    ThreadKeeps(e, g, i, Sending(p + 1));
    LaterStill(b, h, e, g, Set(e, i, e.nodes[i], Sending(p + 1)), g);
  }

  // ---------- a leader's commit ----------

  /** A committable entry of the leader's own term is on a majority. */
  lemma CommittableIsChosen(c: Cluster, h: History, i: nat, k: nat)
    requires Shape(c, h) && i < |c.nodes| && c.nodes[i].role == Leader && Leads(c, h, i)
    requires Committable(c.nodes[i], i, |c.nodes|, k)
    ensures Own(h, c.nodes[i].term, k + 1) && Chosen(c, h, c.nodes[i].term, k + 1)
  {
    var n, t := c.nodes[i], c.nodes[i].term;
    var held := Holders(n, i, |c.nodes|, k) + {i};
    assert held <= Holding(c, h, t, k + 1);
    LargerMajority(held, Holding(c, h, t, k + 1), |c.nodes|);
  }

  lemma AdvanceCases(c: Cluster, h: History, i: nat) returns (k: int, d: Cluster)
    requires Shape(c, h) && i < |c.nodes| && c.nodes[i].role == Leader && Leads(c, h, i) && Bookkeeping(c.nodes[i])
    ensures CanCommit(c.nodes[i]) && d == c.(nodes := c.nodes[i := AdvanceCommit(c.nodes[i], i, |c.nodes|)])
    ensures k > c.nodes[i].commit ==> k >= 0 && MayCommit(c, h, i, k, c.nodes[i].term, k + 1) && d == CommitTo(c, i, k)
    ensures k <= c.nodes[i].commit ==> d == c
  {
    d := c.(nodes := c.nodes[i := AdvanceCommit(c.nodes[i], i, |c.nodes|)]);
    k := HighestCommittable(c.nodes[i], i, |c.nodes|, |c.nodes[i].log| - 1);
    if k > c.nodes[i].commit {
      CommittableIsChosen(c, h, i, k);
    }
  }

  lemma LaterNow(c: Cluster, h: History)
    ensures Later(c, h, c, h)
  {
  }

  lemma CommitOwnEntry(c: Cluster, h: History, i: nat, k: nat) returns (g: History)
    requires Inv(c, h) && i < |c.nodes| && c.nodes[i].role == Leader
    requires MayCommit(c, h, i, k, c.nodes[i].term, k + 1)
    ensures Inv(CommitTo(c, i, k), g) && Later(c, h, CommitTo(c, i, k), g)
  {
    CommitKeeps(c, h, i, k, c.nodes[i].term, k + 1);
    g := h.(cert := h.cert[i := (c.nodes[i].term, k + 1)]);
  }

  lemma AdvanceKeeps(c: Cluster, h: History, i: nat) returns (d: Cluster, g: History)
    requires Inv(c, h) && i < |c.nodes| && c.nodes[i].role == Leader
    ensures CanCommit(c.nodes[i]) && d == c.(nodes := c.nodes[i := AdvanceCommit(c.nodes[i], i, |c.nodes|)])
    ensures Inv(d, g) && Later(c, h, d, g)
  {
    assert Leads(c, h, i) && Bookkeeping(c.nodes[i]);
    var k;
    k, d := AdvanceCases(c, h, i);
    if k > c.nodes[i].commit {
      g := CommitOwnEntry(c, h, i, k);
    } else {
      LaterNow(c, h);
      g := h;
    }
  }

  lemma HeartbeatCases(c: Cluster, i: nat)
    requires Wired(c) && i < |c.nodes| && c.threads[i].Sending? && Enabled(c, Continue(i))
    ensures var k := c.threads[i].next;
      && (k == i ==> ContinueHeartbeat(c, i) == Set(c, i, c.nodes[i], Sending(k + 1)))
      && (k != i && k < |c.nodes| ==> Calls(c, i, k) && CanSend(c.nodes, i, k))
      && (k >= |c.nodes| && CanCommit(c.nodes[i]) ==>
            var d := c.(nodes := c.nodes[i := AdvanceCommit(c.nodes[i], i, |c.nodes|)]);
            ContinueHeartbeat(c, i) == Set(d, i, d.nodes[i], Idle))
  {
  }

  lemma HeartbeatKeeps(c: Cluster, h: History, i: nat) returns (g: History)
    requires Inv(c, h) && i < |c.nodes| && c.threads[i].Sending? && Enabled(c, Continue(i))
    ensures Inv(ContinueHeartbeat(c, i), g) && Later(c, h, ContinueHeartbeat(c, i), g)
  {
    g := h;
    var k := c.threads[i].next;
    HeartbeatCases(c, i);
    if k == i {
      ThreadKeeps(c, h, i, Sending(k + 1));
    } else if k < |c.nodes| {
      g := AppendExchangeKeeps(c, h, i, k);
    } else {
      g := RoundEndKeeps(c, h, i);
    }
  }

  lemma RoundEndKeeps(c: Cluster, h: History, i: nat) returns (g: History)
    requires Inv(c, h) && i < |c.nodes| && c.threads[i].Sending? && Enabled(c, Continue(i)) && c.threads[i].next >= |c.nodes|
    ensures Inv(ContinueHeartbeat(c, i), g) && Later(c, h, ContinueHeartbeat(c, i), g)
  {
    var d;
    d, g := AdvanceKeeps(c, h, i);
    HeartbeatCases(c, i);
    IdleAgain(c, h, d, g, i, ContinueHeartbeat(c, i));
  }

  lemma IdleAgain(c: Cluster, h: History, d: Cluster, g: History, i: nat, e: Cluster)
    requires Inv(d, g) && Later(c, h, d, g) && i < |d.nodes| && e == Set(d, i, d.nodes[i], Idle)
    ensures Inv(e, g) && Later(c, h, e, g)
  {
    ThreadKeeps(d, g, i, Idle);
    LaterStill(c, h, d, g, e, g);
  }

  lemma ReplicateKeeps(c: Cluster, h: History, i: nat, command: Command) returns (g: History)
    requires Inv(c, h) && i < |c.nodes| && c.threads[i] == Idle && c.nodes[i].role == Leader
    ensures var d := Set(c, i, AppendCommand(c.nodes[i], i, command), Idle); Inv(d, g) && Later(c, h, d, g)
  {
    var d := Set(c, i, AppendCommand(c.nodes[i], i, command), Idle);
    g := RecordCommand(c, h, i, command);
    assert Leads(c, h, i);
    ReplicateExtends(c, h, d, g, i, command);
    ExtendKeeps(c, h, d, g, i, command);
  }

  lemma ReplicateExtends(c: Cluster, h: History, d: Cluster, g: History, i: nat, command: Command)
    requires Shape(c, h) && i < |c.nodes| && c.threads[i] == Idle && c.nodes[i].role == Leader && Leads(c, h, i)
    requires d == Set(c, i, AppendCommand(c.nodes[i], i, command), Idle) && g == RecordCommand(c, h, i, command)
    ensures Extends(c, h, d, g, i, command)
  {
    assert d.threads == c.threads;
  }

  /** Every loop iteration of every node, in any interleaving, keeps the invariant. */
  lemma NextKeeps(c: Cluster, h: History, e: Event) returns (g: History)
    requires Inv(c, h) && Enabled(c, e)
    ensures Inv(Next(c, e), g) && Later(c, h, Next(c, e), g)
  {
    match e
    case StartElection(i) =>
      BeginKeeps(c, h, i);
      g := OpenElection(c, h, i);
    case StartHeartbeat(i) =>
      ThreadKeeps(c, h, i, Sending(0));
      g := h;
    case Continue(i) =>
      if c.threads[i].Electing? {
        g := ElectionKeeps(c, h, i);
      } else {
        g := HeartbeatKeeps(c, h, i);
      }
    case Replicate(i, command) =>
      if c.nodes[i].role == Leader {
        g := ReplicateKeeps(c, h, i, command);
      } else {
        LaterNow(c, h);
        g := h;
      }
  }

  lemma {:induction false} RunKeeps(c: Cluster, h: History, events: seq<Event>, d: Cluster) returns (g: History)
    requires Inv(c, h) && Runs(c, events, d)
    ensures Inv(d, g) && Later(c, h, d, g)
    decreases |events|
  {
    if events == [] {
      LaterNow(c, h);
      g := h;
    } else {
      var b := Next(c, events[0]);
      var f := NextKeeps(c, h, events[0]);
      g := RunKeeps(b, f, events[1..], d);
      LaterStill(c, h, b, f, d, g);
    }
  }

  // ---------- Figure 3 of the Raft paper, for all runs ----------

  ghost predicate Comparable<T>(a: seq<T>, b: seq<T>) {
    a <= b || b <= a
  }

  /** Election Safety: whenever in a run two nodes lead the same term, they are one node. */
  lemma ElectionSafety(n: nat, before: seq<Event>, c: Cluster, after: seq<Event>, d: Cluster, i: nat, j: nat)
    requires n > 0 && Runs(Init(n), before, c) && Runs(c, after, d)
    requires i < |c.nodes| && c.nodes[i].role == Leader
    requires j < |d.nodes| && d.nodes[j].role == Leader && d.nodes[j].term == c.nodes[i].term
    ensures i == j
  {
    Initially(n);
    var h := RunKeeps(Init(n), NO_HISTORY, before, c);
    var g := RunKeeps(c, h, after, d);
    assert Leads(c, h, i) && Leads(d, g, j);
  }

  /** Leader Append-Only: while a node leads a term, its log only grows. */
  lemma LeaderAppendOnly(n: nat, before: seq<Event>, c: Cluster, after: seq<Event>, d: Cluster, i: nat)
    requires n > 0 && Runs(Init(n), before, c) && Runs(c, after, d)
    requires i < |c.nodes| && c.nodes[i].role == Leader
    requires i < |d.nodes| && d.nodes[i].role == Leader && d.nodes[i].term == c.nodes[i].term
    ensures c.nodes[i].log <= d.nodes[i].log
  {
    Initially(n);
    var h := RunKeeps(Init(n), NO_HISTORY, before, c);
    var g := RunKeeps(c, h, after, d);
    assert Leads(c, h, i) && Leads(d, g, i);
  }

  /** Log Matching: two logs, at the same or different moments of a run, that
      hold an entry of one term at one index are identical up to it. */
  lemma LogMatching(n: nat, before: seq<Event>, c: Cluster, after: seq<Event>, d: Cluster, i: nat, j: nat, k: nat)
    requires n > 0 && Runs(Init(n), before, c) && Runs(c, after, d)
    requires i < |c.nodes| && j < |d.nodes| && k < |c.nodes[i].log| && k < |d.nodes[j].log|
    requires c.nodes[i].log[k].term == d.nodes[j].log[k].term
    ensures c.nodes[i].log[..k + 1] == d.nodes[j].log[..k + 1]
  {
    Initially(n);
    var h := RunKeeps(Init(n), NO_HISTORY, before, c);
    var g := RunKeeps(c, h, after, d);
    assert Traced(h, c.nodes[i].log) && Traced(g, d.nodes[j].log);
    StillTraced(c, h, d, g, c.nodes[i].log);
    TracedAgree(g, c.nodes[i].log, d.nodes[j].log, k);
  }

  lemma CommittedReachesLeaders(c: Cluster, h: History, d: Cluster, g: History, i: nat, j: nat)
    requires Commits(c, h) && Later(c, h, d, g) && Complete(d, g) && i < |c.nodes|
    requires Shape(d, g) && j < |d.nodes| && d.nodes[j].role == Leader && Leads(d, g, j)
    requires d.nodes[j].term >= c.nodes[i].term
    ensures 0 <= c.nodes[i].commit + 1 <= |c.nodes[i].log|
    ensures c.nodes[i].log[..c.nodes[i].commit + 1] <= d.nodes[j].log
  {
    hide Own, Grows;
    assert Bookkeeping(c.nodes[i]);
    if c.nodes[i].commit >= 0 {
      var (t, m) := h.cert[i];
      StableParts(c, h, d, g, t, m);
      ChosenIsInLeader(d, g, t, m, d.nodes[j].term);
    }
  }

  /** Leader Completeness: what a node has committed is in the log of every
      leader of its term or a later one, from then on. */
  lemma LeaderCompleteness(n: nat, before: seq<Event>, c: Cluster, after: seq<Event>, d: Cluster, i: nat, j: nat)
    requires n > 0 && Runs(Init(n), before, c) && Runs(c, after, d)
    requires i < |c.nodes| && j < |d.nodes| && d.nodes[j].role == Leader && d.nodes[j].term >= c.nodes[i].term
    ensures 0 <= c.nodes[i].commit + 1 <= |c.nodes[i].log|
    ensures c.nodes[i].log[..c.nodes[i].commit + 1] <= d.nodes[j].log
  {
    Initially(n);
    var h := RunKeeps(Init(n), NO_HISTORY, before, c);
    var g := RunKeeps(c, h, after, d);
    assert Leads(d, g, j);
    CommittedReachesLeaders(c, h, d, g, i, j);
  }

  lemma ChosenIsInLeader(d: Cluster, g: History, t: nat, m: nat, later: nat)
    requires Complete(d, g) && Own(g, t, m) && Chosen(d, g, t, m) && t <= later && later in g.logOf
    ensures Part(g, t, m) <= g.logOf[later]
  {
    ChosenIsNotDead(d, g, t, m);
    if t < later { assert Carries(d, g, g.logOf[later], t, m); }
  }

  lemma ChosenAreComparable(d: Cluster, g: History, t: nat, m: nat, u: nat, k: nat)
    requires Complete(d, g) && Own(g, t, m) && Own(g, u, k) && Chosen(d, g, t, m) && Chosen(d, g, u, k)
    ensures Comparable(Part(g, t, m), Part(g, u, k))
  {
    var later := if t <= u then u else t;
    ChosenIsInLeader(d, g, t, m, later);
    ChosenIsInLeader(d, g, u, k, later);
  }

  lemma AppliedIsCertified(c: Cluster, h: History, i: nat)
    requires Commits(c, h) && i < |c.nodes| && c.nodes[i].commit >= 0
    ensures Certified(c, h, i)
    ensures var part := Part(h, h.cert[i].0, h.cert[i].1); c.nodes[i].applied <= Commands(part)
  {
    assert Bookkeeping(c.nodes[i]);
  }

  lemma AppliedAreComparable(c: Cluster, h: History, d: Cluster, g: History, i: nat, j: nat)
    requires Commits(c, h) && Later(c, h, d, g) && Complete(d, g) && Commits(d, g)
    requires i < |c.nodes| && j < |d.nodes|
    ensures Comparable(c.nodes[i].applied, d.nodes[j].applied)
  {
    hide Dead, Chosen, Certified, Grows, Ack, Part, Commands, Complete, Carries, Own;
    assert Bookkeeping(c.nodes[i]) && Bookkeeping(d.nodes[j]);
    if c.nodes[i].commit >= 0 && d.nodes[j].commit >= 0 {
      AppliedIsCertified(c, h, i);
      AppliedIsCertified(d, g, j);
      var (t, m) := h.cert[i];
      var (u, k) := g.cert[j];
      StableParts(c, h, d, g, t, m);
      ChosenAreComparable(d, g, t, m, u, k);
    }
  }

  /** State Machine Safety: the commands any two nodes have applied, at the same
      or different moments of a run, agree as far as both go. */
  lemma StateMachineSafety(n: nat, before: seq<Event>, c: Cluster, after: seq<Event>, d: Cluster, i: nat, j: nat)
    requires n > 0 && Runs(Init(n), before, c) && Runs(c, after, d)
    requires i < |c.nodes| && j < |d.nodes|
    ensures Comparable(c.nodes[i].applied, d.nodes[j].applied)
  {
    Initially(n);
    var h := RunKeeps(Init(n), NO_HISTORY, before, c);
    var g := RunKeeps(c, h, after, d);
    AppliedAreComparable(c, h, d, g, i, j);
  }

  /** Commit bookkeeping: committed entries exist, each is applied once and in
      order, and neither index nor the applied commands ever go back. */
  lemma CommitBookkeeping(n: nat, before: seq<Event>, c: Cluster, after: seq<Event>, d: Cluster, i: nat)
    requires n > 0 && Runs(Init(n), before, c) && Runs(c, after, d) && i < |c.nodes|
    ensures -1 <= c.nodes[i].lastApplied == c.nodes[i].commit < |c.nodes[i].log|
    ensures c.nodes[i].applied == Commands(c.nodes[i].log[..c.nodes[i].lastApplied + 1])
    ensures c.nodes[i].commit <= d.nodes[i].commit && c.nodes[i].lastApplied <= d.nodes[i].lastApplied
    ensures c.nodes[i].applied <= d.nodes[i].applied
  {
    var h, g := TwoMoments(n, before, c, after, d);
    NeverBack(c, h, d, g, i);
  }

  lemma TwoMoments(n: nat, before: seq<Event>, c: Cluster, after: seq<Event>, d: Cluster) returns (h: History, g: History)
    requires n > 0 && Runs(Init(n), before, c) && Runs(c, after, d)
    ensures Commits(c, h) && Later(c, h, d, g)
  {
    Initially(n);
    h := RunKeeps(Init(n), NO_HISTORY, before, c);
    g := RunKeeps(c, h, after, d);
  }

  lemma NeverBack(c: Cluster, h: History, d: Cluster, g: History, i: nat)
    requires Commits(c, h) && Later(c, h, d, g) && i < |c.nodes|
    ensures Bookkeeping(c.nodes[i])
    ensures c.nodes[i].commit <= d.nodes[i].commit && c.nodes[i].lastApplied <= d.nodes[i].lastApplied
    ensures c.nodes[i].applied <= d.nodes[i].applied
  {
  }

  /** A round never reads a missing key or index: the next call of a leader's
      round can be made as soon as the peer's lock is free, and its end can
      advance the commit index. */
  lemma RoundsNeverRaise(n: nat, events: seq<Event>, c: Cluster, i: nat)
    requires n > 0 && Runs(Init(n), events, c)
    requires i < |c.nodes| && c.threads[i].Sending?
    ensures c.threads[i].next < |c.nodes| && c.threads[i].next != i ==> CanSend(c.nodes, i, c.threads[i].next)
    ensures CanCommit(c.nodes[i])
  {
    Initially(n);
    var h := RunKeeps(Init(n), NO_HISTORY, events, c);
    assert Bookkeeping(c.nodes[i]);
    if c.threads[i].next < |c.nodes| && c.threads[i].next != i {
      LeaderCanSend(c, h, i, c.threads[i].next);
    }
  }
}
