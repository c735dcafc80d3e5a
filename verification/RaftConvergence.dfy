/**
 From any reachable state, once no round is under way: a leader that no node has
 outrun gets a new command applied everywhere by heartbeat rounds alone, and one
 or two elections are enough to have such a leader.
*/
module RaftConvergence {
  import opened RaftProtocol
  import opened RaftCluster
  import opened RaftRounds
  import opened RaftInvariant
  import opened RaftSteps
  import opened RaftSafety
  import opened RaftRepair
  import opened RaftProgress
  import opened RaftElection

  /** No node is in a round. */
  predicate AllIdle(c: Cluster) {
    Wired(c) && forall j: nat :: j < |c.nodes| ==> c.threads[j] == Idle
  }

  /** Heartbeat rounds are runs of the cluster. */
  lemma {:induction false} RoundsRun(c: Cluster, i: nat, r: nat) returns (events: seq<Event>, d: Cluster)
    requires AllIdle(c) && i < |c.nodes| && c.nodes[i].role == Leader && Leading(c.nodes, i)
    ensures Runs(c, events, d) && AllIdle(d) && d.nodes == Rounds(c.nodes, i, r)
  {
    hide HeartbeatRound, Runs, Leading, NoneNewer;
    if r == 0 {
      events, d := [], c;
      RunsNothing(c);
    } else {
      var b, more;
      events, b := RoundsRun(c, i, r - 1);
      LeaderKept(c.nodes, i, r - 1);
      LeadingParts(b.nodes, i);
      more, d := HeartbeatRoundRuns(b, i);
      RunsAppend(c, events, b, more, d);
      events := events + more;
    }
  }

  lemma RunsNothing(c: Cluster)
    requires Wired(c)
    ensures Runs(c, [], c)
  {
  }

  lemma LeadingParts(nodes: seq<Node>, i: nat)
    requires Leading(nodes, i)
    ensures Indexed(nodes, i) && CanCommit(nodes[i]) && NoneNewer(nodes, i)
  {
  }

  /** In a reachable state a leader can send, and logs match. */
  lemma ReachableLeader(n: nat, before: seq<Event>, c: Cluster, i: nat)
    requires n > 0 && Runs(Init(n), before, c) && i < |c.nodes| && c.nodes[i].role == Leader && NoneNewer(c.nodes, i)
    ensures Leading(c.nodes, i)
    ensures forall p: nat :: p < |c.nodes| ==> Matching(c.nodes[i].log, c.nodes[p].log)
  {
    Initially(n);
    var h := RunKeeps(Init(n), NO_HISTORY, before, c);
    LeaderIsLeading(c, h, i);
    forall p: nat | p < |c.nodes| ensures Matching(c.nodes[i].log, c.nodes[p].log) {
      ReachableMatching(n, before, c, i, p);
    }
  }

  lemma LeaderIsLeading(c: Cluster, h: History, i: nat)
    requires Shape(c, h) && Roles(c, h) && Commits(c, h)
    requires i < |c.nodes| && c.nodes[i].role == Leader && NoneNewer(c.nodes, i)
    ensures Leading(c.nodes, i)
  {
    hide Certified, CountsBallots;
    assert Leads(c, h, i);
    forall p: nat | p < |c.nodes| ensures Bookkeeping(c.nodes[p]) {
    }
  }

  lemma ReachableMatching(n: nat, before: seq<Event>, c: Cluster, i: nat, p: nat)
    requires n > 0 && Runs(Init(n), before, c) && i < |c.nodes| && p < |c.nodes|
    ensures Matching(c.nodes[i].log, c.nodes[p].log)
  {
    var a, b := c.nodes[i].log, c.nodes[p].log;
    forall k | 0 <= k < |a| && k < |b| && a[k].term == b[k].term ensures a[..k + 1] == b[..k + 1] {
      LogMatching(n, before, c, [], c, i, p, k);
    }
  }

  /** The longest way back to a meeting point is the length of the log. */
  lemma AllRepaired(nodes: seq<Node>, i: nat, r: nat)
    requires Indexed(nodes, i) && r > |nodes[i].log|
    ensures RepairedWithin(nodes, i, r) == Ids(|nodes|) - {i}
    ensures 1 + |RepairedWithin(nodes, i, r)| > |nodes| / 2
  {
    var s := RepairedWithin(nodes, i, r);
    assert s + {i} == Ids(|nodes|);
  }

  /** Enough rounds to commit everything, and one more for the peers. */
  lemma AllCommit(nodes: seq<Node>, i: nat, p: nat)
    requires Leading(nodes, i) && p < |nodes|
    requires nodes[i].log != [] && nodes[i].log[|nodes[i].log| - 1].term == nodes[i].term
    requires Matching(nodes[i].log, nodes[p].log)
    ensures var after := Rounds(nodes, i, |nodes[i].log| + 2);
      nodes[i].log <= after[p].log && after[p].commit >= |nodes[i].log| - 1
  {
    hide Matching, HeartbeatRound;
    var r := |nodes[i].log| + 1;
    AllRepaired(nodes, i, r);
    HeartbeatsCommit(nodes, i, r);
    if p == i {
      LeaderKept(nodes, i, r + 1);
      CommitGrows(nodes, i, r);
    } else {
      HeartbeatsCommitPeers(nodes, i, p, r);
    }
  }

  lemma CommitGrows(nodes: seq<Node>, i: nat, r: nat)
    requires Leading(nodes, i)
    ensures Rounds(nodes, i, r + 1)[i].commit >= Rounds(nodes, i, r)[i].commit
  {
    hide HeartbeatRound;
    RoundLeader(Rounds(nodes, i, r), i);
  }

  /** A log that extends the leader's, which ends in the leader's term, is the leader's. */
  lemma NoLonger(c: Cluster, h: History, i: nat, p: nat)
    requires Inv(c, h) && i < |c.nodes| && p < |c.nodes| && c.nodes[i].role == Leader
    requires c.nodes[p].term <= c.nodes[i].term && c.nodes[i].log <= c.nodes[p].log
    requires c.nodes[i].log != [] && c.nodes[i].log[|c.nodes[i].log| - 1].term == c.nodes[i].term
    ensures c.nodes[p].log == c.nodes[i].log
  {
    hide Retention, Candidates, Complete, Commits, Acks, Elected, Ballots;
    assert Leads(c, h, i);
    var mine, theirs := c.nodes[i].log, c.nodes[p].log;
    if |theirs| > |mine| {
      TracedTerms(h, theirs, |mine| - 1, |theirs| - 1);
    }
  }

  /** A command that a leader takes: if nothing else happens and no node is in a newer term,
      log length + 3 heartbeat rounds make all logs the leader's, and every node has
      applied all of it, the command last. */
  lemma CommandIsApplied(n: nat, before: seq<Event>, c: Cluster, i: nat, command: Command)
    returns (events: seq<Event>, d: Cluster)
    requires n > 0 && Runs(Init(n), before, c) && AllIdle(c)
    requires i < |c.nodes| && c.nodes[i].role == Leader && NoneNewer(c.nodes, i)
    ensures Runs(c, events, d) && AllIdle(d) && d.nodes[i].role == Leader && d.nodes[i].term == c.nodes[i].term
    ensures var b := Next(c, Replicate(i, command));
      Leading(b.nodes, i) && d.nodes == Rounds(b.nodes, i, |c.nodes[i].log| + 3)
    ensures forall p: nat :: p < |d.nodes| ==>
      d.nodes[p].log == c.nodes[i].log + [Entry(c.nodes[i].term, command)]
      && d.nodes[p].applied == Commands(c.nodes[i].log) + [command]
  {
    hide HeartbeatRound, Matching, Leading, Runs;
    var e := Replicate(i, command);
    var b := Next(c, e);
    RunsOnce(c, e);
    RunsAppend(Init(n), before, c, [e], b);
    var log := b.nodes[i].log;
    ReachableLeader(n, before + [e], b, i);
    var more;
    more, d := RoundsRun(b, i, |log| + 2);
    RunsAppend(c, [e], b, more, d);
    events := [e] + more;
    RunsAppend(Init(n), before, c, events, d);
    LeaderKept(b.nodes, i, |log| + 2);
    LeadingParts(d.nodes, i);
    forall p: nat | p < |d.nodes|
      ensures d.nodes[p].log == log && d.nodes[p].applied == Commands(c.nodes[i].log) + [command]
    {
      AllCommit(b.nodes, i, p);
      AllApplied(n, before + events, d, i, p);
      CommandsOf(c.nodes[i].log, c.nodes[i].term, command);
    }
  }

  lemma CommandsOf(log: seq<Entry>, term: nat, command: Command)
    ensures Commands(log + [Entry(term, command)]) == Commands(log) + [command]
  {
  }

  lemma AllApplied(n: nat, events: seq<Event>, d: Cluster, i: nat, p: nat)
    requires n > 0 && Runs(Init(n), events, d) && i < |d.nodes| && p < |d.nodes| && d.nodes[i].role == Leader
    requires NoneNewer(d.nodes, i) && d.nodes[i].log <= d.nodes[p].log && d.nodes[p].commit >= |d.nodes[i].log| - 1
    requires d.nodes[i].log != [] && d.nodes[i].log[|d.nodes[i].log| - 1].term == d.nodes[i].term
    ensures d.nodes[p].log == d.nodes[i].log && d.nodes[p].applied == Commands(d.nodes[i].log)
  {
    hide Inv, Runs, Commands;
    Initially(n);
    var h := RunKeeps(Init(n), NO_HISTORY, events, d);
    NoLonger(d, h, i, p);
    CommitBookkeeping(n, events, d, [], d, p);
    assert d.nodes[p].log[..d.nodes[p].lastApplied + 1] == d.nodes[p].log;
  }

  // ---------- a leader can always be had ----------

  lemma {:induction false} Newest(nodes: seq<Node>, k: nat) returns (i: nat)
    requires 0 < k <= |nodes|
    ensures i < k && forall p: nat :: p < k ==> nodes[p].term <= nodes[i].term
  {
    if k == 1 {
      i := 0;
    } else {
      i := Newest(nodes, k - 1);
      if nodes[i].term < nodes[k - 1].term { i := k - 1; }
    }
  }

  lemma {:induction false} MostRecent(nodes: seq<Node>, k: nat) returns (i: nat)
    requires 0 < k <= |nodes|
    ensures i < k && forall p: nat :: p < k ==> AsRecent(nodes[i].log, nodes[p].log)
  {
    if k == 1 {
      i := 0;
    } else {
      i := MostRecent(nodes, k - 1);
      if !AsRecent(nodes[i].log, nodes[k - 1].log) { i := k - 1; }
    }
  }

  lemma ReachableStarted(n: nat, before: seq<Event>, c: Cluster)
    requires n > 0 && Runs(Init(n), before, c)
    ensures Started(c.nodes) && |c.nodes| == n && forall p: nat :: p < |c.nodes| ==> CanCommit(c.nodes[p])
  {
    forall p: nat | p < |c.nodes| ensures CanCommit(c.nodes[p]) {
      CommitBookkeeping(n, before, c, [], c, p);
    }
  }

  lemma ElectionRun(n: nat, before: seq<Event>, c: Cluster, i: nat) returns (events: seq<Event>, d: Cluster)
    requires n > 0 && Runs(Init(n), before, c) && AllIdle(c) && i < |c.nodes| && c.nodes[i].role != Leader
    ensures CanCommit(c.nodes[i]) && Started(c.nodes)
    ensures Runs(c, events, d) && AllIdle(d) && d.nodes == ElectionRound(c.nodes, i)
  {
    hide ElectionRound;
    ReachableStarted(n, before, c);
    events, d := ElectionRoundRuns(c, i);
  }

  /** A lost election without a newer term leaves all nodes in one term, none of them leading. */
  lemma LostElection(nodes: seq<Node>, i: nat, after: seq<Node>)
    requires i < |nodes| && NoneNewer(nodes, i) && |after| == |nodes| && after[i] == BeginElection(nodes[i], i)
    requires AllPolled(nodes[i := after[i]], i, 0, after)
    ensures forall p: nat :: p < |nodes| ==> after[p].term == nodes[i].term + 1 && after[p].role != Leader
  {
    var begun := nodes[i := after[i]];
    forall p: nat | p < |nodes| && p != i ensures after[p].term == nodes[i].term + 1 && after[p].role == Follower {
      assert Polls(begun[i], p, 0, begun[p], after[p]);
    }
  }

  /** The node in the newest term leads already, or stands for election; if it loses, the
      node with the most recent log wins the next election. */
  lemma LeaderToBeHad(n: nat, before: seq<Event>, c: Cluster) returns (events: seq<Event>, d: Cluster, i: nat)
    requires n > 0 && Runs(Init(n), before, c) && AllIdle(c)
    ensures Runs(c, events, d) && AllIdle(d) && i < |d.nodes| && d.nodes[i].role == Leader && NoneNewer(d.nodes, i)
  {
    hide ElectionRound, AllPolled, Supporters, HeartbeatRound, WonFrom, AsRecent, Runs;
    ReachableStarted(n, before, c);
    i := Newest(c.nodes, n);
    if c.nodes[i].role == Leader {
      events, d := [], c;
      RunsNothing(c);
    } else {
      events, d := ElectionRun(n, before, c, i);
      ElectionOutcome(c.nodes, i);
      if d.nodes[i].role != Leader {
        LostElection(c.nodes, i, d.nodes);
        RunsAppend(Init(n), before, c, events, d);
        var b, more := d, [];
        i := MostRecent(b.nodes, n);
        more, d := ElectionRun(n, before + events, b, i);
        RecentLogWins(b.nodes, i, Ids(n));
        RunsAppend(c, events, b, more, d);
        events := events + more;
      }
    }
  }

  /** The cluster never gets stuck: from every reachable state in which no round is under way,
      and for every command, there is a run after which all nodes have the same log, which
      ends with the command, and have applied all of it. */
  lemma NeverStuck(n: nat, before: seq<Event>, c: Cluster, command: Command) returns (events: seq<Event>, d: Cluster)
    requires n > 0 && Runs(Init(n), before, c) && AllIdle(c)
    ensures Runs(c, events, d) && AllIdle(d) && |d.nodes| == n
    ensures forall p: nat :: p < n ==> d.nodes[p].log == d.nodes[0].log && d.nodes[p].applied == Commands(d.nodes[0].log)
    ensures d.nodes[0].applied != [] && d.nodes[0].applied[|d.nodes[0].applied| - 1] == command
  {
    hide Runs;
    var i, b, more;
    events, b, i := LeaderToBeHad(n, before, c);
    RunsAppend(Init(n), before, c, events, b);
    more, d := CommandIsApplied(n, before + events, b, i, command);
    RunsAppend(c, events, b, more, d);
    ReachableStarted(n, before, c);
    events := events + more;
    CommandsOf(b.nodes[i].log, b.nodes[i].term, command);
  }
}
