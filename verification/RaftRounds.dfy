/**
 A whole election or heartbeat round, run without interruption, as a function
 on the nodes of the cluster; and the proof that it is one of the runs of the
 interleaving model.
*/
module RaftRounds {
  import opened RaftProtocol
  import opened RaftCluster

  // ---------- rounds as functions ----------

  /** The candidate's loop over its peers from position k on. */
  function PollFrom(nodes: seq<Node>, i: nat, k: nat, votes: nat): (r: (seq<Node>, nat, bool))
    requires i < |nodes|
    ensures |r.0| == |nodes|
    decreases |nodes| - k
  {
    if k >= |nodes| then (nodes, votes, false)
    else if k == i then PollFrom(nodes, i, k + 1, votes)
    else
      var (after, v, stopped) := AskVote(nodes, i, k, votes);
      if stopped then (after, v, true) else PollFrom(after, i, k + 1, v)
  }

  predicate Started(nodes: seq<Node>) {
    forall p: nat :: p < |nodes| ==> -1 <= nodes[p].lastApplied
  }

  /** Node `i` has an index for every peer, within its log. */
  predicate Indexed(nodes: seq<Node>, i: nat) {
    && i < |nodes|
    && (forall p: nat :: p < |nodes| ==> p in nodes[i].nextIndex && nodes[i].nextIndex[p] <= |nodes[i].log|)
    && Started(nodes)
  }

  lemma SendKeepsIndexed(nodes: seq<Node>, i: nat, p: nat)
    requires Indexed(nodes, i) && p < |nodes| && p != i
    ensures CanSend(nodes, i, p)
    ensures !SendAppend(nodes, i, p).1 ==> Indexed(SendAppend(nodes, i, p).0, i)
    ensures SendAppend(nodes, i, p).0[i].log == nodes[i].log
    ensures SendAppend(nodes, i, p).0[i].commit == nodes[i].commit
    ensures SendAppend(nodes, i, p).0[i].lastApplied == nodes[i].lastApplied
  {
  }

  /** The leader's loop over its peers from position k on. */
  function BroadcastFrom(nodes: seq<Node>, i: nat, k: nat): (r: (seq<Node>, bool))
    requires Indexed(nodes, i)
    ensures |r.0| == |nodes| && r.0[i].log == nodes[i].log
    ensures r.0[i].commit == nodes[i].commit && r.0[i].lastApplied == nodes[i].lastApplied
    decreases |nodes| - k
  {
    if k >= |nodes| then (nodes, false)
    else if k == i then BroadcastFrom(nodes, i, k + 1)
    else
      SendKeepsIndexed(nodes, i, k);
      var (after, stopped) := SendAppend(nodes, i, k);
      if stopped then (after, true) else BroadcastFrom(after, i, k + 1)
  }

  function HeartbeatRound(nodes: seq<Node>, i: nat): (r: seq<Node>)
    requires Indexed(nodes, i) && CanCommit(nodes[i])
    ensures |r| == |nodes|
  {
    var (after, stopped) := BroadcastFrom(nodes, i, 0);
    if stopped then after else after[i := AdvanceCommit(after[i], i, |nodes|)]
  }

  function ElectionRound(nodes: seq<Node>, i: nat): (r: seq<Node>)
    requires i < |nodes| && CanCommit(nodes[i]) && Started(nodes)
    ensures |r| == |nodes|
  {
    var begun := nodes[i := BeginElection(nodes[i], i)];
    var (polled, votes, stopped) := PollFrom(begun, i, 0, 1);
    PollFrame(begun, i, 0, 1);
    if !stopped && votes > |nodes| / 2 then HeartbeatRound(polled[i := BecomeLeader(polled[i], |nodes|)], i)
    else polled
  }

  /** Polling leaves logs, indices and applied commands alone, and, unless it
      stops, the candidate too. */
  lemma {:induction false} PollFrame(nodes: seq<Node>, i: nat, k: nat, votes: nat)
    requires i < |nodes|
    ensures var (after, _, stopped) := PollFrom(nodes, i, k, votes);
      && (!stopped ==> after[i] == nodes[i])
      && forall p: nat :: p < |nodes| ==> after[p].lastApplied == nodes[p].lastApplied && after[p].log == nodes[p].log
    decreases |nodes| - k
  {
    if k >= |nodes| {
    } else if k == i {
      PollFrame(nodes, i, k + 1, votes);
    } else {
      var (after, v, stopped) := AskVote(nodes, i, k, votes);
      if !stopped { PollFrame(after, i, k + 1, v); }
    }
  }

  // ---------- a round is a run ----------

  /** Only node `i` is in a round. */
  predicate Alone(c: Cluster, i: nat) {
    Wired(c) && i < |c.nodes| && forall j: nat :: j < |c.nodes| && j != i ==> c.threads[j] == Idle
  }

  lemma {:induction false} RunsAppend(a: Cluster, x: seq<Event>, b: Cluster, y: seq<Event>, c: Cluster)
    requires Wired(a) && Runs(a, x, b) && Runs(b, y, c)
    ensures Runs(a, x + y, c)
    decreases |x|
  {
    hide Next;
    if x == [] {
      assert x + y == y;
    } else {
      assert (x + y)[1..] == x[1..] + y;
      RunsAppend(Next(a, x[0]), x[1..], b, y, c);
    }
  }

  lemma RunsOnce(a: Cluster, e: Event)
    requires Wired(a) && Enabled(a, e)
    ensures Runs(a, [e], Next(a, e))
  {
    assert Runs(Next(a, e), [e][1..], Next(a, e));
  }

  lemma {:induction false} PollRuns(c: Cluster, i: nat) returns (events: seq<Event>, d: Cluster)
    requires Alone(c, i) && c.threads[i].Electing?
    ensures Runs(c, events, d) && Alone(d, i)
    ensures var (nodes, votes, stopped) := PollFrom(c.nodes, i, c.threads[i].next, c.threads[i].votes);
      d.nodes == nodes && (if stopped then d.threads[i] == Idle
                           else d.threads[i].Electing? && d.threads[i].next >= |nodes| && d.threads[i].votes == votes)
    decreases |c.nodes| - c.threads[i].next
  {
    hide AskVote;
    if c.threads[i].next >= |c.nodes| {
      events, d := [], c;
    } else {
      RunsOnce(c, Continue(i));
      var b := Next(c, Continue(i));
      assert c.threads[i].next == i ==> b.nodes == c.nodes;
      if b.threads[i].Electing? {
        events, d := PollRuns(b, i);
        RunsAppend(c, [Continue(i)], b, events, d);
        events := [Continue(i)] + events;
      } else {
        events, d := [Continue(i)], b;
      }
    }
  }

  lemma BroadcastStep(c: Cluster, i: nat)
    requires Alone(c, i) && c.threads[i].Sending? && Indexed(c.nodes, i) && c.threads[i].next < |c.nodes|
    ensures Enabled(c, Continue(i)) && Alone(Next(c, Continue(i)), i)
    ensures var b := Next(c, Continue(i));
      b.threads[i] == Idle ==> BroadcastFrom(c.nodes, i, c.threads[i].next) == (b.nodes, true)
    ensures var b, k := Next(c, Continue(i)), c.threads[i].next;
      b.threads[i] != Idle ==>
        b.threads[i] == Sending(k + 1) && Indexed(b.nodes, i)
        && BroadcastFrom(c.nodes, i, k) == BroadcastFrom(b.nodes, i, k + 1)
  {
    hide SendAppend;
    var k := c.threads[i].next;
    if k != i { SendKeepsIndexed(c.nodes, i, k); }
    assert k == i ==> Next(c, Continue(i)).nodes == c.nodes;
  }

  /** The events end where the rest of the leader's loop ends. */
  predicate Broadcasts(c: Cluster, i: nat, events: seq<Event>, d: Cluster)
    requires Alone(c, i) && c.threads[i].Sending? && Indexed(c.nodes, i)
  {
    var (nodes, stopped) := BroadcastFrom(c.nodes, i, c.threads[i].next);
    && Runs(c, events, d) && Alone(d, i) && d.nodes == nodes
    && (if stopped then d.threads[i] == Idle else d.threads[i].Sending? && d.threads[i].next >= |nodes|)
  }

  lemma {:induction false} BroadcastRuns(c: Cluster, i: nat) returns (events: seq<Event>, d: Cluster)
    requires Alone(c, i) && c.threads[i].Sending? && Indexed(c.nodes, i)
    ensures Broadcasts(c, i, events, d)
    decreases |c.nodes| - c.threads[i].next
  {
    hide Enabled, CanSend, Calls, CanCommit, AppendCommand, SendAppend, ContinueHeartbeat, Set, Indexed, Wins, Next,
      AskVote, BeginElection, Started, ContinueElection;
    if c.threads[i].next >= |c.nodes| {
      events, d := [], c;
    } else {
      BroadcastStep(c, i);
      var b := Next(c, Continue(i));
      if b.threads[i] != Idle {
        events, d := BroadcastRuns(b, i);
        BroadcastsMore(c, i, b, events, d);
        events := [Continue(i)] + events;
      } else {
        BroadcastsStop(c, i, b);
        events, d := [Continue(i)], b;
      }
    }
  }

  lemma BroadcastsStop(c: Cluster, i: nat, b: Cluster)
    requires Alone(c, i) && c.threads[i].Sending? && Indexed(c.nodes, i) && Enabled(c, Continue(i))
    requires b == Next(c, Continue(i)) && Alone(b, i) && b.threads[i] == Idle
    requires BroadcastFrom(c.nodes, i, c.threads[i].next) == (b.nodes, true)
    ensures Broadcasts(c, i, [Continue(i)], b)
  {
    RunsOnce(c, Continue(i));
  }

  lemma BroadcastsMore(c: Cluster, i: nat, b: Cluster, events: seq<Event>, d: Cluster)
    requires Alone(c, i) && c.threads[i].Sending? && Indexed(c.nodes, i) && Enabled(c, Continue(i))
    requires b == Next(c, Continue(i)) && Alone(b, i) && b.threads[i] == Sending(c.threads[i].next + 1)
    requires Indexed(b.nodes, i) && Broadcasts(b, i, events, d)
    requires BroadcastFrom(c.nodes, i, c.threads[i].next) == BroadcastFrom(b.nodes, i, b.threads[i].next)
    ensures Broadcasts(c, i, [Continue(i)] + events, d)
  {
    RunsOnce(c, Continue(i));
    RunsAppend(c, [Continue(i)], b, events, d);
  }

  lemma HeartbeatRuns(c: Cluster, i: nat) returns (events: seq<Event>, d: Cluster)
    requires Alone(c, i) && c.threads[i] == Sending(0) && Indexed(c.nodes, i) && CanCommit(c.nodes[i])
    ensures Runs(c, events, d) && Alone(d, i) && d.threads[i] == Idle && d.nodes == HeartbeatRound(c.nodes, i)
  {
    hide SendAppend;
    events, d := BroadcastRuns(c, i);
    if d.threads[i] != Idle {
      RunsOnce(d, Continue(i));
      var e := Next(d, Continue(i));
      RunsAppend(c, events, d, [Continue(i)], e);
      events, d := events + [Continue(i)], e;
    }
  }

  lemma LeaderIsIndexed(nodes: seq<Node>, i: nat)
    requires i < |nodes| && Started(nodes) && CanCommit(nodes[i])
    ensures var led := nodes[i := BecomeLeader(nodes[i], |nodes|)]; Indexed(led, i) && CanCommit(led[i])
  {
  }

  /** `_start_election` without interruption is a run of the cluster. */
  lemma ElectionRoundRuns(c: Cluster, i: nat) returns (events: seq<Event>, d: Cluster)
    requires Alone(c, i) && c.threads[i] == Idle && c.nodes[i].role != Leader
    requires CanCommit(c.nodes[i]) && Started(c.nodes)
    ensures Runs(c, events, d) && Alone(d, i) && d.threads[i] == Idle
    ensures d.nodes == ElectionRound(c.nodes, i)
  {
    hide PollFrom, Runs;
    var start := StartElection(i);
    var b := Next(c, start);
    RunsOnce(c, start);
    PollFrame(b.nodes, i, 0, 1);
    events, d := PollRuns(b, i);
    RunsAppend(c, [start], b, events, d);
    events := [start] + events;
    if d.threads[i] != Idle {
      RunsOnce(d, Continue(i));
      var e := Next(d, Continue(i));
      RunsAppend(c, events, d, [Continue(i)], e);
      events := events + [Continue(i)];
      if e.threads[i] != Idle {
        LeaderIsIndexed(d.nodes, i);
        var more, f := HeartbeatRuns(e, i);
        RunsAppend(c, events, e, more, f);
        events, d := events + more, f;
      } else {
        d := e;
      }
    }
  }

  /** A leader's heartbeat round without interruption is a run of the cluster. */
  lemma HeartbeatRoundRuns(c: Cluster, i: nat) returns (events: seq<Event>, d: Cluster)
    requires Alone(c, i) && c.threads[i] == Idle && c.nodes[i].role == Leader
    requires Indexed(c.nodes, i) && CanCommit(c.nodes[i])
    ensures Runs(c, events, d) && Alone(d, i) && d.threads[i] == Idle
    ensures d.nodes == HeartbeatRound(c.nodes, i)
  {
    var b := Next(c, StartHeartbeat(i));
    RunsOnce(c, StartHeartbeat(i));
    assert b.nodes == c.nodes;
    events, d := HeartbeatRuns(b, i);
    RunsAppend(c, [StartHeartbeat(i)], b, events, d);
    events := [StartHeartbeat(i)] + events;
  }
}
