/**
 A cluster of Raft nodes running concurrently.  Each node's loop holds the
 node's lock during a whole election or heartbeat round and calls its peers
 one after the other; a call waits until the peer's lock is free.  A thread
 value says how far such a round has come, and one event is one loop
 iteration of one node.  Events of different nodes interleave freely.
*/
module RaftCluster {
  import opened RaftProtocol

  datatype Thread = Idle | Electing(next: nat, votes: nat) | Sending(next: nat)

  datatype Cluster = Cluster(nodes: seq<Node>, threads: seq<Thread>)

  datatype Event =
    | StartElection(i: nat)
    | StartHeartbeat(i: nat)
    | Continue(i: nat)
    | Replicate(i: nat, command: Command)

  function Init(n: nat): Cluster {
    Cluster(seq(n, _ => FRESH_NODE), seq(n, _ => Idle))
  }

  predicate Wired(c: Cluster) {
    |c.threads| == |c.nodes|
  }

  /** The round of node `i` has a call to node `p` as its next iteration. */
  predicate Calls(c: Cluster, i: nat, p: nat)
    requires Wired(c)
  {
    i < |c.nodes| && p < |c.nodes| && i != p && c.threads[p] == Idle && !c.threads[i].Idle? && c.threads[i].next == p
  }

  predicate Enabled(c: Cluster, e: Event)
    requires Wired(c)
  {
    e.i < |c.nodes| &&
    match e
    case StartElection(i) => c.threads[i] == Idle && c.nodes[i].role != Leader
    case StartHeartbeat(i) => c.threads[i] == Idle && c.nodes[i].role == Leader
    case Replicate(i, _) => c.threads[i] == Idle
    case Continue(i) =>
      match c.threads[i]
      case Idle => false
      case Electing(k, _) => k == i || k >= |c.nodes| || Calls(c, i, k)
      case Sending(k) => k == i || k >= |c.nodes| || (Calls(c, i, k) && CanSend(c.nodes, i, k))
  }

  function Set(c: Cluster, i: nat, n: Node, t: Thread): (r: Cluster)
    requires Wired(c) && i < |c.nodes|
    ensures Wired(r) && |r.nodes| == |c.nodes|
  {
    Cluster(c.nodes[i := n], c.threads[i := t])
  }

  predicate Wins(c: Cluster, i: nat)
    requires Wired(c) && i < |c.nodes| && c.threads[i].Electing?
  {
    c.nodes[i].role == Candidate && c.threads[i].votes > |c.nodes| / 2
  }

  predicate CanCommit(n: Node) {
    -1 <= n.lastApplied && -1 <= n.commit < |n.log|
  }

  function ContinueElection(c: Cluster, i: nat): (r: Cluster)
    requires Wired(c) && i < |c.nodes| && c.threads[i].Electing? && Enabled(c, Continue(i))
    ensures Wired(r) && |r.nodes| == |c.nodes|
  {
    var Electing(k, votes) := c.threads[i];
    if k == i then Set(c, i, c.nodes[i], Electing(k + 1, votes))
    else if k < |c.nodes| then
      var (nodes, v, stopped) := AskVote(c.nodes, i, k, votes);
      Cluster(nodes, c.threads[i := if stopped then Idle else Electing(k + 1, v)])
    else if Wins(c, i) then Set(c, i, BecomeLeader(c.nodes[i], |c.nodes|), Sending(0))
    else Set(c, i, c.nodes[i], Idle)
  }

  function ContinueHeartbeat(c: Cluster, i: nat): (r: Cluster)
    requires Wired(c) && i < |c.nodes| && c.threads[i].Sending? && Enabled(c, Continue(i))
    ensures Wired(r) && |r.nodes| == |c.nodes|
  {
    var Sending(k) := c.threads[i];
    if k == i then Set(c, i, c.nodes[i], Sending(k + 1))
    else if k < |c.nodes| then
      var (nodes, stopped) := SendAppend(c.nodes, i, k);
      Cluster(nodes, c.threads[i := if stopped then Idle else Sending(k + 1)])
    else if CanCommit(c.nodes[i]) then Set(c, i, AdvanceCommit(c.nodes[i], i, |c.nodes|), Idle)
    else Set(c, i, c.nodes[i], Idle)
  }

  function Next(c: Cluster, e: Event): (r: Cluster)
    requires Wired(c) && Enabled(c, e)
    ensures Wired(r) && |r.nodes| == |c.nodes|
  {
    match e
    case StartElection(i) => Set(c, i, BeginElection(c.nodes[i], i), Electing(0, 1))
    case StartHeartbeat(i) => Set(c, i, c.nodes[i], Sending(0))
    case Replicate(i, command) =>
      if c.nodes[i].role == Leader then Set(c, i, AppendCommand(c.nodes[i], i, command), Idle) else c
    case Continue(i) =>
      if c.threads[i].Electing? then ContinueElection(c, i) else ContinueHeartbeat(c, i)
  }

  /** The events, each enabled in its turn, lead from c to d. */
  predicate Runs(c: Cluster, events: seq<Event>, d: Cluster): (r: bool)
    requires Wired(c)
    ensures r ==> Wired(d) && |d.nodes| == |c.nodes|
    decreases |events|
  {
    if events == [] then c == d
    else Enabled(c, events[0]) && Runs(Next(c, events[0]), events[1..], d)
  }
}
