/**
 The message handlers of one Raft node as functions on node values
 (prog3/consensus.py).  `RaftNode.dfy` proves the in-place methods against
 them; `RaftCluster.dfy` interleaves them.
*/
module RaftProtocol {
  import opened Wrappers

  type Command = string

  datatype Role = Follower | Candidate | Leader

  datatype Entry = Entry(term: nat, command: Command)

  /** The fields of a node; `applied` records the calls of the apply callback. */
  datatype Node = Node(
    role: Role, term: nat, votedFor: Option<nat>, log: seq<Entry>,
    commit: int, lastApplied: int,
    nextIndex: map<nat, nat>, matchIndex: map<nat, int>,
    applied: seq<Command>)

  datatype VoteArgs = VoteArgs(term: nat, candidate: nat, lastLogIndex: int, lastLogTerm: nat)

  datatype VoteReply = VoteReply(term: nat, granted: bool)

  datatype AppendArgs = AppendArgs(term: nat, leader: nat, prevLogIndex: int, prevLogTerm: nat,
                                   entries: seq<Entry>, leaderCommit: int)

  datatype AppendReply = AppendReply(term: nat, success: bool)

  const FRESH_NODE := Node(Follower, 0, None, [], -1, -1, map[], map[], [])

  function Commands(log: seq<Entry>): (cs: seq<Command>)
    ensures |cs| == |log|
    ensures forall k :: 0 <= k < |log| ==> cs[k] == log[k].command
  {
    seq(|log|, k requires 0 <= k < |log| => log[k].command)
  }

  /** The identifiers 0..n-1 of a cluster of n nodes. */
  function Ids(n: nat): (s: set<nat>)
    ensures |s| == n
    ensures forall p: nat :: p in s <==> p < n
  {
    if n == 0 then {} else Ids(n - 1) + {n - 1}
  }

  lemma SubsetSize(a: set<nat>, b: set<nat>)
    requires a <= b
    ensures |a| <= |b|
  {
    assert b == a + (b - a);
  }

  function LastTerm(log: seq<Entry>): nat {
    if log == [] then 0 else log[|log| - 1].term
  }

  function Min(a: int, b: int): int {
    if a <= b then a else b
  }

  /** A node that learns of a newer term. */
  function StepDown(n: Node, term: nat): Node {
    n.(role := Follower, term := term, votedFor := None)
  }

  function Observe(n: Node, term: nat): Node {
    if term > n.term then StepDown(n, term) else n
  }

  /** Hand the newly committed entries to the state machine. */
  function Apply(n: Node): Node
    requires -1 <= n.lastApplied
    requires n.commit < |n.log|
  {
    if n.lastApplied < n.commit then
      n.(applied := n.applied + Commands(n.log[n.lastApplied + 1..n.commit + 1]), lastApplied := n.commit)
    else n
  }

  // ---------- RequestVote ----------

  predicate UpToDate(a: VoteArgs, log: seq<Entry>) {
    a.lastLogTerm > LastTerm(log) || (a.lastLogTerm == LastTerm(log) && a.lastLogIndex >= |log| - 1)
  }

  predicate Grants(n: Node, a: VoteArgs) {
    a.term == n.term && (n.votedFor == None || n.votedFor == Some(a.candidate)) && UpToDate(a, n.log)
  }

  function HandleVote(n: Node, a: VoteArgs): (Node, VoteReply) {
    var m := Observe(n, a.term);
    if Grants(m, a) then (m.(votedFor := Some(a.candidate)), VoteReply(m.term, true))
    else (m, VoteReply(m.term, false))
  }

  // ---------- AppendEntries ----------

  /** Splice `entries` in at position `at`: agreeing entries stay, the first
      disagreement cuts the log, and the rest is taken from the leader. */
  function Merge(log: seq<Entry>, at: nat, entries: seq<Entry>): seq<Entry>
    requires at <= |log|
    decreases |entries|
  {
    if entries == [] then log
    else if at < |log| && log[at].term == entries[0].term then Merge(log, at + 1, entries[1..])
    else log[..at] + entries
  }

  predicate PrevMissing(n: Node, a: AppendArgs) {
    a.prevLogIndex >= |n.log|
  }

  predicate PrevConflicts(n: Node, a: AppendArgs) {
    0 <= a.prevLogIndex < |n.log| && n.log[a.prevLogIndex].term != a.prevLogTerm
  }

  function Accept(n: Node, a: AppendArgs): Node
    requires -1 <= a.prevLogIndex < |n.log|
    requires -1 <= n.lastApplied
  {
    var m := n.(log := Merge(n.log, a.prevLogIndex + 1, a.entries));
    if a.leaderCommit > m.commit then Apply(m.(commit := Min(a.leaderCommit, |m.log| - 1))) else m
  }

  function HandleAppend(n: Node, a: AppendArgs): (Node, AppendReply)
    requires -1 <= a.prevLogIndex && -1 <= n.lastApplied
  {
    var m := Observe(n, a.term);
    if a.term < m.term then (m, AppendReply(m.term, false))
    else if PrevMissing(m, a) then (m, AppendReply(m.term, false))
    else if PrevConflicts(m, a) then (m.(log := m.log[..a.prevLogIndex]), AppendReply(m.term, false))
    else (Accept(m, a), AppendReply(m.term, true))
  }

  // ---------- what a candidate or leader does to itself ----------

  function BeginElection(n: Node, self: nat): Node {
    n.(role := Candidate, term := n.term + 1, votedFor := Some(self))
  }

  function VoteRequest(n: Node, self: nat): VoteArgs {
    VoteArgs(n.term, self, |n.log| - 1, LastTerm(n.log))
  }

  /** Point every peer below `peers` at the end of the leader's log. */
  function ResetNext(m: map<nat, nat>, peers: nat, end: nat): (r: map<nat, nat>)
    ensures forall p: nat :: p in r <==> p in m || p < peers
    ensures forall p: nat :: p in r ==> r[p] == if p < peers then end else m[p]
  {
    if peers == 0 then m else ResetNext(m, peers - 1, end)[peers - 1 := end]
  }

  /** Nothing is known yet of what the peers hold. */
  function ResetMatch(m: map<nat, int>, peers: nat): (r: map<nat, int>)
    ensures forall p: nat :: p in r <==> p in m || p < peers
    ensures forall p: nat :: p in r ==> r[p] == if p < peers then -1 else m[p]
  {
    if peers == 0 then m else ResetMatch(m, peers - 1)[peers - 1 := -1]
  }

  function BecomeLeader(n: Node, peers: nat): Node {
    n.(role := Leader,
       nextIndex := ResetNext(n.nextIndex, peers, |n.log|),
       matchIndex := ResetMatch(n.matchIndex, peers))
  }

  function AppendRequest(n: Node, self: nat, peer: nat): AppendArgs
    requires peer in n.nextIndex && n.nextIndex[peer] <= |n.log|
  {
    var next: int := n.nextIndex[peer];
    var prev := next - 1;
    AppendArgs(n.term, self, prev, if prev >= 0 then n.log[prev].term else 0, n.log[n.nextIndex[peer]..], n.commit)
  }

  /** Bookkeeping for a reply that carries no newer term. */
  function Acknowledge(n: Node, peer: nat, a: AppendArgs, success: bool): Node
    requires peer in n.nextIndex && -1 <= a.prevLogIndex
  {
    if success then
      n.(nextIndex := n.nextIndex[peer := a.prevLogIndex + |a.entries| + 1],
         matchIndex := n.matchIndex[peer := a.prevLogIndex + |a.entries|])
    else
      n.(nextIndex := n.nextIndex[peer := if n.nextIndex[peer] >= 1 then n.nextIndex[peer] - 1 else 0])
  }

  function MatchOf(n: Node, peer: nat): int {
    if peer in n.matchIndex then n.matchIndex[peer] else -1
  }

  /** The peers below `peers`, other than `self`, known to hold index `i`. */
  function Holders(n: Node, self: nat, peers: nat, i: int): set<nat> {
    set p | p in Ids(peers) && p != self && MatchOf(n, p) >= i
  }

  /** Index `i` may be committed: an entry of the current term on a majority. */
  predicate Committable(n: Node, self: nat, peers: nat, i: int) {
    0 <= i < |n.log| && n.log[i].term == n.term && 1 + |Holders(n, self, peers, i)| > peers / 2
  }

  /** The highest committable index in (commit, i], if there is one. */
  function HighestCommittable(n: Node, self: nat, peers: nat, i: int): (r: int)
    requires n.commit <= i < |n.log| && -1 <= n.commit
    ensures n.commit <= r <= i
    ensures r > n.commit ==> Committable(n, self, peers, r)
    ensures forall k :: r < k <= i ==> !Committable(n, self, peers, k)
    decreases i - n.commit
  {
    if i == n.commit then i
    else if Committable(n, self, peers, i) then i
    else HighestCommittable(n, self, peers, i - 1)
  }

  function AdvanceCommit(n: Node, self: nat, peers: nat): Node
    requires -1 <= n.lastApplied && -1 <= n.commit < |n.log|
  {
    var c := HighestCommittable(n, self, peers, |n.log| - 1);
    if c > n.commit then Apply(n.(commit := c)) else n
  }

  function AppendCommand(n: Node, self: nat, command: Command): Node {
    n.(log := n.log + [Entry(n.term, command)], matchIndex := n.matchIndex[self := |n.log|])
  }

  // ---------- one synchronous exchange between two nodes ----------

  /** A candidate calls a peer's vote handler and handles the reply;
      the flag says that it stepped down. */
  function AskVote(nodes: seq<Node>, i: nat, p: nat, votes: nat): (r: (seq<Node>, nat, bool))
    requires i < |nodes| && p < |nodes| && i != p
    ensures |r.0| == |nodes|
  {
    var (peer, reply) := HandleVote(nodes[p], VoteRequest(nodes[i], i));
    var after := nodes[p := peer];
    if reply.term > nodes[i].term then (after[i := StepDown(nodes[i], reply.term)], votes, true)
    else (after, if reply.granted then votes + 1 else votes, false)
  }

  predicate CanSend(nodes: seq<Node>, i: nat, p: nat) {
    i < |nodes| && p < |nodes| && i != p && p in nodes[i].nextIndex
    && nodes[i].nextIndex[p] <= |nodes[i].log| && -1 <= nodes[p].lastApplied
  }

  function SendAppend(nodes: seq<Node>, i: nat, p: nat): (r: (seq<Node>, bool))
    requires CanSend(nodes, i, p)
    ensures |r.0| == |nodes|
  {
    var args := AppendRequest(nodes[i], i, p);
    var (peer, reply) := HandleAppend(nodes[p], args);
    var after := nodes[p := peer];
    if reply.term > nodes[i].term then (after[i := StepDown(nodes[i], reply.term)], true)
    else (after[i := Acknowledge(nodes[i], p, args, reply.success)], false)
  }
}
