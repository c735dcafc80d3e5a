/**
 What a run of the cluster keeps.  The history names, per term, the elected
 leader, the quorum that elected it and its log, and per (term, node) how much
 of that leader's log the node has held; it only observes, and never decides
 what a node does.
*/
module RaftInvariant {
  import opened Wrappers
  import opened RaftProtocol
  import opened RaftCluster

  datatype History = History(
    leader: map<nat, nat>,           // term -> elected leader
    logOf: map<nat, seq<Entry>>,     // term -> that leader's log, as far as it has grown
    voters: map<nat, set<nat>>,      // term -> the majority that elected it
    vote: map<(nat, nat), nat>,      // (term, voter) -> candidate
    ack: map<(nat, nat), nat>,       // (term, node) -> length of the leader's log the node has held
    granted: map<nat, set<nat>>,     // node -> the votes counted in its current election
    cert: map<nat, (nat, nat)>)      // node -> (term, length) of a chosen prefix that covers its commits

  const NO_HISTORY := History(map[], map[], map[], map[], map[], map[], map[])

  ghost function Ack(h: History, t: nat, n: nat): nat {
    if (t, n) in h.ack then h.ack[(t, n)] else 0
  }

  ghost predicate Majority(s: set<nat>, n: nat) {
    s <= Ids(n) && |s| > n / 2
  }

  /** Position m - 1 of the term's leader log was written in that very term. */
  ghost predicate Own(h: History, t: nat, m: nat) {
    t in h.logOf && 0 < m <= |h.logOf[t]| && h.logOf[t][m - 1].term == t
  }

  ghost function Part(h: History, t: nat, m: nat): seq<Entry> {
    if t in h.logOf && m <= |h.logOf[t]| then h.logOf[t][..m] else []
  }

  /** Nodes that have held the first m entries of the leader of term t. */
  ghost function Holding(c: Cluster, h: History, t: nat, m: nat): set<nat> {
    set n | n in Ids(|c.nodes|) && Ack(h, t, n) >= m
  }

  /** Nodes that have left term t without holding them. */
  ghost function Passed(c: Cluster, h: History, t: nat, m: nat): set<nat> {
    set n | n in Ids(|c.nodes|) && c.nodes[n].term > t && Ack(h, t, n) < m
  }

  ghost predicate Chosen(c: Cluster, h: History, t: nat, m: nat) {
    Majority(Holding(c, h, t, m), |c.nodes|)
  }

  /** No majority will ever hold them. */
  ghost predicate Dead(c: Cluster, h: History, t: nat, m: nat) {
    Majority(Passed(c, h, t, m), |c.nodes|)
  }

  // ---------- the invariant ----------

  ghost predicate Shape(c: Cluster, h: History) {
    && |c.threads| == |c.nodes| > 0
    && h.leader.Keys == h.logOf.Keys == h.voters.Keys
  }

  /** Every ballot is remembered by the voter while it stays in that term. */
  ghost predicate Ballots(c: Cluster, h: History) {
    forall t, n :: (t, n) in h.vote ==>
      n < |c.nodes| && t <= c.nodes[n].term
      && (t == c.nodes[n].term ==> c.nodes[n].votedFor == Some(h.vote[(t, n)]))
  }

  ghost predicate BallotsOf(h: History, t: nat, i: nat, s: set<nat>) {
    forall n :: n in s ==> (t, n) in h.vote && h.vote[(t, n)] == i
  }

  /** A leader was elected by a majority of its term's ballots. */
  ghost predicate Elected(c: Cluster, h: History)
    requires Shape(c, h)
  {
    forall t :: t in h.leader ==>
      && h.leader[t] < |c.nodes|
      && Majority(h.voters[t], |c.nodes|)
      && BallotsOf(h, t, h.leader[t], h.voters[t])
      && t <= c.nodes[h.leader[t]].term
      && (t == c.nodes[h.leader[t]].term ==> c.nodes[h.leader[t]].role == Leader)
  }

  ghost predicate CountsBallots(c: Cluster, h: History, i: nat)
    requires Shape(c, h) && i < |c.nodes| && c.threads[i].Electing?
  {
    var Electing(k, votes) := c.threads[i];
    && c.nodes[i].role == Candidate && k <= |c.nodes|
    && i in h.granted && |h.granted[i]| == votes
    && (forall n :: n in h.granted[i] ==> n == i || n < k)
    && BallotsOf(h, c.nodes[i].term, i, h.granted[i])
  }

  ghost predicate Leads(c: Cluster, h: History, i: nat)
    requires Shape(c, h) && i < |c.nodes| && c.nodes[i].role == Leader
  {
    var n := c.nodes[i];
    && n.term in h.leader && h.leader[n.term] == i && h.logOf[n.term] == n.log
    && Ack(h, n.term, i) == |n.log|
    && (forall p: nat :: p < |c.nodes| ==> p in n.nextIndex && n.nextIndex[p] <= |n.log|)
    && (forall p: nat :: p < |c.nodes| && p != i ==> MatchOf(n, p) + 1 <= Ack(h, n.term, p))
  }

  ghost predicate Roles(c: Cluster, h: History)
    requires Shape(c, h)
  {
    && (forall i: nat :: i < |c.nodes| && c.threads[i].Electing? ==> CountsBallots(c, h, i))
    && (forall i: nat :: i < |c.nodes| && c.threads[i].Sending? ==>
          c.nodes[i].role == Leader && c.threads[i].next <= |c.nodes|)
    && (forall i: nat :: i < |c.nodes| && c.nodes[i].role == Leader ==> Leads(c, h, i))
  }

  /** Up to any entry, the log is the log of the leader that wrote the entry. */
  ghost predicate Traced(h: History, log: seq<Entry>) {
    forall k {:trigger log[k]} :: 0 <= k < |log| ==>
      log[k].term in h.logOf && k < |h.logOf[log[k].term]| && log[..k + 1] == h.logOf[log[k].term][..k + 1]
  }

  ghost predicate TermsUpTo(log: seq<Entry>, t: nat) {
    forall k :: 0 <= k < |log| ==> log[k].term <= t
  }

  ghost predicate Logs(c: Cluster, h: History) {
    && (forall i: nat :: i < |c.nodes| ==> Traced(h, c.nodes[i].log) && TermsUpTo(c.nodes[i].log, c.nodes[i].term))
    && (forall t :: t in h.logOf ==> Traced(h, h.logOf[t]) && TermsUpTo(h.logOf[t], t))
  }

  ghost predicate Acks(c: Cluster, h: History) {
    forall t, n :: (t, n) in h.ack ==>
      t in h.logOf && n < |c.nodes| && t <= c.nodes[n].term && h.ack[(t, n)] <= |h.logOf[t]|
  }

  /** `log` has the first m entries of term t's leader, unless these are dead. */
  ghost predicate Carries(c: Cluster, h: History, log: seq<Entry>, t: nat, m: nat) {
    Part(h, t, m) <= log || Dead(c, h, t, m)
  }

  ghost predicate Retains(c: Cluster, h: History, n: nat, log: seq<Entry>) {
    forall t: nat, m: nat :: Own(h, t, m) && Ack(h, t, n) >= m ==> Carries(c, h, log, t, m)
  }

  /** Nodes keep what they have held. */
  ghost predicate Retention(c: Cluster, h: History) {
    forall n: nat :: n < |c.nodes| ==> Retains(c, h, n, c.nodes[n].log)
  }

  ghost predicate RetainsBelow(c: Cluster, h: History, n: nat, log: seq<Entry>, below: nat) {
    forall t: nat, m: nat :: t < below && Own(h, t, m) && Ack(h, t, n) >= m ==> Carries(c, h, log, t, m)
  }

  /** A candidate has what its voters held. */
  ghost predicate Candidates(c: Cluster, h: History)
    requires Shape(c, h)
  {
    forall i: nat, n :: i < |c.nodes| && c.threads[i].Electing? && i in h.granted && n in h.granted[i] ==>
      RetainsBelow(c, h, n, c.nodes[i].log, c.nodes[i].term)
  }

  /** Later leaders have what earlier leaders got, or could still get, chosen. */
  ghost predicate Complete(c: Cluster, h: History) {
    forall t: nat, t': nat, m: nat :: t < t' && t' in h.logOf && Own(h, t, m) ==> Carries(c, h, h.logOf[t'], t, m)
  }

  ghost predicate Certified(c: Cluster, h: History, n: nat)
    requires n < |c.nodes|
  {
    n in h.cert &&
    var (t, m) := h.cert[n];
    && Own(h, t, m) && t <= c.nodes[n].term && Chosen(c, h, t, m)
    && 0 <= c.nodes[n].commit + 1 <= m && c.nodes[n].commit < |c.nodes[n].log|
    && c.nodes[n].log[..c.nodes[n].commit + 1] <= Part(h, t, m)
  }

  ghost predicate Bookkeeping(n: Node) {
    -1 <= n.lastApplied == n.commit < |n.log| && n.applied == Commands(n.log[..n.commit + 1])
  }

  ghost predicate Commits(c: Cluster, h: History) {
    forall n: nat :: n < |c.nodes| ==>
      Bookkeeping(c.nodes[n]) && (c.nodes[n].commit >= 0 ==> Certified(c, h, n))
  }

  ghost predicate Inv(c: Cluster, h: History) {
    && Shape(c, h)
    && Ballots(c, h) && Elected(c, h) && Roles(c, h)
    && Logs(c, h) && Acks(c, h)
    && Retention(c, h) && Candidates(c, h) && Complete(c, h)
    && Commits(c, h)
  }
}
