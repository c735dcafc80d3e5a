/**
 Every elementary change of a node keeps the invariant: stepping down, opening
 an election, granting a vote, taking office, cutting or replacing a log,
 raising a commit index, and a leader's own bookkeeping.
*/
module RaftSteps {
  import opened Wrappers
  import opened RaftProtocol
  import opened RaftCluster
  import opened RaftInvariant

  // ---------- majorities ----------

  lemma {:induction false} MajoritiesMeet(a: set<nat>, b: set<nat>, n: nat) returns (x: nat)
    requires Majority(a, n) && Majority(b, n)
    ensures x in a && x in b
  {
    if a * b == {} {
      assert |a + b| == |a| + |b|;
      SubsetSize(a + b, Ids(n));
      assert false;
    }
    x :| x in a * b;
  }

  lemma LargerMajority(a: set<nat>, b: set<nat>, n: nat)
    requires Majority(a, n) && a <= b <= Ids(n)
    ensures Majority(b, n)
  {
    SubsetSize(a, b);
  }

  lemma ChosenIsNotDead(c: Cluster, h: History, t: nat, m: nat)
    requires Chosen(c, h, t, m)
    ensures !Dead(c, h, t, m)
  {
    if Dead(c, h, t, m) {
      var x := MajoritiesMeet(Holding(c, h, t, m), Passed(c, h, t, m), |c.nodes|);
    }
  }

  // ---------- the history only grows ----------

  ghost predicate Grows(c: Cluster, h: History, d: Cluster, g: History) {
    && |d.nodes| == |c.nodes|
    && (forall n: nat :: n < |c.nodes| ==> c.nodes[n].term <= d.nodes[n].term)
    && (forall t, n :: Ack(h, t, n) <= Ack(g, t, n))
    && (forall t, n: nat :: n < |c.nodes| && c.nodes[n].term > t ==> Ack(h, t, n) == Ack(g, t, n))
    && (forall t :: t in h.logOf ==> t in g.logOf && h.logOf[t] <= g.logOf[t])
  }

  /** What one node has now, compared with any later moment of the run. */
  ghost predicate Later(c: Cluster, h: History, d: Cluster, g: History) {
    && Grows(c, h, d, g)
    && (forall t :: t in h.leader ==> t in g.leader && g.leader[t] == h.leader[t])
    && (forall n: nat :: n < |c.nodes| ==>
          c.nodes[n].commit <= d.nodes[n].commit && c.nodes[n].lastApplied <= d.nodes[n].lastApplied
          && c.nodes[n].applied <= d.nodes[n].applied)
  }

  lemma LaterStill(c: Cluster, h: History, d: Cluster, g: History, e: Cluster, f: History)
    requires Later(c, h, d, g) && Later(d, g, e, f)
    ensures Later(c, h, e, f)
  {
    forall t, n ensures Ack(h, t, n) <= Ack(f, t, n) {
      assert Ack(h, t, n) <= Ack(g, t, n);
    }
    forall t, n: nat | n < |c.nodes| && c.nodes[n].term > t ensures Ack(h, t, n) == Ack(f, t, n) {
      assert Ack(g, t, n) == Ack(f, t, n);
    }
  }

  lemma StableParts(c: Cluster, h: History, d: Cluster, g: History, t: nat, m: nat)
    requires Grows(c, h, d, g)
    ensures Dead(c, h, t, m) ==> Dead(d, g, t, m)
    ensures Chosen(c, h, t, m) ==> Chosen(d, g, t, m)
    ensures Own(h, t, m) ==> Own(g, t, m) && Part(h, t, m) == Part(g, t, m)
  {
    assert Passed(c, h, t, m) <= Passed(d, g, t, m);
    assert Holding(c, h, t, m) <= Holding(d, g, t, m);
    if Dead(c, h, t, m) { LargerMajority(Passed(c, h, t, m), Passed(d, g, t, m), |c.nodes|); }
    if Chosen(c, h, t, m) { LargerMajority(Holding(c, h, t, m), Holding(d, g, t, m), |c.nodes|); }
  }

  lemma StillCarries(c: Cluster, h: History, d: Cluster, g: History, log: seq<Entry>, longer: seq<Entry>, t: nat, m: nat)
    requires Grows(c, h, d, g) && Own(h, t, m)
    requires Carries(c, h, log, t, m) && log <= longer
    ensures Carries(d, g, longer, t, m)
  {
    StableParts(c, h, d, g, t, m);
  }

  /** The invariants about what is carried survive a step that leaves the
      leaders' logs and the acknowledgements alone. */
  lemma QuietStep(c: Cluster, h: History, d: Cluster, g: History)
    requires Acks(c, h) && Retention(c, h) && Complete(c, h) && Grows(c, h, d, g)
    requires g.logOf == h.logOf && g.ack == h.ack
    ensures Complete(d, g) && Acks(d, g)
    ensures forall n: nat :: n < |c.nodes| && d.nodes[n].log == c.nodes[n].log ==> Retains(d, g, n, d.nodes[n].log)
  {
    forall t: nat, t': nat, m: nat | t < t' && t' in g.logOf && Own(g, t, m) ensures Carries(d, g, g.logOf[t'], t, m) {
      assert Own(h, t, m);
      StillCarries(c, h, d, g, h.logOf[t'], h.logOf[t'], t, m);
    }
    forall n: nat, t: nat, m: nat | n < |c.nodes| && d.nodes[n].log == c.nodes[n].log && Own(g, t, m) && Ack(g, t, n) >= m
      ensures Carries(d, g, d.nodes[n].log, t, m)
    {
      assert Own(h, t, m) && Retains(c, h, n, c.nodes[n].log);
      StillCarries(c, h, d, g, c.nodes[n].log, d.nodes[n].log, t, m);
    }
  }

  /** Certificates of nodes whose commits and committed entries did not change. */
  lemma StillCertified(c: Cluster, h: History, d: Cluster, g: History, n: nat)
    requires Grows(c, h, d, g) && n < |c.nodes|
    requires Bookkeeping(c.nodes[n]) && (c.nodes[n].commit >= 0 ==> Certified(c, h, n))
    requires n in h.cert ==> n in g.cert && g.cert[n] == h.cert[n]
    requires d.nodes[n].commit == c.nodes[n].commit && d.nodes[n].lastApplied == c.nodes[n].lastApplied
    requires d.nodes[n].applied == c.nodes[n].applied
    requires c.nodes[n].log[..c.nodes[n].commit + 1] <= d.nodes[n].log
    ensures Bookkeeping(d.nodes[n]) && (d.nodes[n].commit >= 0 ==> Certified(d, g, n))
  {
    var k := c.nodes[n].commit + 1;
    assert d.nodes[n].log[..k] == c.nodes[n].log[..k];
    if c.nodes[n].commit >= 0 {
      var (t, m) := h.cert[n];
      StableParts(c, h, d, g, t, m);
    }
  }

  lemma StillCandidates(c: Cluster, h: History, d: Cluster, g: History, i: nat, n: nat)
    requires Grows(c, h, d, g) && g.logOf == h.logOf && g.ack == h.ack
    requires i < |c.nodes| && RetainsBelow(c, h, n, c.nodes[i].log, c.nodes[i].term)
    requires d.nodes[i].log == c.nodes[i].log && d.nodes[i].term == c.nodes[i].term
    ensures RetainsBelow(d, g, n, d.nodes[i].log, d.nodes[i].term)
  {
    forall t: nat, m: nat | t < d.nodes[i].term && Own(g, t, m) && Ack(g, t, n) >= m
      ensures Carries(d, g, d.nodes[i].log, t, m)
    {
      assert Own(h, t, m);
      StillCarries(c, h, d, g, c.nodes[i].log, c.nodes[i].log, t, m);
    }
  }

  // ---------- ballots and roles ----------

  ghost predicate VotesGrow(h: History, g: History) {
    forall t, n :: (t, n) in h.vote ==> (t, n) in g.vote && g.vote[(t, n)] == h.vote[(t, n)]
  }

  lemma KeepElected(c: Cluster, h: History, d: Cluster, g: History)
    requires Shape(c, h) && Elected(c, h) && Shape(d, g) && |d.nodes| == |c.nodes|
    requires g.leader == h.leader && g.voters == h.voters && VotesGrow(h, g)
    requires forall t, n :: t in h.leader && n == h.leader[t] ==>
      n < |d.nodes| && t <= d.nodes[n].term && (t == d.nodes[n].term ==> d.nodes[n].role == Leader)
    ensures Elected(d, g)
  {
    hide Shape;
  }

  lemma KeepCounts(c: Cluster, h: History, d: Cluster, g: History, j: nat)
    requires Shape(c, h) && Shape(d, g) && |d.nodes| == |c.nodes| && VotesGrow(h, g)
    requires j < |c.nodes| && c.threads[j].Electing? && CountsBallots(c, h, j) && d.threads[j] == c.threads[j]
    requires d.nodes[j].term == c.nodes[j].term && d.nodes[j].role == c.nodes[j].role
    requires j in g.granted && g.granted[j] == h.granted[j]
    ensures CountsBallots(d, g, j)
  {
  }

  lemma KeepLeads(c: Cluster, h: History, d: Cluster, g: History, j: nat)
    requires Shape(c, h) && Shape(d, g) && |d.nodes| == |c.nodes|
    requires j < |c.nodes| && c.nodes[j].role == Leader && Leads(c, h, j) && d.nodes[j] == c.nodes[j]
    requires var t := c.nodes[j].term;
      t in g.leader && g.leader[t] == h.leader[t] && g.logOf[t] == h.logOf[t] && Ack(g, t, j) == Ack(h, t, j)
      && forall n :: Ack(h, t, n) <= Ack(g, t, n)
    ensures Leads(d, g, j)
  {
  }

  // ---------- stepping down ----------

  lemma QuietLogs(c: Cluster, h: History, d: Cluster, g: History)
    requires Logs(c, h) && g.logOf == h.logOf && |d.nodes| == |c.nodes|
    requires forall n: nat :: n < |c.nodes| ==> d.nodes[n].log == c.nodes[n].log && c.nodes[n].term <= d.nodes[n].term
    ensures Logs(d, g)
  {
    forall i: nat | i < |d.nodes| ensures Traced(g, d.nodes[i].log) && TermsUpTo(d.nodes[i].log, d.nodes[i].term) {
      assert Traced(h, c.nodes[i].log) && TermsUpTo(c.nodes[i].log, c.nodes[i].term);
    }
    forall t | t in g.logOf ensures Traced(g, g.logOf[t]) && TermsUpTo(g.logOf[t], t) {
      assert Traced(h, h.logOf[t]) && TermsUpTo(h.logOf[t], t);
    }
  }

  /** Logs, commits and the leaders' records are untouched. */
  ghost predicate Untouched(c: Cluster, h: History, d: Cluster, g: History) {
    && Grows(c, h, d, g)
    && g.logOf == h.logOf && g.ack == h.ack && g.cert == h.cert
    && (forall n: nat :: n < |c.nodes| ==>
          d.nodes[n].log == c.nodes[n].log && d.nodes[n].commit == c.nodes[n].commit
          && d.nodes[n].lastApplied == c.nodes[n].lastApplied && d.nodes[n].applied == c.nodes[n].applied)
  }

  /** Everything but ballots and roles survives a step that touches neither
      logs, nor commits, nor the leaders' records. */
  lemma Quiet(c: Cluster, h: History, d: Cluster, g: History)
    requires Logs(c, h) && Acks(c, h) && Retention(c, h) && Complete(c, h) && Commits(c, h)
    requires Untouched(c, h, d, g)
    ensures Logs(d, g) && Acks(d, g) && Retention(d, g) && Complete(d, g) && Commits(d, g)
  {
    QuietLogs(c, h, d, g);
    QuietStep(c, h, d, g);
    QuietCommits(c, h, d, g);
  }

  lemma QuietCommits(c: Cluster, h: History, d: Cluster, g: History)
    requires Commits(c, h) && Untouched(c, h, d, g)
    ensures Commits(d, g)
  {
    forall k: nat | k < |c.nodes| ensures Bookkeeping(d.nodes[k]) && (d.nodes[k].commit >= 0 ==> Certified(d, g, k)) {
      StillCertified(c, h, d, g, k);
    }
  }

  /** No election is opened, and those open see no change of their candidate. */
  ghost predicate SameElections(c: Cluster, h: History, d: Cluster, g: History) {
    && g.logOf == h.logOf && g.ack == h.ack && g.granted == h.granted
    && |c.threads| == |c.nodes| == |d.nodes| == |d.threads|
    && forall i: nat :: i < |d.nodes| && d.threads[i].Electing? ==>
         c.threads[i].Electing? && d.nodes[i].log == c.nodes[i].log && d.nodes[i].term == c.nodes[i].term
  }

  lemma QuietCandidates(c: Cluster, h: History, d: Cluster, g: History)
    requires Shape(c, h) && Candidates(c, h) && Shape(d, g) && Grows(c, h, d, g) && SameElections(c, h, d, g)
    ensures Candidates(d, g)
  {
    forall i: nat, v | i < |d.nodes| && d.threads[i].Electing? && i in g.granted && v in g.granted[i]
      ensures RetainsBelow(d, g, v, d.nodes[i].log, d.nodes[i].term)
    {
      StillCandidates(c, h, d, g, i, v);
    }
  }

  lemma StepDownRoles(c: Cluster, h: History, d: Cluster, n: nat, term: nat)
    requires Shape(c, h) && Roles(c, h)
    requires n < |c.nodes| && term > c.nodes[n].term
    requires d == Set(c, n, StepDown(c.nodes[n], term), Idle)
    ensures Shape(d, h) && Roles(d, h)
  {
    forall i: nat | i < |d.nodes| && d.threads[i].Electing? ensures CountsBallots(d, h, i) {
      KeepCounts(c, h, d, h, i);
    }
    forall i: nat | i < |d.nodes| && d.nodes[i].role == Leader ensures Leads(d, h, i) {
      KeepLeads(c, h, d, h, i);
    }
  }

  lemma StepDownElected(c: Cluster, h: History, d: Cluster, n: nat, term: nat)
    requires Shape(c, h) && Elected(c, h) && n < |c.nodes| && term > c.nodes[n].term
    requires d == Set(c, n, StepDown(c.nodes[n], term), Idle)
    ensures Shape(d, h) && Elected(d, h) && SameElections(c, h, d, h)
  {
    KeepElected(c, h, d, h);
  }

  lemma StepDownBallots(c: Cluster, h: History, d: Cluster, n: nat, term: nat)
    requires Ballots(c, h) && |c.threads| == |c.nodes| && n < |c.nodes| && term > c.nodes[n].term
    requires d == Set(c, n, StepDown(c.nodes[n], term), Idle)
    ensures Ballots(d, h) && Untouched(c, h, d, h) && Later(c, h, d, h)
  {
  }

  lemma StepDownKeeps(c: Cluster, h: History, n: nat, term: nat)
    requires Inv(c, h) && n < |c.nodes| && term > c.nodes[n].term
    ensures Inv(Set(c, n, StepDown(c.nodes[n], term), Idle), h)
    ensures Later(c, h, Set(c, n, StepDown(c.nodes[n], term), Idle), h)
  {
    var d := Set(c, n, StepDown(c.nodes[n], term), Idle);
    StepDownBallots(c, h, d, n, term);
    StepDownRoles(c, h, d, n, term);
    StepDownElected(c, h, d, n, term);
    Quiet(c, h, d, h);
    QuietCandidates(c, h, d, h);
  }

  // ---------- progress of a round ----------

  ghost predicate ThreadMayMove(c: Cluster, i: nat, t: Thread)
    requires |c.threads| == |c.nodes| && i < |c.nodes|
  {
    match t
    case Idle => true
    case Sending(k) => c.nodes[i].role == Leader && k <= |c.nodes|
    case Electing(k, v) => c.threads[i].Electing? && c.threads[i].next + 1 == k && c.threads[i].votes == v && k <= |c.nodes|
  }

  lemma ThreadRoles(c: Cluster, h: History, d: Cluster, i: nat, t: Thread)
    requires Shape(c, h) && Roles(c, h)
    requires i < |c.nodes| && ThreadMayMove(c, i, t) && d == Set(c, i, c.nodes[i], t)
    ensures d.nodes == c.nodes && Shape(d, h) && Roles(d, h) && Later(c, h, d, h)
  {
    assert d.nodes == c.nodes;
    forall j: nat | j < |d.nodes| && d.threads[j].Electing? ensures CountsBallots(d, h, j) {
      assert CountsBallots(c, h, j);
    }
    forall j: nat | j < |d.nodes| && d.nodes[j].role == Leader ensures Leads(d, h, j) {
      KeepLeads(c, h, d, h, j);
    }
  }

  lemma ThreadKeeps(c: Cluster, h: History, i: nat, t: Thread)
    requires Inv(c, h) && i < |c.nodes| && ThreadMayMove(c, i, t)
    ensures Inv(Set(c, i, c.nodes[i], t), h) && Later(c, h, Set(c, i, c.nodes[i], t), h)
  {
    var d := Set(c, i, c.nodes[i], t);
    ThreadRoles(c, h, d, i, t);
    assert Ballots(d, h) && Elected(d, h);
    Quiet(c, h, d, h);
    QuietCandidates(c, h, d, h);
  }

  // ---------- opening an election ----------

  ghost function OpenElection(c: Cluster, h: History, i: nat): History
    requires i < |c.nodes|
  {
    h.(vote := h.vote[(c.nodes[i].term + 1, i) := i], granted := h.granted[i := {i}])
  }

  lemma BeginBallots(c: Cluster, h: History, d: Cluster, g: History, i: nat)
    requires Shape(c, h) && Ballots(c, h) && i < |c.nodes|
    requires d == Set(c, i, BeginElection(c.nodes[i], i), Electing(0, 1)) && g == OpenElection(c, h, i)
    ensures Shape(d, g) && Ballots(d, g) && VotesGrow(h, g) && Untouched(c, h, d, g) && Later(c, h, d, g)
  {
  }

  lemma BeginRoles(c: Cluster, h: History, d: Cluster, g: History, i: nat)
    requires Shape(c, h) && Roles(c, h) && VotesGrow(h, g)
    requires i < |c.nodes| && c.threads[i] == Idle && c.nodes[i].role != Leader
    requires d == Set(c, i, BeginElection(c.nodes[i], i), Electing(0, 1)) && g == OpenElection(c, h, i)
    ensures Shape(d, g) && Roles(d, g)
  {
    forall j: nat | j < |d.nodes| && d.threads[j].Electing? ensures CountsBallots(d, g, j) {
      if j != i { KeepCounts(c, h, d, g, j); }
    }
    forall j: nat | j < |d.nodes| && d.nodes[j].role == Leader ensures Leads(d, g, j) {
      KeepLeads(c, h, d, g, j);
    }
  }

  lemma BeginCandidates(c: Cluster, h: History, d: Cluster, g: History, i: nat)
    requires Shape(c, h) && Candidates(c, h) && Grows(c, h, d, g)
    requires i < |c.nodes| && Shape(d, g) && Retains(d, g, i, d.nodes[i].log)
    requires d == Set(c, i, BeginElection(c.nodes[i], i), Electing(0, 1)) && g == OpenElection(c, h, i)
    ensures Candidates(d, g)
  {
    forall j: nat, v | j < |d.nodes| && d.threads[j].Electing? && j in g.granted && v in g.granted[j]
      ensures RetainsBelow(d, g, v, d.nodes[j].log, d.nodes[j].term)
    {
      if j != i { StillCandidates(c, h, d, g, j, v); }
    }
  }

  lemma BeginElected(c: Cluster, h: History, d: Cluster, g: History, i: nat)
    requires Shape(c, h) && Elected(c, h) && Shape(d, g) && VotesGrow(h, g)
    requires i < |c.nodes| && c.nodes[i].role != Leader
    requires d == Set(c, i, BeginElection(c.nodes[i], i), Electing(0, 1)) && g == OpenElection(c, h, i)
    ensures Elected(d, g)
  {
    hide BallotsOf, Majority;
    KeepElected(c, h, d, g);
  }

  lemma BeginKeeps(c: Cluster, h: History, i: nat)
    requires Inv(c, h) && i < |c.nodes| && c.threads[i] == Idle && c.nodes[i].role != Leader
    ensures Inv(Set(c, i, BeginElection(c.nodes[i], i), Electing(0, 1)), OpenElection(c, h, i))
    ensures Later(c, h, Set(c, i, BeginElection(c.nodes[i], i), Electing(0, 1)), OpenElection(c, h, i))
  {
    hide Roles, Ballots, Elected;
    var d, g := Set(c, i, BeginElection(c.nodes[i], i), Electing(0, 1)), OpenElection(c, h, i);
    BeginBallots(c, h, d, g, i);
    BeginRoles(c, h, d, g, i);
    BeginElected(c, h, d, g, i);
    Quiet(c, h, d, g);
    BeginCandidates(c, h, d, g, i);
  }

  // ---------- granting a vote ----------

  lemma TracedTerms(h: History, log: seq<Entry>, j: nat, k: nat)
    requires Traced(h, log) && j <= k < |log|
    requires forall t :: t in h.logOf ==> TermsUpTo(h.logOf[t], t)
    ensures log[j].term <= log[k].term
  {
    var t := log[k].term;
    assert log[j] == log[..k + 1][j] == h.logOf[t][..k + 1][j];
  }

  lemma SameLastTerm(h: History, a: seq<Entry>, b: seq<Entry>)
    requires Traced(h, a) && Traced(h, b) && b != [] && |b| <= |a| && LastTerm(a) == LastTerm(b)
    ensures b <= a
  {
    var t := LastTerm(b);
    assert a[|a| - 1].term == t && b[|b| - 1].term == t;
    assert a == a[..|a| - 1 + 1] && b == b[..|b| - 1 + 1];
    assert b == h.logOf[t][..|b|] == a[..|b|];
  }

  lemma LaterLastTerm(h: History, log: seq<Entry>, t: nat, m: nat)
    requires Traced(h, log) && log != [] && Own(h, t, m) && LastTerm(log) > t
    requires Part(h, t, m) <= h.logOf[LastTerm(log)] && Traced(h, h.logOf[LastTerm(log)])
    requires forall u :: u in h.logOf ==> TermsUpTo(h.logOf[u], u)
    ensures Part(h, t, m) <= log
  {
    var s := LastTerm(log);
    assert log[|log| - 1].term == s;
    assert log == log[..|log| - 1 + 1] == h.logOf[s][..|log|];
  }

  /** A candidate that passes a voter's check of the last entries has what the voter held. */
  lemma UpToDateHas(h: History, a: VoteArgs, mine: seq<Entry>, theirs: seq<Entry>, t: nat, m: nat)
    requires Traced(h, mine) && Traced(h, theirs) && forall u :: u in h.logOf ==> TermsUpTo(h.logOf[u], u)
    requires a.lastLogIndex == |mine| - 1 && a.lastLogTerm == LastTerm(mine) && UpToDate(a, theirs)
    requires Own(h, t, m) && Part(h, t, m) <= theirs
    requires var s := LastTerm(mine);
      s > t && s in h.logOf ==> Part(h, t, m) <= h.logOf[s] && Traced(h, h.logOf[s])
    ensures Part(h, t, m) <= mine
  {
    var s := LastTerm(mine);
    assert theirs[m - 1] == Part(h, t, m)[m - 1];
    TracedTerms(h, theirs, m - 1, |theirs| - 1);
    if s == LastTerm(theirs) {
      SameLastTerm(h, mine, theirs);
    } else {
      assert mine[|mine| - 1].term == s;
      LaterLastTerm(h, mine, t, m);
    }
  }

  lemma UpToDateCarries(c: Cluster, h: History, a: VoteArgs, mine: seq<Entry>, theirs: seq<Entry>, t: nat, m: nat)
    requires Logs(c, h) && Complete(c, h) && Traced(h, mine) && Traced(h, theirs)
    requires a.lastLogIndex == |mine| - 1 && a.lastLogTerm == LastTerm(mine) && UpToDate(a, theirs)
    requires Own(h, t, m) && Carries(c, h, theirs, t, m)
    ensures Carries(c, h, mine, t, m)
  {
    if !Dead(c, h, t, m) {
      var s := LastTerm(mine);
      if s > t && s in h.logOf {
        assert Carries(c, h, h.logOf[s], t, m);
        assert Traced(h, h.logOf[s]);
      }
      UpToDateHas(h, a, mine, theirs, t, m);
    }
  }

  ghost function CountVote(c: Cluster, h: History, i: nat, p: nat): History
    requires i < |c.nodes| && i in h.granted
  {
    h.(vote := h.vote[(c.nodes[i].term, p) := i], granted := h.granted[i := h.granted[i] + {p}])
  }

  ghost predicate MayGrant(c: Cluster, i: nat, p: nat) {
    && |c.threads| == |c.nodes| && i < |c.nodes| && p < |c.nodes| && i != p
    && c.threads[p] == Idle && c.threads[i].Electing? && c.threads[i].next == p
    && Grants(c.nodes[p], VoteRequest(c.nodes[i], i))
  }

  function Granted(c: Cluster, i: nat, p: nat): Cluster
    requires |c.threads| == |c.nodes| && i < |c.nodes| && p < |c.nodes| && c.threads[i].Electing?
  {
    Cluster(c.nodes[p := c.nodes[p].(votedFor := Some(i))],
            c.threads[i := Electing(c.threads[i].next + 1, c.threads[i].votes + 1)])
  }

  lemma GrantBallots(c: Cluster, h: History, d: Cluster, g: History, i: nat, p: nat)
    requires Shape(c, h) && Ballots(c, h) && MayGrant(c, i, p)
    requires i in h.granted && d == Granted(c, i, p) && g == CountVote(c, h, i, p)
    ensures Shape(d, g) && Ballots(d, g) && VotesGrow(h, g) && Untouched(c, h, d, g) && Later(c, h, d, g)
  {
    GrantUntouched(c, h, d, g, i, p);
    hide Untouched, Later;
  }

  lemma GrantUntouched(c: Cluster, h: History, d: Cluster, g: History, i: nat, p: nat)
    requires Shape(c, h) && MayGrant(c, i, p)
    requires i in h.granted && d == Granted(c, i, p) && g == CountVote(c, h, i, p)
    ensures Untouched(c, h, d, g) && Later(c, h, d, g)
  {
  }

  lemma GrantRoles(c: Cluster, h: History, d: Cluster, g: History, i: nat, p: nat)
    requires Shape(c, h) && Roles(c, h) && MayGrant(c, i, p) && VotesGrow(h, g)
    requires CountsBallots(c, h, i) && d == Granted(c, i, p) && g == CountVote(c, h, i, p)
    ensures Shape(d, g) && Roles(d, g)
  {
    hide BallotsOf, Majority, Leads;
    GrantCounts(c, h, d, g, i, p);
    forall j: nat | j < |d.nodes| && d.nodes[j].role == Leader ensures Leads(d, g, j) {
      GrantLeads(c, h, d, g, i, p, j);
    }
  }

  lemma GrantLeads(c: Cluster, h: History, d: Cluster, g: History, i: nat, p: nat, j: nat)
    requires Shape(c, h) && Shape(d, g) && MayGrant(c, i, p) && i in h.granted
    requires d == Granted(c, i, p) && g == CountVote(c, h, i, p)
    requires j < |c.nodes| && c.nodes[j].role == Leader && Leads(c, h, j)
    ensures Leads(d, g, j)
  {
    hide Grants;
    var n := c.nodes[j];
    assert d.nodes[j] == n.(votedFor := d.nodes[j].votedFor);
    forall q: nat | q < |c.nodes| && q != j ensures MatchOf(d.nodes[j], q) + 1 <= Ack(g, n.term, q) {
      assert MatchOf(n, q) + 1 <= Ack(h, n.term, q);
    }
  }

  lemma GrantCounts(c: Cluster, h: History, d: Cluster, g: History, i: nat, p: nat)
    requires Shape(c, h) && Roles(c, h) && MayGrant(c, i, p) && VotesGrow(h, g)
    requires CountsBallots(c, h, i) && d == Granted(c, i, p) && g == CountVote(c, h, i, p)
    ensures Shape(d, g) && forall j: nat :: j < |d.nodes| && d.threads[j].Electing? ==> CountsBallots(d, g, j)
  {
    hide Leads, Grants, BallotsOf;
    GrantOwnCount(c, h, d, g, i, p);
    forall j: nat | j < |d.nodes| && d.threads[j].Electing? ensures CountsBallots(d, g, j) {
      if j != i { KeepCounts(c, h, d, g, j); }
    }
  }

  lemma GrantOwnCount(c: Cluster, h: History, d: Cluster, g: History, i: nat, p: nat)
    requires Shape(c, h) && MayGrant(c, i, p) && CountsBallots(c, h, i)
    requires d == Granted(c, i, p) && g == CountVote(c, h, i, p)
    ensures Shape(d, g) && CountsBallots(d, g, i)
  {
    hide Grants;
  }

  /** What the new voter held is with the candidate: the vote passed the log check. */
  lemma GrantedVoter(c: Cluster, h: History, d: Cluster, g: History, i: nat, p: nat)
    requires Logs(c, h) && Complete(c, h) && MayGrant(c, i, p) && Retains(c, h, p, c.nodes[p].log)
    requires i in h.granted && d == Granted(c, i, p) && g == CountVote(c, h, i, p) && Grows(c, h, d, g)
    ensures RetainsBelow(d, g, p, d.nodes[i].log, d.nodes[i].term)
  {
    forall t: nat, m: nat | t < d.nodes[i].term && Own(g, t, m) && Ack(g, t, p) >= m
      ensures Carries(d, g, d.nodes[i].log, t, m)
    {
      assert Own(h, t, m);
      UpToDateCarries(c, h, VoteRequest(c.nodes[i], i), c.nodes[i].log, c.nodes[p].log, t, m);
      StillCarries(c, h, d, g, c.nodes[i].log, d.nodes[i].log, t, m);
    }
  }

  lemma GrantCandidates(c: Cluster, h: History, d: Cluster, g: History, i: nat, p: nat)
    requires Shape(c, h) && Candidates(c, h) && Grows(c, h, d, g) && MayGrant(c, i, p)
    requires i in h.granted && d == Granted(c, i, p) && g == CountVote(c, h, i, p)
    requires Shape(d, g) && RetainsBelow(d, g, p, d.nodes[i].log, d.nodes[i].term)
    ensures Candidates(d, g)
  {
    forall j: nat, v | j < |d.nodes| && d.threads[j].Electing? && j in g.granted && v in g.granted[j]
      ensures RetainsBelow(d, g, v, d.nodes[j].log, d.nodes[j].term)
    {
      if j != i || v != p { StillCandidates(c, h, d, g, j, v); }
    }
  }

  lemma GrantOffices(c: Cluster, h: History, d: Cluster, g: History, i: nat, p: nat)
    requires Shape(c, h) && Ballots(c, h) && Elected(c, h) && Roles(c, h) && MayGrant(c, i, p)
    requires i in h.granted && d == Granted(c, i, p) && g == CountVote(c, h, i, p)
    ensures Shape(d, g) && Ballots(d, g) && Elected(d, g) && Roles(d, g)
    ensures Untouched(c, h, d, g) && Later(c, h, d, g)
  {
    hide CountsBallots, BallotsOf, Later, Ids, Ballots, MatchOf, Untouched, Majority, VoteRequest, Grows, LastTerm,
      Ack;
    assert CountsBallots(c, h, i);
    GrantBallots(c, h, d, g, i, p);
    GrantRoles(c, h, d, g, i, p);
    KeepElected(c, h, d, g);
  }

  lemma GrantKeeps(c: Cluster, h: History, i: nat, p: nat)
    requires Inv(c, h) && MayGrant(c, i, p)
    ensures i in h.granted && Inv(Granted(c, i, p), CountVote(c, h, i, p))
    ensures Later(c, h, Granted(c, i, p), CountVote(c, h, i, p))
  {
    assert CountsBallots(c, h, i);
    var d, g := Granted(c, i, p), CountVote(c, h, i, p);
    GrantOffices(c, h, d, g, i, p);
    Quiet(c, h, d, g);
    GrantElections(c, h, d, g, i, p);
  }

  lemma GrantElections(c: Cluster, h: History, d: Cluster, g: History, i: nat, p: nat)
    requires Shape(c, h) && Logs(c, h) && Complete(c, h) && Retention(c, h) && Candidates(c, h) && MayGrant(c, i, p)
    requires i in h.granted && d == Granted(c, i, p) && g == CountVote(c, h, i, p) && Grows(c, h, d, g) && Shape(d, g)
    ensures Candidates(d, g)
  {
    assert Retains(c, h, p, c.nodes[p].log);
    GrantedVoter(c, h, d, g, i, p);
    GrantCandidates(c, h, d, g, i, p);
  }
}
