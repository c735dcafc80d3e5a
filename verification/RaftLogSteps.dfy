/**
 The steps that extend, cut or replace logs, hand out acknowledgements and
 raise commit indices, each with the proof that it keeps the invariant.
*/
module RaftLogSteps {
  import opened RaftProtocol
  import opened RaftCluster
  import opened RaftInvariant
  import opened RaftSteps

  // ---------- taking office ----------

  ghost function Elect(c: Cluster, h: History, i: nat): History
    requires i < |c.nodes| && i in h.granted
  {
    var t := c.nodes[i].term;
    h.(leader := h.leader[t := i], logOf := h.logOf[t := c.nodes[i].log], voters := h.voters[t := h.granted[i]],
       ack := h.ack[(t, i) := |c.nodes[i].log|])
  }

  ghost predicate MayLead(c: Cluster, h: History, i: nat)
  {
    && Shape(c, h) && i < |c.nodes| && c.threads[i].Electing? && c.nodes[i].role == Candidate
    && CountsBallots(c, h, i) && |h.granted[i]| > |c.nodes| / 2
  }

  /** Two majorities of one term's ballots share a voter, and a voter votes once:
      the term has no leader yet. */
  lemma OfficeIsVacant(c: Cluster, h: History, i: nat)
    requires Ballots(c, h) && MayLead(c, h, i) && Elected(c, h)
    ensures Majority(h.granted[i], |c.nodes|)
    ensures c.nodes[i].term !in h.leader
  {
    assert h.granted[i] <= Ids(|c.nodes|);
    var t := c.nodes[i].term;
    if t in h.leader {
      var x := MajoritiesMeet(h.granted[i], h.voters[t], |c.nodes|);
    }
  }

  lemma ElectAckGrows(c: Cluster, h: History, g: History, i: nat)
    requires Acks(c, h) && i < |c.nodes| && i in h.granted && c.nodes[i].term !in h.logOf && g == Elect(c, h, i)
    ensures forall t, n :: Ack(h, t, n) <= Ack(g, t, n)
    ensures forall t, n: nat :: n < |c.nodes| && c.nodes[n].term > t ==> Ack(h, t, n) == Ack(g, t, n)
  {
    var T := c.nodes[i].term;
    forall t: nat, n: nat ensures Ack(h, t, n) <= Ack(g, t, n) && ((t, n) != (T, i) ==> Ack(h, t, n) == Ack(g, t, n)) {
    }
  }

  lemma ElectGrows(c: Cluster, h: History, d: Cluster, g: History, i: nat)
    requires MayLead(c, h, i) && Acks(c, h) && c.nodes[i].term !in h.logOf
    requires d == Set(c, i, BecomeLeader(c.nodes[i], |c.nodes|), Sending(0)) && g == Elect(c, h, i)
    ensures Shape(d, g) && Later(c, h, d, g)
  {
    hide Ack, Acks, BallotsOf, Majority, MatchOf;
    ElectShape(c, h, d, g, i);
    ElectAckGrows(c, h, g, i);
  }

  lemma ElectAcks(c: Cluster, h: History, d: Cluster, g: History, i: nat)
    requires Shape(c, h) && Acks(c, h) && Ballots(c, h) && i < |c.nodes| && i in h.granted && c.nodes[i].term !in h.logOf
    requires d == Set(c, i, BecomeLeader(c.nodes[i], |c.nodes|), Sending(0)) && g == Elect(c, h, i)
    ensures Acks(d, g) && Ballots(d, g)
  {
  }

  lemma ElectElected(c: Cluster, h: History, d: Cluster, g: History, i: nat)
    requires MayLead(c, h, i) && Elected(c, h) && c.nodes[i].term !in h.leader && Majority(h.granted[i], |c.nodes|)
    requires d == Set(c, i, BecomeLeader(c.nodes[i], |c.nodes|), Sending(0)) && g == Elect(c, h, i)
    ensures Shape(d, g) && Elected(d, g)
  {
    hide Majority, BallotsOf;
    ElectShape(c, h, d, g, i);
    forall t | t in g.leader
      ensures g.leader[t] < |d.nodes| && Majority(g.voters[t], |d.nodes|) && BallotsOf(g, t, g.leader[t], g.voters[t])
      ensures t <= d.nodes[g.leader[t]].term
      ensures t == d.nodes[g.leader[t]].term ==> d.nodes[g.leader[t]].role == Leader
    {
      if t == c.nodes[i].term {
        NewOffice(c, h, d, g, i);
      } else {
        EarlierOffice(c, h, d, g, i, t);
      }
    }
  }

  lemma ElectShape(c: Cluster, h: History, d: Cluster, g: History, i: nat)
    requires MayLead(c, h, i)
    requires d == Set(c, i, BecomeLeader(c.nodes[i], |c.nodes|), Sending(0)) && g == Elect(c, h, i)
    ensures Shape(d, g)
  {
  }

  lemma NewOffice(c: Cluster, h: History, d: Cluster, g: History, i: nat)
    requires MayLead(c, h, i) && Majority(h.granted[i], |c.nodes|)
    requires d == Set(c, i, BecomeLeader(c.nodes[i], |c.nodes|), Sending(0)) && g == Elect(c, h, i)
    ensures var t := c.nodes[i].term; g.leader[t] == i && i < |d.nodes| && Majority(g.voters[t], |d.nodes|)
    ensures var t := c.nodes[i].term; BallotsOf(g, t, i, g.voters[t]) && t == d.nodes[i].term && d.nodes[i].role == Leader
  {
  }

  lemma EarlierOffice(c: Cluster, h: History, d: Cluster, g: History, i: nat, t: nat)
    requires Shape(c, h) && Elected(c, h) && i < |c.nodes| && i in h.granted && t in h.leader && t != c.nodes[i].term
    requires d == Set(c, i, BecomeLeader(c.nodes[i], |c.nodes|), Sending(0)) && g == Elect(c, h, i)
    ensures g.leader[t] == h.leader[t] && g.voters[t] == h.voters[t] && BallotsOf(g, t, g.leader[t], g.voters[t])
    ensures g.leader[t] < |d.nodes| && Majority(g.voters[t], |d.nodes|) && t <= d.nodes[g.leader[t]].term
    ensures t == d.nodes[g.leader[t]].term ==> d.nodes[g.leader[t]].role == Leader
  {
    assert BallotsOf(h, t, h.leader[t], h.voters[t]);
  }

  lemma ElectCounts(c: Cluster, h: History, d: Cluster, g: History, i: nat, j: nat)
    requires MayLead(c, h, i) && j < |c.nodes| && j != i && c.threads[j].Electing? && CountsBallots(c, h, j)
    requires d == Set(c, i, BecomeLeader(c.nodes[i], |c.nodes|), Sending(0)) && g == Elect(c, h, i)
    ensures Shape(d, g) && CountsBallots(d, g, j)
  {
    KeepCounts(c, h, d, g, j);
  }

  lemma ElectLeads(c: Cluster, h: History, d: Cluster, g: History, i: nat, j: nat)
    requires MayLead(c, h, i) && c.nodes[i].term !in h.leader
    requires j < |c.nodes| && (j == i || (c.nodes[j].role == Leader && Leads(c, h, j)))
    requires d == Set(c, i, BecomeLeader(c.nodes[i], |c.nodes|), Sending(0)) && g == Elect(c, h, i)
    ensures Shape(d, g) && d.nodes[j].role == Leader && Leads(d, g, j)
  {
    if j != i {
      forall n ensures Ack(h, c.nodes[j].term, n) == Ack(g, c.nodes[j].term, n) {
      }
      KeepLeads(c, h, d, g, j);
    }
  }

  lemma ElectRoles(c: Cluster, h: History, d: Cluster, g: History, i: nat)
    requires MayLead(c, h, i) && Roles(c, h) && c.nodes[i].term !in h.leader
    requires d == Set(c, i, BecomeLeader(c.nodes[i], |c.nodes|), Sending(0)) && g == Elect(c, h, i)
    ensures Shape(d, g) && Roles(d, g)
  {
    forall j: nat | j < |d.nodes| && d.threads[j].Electing? ensures CountsBallots(d, g, j) {
      ElectCounts(c, h, d, g, i, j);
    }
    forall j: nat | j < |d.nodes| && d.nodes[j].role == Leader ensures Leads(d, g, j) {
      ElectLeads(c, h, d, g, i, j);
    }
  }

  lemma ElectLogs(c: Cluster, h: History, d: Cluster, g: History, i: nat)
    requires MayLead(c, h, i) && Logs(c, h) && c.nodes[i].term !in h.logOf
    requires d == Set(c, i, BecomeLeader(c.nodes[i], |c.nodes|), Sending(0)) && g == Elect(c, h, i)
    ensures Logs(d, g)
    ensures forall m :: !Own(g, c.nodes[i].term, m)
  {
    forall j: nat | j < |d.nodes| ensures Traced(g, d.nodes[j].log) && TermsUpTo(d.nodes[j].log, d.nodes[j].term) {
      assert Traced(h, c.nodes[j].log) && TermsUpTo(c.nodes[j].log, c.nodes[j].term);
    }
    forall t | t in g.logOf ensures Traced(g, g.logOf[t]) && TermsUpTo(g.logOf[t], t) {
      if t == c.nodes[i].term {
        assert Traced(h, c.nodes[i].log) && TermsUpTo(c.nodes[i].log, c.nodes[i].term);
      } else {
        assert Traced(h, h.logOf[t]) && TermsUpTo(h.logOf[t], t);
      }
    }
    assert Traced(h, c.nodes[i].log);
  }

  /** The new leader has whatever an earlier leader can still get chosen:
      otherwise all its voters passed that term without holding it. */
  lemma ElectedLogCarries(c: Cluster, h: History, i: nat, t: nat, m: nat)
    requires Ballots(c, h) && MayLead(c, h, i) && Candidates(c, h) && Majority(h.granted[i], |c.nodes|)
    requires t < c.nodes[i].term && Own(h, t, m)
    ensures Carries(c, h, c.nodes[i].log, t, m)
  {
    if n :| n in h.granted[i] && Ack(h, t, n) >= m {
      assert RetainsBelow(c, h, n, c.nodes[i].log, c.nodes[i].term);
    } else {
      assert h.granted[i] <= Passed(c, h, t, m);
      LargerMajority(h.granted[i], Passed(c, h, t, m), |c.nodes|);
    }
  }

  lemma ElectComplete(c: Cluster, h: History, d: Cluster, g: History, i: nat)
    requires Ballots(c, h) && MayLead(c, h, i) && Candidates(c, h) && Majority(h.granted[i], |c.nodes|)
    requires Complete(c, h) && Retention(c, h) && Grows(c, h, d, g) && c.nodes[i].term !in h.logOf
    requires d == Set(c, i, BecomeLeader(c.nodes[i], |c.nodes|), Sending(0)) && g == Elect(c, h, i)
    requires forall m :: !Own(g, c.nodes[i].term, m)
    ensures Complete(d, g) && Retention(d, g)
  {
    var T := c.nodes[i].term;
    forall t: nat, t': nat, m: nat | t < t' && t' in g.logOf && Own(g, t, m) ensures Carries(d, g, g.logOf[t'], t, m) {
      assert t != T && Own(h, t, m);
      if t' == T {
        ElectedLogCarries(c, h, i, t, m);
        StillCarries(c, h, d, g, c.nodes[i].log, g.logOf[t'], t, m);
      } else {
        StillCarries(c, h, d, g, h.logOf[t'], g.logOf[t'], t, m);
      }
    }
    forall n: nat, t: nat, m: nat | n < |d.nodes| && Own(g, t, m) && Ack(g, t, n) >= m
      ensures Carries(d, g, d.nodes[n].log, t, m)
    {
      assert t != T && Own(h, t, m) && Retains(c, h, n, c.nodes[n].log);
      StillCarries(c, h, d, g, c.nodes[n].log, d.nodes[n].log, t, m);
    }
  }

  lemma ElectCandidates(c: Cluster, h: History, d: Cluster, g: History, i: nat)
    requires Shape(c, h) && Candidates(c, h) && Grows(c, h, d, g) && Shape(d, g)
    requires i < |c.nodes| && i in h.granted && c.nodes[i].term !in h.logOf
    requires d == Set(c, i, BecomeLeader(c.nodes[i], |c.nodes|), Sending(0)) && g == Elect(c, h, i)
    requires forall m :: !Own(g, c.nodes[i].term, m)
    ensures Candidates(d, g)
  {
    hide Grows;
    forall j: nat, v, t: nat, m: nat
      | j < |d.nodes| && d.threads[j].Electing? && j in g.granted && v in g.granted[j]
        && t < d.nodes[j].term && Own(g, t, m) && Ack(g, t, v) >= m
      ensures Carries(d, g, d.nodes[j].log, t, m)
    {
      assert t != c.nodes[i].term && Own(h, t, m);
      assert RetainsBelow(c, h, v, c.nodes[j].log, c.nodes[j].term);
      StillCarries(c, h, d, g, c.nodes[j].log, d.nodes[j].log, t, m);
    }
  }

  lemma ElectCommits(c: Cluster, h: History, d: Cluster, g: History, i: nat)
    requires Commits(c, h) && Grows(c, h, d, g) && |c.threads| == |c.nodes|
    requires i < |c.nodes| && i in h.granted
    requires d == Set(c, i, BecomeLeader(c.nodes[i], |c.nodes|), Sending(0)) && g == Elect(c, h, i)
    ensures Commits(d, g)
  {
    forall n: nat | n < |d.nodes| ensures Bookkeeping(d.nodes[n]) && (d.nodes[n].commit >= 0 ==> Certified(d, g, n)) {
      StillCertified(c, h, d, g, n);
    }
  }

  lemma ElectKeeps(c: Cluster, h: History, i: nat)
    requires Inv(c, h) && MayLead(c, h, i)
    ensures Inv(Set(c, i, BecomeLeader(c.nodes[i], |c.nodes|), Sending(0)), Elect(c, h, i))
    ensures Later(c, h, Set(c, i, BecomeLeader(c.nodes[i], |c.nodes|), Sending(0)), Elect(c, h, i))
  {
    var d, g := Set(c, i, BecomeLeader(c.nodes[i], |c.nodes|), Sending(0)), Elect(c, h, i);
    OfficeIsVacant(c, h, i);
    ElectGrows(c, h, d, g, i);
    ElectAcks(c, h, d, g, i);
    ElectElected(c, h, d, g, i);
    ElectRoles(c, h, d, g, i);
    ElectLogs(c, h, d, g, i);
    ElectComplete(c, h, d, g, i);
    ElectCandidates(c, h, d, g, i);
    ElectCommits(c, h, d, g, i);
  }

  // ---------- cutting a conflicting tail ----------

  /** A node's committed entries are in the log of every leader of its term or a later one. */
  lemma CommittedIsInLeader(c: Cluster, h: History, n: nat, t: nat)
    requires Complete(c, h) && Commits(c, h) && n < |c.nodes| && t in h.logOf && c.nodes[n].term <= t
    ensures 0 <= c.nodes[n].commit + 1 <= |c.nodes[n].log|
    ensures c.nodes[n].log[..c.nodes[n].commit + 1] <= h.logOf[t]
  {
    hide Dead;
    if c.nodes[n].commit >= 0 {
      assert Certified(c, h, n);
      var (u, m) := h.cert[n];
      ChosenIsNotDead(c, h, u, m);
      assert u < t ==> Carries(c, h, h.logOf[t], u, m);
    }
  }

  ghost predicate Follows(c: Cluster, h: History, p: nat) {
    && Shape(c, h) && p < |c.nodes| && c.threads[p] == Idle && c.nodes[p].role != Leader
    && c.nodes[p].term in h.logOf
  }

  function WithLog(c: Cluster, p: nat, log: seq<Entry>): Cluster
    requires p < |c.nodes|
  {
    c.(nodes := c.nodes[p := c.nodes[p].(log := log)])
  }

  /** `log` still has everything on which the old log and the leader's log agree. */
  ghost predicate KeepsAgreement(before: seq<Entry>, leader: seq<Entry>, log: seq<Entry>) {
    forall m: nat :: m <= |before| && m <= |leader| && before[..m] == leader[..m] ==>
      m <= |log| && log[..m] == before[..m]
  }

  lemma AgreementKept(before: seq<Entry>, leader: seq<Entry>, log: seq<Entry>, part: seq<Entry>)
    requires KeepsAgreement(before, leader, log) && part <= before && part <= leader
    ensures part <= log
  {
    assert before[..|part|] == part == leader[..|part|];
  }

  /** The step replaces the log of follower `p` and may record what it now holds. */
  ghost predicate Relogs(c: Cluster, h: History, d: Cluster, g: History, p: nat, log: seq<Entry>) {
    && Follows(c, h, p) && d == WithLog(c, p, log)
    && g.leader == h.leader && g.voters == h.voters && g.vote == h.vote && g.granted == h.granted
    && g.logOf == h.logOf && g.cert == h.cert
    && (forall t, n :: Ack(h, t, n) <= Ack(g, t, n))
    && (forall t: nat, n: nat :: (t, n) != (c.nodes[p].term, p) ==> Ack(h, t, n) == Ack(g, t, n))
  }

  lemma RelogGrows(c: Cluster, h: History, d: Cluster, g: History, p: nat, log: seq<Entry>)
    requires Relogs(c, h, d, g, p, log)
    ensures Shape(d, g) && Later(c, h, d, g) && VotesGrow(h, g)
    ensures Ballots(c, h) ==> Ballots(d, g)
  {
  }

  lemma RelogLeads(c: Cluster, h: History, d: Cluster, g: History, p: nat, log: seq<Entry>, j: nat)
    requires Relogs(c, h, d, g, p, log) && j < |c.nodes| && c.nodes[j].role == Leader && Leads(c, h, j)
    ensures Shape(d, g) && d.nodes[j].role == Leader && Leads(d, g, j)
  {
    KeepLeads(c, h, d, g, j);
  }

  lemma RelogRoles(c: Cluster, h: History, d: Cluster, g: History, p: nat, log: seq<Entry>)
    requires Relogs(c, h, d, g, p, log) && Roles(c, h)
    ensures Shape(d, g) && Roles(d, g)
  {
    forall j: nat | j < |d.nodes| && d.threads[j].Electing? ensures CountsBallots(d, g, j) {
      KeepCounts(c, h, d, g, j);
    }
    forall j: nat | j < |d.nodes| && d.nodes[j].role == Leader ensures Leads(d, g, j) {
      RelogLeads(c, h, d, g, p, log, j);
    }
  }

  lemma RelogElected(c: Cluster, h: History, d: Cluster, g: History, p: nat, log: seq<Entry>)
    requires Relogs(c, h, d, g, p, log) && Elected(c, h)
    ensures Shape(d, g) && Elected(d, g)
  {
    hide Majority;
    KeepElected(c, h, d, g);
  }

  lemma RelogLogs(c: Cluster, h: History, d: Cluster, g: History, p: nat, log: seq<Entry>)
    requires Relogs(c, h, d, g, p, log) && Logs(c, h)
    requires Traced(h, log) && TermsUpTo(log, c.nodes[p].term)
    ensures Logs(d, g)
  {
    forall i: nat | i < |d.nodes| ensures Traced(g, d.nodes[i].log) && TermsUpTo(d.nodes[i].log, d.nodes[i].term) {
      assert Traced(h, c.nodes[i].log) && TermsUpTo(c.nodes[i].log, c.nodes[i].term);
    }
    forall t | t in g.logOf ensures Traced(g, g.logOf[t]) && TermsUpTo(g.logOf[t], t) {
      assert Traced(h, h.logOf[t]) && TermsUpTo(h.logOf[t], t);
    }
  }

  lemma RelogCommits(c: Cluster, h: History, d: Cluster, g: History, p: nat, log: seq<Entry>)
    requires Relogs(c, h, d, g, p, log) && Complete(c, h) && Commits(c, h) && Grows(c, h, d, g)
    requires KeepsAgreement(c.nodes[p].log, h.logOf[c.nodes[p].term], log)
    ensures Commits(d, g)
  {
    CommittedIsInLeader(c, h, p, c.nodes[p].term);
    AgreementKept(c.nodes[p].log, h.logOf[c.nodes[p].term], log, c.nodes[p].log[..c.nodes[p].commit + 1]);
    forall n: nat | n < |d.nodes| ensures Bookkeeping(d.nodes[n]) && (d.nodes[n].commit >= 0 ==> Certified(d, g, n)) {
      StillCertified(c, h, d, g, n);
    }
  }

  /** The current leader has what the follower held, as far as it is not dead. */
  lemma HeldIsInLeader(c: Cluster, h: History, p: nat, t: nat, m: nat)
    requires Follows(c, h, p) && Acks(c, h) && Complete(c, h) && Own(h, t, m) && Ack(h, t, p) >= m
    ensures Carries(c, h, h.logOf[c.nodes[p].term], t, m)
  {
    assert (t, p) in h.ack;
  }

  lemma RelogRetains(c: Cluster, h: History, d: Cluster, g: History, p: nat, log: seq<Entry>, t: nat, m: nat)
    requires Relogs(c, h, d, g, p, log) && Grows(c, h, d, g) && Acks(c, h) && Complete(c, h)
    requires Retains(c, h, p, c.nodes[p].log) && Own(h, t, m) && Ack(h, t, p) >= m
    requires KeepsAgreement(c.nodes[p].log, h.logOf[c.nodes[p].term], log)
    ensures Carries(d, g, log, t, m)
  {
    HeldIsInLeader(c, h, p, t, m);
    StableParts(c, h, d, g, t, m);
    if !Dead(c, h, t, m) {
      AgreementKept(c.nodes[p].log, h.logOf[c.nodes[p].term], log, Part(h, t, m));
    }
  }

  lemma RelogRetention(c: Cluster, h: History, d: Cluster, g: History, p: nat, log: seq<Entry>)
    requires Relogs(c, h, d, g, p, log) && Grows(c, h, d, g) && Acks(c, h) && Retention(c, h) && Complete(c, h)
    requires KeepsAgreement(c.nodes[p].log, h.logOf[c.nodes[p].term], log)
    requires g.ack != h.ack ==> h.logOf[c.nodes[p].term] <= log
    ensures Retention(d, g)
  {
    forall n: nat, t: nat, m: nat | n < |d.nodes| && Own(g, t, m) && Ack(g, t, n) >= m
      ensures Carries(d, g, d.nodes[n].log, t, m)
    {
      assert Own(h, t, m) && Retains(c, h, n, c.nodes[n].log);
      if Ack(h, t, n) >= m {
        if n == p {
          RelogRetains(c, h, d, g, p, log, t, m);
        } else {
          StillCarries(c, h, d, g, c.nodes[n].log, d.nodes[n].log, t, m);
        }
      }
    }
  }

  lemma RelogComplete(c: Cluster, h: History, d: Cluster, g: History, p: nat, log: seq<Entry>)
    requires Relogs(c, h, d, g, p, log) && Grows(c, h, d, g) && Complete(c, h)
    ensures Complete(d, g)
  {
    forall t: nat, t': nat, m: nat | t < t' && t' in g.logOf && Own(g, t, m) ensures Carries(d, g, g.logOf[t'], t, m) {
      assert Own(h, t, m);
      StillCarries(c, h, d, g, h.logOf[t'], h.logOf[t'], t, m);
    }
  }

  lemma RelogCandidates(c: Cluster, h: History, d: Cluster, g: History, p: nat, log: seq<Entry>)
    requires Relogs(c, h, d, g, p, log) && Grows(c, h, d, g) && Ballots(c, h) && Candidates(c, h) && Shape(d, g)
    requires Roles(c, h)
    ensures Candidates(d, g)
  {
    hide Grows, Carries, Ack, Part;
    forall j: nat, v, t: nat, m: nat
      | j < |d.nodes| && d.threads[j].Electing? && j in g.granted && v in g.granted[j]
        && t < d.nodes[j].term && Own(g, t, m) && Ack(g, t, v) >= m
      ensures Carries(d, g, d.nodes[j].log, t, m)
    {
      assert Own(h, t, m) && RetainsBelow(c, h, v, c.nodes[j].log, c.nodes[j].term);
      assert CountsBallots(c, h, j);
      assert (c.nodes[j].term, v) in h.vote && c.nodes[v].term > t;
      StillCarries(c, h, d, g, c.nodes[j].log, d.nodes[j].log, t, m);
    }
  }

  lemma RelogKeeps(c: Cluster, h: History, d: Cluster, g: History, p: nat, log: seq<Entry>)
    requires Inv(c, h) && Relogs(c, h, d, g, p, log) && Acks(d, g)
    requires Traced(h, log) && TermsUpTo(log, c.nodes[p].term)
    requires KeepsAgreement(c.nodes[p].log, h.logOf[c.nodes[p].term], log)
    requires g.ack != h.ack ==> h.logOf[c.nodes[p].term] <= log
    ensures Inv(d, g) && Later(c, h, d, g)
  {
    RelogGrows(c, h, d, g, p, log);
    RelogElected(c, h, d, g, p, log);
    RelogRoles(c, h, d, g, p, log);
    RelogLogs(c, h, d, g, p, log);
    RelogRetention(c, h, d, g, p, log);
    RelogComplete(c, h, d, g, p, log);
    RelogCandidates(c, h, d, g, p, log);
    RelogCommits(c, h, d, g, p, log);
  }

  lemma CutTraced(h: History, log: seq<Entry>, at: nat)
    requires Traced(h, log) && at <= |log|
    ensures Traced(h, log[..at])
  {
    forall k | 0 <= k < at
      ensures log[..at][k].term in h.logOf && k < |h.logOf[log[..at][k].term]|
      ensures log[..at][..k + 1] == h.logOf[log[..at][k].term][..k + 1]
    {
      assert log[..at][k] == log[k];
      assert log[..at][..k + 1] == log[..k + 1];
    }
  }

  lemma CutAgrees(before: seq<Entry>, leader: seq<Entry>, at: nat)
    requires at < |before| && at < |leader| && before[at] != leader[at]
    ensures KeepsAgreement(before, leader, before[..at])
  {
    forall m: nat | m <= |before| && m <= |leader|
      ensures before[..m] == leader[..m] ==> m <= at
      ensures m <= at ==> before[..at][..m] == before[..m]
    {
      if m > at { assert before[..m][at] == before[at] && leader[..m][at] == leader[at]; }
    }
  }

  lemma CutRelogs(c: Cluster, h: History, p: nat, at: nat)
    requires Follows(c, h, p) && Logs(c, h) && Acks(c, h) && at <= |c.nodes[p].log|
    ensures var log := c.nodes[p].log[..at];
      Relogs(c, h, WithLog(c, p, log), h, p, log) && Acks(WithLog(c, p, log), h)
      && Traced(h, log) && TermsUpTo(log, c.nodes[p].term)
  {
    CutTraced(h, c.nodes[p].log, at);
  }

  lemma CutKeeps(c: Cluster, h: History, p: nat, at: nat)
    requires Inv(c, h) && Follows(c, h, p)
    requires at < |c.nodes[p].log| && at < |h.logOf[c.nodes[p].term]|
    requires c.nodes[p].log[at] != h.logOf[c.nodes[p].term][at]
    ensures Inv(WithLog(c, p, c.nodes[p].log[..at]), h) && Later(c, h, WithLog(c, p, c.nodes[p].log[..at]), h)
  {
    var log := c.nodes[p].log[..at];
    CutRelogs(c, h, p, at);
    CutAgrees(c.nodes[p].log, h.logOf[c.nodes[p].term], at);
    RelogKeeps(c, h, WithLog(c, p, log), h, p, log);
  }

  // ---------- adopting the leader's log ----------

  function Adopted(mine: seq<Entry>, leader: seq<Entry>): seq<Entry> {
    if leader <= mine then mine else leader
  }

  ghost function RecordAck(c: Cluster, h: History, p: nat): History
    requires Follows(c, h, p)
  {
    h.(ack := h.ack[(c.nodes[p].term, p) := |h.logOf[c.nodes[p].term]|])
  }

  lemma AdoptRelogs(c: Cluster, h: History, p: nat)
    requires Follows(c, h, p) && Logs(c, h) && Acks(c, h)
    ensures var log := Adopted(c.nodes[p].log, h.logOf[c.nodes[p].term]);
      var d, g := WithLog(c, p, log), RecordAck(c, h, p);
      Relogs(c, h, d, g, p, log) && Acks(d, g)
      && Traced(h, log) && TermsUpTo(log, c.nodes[p].term)
  {
    var t := c.nodes[p].term;
    assert Traced(h, h.logOf[t]) && TermsUpTo(h.logOf[t], t);
    assert Traced(h, c.nodes[p].log) && TermsUpTo(c.nodes[p].log, t);
  }

  lemma AdoptKeeps(c: Cluster, h: History, p: nat)
    requires Inv(c, h) && Follows(c, h, p)
    ensures var d, g := WithLog(c, p, Adopted(c.nodes[p].log, h.logOf[c.nodes[p].term])), RecordAck(c, h, p);
      Inv(d, g) && Later(c, h, d, g)
  {
    var log := Adopted(c.nodes[p].log, h.logOf[c.nodes[p].term]);
    AdoptRelogs(c, h, p);
    RelogKeeps(c, h, WithLog(c, p, log), RecordAck(c, h, p), p, log);
  }

  /** Merging a leader's suffix at a position where both logs agree gives the
      leader's whole log, or leaves a log that already extends it. */
  lemma {:induction false} MergeAdopts(h: History, mine: seq<Entry>, leader: seq<Entry>, at: nat)
    requires Traced(h, mine) && Traced(h, leader) && at <= |leader| && at <= |mine|
    requires mine[..at] == leader[..at]
    ensures Merge(mine, at, leader[at..]) == Adopted(mine, leader)
    decreases |leader| - at
  {
    if at == |leader| {
      assert leader == leader[..at];
    } else if at < |mine| && mine[at].term == leader[at].term {
      assert mine[..at + 1] == leader[..at + 1];
      assert leader[at..][1..] == leader[at + 1..];
      MergeAdopts(h, mine, leader, at + 1);
    } else {
      assert mine[..at] + leader[at..] == leader;
      assert at < |mine| ==> leader[at] != mine[at];
    }
  }

  /** Entries of one index and term agree, and so does everything before them. */
  lemma TracedAgree(h: History, a: seq<Entry>, b: seq<Entry>, k: nat)
    requires Traced(h, a) && Traced(h, b) && k < |a| && k < |b| && a[k].term == b[k].term
    ensures a[..k + 1] == b[..k + 1]
  {
  }

  // ---------- raising a commit index ----------

  function CommitTo(c: Cluster, n: nat, k: nat): Cluster
    requires n < |c.nodes| && -1 <= c.nodes[n].lastApplied && k < |c.nodes[n].log|
  {
    c.(nodes := c.nodes[n := Apply(c.nodes[n].(commit := k))])
  }

  ghost predicate MayCommit(c: Cluster, h: History, n: nat, k: nat, t: nat, m: nat) {
    && Shape(c, h) && n < |c.nodes| && Bookkeeping(c.nodes[n]) && c.nodes[n].commit < k < |c.nodes[n].log|
    && Own(h, t, m) && t <= c.nodes[n].term && Chosen(c, h, t, m)
    && k < m && c.nodes[n].log[..k + 1] <= Part(h, t, m)
  }

  lemma CommitUntouched(c: Cluster, h: History, d: Cluster, g: History, n: nat, k: nat, t: nat, m: nat)
    requires MayCommit(c, h, n, k, t, m) && d == CommitTo(c, n, k) && g == h.(cert := h.cert[n := (t, m)])
    ensures Shape(d, g) && Later(c, h, d, g) && VotesGrow(h, g) && SameElections(c, h, d, g)
    ensures Ballots(c, h) ==> Ballots(d, g)
  {
    hide Chosen;
  }

  lemma CommitLogs(c: Cluster, h: History, d: Cluster, g: History, n: nat, k: nat, t: nat, m: nat)
    requires MayCommit(c, h, n, k, t, m) && d == CommitTo(c, n, k) && g == h.(cert := h.cert[n := (t, m)])
    requires Logs(c, h) && Elected(c, h) && Shape(d, g)
    ensures Logs(d, g) && Elected(d, g)
  {
    hide Shape;
    QuietLogs(c, h, d, g);
    KeepElected(c, h, d, g);
  }

  lemma CommitCarries(c: Cluster, h: History, d: Cluster, g: History, n: nat, k: nat, t: nat, m: nat)
    requires MayCommit(c, h, n, k, t, m) && d == CommitTo(c, n, k) && g == h.(cert := h.cert[n := (t, m)])
    requires Acks(c, h) && Retention(c, h) && Complete(c, h) && Grows(c, h, d, g)
    ensures Acks(d, g) && Retention(d, g) && Complete(d, g)
  {
    QuietStep(c, h, d, g);
  }

  lemma CommitRoles(c: Cluster, h: History, d: Cluster, g: History, n: nat, k: nat, t: nat, m: nat)
    requires MayCommit(c, h, n, k, t, m) && d == CommitTo(c, n, k) && g == h.(cert := h.cert[n := (t, m)])
    requires Roles(c, h)
    ensures Shape(d, g) && Roles(d, g)
  {
    hide Chosen, Majority, Holding, Own, Commands, BallotsOf, Bookkeeping, Part;
    forall j: nat | j < |d.nodes| && d.threads[j].Electing? ensures CountsBallots(d, g, j) {
      KeepCounts(c, h, d, g, j);
    }
    forall j: nat | j < |d.nodes| && d.nodes[j].role == Leader ensures Leads(d, g, j) {
      assert Leads(c, h, j);
    }
  }

  lemma CommandsSplit(log: seq<Entry>, a: nat, b: nat)
    requires a <= b <= |log|
    ensures Commands(log[..a]) + Commands(log[a..b]) == Commands(log[..b])
  {
  }

  lemma CommitApplies(n: Node, k: nat)
    requires Bookkeeping(n) && n.commit < k < |n.log|
    ensures Bookkeeping(Apply(n.(commit := k)))
  {
    CommandsSplit(n.log, n.commit + 1, k + 1);
  }

  lemma CommitCertifiesNode(c: Cluster, h: History, d: Cluster, g: History, n: nat, k: nat, t: nat, m: nat)
    requires MayCommit(c, h, n, k, t, m) && d == CommitTo(c, n, k) && g == h.(cert := h.cert[n := (t, m)])
    requires Grows(c, h, d, g)
    ensures Bookkeeping(d.nodes[n]) && Certified(d, g, n)
  {
    hide Grows, Majority;
    StableParts(c, h, d, g, t, m);
    CommitApplies(c.nodes[n], k);
  }

  lemma CommitCertifies(c: Cluster, h: History, d: Cluster, g: History, n: nat, k: nat, t: nat, m: nat)
    requires MayCommit(c, h, n, k, t, m) && d == CommitTo(c, n, k) && g == h.(cert := h.cert[n := (t, m)])
    requires Commits(c, h) && Grows(c, h, d, g)
    ensures Commits(d, g)
  {
    CommitCertifiesNode(c, h, d, g, n, k, t, m);
    forall j: nat | j < |d.nodes| ensures Bookkeeping(d.nodes[j]) && (d.nodes[j].commit >= 0 ==> Certified(d, g, j)) {
      if j != n { StillCertified(c, h, d, g, j); }
    }
  }

  lemma CommitKeeps(c: Cluster, h: History, n: nat, k: nat, t: nat, m: nat)
    requires Inv(c, h) && MayCommit(c, h, n, k, t, m)
    ensures Inv(CommitTo(c, n, k), h.(cert := h.cert[n := (t, m)]))
    ensures Later(c, h, CommitTo(c, n, k), h.(cert := h.cert[n := (t, m)]))
  {
    var d, g := CommitTo(c, n, k), h.(cert := h.cert[n := (t, m)]);
    CommitUntouched(c, h, d, g, n, k, t, m);
    CommitLogs(c, h, d, g, n, k, t, m);
    CommitRoles(c, h, d, g, n, k, t, m);
    CommitCarries(c, h, d, g, n, k, t, m);
    QuietCandidates(c, h, d, g);
    CommitCertifies(c, h, d, g, n, k, t, m);
  }

  // ---------- a leader's view of its peers ----------

  function WithIndices(c: Cluster, i: nat, nextIndex: map<nat, nat>, matchIndex: map<nat, int>): Cluster
    requires i < |c.nodes|
  {
    c.(nodes := c.nodes[i := c.nodes[i].(nextIndex := nextIndex, matchIndex := matchIndex)])
  }

  lemma IndicesRoles(c: Cluster, h: History, d: Cluster, i: nat, nextIndex: map<nat, nat>, matchIndex: map<nat, int>)
    requires Shape(c, h) && Roles(c, h) && i < |c.nodes| && c.nodes[i].role == Leader
    requires d == WithIndices(c, i, nextIndex, matchIndex) && Leads(d, h, i)
    ensures Shape(d, h) && Roles(d, h)
  {
    forall j: nat | j < |d.nodes| && d.threads[j].Electing? ensures CountsBallots(d, h, j) {
      KeepCounts(c, h, d, h, j);
    }
    forall j: nat | j < |d.nodes| && d.nodes[j].role == Leader ensures Leads(d, h, j) {
      if j != i { KeepLeads(c, h, d, h, j); }
    }
  }

  lemma IndicesElected(c: Cluster, h: History, d: Cluster, i: nat, nextIndex: map<nat, nat>, matchIndex: map<nat, int>)
    requires Shape(c, h) && Ballots(c, h) && Elected(c, h) && i < |c.nodes|
    requires d == WithIndices(c, i, nextIndex, matchIndex)
    ensures Shape(d, h) && Ballots(d, h) && Elected(d, h)
  {
    IndicesBallots(c, h, d, i, nextIndex, matchIndex);
    hide Ballots;
    KeepElected(c, h, d, h) by { hide BallotsOf, Majority; }
  }

  lemma IndicesBallots(c: Cluster, h: History, d: Cluster, i: nat, nextIndex: map<nat, nat>, matchIndex: map<nat, int>)
    requires Ballots(c, h) && i < |c.nodes| && d == WithIndices(c, i, nextIndex, matchIndex)
    ensures Ballots(d, h)
  {
  }

  lemma IndicesUntouched(c: Cluster, h: History, d: Cluster, i: nat, nextIndex: map<nat, nat>, matchIndex: map<nat, int>)
    requires Shape(c, h) && Ballots(c, h) && Elected(c, h) && i < |c.nodes|
    requires d == WithIndices(c, i, nextIndex, matchIndex)
    ensures Shape(d, h) && Ballots(d, h) && Elected(d, h) && Untouched(c, h, d, h) && SameElections(c, h, d, h)
    ensures Later(c, h, d, h)
  {
    hide Ballots, Elected;
    IndicesElected(c, h, d, i, nextIndex, matchIndex);
  }

  lemma IndicesKeep(c: Cluster, h: History, i: nat, nextIndex: map<nat, nat>, matchIndex: map<nat, int>)
    requires Inv(c, h) && i < |c.nodes| && c.nodes[i].role == Leader
    requires Leads(WithIndices(c, i, nextIndex, matchIndex), h, i)
    ensures Inv(WithIndices(c, i, nextIndex, matchIndex), h) && Later(c, h, WithIndices(c, i, nextIndex, matchIndex), h)
  {
    var d := WithIndices(c, i, nextIndex, matchIndex);
    IndicesRoles(c, h, d, i, nextIndex, matchIndex);
    IndicesUntouched(c, h, d, i, nextIndex, matchIndex);
    Quiet(c, h, d, h);
    QuietCandidates(c, h, d, h);
  }

  // ---------- a new command ----------

  ghost function RecordCommand(c: Cluster, h: History, i: nat, command: Command): History
    requires i < |c.nodes|
  {
    var n := c.nodes[i];
    var log := n.log + [Entry(n.term, command)];
    h.(logOf := h.logOf[n.term := log], ack := h.ack[(n.term, i) := |log|])
  }

  ghost predicate Extends(c: Cluster, h: History, d: Cluster, g: History, i: nat, command: Command) {
    && Shape(c, h) && i < |c.nodes| && c.nodes[i].role == Leader && Leads(c, h, i)
    && d == c.(nodes := c.nodes[i := AppendCommand(c.nodes[i], i, command)])
    && g == RecordCommand(c, h, i, command)
  }

  lemma ExtendAck(c: Cluster, h: History, d: Cluster, g: History, i: nat, command: Command)
    requires Extends(c, h, d, g, i, command)
    ensures forall t: nat, n: nat :: Ack(h, t, n) <= Ack(g, t, n)
    ensures forall t: nat, n: nat :: (t, n) != (c.nodes[i].term, i) ==> Ack(h, t, n) == Ack(g, t, n)
  {
  }

  lemma ExtendBallots(c: Cluster, h: History, d: Cluster, g: History, i: nat, command: Command)
    requires Extends(c, h, d, g, i, command)
    ensures Shape(d, g) && VotesGrow(h, g)
    ensures Ballots(c, h) ==> Ballots(d, g)
  {
  }

  lemma ExtendGrows(c: Cluster, h: History, d: Cluster, g: History, i: nat, command: Command)
    requires Extends(c, h, d, g, i, command)
    ensures Shape(d, g) && Later(c, h, d, g) && VotesGrow(h, g)
    ensures Ballots(c, h) ==> Ballots(d, g)
    ensures forall t: nat, n: nat :: (t, n) != (c.nodes[i].term, i) ==> Ack(h, t, n) == Ack(g, t, n)
  {
    hide Ack, Ballots, VotesGrow;
    ExtendAck(c, h, d, g, i, command);
    ExtendBallots(c, h, d, g, i, command);
  }

  lemma ExtendAcks(c: Cluster, h: History, d: Cluster, g: History, i: nat, command: Command)
    requires Extends(c, h, d, g, i, command) && Acks(c, h)
    ensures Acks(d, g)
  {
  }

  lemma ExtendLeads(c: Cluster, h: History, d: Cluster, g: History, i: nat, command: Command, j: nat)
    requires Extends(c, h, d, g, i, command) && j < |c.nodes| && c.nodes[j].role == Leader && Leads(c, h, j)
    requires Shape(d, g) && Grows(c, h, d, g)
    ensures d.nodes[j].role == Leader && Leads(d, g, j)
  {
    hide Shape;
    if j != i { KeepLeads(c, h, d, g, j); }
  }

  lemma ExtendRoles(c: Cluster, h: History, d: Cluster, g: History, i: nat, command: Command)
    requires Extends(c, h, d, g, i, command) && Roles(c, h) && Shape(d, g) && Grows(c, h, d, g) && VotesGrow(h, g)
    ensures Roles(d, g)
  {
    forall j: nat | j < |d.nodes| && d.threads[j].Electing? ensures CountsBallots(d, g, j) {
      KeepCounts(c, h, d, g, j);
    }
    forall j: nat | j < |d.nodes| && d.nodes[j].role == Leader ensures Leads(d, g, j) {
      ExtendLeads(c, h, d, g, i, command, j);
    }
  }

  lemma StillTraced(c: Cluster, h: History, d: Cluster, g: History, log: seq<Entry>)
    requires Grows(c, h, d, g) && Traced(h, log)
    ensures Traced(g, log)
  {
  }

  lemma ExtendTraced(c: Cluster, h: History, d: Cluster, g: History, i: nat, command: Command)
    requires Extends(c, h, d, g, i, command) && Logs(c, h) && Grows(c, h, d, g)
    ensures Traced(g, d.nodes[i].log) && TermsUpTo(d.nodes[i].log, c.nodes[i].term)
  {
    hide Grows;
    var longer := d.nodes[i].log;
    StillTraced(c, h, d, g, c.nodes[i].log);
    assert longer[..|longer| - 1 + 1] == longer;
    forall k | 0 <= k < |longer| - 1 ensures longer[k] == c.nodes[i].log[k] && longer[..k + 1] == c.nodes[i].log[..k + 1] {
    }
  }

  lemma ExtendLogs(c: Cluster, h: History, d: Cluster, g: History, i: nat, command: Command)
    requires Extends(c, h, d, g, i, command) && Logs(c, h) && Grows(c, h, d, g)
    ensures Logs(d, g)
  {
    hide Traced, TermsUpTo, Grows;
    ExtendTraced(c, h, d, g, i, command);
    forall j: nat | j < |d.nodes| ensures Traced(g, d.nodes[j].log) && TermsUpTo(d.nodes[j].log, d.nodes[j].term) {
      if j != i { StillTraced(c, h, d, g, c.nodes[j].log); }
    }
    forall t | t in g.logOf ensures Traced(g, g.logOf[t]) && TermsUpTo(g.logOf[t], t) {
      if t != c.nodes[i].term { StillTraced(c, h, d, g, h.logOf[t]); }
    }
  }

  /** A leader that still writes in a term others have left cannot get it chosen. */
  lemma LateEntryIsDead(c: Cluster, h: History, d: Cluster, g: History, i: nat, command: Command, voters: set<nat>)
    requires Extends(c, h, d, g, i, command) && Acks(c, h) && Majority(voters, |c.nodes|)
    requires forall n :: n in voters ==> n < |c.nodes| && c.nodes[n].term > c.nodes[i].term
    ensures Dead(d, g, c.nodes[i].term, |c.nodes[i].log| + 1)
  {
    var t, m := c.nodes[i].term, |c.nodes[i].log| + 1;
    forall n | n in voters ensures n in Passed(d, g, t, m) {
      assert n != i && Ack(g, t, n) == Ack(h, t, n) < m;
    }
    LargerMajority(voters, Passed(d, g, t, m), |c.nodes|);
  }

  lemma LaterVotersLeft(c: Cluster, h: History, later: nat, t: nat)
    requires Shape(c, h) && Ballots(c, h) && Elected(c, h) && later in h.logOf && later > t
    ensures Majority(h.voters[later], |c.nodes|)
    ensures forall n :: n in h.voters[later] ==> n < |c.nodes| && c.nodes[n].term > t
  {
    forall n | n in h.voters[later] ensures n < |c.nodes| && c.nodes[n].term > t {
      assert (later, n) in h.vote;
    }
  }

  lemma ExtendComplete(c: Cluster, h: History, d: Cluster, g: History, i: nat, command: Command)
    requires Extends(c, h, d, g, i, command) && Ballots(c, h) && Elected(c, h) && Acks(c, h)
    requires Complete(c, h) && Grows(c, h, d, g)
    ensures Complete(d, g)
  {
    hide Elected;
    forall t: nat, t': nat, m: nat | t < t' && t' in g.logOf && Own(g, t, m) ensures Carries(d, g, g.logOf[t'], t, m) {
      if t == c.nodes[i].term && m == |c.nodes[i].log| + 1 {
        LaterVotersLeft(c, h, t', t);
        LateEntryIsDead(c, h, d, g, i, command, h.voters[t']);
      } else {
        assert Own(h, t, m);
        StillCarries(c, h, d, g, h.logOf[t'], g.logOf[t'], t, m);
      }
    }
  }

  lemma ExtendRetention(c: Cluster, h: History, d: Cluster, g: History, i: nat, command: Command)
    requires Extends(c, h, d, g, i, command) && Retention(c, h) && Acks(c, h) && Grows(c, h, d, g)
    ensures Retention(d, g)
  {
    forall n: nat, t: nat, m: nat | n < |d.nodes| && Own(g, t, m) && Ack(g, t, n) >= m
      ensures Carries(d, g, d.nodes[n].log, t, m)
    {
      if t == c.nodes[i].term && n == i {
        assert Part(g, t, m) <= d.nodes[i].log;
      } else {
        assert Ack(h, t, n) >= m && Own(h, t, m) && Retains(c, h, n, c.nodes[n].log);
        StillCarries(c, h, d, g, c.nodes[n].log, d.nodes[n].log, t, m);
      }
    }
  }

  lemma ExtendCandidates(c: Cluster, h: History, d: Cluster, g: History, i: nat, command: Command)
    requires Extends(c, h, d, g, i, command) && Ballots(c, h) && Roles(c, h) && Acks(c, h) && Candidates(c, h)
    requires Shape(d, g) && Grows(c, h, d, g)
    ensures Candidates(d, g)
  {
    hide Carries, Grows, Roles;
    forall j: nat, v, t: nat, m: nat
      | j < |d.nodes| && d.threads[j].Electing? && j in g.granted && v in g.granted[j]
        && t < d.nodes[j].term && Own(g, t, m) && Ack(g, t, v) >= m
      ensures Carries(d, g, d.nodes[j].log, t, m)
    {
      ExtendCandidate(c, h, d, g, i, command, j, v, t, m);
    }
  }

  lemma ExtendCandidate(c: Cluster, h: History, d: Cluster, g: History, i: nat, command: Command, j: nat, v: nat, t: nat, m: nat)
    requires Extends(c, h, d, g, i, command) && Ballots(c, h) && Roles(c, h) && Acks(c, h) && Candidates(c, h)
    requires Grows(c, h, d, g) && j < |d.nodes| && d.threads[j].Electing? && j in g.granted && v in g.granted[j]
    requires t < d.nodes[j].term && Own(g, t, m) && Ack(g, t, v) >= m
    ensures Carries(d, g, d.nodes[j].log, t, m)
  {
    hide Carries;
    assert CountsBallots(c, h, j);
    assert (c.nodes[j].term, v) in h.vote && c.nodes[v].term > t;
    assert Ack(h, t, v) >= m && Own(h, t, m) && RetainsBelow(c, h, v, c.nodes[j].log, c.nodes[j].term);
    StillCarries(c, h, d, g, c.nodes[j].log, d.nodes[j].log, t, m);
  }

  lemma ExtendCommits(c: Cluster, h: History, d: Cluster, g: History, i: nat, command: Command)
    requires Extends(c, h, d, g, i, command) && Commits(c, h) && Grows(c, h, d, g)
    ensures Commits(d, g)
  {
    forall n: nat | n < |d.nodes| ensures Bookkeeping(d.nodes[n]) && (d.nodes[n].commit >= 0 ==> Certified(d, g, n)) {
      StillCertified(c, h, d, g, n);
    }
  }

  lemma ExtendOffices(c: Cluster, h: History, d: Cluster, g: History, i: nat, command: Command)
    requires Extends(c, h, d, g, i, command) && Ballots(c, h) && Elected(c, h) && Roles(c, h) && Acks(c, h)
    ensures Shape(d, g) && Ballots(d, g) && Elected(d, g) && Roles(d, g) && Acks(d, g)
    ensures Later(c, h, d, g)
  {
    hide Ack, Ballots, Leads, Acks, Grows;
    ExtendGrows(c, h, d, g, i, command);
    ExtendAcks(c, h, d, g, i, command);
    KeepElected(c, h, d, g);
    ExtendRoles(c, h, d, g, i, command);
  }

  lemma ExtendKeeps(c: Cluster, h: History, d: Cluster, g: History, i: nat, command: Command)
    requires Inv(c, h) && Extends(c, h, d, g, i, command)
    ensures Inv(d, g) && Later(c, h, d, g)
  {
    ExtendOffices(c, h, d, g, i, command);
    ExtendLogs(c, h, d, g, i, command);
    ExtendComplete(c, h, d, g, i, command);
    ExtendRetention(c, h, d, g, i, command);
    ExtendCandidates(c, h, d, g, i, command);
    ExtendCommits(c, h, d, g, i, command);
  }
}
