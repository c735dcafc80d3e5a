/**
 How a leader repairs a peer's log: every refused append moves the next index
 back by one, until the logs agree just before it; the append made there is
 accepted and leaves the peer with the whole of the leader's log.
*/
module RaftRepair {
  import opened RaftProtocol

  /** The peer holds the leader's entry just before position k. */
  predicate Agrees(mine: seq<Entry>, theirs: seq<Entry>, k: nat)
    requires k <= |mine|
  {
    k == 0 || (k <= |theirs| && theirs[k - 1].term == mine[k - 1].term)
  }

  /** The last position up to `next` at which the logs agree. */
  function MeetingPoint(mine: seq<Entry>, theirs: seq<Entry>, next: nat): (k: nat)
    requires next <= |mine|
    ensures k <= next && Agrees(mine, theirs, k)
    ensures forall j: nat :: k < j <= next ==> !Agrees(mine, theirs, j)
  {
    if Agrees(mine, theirs, next) then next else MeetingPoint(mine, theirs, next - 1)
  }

  /** Entries of one term at one index are preceded by the same entries. */
  ghost predicate Matching(a: seq<Entry>, b: seq<Entry>) {
    forall k :: 0 <= k < |a| && k < |b| && a[k].term == b[k].term ==> a[..k + 1] == b[..k + 1]
  }

  /** The leader's log, or the peer's when that has more. */
  function Longer(mine: seq<Entry>, theirs: seq<Entry>): seq<Entry> {
    if mine <= theirs then theirs else mine
  }

  // ---------- merging ----------

  /** Merging the entries from a position of agreement on, the peer keeps its log
      if that extends the leader's, and has the leader's otherwise. */
  lemma {:induction false} MergeRepairs(mine: seq<Entry>, theirs: seq<Entry>, k: nat)
    requires k <= |mine| && Agrees(mine, theirs, k) && Matching(mine, theirs)
    ensures k <= |theirs| && Merge(theirs, k, mine[k..]) == Longer(mine, theirs)
    decreases |mine| - k
  {
    assert mine[..k] == theirs[..k] by { if k > 0 { assert mine[..k - 1 + 1] == theirs[..k - 1 + 1]; } }
    if k < |mine| {
      assert mine[k..][1..] == mine[k + 1..];
      if k < |theirs| && theirs[k].term == mine[k].term {
        MergeRepairs(mine, theirs, k + 1);
      } else {
        assert theirs[..k] + mine[k..] == mine;
      }
    }
  }

  lemma {:induction false} MergeAgrees(mine: seq<Entry>, theirs: seq<Entry>, k: nat)
    requires k <= |mine| && Agrees(mine, theirs, k)
    ensures k <= |theirs| && Agrees(mine, Merge(theirs, k, mine[k..]), |mine|)
    decreases |mine| - k
  {
    if k < |mine| {
      assert mine[k..][1..] == mine[k + 1..];
      if k < |theirs| && theirs[k].term == mine[k].term {
        MergeAgrees(mine, theirs, k + 1);
      } else {
        assert (theirs[..k] + mine[k..])[|mine| - 1] == mine[|mine| - 1];
      }
    }
  }

  // ---------- one exchange ----------

  /** What a leader knows of a peer, and what the peer holds. */
  datatype Link = Link(next: nat, match_: int, log: seq<Entry>)

  function LinkOf(nodes: seq<Node>, i: nat, p: nat): Link
    requires i < |nodes| && p < |nodes| && p in nodes[i].nextIndex
  {
    Link(nodes[i].nextIndex[p], MatchOf(nodes[i], p), nodes[p].log)
  }

  function Cut(log: seq<Entry>, at: nat): (r: seq<Entry>)
    ensures r <= log
  {
    if at < |log| then log[..at] else log
  }

  /** A refusal moves back by one, and cuts a conflicting log. */
  function Step(mine: seq<Entry>, l: Link): Link
    requires l.next <= |mine|
  {
    if Agrees(mine, l.log, l.next) then Link(|mine|, |mine| - 1, Merge(l.log, l.next, mine[l.next..]))
    else Link(l.next - 1, l.match_, Cut(l.log, l.next - 1))
  }

  /** The commit index that an accepted append leaves. */
  function CommitAfter(leaderCommit: int, commit: int, log: seq<Entry>): int {
    if leaderCommit > commit then Min(leaderCommit, |log| - 1) else commit
  }

  /** The peer's side of one append to a peer whose term is not newer. */
  lemma Answer(n: Node, i: nat, p: nat, m: Node)
    requires p in n.nextIndex && n.nextIndex[p] <= |n.log| && -1 <= m.lastApplied && m.term <= n.term
    ensures var (after, reply) := HandleAppend(m, AppendRequest(n, i, p));
      var l := Step(n.log, Link(n.nextIndex[p], MatchOf(n, p), m.log));
      && reply == AppendReply(n.term, Agrees(n.log, m.log, n.nextIndex[p]))
      && after.term == n.term && after.log == l.log && -1 <= after.lastApplied
      && after.commit == if reply.success then CommitAfter(n.commit, m.commit, after.log) else m.commit
  {
    var a := AppendRequest(n, i, p);
    var o := Observe(m, n.term);
    assert o.term == n.term && o.log == m.log && o.lastApplied == m.lastApplied && o.commit == m.commit;
  }

  /** Only what is known of peers changes, and only of p. */
  ghost predicate KnowsOf(before: Node, after: Node, p: nat) {
    && after == before.(nextIndex := after.nextIndex, matchIndex := after.matchIndex)
    && (forall q: nat :: q != p ==>
          (q in after.nextIndex <==> q in before.nextIndex)
          && (q in before.nextIndex ==> after.nextIndex[q] == before.nextIndex[q])
          && MatchOf(after, q) == MatchOf(before, q))
  }

  /** One exchange with a peer whose term is not newer. */
  lemma Exchange(nodes: seq<Node>, i: nat, p: nat)
    requires CanSend(nodes, i, p) && nodes[p].term <= nodes[i].term
    ensures var (after, stopped) := SendAppend(nodes, i, p);
      && !stopped && after == nodes[i := after[i]][p := after[p]]
      && after[p] == HandleAppend(nodes[p], AppendRequest(nodes[i], i, p)).0 && after[p].term == nodes[i].term
      && KnowsOf(nodes[i], after[i], p) && CanSend(after, i, p)
      && LinkOf(after, i, p) == Step(nodes[i].log, LinkOf(nodes, i, p))
  {
    Answer(nodes[i], i, p, nodes[p]);
  }

  lemma ExchangeLink(nodes: seq<Node>, i: nat, p: nat)
    requires CanSend(nodes, i, p) && nodes[p].term <= nodes[i].term
    ensures var after := SendAppend(nodes, i, p).0;
      p in after[i].nextIndex && LinkOf(after, i, p) == Step(nodes[i].log, LinkOf(nodes, i, p))
  {
    Exchange(nodes, i, p);
  }

  // ---------- exchanges until the peer is repaired ----------

  function Steps(mine: seq<Entry>, l: Link, k: nat): (r: Link)
    requires l.next <= |mine|
    ensures r.next <= |mine|
  {
    if k == 0 then l else Step(mine, Steps(mine, l, k - 1))
  }

  /** Cutting the log does not move agreement up to there. */
  lemma CutMeets(mine: seq<Entry>, theirs: seq<Entry>, next: nat)
    requires next <= |mine|
    ensures MeetingPoint(mine, Cut(theirs, next), next) == MeetingPoint(mine, theirs, next)
  {
    forall j: nat | j <= next ensures Agrees(mine, Cut(theirs, next), j) <==> Agrees(mine, theirs, j) {
    }
  }

  /** The log after k refusals, the last of them at position `at`. */
  function Refused(log: seq<Entry>, at: nat, k: nat): (r: seq<Entry>)
    ensures r <= log
  {
    if k == 0 then log else Cut(log, at)
  }

  /** Before the meeting point is reached every step is a refusal, and conflicting entries go. */
  lemma {:induction false} Refusals(mine: seq<Entry>, l: Link, k: nat)
    requires l.next <= |mine| && k <= l.next - MeetingPoint(mine, l.log, l.next)
    ensures var r := Steps(mine, l, k);
      && r == Link(l.next - k, l.match_, Refused(l.log, l.next - k, k))
      && MeetingPoint(mine, r.log, r.next) == MeetingPoint(mine, l.log, l.next)
  {
    if k > 0 {
      hide Agrees, Cut;
      Refusals(mine, l, k - 1);
      var r := Steps(mine, l, k - 1);
      Disagree(mine, r.log, r.next);
      CutMeets(mine, r.log, r.next - 1);
      CutAgain(l.log, r.next);
    }
  }

  lemma Disagree(mine: seq<Entry>, theirs: seq<Entry>, next: nat)
    requires 0 < next <= |mine| && MeetingPoint(mine, theirs, next) < next
    ensures !Agrees(mine, theirs, next) && MeetingPoint(mine, theirs, next - 1) == MeetingPoint(mine, theirs, next)
  {
  }

  lemma CutAgain(log: seq<Entry>, at: nat)
    requires at > 0
    ensures Cut(Cut(log, at), at - 1) == Cut(log, at - 1)
  {
  }

  lemma MatchingPrefix(mine: seq<Entry>, theirs: seq<Entry>, shorter: seq<Entry>)
    requires Matching(mine, theirs) && shorter <= theirs
    ensures Matching(mine, shorter)
  {
    forall k | 0 <= k < |mine| && k < |shorter| && mine[k].term == shorter[k].term
      ensures mine[..k + 1] == shorter[..k + 1]
    {
      assert theirs[..k + 1] == shorter[..k + 1];
    }
  }

  /** A peer whose log extends the leader's agrees at once. */
  lemma ExtendingAgrees(mine: seq<Entry>, theirs: seq<Entry>, next: nat)
    requires next <= |mine| && mine <= theirs
    ensures Agrees(mine, theirs, next) && MeetingPoint(mine, theirs, next) == next
  {
  }

  lemma MergeRepaired(mine: seq<Entry>, theirs: seq<Entry>, left: seq<Entry>, k: nat)
    requires k <= |mine| && left <= theirs && Agrees(mine, left, k) && Matching(mine, theirs)
    requires mine <= theirs ==> left == theirs
    ensures k <= |left| && Merge(left, k, mine[k..]) == Longer(mine, theirs)
  {
    hide Merge, Agrees;
    MatchingPrefix(mine, theirs, left);
    MergeRepairs(mine, left, k);
  }

  /** The step after that is accepted, and repairs the peer. */
  lemma Acceptance(mine: seq<Entry>, l: Link)
    requires l.next <= |mine|
    ensures var r := Steps(mine, l, l.next - MeetingPoint(mine, l.log, l.next) + 1);
      && r.next == |mine| && r.match_ == |mine| - 1 && Agrees(mine, r.log, |mine|)
      && (Matching(mine, l.log) ==> r.log == Longer(mine, l.log))
  {
    hide Merge, Agrees, Cut, Matching, Longer, MeetingPoint;
    var k := l.next - MeetingPoint(mine, l.log, l.next);
    Refusals(mine, l, k);
    var r := Steps(mine, l, k);
    MergeAgrees(mine, r.log, r.next);
    if mine <= l.log { ExtendingAgrees(mine, l.log, l.next); }
    if Matching(mine, l.log) { MergeRepaired(mine, l.log, r.log, r.next); }
  }

  /** From then on nothing changes. */
  lemma {:induction false} Repaired(mine: seq<Entry>, l: Link, k: nat)
    requires l.next <= |mine| && k > l.next - MeetingPoint(mine, l.log, l.next)
    ensures var r := Steps(mine, l, k);
      && r.next == |mine| && r.match_ == |mine| - 1 && Agrees(mine, r.log, |mine|)
      && (Matching(mine, l.log) ==> r.log == Longer(mine, l.log))
  {
    if k == l.next - MeetingPoint(mine, l.log, l.next) + 1 {
      Acceptance(mine, l);
    } else {
      Repaired(mine, l, k - 1);
    }
  }

  /** The nodes after k exchanges of i with p, and nothing else happening. */
  function Exchanges(nodes: seq<Node>, i: nat, p: nat, k: nat): (r: seq<Node>)
    requires CanSend(nodes, i, p) && nodes[p].term <= nodes[i].term
    ensures CanSend(r, i, p) && r[p].term <= r[i].term && r[i].log == nodes[i].log
  {
    if k == 0 then nodes
    else
      var before := Exchanges(nodes, i, p, k - 1);
      Exchange(before, i, p);
      SendAppend(before, i, p).0
  }

  lemma {:induction false} ExchangesStep(nodes: seq<Node>, i: nat, p: nat, k: nat)
    requires CanSend(nodes, i, p) && nodes[p].term <= nodes[i].term
    ensures LinkOf(Exchanges(nodes, i, p, k), i, p) == Steps(nodes[i].log, LinkOf(nodes, i, p), k)
    ensures KnowsOf(nodes[i], Exchanges(nodes, i, p, k)[i], p)
  {
    hide SendAppend, Step, KnowsOf, LinkOf, HandleAppend, AppendRequest;
    if k == 0 {
      KnowsNothing(nodes[i], p);
    } else {
      ExchangesStep(nodes, i, p, k - 1);
      var before := Exchanges(nodes, i, p, k - 1);
      Exchange(before, i, p);
      KnowsMore(nodes[i], before[i], Exchanges(nodes, i, p, k)[i], p);
    }
  }

  lemma KnowsNothing(n: Node, p: nat)
    ensures KnowsOf(n, n, p)
  {
  }

  lemma KnowsMore(a: Node, b: Node, c: Node, p: nat)
    requires KnowsOf(a, b, p) && KnowsOf(b, c, p)
    ensures KnowsOf(a, c, p)
  {
  }

  /** Log repair. While the peer's log disagrees just before the next index, an exchange
      only moves that index back by one, and the peer drops what conflicts; the first exchange made where they agree, and
      every later one, leaves the peer known to hold the leader's whole log, and where Log
      Matching holds it has that log, or its own if that extends it. So next index + 1
      exchanges are always enough, and this is how many it takes. */
  lemma LogRepair(nodes: seq<Node>, i: nat, p: nat, k: nat)
    requires CanSend(nodes, i, p) && nodes[p].term <= nodes[i].term
    ensures var after, n, m := Exchanges(nodes, i, p, k), nodes[i], nodes[p];
      var refusals := n.nextIndex[p] - MeetingPoint(n.log, m.log, n.nextIndex[p]);
      && KnowsOf(n, after[i], p)
      && (k <= refusals ==>
            after[i].nextIndex[p] == n.nextIndex[p] - k && MatchOf(after[i], p) == MatchOf(n, p)
            && after[p].log == Refused(m.log, n.nextIndex[p] - k, k))
      && (k > refusals ==>
            after[i].nextIndex[p] == |n.log| && MatchOf(after[i], p) == |n.log| - 1
            && (Matching(n.log, m.log) ==> after[p].log == Longer(n.log, m.log)))
  {
    hide Matching, Refused, MeetingPoint, KnowsOf, Steps, Longer, Agrees;
    var n, l := nodes[i], LinkOf(nodes, i, p);
    ExchangesStep(nodes, i, p, k);
    if k <= l.next - MeetingPoint(n.log, l.log, l.next) { Refusals(n.log, l, k); } else { Repaired(n.log, l, k); }
  }
}
