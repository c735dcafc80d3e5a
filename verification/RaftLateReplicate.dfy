/**
 `replicate` tests for leadership before it takes the lock.  If the node steps
 down in between, the command is appended by a node that no longer leads, and
 safety is lost: two nodes end up having applied different commands.
*/
module RaftLateReplicate {
  import opened Wrappers
  import opened RaftProtocol
  import opened RaftCluster
  import opened RaftRounds
  import opened RaftSafety

  /** The locked half of `replicate` alone, whatever the node's role is by now. */
  function LateAppend(c: Cluster, i: nat, command: Command): (r: Cluster)
    requires Wired(c) && i < |c.nodes|
    ensures Wired(r) && |r.nodes| == |c.nodes|
  {
    Set(c, i, AppendCommand(c.nodes[i], i, command), c.threads[i])
  }

  /** The late append is the atomic `Replicate` event if and only if the node leads. */
  lemma LateAppendInOffice(c: Cluster, i: nat, command: Command)
    requires Wired(c) && i < |c.nodes| && c.threads[i] == Idle
    ensures Enabled(c, Replicate(i, command))
    ensures LateAppend(c, i, command) == Next(c, Replicate(i, command)) <==> c.nodes[i].role == Leader
  {
    var appended := AppendCommand(c.nodes[i], i, command);
    assert |appended.log| == |c.nodes[i].log| + 1;
    assert LateAppend(c, i, command).nodes[i] == appended;
  }

  // ---------- runs with late appends ----------

  /** The events of a cluster in which `replicate` may append late. */
  datatype LateEvent = Step(event: Event) | Late(i: nat, command: Command)

  predicate LateEnabled(c: Cluster, e: LateEvent)
    requires Wired(c)
  {
    match e
    case Step(event) => Enabled(c, event)
    case Late(i, _) => i < |c.nodes| && c.threads[i] == Idle
  }

  function LateNext(c: Cluster, e: LateEvent): (r: Cluster)
    requires Wired(c) && LateEnabled(c, e)
    ensures Wired(r) && |r.nodes| == |c.nodes|
  {
    match e
    case Step(event) => Next(c, event)
    case Late(i, command) => LateAppend(c, i, command)
  }

  predicate LateRuns(c: Cluster, events: seq<LateEvent>, d: Cluster): (r: bool)
    requires Wired(c)
    ensures r ==> Wired(d) && |d.nodes| == |c.nodes|
    decreases |events|
  {
    if events == [] then c == d
    else LateEnabled(c, events[0]) && LateRuns(LateNext(c, events[0]), events[1..], d)
  }

  /** Every late append of the run is by a node that leads at that moment. */
  predicate InOffice(c: Cluster, events: seq<LateEvent>)
    requires Wired(c)
    decreases |events|
  {
    events == [] ||
    (LateEnabled(c, events[0])
     && (events[0].Late? ==> c.nodes[events[0].i].role == Leader)
     && InOffice(LateNext(c, events[0]), events[1..]))
  }

  function Atomic(e: LateEvent): Event {
    match e
    case Step(event) => event
    case Late(i, command) => Replicate(i, command)
  }

  /** Such a run is a run with atomic appends. */
  lemma {:induction false} InOfficeRuns(c: Cluster, events: seq<LateEvent>, d: Cluster) returns (atomic: seq<Event>)
    requires Wired(c) && LateRuns(c, events, d) && InOffice(c, events)
    ensures Runs(c, atomic, d)
    decreases |events|
  {
    if events == [] {
      atomic := [];
    } else {
      var e := events[0];
      if e.Late? { LateAppendInOffice(c, e.i, e.command); }
      var rest := InOfficeRuns(LateNext(c, e), events[1..], d);
      atomic := [Atomic(e)] + rest;
      assert atomic[1..] == rest;
    }
  }

  /** As long as all late appends happen in office, State Machine Safety and Log Matching hold. */
  lemma InOfficeIsSafe(n: nat, before: seq<LateEvent>, c: Cluster, after: seq<LateEvent>, d: Cluster, i: nat, j: nat)
    requires n > 0 && LateRuns(Init(n), before, c) && InOffice(Init(n), before)
    requires LateRuns(c, after, d) && InOffice(c, after) && i < |c.nodes| && j < |d.nodes|
    ensures Comparable(c.nodes[i].applied, d.nodes[j].applied)
    ensures forall k: nat :: k < |c.nodes[i].log| && k < |d.nodes[j].log| && c.nodes[i].log[k].term == d.nodes[j].log[k].term ==>
      c.nodes[i].log[..k + 1] == d.nodes[j].log[..k + 1]
  {
    var first := InOfficeRuns(Init(n), before, c);
    var second := InOfficeRuns(c, after, d);
    StateMachineSafety(n, first, c, second, d, i, j);
    forall k: nat | k < |c.nodes[i].log| && k < |d.nodes[j].log| && c.nodes[i].log[k].term == d.nodes[j].log[k].term
      ensures c.nodes[i].log[..k + 1] == d.nodes[j].log[..k + 1]
    {
      LogMatching(n, first, c, second, d, i, j, k);
    }
  }

  /** Being in office is not necessary in a run: one late append in a term that has no
      leader leaves every two nodes' applied commands comparable. */
  lemma LateAppendMayBeHarmless(n: nat, i: nat, command: Command)
    requires i < n
    ensures var events := [Late(i, command)]; var c := LateAppend(Init(n), i, command);
      LateRuns(Init(n), events, c) && !InOffice(Init(n), events)
      && forall p, q :: 0 <= p < n && 0 <= q < n ==> Comparable(c.nodes[p].applied, c.nodes[q].applied)
  {
    var events := [Late(i, command)];
    var c := LateAppend(Init(n), i, command);
    assert events[1..] == [] && LateRuns(c, [], c);
  }

  // ---------- two nodes ----------

  /** Nothing logged, nothing committed. */
  predicate Blank(n: Node) {
    n.log == [] && n.commit == -1 && n.lastApplied == -1
  }

  function Voter(n: Node, i: nat, term: nat): Node {
    Node(Follower, term, Some(i), n.log, n.commit, n.lastApplied, n.nextIndex, n.matchIndex, n.applied)
  }

  function Winner(n: Node, i: nat): Node {
    Node(Leader, n.term + 1, Some(i), [], -1, -1, ResetNext(n.nextIndex, 2, 0), ResetMatch(n.matchIndex, 2), n.applied)
  }

  lemma BlankPoll(nodes: seq<Node>, i: nat)
    requires |nodes| == 2 && i < 2 && Blank(nodes[0]) && Blank(nodes[1]) && nodes[1 - i].term <= nodes[i].term
    ensures var begun := nodes[i := BeginElection(nodes[i], i)];
      PollFrom(begun, i, 0, 1) == (begun[1 - i := Voter(nodes[1 - i], i, nodes[i].term + 1)], 2, false)
  {
    var begun := nodes[i := BeginElection(nodes[i], i)];
    var polled := begun[1 - i := Voter(nodes[1 - i], i, nodes[i].term + 1)];
    assert AskVote(begun, i, 1 - i, 1) == (polled, 2, false);
    assert PollFrom(polled, i, 2, 2) == (polled, 2, false);
    assert i == 1 ==> PollFrom(polled, i, 1, 2) == (polled, 2, false);
    assert i == 0 ==> PollFrom(begun, i, 1, 1) == (polled, 2, false);
  }

  lemma TwoNodeHeartbeat(nodes: seq<Node>, i: nat)
    requires |nodes| == 2 && i < 2 && Indexed(nodes, i) && CanCommit(nodes[i])
    ensures CanSend(nodes, i, 1 - i)
    ensures var (sent, stopped) := SendAppend(nodes, i, 1 - i);
      !stopped ==> CanCommit(sent[i]) && HeartbeatRound(nodes, i) == sent[i := AdvanceCommit(sent[i], i, 2)]
  {
    hide HandleAppend;
    SendKeepsIndexed(nodes, i, 1 - i);
    var (sent, stopped) := SendAppend(nodes, i, 1 - i);
    if !stopped {
      assert BroadcastFrom(sent, i, 2) == (sent, false);
      if i == 0 {
        assert BroadcastFrom(nodes, i, 1) == BroadcastFrom(sent, i, 2);
      } else {
        assert BroadcastFrom(sent, i, 1) == BroadcastFrom(sent, i, 2);
      }
      assert BroadcastFrom(nodes, i, 0) == (sent, false);
    }
  }

  lemma BlankSend(nodes: seq<Node>, i: nat)
    requires |nodes| == 2 && i < 2 && Blank(nodes[0]) && Blank(nodes[1]) && nodes[1 - i].term == nodes[i].term
    requires nodes[i].nextIndex == ResetNext(nodes[i].nextIndex, 2, 0)
    requires nodes[i].matchIndex == ResetMatch(nodes[i].matchIndex, 2)
    ensures CanSend(nodes, i, 1 - i) && SendAppend(nodes, i, 1 - i) == (nodes, false)
  {
    var n, a := nodes[i], AppendRequest(nodes[i], i, 1 - i);
    assert a.entries == [] && a.prevLogIndex == -1;
    assert HandleAppend(nodes[1 - i], a) == (nodes[1 - i], AppendReply(n.term, true));
    assert n.nextIndex[1 - i := 0] == n.nextIndex && n.matchIndex[1 - i := -1] == n.matchIndex;
    assert Acknowledge(n, 1 - i, a, true) == n;
    assert nodes[1 - i := nodes[1 - i]] == nodes && nodes[i := n] == nodes;
  }

  lemma BlankHeartbeat(nodes: seq<Node>, i: nat)
    requires |nodes| == 2 && i < 2 && Blank(nodes[0]) && Blank(nodes[1]) && nodes[1 - i].term == nodes[i].term
    requires nodes[i].nextIndex == ResetNext(nodes[i].nextIndex, 2, 0)
    requires nodes[i].matchIndex == ResetMatch(nodes[i].matchIndex, 2)
    ensures Indexed(nodes, i) && HeartbeatRound(nodes, i) == nodes
  {
    BlankSend(nodes, i);
    TwoNodeHeartbeat(nodes, i);
    assert AdvanceCommit(nodes[i], i, 2) == nodes[i];
  }

  lemma ResetTwice(n: Node)
    ensures var next := ResetNext(n.nextIndex, 2, 0); ResetNext(next, 2, 0) == next
    ensures var matched := ResetMatch(n.matchIndex, 2); ResetMatch(matched, 2) == matched
  {
  }

  lemma BlankRound(nodes: seq<Node>, i: nat) returns (after: seq<Node>)
    requires |nodes| == 2 && i < 2 && Blank(nodes[0]) && Blank(nodes[1]) && nodes[1 - i].term <= nodes[i].term
    ensures Started(nodes) && after == ElectionRound(nodes, i) && |after| == 2
    ensures after[i] == Winner(nodes[i], i) && after[1 - i] == Voter(nodes[1 - i], i, nodes[i].term + 1)
  {
    hide HeartbeatRound;
    var begun := nodes[i := BeginElection(nodes[i], i)];
    BlankPoll(nodes, i);
    PollFrame(begun, i, 0, 1);
    var polled := PollFrom(begun, i, 0, 1).0;
    ResetTwice(nodes[i]);
    after := polled[i := BecomeLeader(polled[i], 2)];
    BlankHeartbeat(after, i);
  }

  lemma BlankElection(c: Cluster, i: nat) returns (events: seq<Event>, d: Cluster)
    requires Wired(c) && |c.nodes| == 2 && i < 2 && Blank(c.nodes[0]) && Blank(c.nodes[1])
    requires c.threads == [Idle, Idle] && c.nodes[i].role != Leader && c.nodes[1 - i].term <= c.nodes[i].term
    ensures Runs(c, events, d) && d.threads == c.threads
    ensures d.nodes[i] == Winner(c.nodes[i], i) && d.nodes[1 - i] == Voter(c.nodes[1 - i], i, c.nodes[i].term + 1)
  {
    var after := BlankRound(c.nodes, i);
    events, d := ElectionRoundRuns(c, i);
  }

  // ---------- the race ----------

  lemma Together(a: Cluster, x: seq<Event>, b: Cluster, y: seq<Event>, c: Cluster) returns (z: seq<Event>)
    requires Wired(a) && Runs(a, x, b) && Runs(b, y, c)
    ensures Runs(a, z, c)
  {
    RunsAppend(a, x, b, y, c);
    z := x + y;
  }

  /** The follower of the race holds its own entry where the leader has another
      of the same term. */
  ghost predicate SplitPair(nodes: seq<Node>, term: nat, x: Command, y: Command) {
    && |nodes| == 2
    && (forall k :: 0 <= k < 2 ==> nodes[k].term == term && nodes[k].commit == -1 && nodes[k].lastApplied == -1
                                   && nodes[k].applied == [])
    && nodes[0].log == [Entry(term, x)] && nodes[1].log == [Entry(term, y)]
    && Indexed(nodes, 1) && nodes[1].nextIndex[0] == 0
  }

  lemma SplitSend(nodes: seq<Node>, term: nat, x: Command, y: Command) returns (acked: Node)
    requires SplitPair(nodes, term, x, y)
    ensures CanSend(nodes, 1, 0) && SendAppend(nodes, 1, 0) == ([nodes[0], acked], false)
    ensures acked == nodes[1].(nextIndex := nodes[1].nextIndex[0 := 1], matchIndex := nodes[1].matchIndex[0 := 0])
  {
    var n, p := nodes[1], nodes[0];
    var a := AppendRequest(n, 1, 0);
    assert a.entries == [Entry(term, y)];
    assert Merge(p.log, 1, a.entries[1..]) == p.log;
    assert Merge(p.log, 0, a.entries) == p.log;
    assert Accept(p, a) == p;
    acked := Acknowledge(n, 0, a, true);
    assert nodes[0 := p][1 := acked] == [p, acked];
  }

  lemma SplitAdvance(n: Node, term: nat, y: Command)
    requires n.log == [Entry(term, y)] && n.term == term && n.commit == -1 == n.lastApplied && n.applied == []
    requires 0 in n.matchIndex && n.matchIndex[0] == 0
    ensures AdvanceCommit(n, 1, 2) == n.(commit := 0, lastApplied := 0, applied := [y])
  {
    assert Holders(n, 1, 2, 0) == {0};
    assert Commands(n.log[0..1]) == [y];
  }

  /** The leader takes the follower's entry for its own, and commits. */
  lemma SplitFirstRound(nodes: seq<Node>, term: nat, x: Command, y: Command) returns (after: seq<Node>)
    requires SplitPair(nodes, term, x, y)
    ensures after == HeartbeatRound(nodes, 1) && |after| == 2 && after[0] == nodes[0]
    ensures after[1] == nodes[1].(nextIndex := nodes[1].nextIndex[0 := 1], matchIndex := nodes[1].matchIndex[0 := 0],
                                  commit := 0, lastApplied := 0, applied := [y])
  {
    var acked := SplitSend(nodes, term, x, y);
    TwoNodeHeartbeat(nodes, 1);
    SplitAdvance(acked, term, y);
    after := [nodes[0], acked][1 := AdvanceCommit(acked, 1, 2)];
  }

  /** Told of the commit, the follower applies its own entry. */
  lemma SplitSecondRound(nodes: seq<Node>, term: nat, x: Command, y: Command)
    requires |nodes| == 2 && Indexed(nodes, 1) && CanCommit(nodes[1]) && nodes[1].nextIndex[0] == 1
    requires nodes[0].log == [Entry(term, x)] && nodes[1].log == [Entry(term, y)]
    requires nodes[0].term == nodes[1].term == term && nodes[1].commit == 0 == nodes[1].lastApplied
    requires nodes[0].commit == -1 == nodes[0].lastApplied && nodes[0].applied == [] && nodes[1].applied == [y]
    ensures HeartbeatRound(nodes, 1)[0].applied == [x] && HeartbeatRound(nodes, 1)[1].applied == [y]
  {
    var n, p := nodes[1], nodes[0];
    var a := AppendRequest(n, 1, 0);
    assert a.entries == [] && a.prevLogIndex == 0 && a.leaderCommit == 0;
    assert Commands(p.log[0..1]) == [x];
    assert HandleAppend(p, a).0.applied == [x];
    TwoNodeHeartbeat(nodes, 1);
  }

  /** A client of the first leader passes the leadership test; the other node
      is elected; the command is then appended by a node that only follows; and
      from there the two nodes apply different commands. */
  lemma LateReplicateBreaksSafety()
    returns (tested: seq<Event>, b: Cluster, between: seq<Event>, c: Cluster, after: seq<Event>, d: Cluster)
    ensures Runs(Init(2), tested, b) && b.threads[0] == Idle && b.nodes[0].role == Leader
    ensures Runs(b, between, c) && c.threads[0] == Idle && c.nodes[0].role == Follower
    ensures Runs(LateAppend(c, 0, "x"), after, d)
    ensures d.nodes[0].applied == ["x"] && d.nodes[1].applied == ["y"]
  {
    hide Runs;
    assert Init(2) == Cluster([FRESH_NODE, FRESH_NODE], [Idle, Idle]);
    tested, b := BlankElection(Init(2), 0);
    between, c := BlankElection(b, 1);
    after, d := LateRun(c);
  }

  lemma LateRun(c: Cluster) returns (events: seq<Event>, d: Cluster)
    requires Wired(c) && |c.nodes| == 2 && c.threads == [Idle, Idle] && Blank(c.nodes[0]) && Blank(c.nodes[1])
    requires c.nodes[0].applied == [] && c.nodes[1].applied == [] && c.nodes[0].term == c.nodes[1].term
    requires c.nodes[1].role == Leader && c.nodes[1].nextIndex == ResetNext(c.nodes[1].nextIndex, 2, 0)
    ensures Runs(LateAppend(c, 0, "x"), events, d) && d.nodes[0].applied == ["x"] && d.nodes[1].applied == ["y"]
  {
    var e, term := LateAppend(c, 0, "x"), c.nodes[0].term;
    var f := Next(e, Replicate(1, "y"));
    RunsOnce(e, Replicate(1, "y"));
    assert SplitPair(f.nodes, term, "x", "y");
    events, d := SplitRun(f, term, "x", "y");
    events := Together(e, [Replicate(1, "y")], f, events, d);
  }

  lemma SplitRun(f: Cluster, term: nat, x: Command, y: Command) returns (events: seq<Event>, d: Cluster)
    requires Wired(f) && SplitPair(f.nodes, term, x, y) && f.threads == [Idle, Idle] && f.nodes[1].role == Leader
    ensures Runs(f, events, d) && d.nodes[0].applied == [x] && d.nodes[1].applied == [y]
  {
    var round := SplitFirstRound(f.nodes, term, x, y);
    var first, g := HeartbeatRoundRuns(f, 1);
    SplitSecondRound(g.nodes, term, x, y);
    var second;
    second, d := HeartbeatRoundRuns(g, 1);
    events := Together(f, first, g, second, d);
  }
}
