/**
 The Raft node as the object the source has: its methods update the fields in
 place, and its rounds call the peers' methods in a loop.  Each method is
 proved against the functions of `RaftProtocol` and `RaftRounds`.
*/
module RaftNode {
  import opened Wrappers
  import opened RaftProtocol
  import opened RaftCluster
  import opened RaftRounds
  import opened RaftRepair

  class RaftNode {
    const nodeId: nat
    var peers: seq<RaftNode>
    var role: Role
    var currentTerm: nat
    var votedFor: Option<nat>
    var log: seq<Entry>
    var commitIndex: int
    var lastApplied: int
    var nextIndex: map<nat, nat>
    var matchIndex: map<nat, int>
    var applied: seq<Command>      // the calls of the apply callback so far

    constructor (id: nat)
      ensures nodeId == id && View() == FRESH_NODE && peers == []
    {
      nodeId := id;
      peers := [];
      role, currentTerm, votedFor, log := Follower, 0, None, [];
      commitIndex, lastApplied := -1, -1;
      nextIndex, matchIndex, applied := map[], map[], [];
    }

    ghost function View(): Node
      reads this
    {
      Node(role, currentTerm, votedFor, log, commitIndex, lastApplied, nextIndex, matchIndex, applied)
    }

    /** Every node knows the same peers, itself among them, by their position. */
    ghost predicate Connected()
      reads this, peers
    {
      && nodeId < |peers| && peers[nodeId] == this
      && (forall k: nat :: k < |peers| ==> peers[k].nodeId == k && peers[k].peers == peers)
    }

    ghost function Views(): (v: seq<Node>)
      reads this, peers
      ensures |v| == |peers|
    {
      seq(|peers|, k requires 0 <= k < |peers| reads this, peers => peers[k].View())
    }

    method ApplyLogs()
      requires -1 <= lastApplied && commitIndex < |log|
      modifies this`lastApplied, this`applied
      ensures View() == Apply(old(View()))
    {
      hide Commands;
      ghost var before := View();
      while lastApplied < commitIndex
        invariant if before.lastApplied <= commitIndex
          then before.lastApplied <= lastApplied <= commitIndex
            && applied == before.applied + Commands(log[before.lastApplied + 1..lastApplied + 1])
          else lastApplied == before.lastApplied && applied == before.applied
      {
        lastApplied := lastApplied + 1;
        assert Commands(log[before.lastApplied + 1..lastApplied + 1])
            == Commands(log[before.lastApplied + 1..lastApplied]) + [log[lastApplied].command];
        applied := applied + [log[lastApplied].command];
      }
    }

    method RequestVote(args: VoteArgs) returns (reply: VoteReply)
      modifies this`role, this`currentTerm, this`votedFor
      ensures (View(), reply) == HandleVote(old(View()), args)
    {
      if args.term > currentTerm {
        currentTerm, role, votedFor := args.term, Follower, None;
      }
      if args.term < currentTerm {
        return VoteReply(currentTerm, false);
      }
      if votedFor == None || votedFor == Some(args.candidate) {
        var lastIdx := |log| - 1;
        var lastTerm := if log != [] then log[|log| - 1].term else 0;
        if args.lastLogTerm > lastTerm || (args.lastLogTerm == lastTerm && args.lastLogIndex >= lastIdx) {
          votedFor := Some(args.candidate);
          return VoteReply(currentTerm, true);
        }
      }
      return VoteReply(currentTerm, false);
    }

    method AppendEntries(args: AppendArgs) returns (reply: AppendReply)
      requires -1 <= args.prevLogIndex && -1 <= lastApplied
      modifies this`role, this`currentTerm, this`votedFor, this`log, this`commitIndex, this`lastApplied, this`applied
      ensures (View(), reply) == HandleAppend(old(View()), args)
    {
      hide Merge, Apply;
      if args.term > currentTerm {
        currentTerm, role, votedFor := args.term, Follower, None;
      }
      if args.term < currentTerm {
        return AppendReply(currentTerm, false);
      }
      if args.prevLogIndex >= 0 {
        if |log| <= args.prevLogIndex {
          return AppendReply(currentTerm, false);
        }
        if log[args.prevLogIndex].term != args.prevLogTerm {
          log := log[..args.prevLogIndex];
          return AppendReply(currentTerm, false);
        }
      }
      MergeEntries(args.prevLogIndex + 1, args.entries);
      if args.leaderCommit > commitIndex {
        commitIndex := Min(args.leaderCommit, |log| - 1);
        ApplyLogs();
      }
      return AppendReply(currentTerm, true);
    }

    /** The loop over the received entries. */
    method MergeEntries(from: nat, entries: seq<Entry>)
      requires from <= |log|
      modifies this`log
      ensures log == Merge(old(log), from, entries)
    {
      for i := 0 to |entries|
        invariant from + i <= |log|
        invariant Merge(log, from + i, entries[i..]) == Merge(old(log), from, entries)
      {
        var idx, rest := from + i, entries[i..];
        assert rest[0] == entries[i] && rest[1..] == entries[i + 1..];
        if idx < |log| {
          if log[idx].term != entries[i].term {
            Spliced(log[..idx], entries[i], entries[i + 1..]);
            assert log[..idx] + rest == log[..idx] + [entries[i]] + entries[i + 1..];
            log := log[..idx];
            log := log + [entries[i]];
          }
        } else {
          Spliced(log, entries[i], entries[i + 1..]);
          assert log[..idx] + rest == log + [entries[i]] + entries[i + 1..];
          log := log + [entries[i]];
        }
      }
    }

    method UpdateCommitIndex()
      requires Connected() && CanCommit(View())
      modifies this`commitIndex, this`lastApplied, this`applied
      ensures View() == AdvanceCommit(old(View()), nodeId, |peers|)
    {
      hide HighestCommittable, Ids, Connected;
      ghost var n := View();
      var i := |log| - 1;
      while i > commitIndex
        invariant View() == n && commitIndex <= i < |log|
        invariant HighestCommittable(n, nodeId, |peers|, |log| - 1) == HighestCommittable(n, nodeId, |peers|, i)
      {
        assert HighestCommittable(n, nodeId, |peers|, i)
            == if Committable(n, nodeId, |peers|, i) then i else HighestCommittable(n, nodeId, |peers|, i - 1);
        if log[i].term == currentTerm {
          var count := CountHolders(i);
          if count > |peers| / 2 {
            commitIndex := i;
            ApplyLogs();
            return;
          }
        }
        i := i - 1;
      }
    }

    method CountHolders(i: int) returns (count: nat)
      requires Connected()
      ensures count == 1 + |Holders(View(), nodeId, |peers|, i)|
    {
      count := 1;
      ghost var holders := Holders(View(), nodeId, |peers|, i);
      for k := 0 to |peers|
        invariant count == 1 + |Below(holders, k)|
      {
        BelowNext(holders, k);
        var id := peers[k].nodeId;
        if id != nodeId && (if id in matchIndex then matchIndex[id] else -1) >= i {
          count := count + 1;
        }
      }
      assert Below(holders, |peers|) == holders;
    }

    method Replicate(command: Command) returns (ok: bool)
      modifies this`log, this`matchIndex
      ensures ok == (role == Leader)
      ensures ok ==> log == old(log) + [Entry(currentTerm, command)] && MatchOf(View(), nodeId) == |log| - 1
      ensures View() == if ok then AppendCommand(old(View()), nodeId, command) else old(View())
    {
      if role != Leader {
        return false;
      }
      log := log + [Entry(currentTerm, command)];
      matchIndex := matchIndex[nodeId := |log| - 1];
      return true;
    }

    // ---------- rounds over the peers ----------

    /** One call of a peer's vote handler, and what the candidate makes of the reply. */
    method PollPeer(k: nat, args: VoteArgs, votes: nat) returns (v: nat, stopped: bool)
      requires Connected() && k < |peers| && k != nodeId && args == VoteRequest(View(), nodeId)
      modifies peers
      ensures Connected() && peers == old(peers)
      ensures (Views(), v, stopped) == AskVote(old(Views()), nodeId, k, votes)
      ensures !stopped ==> View() == old(View())
    {
      ghost var before := Views();
      v, stopped := votes, false;
      var peer := peers[k];
      var reply := peer.RequestVote(args);
      if reply.term > currentTerm {
        currentTerm, role, votedFor := reply.term, Follower, None;
        stopped := true;
      } else if reply.granted {
        v := votes + 1;
      }
      assert Views() == AskVote(before, nodeId, k, votes).0;
    }

    /** The loop over the peers, with the same arguments for each. */
    method PollPeers() returns (votes: nat, stopped: bool)
      requires Connected() && role == Candidate
      modifies peers
      ensures Connected() && peers == old(peers)
      ensures (Views(), votes, stopped) == PollFrom(old(Views()), nodeId, 0, 1)
    {
      hide AskVote;
      ghost var begun, me := Views(), View();
      votes, stopped := 1, false;
      var args := VoteArgs(currentTerm, nodeId, |log| - 1, if log != [] then log[|log| - 1].term else 0);
      var k: nat := 0;
      while k < |peers|
        invariant Connected() && peers == old(peers) && k <= |peers|
        invariant View() == me && args == VoteRequest(me, nodeId) && !stopped
        invariant PollFrom(Views(), nodeId, k, votes) == PollFrom(begun, nodeId, 0, 1)
      {
        if peers[k].nodeId != nodeId {
          votes, stopped := PollPeer(k, args, votes);
          if stopped { return; }
        }
        k := k + 1;
      }
    }

    method StartElection()
      requires Connected() && CanCommit(View()) && Started(Views())
      modifies peers
      ensures Connected() && peers == old(peers)
      ensures Views() == ElectionRound(old(Views()), nodeId)
    {
      ghost var start := Views();
      role := Candidate;
      currentTerm := currentTerm + 1;
      votedFor := Some(nodeId);
      ghost var begun := start[nodeId := BeginElection(start[nodeId], nodeId)];
      assert Views() == begun;
      PollFrame(begun, nodeId, 0, 1);
      var votes, stopped := PollPeers();
      if stopped { return; }
      assert View() == begun[nodeId];
      if role == Candidate && votes > |peers| / 2 {
        TakeOffice();
      }
    }

    method ResetIndices()
      requires Connected()
      modifies this`nextIndex, this`matchIndex
      ensures View() == BecomeLeader(old(View()), |peers|).(role := role)
    {
      ghost var n := View();
      for k := 0 to |peers|
        invariant nextIndex == ResetNext(n.nextIndex, k, |log|)
        invariant matchIndex == ResetMatch(n.matchIndex, k)
      {
        nextIndex := nextIndex[peers[k].nodeId := |log|];
        matchIndex := matchIndex[peers[k].nodeId := -1];
      }
    }

    /** `_become_leader`: fresh indices for every peer, then a first heartbeat round. */
    method TakeOffice()
      requires Connected() && CanCommit(View()) && Started(Views())
      modifies peers
      ensures Connected() && peers == old(peers)
      ensures var nodes := old(Views()); var i := nodeId; var led := nodes[i := BecomeLeader(nodes[i], |nodes|)];
        Indexed(led, i) && CanCommit(led[i]) && Views() == HeartbeatRound(led, i)
    {
      ghost var nodes := Views();
      ghost var led := nodes[nodeId := BecomeLeader(nodes[nodeId], |nodes|)];
      role := Leader;
      ResetIndices();
      assert Views() == led;
      SendHeartbeats();
    }

    method Broadcast() returns (stopped: bool)
      requires Connected() && Indexed(Views(), nodeId)
      modifies peers
      ensures Connected() && peers == old(peers)
      ensures (Views(), stopped) == BroadcastFrom(old(Views()), nodeId, 0)
    {
      hide SendAppend;
      ghost var start := Views();
      stopped := false;
      var k: nat := 0;
      while k < |peers|
        invariant Connected() && peers == old(peers) && k <= |peers| && !stopped
        invariant Indexed(Views(), nodeId)
        invariant BroadcastFrom(Views(), nodeId, k) == BroadcastFrom(start, nodeId, 0)
      {
        if peers[k].nodeId != nodeId {
          SendKeepsIndexed(Views(), nodeId, k);
          stopped := SendToPeer(k);
          if stopped { return; }
        }
        k := k + 1;
      }
    }

    method SendHeartbeats()
      requires Connected() && Indexed(Views(), nodeId) && CanCommit(View())
      modifies peers
      ensures Connected() && peers == old(peers)
      ensures Views() == HeartbeatRound(old(Views()), nodeId)
    {
      hide BroadcastFrom;
      var stopped := Broadcast();
      if stopped { return; }
      ghost var sent := Views();
      UpdateCommitIndex();
      assert Views() == sent[nodeId := AdvanceCommit(sent[nodeId], nodeId, |sent|)];
    }

    /** One call of a peer's append handler, and what the leader makes of the reply. */
    method SendToPeer(k: nat) returns (stopped: bool)
      requires Connected() && CanSend(Views(), nodeId, k)
      modifies peers
      ensures Connected() && peers == old(peers)
      ensures (Views(), stopped) == SendAppend(old(Views()), nodeId, k)
      ensures old(peers[k].currentTerm) <= old(currentTerm) ==>
        k in nextIndex && LinkOf(Views(), nodeId, k) == Step(old(log), LinkOf(old(Views()), nodeId, k))
    {
      hide StepDown, HandleAppend, Step, LinkOf, Acknowledge;
      ghost var before := Views();
      var peer := peers[k];
      var next: int := nextIndex[k];
      var prevLogTerm := if next - 1 >= 0 then log[next - 1].term else 0;
      var args := AppendArgs(currentTerm, nodeId, next - 1, prevLogTerm, log[next..], commitIndex);
      var reply := peer.AppendEntries(args);
      assert Views() == before[k := HandleAppend(before[k], args).0];
      stopped := HandleReply(k, args, reply);
      assert Views() == SendAppend(before, nodeId, k).0;
      if before[k].term <= before[nodeId].term { ExchangeLink(before, nodeId, k); }
    }

    method HandleReply(k: nat, args: AppendArgs, reply: AppendReply) returns (stopped: bool)
      requires k in nextIndex && -1 <= args.prevLogIndex
      modifies this`currentTerm, this`role, this`votedFor, this`nextIndex, this`matchIndex
      ensures stopped == (reply.term > old(currentTerm))
      ensures View() == if stopped then StepDown(old(View()), reply.term)
                        else Acknowledge(old(View()), k, args, reply.success)
    {
      stopped := false;
      if reply.term > currentTerm {
        currentTerm, role, votedFor := reply.term, Follower, None;
        stopped := true;
      } else if reply.success {
        nextIndex := nextIndex[k := args.prevLogIndex + |args.entries| + 1];
        matchIndex := matchIndex[k := args.prevLogIndex + |args.entries|];
      } else {
        nextIndex := nextIndex[k := if nextIndex[k] >= 1 then nextIndex[k] - 1 else 0];
      }
    }
  }

  function Below(s: set<nat>, k: nat): set<nat> {
    set p | p in s && p < k
  }

  lemma BelowNext(s: set<nat>, k: nat)
    ensures |Below(s, k + 1)| == |Below(s, k)| + if k in s then 1 else 0
    ensures Below(s, 0) == {}
  {
    if k in s {
      assert Below(s, k + 1) == Below(s, k) + {k};
    } else {
      assert Below(s, k + 1) == Below(s, k);
    }
  }

  lemma Spliced(a: seq<Entry>, e: Entry, rest: seq<Entry>)
    ensures Merge(a + [e], |a| + 1, rest) == a + [e] + rest
  {
    assert (a + [e])[..|a| + 1] == a + [e];
    if rest == [] { assert a + [e] + rest == a + [e]; }
  }
}
