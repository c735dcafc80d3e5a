/**
 When an attempt to take the lock succeeds: exactly when a majority of the instances gave
 the key, with more than 100 ms of the timeout left.
*/
module RedlockProgress {
  import opened Wrappers
  import opened Redlock

  lemma QuorumIsMajority(n: nat, k: nat)
    ensures k >= Quorum(n) <==> 2 * k > n
  {
  }

  /** The events, each enabled in its turn, lead from s to t. */
  ghost predicate Follows(s: State, events: seq<Event>, t: State)
    decreases |events|
  {
    if events == [] then s == t else Enabled(s, events[0]) && Follows(Next(s, events[0]), events[1..], t)
  }

  lemma {:induction false} FollowsMore(s: State, events: seq<Event>, t: State, e: Event)
    requires Follows(s, events, t) && Enabled(t, e)
    ensures Follows(s, events + [e], Next(t, e))
    decreases |events|
  {
    if events == [] {
      assert Follows(Next(s, e), [e][1..], Next(t, e));
    } else {
      assert (events + [e])[1..] == events[1..] + [e];
      FollowsMore(Next(s, events[0]), events[1..], t, e);
    }
  }

  /** The instances below k whose key is free. */
  function Free(s: State, k: nat): (f: set<nat>)
    requires k <= |s.instances|
    ensures forall i: nat :: i in f <==> i < k && !Live(s, i)
  {
    if k == 0 then {} else if Live(s, k - 1) then Free(s, k - 1) else Free(s, k - 1) + {k - 1}
  }

  /** One SET to each of the first k instances, which arrives and is answered. */
  function Asked(v: int, k: nat): seq<Event> {
    if k == 0 then [] else Asked(v, k - 1) + [SetNx(v, k - 1, true, true)]
  }

  /** The phase when k instances have answered. */
  function AskedPhase(s: State, v: int, k: nat): Phase
    requires v in s.clients && s.clients[v].phase.Acquiring? && k <= |s.instances|
  {
    s.clients[v].phase.(pending := All(|s.instances|) - All(k), acquired := Free(s, k))
  }

  /** The first k instances that were free hold the client's key. */
  ghost predicate KeysSet(s: State, v: int, k: nat, after: seq<Option<Lease>>)
    requires v in s.clients
  {
    |after| == |s.instances|
    && forall i :: 0 <= i < |after| ==>
         after[i] == if i < k && !Live(s, i) then Some(Lease(v, s.now + s.clients[v].timeout)) else s.instances[i]
  }

  /** Where the attempt of client v has got to when k instances have answered. */
  ghost predicate AskedSoFar(s: State, v: int, k: nat, t: State)
    requires v in s.clients && s.clients[v].phase.Acquiring? && k <= |s.instances|
  {
    && t.now == s.now && KeysSet(s, v, k, t.instances)
    && t.clients == s.clients[v := s.clients[v].(phase := AskedPhase(s, v, k))]
  }

  lemma {:induction false} AsksAll(s: State, v: int, k: nat) returns (t: State)
    requires v in s.clients && s.clients[v].phase.Acquiring? && k <= |s.instances|
    requires s.clients[v].phase.pending == All(|s.instances|) && s.clients[v].phase.acquired == {}
    ensures Follows(s, Asked(v, k), t) && AskedSoFar(s, v, k, t)
  {
    hide AskedSoFar, Enabled, Next;
    if k == 0 {
      t := s;
      NoneAsked(s, v);
    } else {
      var b := AsksAll(s, v, k - 1);
      var e := SetNx(v, k - 1, true, true);
      AsksNext(s, v, k - 1, b);
      t := Next(b, e);
      FollowsMore(s, Asked(v, k - 1), b, e);
    }
  }

  lemma NoneAsked(s: State, v: int)
    requires v in s.clients && s.clients[v].phase.Acquiring?
    requires s.clients[v].phase.pending == All(|s.instances|) && s.clients[v].phase.acquired == {}
    ensures AskedSoFar(s, v, 0, s)
  {
    assert All(|s.instances|) - All(0) == All(|s.instances|);
    assert s.clients[v := s.clients[v]] == s.clients;
  }

  lemma AsksNext(s: State, v: int, k: nat, b: State)
    requires v in s.clients && s.clients[v].phase.Acquiring? && k < |s.instances| && AskedSoFar(s, v, k, b)
    ensures Enabled(b, SetNx(v, k, true, true)) && AskedSoFar(s, v, k + 1, Next(b, SetNx(v, k, true, true)))
  {
    hide KeysSet, AskedPhase;
    KeySet(s, v, k, b);
    PhaseNext(s, v, k);
    var t := Next(b, SetNx(v, k, true, true));
    assert t.clients[v] == s.clients[v].(phase := AskedPhase(s, v, k + 1));
  }

  lemma KeySet(s: State, v: int, k: nat, b: State)
    requires v in s.clients && k < |s.instances| && b.now == s.now && KeysSet(s, v, k, b.instances)
    ensures |b.instances| == |s.instances| && (Live(b, k) <==> Live(s, k))
    ensures KeysSet(s, v, k + 1,
      if Live(s, k) then b.instances else b.instances[k := Some(Lease(v, s.now + s.clients[v].timeout))])
  {
  }

  lemma PhaseNext(s: State, v: int, k: nat)
    requires v in s.clients && s.clients[v].phase.Acquiring? && k < |s.instances|
    ensures var p := AskedPhase(s, v, k);
      && p.Acquiring? && k in p.pending
      && AskedPhase(s, v, k + 1) == p.(pending := p.pending - {k}, acquired := if Live(s, k) then p.acquired else p.acquired + {k})
  {
    assert All(|s.instances|) - All(k + 1) == All(|s.instances|) - All(k) - {k};
  }

  /** The test after the gather: the attempt wins if and only if more than half of the
      instances are acquired and the time since its start leaves more than 100 ms. */
  lemma MajorityWins(s: State, v: int)
    requires Enabled(s, Conclude(v))
    ensures var c := s.clients[v];
      var wins := 2 * |c.phase.acquired| > |s.instances| && s.now - c.phase.start < c.timeout - 100.0;
      Next(s, Conclude(v)).clients[v].phase ==
        if wins then Holding(c.phase.start, c.phase.acquired)
        else Releasing(c.phase.attempt, All(|s.instances|), {}, false)
  {
    QuorumIsMajority(|s.instances|, |s.clients[v].phase.acquired|);
  }

  /** An attempt whose commands all arrive and are answered, with nothing in between, holds
      the lock exactly when more than half of the keys are free and there is time left. */
  lemma AttemptOutcome(s: State, v: int) returns (t: State)
    requires v in s.clients && s.clients[v].phase.Acquiring?
    requires s.clients[v].phase.pending == All(|s.instances|) && s.clients[v].phase.acquired == {}
    ensures Follows(s, Asked(v, |s.instances|) + [Conclude(v)], t) && v in t.clients
    ensures var c, free := s.clients[v], Free(s, |s.instances|);
      t.clients[v].phase ==
        if 2 * |free| > |s.instances| && s.now - c.phase.start < c.timeout - 100.0 then Holding(c.phase.start, free)
        else Releasing(c.phase.attempt, All(|s.instances|), {}, false)
  {
    var n := |s.instances|;
    var b := AsksAll(s, v, n);
    assert All(n) - All(n) == {};
    MajorityWins(b, v);
    t := Next(b, Conclude(v));
    FollowsMore(s, Asked(v, n), b, Conclude(v));
  }

  /** A call, or a retry, made when more than half of the keys are free gets the lock if its
      timeout is above 100 ms and its commands are answered at once: it is held from now on. */
  lemma CallWins(s: State, e: Event) returns (t: State)
    requires Enabled(s, e) && (e.Retry? || (e.Begin? && s.clients[e.client].retries > 0))
    requires 2 * |Free(s, |s.instances|)| > |s.instances| && s.clients[e.client].timeout > 100.0
    ensures Follows(s, [e] + (Asked(e.client, |s.instances|) + [Conclude(e.client)]), t)
    ensures e.client in t.clients && t.clients[e.client].phase == Holding(s.now, Free(s, |s.instances|))
  {
    var v, b := e.client, Next(s, e);
    t := AttemptOutcome(b, v);
    assert Free(b, |b.instances|) == Free(s, |s.instances|);
    var rest := Asked(v, |s.instances|) + [Conclude(v)];
    assert ([e] + rest)[1..] == rest;
  }

  // ---------- the number of attempts ----------

  /** Attempts are numbered below `retry_count`. */
  predicate InTries(c: Client) {
    match c.phase
    case Acquiring(attempt, _, _, _) => attempt < c.retries
    case Releasing(attempt, _, _, afterHolding) => afterHolding || attempt < c.retries
    case Sleeping(attempt, _) => attempt + 1 < c.retries
    case _ => true
  }

  lemma TriesKept(s: State, e: Event)
    requires Enabled(s, e) && forall v :: v in s.clients ==> InTries(s.clients[v])
    ensures forall v :: v in Next(s, e).clients ==> InTries(Next(s, e).clients[v])
  {
  }

  lemma {:induction false} RunTries(states: seq<State>, events: seq<Event>, k: nat)
    requires Run(states, events) && k < |states|
    ensures forall v :: v in states[k].clients ==> InTries(states[k].clients[v])
  {
    if k > 0 {
      RunTries(states, events, k - 1);
      assert states[k - 1 + 1] == Next(states[k - 1], events[k - 1]);
      TriesKept(states[k - 1], events[k - 1]);
    }
  }

  /** In every run a call that fails gives up after its last attempt, and sleeps after every earlier one. */
  lemma GivesUpAfterRetries(states: seq<State>, events: seq<Event>, k: nat, v: int)
    requires Run(states, events) && k < |events| && events[k] == NextAttempt(v) && v in states[k].clients
    requires states[k].clients[v].phase.Releasing? && !states[k].clients[v].phase.afterHolding
    ensures v in states[k + 1].clients
    ensures var c, after := states[k].clients[v], states[k + 1].clients[v].phase;
      && (c.phase.attempt + 1 == c.retries ==> after == Finished(c.phase.lost))
      && (c.phase.attempt + 1 != c.retries ==> c.phase.attempt + 1 < c.retries && after == Sleeping(c.phase.attempt, c.phase.lost))
  {
    RunTries(states, events, k);
    assert states[k + 1] == Next(states[k], events[k]);
  }
}
