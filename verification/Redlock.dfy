/**
 Redlock quorum locking (prog6/src/concurrency/locking.py) as a state machine
 over one clock: holders are named by their lock values, the commands of one
 gather take effect one by one, at any later time before it returns, or never.
*/
module Redlock {
  import opened Wrappers

  datatype Lease = Lease(holder: int, expiry: real)

  /** Where a call of `acquire_lock`, and the `release_lock` after it, has got to. */
  datatype Phase =
    | Idle
    | Acquiring(attempt: nat, start: real, pending: set<nat>, acquired: set<nat>)
    | Releasing(attempt: nat, unlocking: set<nat>, lost: set<nat>, afterHolding: bool)
    | Sleeping(attempt: nat, lost: set<nat>)
    | Holding(since: real, acquired: set<nat>)
    | Finished(lost: set<nat>)

  /** timeout_ms, retry_count and the phase of the call with one lock value. */
  datatype Client = Client(timeout: real, retries: nat, phase: Phase)

  datatype State = State(now: real, instances: seq<Option<Lease>>, clients: map<int, Client>)

  datatype Event =
    | Pass(duration: real)
    | Begin(client: int)
    | SetNx(client: int, instance: nat, arrives: bool, answered: bool)
    | Conclude(client: int)
    | Unlock(client: int, instance: nat, arrives: bool)
    | NextAttempt(client: int)
    | Retry(client: int)
    | Release(client: int)

  /** The instance indices 0 .. n - 1. */
  function All(n: nat): (s: set<nat>)
    ensures |s| == n && forall i: nat :: i in s <==> i < n
  {
    if n == 0 then {} else All(n - 1) + {n - 1}
  }

  /** `self.quorum` */
  function Quorum(n: nat): nat {
    n / 2 + 1
  }

  /** Whether the key is there: a lease past its expiry has vanished. */
  predicate Live(s: State, i: nat)
    requires i < |s.instances|
  {
    s.instances[i].Some? && s.now < s.instances[i].value.expiry
  }

  // ---------- the steps ----------

  predicate Enabled(s: State, e: Event) {
    match e
    case Pass(d) => d >= 0.0
    case Begin(v) => v in s.clients && s.clients[v].phase.Idle?
    case SetNx(v, i, _, _) =>
      v in s.clients && s.clients[v].phase.Acquiring? && i in s.clients[v].phase.pending && i < |s.instances|
    case Conclude(v) => v in s.clients && s.clients[v].phase.Acquiring? && s.clients[v].phase.pending == {}
    case Unlock(v, i, _) =>
      v in s.clients && s.clients[v].phase.Releasing? && i in s.clients[v].phase.unlocking && i < |s.instances|
    case NextAttempt(v) => v in s.clients && s.clients[v].phase.Releasing? && s.clients[v].phase.unlocking == {}
    case Retry(v) => v in s.clients && s.clients[v].phase.Sleeping?
    case Release(v) => v in s.clients && s.clients[v].phase.Holding?
  }

  function WithPhase(s: State, v: int, phase: Phase): State
    requires v in s.clients
  {
    s.(clients := s.clients[v := s.clients[v].(phase := phase)])
  }

  /** `validity_time_ms` when the gather has returned. */
  function Validity(timeout: real, start: real, now: real): real {
    timeout - (now - start) - 100.0
  }

  /** The test after the gather: enough instances, and time left. */
  predicate Won(s: State, v: int)
    requires v in s.clients && s.clients[v].phase.Acquiring?
  {
    var c := s.clients[v];
    |c.phase.acquired| >= Quorum(|s.instances|) && Validity(c.timeout, c.phase.start, s.now) > 0.0
  }

  function Next(s: State, e: Event): State
    requires Enabled(s, e)
  {
    match e
    case Pass(d) => s.(now := s.now + d)
    case Begin(v) =>
      if s.clients[v].retries == 0 then WithPhase(s, v, Finished({}))
      else WithPhase(s, v, Acquiring(0, s.now, All(|s.instances|), {}))
    case SetNx(v, i, arrives, answered) =>
      var c := s.clients[v];
      var set_ := arrives && !Live(s, i);
      var s' := if set_ then s.(instances := s.instances[i := Some(Lease(v, s.now + c.timeout))]) else s;
      WithPhase(s', v, c.phase.(
        pending := c.phase.pending - {i},
        acquired := if set_ && answered then c.phase.acquired + {i} else c.phase.acquired))
    case Conclude(v) =>
      var p := s.clients[v].phase;
      if Won(s, v) then WithPhase(s, v, Holding(p.start, p.acquired))
      else WithPhase(s, v, Releasing(p.attempt, All(|s.instances|), {}, false))
    case Unlock(v, i, arrives) =>
      var p := s.clients[v].phase;
      var s' := if arrives && Live(s, i) && s.instances[i].value.holder == v
                then s.(instances := s.instances[i := None]) else s;
      WithPhase(s', v, p.(unlocking := p.unlocking - {i}, lost := if arrives then p.lost else p.lost + {i}))
    case NextAttempt(v) =>
      var p := s.clients[v].phase;
      if !p.afterHolding && p.attempt + 1 < s.clients[v].retries then WithPhase(s, v, Sleeping(p.attempt, p.lost))
      else WithPhase(s, v, Finished(p.lost))
    case Retry(v) =>
      WithPhase(s, v, Acquiring(s.clients[v].phase.attempt + 1, s.now, All(|s.instances|), {}))
    case Release(v) => WithPhase(s, v, Releasing(0, All(|s.instances|), {}, true))
  }

  predicate Init(s: State) {
    (forall i :: 0 <= i < |s.instances| ==> s.instances[i] == None)
    && (forall v :: v in s.clients ==> s.clients[v].phase.Idle? && s.clients[v].timeout > 0.0)
  }

  ghost predicate Run(states: seq<State>, events: seq<Event>) {
    |states| == |events| + 1 && Init(states[0])
    && forall i :: 0 <= i < |events| ==> Enabled(states[i], events[i]) && states[i + 1] == Next(states[i], events[i])
  }

  // ---------- the invariant ----------

  /** The lease a client counts on, from the winning attempt on. */
  ghost predicate Keeps(s: State, v: int, start: real, acquired: set<nat>) {
    v in s.clients && start <= s.now
    && (forall i :: i in acquired ==> i < |s.instances|)
    && forall i :: i in acquired && s.now < start + s.clients[v].timeout ==>
      s.instances[i].Some? && s.instances[i].value.holder == v
      && s.instances[i].value.expiry >= start + s.clients[v].timeout
  }

  /** No instance outside `doubtful` holds the lock value. */
  ghost predicate Cleared(s: State, v: int, doubtful: set<nat>) {
    forall i :: 0 <= i < |s.instances| && i !in doubtful && Live(s, i) ==> s.instances[i].value.holder != v
  }

  ghost predicate ClientInv(s: State, v: int)
    requires v in s.clients
  {
    var p := s.clients[v].phase;
    (p.Idle? ==> Cleared(s, v, {}))
    && (p.Releasing? ==> Cleared(s, v, p.unlocking + p.lost))
    && (p.Sleeping? || p.Finished? ==> Cleared(s, v, p.lost)) &&
    (p.Acquiring? ==> Keeps(s, v, p.start, p.acquired))
    && (p.Holding? ==> Keeps(s, v, p.since, p.acquired) && |p.acquired| >= Quorum(|s.instances|))
  }

  ghost predicate Inv(s: State) {
    forall v :: v in s.clients ==> ClientInv(s, v)
  }

  /** The holder may still act: it has not started to release, and its window,
      timeout - 100 ms from the start of the winning attempt, is not over. */
  predicate InWindow(s: State, v: int) {
    v in s.clients && s.clients[v].phase.Holding? && s.now < s.clients[v].phase.since + s.clients[v].timeout - 100.0
  }

  lemma QuorumsMeet(a: set<nat>, b: set<nat>, n: nat) returns (i: nat)
    requires a <= All(n) && b <= All(n) && |a| >= Quorum(n) && |b| >= Quorum(n)
    ensures i in a && i in b
  {
    SubsetSize(a + b, All(n));
    assert |a + b| == |a| + |b| - |a * b|;
    assert |a * b| > 0;
    i :| i in a * b;
  }

  lemma {:induction false} SubsetSize(a: set<nat>, b: set<nat>)
    requires a <= b
    ensures |a| <= |b|
  {
    if a != {} {
      var x :| x in a;
      SubsetSize(a - {x}, b - {x});
    }
  }

  /** Mutual exclusion in one state. */
  lemma InvExcludes(s: State, v: int, w: int)
    requires Inv(s) && InWindow(s, v) && InWindow(s, w)
    ensures v == w
  {
    assert ClientInv(s, v) && ClientInv(s, w);
    var a, b := s.clients[v].phase.acquired, s.clients[w].phase.acquired;
    assert a <= All(|s.instances|) && b <= All(|s.instances|);
    var i := QuorumsMeet(a, b, |s.instances|);
    assert s.instances[i].value.holder == v;
  }

  /** Once all commands of the release have arrived, none of the keys is left,
      whether the call failed or its holder was done. */
  lemma ReleaseClears(states: seq<State>, events: seq<Event>, k: nat, v: int, i: nat)
    requires Run(states, events) && k < |states| && i < |states[k].instances| && v in states[k].clients
    requires states[k].clients[v].phase == Finished({}) && Live(states[k], i)
    ensures states[k].instances[i].value.holder != v
  {
    RunKeeps(states, events, k);
    assert ClientInv(states[k], v);
  }

  predicate Acts(e: Event, v: int) {
    !e.Pass? && e.client == v
  }

  /** Time passing, and the commands of other clients, keep a client's part. */
  lemma OthersKeep(s: State, e: Event, w: int)
    requires Inv(s) && Enabled(s, e) && w in s.clients && !Acts(e, w)
    ensures w in Next(s, e).clients && ClientInv(Next(s, e), w)
  {
    assert ClientInv(s, w);
    if e.SetNx? || e.Unlock? { OtherCommand(s, e, w); }
  }

  lemma OtherCommand(s: State, e: Event, w: int)
    requires Enabled(s, e) && w in s.clients && ClientInv(s, w) && !Acts(e, w) && (e.SetNx? || e.Unlock?)
    ensures ClientInv(Next(s, e), w)
  {
  }

  lemma OwnSetNx(s: State, e: Event)
    requires Enabled(s, e) && e.SetNx? && ClientInv(s, e.client) && s.clients[e.client].timeout > 0.0
    ensures ClientInv(Next(s, e), e.client)
  {
  }

  lemma OwnUnlock(s: State, e: Event)
    requires Enabled(s, e) && e.Unlock? && ClientInv(s, e.client)
    ensures ClientInv(Next(s, e), e.client)
  {
  }

  lemma OwnStepKeeps(s: State, e: Event, v: int)
    requires Inv(s) && Enabled(s, e) && Acts(e, v) && s.clients[v].timeout > 0.0
    ensures v in Next(s, e).clients && ClientInv(Next(s, e), v)
  {
    assert ClientInv(s, v);
    if e.SetNx? { OwnSetNx(s, e); } else if e.Unlock? { OwnUnlock(s, e); } else { OwnPhase(s, e); }
  }

  lemma OwnPhase(s: State, e: Event)
    requires Enabled(s, e) && !e.Pass? && !e.SetNx? && !e.Unlock? && ClientInv(s, e.client)
    ensures ClientInv(Next(s, e), e.client)
  {
    var v := e.client;
    match e
    case Begin(_) => OwnMove(s, v, Next(s, e).clients[v].phase);
    case Conclude(_) => OwnMove(s, v, Next(s, e).clients[v].phase);
    case NextAttempt(_) => OwnNextAttempt(s, e);
    case Retry(_) => OwnMove(s, v, Next(s, e).clients[v].phase);
    case Release(_) => OwnMove(s, v, Next(s, e).clients[v].phase);
  }

  /** Starting an attempt, winning it and starting to release only change the phase. */
  lemma OwnMove(s: State, v: int, phase: Phase)
    requires v in s.clients && ClientInv(s, v)
    requires match phase
      case Acquiring(_, start, _, acquired) => start == s.now && acquired == {}
      case Releasing(_, unlocking, lost, _) => unlocking == All(|s.instances|)
      case Holding(since, acquired) =>
        var p := s.clients[v].phase;
        p.Acquiring? && since == p.start && acquired == p.acquired && |acquired| >= Quorum(|s.instances|)
      case Finished(_) => s.clients[v].phase.Idle?
      case _ => false
    ensures ClientInv(WithPhase(s, v, phase), v)
  {
  }

  lemma OwnNextAttempt(s: State, e: Event)
    requires Enabled(s, e) && e.NextAttempt? && ClientInv(s, e.client)
    ensures ClientInv(Next(s, e), e.client)
  {
    assert s.clients[e.client].phase.unlocking == {};
  }

  lemma StepKeeps(s: State, e: Event)
    requires Inv(s) && Enabled(s, e) && forall v :: v in s.clients ==> s.clients[v].timeout > 0.0
    ensures Inv(Next(s, e)) && Next(s, e).clients.Keys == s.clients.Keys
    ensures forall v :: v in s.clients ==> Next(s, e).clients[v].timeout == s.clients[v].timeout
  {
    forall v | v in Next(s, e).clients ensures ClientInv(Next(s, e), v) {
      if Acts(e, v) { OwnStepKeeps(s, e, v); } else { OthersKeep(s, e, v); }
    }
  }

  lemma {:induction false} RunKeeps(states: seq<State>, events: seq<Event>, k: nat)
    requires Run(states, events) && k < |states|
    ensures Inv(states[k]) && forall v :: v in states[k].clients ==> states[k].clients[v].timeout > 0.0
  {
    if k > 0 {
      RunKeeps(states, events, k - 1);
      assert states[k - 1 + 1] == Next(states[k - 1], events[k - 1]);
      StepKeeps(states[k - 1], events[k - 1]);
    }
  }

  /** Mutual exclusion: in every run, at every moment, at most one lock value is
      held inside its validity window. */
  lemma MutualExclusion(states: seq<State>, events: seq<Event>, k: nat, v: int, w: int)
    requires Run(states, events) && k < |states| && InWindow(states[k], v) && InWindow(states[k], w)
    ensures v == w
  {
    RunKeeps(states, events, k);
    InvExcludes(states[k], v, w);
  }

  // ---------- the retry loop of acquire_lock ----------

  /** What one SET returns to the gather: True, anything else, or an exception. */
  datatype Reply = Yes | No | Raised

  function Successes(replies: seq<Reply>): (s: set<nat>)
    ensures forall i: nat :: i in s <==> i < |replies| && replies[i] == Yes
  {
    if replies == [] then {}
    else if replies[|replies| - 1] == Yes then Successes(replies[..|replies| - 1]) + {|replies| - 1}
    else Successes(replies[..|replies| - 1])
  }

  /** One attempt: the replies in instance order, and the milliseconds the gather took. */
  datatype Attempt = Attempt(replies: seq<Reply>, elapsed: real)

  /** More than half of the instances answered True, and more than 100 ms are left. */
  predicate Succeeds(a: Attempt, instances: nat, timeout: real) {
    2 * |Successes(a.replies)| > instances && a.elapsed + 100.0 < timeout
  }

  method CountAcquired(replies: seq<Reply>) returns (count: nat)
    ensures count == |Successes(replies)|
  {
    count := 0;
    for k := 0 to |replies|
      invariant count == |Successes(replies[..k])|
    {
      assert replies[..k + 1][..k] == replies[..k];
      if replies[k] == Yes { count := count + 1; }
    }
    assert replies[..|replies|] == replies;
  }

  /** `acquire_lock` over the attempts as they turn out: the first one that wins a
      quorum with time to spare, if one of the first `retries` does. Every earlier
      attempt is released, in order. */
  method AcquireLock(instances: nat, timeout: real, retries: nat, attempts: seq<Attempt>)
    returns (won: Option<nat>, released: seq<nat>)
    requires |attempts| >= retries
    ensures won.Some? <==> exists k :: 0 <= k < retries && Succeeds(attempts[k], instances, timeout)
    ensures won.Some? ==> won.value < retries && Succeeds(attempts[won.value], instances, timeout)
    ensures won.Some? ==> forall k :: 0 <= k < won.value ==> !Succeeds(attempts[k], instances, timeout)
    ensures |released| == (if won.Some? then won.value else retries)
    ensures forall k :: 0 <= k < |released| ==> released[k] == k
  {
    released := [];
    for attempt := 0 to retries
      invariant |released| == attempt && forall k :: 0 <= k < attempt ==> released[k] == k
      invariant forall k :: 0 <= k < attempt ==> !Succeeds(attempts[k], instances, timeout)
    {
      var count := CountAcquired(attempts[attempt].replies);
      var validity := timeout - attempts[attempt].elapsed - 100.0;
      if count >= Quorum(instances) && validity > 0.0 { return Some(attempt), released; }
      released := released + [attempt];
    }
    return None, released;
  }
}
