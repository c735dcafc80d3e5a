/**
 The plain scheduler that the timing wheel implements, and what its users see
 over whole runs: every job fires once, at a tick that is known when it is added.
*/
module WheelSchedule {
  import opened WheelLayout
  import opened WheelTicks
  import opened NumberTheory

  datatype Plan = Plan(cur: nat, due: map<int, Entry>)

  datatype Op = Add(job: Job) | Remove(id: int) | Tick

  /** The tick that fires a job added now. */
  function FireTick(plan: Plan, job: Job, base: int, d: nat): nat
    requires d > 0
  {
    DueTick(Target(job, base, d, plan.cur), plan.cur, 0)
  }

  /** The jobs still to fire after the current tick. */
  function Waiting(due: map<int, Entry>, cur: nat): map<int, Entry> {
    map id | id in due && due[id].tick != cur :: due[id]
  }

  function After(plan: Plan, op: Op, base: int, d: nat): Plan
    requires d > 0
  {
    match op
    case Add(job) => plan.(due := plan.due[job.id := Entry(job, FireTick(plan, job, base, d))])
    case Remove(id) => plan.(due := plan.due - {id})
    case Tick => Plan(plan.cur + 1, Waiting(plan.due, plan.cur))
  }

  /** The operation returns this job as ready. */
  ghost predicate Fires(plan: Plan, op: Op, job: Job) {
    op.Tick? && job.id in plan.due && plan.due[job.id] == Entry(job, plan.cur)
  }

  /** A run from an empty wheel in which every added id is fresh. */
  ghost predicate Run(plans: seq<Plan>, ops: seq<Op>, base: int, d: nat)
    requires d > 0
  {
    |plans| == |ops| + 1 && plans[0] == Plan(0, map[])
    && (forall i :: 0 <= i < |ops| ==> plans[i + 1] == After(plans[i], ops[i], base, d))
    && (forall i :: 0 <= i < |ops| && ops[i].Add? ==> ops[i].job.id !in plans[i].due)
  }

  /** No operation from i on concerns the id. */
  ghost predicate Untouched(ops: seq<Op>, i: nat, id: int) {
    forall j :: i <= j < |ops| ==> ops[j] != Remove(id) && (ops[j].Add? ==> ops[j].job.id != id)
  }

  lemma {:induction false} ClockMoves(plans: seq<Plan>, ops: seq<Op>, base: int, d: nat, i: nat, j: nat)
    requires d > 0 && Run(plans, ops, base, d) && i <= j < |plans|
    ensures plans[i].cur <= plans[j].cur
    ensures i < j && ops[i].Tick? ==> plans[i].cur < plans[j].cur
    decreases j - i
  {
    if i < j {
      assert plans[i + 1] == After(plans[i], ops[i], base, d);
      ClockMoves(plans, ops, base, d, i + 1, j);
    }
  }

  /** A job waits until the clock has passed its due tick, and is then gone. */
  lemma {:induction false} Waits(plans: seq<Plan>, ops: seq<Op>, base: int, d: nat, i: nat, j: nat, job: Job, f: nat)
    requires d > 0 && Run(plans, ops, base, d) && i < j < |plans| && ops[i] == Add(job)
    requires f == FireTick(plans[i], job, base, d) && Untouched(ops, i + 1, job.id)
    ensures job.id in plans[j].due <==> plans[j].cur <= f
    ensures job.id in plans[j].due ==> plans[j].due[job.id] == Entry(job, f)
    decreases j
  {
    assert plans[j] == After(plans[j - 1], ops[j - 1], base, d);
    if j > i + 1 {
      Waits(plans, ops, base, d, i, j - 1, job, f);
      assert ops[j - 1] != Remove(job.id) && (ops[j - 1].Add? ==> ops[j - 1].job.id != job.id);
    }
  }

  /** Some tick of the run is at every clock value the run passes. */
  lemma {:induction false} SomeTickAt(plans: seq<Plan>, ops: seq<Op>, base: int, d: nat, i: nat, f: nat) returns (j: nat)
    requires d > 0 && Run(plans, ops, base, d) && i < |plans|
    requires plans[i].cur <= f < plans[|ops|].cur
    ensures i <= j < |ops| && ops[j].Tick? && plans[j].cur == f
    decreases |ops| - i
  {
    assert i < |ops|;
    assert plans[i + 1] == After(plans[i], ops[i], base, d);
    if ops[i].Tick? && plans[i].cur == f { j := i; } else { j := SomeTickAt(plans, ops, base, d, i + 1, f); }
  }

  /** When a job fires: at its target tick, or exactly one revolution later, which
      happens when it is added at least a revolution ahead of a target that is a
      multiple of the wheel size. */
  lemma FiresNearTarget(plan: Plan, job: Job, base: int, d: nat)
    requires d > 0
    ensures var t, f := Target(job, base, d, plan.cur), FireTick(plan, job, base, d);
      t <= f <= t + 60 && (f != t <==> t - plan.cur >= 60 && t % 60 == 0) && (f != t ==> f == t + 60)
  {
  }

  /** The same in seconds. A job whose time is past when it is added fires at once. Any other
      fires in the tick during which its time falls, or exactly 60 ticks after that one:
      later, if and only if that tick is at least 60 ahead and a multiple of 60. */
  lemma FiresOnTime(plan: Plan, job: Job, base: int, d: nat)
    requires d > 0
    ensures var f, time := FireTick(plan, job, base, d), job.scheduledAt - base;
      && (time < plan.cur * d ==> f == plan.cur)
      && (time >= plan.cur * d ==>
            var late := time >= (plan.cur + 60) * d && time % (60 * d) < d;
            var on := if late then f - 60 else f;
            on * d <= time < (on + 1) * d)
  {
    var t := Target(job, base, d, plan.cur);
    var time := job.scheduledAt - base;
    InTick(time, d, plan.cur);
    if time >= plan.cur * d {
      InTick(time, d, plan.cur + 60);
      MultipleOf60(time, d);
    }
  }

  lemma InTick(time: int, d: nat, k: nat)
    requires d > 0
    ensures time < k * d <==> time / d < k
    ensures time / d * d <= time < (time / d + 1) * d
  {
    var q := time / d;
    assert time == q * d + time % d;
    if q < k { MulGe(k - q, d); assert (k - q) * d == k * d - q * d; }
    if q >= k { Product(q - k, d); assert (q - k) * d == q * d - k * d; }
  }

  lemma MultipleOf60(time: int, d: nat)
    requires d > 0
    ensures (time / d) % 60 == 0 <==> time % (60 * d) < d
  {
    var q := time / d;
    var r, m, k := time % d, q % 60, q / 60;
    assert time == (60 * k + m) * d + r;
    assert time == k * (60 * d) + (m * d + r);
    assert 0 <= m * d + r < 60 * d by { Product(m, d); Product(59 - m, d); assert (59 - m) * d == 59 * d - m * d; }
    DivModUnique(time, 60 * d, k, m * d + r);
    if m > 0 { MulGe(m, d); }
  }

  /** Exactly once: a job that is not removed is returned by the tick at its fire
      tick, which comes if the run goes on for long enough, and by no other. */
  lemma FiresExactlyOnce(plans: seq<Plan>, ops: seq<Op>, base: int, d: nat, i: nat, job: Job)
    requires d > 0 && Run(plans, ops, base, d) && i < |ops| && ops[i] == Add(job)
    requires Untouched(ops, i + 1, job.id)
    ensures forall j :: i < j < |ops| ==>
      (Fires(plans[j], ops[j], job) <==> ops[j].Tick? && plans[j].cur == FireTick(plans[i], job, base, d))
    ensures forall j, k :: i < j < |ops| && i < k < |ops| && Fires(plans[j], ops[j], job) && Fires(plans[k], ops[k], job) ==>
      j == k
    ensures plans[|ops|].cur > FireTick(plans[i], job, base, d) ==>
      exists j :: i < j < |ops| && Fires(plans[j], ops[j], job)
  {
    var f := FireTick(plans[i], job, base, d);
    forall j | i < j < |ops| ensures Fires(plans[j], ops[j], job) <==> ops[j].Tick? && plans[j].cur == f {
      Waits(plans, ops, base, d, i, j, job, f);
    }
    forall j, k | i < j < k < |ops| && Fires(plans[j], ops[j], job)
      ensures !Fires(plans[k], ops[k], job)
    {
      ClockMoves(plans, ops, base, d, j, k);
    }
    if plans[|ops|].cur > f {
      assert plans[i + 1] == After(plans[i], ops[i], base, d);
      var j := SomeTickAt(plans, ops, base, d, i + 1, f);
      assert Fires(plans[j], ops[j], job);
    }
  }

  /** A removed job never fires, unless its id is added again. */
  lemma {:induction false} RemovedNeverFires(plans: seq<Plan>, ops: seq<Op>, base: int, d: nat, i: nat, j: nat, id: int)
    requires d > 0 && Run(plans, ops, base, d) && i < j < |plans| && ops[i] == Remove(id)
    requires Untouched(ops, i + 1, id)
    ensures id !in plans[j].due
    ensures j < |ops| ==> forall job: Job :: job.id == id ==> !Fires(plans[j], ops[j], job)
    decreases j
  {
    assert plans[j] == After(plans[j - 1], ops[j - 1], base, d);
    if j > i + 1 {
      RemovedNeverFires(plans, ops, base, d, i, j - 1, id);
      assert ops[j - 1] != Remove(id) && (ops[j - 1].Add? ==> ops[j - 1].job.id != id);
    }
  }
}
