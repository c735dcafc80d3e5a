/**
 The hierarchical timing wheel of TimingWheel.java with the clock as a
 parameter. The plan, a ghost field beside the clock, is the plain scheduler that
 the wheel implements.
*/
module TimingWheel {
  import opened WheelLayout
  import opened WheelTicks
  import opened WheelSchedule

  /** Java's 32-bit int. */
  function ToInt(x: int): int {
    (x + 0x8000_0000) % 0x1_0000_0000 - 0x8000_0000
  }

  lemma RemoveMore(m: map<int, Entry>, s: set<int>, id: int)
    ensures m - s - {id} == m - (s + {id})
  {
  }

  lemma ReadyAreGone(due: map<int, Entry>, cur: nat, ready: seq<Job>)
    requires forall id :: id in due ==> due[id].job.id == id
    requires forall job :: job in ready <==> job.id in due && due[job.id] == Entry(job, cur)
    ensures due - IdsOf(ready) == Waiting(due, cur)
  {
    forall id | id in due ensures id in IdsOf(ready) <==> due[id].tick == cur {
      if id in IdsOf(ready) {
        var k :| 0 <= k < |ready| && ready[k].id == id;
        assert ready[k] in ready;
      }
      if due[id].tick == cur { assert due[id].job in ready; }
    }
  }

  class TimingWheel {
    const tickDuration: nat
    const baseTime: int
    const wheelDurations: seq<int>
    var wheels: Wheels
    var jobPositions: map<int, Position>
    var currentTick: nat
    ghost var due: map<int, Entry>

    /** The tick durations for which no entry of wheelDurations overflows. */
    ghost predicate Configured() {
      0 < tickDuration <= 24855
      && wheelDurations == [tickDuration, tickDuration * 60, tickDuration * 3600, tickDuration * 86400]
    }

    ghost predicate ConsistentAt(pending: set<int>, stage: nat)
      reads this
    {
      Configured() && Consistent(wheels, jobPositions, due, pending, baseTime, tickDuration, currentTick, stage)
    }

    ghost predicate Valid()
      reads this
    {
      ConsistentAt({}, 0)
    }

    ghost function CurrentPlan(): Plan
      reads this
    {
      Plan(currentTick, due)
    }

    /** The aligned clock: a tick begins every tickDuration seconds. */
    ghost function Now(): int
      reads this
    {
      baseTime + currentTick * tickDuration
    }

    constructor (tickDurationSeconds: nat, now: int)
      requires 0 < tickDurationSeconds <= 24855
      ensures Valid() && CurrentPlan() == Plan(0, map[])
      ensures tickDuration == tickDurationSeconds && baseTime == now
    {
      tickDuration := tickDurationSeconds;
      baseTime := now;
      wheelDurations := [
        tickDurationSeconds,
        ToInt(tickDurationSeconds * 60),
        ToInt(tickDurationSeconds * 60 * 60),
        ToInt(tickDurationSeconds * 60 * 60 * 24)
      ];
      jobPositions := map[];
      currentTick := 0;
      due := map[];
      new;
      wheels := [];
      for i := 0 to 4
        invariant |wheels| == i && jobPositions == map[] && due == map[] && currentTick == 0
        invariant forall l :: 0 <= l < i ==> |wheels[l]| == WHEEL_SIZES[l]
        invariant forall l, b :: 0 <= l < i && 0 <= b < |wheels[l]| ==> wheels[l][b] == []
      {
        var wheel: seq<seq<Job>> := [];
        for j := 0 to WHEEL_SIZES[i]
          invariant |wheel| == j && forall b :: 0 <= b < j ==> wheel[b] == []
        {
          wheel := wheel + [[]];
        }
        wheels := wheels + [wheel];
      }
    }

    method DetermineWheelLevel(delaySeconds: nat) returns (level: nat)
      requires Configured()
      ensures level == LevelOf(delaySeconds / tickDuration)
    {
      for i := 0 to 4
        invariant forall k :: 0 <= k < i ==> delaySeconds >= ToInt(wheelDurations[k] * WHEEL_SIZES[k])
      {
        if delaySeconds < ToInt(wheelDurations[i] * WHEEL_SIZES[i]) {
          LevelByDelay(delaySeconds, i);
          return i;
        }
      }
      LevelByDelay(delaySeconds, 3);
      return 3;
    }

    lemma LevelByDelay(delay: nat, level: nat)
      requires Configured() && level < 4
      requires forall k :: 0 <= k < level ==> delay >= ToInt(wheelDurations[k] * WHEEL_SIZES[k])
      requires level < 3 ==> delay < ToInt(wheelDurations[level] * WHEEL_SIZES[level])
      ensures level == LevelOf(delay / tickDuration)
    {
      DurationBounds();
      hide ToInt;
      ScaledBound(delay, tickDuration, 60);
      ScaledBound(delay, tickDuration, 3600);
      ScaledBound(delay, tickDuration, 86400);
    }

    /** The products fit into 32 bits. */
    lemma DurationBounds()
      requires Configured()
      ensures ToInt(wheelDurations[0] * WHEEL_SIZES[0]) == tickDuration * 60
      ensures ToInt(wheelDurations[1] * WHEEL_SIZES[1]) == tickDuration * 3600
      ensures ToInt(wheelDurations[2] * WHEEL_SIZES[2]) == tickDuration * 86400
    {
    }

    /** The level and the bucket for a job: the first half of `addJob`. */
    method Locate(job: Job, now: int, ghost stage: nat) returns (level: nat, bucket: nat)
      requires Configured() && stage <= 4 && now == Now()
      ensures level < 4 && bucket < WHEEL_SIZES[level]
      ensures Placed(level, bucket, TickOf(job.scheduledAt, baseTime, tickDuration),
                     DueTick(Target(job, baseTime, tickDuration, currentTick), currentTick, stage), currentTick, stage)
    {
      var delay := job.scheduledAt - now;
      DelayToTicks(job, baseTime, tickDuration, currentTick, delay);
      if delay < 0 { delay := 0; }
      var targetTick := currentTick + delay / tickDuration;
      level := DetermineWheelLevel(delay);
      NewPlace(TickOf(job.scheduledAt, baseTime, tickDuration), targetTick, level, currentTick, stage);
      bucket := (targetTick / Span(level)) % WHEEL_SIZES[level];
    }

    /** `addJob`, called by users between ticks (stage 0, nothing pending) and by
        `cascade` in the middle of one. */
    method AddJob(job: Job, now: int, ghost pending: set<int>, ghost stage: nat)
      requires ConsistentAt(pending, stage) && stage <= 4
      requires job.id !in jobPositions && now == Now()
      modifies `wheels, `jobPositions, `due
      ensures ConsistentAt(pending, stage)
      ensures due == old(due)[job.id :=
        Entry(job, DueTick(Target(job, baseTime, tickDuration, currentTick), currentTick, stage))]
      ensures stage == 0 ==> CurrentPlan() == After(old(CurrentPlan()), Add(job), baseTime, tickDuration)
    {
      var level, bucket := Locate(job, now, stage);
      ghost var f := DueTick(Target(job, baseTime, tickDuration, currentTick), currentTick, stage);
      AddKeeps(wheels, jobPositions, due, pending, baseTime, tickDuration, currentTick, stage, level, bucket, job, f);
      wheels := SetBucket(wheels, level, bucket, wheels[level][bucket] + [job]);
      jobPositions := jobPositions[job.id := Position(level, bucket)];
      due := due[job.id := Entry(job, f)];
    }

    method ForgetOne(id: int, ghost pending: set<int>, ghost stage: nat)
      requires ConsistentAt(pending, stage) && id in pending
      modifies `jobPositions, `due
      ensures ConsistentAt(pending - {id}, stage)
      ensures jobPositions == old(jobPositions) - {id} && due == old(due) - {id}
    {
      ForgetKeeps(wheels, jobPositions, due, pending, id, baseTime, tickDuration, currentTick, stage);
      jobPositions := jobPositions - {id};
      due := due - {id};
    }

    /** The loop of `tick` that takes the drained jobs out of the index. */
    method Forget(jobs: seq<Job>)
      requires ConsistentAt(IdsOf(jobs), 1) && DistinctIds(jobs)
      modifies `jobPositions, `due
      ensures ConsistentAt({}, 1) && due == old(due) - IdsOf(jobs)
    {
      assert jobs[0..] == jobs && IdsOf(jobs[..0]) == {};
      assert due - {} == due;
      for k := 0 to |jobs|
        invariant ConsistentAt(IdsOf(jobs[k..]), 1)
        invariant due == old(due) - IdsOf(jobs[..k])
      {
        IdsSuffix(jobs, k);
        IdsPrefix(jobs, k);
        ForgetOne(jobs[k].id, IdsOf(jobs[k..]), 1);
        RemoveMore(old(due), IdsOf(jobs[..k]), jobs[k].id);
      }
      assert jobs[..|jobs|] == jobs && IdsOf(jobs[|jobs|..]) == {};
    }

    /** The first half of `tick`: the jobs of the current bucket of level 0. */
    method DrainReady() returns (ready: seq<Job>)
      requires Valid()
      modifies `wheels
      ensures ConsistentAt(IdsOf(ready), 1) && DistinctIds(ready)
      ensures forall job :: job in ready <==> job.id in due && due[job.id] == Entry(job, currentTick)
    {
      var bucketIndex := currentTick % WHEEL_SIZE;
      assert bucketIndex == BucketAt(0, currentTick);
      ready := wheels[0][bucketIndex];
      forall job ensures job in ready <==> job.id in due && due[job.id] == Entry(job, currentTick) {
        DrainedAreDue(wheels, jobPositions, due, baseTime, tickDuration, currentTick, job);
      }
      DrainUp(wheels, jobPositions, due, baseTime, tickDuration, currentTick, 0);
      wheels := SetBucket(wheels, 0, bucketIndex, []);
    }

    /** `tick`: returns exactly the jobs the schedule fires at this tick, each once,
        and moves on by one tick with the rest of the schedule unchanged. */
    method Tick(now: int) returns (ready: seq<Job>)
      requires Valid() && now == Now()
      modifies this
      ensures Valid() && DistinctIds(ready)
      ensures forall job :: job in ready <==> Fires(old(CurrentPlan()), WheelSchedule.Tick, job)
      ensures CurrentPlan() == After(old(CurrentPlan()), WheelSchedule.Tick, baseTime, tickDuration)
    {
      OwnIds();
      ready := DrainReady();
      ReadyAreGone(old(due), currentTick, ready);
      Forget(ready);
      if currentTick > 0 && currentTick % WHEEL_SIZE == 0 {
        Cascade(1, now);
      } else {
        SkipFrom(1);
      }
      Advance();
    }

    /** The schedule files every job under its own id. */
    lemma OwnIds()
      requires Valid()
      ensures forall id :: id in due ==> due[id].job.id == id
    {
      forall id | id in due ensures due[id].job.id == id {
        assert Present(wheels, jobPositions[id], id);
        var l, b := jobPositions[id].level, jobPositions[id].bucket;
        var j :| InBucket(wheels, l, b, j) && j.id == id;
        assert Indexed(jobPositions, due, {}, baseTime, tickDuration, currentTick, 0, l, b, j);
      }
    }

    method Advance()
      requires ConsistentAt({}, 4)
      modifies `currentTick
      ensures Valid() && currentTick == old(currentTick) + 1
    {
      NextTick(wheels, jobPositions, due, baseTime, tickDuration, currentTick);
      currentTick := currentTick + 1;
    }

    /** Ticks on which the level, and so every level above, does not cascade. */
    lemma SkipFrom(level: nat)
      requires 1 <= level <= 4 && ConsistentAt({}, level)
      requires currentTick == 0 || forall l :: level <= l < 4 ==> currentTick % Period(l) != 0
      ensures ConsistentAt({}, 4)
      decreases 4 - level
    {
      if level < 4 {
        Skip(wheels, jobPositions, due, baseTime, tickDuration, currentTick, level);
        SkipFrom(level + 1);
      }
    }

    method Move(job: Job, now: int, ghost pending: set<int>, ghost level: nat)
      requires 1 <= level < 4 && ConsistentAt(pending, level + 1) && now == Now()
      requires job.id in pending && DrainedJob(job, level)
      modifies `wheels, `jobPositions, `due
      ensures ConsistentAt(pending - {job.id}, level + 1) && due == old(due)
    {
      ForgetOne(job.id, pending, level + 1);
      AddJob(job, now, pending - {job.id}, level + 1);
      assert due == old(due);
    }

    /** The loop of `cascade`: every drained job is dropped from the index and added again. */
    method Reinsert(jobs: seq<Job>, now: int, ghost level: nat)
      requires 1 <= level < 4 && ConsistentAt(IdsOf(jobs), level + 1) && DistinctIds(jobs) && now == Now()
      requires forall k :: 0 <= k < |jobs| ==> DrainedJob(jobs[k], level)
      modifies `wheels, `jobPositions, `due
      ensures ConsistentAt({}, level + 1) && due == old(due)
    {
      assert jobs[0..] == jobs;
      for k := 0 to |jobs|
        invariant ConsistentAt(IdsOf(jobs[k..]), level + 1) && due == old(due)
      {
        IdsSuffix(jobs, k);
        assert old(DrainedJob(jobs[k], level));
        Move(jobs[k], now, IdsOf(jobs[k..]), level);
      }
      assert IdsOf(jobs[|jobs|..]) == {};
    }

    /** The first statements of `cascade`. */
    method DrainLevel(level: nat) returns (jobs: seq<Job>)
      requires 1 <= level < 4 && ConsistentAt({}, level)
      requires currentTick > 0 && currentTick % 60 == 0
      modifies `wheels
      ensures ConsistentAt(IdsOf(jobs), level + 1) && DistinctIds(jobs)
      ensures forall k :: 0 <= k < |jobs| ==> DrainedJob(jobs[k], level)
    {
      var bucketIndex := (currentTick / Span(level)) % WHEEL_SIZES[level];
      assert bucketIndex == BucketAt(level, currentTick);
      jobs := wheels[level][bucketIndex];
      forall k | 0 <= k < |jobs| ensures DrainedJob(jobs[k], level) {
        CascadedJob(level, bucketIndex, jobs[k]);
      }
      DrainUp(wheels, jobPositions, due, baseTime, tickDuration, currentTick, level);
      wheels := SetBucket(wheels, level, bucketIndex, []);
    }

    /** `cascade`: moves the jobs of the current bucket down, then the next level's.
        No job's due tick changes. */
    method Cascade(level: nat, now: int)
      requires 1 <= level <= 4 && ConsistentAt({}, level) && now == Now()
      requires currentTick > 0 && currentTick % 60 == 0
      requires level < 4 ==> currentTick % Period(level) == 0
      modifies `wheels, `jobPositions, `due
      ensures ConsistentAt({}, 4) && due == old(due)
      decreases 4 - level
    {
      hide Consistent;
      if level >= 4 { return; }
      var jobs := DrainLevel(level);
      Reinsert(jobs, now, level);
      NextCascade(currentTick, level);
      if currentTick % (WHEEL_SIZE * WHEEL_SIZES[level]) == 0 {
        Cascade(level + 1, now);
      } else {
        SkipFrom(level + 1);
      }
    }

    /** What `cascade` needs of a job it moves: putting it back keeps its due tick. */
    ghost predicate DrainedJob(job: Job, level: nat)
      requires Configured()
      reads this
    {
      job.id in due
      && due[job.id] == Entry(job, DueTick(Target(job, baseTime, tickDuration, currentTick), currentTick, level + 1))
    }

    lemma CascadedJob(level: nat, b: nat, job: Job)
      requires 1 <= level < 4 && ConsistentAt({}, level) && currentTick > 0 && currentTick % 60 == 0
      requires InBucket(wheels, level, b, job)
      ensures DrainedJob(job, level)
    {
      assert Indexed(jobPositions, due, {}, baseTime, tickDuration, currentTick, level, level, b, job);
      var t := TickOf(job.scheduledAt, baseTime, tickDuration);
      LastCascadeBefore(level, t);
      CascadeKeepsDue(t, currentTick, level + 1);
    }

    /** `removeJob`: removes the job if it is scheduled, and says whether it was. */
    method RemoveJob(id: int) returns (removed: bool)
      requires Valid()
      modifies `wheels, `jobPositions, `due
      ensures Valid()
      ensures removed <==> id in old(due)
      ensures CurrentPlan() == After(old(CurrentPlan()), Remove(id), baseTime, tickDuration)
    {
      if id !in jobPositions {
        assert due == due - {id};
        return false;
      }
      var pos := jobPositions[id];
      RemoveKeeps(wheels, jobPositions, due, id, baseTime, tickDuration, currentTick, 0);
      var jobs := wheels[pos.level][pos.bucket];
      removed := Without(jobs, id) != jobs;
      wheels := SetBucket(wheels, pos.level, pos.bucket, Without(jobs, id));
      jobPositions := jobPositions - {id};
      due := due - {id};
    }

    /** `size`: the number of scheduled jobs. */
    method Size() returns (n: nat)
      requires Valid()
      ensures n == |due|
    {
      assert jobPositions.Keys == due.Keys;
      assert |jobPositions| == |jobPositions.Keys| && |due| == |due.Keys|;
      return |jobPositions|;
    }
  }
}
