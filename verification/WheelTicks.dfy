/**
 The arithmetic of the timing wheel: where a job goes, when each cascade reaches
 it, and why no tick finds a job on the wrong side of its due tick.
*/
module WheelTicks {
  import opened NumberTheory
  import opened WheelLayout

  lemma {:induction false} SpanIsPower(level: nat)
    requires level < 4
    ensures Span(level) == Pow(WHEEL_SIZE, level)
  {
    if level > 0 { SpanIsPower(level - 1); }
  }

  /** The wheel for a job that many ticks ahead. */
  function LevelOf(ticks: nat): nat {
    if ticks < 60 then 0 else if ticks < 3600 then 1 else if ticks < 86400 then 2 else 3
  }

  /** The tick that fires a job with target t when it is put in at tick cur: once
      level 0 has been drained, a job for cur itself waits a revolution. */
  function DueTick(t: nat, cur: nat, stage: nat): nat
    requires t >= cur
  {
    if t - cur >= 60 then Late(t) else if t == cur && stage > 0 then cur + 60 else t
  }

  lemma CascadeAhead(level: nat, t: nat, cur: nat)
    requires 1 <= level < 4 && t >= cur && level == LevelOf(t - cur)
    ensures LastCascade(level, t) > cur
  {
  }

  /** A job goes to a bucket where the invariant allows it to be. */
  lemma NewPlace(own: int, t: nat, l: nat, cur: nat, stage: nat)
    requires stage <= 4 && l == LevelOf(if t < cur then 0 else t - cur)
    requires t == if own < cur then cur else own
    ensures l < 4 && Placed(l, BucketAt(l, t), own, DueTick(t, cur, stage), cur, stage)
  {
    if l > 0 { CascadeAhead(l, t, cur); }
  }

  /** Adding at tick cur: the delay in seconds, divided by the tick duration, counts
      the ticks to the target. */
  lemma DelayToTicks(job: Job, base: int, d: nat, cur: nat, delay: int)
    requires d > 0 && delay == job.scheduledAt - (base + cur * d)
    ensures delay < 0 ==> Target(job, base, d, cur) == cur
    ensures delay >= 0 ==> Target(job, base, d, cur) == cur + delay / d
  {
    var x := job.scheduledAt - base;
    var q, r := x / d, x % d;
    assert x == q * d + r;
    assert x - cur * d == (q - cur) * d + r;
    DivModUnique(x - cur * d, d, q - cur, r);
    if q >= cur { Product(q - cur, d); } else { MulGe(cur - q, d); }
  }

  lemma Product(a: int, b: int)
    requires a >= 0 && b >= 0
    ensures a * b >= 0
  {
  }

  lemma ScaledBound(delay: nat, d: nat, k: nat)
    requires d > 0
    ensures delay < d * k <==> delay / d < k
  {
    var q := delay / d;
    assert delay == q * d + delay % d;
    if q < k {
      assert d * k == (k - q) * d + q * d;
      MulGe(k - q, d);
    } else {
      assert q * d == (q - k) * d + d * k;
    }
  }

  // ---------- stages of a tick ----------

  /** Level l is done with tick cur when none of its jobs needed this tick. */
  lemma StageUp(w: Wheels, pos: map<int, Position>, due: map<int, Entry>, pending: set<int>,
                base: int, d: nat, cur: nat, stage: nat)
    requires d > 0 && stage < 4 && Consistent(w, pos, due, pending, base, d, cur, stage)
    requires forall b: nat, job :: InBucket(w, stage, b, job) && job.id in due ==>
      if stage == 0 then due[job.id].tick != cur else LastCascade(stage, TickOf(job.scheduledAt, base, d)) != cur
    ensures Consistent(w, pos, due, pending, base, d, cur, stage + 1)
  {
    forall l: nat, b: nat, job | l < 4 && InBucket(w, l, b, job)
      ensures Indexed(pos, due, pending, base, d, cur, stage + 1, l, b, job)
    {
      assert Indexed(pos, due, pending, base, d, cur, stage, l, b, job);
    }
  }

  lemma NextTick(w: Wheels, pos: map<int, Position>, due: map<int, Entry>, base: int, d: nat, cur: nat)
    requires d > 0 && Consistent(w, pos, due, {}, base, d, cur, 4)
    ensures Consistent(w, pos, due, {}, base, d, cur + 1, 0)
  {
    forall l: nat, b: nat, job | l < 4 && InBucket(w, l, b, job)
      ensures Indexed(pos, due, {}, base, d, cur + 1, 0, l, b, job)
    {
      assert Indexed(pos, due, {}, base, d, cur, 4, l, b, job);
    }
  }

  /** How often each level cascades. Level 3 does so when level 2 does (every 3600
      ticks) and the tick is also a multiple of 60 * 24. */
  function Period(level: int): (p: nat)
    ensures p > 0
  {
    if level == 1 then 60 else if level == 2 then 3600 else 7200
  }

  lemma NotNow(stage: nat, t: int, cur: nat)
    requires 1 <= stage < 4 && t > 0 && LastCascade(stage, t) > 0
    requires cur == 0 || cur % Period(stage) != 0
    ensures LastCascade(stage, t) != cur
  {
  }

  /** A tick on which a level does not cascade is no job's last cascade there. */
  lemma Skip(w: Wheels, pos: map<int, Position>, due: map<int, Entry>,
             base: int, d: nat, cur: nat, stage: nat)
    requires d > 0 && 1 <= stage < 4 && Consistent(w, pos, due, {}, base, d, cur, stage)
    requires cur == 0 || cur % Period(stage) != 0
    ensures Consistent(w, pos, due, {}, base, d, cur, stage + 1)
  {
    forall b: nat, job | InBucket(w, stage, b, job) && job.id in due
      ensures LastCascade(stage, TickOf(job.scheduledAt, base, d)) != cur
    {
      assert Indexed(pos, due, {}, base, d, cur, stage, stage, b, job);
      NotNow(stage, TickOf(job.scheduledAt, base, d), cur);
    }
    StageUp(w, pos, due, {}, base, d, cur, stage);
  }

  /** 7200 is the least common multiple of 60 * 60 and 60 * 24. */
  lemma TwoPeriods(cur: nat)
    requires cur % 3600 == 0
    ensures cur % 1440 == 0 <==> cur % 7200 == 0
  {
    var k := cur / 3600;
    var h := k / 2;
    if k % 2 == 0 {
      DivModUnique(cur, 7200, h, 0);
      DivModUnique(cur, 1440, 5 * h, 0);
    } else {
      DivModUnique(cur, 7200, h, 3600);
      DivModUnique(cur, 1440, 5 * h + 2, 720);
    }
  }

  lemma LongerPeriod(cur: nat)
    requires cur % 7200 == 0
    ensures cur % 3600 == 0
  {
    DivModUnique(cur, 3600, 2 * (cur / 7200), 0);
  }

  /** The test at the end of `cascade` is the next level's period. */
  lemma NextCascade(cur: nat, level: nat)
    requires 1 <= level < 4 && cur % Period(level) == 0
    ensures level < 3 && cur % (WHEEL_SIZE * WHEEL_SIZES[level]) == 0 ==> cur % Period(level + 1) == 0
    ensures cur % (WHEEL_SIZE * WHEEL_SIZES[level]) != 0 ==> forall l :: level < l < 4 ==> cur % Period(l) != 0
  {
    if level == 1 {
      if cur % 7200 == 0 { LongerPeriod(cur); }
    } else if level == 2 {
      TwoPeriods(cur);
    }
  }

  /** The bucket that a cascade drains holds every job for which this is the last
      cascade, so the others may wait. */
  lemma CascadeReaches(level: nat, t: int, cur: nat)
    requires 1 <= level < 4 && t > 0 && LastCascade(level, t) == cur
    ensures BucketAt(level, t) == BucketAt(level, cur)
  {
    assert level == 1 ==> t / 60 == cur / 60;
    assert level == 2 ==> t / 3600 == cur / 3600;
    if level == 3 { assert t / 7200 == cur / 7200; SameWindow(t); SameWindow(cur); }
  }

  lemma SameWindow(t: nat)
    ensures t / 216000 == (t / 7200) / 30
  {
  }

  lemma DrainUp(w: Wheels, pos: map<int, Position>, due: map<int, Entry>,
                base: int, d: nat, cur: nat, stage: nat)
    requires d > 0 && stage < 4 && Consistent(w, pos, due, {}, base, d, cur, stage)
    ensures BucketAt(stage, cur) < |w[stage]|
    ensures var b := BucketAt(stage, cur);
      Consistent(SetBucket(w, stage, b, []), pos, due, IdsOf(w[stage][b]), base, d, cur, stage + 1)
  {
    var b := BucketAt(stage, cur);
    var w' := SetBucket(w, stage, b, []);
    DrainKeeps(w, pos, due, base, d, cur, stage, stage, b);
    SetBucketHolds(w, stage, b, []);
    forall b2: nat, job | InBucket(w', stage, b2, job) && job.id in due
      ensures if stage == 0 then due[job.id].tick != cur else LastCascade(stage, TickOf(job.scheduledAt, base, d)) != cur
    {
      assert Indexed(pos, due, {}, base, d, cur, stage, stage, b2, job);
      if stage > 0 && LastCascade(stage, TickOf(job.scheduledAt, base, d)) == cur {
        CascadeReaches(stage, TickOf(job.scheduledAt, base, d), cur);
      }
    }
    StageUp(w', pos, due, IdsOf(w[stage][b]), base, d, cur, stage);
  }

  lemma BetweenMultiples(cur: nat, t: nat)
    requires cur % 60 == 0 && cur < t < cur + 60
    ensures t % 60 != 0
  {
  }

  lemma LastCascadeBefore(level: nat, t: int)
    requires t > 0
    ensures LastCascade(level, t) <= t
  {
  }

  /** A cascade keeps every job's due tick. */
  lemma CascadeKeepsDue(t: nat, cur: nat, stage: nat)
    requires t >= cur && cur % 60 == 0 && stage > 0
    ensures DueTick(t, cur, stage) == Late(t)
  {
    if cur < t < cur + 60 { BetweenMultiples(cur, t); }
  }

  lemma LateIsLate(level: nat, t: int, cur: nat)
    requires 1 <= level < 4 && t > 0 && LastCascade(level, t) >= cur
    ensures Late(t) > cur
  {
    LastCascadeBefore(level, t);
    if t == cur { CascadeTick(level, t); }
  }

  lemma CascadeTick(level: nat, t: int)
    requires 1 <= level < 4 && LastCascade(level, t) == t
    ensures t % 60 == 0
  {
    if level == 2 {
      DivModUnique(t, 60, 60 * (t / 3600), 0);
    } else if level == 3 {
      DivModUnique(t, 60, 120 * (t / 7200), 0);
    }
  }

  /** Level 0's current bucket is exactly what is due now. */
  lemma DrainedAreDue(w: Wheels, pos: map<int, Position>, due: map<int, Entry>, base: int, d: nat, cur: nat, job: Job)
    requires d > 0 && Consistent(w, pos, due, {}, base, d, cur, 0)
    ensures InBucket(w, 0, BucketAt(0, cur), job) <==> job.id in due && due[job.id] == Entry(job, cur)
  {
    hide InBucket;
    if InBucket(w, 0, BucketAt(0, cur), job) {
      assert Indexed(pos, due, {}, base, d, cur, 0, 0, BucketAt(0, cur), job);
    }
    if job.id in due && due[job.id] == Entry(job, cur) {
      assert Present(w, pos[job.id], job.id);
      var l, b := pos[job.id].level, pos[job.id].bucket;
      var j :| InBucket(w, l, b, j) && j.id == job.id;
      assert Indexed(pos, due, {}, base, d, cur, 0, l, b, j);
      if l > 0 { LateIsLate(l, TickOf(j.scheduledAt, base, d), cur); }
    }
  }

  lemma {:induction false} IdsPrefix(jobs: seq<Job>, k: nat)
    requires k < |jobs|
    ensures IdsOf(jobs[..k + 1]) == IdsOf(jobs[..k]) + {jobs[k].id}
  {
    assert jobs[..k + 1][..k] == jobs[..k];
  }

  lemma IdsSuffix(jobs: seq<Job>, k: nat)
    requires k < |jobs| && DistinctIds(jobs)
    ensures jobs[k].id in IdsOf(jobs[k..])
    ensures IdsOf(jobs[k..]) - {jobs[k].id} == IdsOf(jobs[k + 1..])
  {
    var s, t := jobs[k..], jobs[k + 1..];
    assert s[0] == jobs[k];
    forall id ensures id in IdsOf(s) - {jobs[k].id} <==> id in IdsOf(t) {
      if id in IdsOf(t) {
        var i :| 0 <= i < |t| && t[i].id == id;
        assert s[i + 1].id == id && jobs[k + 1 + i].id == id;
      }
      if id in IdsOf(s) - {jobs[k].id} {
        var i :| 0 <= i < |s| && s[i].id == id;
        assert t[i - 1] == s[i];
      }
    }
  }
}
