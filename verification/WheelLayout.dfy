/**
 The contents of the hierarchical timing wheel of TimingWheel.java as values:
 four wheels of buckets, the position index, and the invariant that ties both to
 a plain schedule, the map from job ids to the jobs and the ticks that fire them.
*/
module WheelLayout {

  /** A job: its id and its time in epoch seconds. */
  datatype Job = Job(id: int, scheduledAt: int)

  datatype Position = Position(level: nat, bucket: nat)

  /** What a plain scheduler keeps for a job: the job and the tick that fires it. */
  datatype Entry = Entry(job: Job, tick: nat)

  type Wheels = seq<seq<seq<Job>>>

  const WHEEL_SIZE: nat := 60

  /** The sizes of the four wheels. */
  const WHEEL_SIZES: seq<nat> := [60, 60, 24, 7]

  /** wheelSize to the power of the level: the ticks one bucket index step covers. */
  function Span(level: nat): (s: nat)
    requires level < 4
    ensures s > 0
  {
    if level == 0 then 1 else if level == 1 then 60 else if level == 2 then 3600 else 216000
  }

  function BucketAt(level: nat, tick: nat): (b: nat)
    requires level < 4
    ensures b < WHEEL_SIZES[level]
  {
    (tick / Span(level)) % WHEEL_SIZES[level]
  }

  // ---------- ticks ----------

  /** The tick a time falls in, which is negative before the base time. */
  function TickOf(scheduledAt: int, base: int, d: nat): int
    requires d > 0
  {
    (scheduledAt - base) / d
  }

  /** The target tick of a job added at tick cur: its own tick, or cur when that has passed. */
  function Target(job: Job, base: int, d: nat, cur: nat): nat
    requires d > 0
  {
    var t := TickOf(job.scheduledAt, base, d);
    if t < cur then cur else t
  }

  /** When a job that waits on an upper wheel fires: at its target tick, but one
      revolution later when the target is a multiple of the wheel size. */
  function Late(t: int): int {
    if t % 60 == 0 then t + 60 else t
  }

  /** The last tick, at or before t, at which level's cascade reaches t's bucket. */
  function LastCascade(level: nat, t: int): int {
    if level == 1 then t / 60 * 60
    else if level == 2 then t / 3600 * 3600
    else t / 7200 * 7200
  }

  /** The ticks up to which the levels below `stage` have been dealt with. A tick
      goes through stage 0 (nothing done), 1 (level 0 drained), 2 (level 1
      cascaded), 3 and 4; stage 4 of one tick is stage 0 of the next. */
  function Low(level: nat, cur: nat, stage: nat): nat {
    if level < stage then cur + 1 else cur
  }

  /** A job with own tick t, due at tick f, may be in bucket b of the level. */
  ghost predicate Placed(level: nat, b: nat, t: int, f: nat, cur: nat, stage: nat)
    requires level < 4
  {
    if level == 0 then
      Low(0, cur, stage) <= f < Low(0, cur, stage) + 60 && f % 60 == b
    else
      t > 0 && LastCascade(level, t) > 0 && LastCascade(level, t) >= Low(level, cur, stage)
      && b == BucketAt(level, t) && f == Late(t)
  }

  // ---------- the invariant ----------

  ghost predicate Shape(w: Wheels) {
    |w| == 4 && forall l :: 0 <= l < 4 ==> |w[l]| == WHEEL_SIZES[l]
  }

  ghost predicate DistinctIds(jobs: seq<Job>) {
    forall i, j :: 0 <= i < j < |jobs| ==> jobs[i].id != jobs[j].id
  }

  ghost predicate InBucket(w: Wheels, l: nat, b: nat, job: Job) {
    l < |w| && b < |w[l]| && job in w[l][b]
  }

  ghost predicate Present(w: Wheels, pos: Position, id: int) {
    exists job :: InBucket(w, pos.level, pos.bucket, job) && job.id == id
  }

  /** What is known of one job that is in a bucket. */
  ghost predicate Indexed(pos: map<int, Position>, due: map<int, Entry>, pending: set<int>,
                          base: int, d: nat, cur: nat, stage: nat, l: nat, b: nat, job: Job)
    requires d > 0 && l < 4
  {
    job.id in pos && job.id in due && job.id !in pending && pos[job.id] == Position(l, b)
    && due[job.id].job == job
    && Placed(l, b, TickOf(job.scheduledAt, base, d), due[job.id].tick, cur, stage)
  }

  /** The index names exactly the bucket that holds each job, once; every job is
      where it will be found in time for its due tick. Pending ids are of jobs
      taken out of a bucket and not yet put back. */
  ghost predicate Consistent(w: Wheels, pos: map<int, Position>, due: map<int, Entry>, pending: set<int>,
                             base: int, d: nat, cur: nat, stage: nat)
    requires d > 0
  {
    Shape(w) && pos.Keys == due.Keys && pending <= pos.Keys
    && (forall l: nat, b: nat, job :: l < 4 && InBucket(w, l, b, job) ==>
      Indexed(pos, due, pending, base, d, cur, stage, l, b, job))
    && (forall l: nat, b: nat :: l < 4 && b < |w[l]| ==> DistinctIds(w[l][b]))
    && (forall id :: id in pos && id !in pending ==> pos[id].level < 4 && Present(w, pos[id], id))
  }

  // ---------- updates ----------

  function SetBucket(w: Wheels, l: nat, b: nat, jobs: seq<Job>): Wheels
    requires l < |w| && b < |w[l]|
  {
    w[l := w[l][b := jobs]]
  }

  lemma SetBucketHolds(w: Wheels, l: nat, b: nat, jobs: seq<Job>)
    requires Shape(w) && l < 4 && b < |w[l]|
    ensures Shape(SetBucket(w, l, b, jobs))
    ensures forall l2: nat, b2: nat, job :: l2 < 4 ==>
      (InBucket(SetBucket(w, l, b, jobs), l2, b2, job) <==>
        if l2 == l && b2 == b then job in jobs else InBucket(w, l2, b2, job))
  {
  }

  lemma DistinctAfterSet(w: Wheels, l: nat, b: nat, jobs: seq<Job>)
    requires Shape(w) && l < 4 && b < |w[l]| && DistinctIds(jobs)
    requires forall l: nat, b: nat :: l < 4 && b < |w[l]| ==> DistinctIds(w[l][b])
    ensures forall l2: nat, b2: nat :: l2 < 4 && b2 < |SetBucket(w, l, b, jobs)[l2]| ==>
      DistinctIds(SetBucket(w, l, b, jobs)[l2][b2])
  {
  }

  /** Appending a new job to a bucket where it may be. */
  lemma AddKeeps(w: Wheels, pos: map<int, Position>, due: map<int, Entry>, pending: set<int>,
                 base: int, d: nat, cur: nat, stage: nat, l: nat, b: nat, job: Job, f: nat)
    requires d > 0 && Consistent(w, pos, due, pending, base, d, cur, stage)
    requires l < 4 && b < |w[l]| && job.id !in pos
    requires Placed(l, b, TickOf(job.scheduledAt, base, d), f, cur, stage)
    ensures Consistent(SetBucket(w, l, b, w[l][b] + [job]), pos[job.id := Position(l, b)], due[job.id := Entry(job, f)],
                       pending, base, d, cur, stage)
  {
    var jobs := w[l][b] + [job];
    var w' := SetBucket(w, l, b, jobs);
    SetBucketHolds(w, l, b, jobs);
    forall k | 0 <= k < |w[l][b]| ensures w[l][b][k].id != job.id {
      assert InBucket(w, l, b, w[l][b][k]);
    }
    DistinctAfterSet(w, l, b, jobs);
    forall id | id in pos && id !in pending ensures Present(w', pos[id], id) {
      var j :| InBucket(w, pos[id].level, pos[id].bucket, j) && j.id == id;
      assert InBucket(w', pos[id].level, pos[id].bucket, j);
    }
    assert InBucket(w', l, b, job);
    forall l2: nat, b2: nat, j | l2 < 4 && InBucket(w', l2, b2, j)
      ensures Indexed(pos[job.id := Position(l, b)], due[job.id := Entry(job, f)], pending, base, d, cur, stage, l2, b2, j)
    {
      if !InBucket(w, l2, b2, j) { assert j == job; }
    }
  }

  function IdsOf(jobs: seq<Job>): (s: set<int>)
    ensures forall id :: id in s <==> exists k :: 0 <= k < |jobs| && jobs[k].id == id
  {
    if jobs == [] then {} else IdsOf(jobs[..|jobs| - 1]) + {jobs[|jobs| - 1].id}
  }

  /** Emptying a bucket makes its jobs pending. */
  lemma DrainKeeps(w: Wheels, pos: map<int, Position>, due: map<int, Entry>,
                   base: int, d: nat, cur: nat, stage: nat, l: nat, b: nat)
    requires d > 0 && Consistent(w, pos, due, {}, base, d, cur, stage)
    requires l < 4 && b < |w[l]|
    ensures Consistent(SetBucket(w, l, b, []), pos, due, IdsOf(w[l][b]), base, d, cur, stage)
  {
    var w' := SetBucket(w, l, b, []);
    var pending := IdsOf(w[l][b]);
    SetBucketHolds(w, l, b, []);
    DistinctAfterSet(w, l, b, []);
    forall id | id in pending ensures id in pos && pos[id] == Position(l, b) {
      var k :| 0 <= k < |w[l][b]| && w[l][b][k].id == id;
      assert InBucket(w, l, b, w[l][b][k]);
    }
    forall j | j in w[l][b] ensures j.id in pending {
      var k :| 0 <= k < |w[l][b]| && w[l][b][k] == j;
    }
    forall id | id in pos && id !in pending ensures Present(w', pos[id], id) {
      var j :| InBucket(w, pos[id].level, pos[id].bucket, j) && j.id == id;
      assert InBucket(w', pos[id].level, pos[id].bucket, j);
    }
    forall l2: nat, b2: nat, j | l2 < 4 && InBucket(w', l2, b2, j)
      ensures Indexed(pos, due, pending, base, d, cur, stage, l2, b2, j)
    {
      assert InBucket(w, l2, b2, j);
    }
  }

  /** Dropping a pending id from the index. */
  lemma ForgetKeeps(w: Wheels, pos: map<int, Position>, due: map<int, Entry>, pending: set<int>, id: int,
                    base: int, d: nat, cur: nat, stage: nat)
    requires d > 0 && Consistent(w, pos, due, pending, base, d, cur, stage) && id in pending
    ensures Consistent(w, pos - {id}, due - {id}, pending - {id}, base, d, cur, stage)
  {
    forall l: nat, b: nat, job | l < 4 && InBucket(w, l, b, job)
      ensures Indexed(pos - {id}, due - {id}, pending - {id}, base, d, cur, stage, l, b, job)
    {
      assert Indexed(pos, due, pending, base, d, cur, stage, l, b, job);
    }
  }

  /** Without(jobs, id): the bucket's `removeIf`. */
  function Without(jobs: seq<Job>, id: int): (r: seq<Job>)
    ensures forall job :: job in r <==> job in jobs && job.id != id
  {
    if jobs == [] then []
    else
      var last := jobs[|jobs| - 1];
      assert jobs == jobs[..|jobs| - 1] + [last];
      if last.id == id then Without(jobs[..|jobs| - 1], id) else Without(jobs[..|jobs| - 1], id) + [last]
  }

  lemma {:induction false} WithoutDistinct(jobs: seq<Job>, id: int)
    requires DistinctIds(jobs)
    ensures DistinctIds(Without(jobs, id))
  {
    if jobs != [] {
      var init, last := jobs[..|jobs| - 1], jobs[|jobs| - 1];
      WithoutDistinct(init, id);
      var r := Without(init, id);
      forall k | 0 <= k < |r| ensures r[k].id != last.id {
        assert r[k] in init;
      }
    }
  }

  /** Taking one job out of the bucket the index names. */
  lemma RemoveKeeps(w: Wheels, pos: map<int, Position>, due: map<int, Entry>, id: int,
                    base: int, d: nat, cur: nat, stage: nat)
    requires d > 0 && Consistent(w, pos, due, {}, base, d, cur, stage) && id in pos
    ensures pos[id].level < 4 && pos[id].bucket < |w[pos[id].level]|
    ensures exists job :: job in w[pos[id].level][pos[id].bucket] && job.id == id
    ensures var l, b := pos[id].level, pos[id].bucket;
      Consistent(SetBucket(w, l, b, Without(w[l][b], id)), pos - {id}, due - {id}, {}, base, d, cur, stage)
  {
    var l, b := pos[id].level, pos[id].bucket;
    assert Present(w, pos[id], id);
    var jobs := Without(w[l][b], id);
    var w' := SetBucket(w, l, b, jobs);
    SetBucketHolds(w, l, b, jobs);
    WithoutDistinct(w[l][b], id);
    DistinctAfterSet(w, l, b, jobs);
    forall i | i in pos - {id} ensures Present(w', pos[i], i) {
      var j :| InBucket(w, pos[i].level, pos[i].bucket, j) && j.id == i;
      assert InBucket(w', pos[i].level, pos[i].bucket, j);
    }
    forall l2: nat, b2: nat, j | l2 < 4 && InBucket(w', l2, b2, j)
      ensures Indexed(pos - {id}, due - {id}, {}, base, d, cur, stage, l2, b2, j)
    {
      assert InBucket(w, l2, b2, j);
      assert Indexed(pos, due, {}, base, d, cur, stage, l2, b2, j);
    }
  }
}
