/**
 * The parallel segment map as a state machine: the threads of a pool start pending segments and
 * finish them in any order into index slots. How many run at once is up to the pool.
 */
module Schedule {
  import opened Bytes
  import opened Segments
  import opened Wrappers

  datatype Pool = Pool(pending: set<nat>, running: set<nat>, slots: map<nat, Sealed>)

  datatype Event = Start(i: nat) | Finish(i: nat)

  datatype Job = Job(c: Context, segs: seq<bytes>)

  function Indices(n: nat): (s: set<nat>)
    ensures |s| == n && forall i :: i in s <==> 0 <= i < n
  {
    if n == 0 then {} else Indices(n - 1) + {n - 1}
  }

  function Initial(job: Job): Pool
  {
    Pool(Indices(|job.segs|), {}, map[])
  }

  predicate Enabled(pool: Pool, event: Event)
  {
    match event
    case Start(i) => i in pool.pending
    case Finish(i) => i in pool.running
  }

  ghost function Step(job: Job, pool: Pool, event: Event): Pool
    requires Enabled(pool, event) && (event.Finish? ==> event.i < |job.segs|)
  {
    match event
    case Start(i) => pool.(pending := pool.pending - {i}, running := pool.running + {i})
    case Finish(i) =>
      pool.(running := pool.running - {i}, slots := pool.slots[i := SealedSegment(job.c, i, job.segs[i])])
  }

  /** Every index below n is in exactly one of the three places. */
  predicate Partition(p: set<nat>, r: set<nat>, done: set<nat>, n: nat)
  {
    p + r + done == Indices(n) && p !! r !! done
  }

  ghost predicate SlotsRight(job: Job, slots: map<nat, Sealed>)
  {
    forall i :: i in slots ==> i < |job.segs| && slots[i] == SealedSegment(job.c, i, job.segs[i])
  }

  /** Each segment is in exactly one place, and a filled slot holds its own segment's result. */
  ghost predicate Inv(job: Job, pool: Pool)
  {
    && Partition(pool.pending, pool.running, pool.slots.Keys, |job.segs|)
    && SlotsRight(job, pool.slots)
  }

  lemma InitialHolds(job: Job)
    ensures Inv(job, Initial(job))
  {
  }

  lemma MoveKeepsPartition(p: set<nat>, r: set<nat>, done: set<nat>, n: nat, i: nat)
    requires Partition(p, r, done, n)
    ensures i in p + r + done ==> i < n
    ensures i in p ==> Partition(p - {i}, r + {i}, done, n)
    ensures i in r ==> Partition(p, r - {i}, done + {i}, n)
  {
    hide Indices;
    assert i in Indices(n) ==> i < n;
    if i in p {
      assert (p - {i}) + (r + {i}) + done == p + r + done;
    }
    if i in r {
      assert p + (r - {i}) + (done + {i}) == p + r + done;
    }
  }

  /** What every event of the pool keeps. */
  lemma StepKeepsInv(job: Job, pool: Pool, event: Event)
    requires Inv(job, pool) && Enabled(pool, event)
    ensures event.i < |job.segs| && Inv(job, Step(job, pool, event))
  {
    hide SealedSegment, Partition, Indices;
    var i, keys := event.i, pool.slots.Keys;
    MoveKeepsPartition(pool.pending, pool.running, keys, |job.segs|, i);
    match event
    case Start(_) =>
    case Finish(_) =>
      assert Step(job, pool, event).slots.Keys == keys + {i};
  }

  /** The pool after a list of events; None when some event was not enabled. */
  ghost function Run(job: Job, pool: Pool, events: seq<Event>): Option<Pool>
    requires Inv(job, pool)
    decreases |events|
  {
    if events == [] then Some(pool)
    else if !Enabled(pool, events[0]) then None
    else
      StepKeepsInv(job, pool, events[0]);
      Run(job, Step(job, pool, events[0]), events[1..])
  }

  lemma {:induction false} RunKeepsInv(job: Job, pool: Pool, events: seq<Event>)
    requires Inv(job, pool) && Run(job, pool, events).Some?
    ensures Inv(job, Run(job, pool, events).value)
    decreases |events|
  {
    hide Inv, Step, Enabled;
    if events != [] {
      StepKeepsInv(job, pool, events[0]);
      RunKeepsInv(job, Step(job, pool, events[0]), events[1..]);
    }
  }

  predicate Finished(pool: Pool)
  {
    pool.pending == {} && pool.running == {}
  }

  /** `collect`: the slots in index order. */
  ghost function Collected(job: Job, pool: Pool): seq<Sealed>
    requires Inv(job, pool) && Finished(pool)
  {
    hide SealedSegment, Indices;
    SlotsFull(job, pool);
    seq(|job.segs|, i requires 0 <= i < |job.segs| => pool.slots[i])
  }

  lemma SlotsFull(job: Job, pool: Pool)
    requires Inv(job, pool) && Finished(pool)
    ensures forall i: nat :: i < |job.segs| ==> i in pool.slots
  {
    hide SealedSegment, Indices;
    assert {} + {} + pool.slots.Keys == pool.slots.Keys;
    forall i: nat | i < |job.segs| ensures i in pool.slots {
      assert i in Indices(|job.segs|);
    }
  }

  /** Whatever the order of events, a finished run collects exactly the sequential map. */
  lemma EveryScheduleIsSequential(job: Job, events: seq<Event>)
    requires Run(job, (InitialHolds(job); Initial(job)), events).Some?
    requires Finished(Run(job, Initial(job), events).value)
    ensures (RunKeepsInv(job, Initial(job), events);
      Collected(job, Run(job, Initial(job), events).value) == SequentialMap(job.c, job.segs))
  {
    hide SealedSegment, Indices;
    RunKeepsInv(job, Initial(job), events);
    SlotsFull(job, Run(job, Initial(job), events).value);
  }

  // ----- Progress -----

  function Work(pool: Pool): nat
  {
    2 * |pool.pending| + |pool.running|
  }

  /** Every event takes one unit of work off. */
  lemma StepWorks(job: Job, pool: Pool, event: Event)
    requires Inv(job, pool) && Enabled(pool, event)
    ensures event.i < |job.segs| && Work(Step(job, pool, event)) == Work(pool) - 1
  {
    hide SealedSegment;
    StepKeepsInv(job, pool, event);
  }

  /** However few threads there are, an unfinished pool has an event that needs no more of them. */
  lemma NeverStuck(pool: Pool, threads: nat)
    requires !Finished(pool) && threads > 0
    ensures exists event :: Enabled(pool, event) && (event.Start? ==> |pool.running| < threads)
  {
    if pool.running != {} {
      var i :| i in pool.running;
      assert Enabled(pool, Finish(i));
    } else {
      var i :| i in pool.pending;
      assert Enabled(pool, Start(i));
    }
  }

  lemma {:induction false} RunWorks(job: Job, pool: Pool, events: seq<Event>)
    requires Inv(job, pool) && Run(job, pool, events).Some?
    ensures Work(Run(job, pool, events).value) == Work(pool) - |events|
    decreases |events|
  {
    hide Inv, Step, Enabled, Work;
    if events != [] {
      StepKeepsInv(job, pool, events[0]);
      StepWorks(job, pool, events[0]);
      RunWorks(job, Step(job, pool, events[0]), events[1..]);
    }
  }

  /** A run ends after exactly two events per segment, and not before. */
  lemma RunFinishesOnTime(job: Job, events: seq<Event>)
    requires Run(job, (InitialHolds(job); Initial(job)), events).Some?
    ensures |events| <= 2 * |job.segs|
    ensures Finished(Run(job, Initial(job), events).value) <==> |events| == 2 * |job.segs|
  {
    InitialHolds(job);
    RunWorks(job, Initial(job), events);
  }

  // ----- The parallel branch -----

  /** The pool driven by an arbitrary scheduler: which enabled event comes next is left open. */
  method EncryptInParallel(c: Context, segs: seq<bytes>) returns (results: seq<Sealed>)
    requires SegmentsLive(c, segs)
    ensures results == SequentialMap(c, segs)
  {
    hide SegmentLive, SegmentCipher, Indices, Partition;
    ghost var job := Job(c, segs);
    InitialHolds(job);
    var pending, running: set<nat>, slots: map<nat, Sealed> := Indices(|segs|), {}, map[];
    while pending != {} || running != {}
      invariant Inv(job, Pool(pending, running, slots))
      decreases Work(Pool(pending, running, slots))
    {
      ghost var before := Pool(pending, running, slots);
      var finishNext: bool := *;
      if pending == {} || (finishNext && running != {}) {
        var i :| i in running;
        StepKeepsInv(job, before, Finish(i));
        StepWorks(job, before, Finish(i));
        var ct := EncryptSegment(c, i, segs[i]);
        running := running - {i};
        slots := slots[i := Sealed(i, |segs[i]|, ct)];
        assert Pool(pending, running, slots) == Step(job, before, Finish(i));
      } else {
        var i :| i in pending;
        StepKeepsInv(job, before, Start(i));
        StepWorks(job, before, Start(i));
        pending := pending - {i};
        running := running + {i};
        assert Pool(pending, running, slots) == Step(job, before, Start(i));
      }
    }
    SlotsFull(job, Pool(pending, running, slots));
    results := seq(|segs|, i requires 0 <= i < |segs| && i in slots => slots[i]);
  }
}
