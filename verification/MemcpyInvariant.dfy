/** What every reachable state of the parallel memcpy pool satisfies, and the simulation of the
    sequential pool that copies in one go. */
module MemcpyInvariant {
  import opened MemcpyMachine

  // ----- The chunks of one copy

  ghost function ChunkOffset(size: nat, workers: nat, w: nat): (r: nat)
    requires workers > 0
  {
    w * (size / workers)
  }

  lemma OffsetNext(size: nat, workers: nat, w: nat)
    requires workers > 0
    ensures ChunkOffset(size, workers, w + 1) == ChunkOffset(size, workers, w) + size / workers
  {
  }

  lemma OffsetMonotone(size: nat, workers: nat, v: nat, w: nat)
    requires v <= w && 0 < workers
    ensures ChunkOffset(size, workers, v) <= ChunkOffset(size, workers, w)
    decreases w - v
  {
    if v < w {
      OffsetNext(size, workers, v);
      OffsetMonotone(size, workers, v + 1, w);
    }
  }

  lemma OffsetBounded(size: nat, workers: nat, w: nat)
    requires w <= workers && 0 < workers
    ensures ChunkOffset(size, workers, w) <= size
  {
    OffsetMonotone(size, workers, w, workers);
  }

  /** The part of `job` that worker `w` copies. */
  ghost function Chunk(job: Job, workers: nat, w: nat): (r: Job)
    requires w < workers
  {
    var offset := ChunkOffset(job.size, workers, w);
    OffsetBounded(job.size, workers, w);
    Job(job.dst + offset, job.src + offset, if w == workers - 1 then job.size - offset else job.size / workers)
  }

  /** Chunks follow one another without gap or overlap, from the first byte to the last. */
  lemma ChunksAdjacent(job: Job, workers: nat, w: nat)
    requires w < workers
    ensures Chunk(job, workers, 0).dst == job.dst
    ensures w + 1 < workers ==>
      Chunk(job, workers, w + 1).dst == Chunk(job, workers, w).dst + Chunk(job, workers, w).size
    ensures w + 1 == workers ==> Chunk(job, workers, w).dst + Chunk(job, workers, w).size == job.dst + job.size
    ensures Chunk(job, workers, w).dst - job.dst == Chunk(job, workers, w).src - job.src
  {
    OffsetNext(job.size, workers, w);
    OffsetBounded(job.size, workers, w);
  }

  /** All workers but the last get the same number of bytes, and the last what is left over as well. */
  lemma ChunkSizes(job: Job, workers: nat, w: nat)
    requires w < workers
    ensures Chunk(job, workers, w).size == job.size / workers + if w == workers - 1 then job.size % workers else 0
  {
    OffsetNext(job.size, workers, workers - 1);
    assert job.size == workers * (job.size / workers) + job.size % workers;
  }

  lemma ChunkInside(job: Job, workers: nat, w: nat)
    requires w < workers
    ensures job.dst <= Chunk(job, workers, w).dst
    ensures Chunk(job, workers, w).dst + Chunk(job, workers, w).size <= job.dst + job.size
    ensures Chunk(job, workers, w).dst - job.dst == Chunk(job, workers, w).src - job.src
  {
    OffsetNext(job.size, workers, w);
    OffsetBounded(job.size, workers, w);
    OffsetBounded(job.size, workers, w + 1);
  }

  lemma ChunksOrdered(job: Job, workers: nat, v: nat, w: nat)
    requires v < w < workers
    ensures Chunk(job, workers, v).dst + Chunk(job, workers, v).size <= Chunk(job, workers, w).dst
  {
    OffsetNext(job.size, workers, v);
    OffsetMonotone(job.size, workers, v + 1, w);
  }

  ghost predicate InChunk(job: Job, workers: nat, w: nat, a: nat)
    requires w < workers
  {
    Chunk(job, workers, w).InTarget(a)
  }

  /** Every target byte belongs to exactly one chunk, also when there are fewer bytes than workers. */
  lemma ChunksTile(job: Job, workers: nat, a: nat)
    requires 0 < workers && job.InTarget(a)
    ensures exists w: nat :: w < workers && InChunk(job, workers, w, a)
    ensures forall v: nat, w: nat ::
      v < workers && w < workers && InChunk(job, workers, v, a) && InChunk(job, workers, w, a) ==> v == w
  {
    var w := OwnerOf(job, workers, a, workers - 1);
    assert InChunk(job, workers, w, a);
    forall v: nat, w: nat | v < workers && w < workers && InChunk(job, workers, v, a) && InChunk(job, workers, w, a)
      ensures v == w
    {
      if v < w { ChunksOrdered(job, workers, v, w); }
      if w < v { ChunksOrdered(job, workers, w, v); }
    }
  }

  lemma OwnerOf(job: Job, workers: nat, a: nat, last: nat) returns (w: nat)
    requires last < workers && job.dst <= a < Chunk(job, workers, last).dst + Chunk(job, workers, last).size
    ensures w <= last && Chunk(job, workers, w).InTarget(a)
  {
    if Chunk(job, workers, last).dst <= a {
      w := last;
    } else {
      ChunksAdjacent(job, workers, last);
      ChunksAdjacent(job, workers, last - 1);
      w := OwnerOf(job, workers, a, last - 1);
    }
  }

  // ----- Phases of the caller

  /** A copy that uses the workers is under way. */
  ghost predicate InParallelCopy(caller: CallerPc) {
    caller.Assign? || caller.LoadStart? || caller.StoreStart? || Posted(caller)
  }

  /** The workers have been given their chunks. */
  ghost predicate Posted(caller: CallerPc) {
    caller.NotifyStart? || caller.AwaitLoad? || caller.AwaitWait? || caller.AwaitParked?
  }

  ghost predicate InCopy(caller: CallerPc) { caller.Inline? || InParallelCopy(caller) }

  /** The generation bump of stop_workers has happened. */
  ghost predicate StopPosted(caller: CallerPc) {
    caller.StopNotify? || caller.Join? || caller.Free? || caller.StopClear? || caller.Destroyed?
  }

  /** Shutdown has begun: `stopping` has been stored. */
  ghost predicate Stopping(caller: CallerPc) { caller.StopAdd? || StopPosted(caller) }

  /** No generation has been announced that a worker has not completed. */
  ghost predicate Quiet(caller: CallerPc) { !Posted(caller) && !StopPosted(caller) }

  ghost function JobOf(caller: CallerPc): Job
    requires InCopy(caller)
  {
    caller.job
  }

  /** Workers the caller has already seen complete the current generation. */
  ghost function Awaited(caller: CallerPc): nat {
    match caller
    case AwaitLoad(_, _, index) => index
    case AwaitWait(_, _, index, _) => index
    case AwaitParked(_, _, index, _) => index
    case _ => 0
  }

  // ----- The invariant

  ghost predicate ShapeOk(c: Config, s: State) {
    && |s.ws| == c.workers
    && s.spawned <= |s.ws|
    && s.start < c.modulus
    && (s.stopping <==> (Stopping(s.caller) && !s.caller.Destroyed?))
    && (s.caller.Allocating? ==> s.spawned == 0)
    && (s.caller.Allocating? || s.caller.StopClear? || s.caller.Destroyed? ==> !s.statesLive)
    && (s.caller.Spawning? || s.caller.Idle? || InCopy(s.caller) ==> s.statesLive)
    && (s.spawned > 0 && !s.caller.StopClear? && !s.caller.Destroyed? ==> s.statesLive)
    && (InCopy(s.caller) ==> JobOf(s.caller).FitsIn(s.mem) && JobOf(s.caller).size > 0)
    && (s.caller.Inline? ==> |s.ws| == 0)
    && (InParallelCopy(s.caller) ==> |s.ws| > 0)
    && ((InCopy(s.caller) || s.caller.Idle?) ==> s.spawned == |s.ws|)
  }

  /** Where the caller stands in its own loops. */
  ghost predicate CallerOk(c: Config, s: State)
    requires c.Valid() && ShapeOk(c, s)
  {
    && (s.caller.Inline? ==> forall i :: i in s.caller.pending ==> i < s.caller.job.size)
    && (s.caller.Assign? ==>
          && s.caller.index < |s.ws|
          && s.caller.offset == ChunkOffset(s.caller.job.size, |s.ws|, s.caller.index))
    && (s.caller.StoreStart? ==> s.caller.generation == c.Succ(s.start))
    && (Posted(s.caller) ==> s.caller.generation == s.start)
    && (s.caller.AwaitLoad? || s.caller.AwaitWait? || s.caller.AwaitParked? ==> s.caller.index < |s.ws|)
    && (s.caller.AwaitWait? || s.caller.AwaitParked? ==> s.caller.seen < c.modulus && c.Succ(s.caller.seen) == s.start)
    && (s.caller.Join? ==> s.caller.index <= s.spawned)
  }

  /** No lost wakeup on completed_generation: if the caller is parked although worker `index` has
      published, that worker still has its notify_one to do. */
  ghost predicate CallerWakeupOk(s: State) {
    s.caller.AwaitParked? && s.caller.index < |s.ws| && s.ws[s.caller.index].completed != s.caller.seen ==>
      s.ws[s.caller.index].pc.Notify?
  }

  /** Between loading a new generation and publishing its completion a worker owns its WorkerState. */
  ghost predicate Busy(pc: WorkerPc) { pc.ReadJob? || pc.Copying? || pc.Publish? }

  /** The worker has the current generation still to complete. */
  ghost predicate Behind(s: State, w: nat)
    requires w < |s.ws|
  {
    s.ws[w].completed != s.start
  }

  /** completed_generation is the start generation, or exactly one behind it. */
  ghost predicate GenerationOk(c: Config, s: State, w: nat)
    requires c.Valid() && w < |s.ws|
  {
    var me := s.ws[w];
    && me.completed < c.modulus
    && (Quiet(s.caller) ==> me.completed == s.start)
    && (Posted(s.caller) ==> me.completed == s.start || s.start == c.Succ(me.completed))
    && (StopPosted(s.caller) ==> s.start == c.Succ(me.completed))
    && (Posted(s.caller) && w < Awaited(s.caller) ==> me.completed == s.start)
  }

  ghost predicate WorkerOk(c: Config, s: State, w: nat)
    requires c.Valid() && w < |s.ws|
  {
    var me := s.ws[w];
    && (me.pc.Absent? <==> w >= s.spawned)
    && (if me.pc.CheckBusy? then me.observed == s.start && Behind(s, w)
        else if Busy(me.pc) then me.observed == s.start && Behind(s, w) && Posted(s.caller)
        else me.pc.Exited? || me.observed == me.completed)
    && (me.pc.Parked? && s.start != me.observed ==> s.caller.NotifyStart? || s.caller.StopNotify?)
    && (me.pc.Exited? ==> Stopping(s.caller))
    && (w < s.spawned && (s.caller.Free? || s.caller.StopClear? || s.caller.Destroyed?) ==> me.pc.Exited?)
    && (s.caller.Join? && w < s.caller.index ==> me.pc.Exited?)
    && (me.pc.Copying? ==> me.pc.job == me.job && forall i :: i in me.pc.pending ==> i < me.job.size)
  }

  /** Which plain fields have been assigned, and to what. */
  ghost predicate ChunkOk(s: State, w: nat)
    requires w < |s.ws|
  {
    && (s.caller.Assign? && w < s.caller.index ==> s.ws[w].job == Chunk(s.caller.job, |s.ws|, w))
    && (InParallelCopy(s.caller) && !s.caller.Assign? ==> s.ws[w].job == Chunk(JobOf(s.caller), |s.ws|, w))
  }

  ghost predicate Inv(c: Config, s: State)
    requires c.Valid()
  {
    && ShapeOk(c, s)
    && CallerOk(c, s)
    && CallerWakeupOk(s)
    && (forall w: nat :: w < |s.ws| ==> GenerationOk(c, s, w))
    && (forall w: nat :: w < |s.ws| ==> WorkerOk(c, s, w))
    && (forall w: nat :: w < |s.ws| ==> ChunkOk(s, w))
  }

  lemma SuccDiffers(c: Config, g: nat)
    requires c.Valid() && g < c.modulus
    ensures c.Succ(g) < c.modulus && c.Succ(g) != g
  {
    if g + 1 < c.modulus {
      assert (g + 1) % c.modulus == g + 1;
    } else {
      assert (g + 1) % c.modulus == 0;
    }
  }

  lemma SuccInjective(c: Config, g: nat, h: nat)
    requires c.Valid() && g < c.modulus && h < c.modulus && c.Succ(g) == c.Succ(h)
    ensures g == h
  {
    SuccDiffers(c, g);
    SuccDiffers(c, h);
    if g + 1 < c.modulus { assert (g + 1) % c.modulus == g + 1; } else { assert (g + 1) % c.modulus == 0; }
    if h + 1 < c.modulus { assert (h + 1) % c.modulus == h + 1; } else { assert (h + 1) % c.modulus == 0; }
  }

  lemma InitInv(c: Config, mem: seq<Byte>)
    requires c.Valid()
    ensures Inv(c, Init(c, mem))
  {
  }
}
