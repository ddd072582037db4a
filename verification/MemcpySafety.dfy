/** What the protocol promises about threads: one memcpy per worker and copy, exclusive ownership of
    plain data, no lost wakeup, and a shutdown after which nothing runs. */
module MemcpySafety {
  import opened MemcpyMachine
  import opened MemcpyInvariant
  import opened MemcpyPreservation
  import opened MemcpyRefinement
  import opened Bits

  // ----- One call, seen by its caller

  /** No further call and no client write. */
  ghost predicate Undisturbed(es: seq<Event>) {
    forall k :: 0 <= k < |es| ==> !es[k].ClientWrite? && !es[k].Call?
  }

  lemma {:induction false} RunsPrefix(c: Config, mem: seq<Byte>, es: seq<Event>, rest: seq<Event>)
    requires c.Valid() && Runs(c, mem, es + rest)
    ensures Runs(c, mem, es)
  {
    if rest == [] {
      assert es + rest == es;
    } else {
      assert (es + rest)[..|es + rest| - 1] == es + rest[..|rest| - 1];
      RunsPrefix(c, mem, es, rest[..|rest| - 1]);
    }
  }

  lemma {:induction false} SequentialUndisturbed(mem: seq<Byte>, es: seq<Event>, rest: seq<Event>)
    requires Undisturbed(rest)
    ensures SequentialRun(mem, es + rest) == SequentialRun(mem, es)
  {
    if rest == [] {
      assert es + rest == es;
    } else {
      assert (es + rest)[..|es + rest| - 1] == es + rest[..|rest| - 1];
      SequentialUndisturbed(mem, es, rest[..|rest| - 1]);
    }
  }

  /** `after` is `before` with exactly the source range moved; of an empty range nothing. */
  ghost predicate Delivered(before: seq<Byte>, after: seq<Byte>, job: Job)
    requires job.FitsIn(before)
  {
    && |after| == |before|
    && (job.size > 0 ==>
          && after[job.dst..job.dst + job.size] == before[job.src..job.src + job.size]
          && after[job.src..job.src + job.size] == before[job.src..job.src + job.size])
    && forall a :: 0 <= a < |before| && !job.InTarget(a) ==> after[a] == before[a]
  }

  /** What a call does in the sequential machine, for every size, 0 included. */
  lemma SequentialCopies(m: Sequential, job: Job)
    requires job.FitsIn(m.mem)
    ensures Delivered(m.mem, SequentialStep(m, Call(job)).mem, job)
    ensures job.size == 0 ==> SequentialStep(m, Call(job)).mem == m.mem
    ensures SequentialStep(m, Call(job)).returned == job.dst
  {
    var after := SequentialStep(m, Call(job)).mem;
    if job.size > 0 {
      forall a: nat | job.src <= a < job.src + job.size ensures after[a] == m.mem[a] {
        assert !job.InTarget(a);
      }
    }
  }

  /** A copy that starts after the schedule `es` and has returned after `rest` more events has moved
      exactly the source range, and changed nothing else, whatever came before. */
  lemma CopyDelivers(c: Config, mem: seq<Byte>, es: seq<Event>, job: Job, rest: seq<Event>)
    requires c.Valid()
    requires Runs(c, mem, es + [Call(job)] + rest) && Undisturbed(rest)
    requires !InCopy(After(c, mem, es + [Call(job)] + rest).caller)
    ensures Runs(c, mem, es) && job.FitsIn(After(c, mem, es).mem)
    ensures Delivered(After(c, mem, es).mem, After(c, mem, es + [Call(job)] + rest).mem, job)
    ensures After(c, mem, es + [Call(job)] + rest).returned == job.dst
  {
    var call := es + [Call(job)];
    RunsPrefix(c, mem, call, rest);
    assert call[..|call| - 1] == es && call[|call| - 1] == Call(job);
    PoolRefinesMemcpy(c, mem, es);
    SequentialCopies(SequentialRun(mem, es), job);
    SequentialUndisturbed(mem, call, rest);
    PoolRefinesMemcpy(c, mem, call + rest);
  }

  /** An empty copy is over at once: it returns dst and touches nothing. */
  lemma EmptyCopyReturns(c: Config, mem: seq<Byte>, es: seq<Event>, job: Job)
    requires c.Valid() && Runs(c, mem, es + [Call(job)]) && job.size == 0
    ensures Runs(c, mem, es) && After(c, mem, es + [Call(job)]).caller.Idle?
    ensures After(c, mem, es + [Call(job)]).mem == After(c, mem, es).mem
    ensures After(c, mem, es + [Call(job)]).returned == job.dst
  {
    var call := es + [Call(job)];
    assert call[..|call| - 1] == es && call[|call| - 1] == Call(job);
  }

  /** Between copies the pool takes every copy that memcpy would: an empty one with any pointers, or one between two
      ranges of memory that do not overlap. */
  lemma IdleAccepts(c: Config, mem: seq<Byte>, es: seq<Event>, job: Job)
    requires c.Valid() && Runs(c, mem, es) && After(c, mem, es).caller.Idle?
    requires var size := |After(c, mem, es).mem|;
             job.size > 0 ==>
               && job.dst + job.size <= size && job.src + job.size <= size
               && (job.dst + job.size <= job.src || job.src + job.size <= job.dst)
    ensures Runs(c, mem, es + [Call(job)])
  {
    Extended(c, mem, es, Call(job));
  }

  /** Construction without a failure, as far as `spawned` threads. */
  lemma {:induction false} Constructing(c: Config, mem: seq<Byte>, spawned: nat) returns (es: seq<Event>)
    requires c.Valid() && spawned <= c.workers
    ensures Runs(c, mem, es) && After(c, mem, es).caller.Spawning?
    ensures After(c, mem, es).spawned == spawned && |After(c, mem, es).ws| == c.workers
    decreases spawned
  {
    if spawned == 0 {
      Extended(c, mem, [], CallerStep);
      es := [CallerStep];
    } else {
      var before := Constructing(c, mem, spawned - 1);
      Extended(c, mem, before, CallerStep);
      es := before + [CallerStep];
    }
  }

  lemma Extended(c: Config, mem: seq<Byte>, es: seq<Event>, e: Event)
    requires c.Valid() && Runs(c, mem, es) && Enabled(c, After(c, mem, es), e)
    ensures Runs(c, mem, es + [e]) && After(c, mem, es + [e]) == Next(c, After(c, mem, es), e)
  {
    var longer := es + [e];
    assert longer[..|longer| - 1] == es && longer[|longer| - 1] == e;
  }

  /** For every number of workers there is a pool that has been constructed, with that many threads. */
  lemma Constructed(c: Config, mem: seq<Byte>) returns (es: seq<Event>)
    requires c.Valid()
    ensures Runs(c, mem, es) && After(c, mem, es).caller.Idle?
    ensures After(c, mem, es).spawned == |After(c, mem, es).ws| == c.workers
  {
    var before := Constructing(c, mem, c.workers);
    Extended(c, mem, before, CallerStep);
    es := before + [CallerStep];
  }

  // ----- Exactly one memcpy per worker and copy

  /** Parallel copies announced so far: executions of line 116. */
  ghost function Announced(c: Config, mem: seq<Byte>, es: seq<Event>): nat
    requires c.Valid() && Runs(c, mem, es)
  {
    if es == [] then 0
    else
      var prefix := es[..|es| - 1];
      Announced(c, mem, prefix) +
      if es[|es| - 1].CallerStep? && After(c, mem, prefix).caller.StoreStart? then 1 else 0
  }

  /** memcpy calls worker w has begun so far: executions of line 172. */
  ghost function Begun(c: Config, mem: seq<Byte>, es: seq<Event>, w: nat): nat
    requires c.Valid() && Runs(c, mem, es) && w < c.workers
  {
    if es == [] then 0
    else
      var prefix := es[..|es| - 1];
      ReachableInv(c, mem, prefix);
      Begun(c, mem, prefix, w) +
      if es[|es| - 1] == WorkerStep(w) && After(c, mem, prefix).ws[w].pc.ReadJob? then 1 else 0
  }

  /** The worker has still to begin the memcpy of the current generation. */
  ghost predicate Owes(s: State, w: nat)
    requires w < |s.ws|
  {
    Posted(s.caller) && Behind(s, w) && !s.ws[w].pc.Copying? && !s.ws[w].pc.Publish?
  }

  ghost function Debt(s: State, w: nat): nat
    requires w < |s.ws|
  {
    if Owes(s, w) then 1 else 0
  }

  lemma DebtStep(c: Config, s: State, e: Event, w: nat)
    requires c.Valid() && Inv(c, s) && Enabled(c, s, e) && w < c.workers
    ensures Inv(c, Next(c, s, e))
    ensures Debt(Next(c, s, e), w) + (if e == WorkerStep(w) && s.ws[w].pc.ReadJob? then 1 else 0)
         == Debt(s, w) + (if e.CallerStep? && s.caller.StoreStart? then 1 else 0)
  {
    NextKeepsInv(c, s, e);
    assert WorkerOk(c, s, w) && GenerationOk(c, s, w);
    assert GenerationOk(c, Next(c, s, e), w) && WorkerOk(c, Next(c, s, e), w);
    SuccDiffers(c, s.start);
  }

  /** However the bounded counters wrap, no worker ever skips or repeats a copy: it has begun as many
      memcpys as copies were announced, or one fewer while the latest is still open. */
  lemma {:induction false} OneMemcpyPerCopy(c: Config, mem: seq<Byte>, es: seq<Event>, w: nat)
    requires c.Valid() && Runs(c, mem, es) && w < c.workers
    ensures |After(c, mem, es).ws| == c.workers
    ensures Begun(c, mem, es, w) + Debt(After(c, mem, es), w) == Announced(c, mem, es)
    ensures !InCopy(After(c, mem, es).caller) ==> Begun(c, mem, es, w) == Announced(c, mem, es)
  {
    ReachableInv(c, mem, es);
    if es != [] {
      var prefix := es[..|es| - 1];
      OneMemcpyPerCopy(c, mem, prefix, w);
      ReachableInv(c, mem, prefix);
      DebtStep(c, After(c, mem, prefix), es[|es| - 1], w);
    }
  }

  /** Calls with at least one byte. */
  ghost function Calls(es: seq<Event>): nat {
    if es == [] then 0
    else Calls(es[..|es| - 1]) + if es[|es| - 1].Call? && es[|es| - 1].job.size > 0 then 1 else 0
  }

  /** A copy is being prepared for the workers but not yet announced. */
  ghost function Preparing(caller: CallerPc): nat {
    if caller.Assign? || caller.LoadStart? || caller.StoreStart? then 1 else 0
  }

  /** Every call with at least one byte is given to the workers, if there are any: it is announced exactly once. */
  lemma {:induction false} EveryCallAnnounced(c: Config, mem: seq<Byte>, es: seq<Event>)
    requires c.Valid() && Runs(c, mem, es)
    ensures |After(c, mem, es).ws| == c.workers
    ensures Announced(c, mem, es) + Preparing(After(c, mem, es).caller) == if c.workers > 0 then Calls(es) else 0
  {
    ReachableInv(c, mem, es);
    if es != [] {
      var prefix := es[..|es| - 1];
      EveryCallAnnounced(c, mem, prefix);
      ReachableInv(c, mem, prefix);
    }
  }

  /** start_generation moves only when a copy is announced and when shutdown is. */
  lemma StartStep(c: Config, s: State, e: Event)
    requires c.Valid() && Inv(c, s) && Enabled(c, s, e)
    ensures var t := Next(c, s, e);
            if e.CallerStep? && (s.caller.StoreStart? || s.caller.StopAdd?) then
              t.start == c.Succ(s.start) && (StopPosted(t.caller) <==> s.caller.StopAdd?) && !StopPosted(s.caller)
            else
              t.start == s.start && (StopPosted(t.caller) <==> StopPosted(s.caller))
  {
  }

  /** start_generation counts the announcements, modulo the counter size, and the one at shutdown. */
  lemma {:induction false} GenerationCounts(c: Config, mem: seq<Byte>, es: seq<Event>)
    requires c.Valid() && Runs(c, mem, es)
    ensures After(c, mem, es).start
         == (Announced(c, mem, es) + if StopPosted(After(c, mem, es).caller) then 1 else 0) % c.modulus
  {
    if es == [] {
      ModUnique(0, c.modulus, 0, 0);
    } else {
      var prefix, e := es[..|es| - 1], es[|es| - 1];
      GenerationCounts(c, mem, prefix);
      ReachableInv(c, mem, prefix);
      StartStep(c, After(c, mem, prefix), e);
      SuccCounts(c, Announced(c, mem, prefix));
    }
  }

  lemma SuccCounts(c: Config, x: nat)
    requires c.Valid()
    ensures c.Succ(x % c.modulus) == (x + 1) % c.modulus
  {
    var m, r := c.modulus, x % c.modulus;
    NextMod(x, m, x / m, r);
    NextMod(r, m, 0, r);
  }

  lemma NextMod(x: nat, m: nat, q: nat, r: nat)
    requires m > 0 && x == q * m + r && r < m
    ensures (x + 1) % m == if r + 1 == m then 0 else r + 1
  {
    if r + 1 == m {
      assert x + 1 == (q + 1) * m;
      ModUnique(x + 1, m, q + 1, 0);
    } else {
      ModUnique(x + 1, m, q, r + 1);
    }
  }

  /** The counters themselves: equal to the start generation, or exactly one behind it, and equal
      whenever no copy is open and shutdown has not begun. */
  lemma CompletedWithinOne(c: Config, mem: seq<Byte>, es: seq<Event>, w: nat)
    requires c.Valid() && Runs(c, mem, es) && w < c.workers
    ensures var s := After(c, mem, es);
            && |s.ws| == c.workers
            && s.ws[w].completed < c.modulus
            && (s.ws[w].completed == s.start || c.Succ(s.ws[w].completed) == s.start)
            && (!InCopy(s.caller) && !Stopping(s.caller) ==> s.ws[w].completed == s.start)
  {
    ReachableInv(c, mem, es);
    assert GenerationOk(c, After(c, mem, es), w);
  }

  // ----- Ownership of plain data

  /** A location that is not atomic: the plain fields of a WorkerState, or one byte of memory. */
  datatype Location = Fields(w: nat) | Memory(a: nat)

  datatype Thread = CallerThread | WorkerThread(w: nat)

  ghost function ThreadOf(e: Event): Thread {
    match e
    case WorkerStep(w) => WorkerThread(w)
    case WorkerByte(w, _) => WorkerThread(w)
    case SpuriousWorker(w) => WorkerThread(w)
    case _ => CallerThread
  }

  ghost predicate Writes(s: State, e: Event, l: Location) {
    match e
    case ClientWrite(_) => l.Memory?
    case CallerStep =>
      || (s.caller.Assign? && l == Fields(s.caller.index))
      || (s.caller.Free? && l.Fields?)
    case InlineByte(i) => s.caller.Inline? && l == Memory(s.caller.job.dst + i)
    case WorkerByte(w, i) => w < |s.ws| && s.ws[w].pc.Copying? && l == Memory(s.ws[w].pc.job.dst + i)
    case _ => false
  }

  ghost predicate Reads(s: State, e: Event, l: Location) {
    match e
    case InlineByte(i) => s.caller.Inline? && l == Memory(s.caller.job.src + i)
    case WorkerStep(w) => w < |s.ws| && s.ws[w].pc.ReadJob? && l == Fields(w)
    case WorkerByte(w, i) => w < |s.ws| && s.ws[w].pc.Copying? && l == Memory(s.ws[w].pc.job.src + i)
    case _ => false
  }

  /** The list of writes is complete: an event changes nothing else. */
  lemma WritesCoverChanges(c: Config, s: State, e: Event, a: nat, w: nat)
    requires c.Valid() && Enabled(c, s, e)
    ensures var t := Next(c, s, e);
            && (!e.ClientWrite? ==> |t.mem| == |s.mem|) && |t.ws| == |s.ws|
            && (a < |s.mem| && !Writes(s, e, Memory(a)) ==> t.mem[a] == s.mem[a])
            && (w < |s.ws| && !Writes(s, e, Fields(w)) ==> t.ws[w].job == s.ws[w].job)
  {
  }

  /** The list of reads is complete: where an event neither reads nor writes a byte, its value makes no difference. */
  lemma ReadsCoverMemory(c: Config, s: State, e: Event, a: nat, b: Byte)
    requires c.Valid() && Enabled(c, s, e) && a < |s.mem|
    requires !Reads(s, e, Memory(a)) && !Writes(s, e, Memory(a))
    ensures Enabled(c, s.(mem := s.mem[a := b]), e)
    ensures var t := Next(c, s, e);
            Next(c, s.(mem := s.mem[a := b]), e) == t.(mem := t.mem[a := b])
  {
    match e
    case InlineByte(i) => ByteElsewhere(s.mem, s.caller.job, i, a, b);
    case WorkerByte(w, i) => ByteElsewhere(s.mem, s.ws[w].pc.job, i, a, b);
    case CallerStep => CallerNeedsNoMemory(c, s, s.mem[a := b]);
    case WorkerStep(w) => WorkerNeedsNoMemory(c, s, w, s.mem[a := b]);
    case _ =>
  }

  lemma CallerNeedsNoMemory(c: Config, s: State, mem: seq<Byte>)
    requires c.Valid() && Enabled(c, s, CallerStep) && |mem| == |s.mem|
    ensures Enabled(c, s.(mem := mem), CallerStep)
    ensures Next(c, s.(mem := mem), CallerStep) == Next(c, s, CallerStep).(mem := mem)
    ensures Next(c, s, CallerStep).mem == s.mem
  {
    var moved := s.(mem := mem);
    assert Enabled(c, moved, CallerStep);
    match s.caller
    case Assign(_, _, _) => assert AssignStep(moved) == AssignStep(s).(mem := mem);
    case AwaitLoad(_, _, _) => assert AwaitStep(moved) == AwaitStep(s).(mem := mem);
    case _ =>
  }

  lemma WorkerNeedsNoMemory(c: Config, s: State, w: nat, mem: seq<Byte>)
    requires c.Valid() && Enabled(c, s, WorkerStep(w)) && |mem| == |s.mem|
    ensures Enabled(c, s.(mem := mem), WorkerStep(w))
    ensures Next(c, s.(mem := mem), WorkerStep(w)) == Next(c, s, WorkerStep(w)).(mem := mem)
    ensures Next(c, s, WorkerStep(w)).mem == s.mem
  {
  }

  lemma ByteElsewhere(mem: seq<Byte>, job: Job, i: nat, a: nat, b: Byte)
    requires job.dst + i < |mem| && job.src + i < |mem| && a < |mem| && a != job.dst + i && a != job.src + i
    ensures ByteCopied(mem[a := b], job, i) == ByteCopied(mem, job, i)[a := b]
  {
  }

  ghost predicate Conflict(s: State, d: Event, e: Event, l: Location) {
    Writes(s, d, l) && (Reads(s, e, l) || Writes(s, e, l))
  }

  lemma WorkersApart(c: Config, s: State, v: nat, i: nat, w: nat, j: nat)
    requires c.Valid() && Inv(c, s) && v != w
    requires Enabled(c, s, WorkerByte(v, i)) && Enabled(c, s, WorkerByte(w, j))
    ensures s.ws[v].pc.job.dst + i != s.ws[w].pc.job.dst + j
    ensures s.ws[v].pc.job.dst + i != s.ws[w].pc.job.src + j
  {
    assert WorkerOk(c, s, v) && WorkerOk(c, s, w) && ChunkOk(s, v) && ChunkOk(s, w);
    var job := JobOf(s.caller);
    ChunkInside(job, |s.ws|, v);
    ChunkInside(job, |s.ws|, w);
    if v < w { ChunksOrdered(job, |s.ws|, v, w); } else { ChunksOrdered(job, |s.ws|, w, v); }
  }

  lemma NoConflict(c: Config, s: State, d: Event, e: Event, l: Location)
    requires c.Valid() && Inv(c, s) && Enabled(c, s, d) && Enabled(c, s, e) && ThreadOf(d) != ThreadOf(e)
    ensures !Conflict(s, d, e, l)
  {
    if d.WorkerByte? && e.WorkerByte? {
      WorkersApart(c, s, d.w, d.i, e.w, e.i);
    } else {
      if d.WorkerByte? { assert WorkerOk(c, s, d.w); }
      if e.WorkerByte? { assert WorkerOk(c, s, e.w); }
      if e.WorkerStep? { assert WorkerOk(c, s, e.w) && GenerationOk(c, s, e.w); }
    }
  }

  /** Data-race freedom: in no reachable state are two threads about to touch the same plain location,
      one of them writing.  Assigning chunks, reading them, every byte of every memcpy, client
      writes between copies, and the release of worker_states are all covered. */
  lemma RaceFree(c: Config, mem: seq<Byte>, es: seq<Event>, d: Event, e: Event, l: Location)
    requires c.Valid() && Runs(c, mem, es)
    requires Enabled(c, After(c, mem, es), d) && Enabled(c, After(c, mem, es), e) && ThreadOf(d) != ThreadOf(e)
    ensures !Conflict(After(c, mem, es), d, e, l)
  {
    ReachableInv(c, mem, es);
    NoConflict(c, After(c, mem, es), d, e, l);
  }

  /** A WorkerState has one owner: the caller while it assigns, the worker from seeing a generation to
      publishing its completion. */
  lemma SingleOwner(c: Config, mem: seq<Byte>, es: seq<Event>, w: nat)
    requires c.Valid() && Runs(c, mem, es) && w < c.workers
    ensures var s := After(c, mem, es);
            && |s.ws| == c.workers
            && (Busy(s.ws[w].pc) ==>
                  && Posted(s.caller)
                  && s.ws[w].observed == s.start
                  && s.ws[w].completed != s.start
                  && s.ws[w].job == Chunk(JobOf(s.caller), c.workers, w))
            && (InParallelCopy(s.caller) && !Posted(s.caller) ==> s.ws[w].completed == s.start)
  {
    ReachableInv(c, mem, es);
    assert WorkerOk(c, After(c, mem, es), w) && ChunkOk(After(c, mem, es), w) && GenerationOk(c, After(c, mem, es), w);
  }

  // ----- Wakeups

  /** No lost wakeup.  A thread is parked on a value that has changed only while the notification
      that belongs to the change is still to come. */
  lemma NoLostWakeup(c: Config, mem: seq<Byte>, es: seq<Event>)
    requires c.Valid() && Runs(c, mem, es)
    ensures var s := After(c, mem, es);
            && (forall w: nat :: w < |s.ws| && s.ws[w].pc.Parked? && s.start != s.ws[w].observed ==>
                  s.caller.NotifyStart? || s.caller.StopNotify?)
            && (s.caller.AwaitParked? ==>
                  && s.caller.index < |s.ws|
                  && (s.ws[s.caller.index].completed != s.caller.seen ==> s.ws[s.caller.index].pc.Notify?))
  {
    ReachableInv(c, mem, es);
    var s := After(c, mem, es);
    forall w: nat | w < |s.ws| && s.ws[w].pc.Parked? && s.start != s.ws[w].observed
      ensures s.caller.NotifyStart? || s.caller.StopNotify?
    {
      assert WorkerOk(c, s, w);
    }
  }

  // ----- Shutdown

  /** Once `stopping` is stored no worker copies any more; the states are released only when every
      thread that was ever created has returned, and then no worker has a step left. */
  lemma ShutdownSafe(c: Config, mem: seq<Byte>, es: seq<Event>, w: nat)
    requires c.Valid() && Runs(c, mem, es) && w < c.workers
    ensures var s := After(c, mem, es);
            && |s.ws| == c.workers
            && (Stopping(s.caller) || s.caller.StopStore? ==> !Busy(s.ws[w].pc))
            && (s.caller.Free? || !s.statesLive ==> s.ws[w].pc.Exited? || s.ws[w].pc.Absent?)
            && (!s.statesLive ==> !WorkerReady(s, w))
            && (s.caller.Destroyed? ==> !s.statesLive && !s.stopping)
            && (s.ws[w].pc.Absent? <==> w >= s.spawned)
  {
    ReachableInv(c, mem, es);
    assert WorkerOk(c, After(c, mem, es), w) && GenerationOk(c, After(c, mem, es), w);
  }

  /** The same as a statement about single events: after `stopping` is stored there is no event that
      starts or continues a worker's memcpy. */
  lemma NoCopyAfterStop(c: Config, mem: seq<Byte>, es: seq<Event>, e: Event)
    requires c.Valid() && Runs(c, mem, es) && Stopping(After(c, mem, es).caller) && Enabled(c, After(c, mem, es), e)
    ensures Next(c, After(c, mem, es), e).mem == After(c, mem, es).mem
    ensures e.WorkerStep? ==> !After(c, mem, es).ws[e.w].pc.ReadJob?
  {
    ReachableInv(c, mem, es);
    if e.WorkerStep? || e.WorkerByte? {
      assert WorkerOk(c, After(c, mem, es), e.w);
    }
  }
}
