/** The pool refines a sequential machine in which a whole copy happens at the call, in one go. */
module MemcpyRefinement {
  import opened MemcpyMachine
  import opened MemcpyInvariant
  import opened MemcpyPreservation

  /** The simple form: memory and the pointer the latest copy returned. */
  datatype Sequential = Sequential(mem: seq<Byte>, returned: nat)

  function SequentialStep(m: Sequential, e: Event): Sequential {
    match e
    case ClientWrite(mem) => m.(mem := mem)
    case Call(job) =>
      if job.size == 0 then m.(returned := job.dst)
      else if job.FitsIn(m.mem) then Sequential(CopyBytes(m.mem, job), job.dst)
      else m
    case _ => m
  }

  function SequentialRun(mem: seq<Byte>, es: seq<Event>): Sequential {
    if es == [] then Sequential(mem, 0)
    else SequentialStep(SequentialRun(mem, es[..|es| - 1]), es[|es| - 1])
  }

  /** Byte i of worker w's chunk has been written in the current copy. */
  ghost predicate Written(s: State, w: nat, i: nat)
    requires w < |s.ws|
  {
    Posted(s.caller) &&
    (!Behind(s, w) || s.ws[w].pc.Publish? || (s.ws[w].pc.Copying? && i !in s.ws[w].pc.pending))
  }

  ghost predicate ChunkAgrees(s: State, m: Sequential, w: nat)
    requires w < |s.ws| && |m.mem| == |s.mem|
  {
    forall i: nat :: i < s.ws[w].job.size && s.ws[w].job.dst + i < |s.mem| && Written(s, w, i) ==>
      s.mem[s.ws[w].job.dst + i] == m.mem[s.ws[w].job.dst + i]
  }

  ghost predicate TargetHoldsSource(mem: seq<Byte>, job: Job) {
    && job.FitsIn(mem)
    && forall a: nat :: a < |mem| && job.InTarget(a) ==> mem[a] == mem[job.src + (a - job.dst)]
  }

  ghost predicate AgreeOutside(mem: seq<Byte>, other: seq<Byte>, job: Job)
    requires |mem| == |other|
  {
    forall a :: 0 <= a < |mem| && !job.InTarget(a) ==> mem[a] == other[a]
  }

  ghost predicate InlineAgrees(s: State, m: Sequential)
    requires |m.mem| == |s.mem|
  {
    s.caller.Inline? ==>
      forall i: nat :: i < s.caller.job.size && i !in s.caller.pending && s.caller.job.dst + i < |s.mem| ==>
        s.mem[s.caller.job.dst + i] == m.mem[s.caller.job.dst + i]
  }

  /** The concurrent memory agrees with the sequential one except on target bytes still to be written. */
  ghost predicate Simulates(s: State, m: Sequential) {
    && |m.mem| == |s.mem|
    && (!InCopy(s.caller) ==> s.mem == m.mem && s.returned == m.returned)
    && (InCopy(s.caller) ==>
          && m.returned == JobOf(s.caller).dst
          && AgreeOutside(s.mem, m.mem, JobOf(s.caller))
          && TargetHoldsSource(m.mem, JobOf(s.caller)))
    && InlineAgrees(s, m)
    && (forall w: nat :: w < |s.ws| ==> ChunkAgrees(s, m, w))
  }

  /** In a memory where the copy has been done, copying byte i once more gives the same byte. */
  lemma ByteIsFinal(mem: seq<Byte>, m: seq<Byte>, job: Job, part: Job, i: nat)
    requires |mem| == |m| && job.FitsIn(mem) && job.size > 0
    requires AgreeOutside(mem, m, job) && TargetHoldsSource(m, job)
    requires job.dst <= part.dst && part.dst + i < job.dst + job.size && part.dst - job.dst == part.src - job.src
    ensures ByteCopied(mem, part, i)[part.dst + i] == m[part.dst + i]
    ensures AgreeOutside(ByteCopied(mem, part, i), m, job)
  {
    assert job.InTarget(part.dst + i) && !job.InTarget(part.src + i);
    assert m[part.dst + i] == m[part.src + i];
  }

  lemma CallSimulates(c: Config, s: State, m: Sequential, job: Job)
    requires c.Valid() && Inv(c, s) && Enabled(c, s, Call(job)) && Simulates(s, m)
    ensures Simulates(EnterCopy(s, job), SequentialStep(m, Call(job)))
  {
    var t := EnterCopy(s, job);
    var n := SequentialStep(m, Call(job));
    if job.size > 0 {
      assert n.mem == CopyBytes(m.mem, job);
      assert AgreeOutside(t.mem, n.mem, job);
      forall a: nat | a < |n.mem| && job.InTarget(a) ensures n.mem[a] == n.mem[job.src + (a - job.dst)] {
        assert !job.InTarget(job.src + (a - job.dst));
      }
      assert !Posted(t.caller);
    }
  }

  lemma ClientSimulates(c: Config, s: State, m: Sequential, e: Event)
    requires c.Valid() && Inv(c, s) && Enabled(c, s, e) && Simulates(s, m)
    requires e.ClientWrite? || e.Destroy? || e.CallerFails?
    ensures Simulates(Next(c, s, e), SequentialStep(m, e))
  {
    assert !Posted(Next(c, s, e).caller);
  }

  lemma InlineSimulates(c: Config, s: State, m: Sequential, i: nat)
    requires c.Valid() && Inv(c, s) && Enabled(c, s, InlineByte(i)) && Simulates(s, m)
    ensures Simulates(Next(c, s, InlineByte(i)), m)
  {
    ByteIsFinal(s.mem, m.mem, s.caller.job, s.caller.job, i);
  }

  lemma ByteKeepsChunk(c: Config, s: State, m: Sequential, w: nat, i: nat, v: nat)
    requires c.Valid() && Enabled(c, s, WorkerByte(w, i)) && Posted(s.caller) && v < |s.ws| && |m.mem| == |s.mem|
    requires ChunkAgrees(s, m, v) && ChunkOk(s, v) && ChunkOk(s, w) && s.ws[w].pc.job == s.ws[w].job
    requires i < s.ws[w].job.size && s.mem[s.ws[w].job.src + i] == m.mem[s.ws[w].job.dst + i]
    ensures ChunkAgrees(Next(c, s, WorkerByte(w, i)), m, v)
  {
    var t, mine := Next(c, s, WorkerByte(w, i)), s.ws[v].job;
    if v < w { ChunksOrdered(JobOf(s.caller), |s.ws|, v, w); }
    if w < v { ChunksOrdered(JobOf(s.caller), |s.ws|, w, v); }
    assert t.ws[v].job == mine && t.start == s.start && (v != w ==> t.ws[v] == s.ws[v]);
    forall k: nat | k < mine.size && mine.dst + k < |t.mem| && Written(t, v, k)
      ensures t.mem[mine.dst + k] == m.mem[mine.dst + k]
    {
      assert v != w || k != i ==> Written(s, v, k);
    }
  }

  lemma WorkerByteSimulates(c: Config, s: State, m: Sequential, w: nat, i: nat)
    requires c.Valid() && Inv(c, s) && Enabled(c, s, WorkerByte(w, i)) && Simulates(s, m)
    ensures Simulates(Next(c, s, WorkerByte(w, i)), m)
  {
    assert WorkerOk(c, s, w) && ChunkOk(s, w);
    ChunkInside(JobOf(s.caller), |s.ws|, w);
    ByteIsFinal(s.mem, m.mem, JobOf(s.caller), s.ws[w].job, i);
    forall v: nat | v < |s.ws| ensures ChunkAgrees(Next(c, s, WorkerByte(w, i)), m, v) {
      assert ChunkAgrees(s, m, v) && ChunkOk(s, v);
      ByteKeepsChunk(c, s, m, w, i, v);
    }
  }

  lemma WorkerKeepsChunk(c: Config, s: State, m: Sequential, e: Event, v: nat)
    requires c.Valid() && Enabled(c, s, e) && (e.WorkerStep? || e.SpuriousWorker? || e.SpuriousCaller?)
    requires v < |s.ws| && WorkerOk(c, s, v) && |m.mem| == |s.mem| && ChunkAgrees(s, m, v)
    ensures Next(c, s, e).mem == s.mem && |Next(c, s, e).ws| == |s.ws| && ChunkAgrees(Next(c, s, e), m, v)
  {
    var t := Next(c, s, e);
    assert t.mem == s.mem && |t.ws| == |s.ws| && t.ws[v].job == s.ws[v].job;
    assert Posted(t.caller) == Posted(s.caller);
    forall i: nat | i < t.ws[v].job.size && Written(t, v, i) ensures Written(s, v, i) {
    }
  }

  lemma WorkerSimulates(c: Config, s: State, m: Sequential, e: Event)
    requires c.Valid() && Inv(c, s) && Enabled(c, s, e) && Simulates(s, m)
    requires e.WorkerStep? || e.SpuriousWorker? || e.SpuriousCaller?
    ensures Simulates(Next(c, s, e), m)
  {
    var t := Next(c, s, e);
    assert t.mem == s.mem && |t.ws| == |s.ws| && InCopy(t.caller) == InCopy(s.caller);
    forall v: nat | v < |s.ws| ensures ChunkAgrees(t, m, v) {
      assert ChunkAgrees(s, m, v) && WorkerOk(c, s, v);
      WorkerKeepsChunk(c, s, m, e, v);
    }
  }

  /** When every worker has completed, the whole target agrees. */
  lemma AllWritten(c: Config, s: State, m: Sequential)
    requires c.Valid() && Inv(c, s) && Simulates(s, m) && Posted(s.caller)
    requires forall w: nat :: w < |s.ws| ==> !Behind(s, w)
    ensures s.mem == m.mem
  {
    var job := JobOf(s.caller);
    forall a: nat | a < |s.mem| ensures s.mem[a] == m.mem[a] {
      if job.InTarget(a) {
        ChunksTile(job, |s.ws|, a);
        var w: nat :| w < |s.ws| && InChunk(job, |s.ws|, w, a);
        assert ChunkOk(s, w) && ChunkAgrees(s, m, w);
        assert Written(s, w, a - s.ws[w].job.dst);
      }
    }
  }

  lemma ReturnSimulates(c: Config, s: State, m: Sequential)
    requires c.Valid() && Inv(c, s) && CallerReady(s) && Simulates(s, m)
    requires InCopy(s.caller) && CallerNext(c, s).caller.Idle?
    ensures Simulates(CallerNext(c, s), m)
  {
    if s.caller.AwaitLoad? {
      forall w: nat | w < |s.ws| ensures !Behind(s, w) {
        assert GenerationOk(c, s, w);
      }
      AllWritten(c, s, m);
    } else {
      var job := s.caller.job;
      forall a: nat | a < |s.mem| ensures s.mem[a] == m.mem[a] {
        if job.InTarget(a) {
          var i: nat := a - job.dst;
          assert i !in s.caller.pending;
          assert s.mem[job.dst + i] == m.mem[job.dst + i];
        }
      }
    }
  }

  lemma CallerKeepsChunk(c: Config, s: State, m: Sequential, v: nat)
    requires c.Valid() && Inv(c, s) && CallerReady(s) && v < |s.ws| && |m.mem| == |s.mem| && ChunkAgrees(s, m, v)
    requires InCopy(s.caller) == InCopy(CallerNext(c, s).caller)
    ensures |CallerNext(c, s).ws| == |s.ws| && CallerNext(c, s).mem == s.mem && ChunkAgrees(CallerNext(c, s), m, v)
  {
    var t := CallerNext(c, s);
    assert |t.ws| == |s.ws| && t.mem == s.mem && WorkerOk(c, s, v) && GenerationOk(c, s, v);
    SuccDiffers(c, s.start);
    if Posted(t.caller) {
      assert t.ws[v].job == s.ws[v].job;
      forall i: nat | i < t.ws[v].job.size && Written(t, v, i) ensures Written(s, v, i) {
      }
    }
  }

  lemma CallerSimulates(c: Config, s: State, m: Sequential)
    requires c.Valid() && Inv(c, s) && CallerReady(s) && Simulates(s, m)
    requires InCopy(s.caller) == InCopy(CallerNext(c, s).caller)
    ensures Simulates(CallerNext(c, s), m)
  {
    assert |CallerNext(c, s).ws| == |s.ws| && CallerNext(c, s).mem == s.mem && CallerNext(c, s).returned == s.returned;
    forall v: nat | v < |s.ws| ensures ChunkAgrees(CallerNext(c, s), m, v) {
      assert ChunkAgrees(s, m, v);
      CallerKeepsChunk(c, s, m, v);
    }
  }

  lemma NextSimulates(c: Config, s: State, m: Sequential, e: Event)
    requires c.Valid() && Inv(c, s) && Enabled(c, s, e) && Simulates(s, m)
    ensures Simulates(Next(c, s, e), SequentialStep(m, e))
  {
    match e
    case CallerStep =>
      if InCopy(s.caller) && CallerNext(c, s).caller.Idle? { ReturnSimulates(c, s, m); }
      else { CallerSimulates(c, s, m); }
    case Call(job) => CallSimulates(c, s, m, job);
    case WorkerStep(_) => WorkerSimulates(c, s, m, e);
    case SpuriousWorker(_) => WorkerSimulates(c, s, m, e);
    case SpuriousCaller => WorkerSimulates(c, s, m, e);
    case InlineByte(i) => InlineSimulates(c, s, m, i);
    case WorkerByte(w, i) => WorkerByteSimulates(c, s, m, w, i);
    case _ => ClientSimulates(c, s, m, e);
  }

  lemma {:induction false} RunSimulates(c: Config, mem: seq<Byte>, es: seq<Event>)
    requires c.Valid() && Runs(c, mem, es)
    ensures Simulates(After(c, mem, es), SequentialRun(mem, es))
  {
    if es == [] {
    } else {
      var prefix := es[..|es| - 1];
      RunSimulates(c, mem, prefix);
      ReachableInv(c, mem, prefix);
      NextSimulates(c, After(c, mem, prefix), SequentialRun(mem, prefix), es[|es| - 1]);
    }
  }

  /** Main result.  For every number of workers, every counter modulus and every schedule of any
      number of copies: outside a copy, memory and the returned pointer are exactly those of the
      sequential machine that was given the same calls and client writes. */
  lemma PoolRefinesMemcpy(c: Config, mem: seq<Byte>, es: seq<Event>)
    requires c.Valid() && Runs(c, mem, es) && !InCopy(After(c, mem, es).caller)
    ensures After(c, mem, es).mem == SequentialRun(mem, es).mem
    ensures After(c, mem, es).returned == SequentialRun(mem, es).returned
  {
    RunSimulates(c, mem, es);
  }
}
