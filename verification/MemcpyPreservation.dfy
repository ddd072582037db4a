/** Every event keeps the invariant. */
module MemcpyPreservation {
  import opened MemcpyMachine
  import opened MemcpyInvariant

  lemma ClientKeeps(c: Config, s: State, e: Event)
    requires c.Valid() && Inv(c, s) && Enabled(c, s, e)
    requires e.ClientWrite? || e.Call? || e.Destroy? || e.CallerFails?
    ensures Inv(c, Next(c, s, e))
  {
    var t := Next(c, s, e);
    assert t.ws == s.ws && t.start == s.start;
    forall w: nat | w < |t.ws| ensures GenerationOk(c, t, w) && WorkerOk(c, t, w) && ChunkOk(t, w) {
      assert GenerationOk(c, s, w) && WorkerOk(c, s, w);
    }
  }

  lemma ByteKeeps(c: Config, s: State, e: Event)
    requires c.Valid() && Inv(c, s) && Enabled(c, s, e)
    requires e.InlineByte? || e.WorkerByte?
    ensures Inv(c, Next(c, s, e))
  {
    var t := Next(c, s, e);
    assert |t.mem| == |s.mem|;
    forall w: nat | w < |t.ws| ensures GenerationOk(c, t, w) && WorkerOk(c, t, w) && ChunkOk(t, w) {
      assert GenerationOk(c, s, w) && WorkerOk(c, s, w) && ChunkOk(s, w);
    }
  }

  lemma SpuriousKeeps(c: Config, s: State, e: Event)
    requires c.Valid() && Inv(c, s) && Enabled(c, s, e)
    requires e.SpuriousWorker? || e.SpuriousCaller?
    ensures Inv(c, Next(c, s, e))
  {
    var t := Next(c, s, e);
    forall w: nat | w < |t.ws| ensures GenerationOk(c, t, w) && WorkerOk(c, t, w) && ChunkOk(t, w) {
      assert GenerationOk(c, s, w) && WorkerOk(c, s, w) && ChunkOk(s, w);
    }
  }

  /** A step that changes one worker, and at most wakes the caller, only has to answer for that worker. */
  lemma OneWorkerChanged(c: Config, s: State, w: nat, me: Worker, caller: CallerPc)
    requires c.Valid() && Inv(c, s) && w < |s.ws|
    requires caller == s.caller || caller == CallerWoken(s.caller, w)
    requires var t := s.(ws := s.ws[w := me], caller := caller);
             && CallerWakeupOk(t) && GenerationOk(c, t, w) && WorkerOk(c, t, w)
    requires me.job == s.ws[w].job
    ensures Inv(c, s.(ws := s.ws[w := me], caller := caller))
  {
    var t := s.(ws := s.ws[w := me], caller := caller);
    assert ShapeOk(c, t) && CallerOk(c, t);
    assert ChunkOk(s, w);
    assert ChunkOk(t, w);
    forall v: nat | v < |t.ws| && v != w ensures GenerationOk(c, t, v) && WorkerOk(c, t, v) && ChunkOk(t, v) {
      assert t.ws[v] == s.ws[v];
      assert GenerationOk(c, s, v) && WorkerOk(c, s, v) && ChunkOk(s, v);
    }
  }

  lemma WorkerMoveOk(c: Config, s: State, w: nat)
    requires c.Valid() && Inv(c, s) && WorkerReady(s, w)
    ensures var t := WorkerNext(s, w);
            CallerWakeupOk(t) && GenerationOk(c, t, w) && WorkerOk(c, t, w)
  {
    assert GenerationOk(c, s, w) && WorkerOk(c, s, w);
    assert WorkerNext(s, w).ws[w] == WorkerMove(s, s.ws[w]);
    SuccDiffers(c, s.ws[w].completed);
  }

  lemma WorkerKeeps(c: Config, s: State, w: nat)
    requires c.Valid() && Inv(c, s) && WorkerReady(s, w)
    ensures Inv(c, WorkerNext(s, w))
  {
    WorkerMoveOk(c, s, w);
    OneWorkerChanged(c, s, w, WorkerMove(s, s.ws[w]), WorkerNext(s, w).caller);
  }

  lemma AssignKeeps(c: Config, s: State)
    requires c.Valid() && Inv(c, s) && s.caller.Assign?
    ensures CallerReady(s) && Inv(c, CallerNext(c, s))
  {
    var t := CallerNext(c, s);
    var Assign(job, index, offset) := s.caller;
    OffsetNext(job.size, |s.ws|, index);
    OffsetBounded(job.size, |s.ws|, index);
    assert t.ws[index].job == Chunk(job, |s.ws|, index);
    forall w: nat | w < |t.ws| ensures GenerationOk(c, t, w) && WorkerOk(c, t, w) && ChunkOk(t, w) {
      assert GenerationOk(c, s, w) && WorkerOk(c, s, w) && ChunkOk(s, w);
    }
  }

  lemma AnnounceKeeps(c: Config, s: State)
    requires c.Valid() && Inv(c, s)
    requires s.caller.LoadStart? || s.caller.StoreStart? || s.caller.StopAdd?
    ensures Inv(c, CallerNext(c, s))
  {
    var t := CallerNext(c, s);
    SuccDiffers(c, s.start);
    forall w: nat | w < |t.ws| ensures GenerationOk(c, t, w) && WorkerOk(c, t, w) && ChunkOk(t, w) {
      assert GenerationOk(c, s, w) && WorkerOk(c, s, w) && ChunkOk(s, w);
    }
  }

  lemma NotifyKeeps(c: Config, s: State)
    requires c.Valid() && Inv(c, s)
    requires s.caller.NotifyStart? || s.caller.StopNotify?
    ensures Inv(c, CallerNext(c, s))
  {
    var t := CallerNext(c, s);
    assert |t.ws| == |s.ws|;
    forall w: nat | w < |t.ws| ensures GenerationOk(c, t, w) && WorkerOk(c, t, w) && ChunkOk(t, w) {
      assert GenerationOk(c, s, w) && WorkerOk(c, s, w) && ChunkOk(s, w);
    }
  }

  lemma AwaitKeeps(c: Config, s: State)
    requires c.Valid() && Inv(c, s) && CallerReady(s)
    requires s.caller.AwaitLoad? || s.caller.AwaitWait?
    ensures Inv(c, CallerNext(c, s))
  {
    var t := CallerNext(c, s);
    assert t.ws == s.ws;
    assert GenerationOk(c, s, s.caller.index);
    forall w: nat | w < |t.ws| ensures GenerationOk(c, t, w) && WorkerOk(c, t, w) && ChunkOk(t, w) {
      assert GenerationOk(c, s, w) && WorkerOk(c, s, w) && ChunkOk(s, w);
    }
  }

  lemma LifecycleKeeps(c: Config, s: State)
    requires c.Valid() && Inv(c, s) && CallerReady(s)
    requires s.caller.Allocating? || s.caller.Spawning? || s.caller.Inline? || s.caller.StopStore?
          || s.caller.Join? || s.caller.Free? || s.caller.StopClear?
    ensures Inv(c, CallerNext(c, s))
  {
    var t := CallerNext(c, s);
    assert |t.ws| == |s.ws|;
    forall w: nat | w < |t.ws| ensures GenerationOk(c, t, w) && WorkerOk(c, t, w) && ChunkOk(t, w) {
      assert GenerationOk(c, s, w) && WorkerOk(c, s, w) && ChunkOk(s, w);
    }
  }

  lemma NextKeepsInv(c: Config, s: State, e: Event)
    requires c.Valid() && Inv(c, s) && Enabled(c, s, e)
    ensures Inv(c, Next(c, s, e))
  {
    match e
    case CallerStep =>
      match s.caller {
        case Assign(_, _, _) => AssignKeeps(c, s);
        case LoadStart(_) => AnnounceKeeps(c, s);
        case StoreStart(_, _) => AnnounceKeeps(c, s);
        case StopAdd => AnnounceKeeps(c, s);
        case NotifyStart(_, _) => NotifyKeeps(c, s);
        case StopNotify => NotifyKeeps(c, s);
        case AwaitLoad(_, _, _) => AwaitKeeps(c, s);
        case AwaitWait(_, _, _, _) => AwaitKeeps(c, s);
        case _ => LifecycleKeeps(c, s);
      }
    case WorkerStep(w) => WorkerKeeps(c, s, w);
    case InlineByte(_) => ByteKeeps(c, s, e);
    case WorkerByte(_, _) => ByteKeeps(c, s, e);
    case SpuriousWorker(_) => SpuriousKeeps(c, s, e);
    case SpuriousCaller => SpuriousKeeps(c, s, e);
    case _ => ClientKeeps(c, s, e);
  }

  /** The invariant holds after every schedule, of any length. */
  lemma {:induction false} ReachableInv(c: Config, mem: seq<Byte>, es: seq<Event>)
    requires c.Valid() && Runs(c, mem, es)
    ensures Inv(c, After(c, mem, es))
  {
    if es == [] {
      InitInv(c, mem);
    } else {
      ReachableInv(c, mem, es[..|es| - 1]);
      NextKeepsInv(c, After(c, mem, es[..|es| - 1]), es[|es| - 1]);
    }
  }
}
