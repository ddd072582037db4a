/** Liveness: no deadlock, and a measure that every step lowers until the caller comes to rest. */
module MemcpyProgress {
  import opened MemcpyMachine
  import opened MemcpyInvariant
  import opened MemcpyPreservation

  /** Nothing is expected of the pool: it waits for its client, or is gone. */
  ghost predicate Resting(s: State) { s.caller.Idle? || s.caller.Destroyed? }

  /** A step of the program itself, as opposed to a client action or a spurious wakeup. */
  ghost predicate Internal(e: Event) {
    e.CallerStep? || e.CallerFails? || e.InlineByte? || e.WorkerStep? || e.WorkerByte?
  }

  // ----- No deadlock

  lemma WorkerCanMove(c: Config, s: State, w: nat) returns (e: Event)
    requires c.Valid() && Inv(c, s) && w < s.spawned
    requires Posted(s.caller) ==> s.spawned == |s.ws|
    requires !s.ws[w].pc.Exited? && !s.ws[w].pc.Parked?
    ensures Internal(e) && Enabled(c, s, e) && (e.WorkerStep? || e.WorkerByte?) && e.w == w
  {
    assert WorkerOk(c, s, w) && ChunkOk(s, w);
    if s.ws[w].pc.Copying? && s.ws[w].pc.pending != {} {
      var i :| i in s.ws[w].pc.pending;
      ChunkInside(JobOf(s.caller), |s.ws|, w);
      e := WorkerByte(w, i);
    } else {
      e := WorkerStep(w);
    }
  }

  /** While a copy, the construction or the shutdown is under way, some thread can always move. */
  lemma NoDeadlock(c: Config, s: State) returns (e: Event)
    requires c.Valid() && Inv(c, s) && !Resting(s)
    ensures Internal(e) && Enabled(c, s, e)
  {
    if CallerReady(s) {
      e := CallerStep;
    } else if s.caller.Inline? {
      var i :| i in s.caller.pending;
      e := InlineByte(i);
    } else {
      var w := s.caller.index;
      assert WorkerOk(c, s, w) && GenerationOk(c, s, w);
      SuccDiffers(c, s.ws[w].completed);
      e := WorkerCanMove(c, s, w);
    }
  }

  // ----- The measure

  /** How far the caller is from rest, ignoring its position inside one wait. */
  ghost function Distance(s: State): nat {
    var n := |s.ws|;
    var started := if s.spawned <= n then s.spawned else n;
    match s.caller
    case Destroyed => 0
    case Idle => 0
    case StopClear => 1
    case Free => 2
    case Join(index) => 3 + (if index <= started then started - index else 0)
    case StopNotify => 4 + started
    case StopAdd => 5 + started
    case StopStore => 6 + started
    case Spawning => 7 + n + (n - started)
    case Allocating => 8 + n + n
    case Inline(_, pending) => 1 + |pending|
    case AwaitLoad(_, _, index) => 1 + (if index <= n then n - index else 0)
    case AwaitWait(_, _, index, _) => 1 + (if index <= n then n - index else 0)
    case AwaitParked(_, _, index, _) => 1 + (if index <= n then n - index else 0)
    case NotifyStart(_, _) => 2 + n
    case StoreStart(_, _) => 3 + n
    case LoadStart(_) => 4 + n
    case Assign(_, index, _) => 5 + n + (if index <= n then n - index else 0)
  }

  /** Steps worker w can make before it parks or exits, as long as nothing new is announced. */
  ghost function Remaining(start: nat, me: Worker): nat {
    var work := me.completed != start;
    match me.pc
    case Absent => 0
    case Exited => 0
    case Parked => if work then 11 + me.job.size else 0
    case CheckIdle => if work then 11 + me.job.size else 2
    case Wait => if work then 10 + me.job.size else 1
    case Notify => if work then 10 + me.job.size else 4
    case Load => if work then 9 + me.job.size else 3
    case CheckBusy => 8 + me.job.size
    case ReadJob => 7 + me.job.size
    case Copying(_, pending) => 6 + |pending|
    case Publish => 5
  }

  ghost function TotalRemaining(start: nat, ws: seq<Worker>): nat {
    if ws == [] then 0 else Remaining(start, ws[0]) + TotalRemaining(start, ws[1..])
  }

  /** Position of the caller inside the wait on one worker. */
  ghost function WaitRank(s: State): nat {
    match s.caller
    case AwaitLoad(_, _, index) => if index < |s.ws| && s.ws[index].completed == s.start then 1 else 2
    case AwaitWait(_, _, index, _) => if index < |s.ws| && s.ws[index].completed == s.start then 2 else 1
    case AwaitParked(_, _, index, _) => if index < |s.ws| && s.ws[index].completed == s.start then 3 else 0
    case _ => 0
  }

  /** Lexicographic order on (Distance, TotalRemaining, WaitRank). */
  ghost predicate Lower(t: State, s: State) {
    || Distance(t) < Distance(s)
    || (Distance(t) == Distance(s) && TotalRemaining(t.start, t.ws) < TotalRemaining(s.start, s.ws))
    || (&& Distance(t) == Distance(s)
        && TotalRemaining(t.start, t.ws) == TotalRemaining(s.start, s.ws)
        && WaitRank(t) < WaitRank(s))
  }

  lemma {:induction false} OneWorkerLower(start: nat, ws: seq<Worker>, w: nat, me: Worker)
    requires w < |ws| && Remaining(start, me) < Remaining(start, ws[w])
    ensures TotalRemaining(start, ws[w := me]) < TotalRemaining(start, ws)
  {
    if w == 0 {
      assert ws[w := me][1..] == ws[1..];
    } else {
      assert ws[w := me][1..] == ws[1..][w - 1 := me];
      OneWorkerLower(start, ws[1..], w - 1, me);
    }
  }

  lemma ReadJobLowers(c: Config, s: State, w: nat)
    requires c.Valid() && WorkerReady(s, w) && WorkerOk(c, s, w) && s.ws[w].pc.ReadJob?
    ensures Remaining(s.start, WorkerMove(s, s.ws[w])) < Remaining(s.start, s.ws[w])
  {
    assert |AllBytes(s.ws[w].job.size)| == s.ws[w].job.size;
  }

  lemma BusyMoveLowers(c: Config, s: State, w: nat)
    requires c.Valid() && WorkerReady(s, w) && WorkerOk(c, s, w)
    requires s.ws[w].pc.CheckBusy? || s.ws[w].pc.Copying? || s.ws[w].pc.Publish?
    ensures Remaining(s.start, WorkerMove(s, s.ws[w])) < Remaining(s.start, s.ws[w])
  {
  }

  lemma IdleMoveLowers(c: Config, s: State, w: nat)
    requires c.Valid() && WorkerReady(s, w) && WorkerOk(c, s, w)
    requires !s.ws[w].pc.CheckBusy? && !Busy(s.ws[w].pc)
    ensures Remaining(s.start, WorkerMove(s, s.ws[w])) < Remaining(s.start, s.ws[w])
  {
  }

  lemma MoveLowers(c: Config, s: State, w: nat)
    requires c.Valid() && WorkerReady(s, w) && WorkerOk(c, s, w)
    ensures Remaining(s.start, WorkerMove(s, s.ws[w])) < Remaining(s.start, s.ws[w])
  {
    if s.ws[w].pc.ReadJob? {
      ReadJobLowers(c, s, w);
    } else if s.ws[w].pc.CheckBusy? || Busy(s.ws[w].pc) {
      BusyMoveLowers(c, s, w);
    } else {
      IdleMoveLowers(c, s, w);
    }
  }

  lemma WorkerLowers(c: Config, s: State, w: nat)
    requires c.Valid() && Inv(c, s) && WorkerReady(s, w)
    ensures Lower(WorkerNext(s, w), s)
  {
    assert WorkerOk(c, s, w);
    MoveLowers(c, s, w);
    OneWorkerLower(s.start, s.ws, w, WorkerMove(s, s.ws[w]));
  }

  lemma ByteLowers(c: Config, s: State, w: nat, i: nat)
    requires c.Valid() && Inv(c, s) && Enabled(c, s, WorkerByte(w, i))
    ensures Lower(Next(c, s, WorkerByte(w, i)), s)
  {
    var pc := s.ws[w].pc;
    OneWorkerLower(s.start, s.ws, w, s.ws[w].(pc := pc.(pending := pc.pending - {i})));
  }

  lemma AwaitLowers(c: Config, s: State)
    requires c.Valid() && Inv(c, s) && CallerReady(s) && (s.caller.AwaitLoad? || s.caller.AwaitWait?)
    ensures CallerNext(c, s).start == s.start && CallerNext(c, s).ws == s.ws
    ensures Distance(CallerNext(c, s)) < Distance(s)
         || (Distance(CallerNext(c, s)) == Distance(s) && WaitRank(CallerNext(c, s)) < WaitRank(s))
  {
    if s.caller.AwaitWait? {
      assert GenerationOk(c, s, s.caller.index);
      SuccDiffers(c, s.caller.seen);
      if s.ws[s.caller.index].completed != s.start {
        SuccInjective(c, s.ws[s.caller.index].completed, s.caller.seen);
      }
    }
  }

  lemma CopyCloser(c: Config, s: State)
    requires c.Valid() && Inv(c, s) && CallerReady(s)
    requires InCopy(s.caller) && !s.caller.AwaitLoad? && !s.caller.AwaitWait? && !s.caller.AwaitParked?
    ensures Distance(CallerNext(c, s)) < Distance(s)
  {
    assert |CallerNext(c, s).ws| == |s.ws|;
  }

  lemma LifecycleCloser(c: Config, s: State)
    requires c.Valid() && Inv(c, s) && CallerReady(s) && !InCopy(s.caller)
    ensures Distance(CallerNext(c, s)) < Distance(s)
  {
    assert |CallerNext(c, s).ws| == |s.ws|;
  }

  /** Outside its waiting loop the caller always comes closer to rest. */
  lemma CallerCloser(c: Config, s: State)
    requires c.Valid() && Inv(c, s) && CallerReady(s) && !s.caller.AwaitLoad? && !s.caller.AwaitWait?
    ensures Distance(CallerNext(c, s)) < Distance(s)
  {
    if InCopy(s.caller) { CopyCloser(c, s); } else { LifecycleCloser(c, s); }
  }

  lemma CallerLowers(c: Config, s: State)
    requires c.Valid() && Inv(c, s) && CallerReady(s)
    ensures Lower(CallerNext(c, s), s)
  {
    if s.caller.AwaitLoad? || s.caller.AwaitWait? {
      AwaitLowers(c, s);
    } else {
      CallerCloser(c, s);
    }
  }

  /** Every step of the program lowers the measure, in a copy, a construction or a shutdown. */
  lemma StepLowers(c: Config, s: State, e: Event)
    requires c.Valid() && Inv(c, s) && Internal(e) && Enabled(c, s, e)
    ensures Lower(Next(c, s, e), s)
  {
    match e
    case CallerStep => CallerLowers(c, s);
    case WorkerStep(w) => WorkerLowers(c, s, w);
    case WorkerByte(w, i) => ByteLowers(c, s, w, i);
    case _ =>
  }

  // ----- Termination of every maximal run

  /** One step of a maximal run: it moves as long as any thread can. */
  ghost predicate Proceeds(c: Config, s: State, t: State)
    requires c.Valid()
  {
    || (exists e :: Internal(e) && Enabled(c, s, e) && t == Next(c, s, e))
    || (t == s && forall e :: Internal(e) ==> !Enabled(c, s, e))
  }

  ghost predicate ShuttingDown(caller: CallerPc) { caller.StopStore? || Stopping(caller) }

  ghost predicate SameBusiness(caller: CallerPc, later: CallerPc) {
    && (InCopy(caller) || caller.Idle? ==> InCopy(later) || later.Idle?)
    && (ShuttingDown(caller) ==> ShuttingDown(later))
  }

  lemma StaysInBusiness(c: Config, s: State, e: Event)
    requires c.Valid() && Inv(c, s) && Internal(e) && Enabled(c, s, e) && !Resting(s)
    ensures SameBusiness(s.caller, Next(c, s, e).caller)
  {
  }

  lemma ProceedsByEvent(c: Config, s: State, t: State) returns (e: Event)
    requires c.Valid() && Inv(c, s) && Proceeds(c, s, t) && !Resting(s)
    ensures Internal(e) && Enabled(c, s, e) && t == Next(c, s, e)
  {
    var able := NoDeadlock(c, s);
    e :| Internal(e) && Enabled(c, s, e) && t == Next(c, s, e);
  }

  lemma {:induction false} ReachesRest(c: Config, run: nat -> State, from: nat) returns (n: nat)
    requires c.Valid() && Inv(c, run(from))
    requires forall k: nat :: Proceeds(c, run(k), run(k + 1))
    ensures n >= from && Inv(c, run(n)) && Resting(run(n)) && SameBusiness(run(from).caller, run(n).caller)
    decreases Distance(run(from)), TotalRemaining(run(from).start, run(from).ws), WaitRank(run(from))
  {
    if Resting(run(from)) {
      n := from;
    } else {
      var e := ProceedsByEvent(c, run(from), run(from + 1));
      NextKeepsInv(c, run(from), e);
      StepLowers(c, run(from), e);
      StaysInBusiness(c, run(from), e);
      n := ReachesRest(c, run, from + 1);
    }
  }

  /** Every copy returns.  Whatever happened before, under every schedule that keeps running some
      thread that can run (from the point where spurious wakeups end), the call comes back. */
  lemma CopyReturns(c: Config, mem: seq<Byte>, es: seq<Event>, run: nat -> State)
    requires c.Valid() && Runs(c, mem, es) && run(0) == After(c, mem, es) && InCopy(run(0).caller)
    requires forall k: nat :: Proceeds(c, run(k), run(k + 1))
    ensures exists n: nat :: run(n).caller.Idle?
  {
    ReachableInv(c, mem, es);
    var n := ReachesRest(c, run, 0);
    assert run(n).caller.Idle?;
  }

  /** Every shutdown completes, also one that follows a construction that failed half-way; at its end
      every thread that was created has returned and the worker states are released. */
  lemma ShutdownCompletes(c: Config, mem: seq<Byte>, es: seq<Event>, run: nat -> State)
    requires c.Valid() && Runs(c, mem, es) && run(0) == After(c, mem, es) && ShuttingDown(run(0).caller)
    requires forall k: nat :: Proceeds(c, run(k), run(k + 1))
    ensures exists n: nat :: run(n).caller.Destroyed? && !run(n).statesLive
  {
    ReachableInv(c, mem, es);
    var n := ReachesRest(c, run, 0);
    assert run(n).caller.Destroyed?;
  }
}
