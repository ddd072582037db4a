/** Liveness with spurious wakeups: waits may unblock by themselves as often as they like, at any time, and a thread may
    be delayed for as long as one likes.  It is enough that no thread that could always go on is delayed forever. */
module MemcpyFairness {
  import opened MemcpyMachine
  import opened MemcpyInvariant
  import opened MemcpyPreservation
  import opened MemcpyProgress
  import opened MemcpySafety

  // ----- Fair runs

  /** A point in time: nothing happens, or one event of the program or a spurious wakeup. */
  datatype Tick = Delay | Takes(event: Event)

  ghost predicate Follows(c: Config, s: State, t: State, tick: Tick)
    requires c.Valid()
  {
    if tick.Delay? then t == s
    else !tick.event.ClientWrite? && !tick.event.Call? && !tick.event.Destroy?
         && Enabled(c, s, tick.event) && t == Next(c, s, tick.event)
  }

  /** The thread executes a statement, or a byte of a memcpy. */
  ghost predicate Executes(tick: Tick, thread: Thread) {
    tick.Takes? && Internal(tick.event) && ThreadOf(tick.event) == thread
  }

  ghost predicate CanExecute(c: Config, s: State, thread: Thread) {
    exists e :: Internal(e) && ThreadOf(e) == thread && Enabled(c, s, e)
  }

  /** Now the thread executes something, or it cannot. */
  ghost predicate ServedAt(c: Config, run: nat -> State, ticks: nat -> Tick, thread: Thread, k: nat) {
    Executes(ticks(k), thread) || !CanExecute(c, run(k), thread)
  }

  ghost predicate ServedAfter(c: Config, run: nat -> State, ticks: nat -> Tick, thread: Thread, n: nat) {
    exists k: nat :: k >= n && ServedAt(c, run, ticks, thread, k)
  }

  /** Weak fairness: no thread is able to go on from some point in time on without ever going on. */
  ghost predicate Fair(c: Config, run: nat -> State, ticks: nat -> Tick) {
    forall thread: Thread, n: nat :: ServedAfter(c, run, ticks, thread, n)
  }

  ghost predicate RunsOn(c: Config, run: nat -> State, ticks: nat -> Tick)
    requires c.Valid()
  {
    forall k: nat :: Follows(c, run(k), run(k + 1), ticks(k))
  }

  // ----- A measure that waiting and waking up do not change

  /** What is left for a worker to do for the current generation; none of its idle rounds count. */
  ghost function WorkLeft(start: nat, me: Worker): nat {
    if me.completed != start then Remaining(start, me) else if me.pc.Notify? then 1 else 0
  }

  ghost function TotalWork(start: nat, ws: seq<Worker>): nat {
    if ws == [] then 0 else WorkLeft(start, ws[0]) + TotalWork(start, ws[1..])
  }

  /** The caller's way out of a wait that is over. */
  ghost function WaitLeft(s: State): nat {
    match s.caller
    case AwaitLoad(_, _, index) => if index < |s.ws| && s.ws[index].completed == s.start then 1 else 4
    case AwaitWait(_, _, index, _) => if index < |s.ws| && s.ws[index].completed == s.start then 2 else 4
    case AwaitParked(_, _, index, _) => if index < |s.ws| && s.ws[index].completed == s.start then 3 else 4
    case _ => 0
  }

  ghost predicate Below(t: State, s: State) {
    || Distance(t) < Distance(s)
    || (Distance(t) == Distance(s) && TotalWork(t.start, t.ws) < TotalWork(s.start, s.ws))
    || (Distance(t) == Distance(s) && TotalWork(t.start, t.ws) == TotalWork(s.start, s.ws) && WaitLeft(t) < WaitLeft(s))
  }

  ghost predicate Level(t: State, s: State) {
    Distance(t) == Distance(s) && TotalWork(t.start, t.ws) == TotalWork(s.start, s.ws) && WaitLeft(t) == WaitLeft(s)
  }

  /** The thread whose next step lowers the measure. */
  ghost function Helpful(s: State): Thread {
    match s.caller
    case AwaitLoad(_, _, index) =>
      if index < |s.ws| && s.ws[index].completed != s.start then WorkerThread(index) else CallerThread
    case AwaitWait(_, _, index, _) =>
      if index < |s.ws| && s.ws[index].completed != s.start then WorkerThread(index) else CallerThread
    case AwaitParked(_, _, index, _) => WorkerThread(index)
    case Join(index) =>
      if index < s.spawned && index < |s.ws| && !s.ws[index].pc.Exited? then WorkerThread(index) else CallerThread
    case _ => CallerThread
  }

  lemma {:induction false} OneWorkerWork(start: nat, ws: seq<Worker>, w: nat, me: Worker)
    requires w < |ws| && WorkLeft(start, me) <= WorkLeft(start, ws[w])
    ensures TotalWork(start, ws[w := me]) <= TotalWork(start, ws)
    ensures WorkLeft(start, me) < WorkLeft(start, ws[w]) ==> TotalWork(start, ws[w := me]) < TotalWork(start, ws)
    ensures WorkLeft(start, me) == WorkLeft(start, ws[w]) ==> TotalWork(start, ws[w := me]) == TotalWork(start, ws)
  {
    if w == 0 {
      assert ws[w := me][1..] == ws[1..];
    } else {
      assert ws[w := me][1..] == ws[1..][w - 1 := me];
      OneWorkerWork(start, ws[1..], w - 1, me);
    }
  }

  // ----- The helpful thread

  /** A worker that still has to complete, or to notify, is not parked and has not exited. */
  lemma HelpfulWorker(c: Config, s: State, w: nat)
    requires c.Valid() && Inv(c, s) && !Resting(s) && Helpful(s) == WorkerThread(w)
    ensures w < s.spawned <= |s.ws| && !s.ws[w].pc.Exited? && !s.ws[w].pc.Parked?
    ensures s.ws[w].completed != s.start || s.ws[w].pc.Notify?
  {
    assert WorkerOk(c, s, w) && GenerationOk(c, s, w);
    SuccDiffers(c, s.ws[w].completed);
    if s.caller.AwaitParked? && s.ws[w].completed == s.start { SuccDiffers(c, s.caller.seen); }
  }

  lemma HelpfulCanExecute(c: Config, s: State)
    requires c.Valid() && Inv(c, s) && !Resting(s)
    ensures CanExecute(c, s, Helpful(s))
  {
    if Helpful(s).WorkerThread? {
      HelpfulWorker(c, s, Helpful(s).w);
      var e := WorkerCanMove(c, s, Helpful(s).w);
      assert ThreadOf(e) == Helpful(s);
    } else if s.caller.Inline? && s.caller.pending != {} {
      var i :| i in s.caller.pending;
      assert ThreadOf(InlineByte(i)) == CallerThread && Enabled(c, s, InlineByte(i));
    } else {
      assert ThreadOf(CallerStep) == CallerThread && Enabled(c, s, CallerStep);
    }
  }

  // ----- Steps

  lemma WorkerStepWork(c: Config, s: State, w: nat)
    requires c.Valid() && WorkerReady(s, w) && WorkerOk(c, s, w) && GenerationOk(c, s, w)
    ensures WorkLeft(s.start, WorkerMove(s, s.ws[w])) <= WorkLeft(s.start, s.ws[w])
    ensures s.ws[w].completed != s.start || s.ws[w].pc.Notify? ==>
      WorkLeft(s.start, WorkerMove(s, s.ws[w])) < WorkLeft(s.start, s.ws[w])
    ensures WorkerMove(s, s.ws[w]).completed != s.ws[w].completed ==>
      WorkLeft(s.start, WorkerMove(s, s.ws[w])) < WorkLeft(s.start, s.ws[w])
  {
    MoveLowers(c, s, w);
  }

  /** Changing one worker's position, and perhaps waking the caller: the measure follows that worker's work. */
  lemma OneWorkerTick(s: State, t: State, w: nat, me: Worker)
    requires w < |s.ws| && t.start == s.start && t.ws == s.ws[w := me] && t.spawned == s.spawned
    requires Distance(t) == Distance(s)
    requires WorkLeft(s.start, me) <= WorkLeft(s.start, s.ws[w])
    ensures WorkLeft(s.start, me) < WorkLeft(s.start, s.ws[w]) ==> Below(t, s)
    ensures WorkLeft(s.start, me) == WorkLeft(s.start, s.ws[w]) ==> TotalWork(t.start, t.ws) == TotalWork(s.start, s.ws)
  {
    OneWorkerWork(s.start, s.ws, w, me);
  }

  /** A worker's step leaves the caller where it is, unless it notifies it. */
  lemma CallerStays(c: Config, s: State, e: Event)
    requires c.Valid() && Enabled(c, s, e) && (e.WorkerStep? || e.WorkerByte? || e.SpuriousWorker?)
    ensures var t := Next(c, s, e);
            && t.start == s.start && t.spawned == s.spawned
            && e.w < |s.ws| == |t.ws| && t.ws == s.ws[e.w := t.ws[e.w]]
            && (t.caller == s.caller ||
                (s.caller.AwaitParked?
                 && t.caller == AwaitWait(s.caller.job, s.caller.generation, s.caller.index, s.caller.seen)))
  {
  }

  lemma DistanceKept(c: Config, s: State, e: Event)
    requires c.Valid() && Enabled(c, s, e) && (e.WorkerStep? || e.WorkerByte? || e.SpuriousWorker?)
    ensures Distance(Next(c, s, e)) == Distance(s)
  {
    CallerStays(c, s, e);
  }

  /** An idle round of a worker leaves everything as it is. */
  lemma IdleTick(c: Config, s: State, e: Event)
    requires c.Valid() && Inv(c, s) && Enabled(c, s, e) && (e.WorkerStep? || e.WorkerByte? || e.SpuriousWorker?)
    requires s.ws[e.w].completed == s.start && !s.ws[e.w].pc.Notify? && Next(c, s, e).ws[e.w].completed == s.start
    ensures WaitLeft(Next(c, s, e)) == WaitLeft(s)
    ensures Helpful(Next(c, s, e)) == Helpful(s) || Helpful(s) == WorkerThread(e.w)
  {
    assert WorkerOk(c, s, e.w);
  }

  /** A step of a worker lowers the measure if that worker has work to do, and otherwise leaves all as it is. */
  lemma WorkerTick(c: Config, s: State, e: Event)
    requires c.Valid() && Inv(c, s) && Enabled(c, s, e) && !Resting(s)
    requires e.WorkerStep? || e.WorkerByte? || e.SpuriousWorker?
    ensures Below(Next(c, s, e), s) || (Level(Next(c, s, e), s) && Helpful(Next(c, s, e)) == Helpful(s))
    ensures s.ws[e.w].completed != s.start || s.ws[e.w].pc.Notify? ==> Below(Next(c, s, e), s)
  {
    var t, w := Next(c, s, e), e.w;
    assert WorkerOk(c, s, w) && GenerationOk(c, s, w);
    CallerStays(c, s, e);
    DistanceKept(c, s, e);
    if e.WorkerStep? {
      WorkerStepWork(c, s, w);
    }
    OneWorkerTick(s, t, w, t.ws[w]);
    if s.ws[w].completed == s.start && !s.ws[w].pc.Notify? {
      IdleTick(c, s, e);
      if Helpful(s) == WorkerThread(w) { HelpfulWorker(c, s, w); }
    }
  }

  lemma AwaitTick(c: Config, s: State, e: Event)
    requires c.Valid() && Inv(c, s) && Enabled(c, s, e) && (e.CallerStep? || e.SpuriousCaller?)
    requires s.caller.AwaitLoad? || s.caller.AwaitWait? || s.caller.AwaitParked?
    ensures Below(Next(c, s, e), s) || (Level(Next(c, s, e), s) && Helpful(Next(c, s, e)) == Helpful(s))
    ensures Helpful(s) == CallerThread ==> Below(Next(c, s, e), s)
  {
    assert GenerationOk(c, s, s.caller.index);
    if s.caller.AwaitWait? {
      SuccDiffers(c, s.caller.seen);
      if s.ws[s.caller.index].completed != s.start {
        SuccInjective(c, s.ws[s.caller.index].completed, s.caller.seen);
      }
    }
  }

  lemma CallerTick(c: Config, s: State, e: Event)
    requires c.Valid() && Inv(c, s) && Enabled(c, s, e)
    requires e.CallerStep? || e.CallerFails? || e.InlineByte? || e.SpuriousCaller?
    ensures Below(Next(c, s, e), s) || (Level(Next(c, s, e), s) && Helpful(Next(c, s, e)) == Helpful(s))
    ensures Helpful(s) == CallerThread ==> Below(Next(c, s, e), s)
  {
    if s.caller.AwaitLoad? || s.caller.AwaitWait? || s.caller.AwaitParked? {
      AwaitTick(c, s, e);
    } else {
      CallerComesCloser(c, s, e);
    }
  }

  lemma CallerComesCloser(c: Config, s: State, e: Event)
    requires c.Valid() && Inv(c, s) && Enabled(c, s, e) && (e.CallerStep? || e.CallerFails? || e.InlineByte?)
    requires !s.caller.AwaitLoad? && !s.caller.AwaitWait? && !s.caller.AwaitParked?
    ensures Distance(Next(c, s, e)) < Distance(s)
  {
    if e.CallerStep? { CallerCloser(c, s); }
  }

  lemma TickKeeps(c: Config, s: State, t: State, tick: Tick)
    requires c.Valid() && Inv(c, s) && !Resting(s) && Follows(c, s, t, tick)
    ensures Inv(c, t) && SameBusiness(s.caller, t.caller)
  {
    if tick.Takes? {
      NextKeepsInv(c, s, tick.event);
      if Internal(tick.event) { StaysInBusiness(c, s, tick.event); }
    }
  }

  /** Whatever happens, the measure does not rise; if it does not fall, the same thread stays helpful, and if that
      thread executes something, it falls. */
  lemma TickLowers(c: Config, s: State, t: State, tick: Tick)
    requires c.Valid() && Inv(c, s) && !Resting(s) && Follows(c, s, t, tick)
    ensures Below(t, s) || (Level(t, s) && Helpful(t) == Helpful(s))
    ensures Executes(tick, Helpful(s)) ==> Below(t, s)
  {
    if tick.Takes? {
      var e := tick.event;
      if e.WorkerStep? || e.WorkerByte? || e.SpuriousWorker? {
        WorkerTick(c, s, e);
        if Helpful(s) == WorkerThread(e.w) { HelpfulWorker(c, s, e.w); }
      } else {
        CallerTick(c, s, e);
      }
    }
  }

  lemma RestIsLowest(s: State)
    ensures Resting(s) <==> Distance(s) == 0
  {
  }

  // ----- Arriving

  /** Once the helpful thread is served at time k, the measure has fallen at some time after `from`. */
  lemma {:induction false} Advances(c: Config, run: nat -> State, ticks: nat -> Tick, from: nat, k: nat)
      returns (m: nat)
    requires c.Valid() && RunsOn(c, run, ticks) && Inv(c, run(from)) && !Resting(run(from))
    requires k >= from && ServedAt(c, run, ticks, Helpful(run(from)), k)
    ensures m > from && Inv(c, run(m)) && Below(run(m), run(from)) && SameBusiness(run(from).caller, run(m).caller)
    decreases k - from
  {
    assert Follows(c, run(from), run(from + 1), ticks(from));
    TickKeeps(c, run(from), run(from + 1), ticks(from));
    TickLowers(c, run(from), run(from + 1), ticks(from));
    RestIsLowest(run(from));
    RestIsLowest(run(from + 1));
    if Below(run(from + 1), run(from)) {
      m := from + 1;
    } else {
      if k == from { HelpfulCanExecute(c, run(from)); }
      m := Advances(c, run, ticks, from + 1, k);
    }
  }

  lemma {:induction false} ArrivesAtRest(c: Config, run: nat -> State, ticks: nat -> Tick, from: nat) returns (n: nat)
    requires c.Valid() && RunsOn(c, run, ticks) && Fair(c, run, ticks) && Inv(c, run(from))
    ensures n >= from && Inv(c, run(n)) && Resting(run(n)) && SameBusiness(run(from).caller, run(n).caller)
    decreases Distance(run(from)), TotalWork(run(from).start, run(from).ws), WaitLeft(run(from))
  {
    if Resting(run(from)) {
      n := from;
    } else {
      var thread := Helpful(run(from));
      assert ServedAfter(c, run, ticks, thread, from);
      var k: nat :| k >= from && ServedAt(c, run, ticks, thread, k);
      var m := Advances(c, run, ticks, from, k);
      n := ArrivesAtRest(c, run, ticks, m);
    }
  }

  /** Every copy returns, after any history, under every weakly fair schedule, with any number of spurious wakeups. */
  lemma CopyReturnsFairly(c: Config, mem: seq<Byte>, es: seq<Event>, run: nat -> State, ticks: nat -> Tick)
    requires c.Valid() && Runs(c, mem, es) && run(0) == After(c, mem, es) && InCopy(run(0).caller)
    requires RunsOn(c, run, ticks) && Fair(c, run, ticks)
    ensures exists n: nat :: run(n).caller.Idle?
  {
    ReachableInv(c, mem, es);
    var n := ArrivesAtRest(c, run, ticks, 0);
    assert run(n).caller.Idle?;
  }

  /** And every shutdown completes. */
  lemma ShutdownCompletesFairly(c: Config, mem: seq<Byte>, es: seq<Event>, run: nat -> State, ticks: nat -> Tick)
    requires c.Valid() && Runs(c, mem, es) && run(0) == After(c, mem, es) && ShuttingDown(run(0).caller)
    requires RunsOn(c, run, ticks) && Fair(c, run, ticks)
    ensures exists n: nat :: run(n).caller.Destroyed? && !run(n).statesLive
  {
    ReachableInv(c, mem, es);
    var n := ArrivesAtRest(c, run, ticks, 0);
    assert run(n).caller.Destroyed?;
  }
}
