/** The parallel memcpy pool as a step machine (src/parallel_memcpy.cpp).

    One caller thread constructs the pool, issues any number of copies and destroys it; each worker
    runs the worker loop.  Every atomic load, store, wait and notify is one event, and so is every
    single byte of every memcpy, in any order within a chunk.  A schedule is a sequence of events,
    so quantifying over schedules quantifies over all interleavings.

    The generation counters wrap at `modulus`; std::size_t is one instance. */
module MemcpyMachine {

  datatype Config = Config(workers: nat, modulus: nat)
  {
    ghost predicate Valid() { modulus >= 2 }

    function Succ(g: nat): nat
      requires modulus >= 2
    {
      (g + 1) % modulus
    }
  }

  type Byte = b: int | 0 <= b < 256

  // ----- Memory, and the copy the pool has to implement

  /** The arguments of one memcpy: also the three plain fields of a WorkerState. */
  datatype Job = Job(dst: nat, src: nat, size: nat)
  {
    /** What memcpy demands of its caller; a copy of no bytes accepts any two pointers. */
    predicate FitsIn(mem: seq<Byte>) {
      size > 0 ==>
        && dst + size <= |mem|
        && src + size <= |mem|
        && (dst + size <= src || src + size <= dst)
    }

    predicate InTarget(a: int) { dst <= a < dst + size }
  }

  function CopyBytes(mem: seq<Byte>, job: Job): (r: seq<Byte>)
    requires job.FitsIn(mem)
  {
    seq(|mem|, a requires 0 <= a < |mem| =>
      if job.InTarget(a) then mem[job.src + (a - job.dst)] else mem[a])
  }

  // ----- State

  /** Where a worker stands in worker_loop; the comments give the source line about to run. */
  datatype WorkerPc =
    | Absent                                      // thread not created yet
    | Load                                        // 155, 163: load start_generation and compare
    | CheckIdle                                   // 158: stopping?, with nothing new seen
    | Wait                                        // 161: park only if the value is still the old one
    | Parked                                      // inside the wait, blocked
    | CheckBusy                                   // 168: stopping?, with a new generation seen
    | ReadJob                                     // 172: evaluate the arguments of memcpy
    | Copying(job: Job, pending: set<nat>)        // 172: inside memcpy
    | Publish                                     // 173: store completed_generation
    | Notify                                      // 175: notify_one
    | Exited

  /** A WorkerState (job and completed) with the locals of the thread that serves it. */
  datatype Worker = Worker(job: Job, completed: nat, observed: nat, pc: WorkerPc)

  datatype CallerPc =
    | Allocating                                            // 71
    | Spawning                                              // 75
    | Idle                                                  // between calls
    | Inline(job: Job, pending: set<nat>)                   // 93: memcpy by the caller itself
    | Assign(job: Job, index: nat, offset: nat)             // 101-112
    | LoadStart(job: Job)                                   // 115
    | StoreStart(job: Job, generation: nat)                 // 116
    | NotifyStart(job: Job, generation: nat)                // 117
    | AwaitLoad(job: Job, generation: nat, index: nat)      // 122, 127: load and compare
    | AwaitWait(job: Job, generation: nat, index: nat, seen: nat)   // 124
    | AwaitParked(job: Job, generation: nat, index: nat, seen: nat) // 124, blocked
    | StopStore                                             // 134
    | StopAdd                                               // 135
    | StopNotify                                            // 136
    | Join(index: nat)                                      // 138-142
    | Free                                                  // 145
    | StopClear                                             // 147
    | Destroyed

  datatype State = State(
    start: nat,
    stopping: bool,
    statesLive: bool,    // worker_states is live
    spawned: nat,        // workers.size()
    ws: seq<Worker>,
    caller: CallerPc,
    mem: seq<Byte>,
    returned: nat        // the pointer the latest copy returned
  )

  function Init(c: Config, mem: seq<Byte>): State {
    State(0, false, false, 0, seq(c.workers, _ => Worker(Job(0, 0, 0), 0, 0, Absent)), Allocating, mem, 0)
  }

  // ----- Events

  datatype Event =
    | ClientWrite(mem: seq<Byte>)     // the program changes memory between copies
    | Call(job: Job)                  // enter copy
    | Destroy                         // enter the destructor
    | CallerFails                     // 71 or 76 throws
    | CallerStep                      // the next statement of the caller
    | InlineByte(i: nat)              // one byte of the caller's own memcpy
    | WorkerStep(w: nat)              // the next statement of a worker
    | WorkerByte(w: nat, i: nat)      // one byte of a worker's memcpy
    | SpuriousWorker(w: nat)          // a wait unblocks by itself and checks again
    | SpuriousCaller

  predicate CallerReady(s: State) {
    match s.caller
    case Idle => false
    case AwaitParked(_, _, _, _) => false
    case Destroyed => false
    case Inline(_, pending) => pending == {}
    case Assign(_, index, _) => index < |s.ws|
    case AwaitLoad(_, _, index) => index < |s.ws|
    case AwaitWait(_, _, index, _) => index < |s.ws|
    case Spawning => s.spawned <= |s.ws|
    case Join(index) => index >= s.spawned || index >= |s.ws| || s.ws[index].pc.Exited?
    case _ => true
  }

  predicate WorkerReady(s: State, w: nat) {
    && w < |s.ws|
    && !s.ws[w].pc.Absent?
    && !s.ws[w].pc.Parked?
    && !s.ws[w].pc.Exited?
    && (s.ws[w].pc.Copying? ==> s.ws[w].pc.pending == {})
  }

  predicate ByteReady(mem: seq<Byte>, job: Job, pending: set<nat>, i: nat) {
    i in pending && job.dst + i < |mem| && job.src + i < |mem|
  }

  predicate Enabled(c: Config, s: State, e: Event) {
    match e
    case ClientWrite(_) => s.caller.Idle?
    case Call(job) => s.caller.Idle? && job.FitsIn(s.mem)
    case Destroy => s.caller.Idle?
    case CallerFails => s.caller.Allocating? || (s.caller.Spawning? && s.spawned < |s.ws|)
    case CallerStep => CallerReady(s)
    case InlineByte(i) => s.caller.Inline? && ByteReady(s.mem, s.caller.job, s.caller.pending, i)
    case WorkerStep(w) => WorkerReady(s, w)
    case WorkerByte(w, i) =>
      w < |s.ws| && s.ws[w].pc.Copying? && ByteReady(s.mem, s.ws[w].pc.job, s.ws[w].pc.pending, i)
    case SpuriousWorker(w) => w < |s.ws| && s.ws[w].pc.Parked?
    case SpuriousCaller => s.caller.AwaitParked?
  }

  // ----- Transitions

  /** notify_all on start_generation: every parked worker goes back to the check inside its wait. */
  function Woken(ws: seq<Worker>): (r: seq<Worker>) {
    seq(|ws|, w requires 0 <= w < |ws| => if ws[w].pc.Parked? then ws[w].(pc := Wait) else ws[w])
  }

  function AllBytes(n: nat): (r: set<nat>)
    ensures |r| == n
    ensures forall i: nat :: i in r <==> i < n
  {
    if n == 0 then {} else AllBytes(n - 1) + {n - 1}
  }

  function EnterCopy(s: State, job: Job): State {
    if job.size == 0 then s.(returned := job.dst)
    else if |s.ws| == 0 then s.(caller := Inline(job, AllBytes(job.size)))
    else s.(caller := Assign(job, 0, 0))
  }

  function AssignStep(s: State): State
    requires s.caller.Assign? && s.caller.index < |s.ws|
  {
    var Assign(job, index, offset) := s.caller;
    var workerSize := job.size / |s.ws|;
    if index != |s.ws| - 1 then
      s.(ws := s.ws[index := s.ws[index].(job := Job(job.dst + offset, job.src + offset, workerSize))],
         caller := Assign(job, index + 1, offset + workerSize))
    else
      var rest := if offset <= job.size then job.size - offset else 0;
      s.(ws := s.ws[index := s.ws[index].(job := Job(job.dst + offset, job.src + offset, rest))],
         caller := LoadStart(job))
  }

  function AwaitStep(s: State): State
    requires s.caller.AwaitLoad? && s.caller.index < |s.ws|
  {
    var AwaitLoad(job, generation, index) := s.caller;
    var completed := s.ws[index].completed;
    if completed != generation then
      s.(caller := AwaitWait(job, generation, index, completed))
    else if index + 1 == |s.ws| then
      s.(caller := Idle, returned := job.dst)
    else
      s.(caller := AwaitLoad(job, generation, index + 1))
  }

  function CallerNext(c: Config, s: State): State
    requires c.Valid() && CallerReady(s)
  {
    match s.caller
    case Allocating => s.(statesLive := true, caller := Spawning)
    case Spawning =>
      if s.spawned == |s.ws| then s.(caller := Idle)
      else s.(ws := s.ws[s.spawned := s.ws[s.spawned].(pc := Load)], spawned := s.spawned + 1)
    case Inline(job, _) => s.(caller := Idle, returned := job.dst)
    case Assign(_, _, _) => AssignStep(s)
    case LoadStart(job) => s.(caller := StoreStart(job, c.Succ(s.start)))
    case StoreStart(job, generation) => s.(start := generation, caller := NotifyStart(job, generation))
    case NotifyStart(job, generation) => s.(ws := Woken(s.ws), caller := AwaitLoad(job, generation, 0))
    case AwaitLoad(_, _, _) => AwaitStep(s)
    case AwaitWait(job, generation, index, seen) =>
      if s.ws[index].completed == seen then s.(caller := AwaitParked(job, generation, index, seen))
      else s.(caller := AwaitLoad(job, generation, index))
    case StopStore => s.(stopping := true, caller := StopAdd)
    case StopAdd => s.(start := c.Succ(s.start), caller := StopNotify)
    case StopNotify => s.(ws := Woken(s.ws), caller := Join(0))
    case Join(index) => if index < s.spawned then s.(caller := Join(index + 1)) else s.(caller := Free)
    case Free => s.(statesLive := false, caller := StopClear)
    case StopClear => s.(stopping := false, caller := Destroyed)
    case _ => s
  }

  /** notify_one on worker w's completed_generation: only the caller ever waits there. */
  function CallerWoken(caller: CallerPc, w: nat): CallerPc {
    match caller
    case AwaitParked(job, generation, index, seen) =>
      if index == w then AwaitWait(job, generation, index, seen) else caller
    case _ => caller
  }

  /** The next statement of worker_loop, as seen by the worker itself. */
  function WorkerMove(s: State, me: Worker): Worker {
    match me.pc
    case Load =>
      if s.start == me.observed then me.(pc := CheckIdle) else me.(observed := s.start, pc := CheckBusy)
    case CheckIdle => me.(pc := if s.stopping then Exited else Wait)
    case Wait => me.(pc := if s.start == me.observed then Parked else Load)
    case CheckBusy => me.(pc := if s.stopping then Exited else ReadJob)
    case ReadJob => me.(pc := Copying(me.job, AllBytes(me.job.size)))
    case Copying(_, _) => me.(pc := Publish)
    case Publish => me.(completed := me.observed, pc := Notify)
    case Notify => me.(pc := Load)
    case _ => me
  }

  function WorkerNext(s: State, w: nat): State
    requires WorkerReady(s, w)
  {
    s.(ws := s.ws[w := WorkerMove(s, s.ws[w])],
       caller := if s.ws[w].pc.Notify? then CallerWoken(s.caller, w) else s.caller)
  }

  function ByteCopied(mem: seq<Byte>, job: Job, i: nat): (r: seq<Byte>)
    requires job.dst + i < |mem| && job.src + i < |mem|
  {
    mem[job.dst + i := mem[job.src + i]]
  }

  function Next(c: Config, s: State, e: Event): State
    requires c.Valid() && Enabled(c, s, e)
  {
    match e
    case ClientWrite(mem) => s.(mem := mem)
    case Call(job) => EnterCopy(s, job)
    case Destroy => s.(caller := StopStore)
    case CallerFails => s.(caller := StopStore)
    case CallerStep => CallerNext(c, s)
    case InlineByte(i) =>
      s.(mem := ByteCopied(s.mem, s.caller.job, i), caller := s.caller.(pending := s.caller.pending - {i}))
    case WorkerStep(w) => WorkerNext(s, w)
    case WorkerByte(w, i) =>
      var me := s.ws[w];
      s.(mem := ByteCopied(s.mem, me.pc.job, i),
         ws := s.ws[w := me.(pc := me.pc.(pending := me.pc.pending - {i}))])
    case SpuriousWorker(w) => s.(ws := s.ws[w := s.ws[w].(pc := Wait)])
    case SpuriousCaller => s.(caller := AwaitWait(s.caller.job, s.caller.generation, s.caller.index, s.caller.seen))
  }

  // ----- Runs

  /** The schedule `es` can be executed from the initial state. */
  predicate Runs(c: Config, mem: seq<Byte>, es: seq<Event>)
    requires c.Valid()
    decreases |es|, 0
  {
    es == [] ||
    (Runs(c, mem, es[..|es| - 1]) && Enabled(c, After(c, mem, es[..|es| - 1]), es[|es| - 1]))
  }

  /** The state a schedule leads to. */
  function After(c: Config, mem: seq<Byte>, es: seq<Event>): State
    requires c.Valid() && Runs(c, mem, es)
    decreases |es|, 1
  {
    if es == [] then Init(c, mem)
    else Next(c, After(c, mem, es[..|es| - 1]), es[|es| - 1])
  }
}
