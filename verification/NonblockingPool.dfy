/** The lock-free pool (include/doost/nonblocking_downward_pool.hpp) as a step machine.

    A thread's allocate is two steps: the atomic fetch_sub that reserves, and later, after any number of
    steps of other threads, the computation of the address inside the reservation. */
module NonblockingPool {
  import opened Bits
  import opened PoolLayout
  import opened Sequences
  import opened SequentialPool

  /** alignof(std::max_align_t) */
  const CURSOR_ALIGNMENT: PositiveWord := 16

  /** 58-59 */
  function Padding(r: Request): Word { if r.alignment > CURSOR_ALIGNMENT then r.alignment - 1 else 0 }

  /** 61-64: how far fetch_sub moves the cursor for one request. */
  function Reservation(r: Request): Word {
    And(Add(Add(r.bytes, Padding(r)), CURSOR_ALIGNMENT - 1), Not(CURSOR_ALIGNMENT - 1))
  }

  /** The size computation does not wrap. */
  predicate SizeFits(r: Request) { r.bytes + Padding(r) + CURSOR_ALIGNMENT - 1 < WORD }

  // ----- The machine

  datatype Phase = Ready | Reserved(index: nat)

  /** One executed fetch_sub: what was asked for, and the value it returned. */
  datatype Grant = Grant(request: Request, current: Word)
  {
    function Size(): Word { Reservation(request) }

    /** 69-71 */
    function Address(): Word { AlignCursor(current, request.bytes, request.alignment) }
  }

  datatype Pool = Pool(
    cursor: Word,
    threads: seq<Phase>,
    grants: seq<Grant>,     // in the order of the atomic steps
    returned: seq<nat>)     // grants whose address allocate has returned

  datatype Event = FetchSub(t: nat, request: Request) | Return(t: nat)

  function Fresh(top: Word, threads: nat): Pool {
    Pool(top, seq(threads, _ => Ready), [], [])
  }

  ghost predicate Enabled(p: Pool, e: Event) {
    match e
    case FetchSub(t, r) => t < |p.threads| && p.threads[t].Ready? && PowerOfTwo(r.alignment)
    case Return(t) => t < |p.threads| && p.threads[t].Reserved?
  }

  function Next(p: Pool, e: Event): Pool
    requires e.t < |p.threads|
  {
    match e
    case FetchSub(t, r) =>
      p.(cursor := Sub(p.cursor, Reservation(r)),
         threads := p.threads[t := Reserved(|p.grants|)],
         grants := p.grants + [Grant(r, p.cursor)])
    case Return(t) =>
      if p.threads[t].Reserved? then p.(threads := p.threads[t := Ready], returned := p.returned + [p.threads[t].index])
      else p
  }

  /** The addresses do not wrap: neither the size computation nor the subtraction. */
  ghost predicate NoWrapStep(p: Pool, e: Event) {
    e.FetchSub? ==>
      && SizeFits(e.request)
      && Reservation(e.request) <= p.cursor
  }

  /** Any interleaving of the threads' steps, with any requests. */
  ghost predicate Scheduled(top: Word, threads: nat, es: seq<Event>) {
    es == [] || (Scheduled(top, threads, es[..|es| - 1]) && Enabled(After(top, threads, es[..|es| - 1]), es[|es| - 1]))
  }

  /** The same with no step that wraps. */
  ghost predicate Runs(top: Word, threads: nat, es: seq<Event>) {
    es == [] ||
    (var prefix := es[..|es| - 1];
     Runs(top, threads, prefix) &&
     var p := After(top, threads, prefix);
     Enabled(p, es[|es| - 1]) && NoWrapStep(p, es[|es| - 1]))
  }

  function After(top: Word, threads: nat, es: seq<Event>): Pool {
    if es == [] then Fresh(top, threads)
    else
      var p := After(top, threads, es[..|es| - 1]);
      if es[|es| - 1].t < |p.threads| then Next(p, es[|es| - 1]) else p
  }

  // ----- One reservation

  lemma CursorAlignmentIsPower()
    ensures PowerOfTwo(CURSOR_ALIGNMENT)
  {
    assert Pow2(4) == 16;
  }

  lemma ReservationMeans(r: Request)
    requires SizeFits(r)
    ensures Reservation(r) % CURSOR_ALIGNMENT == 0
    ensures r.alignment <= CURSOR_ALIGNMENT ==> r.bytes <= Reservation(r) < r.bytes + CURSOR_ALIGNMENT
    ensures r.alignment > CURSOR_ALIGNMENT ==>
      r.bytes + r.alignment - 1 <= Reservation(r) < r.bytes + r.alignment - 1 + CURSOR_ALIGNMENT
  {
    AddWraps(r.bytes, Padding(r));
    AddWraps(r.bytes + Padding(r), CURSOR_ALIGNMENT - 1);
    CursorAlignmentIsPower();
    MaskRoundsDown(r.bytes + Padding(r) + CURSOR_ALIGNMENT - 1, CURSOR_ALIGNMENT);
  }

  /** The reservation for any request, also when the size computation wraps: the sum on a machine word, rounded down
      to a multiple of the cursor's alignment. */
  lemma ReservationExact(r: Request)
    ensures var sum := (r.bytes + Padding(r) + CURSOR_ALIGNMENT - 1) % WORD;
            Reservation(r) == sum - sum % CURSOR_ALIGNMENT
  {
    var once := Add(r.bytes, Padding(r));
    var twice := Add(once, CURSOR_ALIGNMENT - 1);
    AddWraps(r.bytes, Padding(r));
    AddWraps(once, CURSOR_ALIGNMENT - 1);
    CursorAlignmentIsPower();
    MaskRoundsDown(twice, CURSOR_ALIGNMENT);
  }

  /** The block lies, aligned, inside its own reservation, although its address is computed only later; and it is the
      highest aligned block there, as in the sequential pool. */
  lemma BlockInsideReservation(g: Grant)
    requires PowerOfTwo(g.request.alignment) && g.current % CURSOR_ALIGNMENT == 0
    requires SizeFits(g.request) && g.Size() <= g.current
    ensures g.Address() % g.request.alignment == 0
    ensures g.current - g.Size() <= g.Address()
    ensures g.Address() + g.request.bytes <= g.current < g.Address() + g.request.bytes + g.request.alignment
  {
    var r := g.request;
    ReservationMeans(r);
    AlignCursorMeans(g.current, r.bytes, r.alignment);
    if r.alignment <= CURSOR_ALIGNMENT {
      CursorAlignmentIsPower();
      Divides(r.alignment, CURSOR_ALIGNMENT);
      ModSum(g.current, g.Size(), CURSOR_ALIGNMENT);
      ModTrans(g.current - g.Size(), r.alignment, CURSOR_ALIGNMENT);
      AlignCursorAbove(g.current, r.bytes, r.alignment, g.current - g.Size());
    }
  }

  // ----- Every reachable state

  ghost predicate GrantOk(p: Pool, top: Word, k: nat)
    requires k < |p.grants|
  {
    var g := p.grants[k];
    && PowerOfTwo(g.request.alignment)
    && g.current % CURSOR_ALIGNMENT == 0
    && SizeFits(g.request)
    && g.Size() <= g.current
    && g.current == (if k == 0 then top else p.grants[k - 1].current - p.grants[k - 1].Size())
  }

  ghost predicate Inv(p: Pool, top: Word) {
    && p.cursor % CURSOR_ALIGNMENT == 0
    && (forall k: nat :: k < |p.grants| ==> GrantOk(p, top, k))
    && p.cursor == (if p.grants == [] then top else p.grants[|p.grants| - 1].current - p.grants[|p.grants| - 1].Size())
    && (forall t: nat :: t < |p.threads| && p.threads[t].Reserved? ==>
          p.threads[t].index < |p.grants| && p.threads[t].index !in p.returned)
    && (forall t: nat, u: nat :: t < u < |p.threads| && p.threads[t].Reserved? && p.threads[u].Reserved? ==>
          p.threads[t].index != p.threads[u].index)
    && (forall i :: i in p.returned ==> i < |p.grants|)
    && (forall i: nat, j: nat :: i < j < |p.returned| ==> p.returned[i] != p.returned[j])
  }

  lemma NextKeepsInv(p: Pool, top: Word, e: Event)
    requires Inv(p, top) && Enabled(p, e) && NoWrapStep(p, e)
    ensures Inv(Next(p, e), top)
  {
    var q := Next(p, e);
    if e.FetchSub? {
      ReservationMeans(e.request);
      assert Sub(p.cursor, Reservation(e.request)) == p.cursor - Reservation(e.request);
      ModSum(p.cursor, Reservation(e.request), CURSOR_ALIGNMENT);
    }
    forall k: nat | k < |q.grants| ensures GrantOk(q, top, k) {
      if k < |p.grants| { assert GrantOk(p, top, k); }
    }
  }

  lemma {:induction false} ReachableInv(top: Word, threads: nat, es: seq<Event>)
    requires top % CURSOR_ALIGNMENT == 0 && Runs(top, threads, es)
    ensures Inv(After(top, threads, es), top)
  {
    if es != [] {
      var prefix := es[..|es| - 1];
      ReachableInv(top, threads, prefix);
      NextKeepsInv(After(top, threads, prefix), top, es[|es| - 1]);
    }
  }

  // ----- Every reservation is returned, once

  /** Some thread has made reservation k and not yet returned from allocate. */
  ghost predicate Held(p: Pool, k: nat) {
    exists t: nat :: t < |p.threads| && p.threads[t] == Reserved(k)
  }

  /** Each reservation has been returned, once, or is held by one thread; never both. */
  ghost predicate Accounted(p: Pool) {
    && (forall k: nat :: k < |p.grants| ==> (k in p.returned <==> !Held(p, k)))
    && (forall k: nat :: Held(p, k) ==> k < |p.grants|)
    && (forall t: nat, u: nat :: t < u < |p.threads| && p.threads[t].Reserved? ==> p.threads[t] != p.threads[u])
    && Distinct(p.returned)
    && (forall k :: k in p.returned ==> k < |p.grants|)
  }

  lemma ReserveAccounted(p: Pool, e: Event)
    requires Accounted(p) && Enabled(p, e) && e.FetchSub?
    ensures Accounted(Next(p, e))
  {
    var q, n := Next(p, e), |p.grants|;
    assert q.threads[e.t] == Reserved(n) && Held(q, n);
    forall t: nat | t < |p.threads| && p.threads[t].Reserved? ensures p.threads[t].index < n {
      assert Held(p, p.threads[t].index);
    }
    forall k: nat | k < n ensures Held(q, k) <==> Held(p, k) {
      if Held(p, k) {
        var t: nat :| t < |p.threads| && p.threads[t] == Reserved(k);
        assert q.threads[t] == Reserved(k);
      }
      if Held(q, k) {
        var t: nat :| t < |q.threads| && q.threads[t] == Reserved(k);
        assert p.threads[t] == Reserved(k);
      }
    }
    forall k: nat | Held(q, k) ensures k < |q.grants| {
      var t: nat :| t < |q.threads| && q.threads[t] == Reserved(k);
      if t != e.t { assert p.threads[t] == Reserved(k); }
    }
  }

  lemma ReturnAccounted(p: Pool, e: Event)
    requires Accounted(p) && Enabled(p, e) && e.Return?
    ensures Accounted(Next(p, e))
  {
    var q, n := Next(p, e), p.threads[e.t].index;
    assert Held(p, n) && q.returned == p.returned + [n];
    forall k: nat | Held(q, k) ensures Held(p, k) && k != n {
      var t: nat :| t < |q.threads| && q.threads[t] == Reserved(k);
      assert t != e.t && p.threads[t] == Reserved(k);
      assert if t < e.t then p.threads[t] != p.threads[e.t] else p.threads[e.t] != p.threads[t];
    }
    forall k: nat | Held(p, k) && k != n ensures Held(q, k) {
      var t: nat :| t < |p.threads| && p.threads[t] == Reserved(k);
      assert q.threads[t] == Reserved(k);
    }
  }

  /** For any threads and any interleaving: no reservation is lost, and none is returned twice. */
  lemma {:induction false} EveryReservationOnce(top: Word, threads: nat, es: seq<Event>)
    requires Scheduled(top, threads, es)
    ensures Accounted(After(top, threads, es))
  {
    if es != [] {
      var p, e := After(top, threads, es[..|es| - 1]), es[|es| - 1];
      EveryReservationOnce(top, threads, es[..|es| - 1]);
      if e.FetchSub? { ReserveAccounted(p, e); } else { ReturnAccounted(p, e); }
    }
  }

  // ----- Where the blocks are

  lemma {:induction false} ReservationsDescend(p: Pool, top: Word, j: nat, k: nat)
    requires Inv(p, top) && j < k < |p.grants|
    ensures p.grants[k].current <= p.grants[j].current - p.grants[j].Size()
  {
    assert GrantOk(p, top, k) && GrantOk(p, top, k - 1);
    if j < k - 1 { ReservationsDescend(p, top, j, k - 1); }
  }

  lemma GrantPlaced(p: Pool, top: Word, k: nat)
    requires Inv(p, top) && k < |p.grants|
    ensures var g := p.grants[k];
            && g.Address() % g.request.alignment == 0
            && g.current - g.Size() <= g.Address() && g.Address() + g.request.bytes <= g.current
            && p.cursor <= g.Address() && g.current <= top
  {
    assert GrantOk(p, top, k) && GrantOk(p, top, 0);
    BlockInsideReservation(p.grants[k]);
    if k > 0 { ReservationsDescend(p, top, 0, k); }
    var last := |p.grants| - 1;
    assert GrantOk(p, top, last);
    if k < last { ReservationsDescend(p, top, k, last); }
  }

  /** Main result.  For any number of threads and any interleaving of their atomic and later steps, as
      long as addresses do not wrap: the cursor stays 16-byte aligned, and any two blocks that have been
      returned are aligned, lie below the top, and do not overlap. */
  lemma BlocksDisjoint(top: Word, threads: nat, es: seq<Event>, i: nat, j: nat)
    requires top % CURSOR_ALIGNMENT == 0 && Runs(top, threads, es)
    requires var p := After(top, threads, es); i < |p.returned| && j < |p.returned| && i != j
    ensures var p := After(top, threads, es);
            && p.cursor % CURSOR_ALIGNMENT == 0
            && p.returned[i] < |p.grants| && p.returned[j] < |p.grants|
            && var g, h := p.grants[p.returned[i]], p.grants[p.returned[j]];
            && g.Address() % g.request.alignment == 0
            && p.cursor <= g.Address() && g.Address() + g.request.bytes <= top
            && (g.Address() + g.request.bytes <= h.Address() || h.Address() + h.request.bytes <= g.Address())
  {
    var p := After(top, threads, es);
    ReachableInv(top, threads, es);
    var a, b := p.returned[i], p.returned[j];
    assert a in p.returned && b in p.returned;
    GrantPlaced(p, top, a);
    GrantPlaced(p, top, b);
    if a < b { ReservationsDescend(p, top, a, b); } else { ReservationsDescend(p, top, b, a); }
  }

  function TotalReserved(gs: seq<Grant>): nat {
    if gs == [] then 0 else TotalReserved(gs[..|gs| - 1]) + gs[|gs| - 1].Size()
  }

  /** used_bytes (86-90) is the sum of all reservations made, whichever of them have been returned, except when they
      have used up every address down to 0: a cursor of 0 reads as no pool at all, and 0 is reported. */
  lemma UsedIsReserved(st: Storage, threads: nat, es: seq<Event>)
    requires MappingEnd(st) < WORD && MappingEnd(st) % CURSOR_ALIGNMENT == 0 && Runs(MappingEnd(st), threads, es)
    ensures var p := After(MappingEnd(st), threads, es);
            UsedBytes(p.cursor, st) == TotalReserved(p.grants) <==> p.cursor > 0 || MappingEnd(st) == 0
  {
    var p := After(MappingEnd(st), threads, es);
    ReachableInv(MappingEnd(st), threads, es);
    ReservedSoFar(p, MappingEnd(st), |p.grants|);
    assert p.grants[..|p.grants|] == p.grants;
  }

  lemma {:induction false} ReservedSoFar(p: Pool, top: Word, k: nat)
    requires Inv(p, top) && k <= |p.grants|
    ensures (if k == |p.grants| then p.cursor else p.grants[k].current) + TotalReserved(p.grants[..k]) == top
  {
    if k > 0 {
      ReservedSoFar(p, top, k - 1);
      assert p.grants[..k][..k - 1] == p.grants[..k - 1];
      assert GrantOk(p, top, k - 1);
      if k < |p.grants| { assert GrantOk(p, top, k); }
    } else if |p.grants| > 0 {
      assert GrantOk(p, top, 0);
    }
  }

  // ----- The guard, in the order of the reservations

  /** With at most the cursor's alignment, a block fits above an aligned bound only if its whole
      reservation does. */
  lemma FittingReservation(g: Grant, bound: Word)
    requires SizeFits(g.request) && g.Size() <= g.current
    requires PowerOfTwo(g.request.alignment) && g.request.alignment <= CURSOR_ALIGNMENT
    requires g.current % CURSOR_ALIGNMENT == 0
    requires bound <= g.Address() && bound % CURSOR_ALIGNMENT == 0
    ensures bound <= g.current - g.Size()
  {
    BlockInsideReservation(g);
    ReservationMeans(g.request);
    ModSum(g.current, g.Size(), CURSOR_ALIGNMENT);
    MultiplesApart(g.current - g.Size(), bound, CURSOR_ALIGNMENT);
  }

  lemma FittingSize(g: Grant, room: nat)
    requires SizeFits(g.request) && g.request.alignment <= CURSOR_ALIGNMENT
    requires g.request.bytes <= room && room % CURSOR_ALIGNMENT == 0
    ensures g.Size() <= room
  {
    ReservationMeans(g.request);
    MultiplesApart(room, g.Size(), CURSOR_ALIGNMENT);
  }

  lemma GuardAligned(st: Storage, guardEnd: Word, maxAlloc: Word, page: PositiveWord)
    requires LaidOut(st, guardEnd, maxAlloc, page)
    ensures guardEnd % CURSOR_ALIGNMENT == 0 && MappingEnd(st) % CURSOR_ALIGNMENT == 0
    ensures (guardEnd - st.begin) % CURSOR_ALIGNMENT == 0 && st.begin >= CURSOR_ALIGNMENT
  {
    CursorAlignmentIsPower();
    OnePage(st.begin, page);
    Divides(CURSOR_ALIGNMENT, page);
    ModTrans(guardEnd, CURSOR_ALIGNMENT, page);
    ModTrans(st.begin, CURSOR_ALIGNMENT, page);
    ModTrans(MappingEnd(st), CURSOR_ALIGNMENT, page);
    ModSum(guardEnd, st.begin, CURSOR_ALIGNMENT);
  }

  function CursorBelow(g: Grant): Word { Sub(g.current, g.Size()) }

  /** What holds of any schedule, wrapping or not: each atomic step starts where the one before it ended. */
  ghost predicate StartsAt(p: Pool, top: Word, k: nat)
    requires k < |p.grants|
  {
    && PowerOfTwo(p.grants[k].request.alignment)
    && p.grants[k].current == if k == 0 then top else CursorBelow(p.grants[k - 1])
  }

  ghost predicate Consecutive(p: Pool, top: Word) {
    && (forall k: nat :: k < |p.grants| ==> StartsAt(p, top, k))
    && p.cursor == (if p.grants == [] then top else CursorBelow(p.grants[|p.grants| - 1]))
  }

  lemma ConsecutiveStep(p: Pool, top: Word, e: Event)
    requires Consecutive(p, top) && Enabled(p, e)
    ensures Consecutive(Next(p, e), top)
  {
    var q := Next(p, e);
    forall k: nat | k < |q.grants| ensures StartsAt(q, top, k) {
      if k < |p.grants| {
        assert StartsAt(p, top, k) && q.grants[k] == p.grants[k];
      } else {
        assert k > 0 ==> q.grants[k - 1] == p.grants[k - 1];
      }
    }
  }

  lemma {:induction false} ScheduledConsecutive(top: Word, threads: nat, es: seq<Event>)
    requires Scheduled(top, threads, es)
    ensures Consecutive(After(top, threads, es), top)
  {
    if es != [] {
      ScheduledConsecutive(top, threads, es[..|es| - 1]);
      ConsecutiveStep(After(top, threads, es[..|es| - 1]), top, es[|es| - 1]);
    }
  }

  /** A request the guard is made for, in the lock-free pool. */
  ghost predicate Modest(r: Request, maxAlloc: Word) {
    r.bytes <= maxAlloc && r.alignment <= CURSOR_ALIGNMENT
  }

  ghost predicate ModestAt(p: Pool, maxAlloc: Word, k: nat)
    requires k < |p.grants|
  {
    Modest(p.grants[k].request, maxAlloc)
  }

  ghost predicate Fits(p: Pool, guardEnd: Word, k: nat)
    requires k < |p.grants|
  {
    guardEnd <= p.grants[k].Address()
  }

  /** Up to grant k only modest requests, and before it only blocks above the guard. */
  ghost predicate FitsBefore(p: Pool, guardEnd: Word, maxAlloc: Word, k: nat)
    requires k < |p.grants|
  {
    && (forall j: nat :: j <= k ==> ModestAt(p, maxAlloc, j))
    && (forall j: nat :: j < k ==> Fits(p, guardEnd, j))
  }

  /** The step of grant k does not wrap, and starts above the guard. */
  ghost predicate StepOk(p: Pool, guardEnd: Word, k: nat)
    requires k < |p.grants|
  {
    var g := p.grants[k];
    SizeFits(g.request) && g.Size() <= g.current && g.current % CURSOR_ALIGNMENT == 0 && guardEnd <= g.current
  }

  /** From a cursor above the guard, a modest request neither wraps nor reaches below the mapping. */
  lemma ModestStep(st: Storage, guardEnd: Word, maxAlloc: Word, page: PositiveWord, g: Grant)
    requires LaidOut(st, guardEnd, maxAlloc, page) && Modest(g.request, maxAlloc) && PowerOfTwo(g.request.alignment)
    requires guardEnd <= g.current && g.current % CURSOR_ALIGNMENT == 0
    ensures SizeFits(g.request) && st.begin + g.Size() <= g.current
    ensures st.begin <= g.Address() && g.Address() + g.request.bytes <= g.current
    ensures g.Address() % g.request.alignment == 0
  {
    GuardAligned(st, guardEnd, maxAlloc, page);
    FittingSize(g, guardEnd - st.begin);
    BlockInsideReservation(g);
  }

  /** The cursor that a fitting block leaves behind is still above the guard. */
  lemma CursorStaysAbove(g: Grant, guardEnd: Word)
    requires SizeFits(g.request) && g.Size() <= g.current && g.current % CURSOR_ALIGNMENT == 0
    requires PowerOfTwo(g.request.alignment) && g.request.alignment <= CURSOR_ALIGNMENT
    requires guardEnd <= g.Address() && guardEnd % CURSOR_ALIGNMENT == 0
    ensures guardEnd <= CursorBelow(g) && CursorBelow(g) % CURSOR_ALIGNMENT == 0
  {
    FittingReservation(g, guardEnd);
    ReservationMeans(g.request);
    ModSum(g.current, g.Size(), CURSOR_ALIGNMENT);
    SubExact(g.current, g.Size());
  }

  lemma SubExact(x: Word, y: Word)
    requires y <= x
    ensures Sub(x, y) == x - y
  {
  }

  lemma {:induction false} AboveGuardBefore(st: Storage, guardEnd: Word, maxAlloc: Word, page: PositiveWord,
                                            p: Pool, k: nat)
    requires LaidOut(st, guardEnd, maxAlloc, page) && Consecutive(p, MappingEnd(st))
    requires k < |p.grants| && FitsBefore(p, guardEnd, maxAlloc, k)
    ensures guardEnd <= p.grants[k].current && p.grants[k].current % CURSOR_ALIGNMENT == 0
  {
    assert StartsAt(p, MappingEnd(st), k);
    GuardAligned(st, guardEnd, maxAlloc, page);
    if k > 0 {
      AboveGuardBefore(st, guardEnd, maxAlloc, page, p, k - 1);
      assert StartsAt(p, MappingEnd(st), k - 1) && ModestAt(p, maxAlloc, k - 1) && Fits(p, guardEnd, k - 1);
      ModestStep(st, guardEnd, maxAlloc, page, p.grants[k - 1]);
      CursorStaysAbove(p.grants[k - 1], guardEnd);
    }
  }

  /** Guard coverage, for any threads and any interleaving, in the order of the atomic steps and for alignments up to
      that of the cursor.  As long as every block before it fitted above the guard, no step up to that of block k wraps,
      and block k fits too or starts inside the guard, never below the mapping. */
  lemma GuardCatches(st: Storage, guardEnd: Word, maxAlloc: Word, page: PositiveWord, threads: nat, es: seq<Event>,
                     k: nat)
    requires LaidOut(st, guardEnd, maxAlloc, page) && Scheduled(MappingEnd(st), threads, es)
    requires k < |After(MappingEnd(st), threads, es).grants|
    requires FitsBefore(After(MappingEnd(st), threads, es), guardEnd, maxAlloc, k)
    ensures var p := After(MappingEnd(st), threads, es);
            && (forall j: nat :: j <= k ==> StepOk(p, guardEnd, j))
            && st.begin <= p.grants[k].Address()
            && p.grants[k].Address() + p.grants[k].request.bytes <= p.grants[k].current
            && p.grants[k].Address() % p.grants[k].request.alignment == 0
  {
    var p := After(MappingEnd(st), threads, es);
    ScheduledConsecutive(MappingEnd(st), threads, es);
    forall j: nat | j <= k
      ensures StepOk(p, guardEnd, j)
      ensures st.begin <= p.grants[j].Address()
      ensures p.grants[j].Address() + p.grants[j].request.bytes <= p.grants[j].current
      ensures p.grants[j].Address() % p.grants[j].request.alignment == 0
    {
      AboveGuardBefore(st, guardEnd, maxAlloc, page, p, j);
      assert StartsAt(p, MappingEnd(st), j) && ModestAt(p, maxAlloc, j);
      ModestStep(st, guardEnd, maxAlloc, page, p.grants[j]);
    }
  }

  lemma FewerGrants(p: Pool, q: Pool, guardEnd: Word, maxAlloc: Word)
    requires p.grants != [] && |p.grants| <= |q.grants| && q.grants[..|p.grants|] == p.grants
    requires FitsBefore(q, guardEnd, maxAlloc, |q.grants| - 1)
    ensures FitsBefore(p, guardEnd, maxAlloc, |p.grants| - 1)
  {
    forall j: nat | j < |p.grants| ensures p.grants[j] == q.grants[j] {
    }
    forall j: nat | j < |p.grants| ensures ModestAt(p, maxAlloc, j) {
      assert ModestAt(q, maxAlloc, j);
    }
    forall j: nat | j < |p.grants| - 1 ensures Fits(p, guardEnd, j) {
      assert Fits(q, guardEnd, j);
    }
  }

  lemma NextGrants(p: Pool, e: Event)
    requires Enabled(p, e)
    ensures Next(p, e).grants == if e.FetchSub? then p.grants + [Grant(e.request, p.cursor)] else p.grants
  {
  }

  /** So under a guard the assumption that nothing wraps can be discharged: it holds of every schedule of modest
      requests in which all blocks but the last fit. */
  lemma {:induction false} GuardedRuns(st: Storage, guardEnd: Word, maxAlloc: Word, page: PositiveWord, threads: nat,
                                       es: seq<Event>)
    requires LaidOut(st, guardEnd, maxAlloc, page) && Scheduled(MappingEnd(st), threads, es)
    requires var p := After(MappingEnd(st), threads, es);
             p.grants != [] ==> FitsBefore(p, guardEnd, maxAlloc, |p.grants| - 1)
    ensures Runs(MappingEnd(st), threads, es)
  {
    if es != [] {
      var top, prefix, last := MappingEnd(st), es[..|es| - 1], es[|es| - 1];
      var p, q := After(top, threads, prefix), After(top, threads, es);
      NextGrants(p, last);
      if p.grants != [] { FewerGrants(p, q, guardEnd, maxAlloc); }
      GuardedRuns(st, guardEnd, maxAlloc, page, threads, prefix);
      if last.FetchSub? {
        GuardCatches(st, guardEnd, maxAlloc, page, threads, es, |p.grants|);
        assert StepOk(q, guardEnd, |p.grants|);
      }
      assert NoWrapStep(p, last);
    }
  }
}
