/** The mapping behind a downward pool: rounding, guard area, usable bytes, and the cursor arithmetic
    (src/downward_pool_storage.cpp, include/doost/detail/downward_pool_storage.hpp). */
module PoolLayout {
  import opened Bits

  /** round_up (232-236), with the wrap-around of std::size_t */
  function RoundUp(value: Word, multiple: PositiveWord): Word
    requires multiple > 0
  {
    And(Add(value, multiple - 1), Not(multiple - 1))
  }

  lemma AddWraps(x: Word, y: Word)
    ensures Add(x, y) == if x + y < WORD then x + y else x + y - WORD
  {
  }

  /** round_up delivers what its name says exactly as long as adding the mask does not wrap; for every
      larger value it returns 0. */
  lemma RoundUpIff(value: Word, multiple: PositiveWord)
    requires PowerOfTwo(multiple)
    ensures RoundUp(value, multiple) % multiple == 0
    ensures value + multiple <= WORD <==> value <= RoundUp(value, multiple) < value + multiple
    ensures value + multiple > WORD ==> RoundUp(value, multiple) == 0
  {
    var sum := Add(value, multiple - 1);
    MaskRoundsDown(sum, multiple);
    AddWraps(value, multiple - 1);
    if value + multiple > WORD { ModUnique(sum, multiple, 0, sum); }
  }

  lemma PageIsPower()
    ensures PowerOfTwo(4096)
  {
    assert Pow2(4) == 16;
    Pow2Add(4, 4);
    Pow2Add(4, 8);
    assert Pow2(12) == 4096;
  }

  /** A concrete request for which rounding up fails. */
  lemma RoundUpWraps()
    ensures RoundUp(WORD - 1, 4096) == 0
  {
    PageIsPower();
    RoundUpIff(WORD - 1, 4096);
  }

  lemma RoundUpLeast(value: Word, multiple: PositiveWord, bound: nat)
    requires PowerOfTwo(multiple) && value <= bound && bound % multiple == 0 && value + multiple <= WORD
    ensures RoundUp(value, multiple) <= bound
  {
    RoundUpIff(value, multiple);
    MultiplesApart(bound, RoundUp(value, multiple), multiple);
  }

  // ----- make_downward_pool_storage (240-277)

  datatype Storage = Storage(begin: Word, bytes: Word)

  datatype Error = LengthError | MmapFailed | MprotectFailed

  datatype Made = Ok(storage: Storage) | Failed(error: Error)

  /** What the operating system answers: an address for the mapping, or none; and whether mprotect works. */
  datatype System = System(page: PositiveWord, mapping: Word, mapped: bool, protects: bool)

  function MakeStorage(usable: Word, maxAlloc: Word, system: System): Made {
    var rounded := RoundUp(usable, system.page);
    var guard := RoundUp(maxAlloc, system.page);
    if rounded > WORD - 1 - guard then Failed(LengthError)
    else if !system.mapped then Failed(MmapFailed)
    else if !system.protects then Failed(MprotectFailed)
    else Ok(Storage(system.mapping, rounded + guard))
  }

  /** The system hands out page-aligned, non-null mappings that do not wrap, and a page is a power of
      two of at least 16 bytes. */
  ghost predicate Sensible(usable: Word, maxAlloc: Word, system: System) {
    && PowerOfTwo(system.page) && system.page >= 16
    && 0 < system.mapping && system.mapping % system.page == 0
    && system.mapping + RoundUp(usable, system.page) + RoundUp(maxAlloc, system.page) < WORD
  }

  /** Where the guard ends: the lowest address that may be handed out without a fault. */
  function GuardEnd(storage: Storage, maxAlloc: Word, page: PositiveWord): nat {
    storage.begin + RoundUp(maxAlloc, page)
  }

  /** mapping_end (detail 19-25) */
  function MappingEnd(storage: Storage): nat {
    if storage.begin == 0 then 0 else storage.begin + storage.bytes
  }

  /** Which of the four outcomes it is, and where everything lies: the guard from the begin of the mapping, and above
      it, up to the end, exactly the rounded request. */
  lemma MakeStorageIff(usable: Word, maxAlloc: Word, system: System)
    ensures var made := MakeStorage(usable, maxAlloc, system);
            var bytes := RoundUp(usable, system.page) + RoundUp(maxAlloc, system.page);
            && (made == Failed(LengthError) <==> bytes >= WORD)
            && (made == Failed(MmapFailed) <==> bytes < WORD && !system.mapped)
            && (made == Failed(MprotectFailed) <==> bytes < WORD && system.mapped && !system.protects)
            && (made.Ok? <==> bytes < WORD && system.mapped && system.protects)
            && (made.Ok? ==> made.storage.begin == system.mapping && made.storage.bytes == bytes)
            && (made.Ok? && system.mapping > 0 ==>
                  var guardEnd := GuardEnd(made.storage, maxAlloc, system.page);
                  MappingEnd(made.storage) == guardEnd + RoundUp(usable, system.page))
  {
  }

  /** A page-aligned mapping whose lowest pages, up to `guardEnd`, are a guard of at least maxAlloc bytes. */
  ghost predicate LaidOut(st: Storage, guardEnd: Word, maxAlloc: Word, page: PositiveWord) {
    && PowerOfTwo(page) && page >= 16
    && 0 < st.begin && st.begin % page == 0 && guardEnd % page == 0 && MappingEnd(st) % page == 0
    && st.begin + maxAlloc <= guardEnd <= MappingEnd(st) < WORD
  }

  /** A pool that was made holds the request and the guard, page by page, exactly when neither rounding
      wrapped; the overflow check of the sum does not see such a wrap. */
  lemma LayoutCoversIff(usable: Word, maxAlloc: Word, system: System)
    requires Sensible(usable, maxAlloc, system)
    requires MakeStorage(usable, maxAlloc, system).Ok?
    ensures var st := MakeStorage(usable, maxAlloc, system).storage;
            && GuardEnd(st, maxAlloc, system.page) <= MappingEnd(st) < WORD
            && (usable + system.page <= WORD <==> GuardEnd(st, maxAlloc, system.page) + usable <= MappingEnd(st))
            && (maxAlloc + system.page <= WORD <==>
                  LaidOut(st, GuardEnd(st, maxAlloc, system.page), maxAlloc, system.page))
  {
    RoundUpIff(usable, system.page);
    RoundUpIff(maxAlloc, system.page);
    ModSum(system.mapping, RoundUp(maxAlloc, system.page), system.page);
    ModSum(system.mapping + RoundUp(maxAlloc, system.page), RoundUp(usable, system.page), system.page);
  }

  lemma UpToOnePage(value: Word, page: PositiveWord)
    requires PowerOfTwo(page) && 1 <= value <= page && page + page <= WORD
    ensures RoundUp(value, page) == page
  {
    assert page % page == 0 by { ModUnique(page, page, 1, 0); }
    RoundUpIff(value, page);
    RoundUpLeast(value, page, page);
    OnePage(RoundUp(value, page), page);
  }

  /** A pool that is made although it does not hold what was asked for: rounding the request gave 0. */
  lemma LayoutFails()
    ensures var system := System(4096, 4096, true, true);
            && Sensible(WORD - 1, 4096, system) && MakeStorage(WORD - 1, 4096, system).Ok?
            && var st := MakeStorage(WORD - 1, 4096, system).storage;
            GuardEnd(st, 4096, 4096) + (WORD - 1) > MappingEnd(st)
  {
    PageIsPower();
    RoundUpWraps();
    UpToOnePage(4096, 4096);
  }

  /** The assumptions can be met for every page size: one page of usable bytes above a guard of one page. */
  lemma OrdinaryPool(page: PositiveWord, maxAlloc: Word, mapping: PositiveWord)
    requires PowerOfTwo(page) && page >= 16 && 1 <= maxAlloc <= page
    requires mapping % page == 0 && mapping + page + page < WORD
    ensures Sensible(page, maxAlloc, System(page, mapping, true, true))
    ensures MakeStorage(page, maxAlloc, System(page, mapping, true, true)) == Ok(Storage(mapping, page + page))
    ensures var st := Storage(mapping, page + page);
            LaidOut(st, GuardEnd(st, maxAlloc, page), maxAlloc, page)
  {
    UpToOnePage(page, page);
    UpToOnePage(maxAlloc, page);
    LayoutCoversIff(page, maxAlloc, System(page, mapping, true, true));
  }

  // ----- downward_pool_usable_bytes (279-291)

  function UsableBytes(storage: Storage, page: PositiveWord): nat {
    if storage.bytes == 0 then 0
    else if storage.bytes <= page then 0
    else storage.bytes - page
  }

  /** usable_bytes takes the guard to be one page.  It reports the rounded request exactly when the
      guard is one page, that is for 1 <= max_alloc_size <= page, or when nothing was mapped at all. */
  lemma UsableBytesIff(usable: Word, maxAlloc: Word, system: System)
    requires Sensible(usable, maxAlloc, system)
    requires MakeStorage(usable, maxAlloc, system).Ok?
    requires usable + system.page <= WORD && maxAlloc + system.page <= WORD
    ensures UsableBytes(MakeStorage(usable, maxAlloc, system).storage, system.page) == RoundUp(usable, system.page)
       <==> 1 <= maxAlloc <= system.page || (usable == 0 && maxAlloc == 0)
  {
    var page := system.page;
    RoundUpIff(usable, page);
    RoundUpIff(maxAlloc, page);
    RoundUpZero(usable, page);
    RoundUpZero(maxAlloc, page);
    if 1 <= maxAlloc <= page {
      RoundUpLeast(maxAlloc, page, page);
      OnePage(RoundUp(maxAlloc, page), page);
    } else if maxAlloc == 0 {
      OnePage(RoundUp(usable, page), page);
    }
  }

  /** What it reports for any pool that was made: the rounded request and the guard, less one page. */
  lemma UsableBytesAre(usable: Word, maxAlloc: Word, system: System)
    requires MakeStorage(usable, maxAlloc, system).Ok?
    ensures var mapped := RoundUp(usable, system.page) + RoundUp(maxAlloc, system.page);
            var reported := UsableBytes(MakeStorage(usable, maxAlloc, system).storage, system.page);
            reported == if mapped < system.page then 0 else mapped - system.page
  {
  }

  /** With a guard of two pages usable_bytes reports a page too many, whatever the size of a page. */
  lemma TwoPageGuard(page: PositiveWord, maxAlloc: Word, system: System)
    requires PowerOfTwo(page) && page >= 16 && maxAlloc == page + page && 4 * page < WORD
    requires system == System(page, page, true, true)
    ensures Sensible(page, maxAlloc, system) && MakeStorage(page, maxAlloc, system).Ok?
    ensures UsableBytes(MakeStorage(page, maxAlloc, system).storage, page) == page + page != RoundUp(page, page) == page
  {
    UpToOnePage(page, page);
    RoundUpIff(maxAlloc, page);
    ModUnique(maxAlloc, page, 2, 0);
    RoundUpLeast(maxAlloc, page, maxAlloc);
    ModUnique(page, page, 1, 0);
  }

  /** A concrete request for which it does. */
  lemma UsableBytesFails()
    ensures var system := System(4096, 4096, true, true);
            && Sensible(4096, 8192, system) && MakeStorage(4096, 8192, system).Ok?
            && UsableBytes(MakeStorage(4096, 8192, system).storage, 4096) == 8192 != RoundUp(4096, 4096)
  {
    PageIsPower();
    TwoPageGuard(4096, 8192, System(4096, 4096, true, true));
  }

  lemma RoundUpZero(value: Word, page: PositiveWord)
    requires PowerOfTwo(page) && value + page <= WORD
    ensures RoundUp(value, page) == 0 <==> value == 0
  {
    RoundUpIff(value, page);
    if value == 0 { RoundUpLeast(0, page, 0); }
  }

  lemma OnePage(x: nat, page: PositiveWord)
    requires x % page == 0
    ensures x == 0 || x >= page
  {
    if x < page { ModUnique(x, page, 0, x); }
  }

  // ----- Cursor arithmetic (detail 30-45)

  function AlignCursor(current: Word, bytes: Word, alignment: PositiveWord): Word {
    And(Sub(current, bytes), Not(alignment - 1))
  }

  function UsedBytes(cursor: nat, storage: Storage): nat {
    var upper := MappingEnd(storage);
    if cursor == 0 || upper == 0 || cursor >= upper then 0 else upper - cursor
  }

  /** Without wrap, the aligned cursor is the highest aligned address with `bytes` bytes below current. */
  lemma AlignCursorMeans(current: Word, bytes: Word, alignment: PositiveWord)
    requires PowerOfTwo(alignment) && bytes <= current
    ensures var r := AlignCursor(current, bytes, alignment);
            && r % alignment == 0
            && r + bytes <= current < r + bytes + alignment
            && r == (current - bytes) - (current - bytes) % alignment
  {
    assert Sub(current, bytes) == current - bytes;
    MaskRoundsDown(current - bytes, alignment);
  }

  /** For any request: the difference on a machine word, rounded down to a multiple of the alignment. */
  lemma AlignCursorExact(current: Word, bytes: Word, alignment: PositiveWord)
    requires PowerOfTwo(alignment)
    ensures var raw := if bytes <= current then current - bytes else current + WORD - bytes;
            AlignCursor(current, bytes, alignment) == raw - raw % alignment
  {
    var raw := if bytes <= current then current - bytes else current + WORD - bytes;
    assert Sub(current, bytes) == raw;
    MaskRoundsDown(raw, alignment);
  }

  /** The aligned cursor does not go below an aligned bound that leaves room. */
  lemma AlignCursorAbove(current: Word, bytes: Word, alignment: PositiveWord, bound: nat)
    requires PowerOfTwo(alignment) && bound + bytes <= current && bound % alignment == 0
    ensures bound <= AlignCursor(current, bytes, alignment)
  {
    AlignCursorMeans(current, bytes, alignment);
    MultiplesApart(AlignCursor(current, bytes, alignment), bound, alignment);
  }
}
