/** The sequential pool (include/doost/downward_pool.hpp): a bump allocator that grows downward. */
module SequentialPool {
  import opened Bits
  import opened PoolLayout

  class DownwardPool {
    var storage: Storage
    var cursor: Word

    /** The cursor is inside the mapping. */
    ghost predicate Live()
      reads this
    {
      0 < storage.begin <= cursor <= MappingEnd(storage) < WORD
    }

    constructor (made: Storage)
      requires MappingEnd(made) < WORD
      ensures storage == made && cursor == MappingEnd(made)
      ensures Live() <==> made.begin > 0
    {
      storage, cursor := made, MappingEnd(made);
    }

    /** allocate (50-56).  The block is the highest aligned one below the cursor.  The pool stays live exactly as long
        as the block starts inside the mapping; with an aligned mapping, as long as there are enough bytes above its
        begin. */
    method Allocate(bytes: Word, alignment: PositiveWord) returns (address: Word)
      modifies this`cursor
      ensures cursor == AlignCursor(old(cursor), bytes, alignment) && address == cursor
      ensures PowerOfTwo(alignment) && bytes <= old(cursor) ==>
        address % alignment == 0 && address + bytes <= old(cursor) < address + bytes + alignment
      ensures PowerOfTwo(alignment) && bytes <= old(cursor) && old(Live()) ==>
        (Live() <==> storage.begin <= address)
      ensures PowerOfTwo(alignment) && bytes <= old(cursor) && old(Live()) && storage.begin % alignment == 0 ==>
        (Live() <==> storage.begin + bytes <= old(cursor))
    {
      if PowerOfTwo(alignment) && bytes <= cursor {
        AlignCursorMeans(cursor, bytes, alignment);
        if storage.begin % alignment == 0 && storage.begin + bytes <= cursor {
          AlignCursorAbove(cursor, bytes, alignment, storage.begin);
        }
      }
      cursor := AlignCursor(cursor, bytes, alignment);
      return cursor;
    }

    /** reset (58-60) */
    method Reset()
      requires MappingEnd(storage) < WORD
      modifies this`cursor
      ensures cursor == MappingEnd(storage) && (Live() <==> storage.begin > 0)
    {
      cursor := MappingEnd(storage);
    }

    /** move_from (72-78) */
    method MoveFrom(other: DownwardPool)
      requires this != other
      modifies this, other
      ensures storage == old(other.storage) && cursor == old(other.cursor) && (Live() <==> old(other.Live()))
      ensures other.storage == Storage(0, 0) && other.cursor == 0 && !other.Live()
    {
      storage := other.storage;
      cursor := other.cursor;
      other.storage := Storage(0, 0);
      other.cursor := 0;
    }

    /** used_bytes: the distance from the cursor to the end of the mapping, and 0 without a mapping. */
    method Used() returns (bytes: nat)
      ensures Live() ==> bytes == MappingEnd(storage) - cursor
      ensures 0 < cursor < MappingEnd(storage) ==> bytes == MappingEnd(storage) - cursor
      ensures storage.begin == 0 || cursor == 0 || cursor >= MappingEnd(storage) ==> bytes == 0
      ensures bytes == UsedBytes(cursor, storage)
    {
      bytes := UsedBytes(cursor, storage);
    }
  }

  // ----- Histories

  datatype Request = Request(bytes: Word, alignment: PositiveWord)

  /** The cursor after a history of requests. */
  function CursorAfter(start: Word, rs: seq<Request>): Word
  {
    if rs == [] then start
    else
      var last := rs[|rs| - 1];
      AlignCursor(CursorAfter(start, rs[..|rs| - 1]), last.bytes, last.alignment)
  }

  ghost predicate WellFormed(rs: seq<Request>) {
    forall r :: r in rs ==> PowerOfTwo(r.alignment)
  }

  /** The address handed out for request k of the history. */
  function Address(start: Word, rs: seq<Request>, k: nat): Word
    requires k < |rs|
  {
    CursorAfter(start, rs[..k + 1])
  }

  /** A pool that serves requests one after the other hands out the addresses of their history. */
  method AllocateAll(pool: DownwardPool, rs: seq<Request>) returns (addresses: seq<Word>)
    modifies pool`cursor
    ensures pool.cursor == CursorAfter(old(pool.cursor), rs) && |addresses| == |rs|
    ensures forall k :: 0 <= k < |rs| ==> addresses[k] == Address(old(pool.cursor), rs, k)
  {
    addresses := [];
    for i := 0 to |rs|
      invariant |addresses| == i && pool.cursor == CursorAfter(old(pool.cursor), rs[..i])
      invariant forall k :: 0 <= k < i ==> addresses[k] == Address(old(pool.cursor), rs, k)
    {
      assert rs[..i + 1][..i] == rs[..i];
      var address := pool.Allocate(rs[i].bytes, rs[i].alignment);
      addresses := addresses + [address];
    }
    assert rs[..|rs|] == rs;
  }

  /** No request in the history makes the cursor wrap below zero. */
  ghost predicate NoWrap(start: Word, rs: seq<Request>)
  {
    forall k: nat {:trigger rs[..k]} :: k < |rs| ==> rs[k].bytes <= CursorAfter(start, rs[..k])
  }

  lemma OneStep(start: Word, rs: seq<Request>, k: nat)
    requires WellFormed(rs) && k < |rs| && NoWrap(start, rs)
    ensures Address(start, rs, k) % rs[k].alignment == 0
    ensures Address(start, rs, k) + rs[k].bytes <= CursorAfter(start, rs[..k])
  {
    assert rs[..k + 1][..k] == rs[..k];
    assert rs[k].bytes <= CursorAfter(start, rs[..k]);
    AlignCursorMeans(CursorAfter(start, rs[..k]), rs[k].bytes, rs[k].alignment);
  }

  lemma {:induction false} CursorDescends(start: Word, rs: seq<Request>, j: nat, k: nat)
    requires WellFormed(rs) && j <= k <= |rs| && NoWrap(start, rs)
    ensures CursorAfter(start, rs[..k]) <= CursorAfter(start, rs[..j])
  {
    if j < k {
      CursorDescends(start, rs, j, k - 1);
      OneStep(start, rs, k - 1);
    }
  }

  /** All blocks of a history are aligned, lie below where the cursor started, and are pairwise
      disjoint: each later one ends at or below the start of each earlier one. */
  lemma BlocksDisjoint(start: Word, rs: seq<Request>, j: nat, k: nat)
    requires WellFormed(rs) && j < k < |rs| && NoWrap(start, rs)
    ensures Address(start, rs, k) + rs[k].bytes <= Address(start, rs, j)
    ensures Address(start, rs, j) + rs[j].bytes <= start
    ensures Address(start, rs, j) % rs[j].alignment == 0 && Address(start, rs, k) % rs[k].alignment == 0
  {
    OneStep(start, rs, j);
    OneStep(start, rs, k);
    CursorDescends(start, rs, 0, j);
    CursorDescends(start, rs, j + 1, k);
    assert rs[..0] == [];
  }

  // ----- The guard

  /** Requests the guard is made for: no larger than max_alloc_size, no coarser than a page. */
  ghost predicate Guarded(rs: seq<Request>, maxAlloc: Word, page: PositiveWord) {
    forall r :: r in rs ==> PowerOfTwo(r.alignment) && r.alignment <= page && r.bytes <= maxAlloc
  }

  lemma AboveGuard(st: Storage, guardEnd: Word, maxAlloc: Word, page: PositiveWord, current: Word, r: Request)
    requires LaidOut(st, guardEnd, maxAlloc, page) && guardEnd <= current <= MappingEnd(st)
    requires PowerOfTwo(r.alignment) && r.alignment <= page && r.bytes <= maxAlloc
    ensures r.bytes <= current && st.begin <= AlignCursor(current, r.bytes, r.alignment) <= current
  {
    Divides(r.alignment, page);
    ModTrans(st.begin, r.alignment, page);
    AlignCursorAbove(current, r.bytes, r.alignment, st.begin);
    AlignCursorMeans(current, r.bytes, r.alignment);
  }

  lemma AddressInPrefix(start: Word, rs: seq<Request>, n: nat, k: nat)
    requires k < n <= |rs|
    ensures Address(start, rs[..n], k) == Address(start, rs, k)
  {
    assert rs[..n][..k + 1] == rs[..k + 1];
  }

  lemma NoWrapExtended(start: Word, rs: seq<Request>)
    requires rs != [] && NoWrap(start, rs[..|rs| - 1])
    requires rs[|rs| - 1].bytes <= CursorAfter(start, rs[..|rs| - 1])
    ensures NoWrap(start, rs)
  {
    forall k: nat {:trigger rs[..k]} | k < |rs| ensures rs[k].bytes <= CursorAfter(start, rs[..k]) {
      if k < |rs| - 1 { assert rs[..|rs| - 1][..k] == rs[..k] && rs[..|rs| - 1][k] == rs[k]; }
    }
  }

  /** Guard coverage.  As long as every earlier block fitted, the next block either fits too or starts
      inside the guard: it never skips over the guard or below the mapping, and nothing wraps. */
  lemma {:induction false} GuardCatches(st: Storage, guardEnd: Word, maxAlloc: Word, page: PositiveWord,
                                        rs: seq<Request>)
    requires LaidOut(st, guardEnd, maxAlloc, page) && Guarded(rs, maxAlloc, page) && rs != []
    requires forall k: nat :: k < |rs| - 1 ==> guardEnd <= Address(MappingEnd(st), rs, k)
    ensures NoWrap(MappingEnd(st), rs)
    ensures st.begin <= Address(MappingEnd(st), rs, |rs| - 1) <= MappingEnd(st)
  {
    var top, last := MappingEnd(st), |rs| - 1;
    var prefix := rs[..last];
    if last > 0 {
      forall k: nat | k < |prefix| ensures guardEnd <= Address(top, prefix, k) {
        AddressInPrefix(top, rs, last, k);
      }
      GuardCatches(st, guardEnd, maxAlloc, page, prefix);
      assert prefix[..|prefix| - 1 + 1] == prefix;
    }
    AboveGuard(st, guardEnd, maxAlloc, page, CursorAfter(top, prefix), rs[last]);
    assert rs[..last + 1] == rs;
    NoWrapExtended(top, rs);
  }
}
