/** A list over a sequential pool: List::required_storage (include/doost/list.hpp) asks for exactly the bytes that
    pushing the nodes takes from a fresh pool. */
module ListStorage {
  import opened Bits
  import opened NodeList
  import opened PoolLayout
  import opened Sequences
  import opened SequentialPool

  datatype Required = Bytes(count: Word) | Overflows

  /** required_storage (283-288) */
  function RequiredStorage(nodes: Word, nodeSize: PositiveWord): (r: Required)
    ensures r.Bytes? <==> nodes * nodeSize < WORD
    ensures r.Bytes? ==> r.count == nodes * nodeSize
  {
    if nodes > (WORD - 1) / nodeSize then
      TooMany(nodes, nodeSize);
      Overflows
    else
      NotTooMany(nodes, nodeSize);
      Bytes(nodes * nodeSize)
  }

  lemma TooMany(nodes: nat, nodeSize: PositiveWord)
    requires nodes > (WORD - 1) / nodeSize
    ensures nodes * nodeSize >= WORD
  {
    var q := (WORD - 1) / nodeSize;
    assert nodes * nodeSize == (q + 1) * nodeSize + (nodes - q - 1) * nodeSize;
    NonNegative(nodes - q - 1, nodeSize);
  }

  lemma NotTooMany(nodes: nat, nodeSize: PositiveWord)
    requires nodes <= (WORD - 1) / nodeSize
    ensures nodes * nodeSize < WORD
  {
    var q := (WORD - 1) / nodeSize;
    assert q * nodeSize == nodes * nodeSize + (q - nodes) * nodeSize;
    NonNegative(q - nodes, nodeSize);
  }

  lemma NonNegative(x: nat, y: nat)
    ensures x * y >= 0
  {
  }

  /** What the C++ language says about any node type, and that nodes are not coarser than a page. */
  ghost predicate NodeType(nodeSize: Word, nodeAlignment: Word, page: PositiveWord) {
    nodeSize > 0 && PowerOfTwo(nodeAlignment) && 0 < nodeAlignment <= page && nodeSize % nodeAlignment == 0
  }

  /** The requests of n pushes, each for one node. */
  function Pushes(n: nat, nodeSize: Word, nodeAlignment: PositiveWord): (rs: seq<Request>)
    ensures |rs| == n && forall i :: 0 <= i < n ==> rs[i] == Request(nodeSize, nodeAlignment)
  {
    seq(n, _ => Request(nodeSize, nodeAlignment))
  }

  lemma ProductMonotone(k: nat, n: nat, x: nat)
    requires k <= n
    ensures 0 <= k * x <= n * x
  {
    assert n * x == k * x + (n - k) * x;
    NonNegative(n - k, x);
    NonNegative(k, x);
  }

  lemma OnePush(current: Word, nodeSize: Word, nodeAlignment: PositiveWord)
    requires PowerOfTwo(nodeAlignment) && current % nodeAlignment == 0 && nodeSize % nodeAlignment == 0
    requires nodeSize <= current
    ensures AlignCursor(current, nodeSize, nodeAlignment) == current - nodeSize
    ensures (current - nodeSize) % nodeAlignment == 0
  {
    ModSum(current, nodeSize, nodeAlignment);
    AlignCursorMeans(current, nodeSize, nodeAlignment);
  }

  /** The cursor after k pushes, one node lower each time. */
  function NodesBelow(end: int, k: nat, nodeSize: nat): int {
    if k == 0 then end else NodesBelow(end, k - 1, nodeSize) - nodeSize
  }

  lemma {:induction false} NodesBelowProduct(end: int, k: nat, nodeSize: nat)
    ensures NodesBelow(end, k, nodeSize) == end - k * nodeSize
  {
    if k > 0 {
      NodesBelowProduct(end, k - 1, nodeSize);
      assert k * nodeSize == (k - 1) * nodeSize + nodeSize;
    }
  }

  lemma {:induction false} CursorBelow(end: Word, rs: seq<Request>, nodeSize: Word, nodeAlignment: PositiveWord)
    requires PowerOfTwo(nodeAlignment) && end % nodeAlignment == 0 && nodeSize % nodeAlignment == 0
    requires (forall i :: 0 <= i < |rs| ==> rs[i] == Request(nodeSize, nodeAlignment))
    requires NodesBelow(end, |rs|, nodeSize) >= 0
    ensures CursorAfter(end, rs) == NodesBelow(end, |rs|, nodeSize)
    ensures NodesBelow(end, |rs|, nodeSize) % nodeAlignment == 0
  {
    if rs != [] {
      var front := rs[..|rs| - 1];
      CursorBelow(end, front, nodeSize, nodeAlignment);
      OnePush(CursorAfter(end, front), nodeSize, nodeAlignment);
    }
  }

  /** From an aligned end, equal nodes are packed without any padding. */
  lemma Packed(end: Word, n: nat, k: nat, nodeSize: Word, nodeAlignment: PositiveWord)
    requires PowerOfTwo(nodeAlignment) && end % nodeAlignment == 0 && nodeSize % nodeAlignment == 0
    requires k <= n && n * nodeSize <= end
    ensures 0 <= k * nodeSize <= n * nodeSize
    ensures CursorAfter(end, Pushes(n, nodeSize, nodeAlignment)[..k]) == end - k * nodeSize
    ensures (end - k * nodeSize) % nodeAlignment == 0
  {
    ProductMonotone(k, n, nodeSize);
    NodesBelowProduct(end, k, nodeSize);
    CursorBelow(end, Pushes(n, nodeSize, nodeAlignment)[..k], nodeSize, nodeAlignment);
  }

  /** The storage bound is exact: in a pool made from required_storage(n), the n nodes go to the addresses
      end - nodeSize, end - 2 * nodeSize, ..., all aligned, above the guard, and the pool then reports exactly the
      required bytes as used. */
  lemma StorageIsExact(n: Word, nodeSize: PositiveWord, nodeAlignment: PositiveWord, required: Word, maxAlloc: Word,
                       system: System)
    requires NodeType(nodeSize, nodeAlignment, system.page) && RequiredStorage(n, nodeSize) == Bytes(required)
    requires Sensible(required, maxAlloc, system) && required + system.page <= WORD
    requires MakeStorage(required, maxAlloc, system).Ok?
    ensures var st := MakeStorage(required, maxAlloc, system).storage;
            var end, rs := MappingEnd(st), Pushes(n, nodeSize, nodeAlignment);
            && WellFormed(rs) && NoWrap(end, rs)
            && UsedBytes(CursorAfter(end, rs), st) == required
            && GuardEnd(st, maxAlloc, system.page) <= CursorAfter(end, rs)
            && forall k: nat :: k < n ==>
                 && Address(end, rs, k) == NodesBelow(end, k + 1, nodeSize) == end - (k + 1) * nodeSize
                 && Address(end, rs, k) % nodeAlignment == 0
                 && GuardEnd(st, maxAlloc, system.page) <= Address(end, rs, k)
  {
    var st := MakeStorage(required, maxAlloc, system).storage;
    var end, rs := MappingEnd(st), Pushes(n, nodeSize, nodeAlignment);
    LayoutCoversIff(required, maxAlloc, system);
    EndAligned(required, nodeAlignment, maxAlloc, system);
    forall k: nat | k <= n
      ensures CursorAfter(end, rs[..k]) == NodesBelow(end, k, nodeSize) == end - k * nodeSize
      ensures end - required <= NodesBelow(end, k, nodeSize) && NodesBelow(end, k, nodeSize) % nodeAlignment == 0
    {
      NodesBelowProduct(end, k, nodeSize);
      Packed(end, n, k, nodeSize, nodeAlignment);
    }
    assert rs[..n] == rs;
    forall k: nat {:trigger rs[..k]} | k < |rs| ensures rs[k].bytes <= CursorAfter(end, rs[..k]) {
      assert NodesBelow(end, k + 1, nodeSize) == NodesBelow(end, k, nodeSize) - nodeSize;
    }
  }

  /** The end of the mapping is a page boundary, so it is aligned for any node. */
  lemma EndAligned(usable: Word, alignment: PositiveWord, maxAlloc: Word, system: System)
    requires PowerOfTwo(alignment) && alignment <= system.page && Sensible(usable, maxAlloc, system)
    requires MakeStorage(usable, maxAlloc, system).Ok?
    ensures MappingEnd(MakeStorage(usable, maxAlloc, system).storage) % alignment == 0
  {
    var page, guard, rounded := system.page, RoundUp(maxAlloc, system.page), RoundUp(usable, system.page);
    RoundUpIff(usable, page);
    RoundUpIff(maxAlloc, page);
    ModSum(system.mapping, rounded, page);
    ModSum(system.mapping + rounded, guard, page);
    Divides(alignment, page);
    ModTrans(system.mapping + rounded + guard, alignment, page);
  }

  lemma WholePages(usable: Word, maxAlloc: Word, system: System)
    requires Sensible(usable, maxAlloc, system) && usable % system.page == 0
    requires usable + system.page <= WORD && maxAlloc + system.page <= WORD
    requires MakeStorage(usable, maxAlloc, system).Ok?
    ensures var st := MakeStorage(usable, maxAlloc, system).storage;
            && MappingEnd(st) == GuardEnd(st, maxAlloc, system.page) + usable
            && st.begin + maxAlloc <= GuardEnd(st, maxAlloc, system.page)
  {
    RoundUpIff(usable, system.page);
    RoundUpLeast(usable, system.page, usable);
    RoundUpIff(maxAlloc, system.page);
  }

  /** And it is not generous: when the n nodes fill their pages, one node more starts inside the guard. */
  lemma OneMoreDoesNotFit(n: Word, nodeSize: PositiveWord, nodeAlignment: PositiveWord, required: Word,
                          maxAlloc: Word, system: System)
    requires NodeType(nodeSize, nodeAlignment, system.page) && RequiredStorage(n, nodeSize) == Bytes(required)
    requires required % system.page == 0 && nodeSize <= maxAlloc
    requires required + system.page <= WORD && maxAlloc + system.page <= WORD
    requires Sensible(required, maxAlloc, system) && MakeStorage(required, maxAlloc, system).Ok?
    ensures var st := MakeStorage(required, maxAlloc, system).storage;
            var address := Address(MappingEnd(st), Pushes(n + 1, nodeSize, nodeAlignment), n);
            st.begin <= address < GuardEnd(st, maxAlloc, system.page)
  {
    var end := MappingEnd(MakeStorage(required, maxAlloc, system).storage);
    WholePages(required, maxAlloc, system);
    EndAligned(required, nodeAlignment, maxAlloc, system);
    NodesBelowProduct(end, n, nodeSize);
    assert NodesBelow(end, n + 1, nodeSize) == end - required - nodeSize;
    CursorBelow(end, Pushes(n + 1, nodeSize, nodeAlignment)[..n + 1], nodeSize, nodeAlignment);
  }

  // ----- The list itself

  /** The order in which pushing at the front leaves values. */
  ghost function Reversed<T>(xs: seq<T>): (r: seq<T>)
    ensures |r| == |xs|
  {
    if xs == [] then [] else [xs[|xs| - 1]] + Reversed(xs[..|xs| - 1])
  }

  /** How many nodes the pool has been asked for when `pushed` pushes have been done and, perhaps, one has thrown: an
      element constructor that throws comes after its allocation, and a pool takes nothing back. */
  ghost function Allocated<T>(env: Environment<T>, first: nat, pushed: nat, r: Outcome): nat {
    pushed + if r.Done? || env.fault(first + pushed) == AllocateThrows then 0 else 1
  }

  /** The cursor after n nodes have been allocated. */
  function NodesTaken(top: Word, n: nat, nodeSize: Word, nodeAlignment: PositiveWord): Word {
    if n == 0 then top else AlignCursor(NodesTaken(top, n - 1, nodeSize, nodeAlignment), nodeSize, nodeAlignment)
  }

  lemma {:induction false} NodesTakenIsHistory(top: Word, n: nat, nodeSize: Word, nodeAlignment: PositiveWord)
    ensures NodesTaken(top, n, nodeSize, nodeAlignment) == CursorAfter(top, Pushes(n, nodeSize, nodeAlignment))
  {
    if n > 0 {
      NodesTakenIsHistory(top, n - 1, nodeSize, nodeAlignment);
      assert Pushes(n, nodeSize, nodeAlignment)[..n - 1] == Pushes(n - 1, nodeSize, nodeAlignment);
    }
  }

  /** The nodes lie where a pool with its cursor at `top` has put them, the last one first. */
  ghost predicate Placed<T(0)>(nodes: seq<Node<T>>, top: Word, nodeSize: Word, nodeAlignment: PositiveWord) {
    nodes == [] ||
    (nodes[0].address == NodesTaken(top, |nodes|, nodeSize, nodeAlignment)
     && Placed(nodes[1..], top, nodeSize, nodeAlignment))
  }

  lemma {:induction false} PlacedAt<T(0)>(nodes: seq<Node<T>>, i: nat, top: Word, nodeSize: Word,
                                          nodeAlignment: PositiveWord)
    requires Placed(nodes, top, nodeSize, nodeAlignment) && i < |nodes|
    ensures nodes[i].address == NodesTaken(top, |nodes| - i, nodeSize, nodeAlignment)
  {
    if i > 0 {
      PlacedAt(nodes[1..], i - 1, top, nodeSize, nodeAlignment);
    }
  }

  lemma PushAddress(end: Word, n: nat, k: nat, nodeSize: Word, nodeAlignment: PositiveWord)
    requires k < n
    ensures Address(end, Pushes(n, nodeSize, nodeAlignment), k)
         == CursorAfter(end, Pushes(k + 1, nodeSize, nodeAlignment))
  {
    assert Pushes(n, nodeSize, nodeAlignment)[..k + 1] == Pushes(k + 1, nodeSize, nodeAlignment);
  }

  /** The pool's cursor has come down from `top` by that many nodes. */
  ghost predicate CameDown<T(0)>(arena: Arena<T>, top: Word, n: nat)
    requires arena.pool != null
    reads arena.pool
  {
    arena.pool.cursor == NodesTaken(top, n, arena.nodeSize, arena.nodeAlignment)
  }

  /** push_front of one more value, on a list over a pool. */
  method PushOne<T(0)>(env: Environment<T>, list: List<T>, pool: DownwardPool, value: T,
                       ghost top: Word, ghost first: nat)
      returns (r: Outcome)
    requires list.Valid() && list.allocator.pool == pool && CameDown(list.allocator, top, |list.nodes|)
    requires env.creations == first + |list.nodes|
    requires Placed(list.nodes, top, list.allocator.nodeSize, list.allocator.nodeAlignment)
    modifies list, env, list.allocator, pool
    ensures list.Valid() && list.allocator == old(list.allocator) && pool.storage == old(pool.storage)
    ensures env.creations == old(env.creations) + 1 && (r.Threw? <==> env.fault(old(env.creations)) != NoFault)
    ensures list.Values() == if r.Done? then [value] + old(list.Values()) else old(list.Values())
    ensures Placed(list.nodes, top, list.allocator.nodeSize, list.allocator.nodeAlignment)
    ensures CameDown(list.allocator, top,
      if r.Done? then |list.nodes| else Allocated(env, first, |list.nodes|, Threw))
  {
    r := list.EmplaceFront(env, value);
  }

  /** push_front of each value in turn, on an empty list over a pool, up to the first exception.  Each push that reaches
      the allocation asks the pool for one node. */
  method PushAll<T(0)>(env: Environment<T>, list: List<T>, pool: DownwardPool, values: seq<T>)
      returns (pushed: nat, r: Outcome)
    requires list.Valid() && list.nodes == [] && list.allocator.pool == pool
    modifies list, env, list.allocator, pool
    ensures list.Valid() && list.allocator == old(list.allocator) && pool.storage == old(pool.storage)
    ensures pushed == |list.nodes| <= |values| && list.Values() == Reversed(values[..pushed])
    ensures (r.Done? <==> pushed == |values|) && AllFine(env.fault, old(env.creations), pushed)
    ensures r.Threw? ==> env.fault(old(env.creations) + pushed) != NoFault
    ensures Placed(list.nodes, old(pool.cursor), list.allocator.nodeSize, list.allocator.nodeAlignment)
    ensures CameDown(list.allocator, old(pool.cursor), Allocated(env, old(env.creations), pushed, r))
  {
    ghost var top, first := pool.cursor, env.creations;
    pushed := 0;
    while pushed < |values|
      invariant list.Valid() && list.allocator == old(list.allocator) && pool.storage == old(pool.storage)
      invariant pushed == |list.nodes| <= |values| && list.Values() == Reversed(values[..pushed])
      invariant env.creations == first + pushed && AllFine(env.fault, first, pushed)
      invariant Placed(list.nodes, top, list.allocator.nodeSize, list.allocator.nodeAlignment)
      invariant CameDown(list.allocator, top, pushed)
    {
      assert values[..pushed + 1][..pushed] == values[..pushed];
      r := PushOne(env, list, pool, values[pushed], top, first);
      if r.Threw? {
        return;
      }
      pushed := pushed + 1;
    }
    r := Done;
    assert values[..pushed] == values;
  }

  /** A list of n nodes on a pool made for it. */
  ghost predicate Stored<T(0)>(nodes: seq<Node<T>>, nodeSize: Word, nodeAlignment: PositiveWord, required: Word,
                               maxAlloc: Word, system: System)
  {
    && |nodes| < WORD && NodeType(nodeSize, nodeAlignment, system.page)
    && RequiredStorage(|nodes|, nodeSize) == Bytes(required)
    && Sensible(required, maxAlloc, system) && required + system.page <= WORD
    && MakeStorage(required, maxAlloc, system).Ok?
    && var end := MappingEnd(MakeStorage(required, maxAlloc, system).storage);
    end < WORD && Placed(nodes, end, nodeSize, nodeAlignment)
  }

  /** Where the node with index i is: the last one pushed comes first. */
  lemma NodeAt<T(0)>(nodes: seq<Node<T>>, i: nat, nodeSize: PositiveWord, nodeAlignment: PositiveWord, required: Word,
                     maxAlloc: Word, system: System)
    requires Stored(nodes, nodeSize, nodeAlignment, required, maxAlloc, system) && i < |nodes|
    ensures var st := MakeStorage(required, maxAlloc, system).storage;
            && nodes[i].address == Address(MappingEnd(st), Pushes(|nodes|, nodeSize, nodeAlignment), |nodes| - 1 - i)
            && nodes[i].address == MappingEnd(st) - (|nodes| - i) * nodeSize
            && nodes[i].address % nodeAlignment == 0
            && GuardEnd(st, maxAlloc, system.page) <= nodes[i].address
  {
    var end := MappingEnd(MakeStorage(required, maxAlloc, system).storage);
    PlacedAt(nodes, i, end, nodeSize, nodeAlignment);
    NodesTakenIsHistory(end, |nodes| - i, nodeSize, nodeAlignment);
    PushAddress(end, |nodes|, |nodes| - 1 - i, nodeSize, nodeAlignment);
    StorageIsExact(|nodes|, nodeSize, nodeAlignment, required, maxAlloc, system);
  }

  lemma NodesApart<T(0)>(nodes: seq<Node<T>>, i: nat, j: nat, nodeSize: PositiveWord, nodeAlignment: PositiveWord,
                         required: Word, maxAlloc: Word, system: System)
    requires Stored(nodes, nodeSize, nodeAlignment, required, maxAlloc, system) && i < j < |nodes|
    ensures nodes[i].address + nodeSize <= nodes[j].address
  {
    var end := MappingEnd(MakeStorage(required, maxAlloc, system).storage);
    NodeAt(nodes, i, nodeSize, nodeAlignment, required, maxAlloc, system);
    NodeAt(nodes, j, nodeSize, nodeAlignment, required, maxAlloc, system);
    PushesFit(|nodes|, nodeSize, nodeAlignment, required, maxAlloc, system);
    BlocksDisjoint(end, Pushes(|nodes|, nodeSize, nodeAlignment), |nodes| - 1 - j, |nodes| - 1 - i);
  }

  lemma PushesFit(n: Word, nodeSize: PositiveWord, nodeAlignment: PositiveWord, required: Word, maxAlloc: Word,
                  system: System)
    requires NodeType(nodeSize, nodeAlignment, system.page) && RequiredStorage(n, nodeSize) == Bytes(required)
    requires Sensible(required, maxAlloc, system) && required + system.page <= WORD
    requires MakeStorage(required, maxAlloc, system).Ok?
    ensures var st := MakeStorage(required, maxAlloc, system).storage;
            var rs := Pushes(n, nodeSize, nodeAlignment);
            && MappingEnd(st) < WORD && WellFormed(rs) && NoWrap(MappingEnd(st), rs)
            && UsedBytes(CursorAfter(MappingEnd(st), rs), st) == required
  {
    LayoutCoversIff(required, maxAlloc, system);
    StorageIsExact(n, nodeSize, nodeAlignment, required, maxAlloc, system);
  }

  /** Nodes one below the other from `end` down, in the order they were pushed, so that the first of the list is the
      lowest: without gaps, aligned, disjoint, and above the guard. */
  ghost predicate DownFrom<T(0)>(end: nat, nodes: seq<Node<T>>, nodeSize: Word, nodeAlignment: PositiveWord,
                                 guardEnd: nat)
  {
    && (forall i :: 0 <= i < |nodes| ==>
          && nodes[i].address == end - (|nodes| - i) * nodeSize
          && nodes[i].address % nodeAlignment == 0
          && guardEnd <= nodes[i].address)
    && (forall i, j :: 0 <= i < j < |nodes| ==> nodes[i].address + nodeSize <= nodes[j].address)
  }

  /** What the request history says, for the nodes of a list in list order. */
  lemma NodesOnPool<T(0)>(nodes: seq<Node<T>>, nodeSize: PositiveWord, nodeAlignment: PositiveWord, required: Word,
                          maxAlloc: Word, system: System)
    requires Stored(nodes, nodeSize, nodeAlignment, required, maxAlloc, system)
    ensures var st := MakeStorage(required, maxAlloc, system).storage;
            DownFrom(MappingEnd(st), nodes, nodeSize, nodeAlignment, GuardEnd(st, maxAlloc, system.page))
  {
    var st := MakeStorage(required, maxAlloc, system).storage;
    forall i | 0 <= i < |nodes|
      ensures nodes[i].address == MappingEnd(st) - (|nodes| - i) * nodeSize
      ensures nodes[i].address % nodeAlignment == 0 && GuardEnd(st, maxAlloc, system.page) <= nodes[i].address
    {
      NodeAt(nodes, i, nodeSize, nodeAlignment, required, maxAlloc, system);
    }
    forall i, j | 0 <= i < j < |nodes| ensures nodes[i].address + nodeSize <= nodes[j].address {
      NodesApart(nodes, i, j, nodeSize, nodeAlignment, required, maxAlloc, system);
    }
  }

  lemma NothingThrew(fault: nat -> Fault, first: nat, n: nat, pushed: nat)
    requires AllFine(fault, first, n) && pushed <= n && (pushed < n ==> fault(first + pushed) != NoFault)
    ensures pushed == n
  {
    AllFineIff(fault, first, n);
  }

  /** A new pool with the given storage, a list over it, and one push for each value, none of which throws. */
  method FillPool<T(0)>(env: Environment<T>, values: seq<T>, nodeSize: Word, nodeAlignment: PositiveWord, st: Storage)
      returns (list: List<T>, pool: DownwardPool)
    requires MappingEnd(st) < WORD && AllFine(env.fault, env.creations, |values|)
    modifies env
    ensures list.Valid() && list.allocator.pool == pool && list.size == |values| && list.Values() == Reversed(values)
    ensures pool.storage == st && Placed(list.nodes, MappingEnd(st), nodeSize, nodeAlignment)
    ensures list.allocator.nodeSize == nodeSize && list.allocator.nodeAlignment == nodeAlignment
    ensures CameDown(list.allocator, MappingEnd(st), |values|)
  {
    ghost var first := env.creations;
    pool := new DownwardPool(st);
    var arena := new Arena<T>.Over(pool, nodeSize, nodeAlignment);
    list := new List<T>.Empty(arena);
    var pushed, r := PushAll(env, list, pool, values);
    NothingThrew(env.fault, first, |values|, pushed);
    assert values[..pushed] == values;
  }

  /** The whole of it: a pool made from required_storage(n), a list over it, and n pushes none of which throws.  The
      list holds the n values; the pool reports exactly the required bytes as used; and the nodes lie at end - nodeSize,
      end - 2 * nodeSize, ..., aligned, disjoint, and above the guard. */
  method FilledList<T(0)>(env: Environment<T>, values: seq<T>, nodeSize: PositiveWord, nodeAlignment: PositiveWord,
                          required: Word, maxAlloc: Word, system: System)
      returns (list: List<T>, pool: DownwardPool)
    requires |values| < WORD && RequiredStorage(|values|, nodeSize) == Bytes(required)
    requires NodeType(nodeSize, nodeAlignment, system.page)
    requires Sensible(required, maxAlloc, system) && required + system.page <= WORD
    requires MakeStorage(required, maxAlloc, system).Ok? && AllFine(env.fault, env.creations, |values|)
    modifies env
    ensures list.Valid() && list.allocator.pool == pool && list.size == |values| && list.Values() == Reversed(values)
    ensures pool.storage == MakeStorage(required, maxAlloc, system).storage
    ensures UsedBytes(pool.cursor, pool.storage) == required == |values| * nodeSize
    ensures var guardEnd := GuardEnd(pool.storage, maxAlloc, system.page);
            DownFrom(MappingEnd(pool.storage), list.nodes, nodeSize, nodeAlignment, guardEnd)
  {
    PushesFit(|values|, nodeSize, nodeAlignment, required, maxAlloc, system);
    NodesTakenIsHistory(MappingEnd(MakeStorage(required, maxAlloc, system).storage), |values|, nodeSize, nodeAlignment);
    list, pool := FillPool(env, values, nodeSize, nodeAlignment, MakeStorage(required, maxAlloc, system).storage);
    NodesOnPool(list.nodes, nodeSize, nodeAlignment, required, maxAlloc, system);
  }
}
