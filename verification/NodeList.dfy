/** doost::List (include/doost/list.hpp): a singly linked list whose nodes come from an allocator, with
    element constructors and allocations that may throw. */
module NodeList {
  import opened Bits
  import opened PoolLayout
  import opened Sequences
  import opened SequentialPool

  datatype Outcome = Done | Threw

  datatype Fault = NoFault | AllocateThrows | ConstructThrows

  /** What the element type and the allocator do: which creations fail, in order; what is left of an element that
      has been moved from; and what is left when its move constructor throws.  Every pattern of failures is some
      `fault`. */
  class Environment<T> {
    const fault: nat -> Fault
    const movedFrom: T -> T
    const halfMoved: T -> T
    var creations: nat

    constructor (fault: nat -> Fault, movedFrom: T -> T, halfMoved: T -> T)
      ensures this.fault == fault && this.movedFrom == movedFrom && this.halfMoved == halfMoved && creations == 0
    {
      this.fault, this.movedFrom, this.halfMoved, creations := fault, movedFrom, halfMoved, 0;
    }
  }

  class Node<T(0)> {
    const address: Word
    var next: Node?<T>
    var value: T
    ghost var constructed: bool

    /** Raw memory, as it comes from an allocator. */
    constructor (address: Word)
      ensures !constructed && this.address == address
    {
      this.address, next, constructed := address, null, false;
    }
  }

  /** An allocator and the resource behind it, a sequential pool (downward_pool_allocator.hpp 12-44) or the heap; two
      allocators are equal when they are the same arena.  Heap addresses are not modelled. */
  class Arena<T(0)> {
    const pool: DownwardPool?
    const nodeSize: Word
    const nodeAlignment: PositiveWord
    ghost var live: set<Node<T>>

    constructor Heap()
      ensures live == {} && pool == null
    {
      pool, nodeSize, nodeAlignment, live := null, 0, 1, {};
    }

    constructor Over(pool: DownwardPool, nodeSize: Word, nodeAlignment: PositiveWord)
      ensures live == {} && this.pool == pool && this.nodeSize == nodeSize && this.nodeAlignment == nodeAlignment
    {
      this.pool, this.nodeSize, this.nodeAlignment, live := pool, nodeSize, nodeAlignment, {};
    }

    /** Where the pool's cursor goes when one node is allocated. */
    function Below(cursor: Word): Word {
      AlignCursor(cursor, nodeSize, nodeAlignment)
    }

    /** The same for a creation, which may throw before or after the allocation. */
    ghost function AfterCreation(cursor: Word, env: Environment<T>, creation: nat): Word {
      if env.fault(creation) == AllocateThrows then cursor else Below(cursor)
    }

    /** allocate for one node: a pool is asked for its size and alignment. */
    method Allocate() returns (node: Node<T>)
      modifies this, pool
      ensures fresh(node) && !node.constructed && live == old(live) + {node}
      ensures pool != null ==>
        pool.storage == old(pool.storage) && node.address == pool.cursor == Below(old(pool.cursor))
    {
      var address: Word := 0;
      if pool != null {
        address := pool.Allocate(nodeSize, nodeAlignment);
      }
      node := new Node<T>(address);
      live := live + {node};
    }

    /** Only memory that this resource handed out and has not taken back, and that holds no element.  A pool does
        nothing here: its cursor stays where it is. */
    method Deallocate(node: Node<T>)
      requires node in live && !node.constructed
      modifies this
      ensures live == old(live) - {node}
    {
      live := live - {node};
    }
  }

  /** create_node (291-303); null stands for an exception. */
  method CreateNode<T(0)>(env: Environment<T>, arena: Arena<T>, next: Node?<T>, value: T) returns (node: Node?<T>)
    modifies env, arena, arena.pool
    ensures env.creations == old(env.creations) + 1
    ensures node == null <==> env.fault(old(env.creations)) != NoFault
    ensures node == null ==> arena.live == old(arena.live)
    ensures node != null ==> fresh(node) && node.constructed && node.next == next && node.value == value
    ensures node != null ==> arena.live == old(arena.live) + {node}
    ensures arena.pool != null ==> arena.pool.storage == old(arena.pool.storage)
    ensures arena.pool != null ==>
      arena.pool.cursor == arena.AfterCreation(old(arena.pool.cursor), env, old(env.creations))
    ensures node != null && arena.pool != null ==> node.address == arena.pool.cursor
  {
    var fault := env.fault(env.creations);
    env.creations := env.creations + 1;
    if fault == AllocateThrows {
      return null;
    }
    var memory := arena.Allocate();
    if fault == ConstructThrows {
      arena.Deallocate(memory);
      return null;
    }
    memory.next, memory.value, memory.constructed := next, value, true;
    return memory;
  }

  /** destroy_node (305-308): the element is destroyed, then its memory goes back. */
  method DestroyNode<T(0)>(arena: Arena<T>, node: Node<T>)
    requires node in arena.live && node.constructed
    modifies arena, node`constructed
    ensures arena.live == old(arena.live) - {node} && !node.constructed
  {
    node.constructed := false;
    arena.Deallocate(node);
  }

  ghost function NodeSet<T(0)>(nodes: seq<Node<T>>): set<Node<T>> {
    set n | n in nodes
  }

  ghost function ValuesOf<T(0)>(nodes: seq<Node<T>>): (r: seq<T>)
    reads (set n | n in nodes)`value
    ensures |r| == |nodes|
  {
    if nodes == [] then [] else [nodes[0].value] + ValuesOf(nodes[1..])
  }

  /** Following next from `from` passes through exactly `nodes`, all holding elements, and arrives at `end`. */
  ghost predicate Chain<T(0)>(from: Node?<T>, nodes: seq<Node<T>>, end: Node?<T>)
    reads (set n | n in nodes)`next, (set n | n in nodes)`constructed
  {
    if nodes == [] then from == end
    else from == nodes[0] && nodes[0].constructed && Chain(nodes[0].next, nodes[1..], end)
  }

  lemma {:induction false} ChainSplit<T(0)>(from: Node?<T>, a: seq<Node<T>>, b: seq<Node<T>>, end: Node?<T>)
    ensures var middle := if b == [] then end else b[0];
            Chain(from, a + b, end) <==> Chain(from, a, middle) && Chain(middle, b, end)
    decreases |a|
  {
    if a == [] {
      assert a + b == b;
    } else {
      assert (a + b)[1..] == a[1..] + b;
      ChainSplit(a[0].next, a[1..], b, end);
    }
  }

  lemma {:induction false} ValuesAppend<T(0)>(nodes: seq<Node<T>>, n: Node<T>)
    ensures ValuesOf(nodes + [n]) == ValuesOf(nodes) + [n.value]
  {
    if nodes != [] {
      assert (nodes + [n])[1..] == nodes[1..] + [n];
      ValuesAppend(nodes[1..], n);
    }
  }

  lemma {:induction false} ValuesAt<T(0)>(nodes: seq<Node<T>>, i: nat)
    requires i < |nodes|
    ensures ValuesOf(nodes)[i] == nodes[i].value
  {
    if i > 0 {
      ValuesAt(nodes[1..], i - 1);
    }
  }

  lemma ValuesAre<T(0)>(nodes: seq<Node<T>>)
    ensures forall i :: 0 <= i < |nodes| ==> ValuesOf(nodes)[i] == nodes[i].value
  {
    forall i | 0 <= i < |nodes| ensures ValuesOf(nodes)[i] == nodes[i].value {
      ValuesAt(nodes, i);
    }
  }

  /** None of the next n creations fails. */
  ghost predicate AllFine(fault: nat -> Fault, from: nat, n: nat) {
    n == 0 || (AllFine(fault, from, n - 1) && fault(from + n - 1) == NoFault)
  }

  lemma {:induction false} AllFineIff(fault: nat -> Fault, from: nat, n: nat)
    ensures AllFine(fault, from, n) <==>
      forall i: nat {:trigger fault(i)} :: from <= i < from + n ==> fault(i) == NoFault
  {
    if n > 0 {
      AllFineIff(fault, from, n - 1);
    }
  }

  /** How many of n creations are begun: the first that fails is the last. */
  ghost function Attempts(fault: nat -> Fault, from: nat, n: nat): nat {
    if n == 0 then 0
    else if AllFine(fault, from, n - 1) then n
    else Attempts(fault, from, n - 1)
  }

  lemma {:induction false} AttemptsUntil(fault: nat -> Fault, from: nat, n: nat, k: nat)
    requires k <= n && AllFine(fault, from, k) && (k < n ==> fault(from + k) != NoFault)
    ensures AllFine(fault, from, n) <==> k == n
    ensures Attempts(fault, from, n) == if k == n then n else k + 1
  {
    if k < n {
      AllFineIff(fault, from, n - 1);
      AllFineIff(fault, from, n);
      if k < n - 1 {
        AttemptsUntil(fault, from, n - 1, k);
      }
    }
  }

  class List<T(0)> {
    var head: Node?<T>
    var size: nat
    var allocator: Arena<T>
    ghost var nodes: seq<Node<T>>

    /** The chain from head is `nodes`: distinct, of length size, every node alive in the allocator. */
    ghost predicate Valid()
      reads this, allocator, NodeSet(nodes)
    {
      && size == |nodes|
      && Chain(head, nodes, null)
      && Distinct(nodes)
      && NodeSet(nodes) <= allocator.live
    }

    ghost function Values(): (r: seq<T>)
      reads this, NodeSet(nodes)
      ensures |r| == |nodes|
    {
      ValuesOf(nodes)
    }

    constructor Empty(allocator: Arena<T>)
      ensures Valid() && nodes == [] && this.allocator == allocator
    {
      head, size, this.allocator, nodes := null, 0, allocator, [];
    }

    /** List(List&&) (154-157) */
    constructor Move(other: List<T>)
      requires other.Valid()
      modifies other
      ensures Valid() && nodes == old(other.nodes) && Values() == old(other.Values())
      ensures allocator == old(other.allocator)
      ensures other.Valid() && other.nodes == [] && other.allocator == old(other.allocator)
    {
      head, size, allocator, nodes := other.head, other.size, other.allocator, other.nodes;
      new;
      other.head, other.size, other.nodes := null, 0, [];
    }

    /** emplace_front (202-207) */
    method EmplaceFront(env: Environment<T>, value: T) returns (r: Outcome)
      requires Valid()
      modifies this, env, allocator, allocator.pool
      ensures Valid() && allocator == old(allocator) && env.creations == old(env.creations) + 1
      ensures r.Threw? <==> env.fault(old(env.creations)) != NoFault
      ensures r.Threw? ==>
        && nodes == old(nodes) && Values() == old(Values()) && head == old(head)
        && allocator.live == old(allocator.live)
      ensures r.Done? ==>
        && |nodes| == |old(nodes)| + 1 && nodes[1..] == old(nodes) && fresh(nodes[0])
        && Values() == [value] + old(Values())
        && allocator.live == old(allocator.live) + {nodes[0]}
      ensures allocator.pool != null ==>
        && allocator.pool.storage == old(allocator.pool.storage)
        && allocator.pool.cursor == allocator.AfterCreation(old(allocator.pool.cursor), env, old(env.creations))
        && (r.Done? ==> nodes[0].address == allocator.pool.cursor)
    {
      var node := CreateNode(env, allocator, head, value);
      if node == null {
        return Threw;
      }
      head := node;
      size := size + 1;
      nodes := [node] + nodes;
      return Done;
    }

    /** pop_front (217-226) */
    method PopFront() returns (r: Outcome)
      requires Valid()
      modifies this, allocator, NodeSet(nodes)
      ensures Valid() && allocator == old(allocator)
      ensures r.Threw? <==> old(nodes) == []
      ensures r.Threw? ==> nodes == old(nodes) && allocator.live == old(allocator.live)
      ensures r.Done? ==>
        && nodes == old(nodes)[1..] && Values() == old(Values())[1..]
        && allocator.live == old(allocator.live) - {old(nodes)[0]} && !old(nodes)[0].constructed
    {
      if head == null {
        return Threw;
      }
      var oldHead := head;
      head := head.next;
      size := size - 1;
      nodes := nodes[1..];
      DestroyNode(allocator, oldHead);
      return Done;
    }

    /** clear (228-235): every node destroyed once, by this list's allocator. */
    method Clear()
      requires Valid()
      modifies this, allocator, NodeSet(nodes)
      ensures Valid() && nodes == [] && allocator == old(allocator)
      ensures allocator.live == old(allocator.live) - NodeSet(old(nodes))
      ensures forall n :: n in old(nodes) ==> !n.constructed
    {
      ghost var all := nodes;
      ghost var destroyed: set<Node<T>> := {};
      while head != null
        invariant Chain(head, nodes, null) && Distinct(nodes) && NodeSet(nodes) <= allocator.live
        invariant allocator == old(allocator)
        invariant destroyed !! NodeSet(nodes) && destroyed + NodeSet(nodes) == NodeSet(all)
        invariant forall n :: n in destroyed ==> !n.constructed
        invariant allocator.live == old(allocator.live) - destroyed
        decreases |nodes|
      {
        var node := head;
        head := head.next;
        destroyed := destroyed + {node};
        nodes := nodes[1..];
        DestroyNode(allocator, node);
      }
      size := 0;
    }

    /** release_nodes (238-241): for arenas that are released as a whole. */
    method ReleaseNodes()
      requires Valid()
      modifies this
      ensures Valid() && nodes == [] && allocator == old(allocator)
    {
      head := null;
      size := 0;
      nodes := [];
    }

    /** 316-318: hang a finished node on the tail (null standing for the list's own head pointer). */
    method Append(tail: Node?<T>, node: Node<T>)
      requires Valid() && tail == (if nodes == [] then null else nodes[|nodes| - 1])
      requires node !in nodes && node.next == null && node.constructed && node in allocator.live
      modifies this, tail
      ensures Valid() && allocator == old(allocator) && nodes == old(nodes) + [node]
      ensures NodeSet(nodes) == NodeSet(old(nodes)) + {node}
      ensures Values() == old(Values()) + [node.value]
    {
      ValuesAppend(nodes, node);
      if tail == null {
        head := node;
      } else {
        ghost var front := nodes[..|nodes| - 1];
        assert nodes == front + [tail];
        ChainSplit(head, front, [tail], null);
        tail.next := node;
        assert Chain(tail, [tail, node], null);
        ChainSplit(head, front, [tail, node], null);
        assert nodes + [node] == front + [tail, node];
      }
      size := size + 1;
      nodes := nodes + [node];
    }

    /** This list is being filled, since the allocator had `before` and `first` creations had been made: all of its
        nodes have been created since, without an exception, and `tail` is the last of them, or null while the tail
        pointer still is the head pointer. */
    ghost predicate Filling(env: Environment<T>, before: set<Node<T>>, first: nat, tail: Node?<T>)
      reads this, allocator, NodeSet(nodes), env
    {
      && Valid() && allocator.live == before + NodeSet(nodes)
      && env.creations == first + |nodes| && AllFine(env.fault, first, |nodes|)
      && tail == (if nodes == [] then null else nodes[|nodes| - 1])
    }

    /** 315-318, 332-335: create a node at the end. */
    method CreateAtTail(env: Environment<T>, tail: Node?<T>, value: T, ghost before: set<Node<T>>, ghost first: nat)
        returns (copy: Node?<T>)
      requires Filling(env, before, first, tail)
      modifies this, env, allocator, allocator.pool, tail
      ensures allocator == old(allocator)
      ensures copy == null <==> env.fault(first + |old(nodes)|) != NoFault
      ensures copy == null ==> env.creations == first + |old(nodes)| + 1
      ensures copy == null ==>
        Valid() && nodes == old(nodes) && Values() == old(Values()) && allocator.live == old(allocator.live)
      ensures copy != null ==>
        fresh(copy) && nodes == old(nodes) + [copy] && NodeSet(nodes) == NodeSet(old(nodes)) + {copy}
      ensures copy != null ==> Filling(env, before, first, copy) && Values() == old(Values()) + [value]
    {
      copy := CreateNode(env, allocator, null, value);
      if copy != null {
        Append(tail, copy);
      }
    }

    /** 321-324: destroy exactly what has been built, which leaves the allocator as it was. */
    method Abandon(ghost before: set<Node<T>>)
      requires Valid() && allocator.live == before + NodeSet(nodes) && NodeSet(nodes) !! before
      modifies this, allocator, NodeSet(nodes)
      ensures Valid() && nodes == [] && allocator == old(allocator) && allocator.live == before
      ensures forall n :: n in old(nodes) ==> !n.constructed
    {
      Clear();
    }

    /** No node belongs to both lists. */
    ghost predicate Apart(other: List<T>)
      reads this, other
    {
      forall n :: n in nodes ==> n !in other.nodes
    }

    /** In the middle of copying the values `all`: this list holds those of the nodes of other before `source`. */
    ghost predicate Copied(other: List<T>, all: seq<T>, source: Node?<T>)
      reads this, allocator, NodeSet(nodes), other, other.allocator, (set n | n in other.nodes)
    {
      && other.Valid() && other != this && Apart(other)
      && |nodes| <= |all| == |other.nodes| && Values() == all[..|nodes|]
      && Chain(source, other.nodes[|nodes|..], null)
    }

    /** At the end of copying the values `all`, or where an exception has stopped it: a prefix has been copied, by that
        many creations and, after an exception, the one that threw. */
    ghost predicate Ended(env: Environment<T>, other: List<T>, all: seq<T>, before: set<Node<T>>, first: nat,
                          r: Outcome)
      reads this, allocator, NodeSet(nodes), other, other.allocator, (set n | n in other.nodes), env
    {
      && Valid() && other.Valid() && Apart(other) && allocator.live == before + NodeSet(nodes)
      && |nodes| <= |all| == |other.nodes| && Values() == all[..|nodes|]
      && AllFine(env.fault, first, |nodes|) && (r.Done? <==> |nodes| == |all|)
      && (r.Threw? ==> env.fault(first + |nodes|) != NoFault)
      && env.creations == first + |nodes| + if r.Threw? then 1 else 0
    }

    /** One iteration of copy_from or move_values_from (315-318, 332-335). */
    method CopyNext(env: Environment<T>, ghost other: List<T>, ghost all: seq<T>, source: Node<T>, value: T,
                    tail: Node?<T>,
                    ghost before: set<Node<T>>, ghost first: nat)
        returns (copy: Node?<T>)
      requires Filling(env, before, first, tail) && Copied(other, all, source) && |nodes| < |all|
      requires value == all[|nodes|]
      modifies this, env, allocator, allocator.pool, tail
      ensures allocator == old(allocator)
      ensures copy == null <==> env.fault(first + |old(nodes)|) != NoFault
      ensures copy == null ==> nodes == old(nodes) && Ended(env, other, all, before, first, Threw)
      ensures copy != null ==>
        fresh(copy) && nodes == old(nodes) + [copy] && NodeSet(nodes) == NodeSet(old(nodes)) + {copy}
      ensures copy != null ==> Filling(env, before, first, copy) && Copied(other, all, source.next)
    {
      assert source == other.nodes[|nodes|] && (tail == null || tail in nodes);
      assert all[..|nodes| + 1] == all[..|nodes|] + [value];
      copy := CreateAtTail(env, tail, value, before, first);
    }

    /** The loop of copy_from (312-320), up to its end or the first exception. */
    method CopyNodes(env: Environment<T>, other: List<T>) returns (r: Outcome)
      requires Valid() && nodes == [] && other.Valid() && other != this
      modifies this, env, allocator, allocator.pool
      ensures Ended(env, other, old(other.Values()), old(allocator.live), old(env.creations), r)
      ensures allocator == old(allocator) && fresh(NodeSet(nodes))
    {
      ghost var all := other.Values();
      ValuesAre(other.nodes);
      var tail: Node?<T> := null;
      var source := other.head;
      while source != null
        invariant Filling(env, old(allocator.live), old(env.creations), tail) && Copied(other, all, source)
        invariant forall i :: 0 <= i < |all| ==> other.nodes[i].value == all[i]
        invariant allocator == old(allocator) && (forall n :: n in nodes ==> fresh(n))
        invariant (tail != null ==> tail in nodes)
        decreases |other.nodes| - |nodes|
      {
        assert source == other.nodes[|nodes|];
        var copy := CopyNext(env, other, all, source, source.value, tail, old(allocator.live), old(env.creations));
        if copy == null {
          return Threw;
        }
        tail, source := copy, source.next;
      }
      return Done;
    }

    /** copy_from (310-325), on a list that is still empty. */
    method CopyFrom(env: Environment<T>, other: List<T>) returns (r: Outcome)
      requires Valid() && nodes == [] && other.Valid() && other != this
      modifies this, env, allocator, allocator.pool
      ensures Valid() && allocator == old(allocator) && other.Valid()
      ensures r.Threw? <==> !AllFine(env.fault, old(env.creations), |other.nodes|)
      ensures env.creations == old(env.creations) + Attempts(env.fault, old(env.creations), |other.nodes|)
      ensures r.Threw? ==> nodes == [] && allocator.live == old(allocator.live)
      ensures r.Done? ==> Values() == old(other.Values()) && allocator.live == old(allocator.live) + NodeSet(nodes)
      ensures fresh(NodeSet(nodes)) && Apart(other)
    {
      ghost var before := allocator.live;
      r := CopyNodes(env, other);
      AttemptsUntil(env.fault, old(env.creations), |other.nodes|, |nodes|);
      if r.Threw? {
        Abandon(before);
      }
    }

    /** swap_nodes (349-353): the allocators stay where they are. */
    method SwapNodes(other: List<T>)
      requires other != this
      modifies this, other
      ensures head == old(other.head) && size == old(other.size) && nodes == old(other.nodes)
      ensures allocator == old(allocator)
      ensures other.head == old(head) && other.size == old(size) && other.nodes == old(nodes)
      ensures other.allocator == old(other.allocator)
    {
      head, other.head := other.head, head;
      size, other.size := other.size, size;
      nodes, other.nodes := other.nodes, nodes;
    }

    /** 168-170: trade nodes with a finished copy, which takes the old nodes with it when it goes out of scope. */
    method Replace(copy: List<T>)
      requires Valid() && copy.Valid() && copy != this && copy.allocator == allocator && Apart(copy)
      modifies this, copy, allocator, NodeSet(nodes)
      ensures Valid() && allocator == old(allocator)
      ensures nodes == old(copy.nodes) && Values() == old(copy.Values())
      ensures allocator.live == old(allocator.live) - NodeSet(old(nodes))
    {
      SwapNodes(copy);
      copy.Clear();
    }

    /** 168: the copy, made with this list's allocator. */
    method CopyOf(env: Environment<T>, other: List<T>) returns (copy: List<T>, r: Outcome)
      requires Valid() && other.Valid() && this != other && Apart(other)
      modifies env, allocator, allocator.pool
      ensures fresh(copy) && copy.Valid() && copy.allocator == allocator && fresh(NodeSet(copy.nodes))
      ensures Valid() && other.Valid() && Apart(copy) && copy.Apart(other)
      ensures r.Threw? <==> !AllFine(env.fault, old(env.creations), |other.nodes|)
      ensures env.creations == old(env.creations) + Attempts(env.fault, old(env.creations), |other.nodes|)
      ensures r.Threw? ==> allocator.live == old(allocator.live)
      ensures r.Done? ==>
        copy.Values() == old(other.Values()) && allocator.live == old(allocator.live) + NodeSet(copy.nodes)
    {
      copy := new List<T>.Empty(allocator);
      r := copy.CopyFrom(env, other);
      assert forall n :: n in copy.nodes ==> n in NodeSet(copy.nodes);
    }

    /** operator=(const List&) (163-171): copy first, then swap; the source is not touched. */
    method AssignCopy(env: Environment<T>, other: List<T>) returns (r: Outcome)
      requires Valid() && other.Valid() && (this == other || Apart(other))
      modifies this, env, allocator, allocator.pool, NodeSet(nodes)
      ensures Valid() && allocator == old(allocator)
      ensures this == other ==>
        r.Done? && nodes == old(nodes) && Values() == old(Values()) && allocator.live == old(allocator.live)
      ensures this != other ==> (r.Threw? <==> !AllFine(env.fault, old(env.creations), |other.nodes|))
      ensures env.creations == old(env.creations) +
        if this == other then 0 else Attempts(env.fault, old(env.creations), |other.nodes|)
      ensures this != other ==> other.Valid() && other.Values() == old(other.Values()) && Apart(other)
      ensures r.Threw? ==>
        && head == old(head) && nodes == old(nodes) && Values() == old(Values())
        && allocator.live == old(allocator.live)
      ensures r.Done? && this != other ==>
        && Values() == old(other.Values())
        && fresh(NodeSet(nodes))
        && allocator.live == old(allocator.live) - NodeSet(old(nodes)) + NodeSet(nodes)
    {
      if this == other {
        return Done;
      }
      var copy;
      copy, r := CopyOf(env, other);
      if r.Threw? {
        return;
      }
      Replace(copy);
    }

    /** What the move constructor leaves in the element it was given.  The list being filled does not notice. */
    method LeaveMoved(env: Environment<T>, ghost other: List<T>, ghost all: seq<T>, source: Node<T>,
                      ghost copy: Node<T>, ghost before: set<Node<T>>, ghost first: nat)
      requires Filling(env, before, first, copy) && Copied(other, all, source.next) && nodes != []
      requires HalfWay(env, other, all, |nodes| - 1) && source == other.nodes[|nodes| - 1]
      modifies source`value
      ensures Filling(env, before, first, copy) && Copied(other, all, source.next) && HalfWay(env, other, all, |nodes|)
    {
      source.value := env.movedFrom(source.value);
    }

    /** What a creation that threw leaves: allocating comes before moving. */
    method LeaveBroken(env: Environment<T>, ghost other: List<T>, ghost all: seq<T>, source: Node<T>, fault: Fault,
                       ghost before: set<Node<T>>, ghost first: nat)
      requires Ended(env, other, all, before, first, Threw) && fault == env.fault(first + |nodes|)
      requires HalfWay(env, other, all, |nodes|) && source == other.nodes[|nodes|]
      modifies source`value
      ensures Ended(env, other, all, before, first, Threw) && StoppedAt(env, other, all, |nodes|, fault)
    {
      if fault == ConstructThrows {
        source.value := env.halfMoved(source.value);
      }
    }

    /** One iteration of move_values_from (332-335): the element is moved from as its copy is constructed. */
    method MoveNext(env: Environment<T>, ghost other: List<T>, ghost all: seq<T>, source: Node<T>, tail: Node?<T>,
                    ghost before: set<Node<T>>, ghost first: nat)
        returns (copy: Node?<T>)
      requires Filling(env, before, first, tail) && Copied(other, all, source) && HalfWay(env, other, all, |nodes|)
      modifies this, env, allocator, allocator.pool, tail, source
      ensures allocator == old(allocator)
      ensures copy == null ==> nodes == old(nodes) && Ended(env, other, all, before, first, Threw)
      ensures copy == null ==> StoppedAt(env, other, all, |nodes|, env.fault(first + |nodes|))
      ensures copy != null ==>
        fresh(copy) && nodes == old(nodes) + [copy] && NodeSet(nodes) == NodeSet(old(nodes)) + {copy}
      ensures copy != null ==>
        Filling(env, before, first, copy) && Copied(other, all, source.next) && HalfWay(env, other, all, |nodes|)
    {
      ghost var k := |nodes|;
      var fault, value := env.fault(env.creations), source.value;
      assert source == other.nodes[k] && (tail == null || tail in nodes);
      copy := CopyNext(env, other, all, source, value, tail, before, first);
      assert HalfWay(env, other, all, k);
      if copy != null {
        LeaveMoved(env, other, all, source, copy, before, first);
      } else {
        LeaveBroken(env, other, all, source, fault, before, first);
      }
    }

    /** The loop of move_values_from (329-336), up to its end or the first exception. */
    method MoveNodes(env: Environment<T>, other: List<T>) returns (r: Outcome)
      requires Valid() && nodes == [] && other.Valid() && other != this
      modifies this, env, allocator, allocator.pool, (set n | n in other.nodes)
      ensures Ended(env, other, old(other.Values()), old(allocator.live), old(env.creations), r)
      ensures allocator == old(allocator) && fresh(NodeSet(nodes))
      ensures MovedOut(env, other, old(other.Values()), |nodes|)
      ensures r.Threw? ==> StoppedAt(env, other, old(other.Values()), |nodes|, env.fault(old(env.creations) + |nodes|))
    {
      ghost var all := other.Values();
      ValuesAre(other.nodes);
      var tail: Node?<T> := null;
      var source := other.head;
      while source != null
        invariant Filling(env, old(allocator.live), old(env.creations), tail)
        invariant Copied(other, all, source) && HalfWay(env, other, all, |nodes|)
        invariant allocator == old(allocator) && (forall n :: n in nodes ==> fresh(n))
        invariant (tail != null ==> tail in nodes)
        decreases |other.nodes| - |nodes|
      {
        assert source == other.nodes[|nodes|];
        var copy := MoveNext(env, other, all, source, tail, old(allocator.live), old(env.creations));
        if copy == null {
          return Threw;
        }
        tail, source := copy, source.next;
      }
      return Done;
    }

    /** move_values_from (327-342), on a list that is still empty. */
    method MoveValuesFrom(env: Environment<T>, other: List<T>) returns (r: Outcome)
      requires Valid() && nodes == [] && other.Valid() && other != this
      modifies this, env, allocator, allocator.pool, (set n | n in other.nodes)
      ensures Valid() && allocator == old(allocator) && other.Valid() && Apart(other)
      ensures r.Threw? <==> !AllFine(env.fault, old(env.creations), |other.nodes|)
      ensures env.creations == old(env.creations) + Attempts(env.fault, old(env.creations), |other.nodes|)
      ensures r.Threw? ==> nodes == [] && allocator.live == old(allocator.live)
      ensures r.Threw? ==> ThrewHalfWay(env, other, old(other.Values()), old(env.creations))
      ensures r.Done? ==> Values() == old(other.Values()) && allocator.live == old(allocator.live) + NodeSet(nodes)
      ensures fresh(NodeSet(nodes))
    {
      ghost var before := allocator.live;
      r := MoveNodes(env, other);
      AttemptsUntil(env.fault, old(env.creations), |other.nodes|, |nodes|);
      if r.Threw? {
        Abandon(before);
      }
    }

    /** steal_nodes_from (344-347) */
    method StealNodesFrom(other: List<T>)
      requires other != this
      modifies this, other
      ensures head == old(other.head) && size == old(other.size) && nodes == old(other.nodes)
      ensures allocator == old(allocator)
      ensures other.head == null && other.size == 0 && other.nodes == [] && other.allocator == old(other.allocator)
    {
      head, size, nodes := other.head, other.size, other.nodes;
      other.head, other.size, other.nodes := null, 0, [];
    }

    /** 178-186: the allocator comes along, or is equal anyway. */
    method TakeNodes(other: List<T>)
      requires Valid() && other.Valid() && other != this && Apart(other)
      modifies this, other, allocator, NodeSet(nodes)
      ensures Valid() && allocator == old(other.allocator) && nodes == old(other.nodes)
      ensures Values() == old(other.Values())
      ensures other.Valid() && other.nodes == [] && other.allocator == old(other.allocator)
      ensures old(allocator).live == old(allocator.live) - NodeSet(old(nodes))
    {
      Clear();
      allocator := other.allocator;
      StealNodesFrom(other);
    }

    /** 190-192: the old nodes go, the finished ones come in, the emptied ones go. */
    method Finish(moved: List<T>, other: List<T>)
      requires Valid() && moved.Valid() && other.Valid() && moved != this && other != this && moved != other
      requires moved.allocator == allocator != other.allocator && Apart(moved) && Apart(other) && moved.Apart(other)
      modifies this, moved, other, allocator, other.allocator, NodeSet(nodes), (set n | n in other.nodes)
      ensures Valid() && allocator == old(allocator) && nodes == old(moved.nodes) && Values() == old(moved.Values())
      ensures other.Valid() && other.allocator == old(other.allocator) && other.nodes == []
      ensures allocator.live == old(allocator.live) - NodeSet(old(nodes))
      ensures other.allocator.live == old(other.allocator.live) - NodeSet(old(other.nodes))
    {
      Clear();
      SwapNodes(moved);
      other.Clear();
    }

    /** 188-189: the values of other, moved into new nodes of this list's allocator. */
    method MovedFrom(env: Environment<T>, other: List<T>) returns (moved: List<T>, r: Outcome)
      requires Valid() && other.Valid() && this != other && Apart(other) && allocator != other.allocator
      modifies env, allocator, allocator.pool, (set n | n in other.nodes)
      ensures fresh(moved) && moved.Valid() && moved.allocator == allocator && fresh(NodeSet(moved.nodes))
      ensures Valid() && Values() == old(Values()) && other.Valid() && Apart(moved) && moved.Apart(other)
      ensures r.Threw? <==> !AllFine(env.fault, old(env.creations), |other.nodes|)
      ensures env.creations == old(env.creations) + Attempts(env.fault, old(env.creations), |other.nodes|)
      ensures r.Threw? ==> allocator.live == old(allocator.live)
      ensures r.Threw? ==> ThrewHalfWay(env, other, old(other.Values()), old(env.creations))
      ensures r.Done? ==>
        moved.Values() == old(other.Values()) && allocator.live == old(allocator.live) + NodeSet(moved.nodes)
    {
      moved := new List<T>.Empty(allocator);
      r := moved.MoveValuesFrom(env, other);
      assert forall n :: n in moved.nodes ==> n in NodeSet(moved.nodes);
    }

    /** 188-192: unequal allocators, so the values move one by one into nodes of this list's own allocator. */
    method TakeValues(env: Environment<T>, other: List<T>) returns (r: Outcome)
      requires Valid() && other.Valid() && other != this && Apart(other) && allocator != other.allocator
      modifies this, other, env, allocator, allocator.pool, other.allocator, NodeSet(nodes), (set n | n in other.nodes)
      ensures Valid() && allocator == old(allocator) && other.Valid() && other.allocator == old(other.allocator)
      ensures r.Threw? <==> !AllFine(env.fault, old(env.creations), |old(other.nodes)|)
      ensures env.creations == old(env.creations) + Attempts(env.fault, old(env.creations), |old(other.nodes)|)
      ensures r.Threw? ==> nodes == old(nodes) && Values() == old(Values()) && other.nodes == old(other.nodes)
      ensures r.Threw? ==> allocator.live == old(allocator.live) && other.allocator.live == old(other.allocator.live)
      ensures r.Threw? ==> ThrewHalfWay(env, other, old(other.Values()), old(env.creations))
      ensures r.Done? ==> Values() == old(other.Values()) && fresh(NodeSet(nodes)) && other.nodes == []
      ensures r.Done? ==> allocator.live == old(allocator.live) - NodeSet(old(nodes)) + NodeSet(nodes)
      ensures r.Done? ==> other.allocator.live == old(other.allocator.live) - NodeSet(old(other.nodes))
    {
      var moved;
      moved, r := MovedFrom(env, other);
      if r.Threw? {
        return;
      }
      Finish(moved, other);
    }

    /** operator=(List&&) (173-196).  `propagates` is the allocator's propagate_on_container_move_assignment; allocators
        are equal when they are the same arena. */
    method AssignMove(env: Environment<T>, other: List<T>, propagates: bool) returns (r: Outcome)
      requires Valid() && other.Valid() && (this == other || Apart(other))
      modifies this, other, env, allocator, allocator.pool, other.allocator, NodeSet(nodes), (set n | n in other.nodes)
      ensures Valid() && other.Valid() && other.allocator == old(other.allocator)
      ensures this == other ==>
        r.Done? && nodes == old(nodes) && Values() == old(Values()) && allocator.live == old(allocator.live)
      ensures allocator == if propagates then old(other.allocator) else old(allocator)
      ensures r.Threw? <==>
        && this != other && !propagates && allocator != other.allocator
        && !AllFine(env.fault, old(env.creations), |old(other.nodes)|)
      ensures env.creations == old(env.creations) +
        if this == other || propagates || old(allocator) == other.allocator then 0
        else Attempts(env.fault, old(env.creations), |old(other.nodes)|)
      ensures r.Threw? ==> nodes == old(nodes) && Values() == old(Values()) && other.nodes == old(other.nodes)
      ensures r.Threw? ==> allocator.live == old(allocator.live) && other.allocator.live == old(other.allocator.live)
      ensures r.Threw? ==> ThrewHalfWay(env, other, old(other.Values()), old(env.creations))
      ensures r.Done? && this != other ==> Values() == old(other.Values()) && other.nodes == []
      ensures r.Done? && this != other && allocator == other.allocator ==>
        nodes == old(other.nodes) && old(allocator).live == old(allocator.live) - NodeSet(old(nodes))
      ensures r.Done? && this != other && old(allocator) != allocator ==> allocator.live == old(other.allocator.live)
      ensures r.Done? && this != other && allocator != other.allocator ==>
        && fresh(NodeSet(nodes))
        && allocator.live == old(allocator.live) - NodeSet(old(nodes)) + NodeSet(nodes)
        && other.allocator.live == old(other.allocator.live) - NodeSet(old(other.nodes))
    {
      if this == other {
        return Done;
      }
      if propagates || allocator == other.allocator {
        TakeNodes(other);
        return Done;
      }
      r := TakeValues(env, other);
    }
  }

  // ----- A source that has been moved from in part

  /** The first k elements of other have been moved from, and those after the next one are as they were. */
  ghost predicate MovedOut<T(0)>(env: Environment<T>, other: List<T>, all: seq<T>, k: nat)
    reads other, (set n | n in other.nodes)
  {
    && k <= |all| == |other.nodes|
    && (forall i :: 0 <= i < k ==> other.nodes[i].value == env.movedFrom(all[i]))
    && (forall i :: k < i < |all| ==> other.nodes[i].value == all[i])
  }

  /** What an exception at the element with index k leaves in other: allocating comes before moving. */
  ghost predicate StoppedAt<T(0)>(env: Environment<T>, other: List<T>, all: seq<T>, k: nat, fault: Fault)
    reads other, (set n | n in other.nodes)
  {
    && fault != NoFault && k < |all| && MovedOut(env, other, all, k)
    && other.nodes[k].value == if fault == ConstructThrows then env.halfMoved(all[k]) else all[k]
  }

  /** In the middle of move_values_from: the elements before the one with index k have been moved from. */
  ghost predicate HalfWay<T(0)>(env: Environment<T>, other: List<T>, all: seq<T>, k: nat)
    reads other, (set n | n in other.nodes)
  {
    MovedOut(env, other, all, k) && (k < |all| ==> other.nodes[k].value == all[k])
  }

  /** An exception in the middle of move_values_from, the creations of which began with number `first`. */
  ghost predicate ThrewHalfWay<T(0)>(env: Environment<T>, other: List<T>, all: seq<T>, first: nat)
    reads other, (set n | n in other.nodes)
  {
    exists k: nat :: k < |all| && AllFine(env.fault, first, k) && StoppedAt(env, other, all, k, env.fault(first + k))
  }
}
