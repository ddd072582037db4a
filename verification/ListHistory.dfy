/** Whole programs over any number of Lists and allocators, with creations that throw at any point: the lists hold
    what a model on plain sequences of values says, commands throw exactly when the model says so, no node leaks, and
    none is given back twice. */
module ListHistory {
  import opened NodeList
  import opened Sequences
  import opened SequentialPool

  datatype Command<T> =
    | New(a: nat)                                         // List(const Allocator&)
    | Push(i: nat, value: T)                              // emplace_front
    | Pop(i: nat)                                         // pop_front
    | Wipe(i: nat)                                        // clear
    | CopyAssign(i: nat, j: nat)                          // operator=(const List&)
    | MoveAssign(i: nat, j: nat, propagates: bool)        // operator=(List&&)
    | Drop(i: nat)                                        // ~List

  // ----- The model: sequences of values

  /** What the environment decides. */
  datatype Rules<!T> = Rules(fault: nat -> Fault, movedFrom: T -> T, halfMoved: T -> T)

  /** A variable: its values, and the allocator it uses. */
  datatype Slot<T(0)> = Slot(values: seq<T>, allocator: Arena<T>)

  datatype World<T(0)> = World(slots: seq<Slot<T>>, creations: nat)

  datatype Stepped<T(0)> = Stepped(world: World<T>, outcome: Outcome)

  /** The command names variables, and an allocator, that exist. */
  predicate Applicable<T>(vars: nat, arenas: nat, c: Command<T>) {
    match c
    case New(a) => a < arenas
    case CopyAssign(i, j) => i < vars && j < vars
    case MoveAssign(i, j, _) => i < vars && j < vars
    case _ => c.i < vars
  }

  /** What moving values one by one leaves of them, up to and including the one whose creation throws. */
  ghost function LeftBehind<T>(rules: Rules<T>, from: nat, values: seq<T>): (r: seq<T>)
    ensures |r| == |values|
    decreases |values|
  {
    if values == [] then []
    else if rules.fault(from) == NoFault then [rules.movedFrom(values[0])] + LeftBehind(rules, from + 1, values[1..])
    else [if rules.fault(from) == ConstructThrows then rules.halfMoved(values[0]) else values[0]] + values[1..]
  }

  ghost function ModelPush<T(0)>(rules: Rules<T>, w: World<T>, i: nat, value: T): Stepped<T>
    requires i < |w.slots|
  {
    if rules.fault(w.creations) != NoFault then Stepped(World(w.slots, w.creations + 1), Threw)
    else Stepped(World(w.slots[i := Slot([value] + w.slots[i].values, w.slots[i].allocator)], w.creations + 1), Done)
  }

  ghost function ModelCopy<T(0)>(rules: Rules<T>, w: World<T>, i: nat, j: nat): Stepped<T>
    requires i < |w.slots| && j < |w.slots|
  {
    if i == j then Stepped(w, Done)
    else
      var n := |w.slots[j].values|;
      var creations := w.creations + Attempts(rules.fault, w.creations, n);
      if !AllFine(rules.fault, w.creations, n) then Stepped(World(w.slots, creations), Threw)
      else Stepped(World(w.slots[i := Slot(w.slots[j].values, w.slots[i].allocator)], creations), Done)
  }

  ghost function ModelMove<T(0)>(rules: Rules<T>, w: World<T>, i: nat, j: nat, propagates: bool): Stepped<T>
    requires i < |w.slots| && j < |w.slots|
  {
    var target, source := w.slots[i], w.slots[j];
    if i == j then Stepped(w, Done)
    else if propagates || target.allocator == source.allocator then
      Stepped(World(w.slots[i := source][j := Slot([], source.allocator)], w.creations), Done)
    else
      var creations := w.creations + Attempts(rules.fault, w.creations, |source.values|);
      if AllFine(rules.fault, w.creations, |source.values|) then
        var slots := w.slots[i := Slot(source.values, target.allocator)][j := Slot([], source.allocator)];
        Stepped(World(slots, creations), Done)
      else
        var left := LeftBehind(rules, w.creations, source.values);
        Stepped(World(w.slots[j := Slot(left, source.allocator)], creations), Threw)
  }

  /** One command.  One that names a variable that does not exist does nothing. */
  ghost function ModelStep<T(0)>(rules: Rules<T>, arenas: seq<Arena<T>>, w: World<T>, c: Command<T>): Stepped<T> {
    if !Applicable(|w.slots|, |arenas|, c) then Stepped(w, Done)
    else
      match c
      case New(a) => Stepped(World(w.slots + [Slot([], arenas[a])], w.creations), Done)
      case Push(i, value) => ModelPush(rules, w, i, value)
      case Pop(i) =>
        var slot := w.slots[i];
        if slot.values == [] then Stepped(w, Threw)
        else Stepped(World(w.slots[i := Slot(slot.values[1..], slot.allocator)], w.creations), Done)
      case Wipe(i) => Stepped(World(w.slots[i := Slot([], w.slots[i].allocator)], w.creations), Done)
      case CopyAssign(i, j) => ModelCopy(rules, w, i, j)
      case MoveAssign(i, j, propagates) => ModelMove(rules, w, i, j, propagates)
      case Drop(i) => Stepped(World(w.slots[..i] + w.slots[i + 1..], w.creations), Done)
  }

  ghost function ModelRun<T(0)>(rules: Rules<T>, arenas: seq<Arena<T>>, first: nat, cs: seq<Command<T>>): World<T> {
    if cs == [] then World([], first)
    else ModelStep(rules, arenas, ModelRun(rules, arenas, first, cs[..|cs| - 1]), cs[|cs| - 1]).world
  }

  /** Which commands throw. */
  ghost function ModelOutcomes<T(0)>(rules: Rules<T>, arenas: seq<Arena<T>>, first: nat, cs: seq<Command<T>>)
      : (rs: seq<Outcome>)
    ensures |rs| == |cs|
  {
    if cs == [] then []
    else
      var front := cs[..|cs| - 1];
      ModelOutcomes(rules, arenas, first, front) +
      [ModelStep(rules, arenas, ModelRun(rules, arenas, first, front), cs[|cs| - 1]).outcome]
  }

  /** Where nothing fails only taking from an empty list throws. */
  lemma {:induction false} FaultFree<T(0)>(rules: Rules<T>, arenas: seq<Arena<T>>, first: nat, cs: seq<Command<T>>,
                                           k: nat)
    requires k < |cs| && forall i: nat {:trigger rules.fault(i)} :: rules.fault(i) == NoFault
    ensures ModelOutcomes(rules, arenas, first, cs)[k] == Threw ==>
      cs[k].Pop? && cs[k].i < |ModelRun(rules, arenas, first, cs[..k]).slots|
      && ModelRun(rules, arenas, first, cs[..k]).slots[cs[k].i].values == []
  {
    var front := cs[..|cs| - 1];
    if k < |front| {
      FaultFree(rules, arenas, first, front, k);
      assert front[..k] == cs[..k];
    } else {
      var w := ModelRun(rules, arenas, first, front);
      assert rules.fault(w.creations) == NoFault;
      if cs[k].CopyAssign? && cs[k].j < |w.slots| { AllFineIff(rules.fault, w.creations, |w.slots[cs[k].j].values|); }
      if cs[k].MoveAssign? && cs[k].j < |w.slots| { AllFineIff(rules.fault, w.creations, |w.slots[cs[k].j].values|); }
    }
  }

  // ----- The balance between lists and allocators

  /** The nodes that those of the lists hold that use allocator a. */
  ghost function Owned<T(0)>(lists: set<List<T>>, a: Arena<T>): set<Node<T>>
    reads lists
  {
    set l, n | l in lists && l.allocator == a && n in l.nodes :: n
  }

  ghost function NodesOf<T(0)>(lists: set<List<T>>): set<Node<T>>
    reads lists
  {
    set l, n | l in lists && n in l.nodes :: n
  }

  /** The pools behind the allocators. */
  ghost function Pools<T(0)>(arenas: set<Arena<T>>): set<DownwardPool?> {
    set a | a in arenas :: a.pool
  }

  ghost predicate Separate<T(0)>(lists: set<List<T>>, others: set<List<T>>)
    reads lists, others
  {
    forall l, m :: l in lists && m in others && l != m ==> l.Apart(m)
  }

  /** What is out of each allocator is exactly what the lists that use it hold; no two lists share a node. */
  ghost predicate Balanced<T(0)>(lists: set<List<T>>, arenas: set<Arena<T>>)
    reads lists, arenas, NodesOf(lists)
  {
    && (forall l :: l in lists ==> l.allocator in arenas && l.Valid())
    && Separate(lists, lists)
    && forall a :: a in arenas ==> a.live == Owned(lists, a)
  }

  twostate predicate Untouched<T(0)>(l: List<T>)
    reads l, NodeSet(l.nodes)
  {
    unchanged(l) && forall n :: n in l.nodes ==> old(allocated(n)) && unchanged(n)
  }

  twostate lemma SameValues<T(0)>(new l: List<T>)
    requires old(allocated(l)) && Untouched(l)
    ensures l.Values() == old(l.Values())
  {
  }

  twostate lemma StillValid<T(0)>(new l: List<T>)
    requires old(allocated(l)) && old(l.Valid()) && Untouched(l) && NodeSet(l.nodes) <= l.allocator.live
    ensures l.Valid()
  {
  }

  lemma OwnedSplit<T(0)>(lists: set<List<T>>, changed: set<List<T>>, a: Arena<T>)
    requires changed <= lists
    ensures Owned(lists, a) == Owned(changed, a) + Owned(lists - changed, a)
  {
  }

  /** What one list holds of allocator a. */
  ghost function Share<T(0)>(l: List<T>, a: Arena<T>): set<Node<T>>
    reads l
  {
    if l.allocator == a then NodeSet(l.nodes) else {}
  }

  lemma OwnedShares<T(0)>(l: List<T>, m: List<T>, a: Arena<T>)
    ensures Owned({l, m}, a) == Share(l, a) + Share(m, a)
  {
  }

  twostate lemma OldShares<T(0)>(new l: List<T>, new m: List<T>, new a: Arena<T>)
    requires old(allocated(l)) && old(allocated(m)) && old(allocated(a))
    ensures old(Owned({l, m}, a)) == old(Share(l, a)) + old(Share(m, a))
  {
  }

  twostate lemma OldSplit<T(0)>(new lists: set<List<T>>, new changed: set<List<T>>, new a: Arena<T>)
    requires old(allocated(lists)) && old(allocated(changed)) && old(allocated(a))
    requires old(Separate(lists, lists)) && changed <= lists
    ensures old(Owned(lists, a)) == old(Owned(changed, a)) + old(Owned(lists - changed, a))
    ensures old(Owned(changed, a)) !! old(Owned(lists - changed, a))
  {
  }

  twostate lemma StillSeparate<T(0)>(new lists: set<List<T>>, new changed: set<List<T>>)
    requires old(allocated(lists)) && old(allocated(changed)) && old(Separate(lists, lists)) && changed <= lists
    requires (forall l :: l in lists - changed ==> Untouched(l)) && Separate(changed, lists)
    ensures Separate(lists, lists)
  {
    forall l, m | l in lists && m in lists && l != m ensures l.Apart(m) {
      if l in changed {
      } else if m in changed {
        assert m.Apart(l);
      } else {
        assert old(l.Apart(m)) && Untouched(l) && Untouched(m);
      }
    }
  }

  twostate lemma StillAccounted<T(0)>(new lists: set<List<T>>, new changed: set<List<T>>, new a: Arena<T>)
    requires old(allocated(lists)) && old(allocated(a)) && old(allocated(changed))
    requires old(Separate(lists, lists)) && changed <= lists && old(a.live) == old(Owned(lists, a))
    requires forall l :: l in lists - changed ==> Untouched(l)
    requires a.live == old(a.live) - old(Owned(changed, a)) + Owned(changed, a)
    ensures a.live == Owned(lists, a) && Owned(lists - changed, a) <= a.live
  {
    OwnedSplit(lists, changed, a);
    OldSplit(lists, changed, a);
    assert forall l :: l in lists - changed ==> Untouched(l);
    assert Owned(lists - changed, a) == old(Owned(lists - changed, a));
  }

  /** An operation that only touches the lists in `changed` keeps the balance if it does so for those. */
  twostate lemma Rebalanced<T(0)>(new lists: set<List<T>>, new arenas: set<Arena<T>>, new changed: set<List<T>>)
    requires old(allocated(lists)) && old(allocated(arenas)) && old(allocated(changed))
    requires old(Balanced(lists, arenas)) && changed <= lists
    requires forall l :: l in lists - changed ==> Untouched(l)
    requires forall l :: l in changed ==> l.Valid() && l.allocator in arenas
    requires Separate(changed, lists)
    requires forall a :: a in arenas ==> a.live == old(a.live) - old(Owned(changed, a)) + Owned(changed, a)
    ensures Balanced(lists, arenas)
  {
    StillSeparate(lists, changed);
    forall a | a in arenas ensures a.live == Owned(lists, a) && Owned(lists - changed, a) <= a.live {
      StillAccounted(lists, changed, a);
    }
    forall l | l in lists - changed ensures l.allocator in arenas && l.Valid() {
      assert old(l.Valid()) && old(l.allocator) in arenas && Untouched(l);
      assert forall n :: n in l.nodes ==> n in Owned(lists - changed, l.allocator);
      StillValid(l);
    }
  }

  /** The same for an operation on two lists, or twice the same one. */
  twostate lemma RebalancedTwo<T(0)>(new lists: set<List<T>>, new arenas: set<Arena<T>>, new l: List<T>, new m: List<T>)
    requires old(allocated(lists)) && old(allocated(arenas)) && old(allocated(l)) && old(allocated(m))
    requires old(Balanced(lists, arenas)) && l in lists && m in lists && (l == m || l.Apart(m))
    requires l.Valid() && m.Valid() && l.allocator in arenas && m.allocator in arenas
    requires forall x :: x in lists && x != m && x != l ==> Untouched(x) && l.Apart(x) && m.Apart(x)
    requires forall a :: a in arenas ==>
      a.live == old(a.live) - (old(Share(l, a)) + old(Share(m, a))) + (Share(l, a) + Share(m, a))
    ensures Balanced(lists, arenas)
  {
    forall a | a in arenas ensures a.live == old(a.live) - old(Owned({l, m}, a)) + Owned({l, m}, a) {
      OwnedShares(l, m, a);
      OldShares(l, m, a);
    }
    assert Separate({l, m}, lists) by {
      assert l != m ==> m.Apart(l);
    }
    Rebalanced(lists, arenas, {l, m});
  }

  /** And for one on one list that keeps its allocator. */
  twostate lemma RebalancedOne<T(0)>(new lists: set<List<T>>, new arenas: set<Arena<T>>, new l: List<T>)
    requires old(allocated(lists)) && old(allocated(arenas)) && old(allocated(l))
    requires old(Balanced(lists, arenas)) && l in lists && l.Valid() && l.allocator == old(l.allocator)
    requires forall x :: x in lists && x != l ==> Untouched(x) && l.Apart(x)
    requires forall a :: a in arenas && a != l.allocator ==> a.live == old(a.live)
    requires l.allocator.live == old(l.allocator.live) - NodeSet(old(l.nodes)) + NodeSet(l.nodes)
    ensures Balanced(lists, arenas)
  {
    RebalancedTwo(lists, arenas, l, l);
  }

  twostate lemma StaysApart<T(0)>(new x: List<T>, new nodes: seq<Node<T>>, new l: List<T>, new m: List<T>)
    requires old(allocated(x)) && old(allocated(l)) && old(allocated(m)) && Untouched(x)
    requires old(l.Apart(x)) && old(m.Apart(x))
    requires forall n :: n in nodes ==> !old(allocated(n)) || n in old(l.nodes) || n in old(m.nodes)
    ensures forall n :: n in nodes ==> n !in x.nodes
  {
  }

  twostate lemma NoStrangers<T(0)>(new lists: set<List<T>>, new l: List<T>, new m: List<T>)
    requires old(allocated(lists)) && l in lists && m in lists && old(allocated(l)) && old(allocated(m))
    requires forall x :: x in lists && x != m && x != l ==> Untouched(x)
    requires forall n :: n in l.nodes ==> !old(allocated(n)) || n in old(l.nodes) || n in old(m.nodes)
    requires forall n :: n in m.nodes ==> !old(allocated(n)) || n in old(l.nodes) || n in old(m.nodes)
    ensures forall n :: n in NodesOf(lists) ==> !old(allocated(n)) || n in old(NodesOf(lists))
  {
    forall n | n in NodesOf(lists) && old(allocated(n)) ensures n in old(NodesOf(lists)) {
      var x :| x in lists && n in x.nodes;
      assert x == l || x == m || n in old(x.nodes);
    }
  }

  /** Both together, for lists whose nodes are new or were one of the two lists' before. */
  twostate lemma AfterExchange<T(0)>(new lists: set<List<T>>, new arenas: set<Arena<T>>, new l: List<T>, new m: List<T>)
    requires old(allocated(lists)) && old(allocated(arenas)) && old(allocated(l)) && old(allocated(m))
    requires old(Balanced(lists, arenas)) && l in lists && m in lists && (l == m || l.Apart(m))
    requires l.Valid() && m.Valid() && l.allocator in arenas && m.allocator in arenas
    requires forall x :: x in lists && x != m && x != l ==> Untouched(x)
    requires forall n :: n in l.nodes ==> !old(allocated(n)) || n in old(l.nodes) || n in old(m.nodes)
    requires forall n :: n in m.nodes ==> n in old(l.nodes) || n in old(m.nodes)
    requires forall a :: a in arenas ==>
      a.live == old(a.live) - (old(Share(l, a)) + old(Share(m, a))) + (Share(l, a) + Share(m, a))
    ensures Balanced(lists, arenas)
    ensures forall n :: n in NodesOf(lists) ==> !old(allocated(n)) || n in old(NodesOf(lists))
  {
    forall x | x in lists && x != m && x != l ensures Untouched(x) && l.Apart(x) && m.Apart(x) {
      assert old(l.Apart(x)) && old(m.Apart(x));
      StaysApart(x, l.nodes, l, m);
      StaysApart(x, m.nodes, l, m);
    }
    NoStrangers(lists, l, m);
    RebalancedTwo(lists, arenas, l, m);
  }

  // ----- The operations

  /** Of the given lists at most l and m have changed. */
  twostate predicate Only<T(0)>(lists: set<List<T>>, l: List<T>, m: List<T>)
    reads lists, NodesOf(lists)
  {
    forall x :: x in lists && x != l && x != m ==> Untouched(x)
  }

  method Push<T(0)>(env: Environment<T>, ghost lists: set<List<T>>, ghost arenas: set<Arena<T>>, l: List<T>, value: T)
      returns (r: Outcome)
    requires Balanced(lists, arenas) && l in lists
    modifies env, lists, arenas, Pools(arenas), NodesOf(lists)
    ensures Balanced(lists, arenas) && fresh(NodesOf(lists) - old(NodesOf(lists))) && Only(lists, l, l)
    ensures env.creations == old(env.creations) + 1 && (r.Threw? <==> env.fault(old(env.creations)) != NoFault)
    ensures l.allocator == old(l.allocator)
    ensures l.Values() == if r.Done? then [value] + old(l.Values()) else old(l.Values())
  {
    r := l.EmplaceFront(env, value);
    assert forall n :: n in l.nodes ==> fresh(n) || n in old(l.nodes);
    RebalancedOne(lists, arenas, l);
  }

  lemma WithoutFirst<T(0)>(nodes: seq<Node<T>>)
    requires nodes != [] && Distinct(nodes)
    ensures NodeSet(nodes[1..]) == NodeSet(nodes) - {nodes[0]}
  {
    forall n | n in nodes && n != nodes[0] ensures n in nodes[1..] {
      var k :| 0 <= k < |nodes| && nodes[k] == n;
      assert nodes[1..][k - 1] == n;
    }
  }

  method Pop<T(0)>(ghost lists: set<List<T>>, ghost arenas: set<Arena<T>>, l: List<T>) returns (r: Outcome)
    requires Balanced(lists, arenas) && l in lists
    modifies lists, arenas, NodesOf(lists)
    ensures Balanced(lists, arenas) && NodesOf(lists) <= old(NodesOf(lists)) && Only(lists, l, l)
    ensures (r.Threw? <==> old(l.Values()) == []) && l.allocator == old(l.allocator)
    ensures l.Values() == if r.Done? then old(l.Values())[1..] else []
  {
    ghost var nodes := l.nodes;
    if nodes != [] { WithoutFirst(nodes); }
    r := l.PopFront();
    assert forall n :: n in l.nodes ==> n in nodes;
    RebalancedOne(lists, arenas, l);
  }

  method Wipe<T(0)>(ghost lists: set<List<T>>, ghost arenas: set<Arena<T>>, l: List<T>)
    requires Balanced(lists, arenas) && l in lists
    modifies lists, arenas, NodesOf(lists)
    ensures Balanced(lists, arenas) && NodesOf(lists) <= old(NodesOf(lists)) && Only(lists, l, l)
    ensures l.nodes == [] && l.allocator == old(l.allocator)
  {
    l.Clear();
    RebalancedOne(lists, arenas, l);
  }

  /** An operation on one list that keeps its allocator and may have given it new nodes. */
  twostate lemma AfterChange<T(0)>(new lists: set<List<T>>, new arenas: set<Arena<T>>, new l: List<T>)
    requires old(allocated(lists)) && old(allocated(arenas)) && old(allocated(l))
    requires old(Balanced(lists, arenas)) && l in lists && l.Valid() && l.allocator == old(l.allocator)
    requires forall x :: x in lists && x != l ==> Untouched(x)
    requires forall n :: n in l.nodes ==> !old(allocated(n)) || n in old(l.nodes)
    requires forall a :: a in arenas && a != l.allocator ==> a.live == old(a.live)
    requires l.allocator.live == old(l.allocator.live) - NodeSet(old(l.nodes)) + NodeSet(l.nodes)
    ensures Balanced(lists, arenas)
    ensures forall n :: n in NodesOf(lists) ==> !old(allocated(n)) || n in old(NodesOf(lists))
  {
    forall x | x in lists && x != l ensures Untouched(x) && l.Apart(x) {
      assert old(l.Apart(x));
      StaysApart(x, l.nodes, l, l);
    }
    NoStrangers(lists, l, l);
    RebalancedOne(lists, arenas, l);
  }

  method CopyAssign<T(0)>(env: Environment<T>, ghost lists: set<List<T>>, ghost arenas: set<Arena<T>>, l: List<T>,
                          m: List<T>)
      returns (r: Outcome)
    requires Balanced(lists, arenas) && l in lists && m in lists && l != m
    modifies env, lists, arenas, Pools(arenas), NodesOf(lists)
    ensures Balanced(lists, arenas) && fresh(NodesOf(lists) - old(NodesOf(lists))) && Only(lists, l, l)
    ensures r.Threw? <==> !AllFine(env.fault, old(env.creations), |old(m.Values())|)
    ensures env.creations == old(env.creations) + Attempts(env.fault, old(env.creations), |old(m.Values())|)
    ensures l.allocator == old(l.allocator) && l.Values() == if r.Done? then old(m.Values()) else old(l.Values())
  {
    ghost var held := NodesOf(lists - {l});
    assert held !! NodeSet(l.nodes) && l.Apart(m) by {
      assert forall x :: x in lists - {l} ==> l.Apart(x);
    }
    r := l.AssignCopy(env, m);
    assert forall n :: n in l.nodes ==> n in NodeSet(l.nodes);
    assert forall n :: n in l.nodes ==> fresh(n) || n in old(l.nodes);
    assert forall n :: n in held ==> old(allocated(n)) && unchanged(n);
    assert forall x :: x in lists - {l} ==> unchanged(x);
    forall x | x in lists && x != l ensures Untouched(x) {
      assert forall n :: n in x.nodes ==> n in held;
    }
    AfterChange(lists, arenas, l);
  }

  method CopyToItself<T(0)>(env: Environment<T>, ghost lists: set<List<T>>, ghost arenas: set<Arena<T>>, l: List<T>)
      returns (r: Outcome)
    requires Balanced(lists, arenas) && l in lists
    modifies env, lists, arenas, Pools(arenas), NodesOf(lists)
    ensures Balanced(lists, arenas) && NodesOf(lists) <= old(NodesOf(lists)) && Only(lists, l, l)
    ensures r.Done? && env.creations == old(env.creations)
    ensures l.allocator == old(l.allocator) && l.Values() == old(l.Values())
  {
    r := l.AssignCopy(env, l);
    RebalancedOne(lists, arenas, l);
  }

  ghost function RulesOf<T>(env: Environment<T>): Rules<T> {
    Rules(env.fault, env.movedFrom, env.halfMoved)
  }

  lemma {:induction false} LeftBehindAt<T>(rules: Rules<T>, from: nat, values: seq<T>, k: nat)
    requires k < |values| && AllFine(rules.fault, from, k) && rules.fault(from + k) != NoFault
    ensures var r := LeftBehind(rules, from, values);
            && (forall i :: 0 <= i < k ==> r[i] == rules.movedFrom(values[i]))
            && r[k] == (if rules.fault(from + k) == ConstructThrows then rules.halfMoved(values[k]) else values[k])
            && (forall i :: k < i < |values| ==> r[i] == values[i])
    decreases k
  {
    if k > 0 {
      AllFineIff(rules.fault, from, k);
      AllFineIff(rules.fault, from + 1, k - 1);
      assert rules.fault(from) == NoFault;
      LeftBehindAt(rules, from + 1, values[1..], k - 1);
    }
  }

  lemma HalfWayMeans<T(0)>(env: Environment<T>, m: List<T>, all: seq<T>, first: nat)
    requires ThrewHalfWay(env, m, all, first)
    ensures m.Values() == LeftBehind(RulesOf(env), first, all)
  {
    var k: nat :| k < |all| && AllFine(env.fault, first, k) && StoppedAt(env, m, all, k, env.fault(first + k));
    ValuesAre(m.nodes);
    LeftBehindAt(RulesOf(env), first, all, k);
  }

  /** What the three branches of the assignment, and an exception, do to one allocator. */
  twostate lemma SharesAfterMove<T(0)>(new l: List<T>, new m: List<T>, new a: Arena<T>, r: Outcome)
    requires old(allocated(l)) && old(allocated(m)) && old(allocated(a)) && old(l.Valid()) && old(m.Valid())
    requires old(l.Apart(m))
    requires m.allocator == old(m.allocator) && (a != old(l.allocator) && a != m.allocator ==> a.live == old(a.live))
    requires r.Threw? ==> l.nodes == old(l.nodes) && l.allocator == old(l.allocator) && m.nodes == old(m.nodes)
    requires r.Threw? ==> l.allocator.live == old(l.allocator.live) && m.allocator.live == old(m.allocator.live)
    requires r.Done? ==> m.nodes == []
    requires r.Done? && l.allocator == m.allocator ==>
      && l.nodes == old(m.nodes) && old(l.allocator).live == old(l.allocator.live) - NodeSet(old(l.nodes))
      && (old(l.allocator) != l.allocator ==> l.allocator.live == old(m.allocator.live))
    requires r.Done? && l.allocator != m.allocator ==>
      && l.allocator == old(l.allocator)
      && l.allocator.live == old(l.allocator.live) - NodeSet(old(l.nodes)) + NodeSet(l.nodes)
      && m.allocator.live == old(m.allocator.live) - NodeSet(old(m.nodes))
    ensures a.live == old(a.live) - (old(Share(l, a)) + old(Share(m, a))) + (Share(l, a) + Share(m, a))
  {
    assert forall n :: n in old(m.nodes) ==> n in old(m.allocator.live) && n !in old(l.nodes);
  }

  twostate lemma AfterMove<T(0)>(new lists: set<List<T>>, new arenas: set<Arena<T>>, new l: List<T>, new m: List<T>,
                                 r: Outcome)
    requires old(allocated(lists)) && old(allocated(arenas)) && old(allocated(l)) && old(allocated(m))
    requires old(Balanced(lists, arenas)) && l in lists && m in lists && l != m && l.Valid() && m.Valid() && l.Apart(m)
    requires forall x :: x in lists && x != m && x != l ==> Untouched(x)
    requires forall n :: n in l.nodes ==> !old(allocated(n)) || n in old(l.nodes) || n in old(m.nodes)
    requires m.nodes == [] || m.nodes == old(m.nodes)
    requires m.allocator == old(m.allocator) && (l.allocator == m.allocator || l.allocator == old(l.allocator))
    requires forall a :: a in arenas && a != old(l.allocator) && a != m.allocator ==> a.live == old(a.live)
    requires r.Threw? ==> l.nodes == old(l.nodes) && l.allocator == old(l.allocator) && m.nodes == old(m.nodes)
    requires r.Threw? ==> l.allocator.live == old(l.allocator.live) && m.allocator.live == old(m.allocator.live)
    requires r.Done? ==> m.nodes == []
    requires r.Done? && l.allocator == m.allocator ==>
      && l.nodes == old(m.nodes) && old(l.allocator).live == old(l.allocator.live) - NodeSet(old(l.nodes))
      && (old(l.allocator) != l.allocator ==> l.allocator.live == old(m.allocator.live))
    requires r.Done? && l.allocator != m.allocator ==>
      && l.allocator == old(l.allocator)
      && l.allocator.live == old(l.allocator.live) - NodeSet(old(l.nodes)) + NodeSet(l.nodes)
      && m.allocator.live == old(m.allocator.live) - NodeSet(old(m.nodes))
    ensures Balanced(lists, arenas)
    ensures forall n :: n in NodesOf(lists) ==> !old(allocated(n)) || n in old(NodesOf(lists))
  {
    assert old(l.Valid()) && old(m.Valid()) && old(l.Apart(m));
    forall a | a in arenas
      ensures a.live == old(a.live) - (old(Share(l, a)) + old(Share(m, a))) + (Share(l, a) + Share(m, a))
    {
      SharesAfterMove(l, m, a, r);
    }
    AfterExchange(lists, arenas, l, m);
  }

  method MoveAssign<T(0)>(env: Environment<T>, ghost lists: set<List<T>>, ghost arenas: set<Arena<T>>, l: List<T>,
                          m: List<T>, propagates: bool)
      returns (r: Outcome)
    requires Balanced(lists, arenas) && l in lists && m in lists && l != m
    modifies env, lists, arenas, Pools(arenas), NodesOf(lists)
    ensures Balanced(lists, arenas) && fresh(NodesOf(lists) - old(NodesOf(lists))) && Only(lists, l, m)
    ensures m.allocator == old(m.allocator) && l.allocator == if propagates then m.allocator else old(l.allocator)
    ensures r.Threw? <==>
      !propagates && old(l.allocator) != m.allocator && !AllFine(env.fault, old(env.creations), |old(m.Values())|)
    ensures env.creations == old(env.creations) +
      if propagates || old(l.allocator) == m.allocator then 0
      else Attempts(env.fault, old(env.creations), |old(m.Values())|)
    ensures r.Done? ==> l.Values() == old(m.Values()) && m.Values() == []
    ensures r.Threw? ==>
      l.Values() == old(l.Values()) && m.Values() == LeftBehind(RulesOf(env), old(env.creations), old(m.Values()))
  {
    ghost var others, held := lists - {l, m}, NodesOf(lists - {l, m});
    assert l.Apart(m) && held !! NodeSet(l.nodes) && held !! NodeSet(m.nodes) by {
      assert forall x :: x in others ==> l.Apart(x) && m.Apart(x);
    }
    r := l.AssignMove(env, m, propagates);
    assert forall n :: n in l.nodes ==> n in NodeSet(l.nodes);
    assert forall n :: n in l.nodes ==> fresh(n) || n in old(l.nodes) || n in old(m.nodes);
    assert forall n :: n in held ==> old(allocated(n)) && unchanged(n);
    assert forall x :: x in others ==> unchanged(x);
    forall x | x in others ensures Untouched(x) {
      assert forall n :: n in x.nodes ==> n in held;
    }
    assert l.Apart(m);
    AfterMove(lists, arenas, l, m, r);
    if r.Threw? {
      HalfWayMeans(env, m, old(m.Values()), old(env.creations));
    }
  }

  method MoveToItself<T(0)>(env: Environment<T>, ghost lists: set<List<T>>, ghost arenas: set<Arena<T>>, l: List<T>,
                            propagates: bool)
      returns (r: Outcome)
    requires Balanced(lists, arenas) && l in lists
    modifies env, lists, arenas, Pools(arenas), NodesOf(lists)
    ensures Balanced(lists, arenas) && NodesOf(lists) <= old(NodesOf(lists)) && Only(lists, l, l)
    ensures r.Done? && env.creations == old(env.creations)
    ensures l.allocator == old(l.allocator) && l.Values() == old(l.Values())
  {
    r := l.AssignMove(env, l, propagates);
    RebalancedOne(lists, arenas, l);
  }

  lemma EmptyAdded<T(0)>(lists: set<List<T>>, arenas: set<Arena<T>>, l: List<T>)
    requires Balanced(lists, arenas) && l !in lists && l.Valid() && l.nodes == [] && l.allocator in arenas
    ensures Balanced(lists + {l}, arenas)
  {
    forall a | a in arenas ensures Owned(lists + {l}, a) == Owned(lists, a) {
    }
  }

  lemma EmptyRemoved<T(0)>(lists: set<List<T>>, arenas: set<Arena<T>>, l: List<T>)
    requires Balanced(lists, arenas) && l.nodes == []
    ensures Balanced(lists - {l}, arenas)
  {
    forall a | a in arenas ensures Owned(lists - {l}, a) == Owned(lists, a) {
    }
  }

  // ----- Programs

  ghost function SlotOf<T(0)>(l: List<T>): Slot<T>
    reads l, NodeSet(l.nodes)
  {
    Slot(l.Values(), l.allocator)
  }

  ghost function Slots<T(0)>(vars: seq<List<T>>): (r: seq<Slot<T>>)
    reads SetOf(vars), NodesOf(SetOf(vars))
    ensures |r| == |vars|
  {
    seq(|vars|, i requires 0 <= i < |vars| reads SetOf(vars), NodesOf(SetOf(vars)) => SlotOf(vars[i]))
  }

  /** The variables of a program as the model sees them. */
  ghost function WorldOf<T(0)>(env: Environment<T>, vars: seq<List<T>>): World<T>
    reads env, SetOf(vars), NodesOf(SetOf(vars))
  {
    World(Slots(vars), env.creations)
  }

  twostate lemma SlotsUpdated<T(0)>(new vars: seq<List<T>>, new i: nat, new j: nat)
    requires old(allocated(vars)) && Distinct(vars) && i < |vars| && j < |vars|
    requires Only(SetOf(vars), vars[i], vars[j])
    ensures Slots(vars) == old(Slots(vars))[i := SlotOf(vars[i])][j := SlotOf(vars[j])]
  {
    forall k | 0 <= k < |vars| && k != i && k != j ensures SlotOf(vars[k]) == old(SlotOf(vars[k])) {
      assert vars[k] in SetOf(vars) && vars[k] != vars[i] && vars[k] != vars[j];
      SameValues(vars[k]);
    }
  }

  twostate lemma SlotUpdated<T(0)>(new vars: seq<List<T>>, new i: nat)
    requires old(allocated(vars)) && Distinct(vars) && i < |vars| && Only(SetOf(vars), vars[i], vars[i])
    ensures Slots(vars) == old(Slots(vars))[i := SlotOf(vars[i])]
    ensures SlotOf(vars[i]) == old(SlotOf(vars[i])) ==> Slots(vars) == old(Slots(vars))
  {
    SlotsUpdated(vars, i, i);
    assert old(Slots(vars))[i] == old(SlotOf(vars[i]));
  }

  lemma SlotsWithout<T(0)>(vars: seq<List<T>>, i: nat)
    requires Distinct(vars) && i < |vars|
    ensures SetOf(vars[..i] + vars[i + 1..]) == SetOf(vars) - {vars[i]}
    ensures Slots(vars[..i] + vars[i + 1..]) == Slots(vars)[..i] + Slots(vars)[i + 1..]
  {
    OneGone(vars, i);
  }

  lemma CutAround<X>(xs: seq<X>, i: nat, x: X)
    requires i < |xs|
    ensures xs[i := x][..i] + xs[i := x][i + 1..] == xs[..i] + xs[i + 1..]
  {
  }

  /** The destructor of a variable (159-161). */
  method Drop<T(0)>(ghost arenas: set<Arena<T>>, vars: seq<List<T>>, i: nat) returns (after: seq<List<T>>)
    requires Distinct(vars) && i < |vars| && Balanced(SetOf(vars), arenas)
    modifies SetOf(vars), arenas, NodesOf(SetOf(vars))
    ensures Distinct(after) && SetOf(after) == SetOf(vars) - {vars[i]} && |after| == |vars| - 1
    ensures Balanced(SetOf(after), arenas) && NodesOf(SetOf(after)) <= old(NodesOf(SetOf(vars)))
    ensures Slots(after) == old(Slots(vars))[..i] + old(Slots(vars))[i + 1..]
  {
    Wipe(SetOf(vars), arenas, vars[i]);
    EmptyRemoved(SetOf(vars), arenas, vars[i]);
    after := vars[..i] + vars[i + 1..];
    SlotUpdated(vars, i);
    OneGone(vars, i);
    SlotsWithout(vars, i);
    CutAround(old(Slots(vars)), i, SlotOf(vars[i]));
  }

  method Create<T(0)>(ghost arenas: set<Arena<T>>, vars: seq<List<T>>, a: Arena<T>) returns (after: seq<List<T>>)
    requires Distinct(vars) && Balanced(SetOf(vars), arenas) && a in arenas
    ensures Distinct(after) && Balanced(SetOf(after), arenas)
    ensures fresh(SetOf(after) - SetOf(vars)) && NodesOf(SetOf(after)) == NodesOf(SetOf(vars))
    ensures Slots(after) == Slots(vars) + [Slot([], a)]
  {
    var l := new List<T>.Empty(a);
    EmptyAdded(SetOf(vars), arenas, l);
    after := vars + [l];
    assert SetOf(after) == SetOf(vars) + {l};
    assert Slots(after) == Slots(vars) + [SlotOf(l)];
  }

  method ChangeByPush<T(0)>(env: Environment<T>, arenas: seq<Arena<T>>, vars: seq<List<T>>, i: nat, value: T)
      returns (r: Outcome)
    requires Distinct(vars) && Balanced(SetOf(vars), SetOf(arenas)) && i < |vars|
    modifies env, arenas, Pools(SetOf(arenas)), SetOf(vars), NodesOf(SetOf(vars))
    ensures Balanced(SetOf(vars), SetOf(arenas)) && fresh(NodesOf(SetOf(vars)) - old(NodesOf(SetOf(vars))))
    ensures Stepped(WorldOf(env, vars), r) == ModelPush(RulesOf(env), old(WorldOf(env, vars)), i, value)
  {
    r := Push(env, SetOf(vars), SetOf(arenas), vars[i], value);
    SlotUpdated(vars, i);
  }

  method ChangeByCopy<T(0)>(env: Environment<T>, arenas: seq<Arena<T>>, vars: seq<List<T>>, i: nat, j: nat)
      returns (r: Outcome)
    requires Distinct(vars) && Balanced(SetOf(vars), SetOf(arenas)) && i < |vars| && j < |vars| && i != j
    modifies env, arenas, Pools(SetOf(arenas)), SetOf(vars), NodesOf(SetOf(vars))
    ensures Balanced(SetOf(vars), SetOf(arenas)) && fresh(NodesOf(SetOf(vars)) - old(NodesOf(SetOf(vars))))
    ensures Stepped(WorldOf(env, vars), r) == ModelCopy(RulesOf(env), old(WorldOf(env, vars)), i, j)
  {
    ghost var slots := Slots(vars);
    assert slots[i] == SlotOf(vars[i]) && slots[j] == SlotOf(vars[j]);
    r := CopyAssign(env, SetOf(vars), SetOf(arenas), vars[i], vars[j]);
    SlotUpdated(vars, i);
  }

  /** Assigning a variable to itself. */
  method ChangeByItself<T(0)>(env: Environment<T>, arenas: seq<Arena<T>>, vars: seq<List<T>>, c: Command<T>)
      returns (r: Outcome)
    requires Distinct(vars) && Balanced(SetOf(vars), SetOf(arenas))
    requires (c.CopyAssign? || c.MoveAssign?) && c.i == c.j < |vars|
    modifies env, arenas, Pools(SetOf(arenas)), SetOf(vars), NodesOf(SetOf(vars))
    ensures Balanced(SetOf(vars), SetOf(arenas)) && NodesOf(SetOf(vars)) <= old(NodesOf(SetOf(vars)))
    ensures Stepped(WorldOf(env, vars), r) == ModelStep(RulesOf(env), arenas, old(WorldOf(env, vars)), c)
  {
    if c.CopyAssign? {
      r := CopyToItself(env, SetOf(vars), SetOf(arenas), vars[c.i]);
    } else {
      r := MoveToItself(env, SetOf(vars), SetOf(arenas), vars[c.i], c.propagates);
    }
    SlotUpdated(vars, c.i);
  }

  /** The effect of a move, put together from what happened to the two variables. */
  lemma MovedInModel<T(0)>(rules: Rules<T>, w: World<T>, i: nat, j: nat, propagates: bool, target: Slot<T>,
                           source: Slot<T>, creations: nat, r: Outcome)
    requires i < |w.slots| && j < |w.slots| && i != j
    requires var apart := !propagates && w.slots[i].allocator != w.slots[j].allocator;
             && source.allocator == w.slots[j].allocator
             && target.allocator == (if propagates then source.allocator else w.slots[i].allocator)
             && (r.Threw? <==> apart && !AllFine(rules.fault, w.creations, |w.slots[j].values|))
             && creations == w.creations +
                  if apart then Attempts(rules.fault, w.creations, |w.slots[j].values|) else 0
    requires r.Done? ==> target.values == w.slots[j].values && source.values == []
    requires r.Threw? ==>
      target.values == w.slots[i].values && source.values == LeftBehind(rules, w.creations, w.slots[j].values)
    ensures Stepped(World(w.slots[i := target][j := source], creations), r) == ModelMove(rules, w, i, j, propagates)
  {
    if r.Threw? {
      assert target == w.slots[i];
      assert w.slots[i := w.slots[i]] == w.slots;
    }
  }

  method ChangeByMove<T(0)>(env: Environment<T>, arenas: seq<Arena<T>>, vars: seq<List<T>>, i: nat, j: nat,
                            propagates: bool)
      returns (r: Outcome)
    requires Distinct(vars) && Balanced(SetOf(vars), SetOf(arenas)) && i < |vars| && j < |vars| && i != j
    modifies env, arenas, Pools(SetOf(arenas)), SetOf(vars), NodesOf(SetOf(vars))
    ensures Balanced(SetOf(vars), SetOf(arenas)) && fresh(NodesOf(SetOf(vars)) - old(NodesOf(SetOf(vars))))
    ensures Stepped(WorldOf(env, vars), r) == ModelMove(RulesOf(env), old(WorldOf(env, vars)), i, j, propagates)
  {
    ghost var w := WorldOf(env, vars);
    assert w.slots[i] == SlotOf(vars[i]) && w.slots[j] == SlotOf(vars[j]);
    r := MoveAssign(env, SetOf(vars), SetOf(arenas), vars[i], vars[j], propagates);
    SlotsUpdated(vars, i, j);
    MovedInModel(RulesOf(env), w, i, j, propagates, SlotOf(vars[i]), SlotOf(vars[j]), env.creations, r);
  }

  method Shrink<T(0)>(env: Environment<T>, arenas: seq<Arena<T>>, vars: seq<List<T>>, c: Command<T>)
      returns (r: Outcome)
    requires Distinct(vars) && Balanced(SetOf(vars), SetOf(arenas)) && (c.Pop? || c.Wipe?) && c.i < |vars|
    modifies arenas, SetOf(vars), NodesOf(SetOf(vars))
    ensures Balanced(SetOf(vars), SetOf(arenas)) && NodesOf(SetOf(vars)) <= old(NodesOf(SetOf(vars)))
    ensures Stepped(WorldOf(env, vars), r) == ModelStep(RulesOf(env), arenas, old(WorldOf(env, vars)), c)
  {
    r := Done;
    if c.Pop? {
      r := Pop(SetOf(vars), SetOf(arenas), vars[c.i]);
    } else {
      Wipe(SetOf(vars), SetOf(arenas), vars[c.i]);
    }
    SlotUpdated(vars, c.i);
  }

  method Change<T(0)>(env: Environment<T>, arenas: seq<Arena<T>>, vars: seq<List<T>>, c: Command<T>)
      returns (r: Outcome)
    requires Distinct(vars) && Balanced(SetOf(vars), SetOf(arenas)) && !c.New? && !c.Drop?
    modifies env, arenas, Pools(SetOf(arenas)), SetOf(vars), NodesOf(SetOf(vars))
    ensures Balanced(SetOf(vars), SetOf(arenas)) && fresh(NodesOf(SetOf(vars)) - old(NodesOf(SetOf(vars))))
    ensures Stepped(WorldOf(env, vars), r) == ModelStep(RulesOf(env), arenas, old(WorldOf(env, vars)), c)
  {
    if !Applicable(|vars|, |arenas|, c) {
      r := Done;
    } else if c.Push? {
      r := ChangeByPush(env, arenas, vars, c.i, c.value);
    } else if c.Pop? || c.Wipe? {
      r := Shrink(env, arenas, vars, c);
    } else if c.i == c.j {
      r := ChangeByItself(env, arenas, vars, c);
    } else if c.CopyAssign? {
      r := ChangeByCopy(env, arenas, vars, c.i, c.j);
    } else {
      r := ChangeByMove(env, arenas, vars, c.i, c.j, c.propagates);
    }
  }

  method Step<T(0)>(env: Environment<T>, arenas: seq<Arena<T>>, vars: seq<List<T>>, c: Command<T>)
      returns (after: seq<List<T>>, r: Outcome)
    requires Distinct(vars) && Balanced(SetOf(vars), SetOf(arenas))
    modifies env, arenas, Pools(SetOf(arenas)), SetOf(vars), NodesOf(SetOf(vars))
    ensures Distinct(after) && Balanced(SetOf(after), SetOf(arenas))
    ensures fresh(SetOf(after) - SetOf(vars)) && fresh(NodesOf(SetOf(after)) - old(NodesOf(SetOf(vars))))
    ensures Stepped(WorldOf(env, after), r) == ModelStep(RulesOf(env), arenas, old(WorldOf(env, vars)), c)
  {
    after, r := vars, Done;
    if c.New? {
      if c.a < |arenas| {
        after := Create(SetOf(arenas), vars, arenas[c.a]);
      }
    } else if c.Drop? {
      if c.i < |vars| {
        after := Drop(SetOf(arenas), vars, c.i);
      }
    } else {
      r := Change(env, arenas, vars, c);
    }
  }

  /** After any sequence of commands, whichever creations throw: exactly those commands have thrown that the model says,
      every list is sound and holds what the model says, no node is in two lists, and what is out of an allocator is
      exactly what its lists hold. */
  method Run<T(0)>(env: Environment<T>, arenas: seq<Arena<T>>, cs: seq<Command<T>>)
      returns (vars: seq<List<T>>, rs: seq<Outcome>)
    requires forall a :: a in arenas ==> a.live == {}
    modifies env, arenas, Pools(SetOf(arenas))
    ensures Distinct(vars) && Balanced(SetOf(vars), SetOf(arenas))
    ensures fresh(SetOf(vars)) && fresh(NodesOf(SetOf(vars)))
    ensures WorldOf(env, vars) == ModelRun(RulesOf(env), arenas, old(env.creations), cs)
    ensures rs == ModelOutcomes(RulesOf(env), arenas, old(env.creations), cs)
  {
    vars, rs := [], [];
    for k := 0 to |cs|
      invariant Distinct(vars) && Balanced(SetOf(vars), SetOf(arenas))
      invariant fresh(SetOf(vars)) && fresh(NodesOf(SetOf(vars)))
      invariant WorldOf(env, vars) == ModelRun(RulesOf(env), arenas, old(env.creations), cs[..k])
      invariant rs == ModelOutcomes(RulesOf(env), arenas, old(env.creations), cs[..k])
    {
      var r;
      vars, r := Step(env, arenas, vars, cs[k]);
      rs := rs + [r];
      assert cs[..k + 1][..k] == cs[..k];
    }
    assert cs[..|cs|] == cs;
  }

  /** No leak, and no node given back twice or to the wrong allocator: when the variables that are left have been
      destroyed as well, every allocator has all of its memory back. */
  method RunToTheEnd<T(0)>(env: Environment<T>, arenas: seq<Arena<T>>, cs: seq<Command<T>>) returns (rs: seq<Outcome>)
    requires forall a :: a in arenas ==> a.live == {}
    modifies env, arenas, Pools(SetOf(arenas))
    ensures forall a :: a in arenas ==> a.live == {}
    ensures rs == ModelOutcomes(RulesOf(env), arenas, old(env.creations), cs)
  {
    var vars;
    vars, rs := Run(env, arenas, cs);
    while vars != []
      invariant Distinct(vars) && Balanced(SetOf(vars), SetOf(arenas))
      invariant fresh(SetOf(vars)) && fresh(NodesOf(SetOf(vars)))
      decreases |vars|
    {
      vars := Drop(SetOf(arenas), vars, |vars| - 1);
    }
  }
}
