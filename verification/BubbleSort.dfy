/** bubble_sort and count_unique over a vector of Strings (benchmark/string_benchmark.cpp 65-88). */
module BubbleSort {
  import opened CString
  import opened OwnerHeap
  import opened Sequences
  import opened StringOrder

  /** What a program can see of one String: its block (and with it its text) and its bit. */
  datatype Entry = Entry(block: Block?, bit: bool)
  {
    function Key(): Key { KeyOf(block) }
  }

  function Entries(values: seq<String>): (r: seq<Entry>)
    reads values
    ensures |r| == |values|
    ensures forall i :: 0 <= i < |values| ==> r[i] == Entry(values[i].block, values[i].bit)
  {
    seq(|values|, i requires 0 <= i < |values| reads values => Entry(values[i].block, values[i].bit))
  }

  // ----- Stable sorting, as values

  ghost predicate Sorted(xs: seq<Entry>) {
    forall i, j :: 0 <= i < j < |xs| ==> !KeyLess(xs[j].Key(), xs[i].Key())
  }

  /** The entries with one key, in the order they stand in. */
  ghost function WithKey(xs: seq<Entry>, k: Key): seq<Entry> {
    if xs == [] then [] else (if xs[0].Key() == k then [xs[0]] else []) + WithKey(xs[1..], k)
  }

  /** ys is xs rearranged without ever passing one entry over another with the same key. */
  ghost predicate StablyRearranged(xs: seq<Entry>, ys: seq<Entry>) {
    |xs| == |ys| && forall k: Key :: WithKey(xs, k) == WithKey(ys, k)
  }

  lemma WithKeyCons(x: Entry, tail: seq<Entry>, k: Key)
    ensures WithKey([x] + tail, k) == (if x.Key() == k then [x] else []) + WithKey(tail, k)
  {
    assert ([x] + tail)[1..] == tail;
  }

  lemma {:induction false} WithKeyAppend(xs: seq<Entry>, ys: seq<Entry>, k: Key)
    ensures WithKey(xs + ys, k) == WithKey(xs, k) + WithKey(ys, k)
  {
    if xs == [] {
      assert xs + ys == ys;
    } else {
      WithKeyAppend(xs[1..], ys, k);
      assert xs + ys == [xs[0]] + (xs[1..] + ys);
      WithKeyCons(xs[0], xs[1..] + ys, k);
      Joined(if xs[0].Key() == k then [xs[0]] else [], WithKey(xs[1..], k), WithKey(ys, k));
    }
  }

  lemma AdjacentSwapStable(xs: seq<Entry>, i: nat)
    requires 0 < i < |xs| && xs[i].Key() != xs[i - 1].Key()
    ensures StablyRearranged(xs, xs[i - 1 := xs[i]][i := xs[i - 1]])
  {
    var ys := xs[i - 1 := xs[i]][i := xs[i - 1]];
    var before, after := xs[..i - 1], xs[i + 1..];
    forall k: Key ensures WithKey(xs, k) == WithKey(ys, k) {
      assert xs == before + ([xs[i - 1], xs[i]] + after);
      assert ys == before + ([xs[i], xs[i - 1]] + after);
      WithKeyAppend(before, [xs[i - 1], xs[i]] + after, k);
      WithKeyAppend(before, [xs[i], xs[i - 1]] + after, k);
      WithKeyAppend([xs[i - 1], xs[i]], after, k);
      WithKeyAppend([xs[i], xs[i - 1]], after, k);
      PairWithKey(xs[i - 1], xs[i], k);
      PairWithKey(xs[i], xs[i - 1], k);
    }
  }

  lemma PairWithKey(x: Entry, y: Entry, k: Key)
    ensures WithKey([x, y], k) == (if x.Key() == k then [x] else []) + (if y.Key() == k then [y] else [])
  {
    assert [x, y][1..] == [y] && [y][1..] == [];
    assert WithKey([y], k) == if y.Key() == k then [y] else [];
  }

  lemma {:induction false} WithKeyKeys(xs: seq<Entry>, k: Key)
    ensures forall e :: e in WithKey(xs, k) <==> e in xs && e.Key() == k
  {
    if xs != [] { WithKeyKeys(xs[1..], k); }
  }

  /** Sorted and stably rearranged leaves no freedom: there is exactly one such sequence. */
  lemma {:induction false} StableSortUnique(xs: seq<Entry>, ys: seq<Entry>)
    requires Sorted(xs) && Sorted(ys) && StablyRearranged(xs, ys)
    ensures xs == ys
  {
    if xs != [] {
      SmallestFirst(xs, ys);
      SmallestFirst(ys, xs);
      var k := xs[0].Key();
      KeyLessTotal(k, ys[0].Key());
      assert WithKey(xs, k) == WithKey(ys, k);
      assert xs[0] == WithKey(xs, k)[0] && ys[0] == WithKey(ys, k)[0];
      forall j: Key ensures WithKey(xs[1..], j) == WithKey(ys[1..], j) {
        assert WithKey(xs, j) == WithKey(ys, j);
        if j == k {
          assert WithKey(xs[1..], j) == WithKey(xs, j)[1..];
          assert WithKey(ys[1..], j) == WithKey(ys, j)[1..];
        } else {
          assert [] + WithKey(xs[1..], j) == WithKey(xs[1..], j) && [] + WithKey(ys[1..], j) == WithKey(ys[1..], j);
        }
      }
      StableSortUnique(xs[1..], ys[1..]);
    }
  }

  lemma SmallestFirst(xs: seq<Entry>, ys: seq<Entry>)
    requires Sorted(ys) && StablyRearranged(xs, ys) && xs != []
    ensures !KeyLess(xs[0].Key(), ys[0].Key())
  {
    var k := xs[0].Key();
    WithKeyKeys(xs, k);
    WithKeyKeys(ys, k);
    assert xs[0] in WithKey(xs, k) && xs[0] in WithKey(ys, k);
    var j :| 0 <= j < |ys| && ys[j] == xs[0];
    KeyLessTotal(k, k);
  }

  /** A stable rearrangement is a permutation. */
  lemma StableIsPermutation(xs: seq<Entry>, ys: seq<Entry>)
    requires StablyRearranged(xs, ys)
    ensures multiset(xs) == multiset(ys)
  {
    forall e: Entry ensures multiset(xs)[e] == multiset(ys)[e] {
      WithKeyCount(xs, e);
      WithKeyCount(ys, e);
      assert WithKey(xs, e.Key()) == WithKey(ys, e.Key());
    }
  }

  lemma {:induction false} WithKeyCount(xs: seq<Entry>, e: Entry)
    ensures multiset(WithKey(xs, e.Key()))[e] == multiset(xs)[e]
  {
    if xs != [] {
      assert xs == [xs[0]] + xs[1..];
      WithKeyCount(xs[1..], e);
    }
  }

  // ----- The number of unique strings

  ghost function UniqueCount(xs: seq<Entry>): nat {
    if xs == [] then 0
    else UniqueCount(xs[..|xs| - 1]) + if xs[|xs| - 1].block != null && xs[|xs| - 1].bit then 1 else 0
  }

  /** The indices of the unique strings. */
  ghost function UniqueAt(xs: seq<Entry>): set<nat> {
    set i: nat | i < |xs| && xs[i].block != null && xs[i].bit
  }

  lemma {:induction false} UniqueCountIsCardinality(xs: seq<Entry>)
    ensures UniqueCount(xs) == |UniqueAt(xs)|
  {
    if xs == [] {
      assert UniqueAt(xs) == {};
    } else {
      var last := |xs| - 1;
      UniqueCountIsCardinality(xs[..last]);
      if xs[last].block != null && xs[last].bit {
        assert UniqueAt(xs) == UniqueAt(xs[..last]) + {last};
      } else {
        assert UniqueAt(xs) == UniqueAt(xs[..last]);
      }
    }
  }

  lemma MultisetWithout(ys: seq<Entry>, j: nat)
    requires j < |ys|
    ensures multiset(ys[..j] + ys[j + 1..]) == multiset(ys) - multiset{ys[j]}
  {
    assert ys == (ys[..j] + [ys[j]]) + ys[j + 1..];
  }

  lemma {:induction false} UniqueCountMultiset(xs: seq<Entry>, ys: seq<Entry>)
    requires multiset(xs) == multiset(ys)
    ensures UniqueCount(xs) == UniqueCount(ys)
  {
    if xs == [] {
      assert |multiset(ys)| == 0;
    } else {
      var last := |xs| - 1;
      assert xs[last] in multiset(ys);
      var j: nat :| j < |ys| && ys[j] == xs[last];
      var rest := ys[..j] + ys[j + 1..];
      MultisetWithout(xs, last);
      MultisetWithout(ys, j);
      assert xs[..last] + xs[last + 1..] == xs[..last];
      UniqueCountMultiset(xs[..last], rest);
      UniqueCountWithout(ys, j);
    }
  }

  lemma {:induction false} UniqueCountWithout(ys: seq<Entry>, j: nat)
    requires j < |ys|
    ensures UniqueCount(ys) == UniqueCount(ys[..j] + ys[j + 1..]) + if ys[j].block != null && ys[j].bit then 1 else 0
  {
    var last := |ys| - 1;
    var front, rest := ys[..last], ys[..j] + ys[j + 1..];
    if j == last {
      assert rest == front;
    } else {
      UniqueCountWithout(front, j);
      assert rest[..|rest| - 1] == front[..j] + front[j + 1..];
      assert rest[|rest| - 1] == ys[last] && front[j] == ys[j];
    }
  }

  /** count_unique (80-88) */
  method CountUnique(values: seq<String>) returns (result: nat)
    ensures result == UniqueCount(Entries(values)) == |UniqueAt(Entries(values))|
  {
    result := 0;
    ghost var xs := Entries(values);
    for i := 0 to |values|
      invariant result == UniqueCount(xs[..i])
    {
      assert xs[..i + 1][..i] == xs[..i];
      if values[i].block != null && values[i].bit {
        result := result + 1;
      }
    }
    assert xs[..|values|] == xs;
    UniqueCountIsCardinality(xs);
  }

  // ----- The sort itself

  ghost predicate InHeap(h: Heap, values: seq<String>)
    reads h
  {
    Distinct(values) && forall v :: v in values ==> v in h.strings
  }

  /** No entry up to `top` has a greater key than the one at `top`. */
  ghost predicate Largest(xs: seq<Entry>, top: nat)
    requires top < |xs|
  {
    forall i :: 0 <= i < top ==> !KeyLess(xs[top].Key(), xs[i].Key())
  }

  /** From `from` on, every entry is in its final place. */
  ghost predicate SortedFrom(xs: seq<Entry>, from: nat) {
    forall i, j :: 0 <= i < j < |xs| && from <= j ==> !KeyLess(xs[j].Key(), xs[i].Key())
  }

  lemma RearrangedTransitive(xs: seq<Entry>, ys: seq<Entry>, zs: seq<Entry>)
    requires StablyRearranged(xs, ys) && StablyRearranged(ys, zs)
    ensures StablyRearranged(xs, zs)
  {
    forall k: Key ensures WithKey(xs, k) == WithKey(zs, k) {
      assert WithKey(xs, k) == WithKey(ys, k) && WithKey(ys, k) == WithKey(zs, k);
    }
  }

  /** Comparing positions i - 1 and i and swapping them if needed moves the largest entry up by one. */
  lemma Bubbled(xs: seq<Entry>, ys: seq<Entry>, i: nat, bound: nat)
    requires 0 < i < bound <= |xs| && Largest(xs, i - 1) && SortedFrom(xs, bound)
    requires ys == if KeyLess(xs[i].Key(), xs[i - 1].Key()) then xs[i - 1 := xs[i]][i := xs[i - 1]] else xs
    ensures |ys| == |xs| && Largest(ys, i) && SortedFrom(ys, bound) && StablyRearranged(xs, ys)
  {
    if KeyLess(xs[i].Key(), xs[i - 1].Key()) {
      KeyLessTotal(xs[i].Key(), xs[i - 1].Key());
      AdjacentSwapStable(xs, i);
    } else {
      forall j | 0 <= j < i ensures !KeyLess(xs[i].Key(), xs[j].Key()) {
        if KeyLess(xs[i].Key(), xs[j].Key()) {
          NotLessTransitive(xs[i].Key(), xs[i - 1].Key(), xs[j].Key());
        }
      }
    }
  }

  lemma NotLessTransitive(a: Key, b: Key, c: Key)
    requires !KeyLess(a, b) && !KeyLess(b, c)
    ensures !KeyLess(a, c)
  {
    KeyLessTotal(a, b);
    KeyLessTotal(b, c);
    if KeyLess(a, c) {
      if KeyLess(b, a) { KeyLessTransitive(b, a, c); }
    }
  }

  /** 72-75: compare two neighbours and swap them if they are out of order. */
  method CompareAndSwap(ghost h: Heap, values: seq<String>, i: nat)
    requires h.Valid() && InHeap(h, values) && 0 < i < |values|
    modifies h`owners, h.strings, h.created
    ensures h.Valid()
    ensures var xs := old(Entries(values));
            Entries(values) == if KeyLess(xs[i].Key(), xs[i - 1].Key()) then xs[i - 1 := xs[i]][i := xs[i - 1]] else xs
    ensures forall x :: x in h.strings && x !in values ==> x.block == old(x.block) && x.bit == old(x.bit)
  {
    var left, right := values[i - 1], values[i];
    ComparisonsByKey(right.block, left.block);
    if Less(right.block, left.block) {
      ghost var xs := Entries(values);
      assert left in values && right in values;
      left.Swap(h, right);
      forall k | 0 <= k < |values| && k != i - 1 && k != i ensures Entries(values)[k] == xs[k] {
        assert values[k] in values && values[k] != left && values[k] != right;
      }
    }
  }

  /** One iteration of the inner loop. */
  method BubbleStep(ghost h: Heap, values: seq<String>, i: nat, ghost bound: nat)
    requires h.Valid() && InHeap(h, values) && 0 < i < bound <= |values|
    requires Largest(Entries(values), i - 1) && SortedFrom(Entries(values), bound)
    modifies h`owners, h.strings, h.created
    ensures h.Valid()
    ensures Largest(Entries(values), i) && SortedFrom(Entries(values), bound)
    ensures StablyRearranged(old(Entries(values)), Entries(values))
    ensures forall x :: x in h.strings && x !in values ==> x.block == old(x.block) && x.bit == old(x.bit)
  {
    ghost var xs := Entries(values);
    CompareAndSwap(h, values, i);
    Bubbled(xs, Entries(values), i, bound);
  }

  /** 71-76: one pass moves the largest of the first `bound` entries to their end. */
  method BubblePass(ghost h: Heap, values: seq<String>, bound: nat)
    requires h.Valid() && InHeap(h, values) && 1 <= bound <= |values| && SortedFrom(Entries(values), bound)
    modifies h`owners, h.strings, h.created
    ensures h.Valid()
    ensures SortedFrom(Entries(values), bound - 1) && StablyRearranged(old(Entries(values)), Entries(values))
    ensures forall x :: x in h.strings && x !in values ==> x.block == old(x.block) && x.bit == old(x.bit)
  {
    ghost var start := Entries(values);
    var i := 1;
    while i < bound
      invariant 1 <= i <= bound
      invariant h.Valid()
      invariant Largest(Entries(values), i - 1) && SortedFrom(Entries(values), bound)
      invariant StablyRearranged(start, Entries(values))
      invariant forall x :: x in h.strings && x !in values ==> x.block == old(x.block) && x.bit == old(x.bit)
    {
      ghost var xs := Entries(values);
      BubbleStep(h, values, i, bound);
      RearrangedTransitive(start, xs, Entries(values));
      i := i + 1;
    }
    LastInPlace(Entries(values), bound);
  }

  lemma LastInPlace(xs: seq<Entry>, bound: nat)
    requires 1 <= bound <= |xs| && Largest(xs, bound - 1) && SortedFrom(xs, bound)
    ensures SortedFrom(xs, bound - 1)
  {
  }

  /** bubble_sort (65-78).  The vector ends up in operator< order; entries with the same key, and with
      them their blocks and bits, keep their order; Strings outside the vector keep block and bit. */
  method BubbleSort(ghost h: Heap, values: seq<String>)
    requires h.Valid() && InHeap(h, values)
    modifies h`owners, h.strings, h.created
    ensures h.Valid()
    ensures Sorted(Entries(values)) && StablyRearranged(old(Entries(values)), Entries(values))
    ensures forall x :: x in h.strings && x !in values ==> x.block == old(x.block) && x.bit == old(x.bit)
    ensures UniqueCount(Entries(values)) == old(UniqueCount(Entries(values)))
  {
    ghost var start := Entries(values);
    if |values| == 0 {
      return;
    }
    for pass := 0 to |values|
      invariant h.Valid()
      invariant SortedFrom(Entries(values), |values| - pass) && StablyRearranged(start, Entries(values))
      invariant forall x :: x in h.strings && x !in values ==> x.block == old(x.block) && x.bit == old(x.bit)
    {
      ghost var xs := Entries(values);
      BubblePass(h, values, |values| - pass);
      RearrangedTransitive(start, xs, Entries(values));
    }
    StableIsPermutation(start, Entries(values));
    UniqueCountMultiset(start, Entries(values));
  }
}
