/** What the local updates of OwnerHeap add up to, for the whole heap and for whole histories. */
module OwnerHeapProperties {
  import opened OwnerHeap
  import opened Sequences

  // ----- The bit, the lists and the lifetimes of one heap

  /** unique() (string.hpp 149-151) */
  ghost predicate Unique(s: String)
    reads s
  {
    s.block != null && s.bit
  }

  /** b's list holds exactly the strings tagged with b. */
  lemma ListIsTagged(h: Heap, b: Block, s: String)
    requires h.Valid() && b in h.owners && s in h.strings
    ensures s in h.owners[b] <==> s.block == b
  {
    MembersTagged(h, b, h.owners[b]);
    assert h.StringOk(s);
  }

  /** The one-bit counter is right: a string's bit is set exactly when no other string has its block. */
  lemma UniqueIffSoleOwner(h: Heap, s: String)
    requires h.Valid() && s in h.strings
    ensures Unique(s) <==> s.block != null && forall t :: t in h.strings && t.block == s.block ==> t == s
  {
    assert h.StringOk(s);
    if s.block != null {
      var os := h.owners[s.block];
      var k: nat :| k < |os| && os[k] == s;
      assert h.BlockOk(s.block, os) && h.Linked(s.block, os, k);
      forall t | t in h.strings && t.block == s.block ensures t in os {
        assert h.StringOk(t);
      }
      if |os| > 1 {
        var j := if k == 0 then 1 else 0;
        assert os[j] in os && os[j] != s;
        MembersTagged(h, s.block, os);
      }
    }
  }

  /** Following next_ for at most `steps` strings. */
  ghost function Walk(s: String?, steps: nat): seq<String>
    reads *
  {
    if s == null || steps == 0 then [] else [s] + Walk(s.next, steps - 1)
  }

  /** Following previous_ for at most `steps` strings. */
  ghost function WalkBack(s: String?, steps: nat): seq<String>
    reads *
  {
    if s == null || steps == 0 then [] else [s] + WalkBack(s.previous, steps - 1)
  }

  ghost function Reverse<T>(xs: seq<T>): seq<T> {
    if xs == [] then [] else Reverse(xs[1..]) + [xs[0]]
  }

  lemma {:induction false} WalkFrom(h: Heap, b: Block, k: nat, steps: nat)
    requires h.Valid() && b in h.owners && k < |h.owners[b]| && steps >= |h.owners[b]| - k
    ensures Walk(h.owners[b][k], steps) == h.owners[b][k..]
    decreases |h.owners[b]| - k
  {
    assert h.BlockOk(b, h.owners[b]) && h.Linked(b, h.owners[b], k);
    if k + 1 < |h.owners[b]| {
      WalkFrom(h, b, k + 1, steps - 1);
    }
  }

  lemma {:induction false} WalkBackFrom(h: Heap, b: Block, k: nat, steps: nat)
    requires h.Valid() && b in h.owners && k < |h.owners[b]| && steps >= k + 1
    ensures WalkBack(h.owners[b][k], steps) == Reverse(h.owners[b][..k + 1])
  {
    var os := h.owners[b];
    assert h.BlockOk(b, os) && h.Linked(b, os, k);
    ReverseLast(os[..k], os[k]);
    assert os[..k + 1] == os[..k] + [os[k]];
    if k > 0 {
      WalkBackFrom(h, b, k - 1, steps - 1);
    }
  }

  lemma {:induction false} ReverseLast<T>(xs: seq<T>, x: T)
    ensures Reverse(xs + [x]) == [x] + Reverse(xs)
  {
    if xs != [] {
      ReverseLast(xs[1..], x);
      assert (xs + [x])[1..] == xs[1..] + [x];
    }
  }

  /** Walking next_ from a block's first owner visits its owners, once each, and stops; walking
      previous_ back from the last one visits the same strings in the opposite order. */
  lemma WalkVisitsOwners(h: Heap, b: Block, steps: nat)
    requires h.Valid() && b in h.owners && h.owners[b] != [] && steps >= |h.owners[b]|
    ensures Distinct(Walk(b.first, steps))
    ensures forall s :: s in h.strings ==> (s in Walk(b.first, steps) <==> s.block == b)
    ensures WalkBack(h.owners[b][|h.owners[b]| - 1], steps) == Reverse(Walk(b.first, steps))
  {
    var os := h.owners[b];
    assert h.BlockOk(b, os);
    WalkFrom(h, b, 0, steps);
    WalkBackFrom(h, b, |os| - 1, steps);
    assert os[..|os|] == os && os[0..] == os;
    forall s | s in h.strings ensures s in os <==> s.block == b {
      ListIsTagged(h, b, s);
    }
  }

  /** Lifetimes: no string points to a freed block, and a block is freed as soon as, and not before,
      its last owner has left. */
  lemma FreedIffUnowned(h: Heap, b: Block)
    requires h.Valid() && h.NoOrphans() && b in h.created
    ensures b.freed <==> forall s :: s in h.strings ==> s.block != b
  {
    if b in h.owners {
      var os := h.owners[b];
      assert h.BlockOk(b, os) && h.Linked(b, os, 0) && os[0] in os;
    } else {
      forall s | s in h.strings ensures s.block != b {
        assert h.StringOk(s);
      }
    }
  }

  /** The lists determine every field: two owners of one description have the same links and bit. */
  lemma ListsDetermineFields(h: Heap, b: Block, k: nat)
    requires h.Valid() && b in h.owners && k < |h.owners[b]|
    ensures var os := h.owners[b];
            && os[k].block == b
            && os[k].bit == (|os| == 1)
            && os[k].previous == (if k == 0 then null else os[k - 1])
            && os[k].next == (if k + 1 == |os| then null else os[k + 1])
  {
    assert h.BlockOk(b, h.owners[b]) && h.Linked(b, h.owners[b], k);
  }

  // ----- swap

  /** Swapping twice restores every list, and with the lists every field. */
  lemma SwapTwice(owners: Owners, s: String, t: String)
    ensures Swapped(Swapped(owners, s, t), s, t) == owners
  {
    forall b | b in owners ensures Exchanged(Exchanged(owners[b], s, t), s, t) == owners[b] {
      assert forall i :: 0 <= i < |owners[b]| ==> Other(Other(owners[b][i], s, t), s, t) == owners[b][i];
    }
  }

  /** A swap keeps every other string at its position, the lengths of all lists, and so every bit. */
  lemma SwapKeepsOrder(owners: Owners, s: String, t: String, b: Block, k: nat)
    requires b in owners && k < |owners[b]|
    ensures |Swapped(owners, s, t)[b]| == |owners[b]|
    ensures owners[b][k] != s && owners[b][k] != t ==> Swapped(owners, s, t)[b][k] == owners[b][k]
    ensures owners[b][k] == s ==> Swapped(owners, s, t)[b][k] == t
    ensures owners[b][k] == t ==> Swapped(owners, s, t)[b][k] == s
  {
  }

  // ----- No block without an owner

  ghost predicate NoneEmpty(owners: Owners) { forall b :: b in owners ==> owners[b] != [] }

  lemma StepsLeaveNoOrphan(owners: Owners, b: Block?, s: String, t: String)
    requires NoneEmpty(owners) && (b != null ==> b in owners)
    ensures NoneEmpty(Attached(owners, b, s)) && NoneEmpty(Detached(owners, b, s)) && NoneEmpty(Swapped(owners, s, t))
  {
    forall c | c in owners ensures |Exchanged(owners[c], s, t)| == |owners[c]| {
    }
  }
}
