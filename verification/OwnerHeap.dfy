/** doost::String: shared ownership of a text block, counted with a single bit (src/string.cpp,
    include/doost/string.hpp).

    Every owner is a node of a doubly linked list rooted in its block.  Its bit says whether it is the
    only owner.  Each operation touches at most two neighbours; the invariant is about the whole heap. */
module OwnerHeap {

  import opened CString
  import opened Sequences

  class Block {
    var first: String?
    var freed: bool
    const data: Terminated

    constructor (text: string)
      ensures first == null && !freed && data == text + "\0"
    {
      first, freed, data := null, false, text + "\0";
    }
  }

  /** A const char* argument.  It may point into the text of any live block, also one that the
      assigned String itself owns. */
  datatype CharPointer = Null | Outside(text: string) | Inside(block: Block, offset: nat)
  {
    ghost predicate Readable()
      reads if Inside? then {block} else {}
    {
      Inside? ==> !block.freed && offset < |block.data|
    }

    /** The characters from the pointer on. */
    function Chars(): string
      reads if Inside? then {block} else {}
      requires Readable()
    {
      match this
      case Null => ""
      case Outside(text) => text
      case Inside(block, offset) => block.data[offset..]
    }
  }

  type Owners = map<Block, seq<String>>

  // ----- Lists of owners, as values

  ghost function Without<T>(os: seq<T>, s: T): (r: seq<T>)
    ensures s !in os ==> r == os
  {
    if os == [] then [] else if os[0] == s then os[1..] else [os[0]] + Without(os[1..], s)
  }

  lemma {:induction false} WithoutAt<T>(os: seq<T>, k: nat)
    requires Distinct(os) && k < |os|
    ensures Without(os, os[k]) == os[..k] + os[k + 1..]
  {
    if k == 0 {
    } else {
      WithoutAt(os[1..], k - 1);
      assert os[0] != os[k];
      assert os[..k] + os[k + 1..] == [os[0]] + (os[1..][..k - 1] + os[1..][k..]);
    }
  }

  // ----- What each operation does to the owner lists

  ghost function Attached(owners: Owners, b: Block?, s: String): Owners
    requires b != null ==> b in owners
  {
    if b == null then owners else owners[b := [s] + owners[b]]
  }

  ghost function Detached(owners: Owners, b: Block?, s: String): Owners
    requires b != null ==> b in owners
  {
    if b == null then owners
    else
      var rest := Without(owners[b], s);
      if rest == [] then owners - {b} else owners[b := rest]
  }

  ghost function Other<T>(x: T, s: T, t: T): T { if x == s then t else if x == t then s else x }

  ghost function Exchanged<T>(os: seq<T>, s: T, t: T): (r: seq<T>)
    ensures |r| == |os|
    ensures forall i :: 0 <= i < |os| ==> r[i] == Other(os[i], s, t)
  {
    seq(|os|, i requires 0 <= i < |os| => Other(os[i], s, t))
  }

  /** s and t trade places in every list, that is, each takes the other's block and position. */
  ghost function Swapped(owners: Owners, s: String, t: String): Owners {
    map b | b in owners :: Exchanged(owners[b], s, t)
  }

  lemma SwappedAbsent(owners: Owners, s: String, t: String)
    requires forall b :: b in owners ==> s !in owners[b] && t !in owners[b]
    ensures Swapped(owners, s, t) == owners
  {
    forall b | b in owners ensures Exchanged(owners[b], s, t) == owners[b] {
      assert forall i :: 0 <= i < |owners[b]| ==> owners[b][i] in owners[b];
    }
  }

  /** Building a replacement first, swapping with it and destroying it leaves the lists as if the old
      block had been given up and a new one taken, in the same order. */
  lemma ReplacementLists(owners: Owners, b: Block?, s: String, r: String, made: Block)
    requires s != r && made !in owners
    requires b != null ==> b in owners && Distinct(owners[b]) && s in owners[b]
    requires forall c :: c in owners ==> r !in owners[c] && (c != b ==> s !in owners[c])
    ensures b != null ==> b in Swapped(owners[made := [r]], s, r)
    ensures Detached(Swapped(owners[made := [r]], s, r), b, r) == Detached(owners, b, s)[made := [s]]
  {
    assert Exchanged([r], s, r) == [s];
    forall c | c in owners && c != b ensures Exchanged(owners[c], s, r) == owners[c] {
      assert forall i :: 0 <= i < |owners[c]| ==> owners[c][i] in owners[c];
    }
    if b != null {
      WithoutExchanged(owners[b], s, r);
    }
  }

  lemma {:induction false} WithoutExchanged<T>(os: seq<T>, s: T, r: T)
    requires Distinct(os) && r !in os
    ensures Without(Exchanged(os, s, r), r) == Without(os, s)
  {
    if os == [] {
    } else {
      assert Exchanged(os, s, r)[1..] == Exchanged(os[1..], s, r);
      if os[0] == s {
        assert Exchanged(os[1..], s, r) == os[1..] by {
          forall i | 0 <= i < |os[1..]| ensures os[1..][i] != s && os[1..][i] != r {
            assert os[1..][i] == os[i + 1] && os[i + 1] in os;
          }
        }
      } else {
        WithoutExchanged(os[1..], s, r);
      }
    }
  }

  // ----- The heap

  class Heap {
    ghost var strings: set<String>   // every String alive
    ghost var created: set<Block>    // every block ever made
    ghost var owners: Owners         // the live blocks, each with its owners in list order

    ghost constructor ()
      ensures Valid() && NoOrphans() && strings == {} && created == {}
    {
      strings, created, owners := {}, {}, map[];
    }

    /** s sits at position i of b's list `os`, links and bit included. */
    ghost predicate Linked(b: Block, os: seq<String>, i: nat)
      requires i < |os|
      reads os[i]
    {
      && os[i].block == b
      && os[i].bit == (|os| == 1)
      && os[i].previous == (if i == 0 then null else os[i - 1])
      && os[i].next == (if i + 1 == |os| then null else os[i + 1])
    }

    ghost predicate BlockOk(b: Block, os: seq<String>)
      reads this, b, os
    {
      && b in created
      && !b.freed
      && b.first == (if os == [] then null else os[0])
      && Distinct(os)
      && forall i: nat {:trigger Linked(b, os, i)} :: i < |os| ==> Linked(b, os, i)
    }

    ghost predicate StringOk(s: String)
      reads this, s
    {
      if s.block == null then s.previous == null && s.next == null && !s.bit
      else s.block in owners && s in owners[s.block]
    }

    ghost predicate Valid()
      reads this, strings, created
    {
      && (forall b, s :: b in owners && s in owners[b] ==> s in strings)
      && (forall b :: b in owners ==> b in created && BlockOk(b, owners[b]))
      && (forall b :: b in created && b !in owners ==> b.freed)
      && (forall s :: s in strings ==> StringOk(s))
    }

    /** No block is kept without an owner; true between operations. */
    ghost predicate NoOrphans()
      reads this
    {
      forall b :: b in owners ==> owners[b] != []
    }
  }

  // ----- From the effect on single fields back to the heap invariant

  twostate predicate Same(x: String)
    reads x
  {
    x.block == old(x.block) && x.bit == old(x.bit) && x.previous == old(x.previous) && x.next == old(x.next)
  }

  twostate predicate SameBlock(b: Block)
    reads b
  {
    b.first == old(b.first) && b.freed == old(b.freed)
  }

  lemma MembersTagged(h: Heap, b: Block, os: seq<String>)
    requires h.BlockOk(b, os)
    ensures forall x :: x in os ==> x.block == b
  {
    forall x | x in os ensures x.block == b {
      var i: nat :| i < |os| && os[i] == x;
      assert h.Linked(b, os, i);
    }
  }

  /** A block none of whose owners changed is as good as before. */
  twostate lemma BlockKept(new h: Heap, new b: Block, new os: seq<String>)
    requires old(allocated(h)) && old(allocated(b)) && old(allocated(os))
    requires old(h.BlockOk(b, os)) && old(h.created) <= h.created && SameBlock(b)
    requires forall i: nat {:trigger os[i]} :: i < |os| ==> Same(os[i])
    ensures h.BlockOk(b, os)
  {
    forall i: nat | i < |os| ensures h.Linked(b, os, i) {
      assert old(h.Linked(b, os, i)) && Same(os[i]);
    }
  }

  /** The list of b is rebuilt around s; every other block and its owners are untouched. */
  twostate lemma ListRebuilt(new h: Heap, new b: Block, new s: String)
    requires old(allocated(h)) && old(allocated(b)) && old(allocated(s))
    requires old(h.Valid()) && s in old(h.strings) && old(s.block == null || s.block == b) && b in old(h.owners)
    requires h.strings == old(h.strings) && h.created == old(h.created)
    requires forall c :: c in h.created && c != b ==> SameBlock(c)
    requires forall x :: x in h.strings && x != s && old(x.block) != b ==> Same(x)
    requires b in h.owners ==> h.owners == old(h.owners)[b := h.owners[b]] && h.BlockOk(b, h.owners[b])
    requires b !in h.owners ==> h.owners == old(h.owners) - {b} && b.freed
    requires s.block == null ==> h.StringOk(s)
    requires b in h.owners ==> forall x :: x in h.owners[b] ==> x == s || x in old(h.owners)[b]
    requires b in h.owners && s.block != null ==> s.block == b && s in h.owners[b]
    requires b !in h.owners ==> s.block == null
    requires forall x :: x in old(h.owners)[b] && x != s ==> b in h.owners && x in h.owners[b]
    ensures h.Valid()
  {
    forall c | c in h.owners && c != b ensures h.BlockOk(c, h.owners[c]) {
      var os := old(h.owners)[c];
      assert old(h.BlockOk(c, h.owners[c]));
      assert forall x :: x in os ==> old(x.block) == c by { MembersTaggedBefore(h, c, os); }
      forall i: nat | i < |os| ensures Same(os[i]) {
        assert os[i] in os;
      }
      BlockKept(h, c, os);
    }
    if b in h.owners { MembersTagged(h, b, h.owners[b]); }
    forall x | x in h.strings ensures h.StringOk(x) {
      assert old(h.StringOk(x));
    }
  }

  twostate lemma MembersTaggedBefore(new h: Heap, new b: Block, new os: seq<String>)
    requires old(allocated(h)) && old(allocated(b)) && old(allocated(os))
    requires old(h.BlockOk(b, os))
    ensures forall x :: x in os ==> old(x.block) == b
  {
    forall x | x in os ensures old(x.block) == b {
      var i: nat :| i < |os| && os[i] == x;
      assert old(h.Linked(b, os, i));
    }
  }

  /** Effect of attach to a block: s in front, the old first owner linked back and no longer unique. */
  twostate lemma AttachOk(new h: Heap, new b: Block, new s: String)
    requires old(allocated(h)) && old(allocated(b)) && old(allocated(s))
    requires old(h.Valid()) && s in old(h.strings) && old(s.block) == null && b in old(h.owners)
    requires h.strings == old(h.strings) && h.created == old(h.created)
    requires h.owners == old(h.owners)[b := [s] + old(h.owners)[b]]
    requires forall c :: c in h.created && c != b ==> SameBlock(c)
    requires b.first == s && b.freed == old(b.freed)
    requires s.block == b && s.previous == null && s.next == old(b.first) && s.bit == (old(b.first) == null)
    requires forall x :: x in h.strings && x != s ==>
      if x == old(b.first) then x.block == old(x.block) && x.next == old(x.next) && x.previous == s && !x.bit
      else Same(x)
    ensures h.Valid()
  {
    var os := old(h.owners)[b];
    var now := [s] + os;
    MembersTaggedBefore(h, b, os);
    forall i: nat | i < |now| ensures h.Linked(b, now, i) {
      if i > 0 {
        assert now[i] == os[i - 1] && os[i - 1] in os;
        assert old(h.Linked(b, os, i - 1));
      }
    }
    ListRebuilt(h, b, s);
  }

  lemma FirstTagged(h: Heap, b: Block)
    requires h.Valid() && b in h.owners && b.first != null
    ensures b.first in h.strings && b.first.block == b
  {
    assert h.BlockOk(b, h.owners[b]) && h.Linked(b, h.owners[b], 0);
    assert h.owners[b][0] in h.owners[b];
  }

  lemma InPlace(h: Heap, s: String)
    requires h.Valid() && s in h.strings
    ensures s.PlacedIn(h)
    ensures s.block != null ==> s.block in h.owners && !s.block.freed
  {
    assert h.StringOk(s);
    if s.block != null {
      var b := s.block;
      assert h.BlockOk(b, h.owners[b]);
      var os := h.owners[b];
      var k: nat :| k < |os| && os[k] == s;
      MembersTagged(h, b, os);
      FirstTagged(h, b);
      assert h.Linked(b, os, k);
      if k > 0 { assert os[k - 1] in os; }
      if k + 1 < |os| { assert os[k + 1] in os; }
    }
  }

  lemma Unlisted(h: Heap, s: String)
    requires h.Valid() && s.block == null
    ensures forall b :: b in h.owners ==> s !in h.owners[b]
  {
    forall b | b in h.owners ensures s !in h.owners[b] {
      MembersTagged(h, b, h.owners[b]);
    }
  }

  /** Two strings of one block, or two without, have the same bit. */
  lemma CoOwnersAgree(h: Heap, s: String, t: String)
    requires h.Valid() && s in h.strings && t in h.strings && s.block == t.block
    ensures s.bit == t.bit
  {
    assert h.StringOk(s) && h.StringOk(t);
    if s.block != null {
      var os := h.owners[s.block];
      var j: nat :| j < |os| && os[j] == s;
      var k: nat :| k < |os| && os[k] == t;
      assert h.BlockOk(s.block, os) && h.Linked(s.block, os, j) && h.Linked(s.block, os, k);
    }
  }

  lemma Elsewhere(h: Heap, s: String)
    requires h.Valid()
    ensures forall b :: b in h.owners && b != s.block ==> s !in h.owners[b]
  {
    forall b | b in h.owners && b != s.block ensures s !in h.owners[b] {
      MembersTagged(h, b, h.owners[b]);
    }
  }

  twostate lemma RestLinked(new h: Heap, new b: Block, new os: seq<String>, k: nat)
    requires old(allocated(h)) && old(allocated(b)) && old(allocated(os))
    requires old(h.BlockOk(b, os)) && k < |os|
    requires b.first == (if k == 0 then old(os[k].next) else os[0])
    requires forall i: nat {:trigger os[i]} :: i < |os| && i != k ==>
      && os[i].block == b
      && os[i].next == (if i + 1 == k then old(os[k].next) else old(os[i].next))
      && os[i].previous == (if i == k + 1 then old(os[k].previous) else old(os[i].previous))
      && os[i].bit == (old(os[i].bit) || (os[i] == b.first && os[i].next == null))
    ensures forall i: nat {:trigger h.Linked(b, os[..k] + os[k + 1..], i)} ::
      i + 1 < |os| ==> h.Linked(b, os[..k] + os[k + 1..], i)
    ensures b.first == (if |os| == 1 then null else (os[..k] + os[k + 1..])[0])
  {
    var rest := os[..k] + os[k + 1..];
    assert old(h.Linked(b, os, k));
    if k == 0 && |os| > 1 { assert old(h.Linked(b, os, 1)); }
    forall i: nat | i < |rest| ensures h.Linked(b, rest, i) {
      var j: nat := if i < k then i else i + 1;
      assert rest[i] == os[j] && old(h.Linked(b, os, j));
    }
  }

  /** What detach does to the fields of the strings and blocks of the heap. */
  twostate predicate DetachEffect(h: Heap, b: Block, s: String)
    requires old(s.block) == b
    reads *
  {
    && (forall c :: c in old(h.created) && c != b ==> SameBlock(c))
    && b.first == (if old(s.previous) == null then old(s.next) else old(b.first))
    && (b.freed <==> b.first == null)
    && s.block == null && s.previous == null && s.next == null && !s.bit
    && (forall x :: x in old(h.strings) && x != s ==>
          && x.block == old(x.block)
          && x.next == (if x == old(s.previous) then old(s.next) else old(x.next))
          && x.previous == (if x == old(s.next) then old(s.previous) else old(x.previous))
          && x.bit == (old(x.bit) || (x == b.first && x.next == null)))
  }

  twostate lemma DetachInList(new h: Heap, new b: Block, new s: String, new os: seq<String>, k: nat)
    requires old(allocated(h)) && old(allocated(b)) && old(allocated(s)) && old(allocated(os))
    requires old(h.BlockOk(b, os)) && k < |os| && os[k] == s && old(s.block) == b
    requires DetachEffect(h, b, s) && forall x :: x in os ==> x in old(h.strings)
    ensures b.first == (if k == 0 then old(os[k].next) else os[0])
    ensures forall i: nat {:trigger os[i]} :: i < |os| && i != k ==>
      && os[i].block == b
      && os[i].next == (if i + 1 == k then old(os[k].next) else old(os[i].next))
      && os[i].previous == (if i == k + 1 then old(os[k].previous) else old(os[i].previous))
      && os[i].bit == (old(os[i].bit) || (os[i] == b.first && os[i].next == null))
  {
    assert old(h.Linked(b, os, k));
    MembersTaggedBefore(h, b, os);
    forall i: nat | i < |os| && i != k
      ensures os[i] in os && os[i] != s && (os[i] == old(s.previous) <==> i + 1 == k)
      ensures (os[i] == old(s.next) <==> i == k + 1)
    {
    }
  }

  /** Effect of detach: the neighbours linked to each other, and the one owner left, if only one, unique. */
  twostate lemma DetachOk(new h: Heap, new b: Block, new s: String)
    requires old(allocated(h)) && old(allocated(b)) && old(allocated(s))
    requires old(h.Valid()) && s in old(h.strings) && old(s.block) == b
    requires h.strings == old(h.strings) && h.created == old(h.created)
    requires h.owners == Detached(old(h.owners), b, s)
    requires DetachEffect(h, b, s)
    requires old(s.PlacedIn(h))
    ensures h.Valid()
  {
    assert old(h.StringOk(s)) && old(h.BlockOk(b, h.owners[b]));
    var os := old(h.owners)[b];
    var k: nat :| k < |os| && os[k] == s;
    WithoutAt(os, k);
    DetachInList(h, b, s, os, k);
    RestLinked(h, b, os, k);
    MembersTaggedBefore(h, b, os);
    ListRebuilt(h, b, s);
  }

  /** What swap does to the fields, for strings of different blocks, and move_from with a null target. */
  twostate predicate SwapEffect(h: Heap, s: String, t: String)
    reads *
  {
    && s != t
    && s.block == old(t.block) && s.bit == old(t.bit) && s.previous == old(t.previous) && s.next == old(t.next)
    && t.block == old(s.block) && t.bit == old(s.bit) && t.previous == old(s.previous) && t.next == old(s.next)
    && (forall x :: x in old(h.strings) && x != s && x != t ==>
          && x.block == old(x.block)
          && x.bit == old(x.bit)
          && x.next == (if x == old(s.previous) then t else if x == old(t.previous) then s else old(x.next))
          && x.previous == (if x == old(s.next) then t else if x == old(t.next) then s else old(x.previous)))
    && (forall b :: b in old(h.created) ==>
          && b.freed == old(b.freed)
          && b.first == (if b == old(s.block) && old(s.previous) == null then t
                         else if b == old(t.block) && old(t.previous) == null then s
                         else old(b.first)))
  }

  /** The neighbours of s in os, seen from its neighbours. */
  twostate lemma NeighbourPositions(new h: Heap, new b: Block, new os: seq<String>, new s: String, i: nat)
    requires old(allocated(h)) && old(allocated(b)) && old(allocated(os)) && old(allocated(s))
    requires old(h.BlockOk(b, os)) && i < |os|
    requires old(s.block) == b ==> s in os
    requires old(s.PlacedIn(h))
    ensures os[i] == old(s.previous) <==> i + 1 < |os| && os[i + 1] == s
    ensures os[i] == old(s.next) <==> i > 0 && os[i - 1] == s
    ensures old(s.block) == b ==> (old(s.previous) == null <==> os[0] == s)
  {
    assert old(h.Linked(b, os, i));
    if i > 0 { assert old(h.Linked(b, os, i - 1)); }
    if i + 1 < |os| { assert old(h.Linked(b, os, i + 1)); }
    if s in os {
      var k: nat :| k < |os| && os[k] == s;
      assert old(h.Linked(b, os, k));
    }
  }

  twostate lemma SwapInList(new h: Heap, new b: Block, new os: seq<String>, new s: String, new t: String)
    requires old(allocated(h)) && old(allocated(b)) && old(allocated(os)) && old(allocated(s)) && old(allocated(t))
    requires old(h.BlockOk(b, os)) && SwapEffect(h, s, t) && h.created == old(h.created)
    requires forall x :: x in os ==> x in old(h.strings)
    requires (old(s.block) == b ==> s in os) && (old(t.block) == b ==> t in os) && old(s.block) != old(t.block)
    requires old(s.PlacedIn(h)) && old(t.PlacedIn(h))
    ensures h.BlockOk(b, Exchanged(os, s, t))
  {
    var now := Exchanged(os, s, t);
    MembersTaggedBefore(h, b, os);
    forall i: nat | i < |now| ensures h.Linked(b, now, i) {
      assert os[i] in os && old(h.Linked(b, os, i));
      NeighbourPositions(h, b, os, s, i);
      NeighbourPositions(h, b, os, t, i);
    }
    if os != [] {
      assert old(h.Linked(b, os, 0)) && os[0] in os;
      NeighbourPositions(h, b, os, s, 0);
      NeighbourPositions(h, b, os, t, 0);
    }
  }

  twostate lemma SwappedStrings(new h: Heap, new s: String, new t: String)
    requires old(allocated(h)) && old(allocated(s)) && old(allocated(t))
    requires s in old(h.strings) && t in old(h.strings) && (forall x :: x in old(h.strings) ==> old(h.StringOk(x)))
    requires h.strings == old(h.strings) && h.owners == Swapped(old(h.owners), s, t) && SwapEffect(h, s, t)
    requires old(s.block) == null || old(t.block) == null || old(s.block) != old(t.block)
    requires old(s.PlacedIn(h)) && old(t.PlacedIn(h))
    ensures forall x :: x in h.strings ==> h.StringOk(x)
  {
    forall x | x in h.strings ensures h.StringOk(x) {
      var y := Other(x, s, t);
      assert old(h.StringOk(y));
      if x.block != null {
        var k: nat :| k < |old(h.owners)[x.block]| && old(h.owners)[x.block][k] == y;
        assert h.owners[x.block][k] == x;
      }
    }
  }

  twostate lemma SwapOk(new h: Heap, new s: String, new t: String)
    requires old(allocated(h)) && old(allocated(s)) && old(allocated(t))
    requires old(h.Valid()) && s in old(h.strings) && t in old(h.strings) && old(s.block) != old(t.block)
    requires h.strings == old(h.strings) && h.created == old(h.created) && h.owners == Swapped(old(h.owners), s, t)
    requires SwapEffect(h, s, t)
    requires old(s.PlacedIn(h)) && old(t.PlacedIn(h))
    ensures h.Valid()
  {
    assert old(h.StringOk(s)) && old(h.StringOk(t));
    forall b | b in h.owners ensures h.BlockOk(b, h.owners[b]) {
      assert old(h.BlockOk(b, h.owners[b]));
      SwapInList(h, b, old(h.owners)[b], s, t);
    }
    SwappedStrings(h, s, t);
  }

  /** As long as old strings and blocks keep their fields, every old list stays in order. */
  twostate lemma ListsKept(new h: Heap)
    requires old(allocated(h))
    requires old(h.Valid()) && old(h.created) <= h.created
    requires forall c :: c in old(h.created) ==> SameBlock(c)
    requires forall x :: x in old(h.strings) ==> Same(x)
    ensures forall c :: c in old(h.owners) ==> h.BlockOk(c, old(h.owners)[c])
  {
    forall c | c in old(h.owners) ensures h.BlockOk(c, old(h.owners)[c]) {
      var os := old(h.owners)[c];
      assert old(h.BlockOk(c, h.owners[c]));
      forall i: nat | i < |os| ensures Same(os[i]) {
        assert os[i] in os;
      }
      BlockKept(h, c, os);
    }
  }

  twostate lemma HeapKept(new h: Heap)
    requires old(allocated(h))
    requires old(h.Valid())
    requires h.strings == old(h.strings) && h.created == old(h.created) && h.owners == old(h.owners)
    requires forall c :: c in old(h.created) ==> SameBlock(c)
    requires forall x :: x in old(h.strings) ==> Same(x)
    ensures h.Valid()
  {
    ListsKept(h);
    forall x | x in h.strings ensures h.StringOk(x) {
      assert old(h.StringOk(x));
    }
  }

  twostate lemma StringAdded(new h: Heap, new s: String)
    requires old(allocated(h))
    requires old(h.Valid()) && fresh(s)
    requires h.strings == old(h.strings) + {s} && h.created == old(h.created) && h.owners == old(h.owners)
    requires s.block == null && s.previous == null && s.next == null && !s.bit
    requires forall c :: c in old(h.created) ==> SameBlock(c)
    requires forall x :: x in old(h.strings) ==> Same(x)
    ensures h.Valid()
  {
    ListsKept(h);
    forall x | x in h.strings ensures h.StringOk(x) {
      if x != s { assert old(h.StringOk(x)); }
    }
  }

  twostate lemma StringRemoved(new h: Heap, new s: String)
    requires old(allocated(h)) && old(allocated(s))
    requires old(h.Valid()) && s.block == null && old(s.block) == null
    requires h.strings == old(h.strings) - {s} && h.created == old(h.created) && h.owners == old(h.owners)
    requires forall b :: b in h.owners ==> s !in h.owners[b]
    requires forall c :: c in old(h.created) ==> SameBlock(c)
    requires forall x :: x in old(h.strings) ==> Same(x)
    ensures h.Valid()
  {
    ListsKept(h);
    forall x | x in h.strings ensures h.StringOk(x) {
      assert old(h.StringOk(x));
    }
  }

  twostate lemma BlockAdded(new h: Heap, new b: Block)
    requires old(allocated(h))
    requires old(h.Valid()) && fresh(b) && b.first == null && !b.freed
    requires h.strings == old(h.strings) && h.created == old(h.created) + {b} && h.owners == old(h.owners)[b := []]
    requires forall c :: c in old(h.created) ==> SameBlock(c)
    requires forall x :: x in old(h.strings) ==> Same(x)
    ensures h.Valid()
  {
    ListsKept(h);
    forall x | x in h.strings ensures h.StringOk(x) {
      assert old(h.StringOk(x));
    }
  }

  class String {
    var block: Block?
    var bit: bool
    var previous: String?
    var next: String?

    /** attach (132-150) */
    method Attach(ghost h: Heap, b: Block?)
      requires h.Valid() && this in h.strings && block == null
      requires b != null ==> b in h.owners
      modifies h`owners, h.strings, h.created
      ensures h.Valid()
      ensures h.owners == Attached(old(h.owners), b, this)
      ensures block == b && forall x :: x in h.strings && x != this ==> x.block == old(x.block)
    {
      assert h.StringOk(this);
      if b != null && b.first != null { FirstTagged(h, b); }
      block, bit := b, false;
      previous := null;
      next := null;
      if b == null {
        HeapKept(h);
      } else {
        var oldFirst := b.first;
        next := oldFirst;
        if oldFirst != null {
          oldFirst.previous := this;
          oldFirst.bit := false;
        }
        b.first := this;
        bit := oldFirst == null;
        h.owners := Attached(h.owners, b, this);
        AttachOk(h, b, this);
      }
    }

    /** The string stands in the list of its block, between its neighbours; or has no block and no links. */
    ghost predicate PlacedIn(h: Heap)
      reads this, h, previous, next, block, (if block != null && block.first != null then {block.first} else {})
    {
      if block == null then previous == null && next == null && !bit
      else
        && block in h.created && block.first != null && block.first in h.strings && block.first.block == block
        && (previous == null <==> block.first == this)
        && (previous != null ==>
              previous in h.strings && previous.block == block && previous != this && previous != next)
        && (next != null ==> next in h.strings && next.block == block && next != this)
    }

    /** detach (152-190), for a string with a block; deleting the block is marking it freed. */
    method Unlink(ghost h: Heap)
      requires this in h.strings && block != null && !block.freed && PlacedIn(h)
      modifies h.strings, h.created
      ensures DetachEffect(h, old(block), this)
    {
      var b := block;
      if previous != null {
        previous.next := next;
      } else {
        b.first := next;
      }
      if next != null {
        next.previous := previous;
      }
      block, bit := null, false;
      previous := null;
      next := null;

      if b.first == null {
        b.freed := true;
        return;
      }
      if b.first.next == null {
        b.first.bit := true;
      }
    }

    method Detach(ghost h: Heap)
      requires h.Valid() && this in h.strings
      modifies h`owners, h.strings, h.created
      ensures h.Valid()
      ensures h.owners == Detached(old(h.owners), old(block), this)
      ensures block == null && forall x :: x in h.strings && x != this ==> x.block == old(x.block)
    {
      if block == null {
        return;
      }
      ghost var b := block;
      InPlace(h, this);
      Unlink(h);
      h.owners := Detached(h.owners, b, this);
      DetachOk(h, b, this);
    }

    /** replace_owner (228-244): whoever pointed at the owner between `before` and `after` points at `replacement`. */
    static method ReplaceOwner(ghost h: Heap, b: Block?, before: String?, after: String?, replacement: String)
      requires b != null ==> b in h.created
      requires b == null ==> before == null && after == null
      requires before != null ==> before in h.strings
      requires after != null ==> after in h.strings
      modifies h.strings, h.created
      ensures forall x :: x in h.strings ==>
        && x.block == old(x.block) && x.bit == old(x.bit)
        && x.next == (if x == before then replacement else old(x.next))
        && x.previous == (if x == after then replacement else old(x.previous))
      ensures forall c :: c in h.created ==>
        c.freed == old(c.freed) && c.first == (if c == b && before == null then replacement else old(c.first))
    {
      if b == null {
        return;
      }
      if before != null {
        before.next := replacement;
      } else {
        b.first := replacement;
      }
      if after != null {
        after.previous := replacement;
      }
    }

    method Install(b: Block?, unique: bool, before: String?, after: String?)
      modifies this
      ensures block == b && bit == unique && previous == before && next == after
    {
      block, bit := b, unique;
      previous := before;
      next := after;
    }

    /** swap (106-122): each string takes over the links, the block and the bit of the other. */
    method TradePlaces(ghost h: Heap, other: String)
      requires this in h.strings && other in h.strings && block != other.block
      requires PlacedIn(h) && other.PlacedIn(h)
      modifies h.strings, h.created
      ensures SwapEffect(h, this, other)
    {
      var thisBlock, otherBlock := block, other.block;
      var thisBit, otherBit := bit, other.bit;
      var thisPrevious, thisNext := previous, next;
      var otherPrevious, otherNext := other.previous, other.next;

      ReplaceOwner(h, thisBlock, thisPrevious, thisNext, other);
      ReplaceOwner(h, otherBlock, otherPrevious, otherNext, this);

      Install(otherBlock, otherBit, otherPrevious, otherNext);
      other.Install(thisBlock, thisBit, thisPrevious, thisNext);
    }

    /** swap (95-123) */
    method Swap(ghost h: Heap, other: String)
      requires h.Valid() && this in h.strings && other in h.strings
      modifies h`owners, h.strings, h.created
      ensures h.Valid()
      ensures h.owners == if old(block) == old(other.block) then old(h.owners) else Swapped(old(h.owners), this, other)
      ensures block == old(other.block) && other.block == old(block)
      ensures bit == old(other.bit) && other.bit == old(bit)
      ensures forall x :: x in h.strings && x != this && x != other ==> x.block == old(x.block) && x.bit == old(x.bit)
    {
      if this == other || block == other.block {
        CoOwnersAgree(h, this, other);
        return;
      }
      InPlace(h, this);
      InPlace(h, other);
      TradePlaces(h, other);
      h.owners := Swapped(h.owners, this, other);
      SwapOk(h, this, other);
    }

    /** move_from (192-204), for a string that has no block itself */
    method TakePlace(ghost h: Heap, other: String)
      requires this in h.strings && other in h.strings && this != other
      requires block == null && PlacedIn(h) && other.PlacedIn(h)
      modifies h.strings, h.created
      ensures SwapEffect(h, this, other)
    {
      Install(other.block, other.bit, other.previous, other.next);
      other.Install(null, false, null, null);
      if block == null {
        return;
      }
      ReplaceOwner(h, block, previous, next, this);
    }

    method MoveFrom(ghost h: Heap, other: String)
      requires h.Valid() && this in h.strings && other in h.strings && this != other && block == null
      modifies h`owners, h.strings, h.created
      ensures h.Valid()
      ensures h.owners == Swapped(old(h.owners), this, other)
      ensures block == old(other.block) && other.block == null
      ensures forall x :: x in h.strings && x != this && x != other ==> x.block == old(x.block)
    {
      InPlace(h, this);
      InPlace(h, other);
      if other.block != null {
        TakePlace(h, other);
        h.owners := Swapped(h.owners, this, other);
        SwapOk(h, this, other);
      } else {
        Unlisted(h, this);
        Unlisted(h, other);
        SwappedAbsent(h.owners, this, other);
        TakePlace(h, other);
        HeapKept(h);
      }
    }

    // ----- Construction and destruction (43-55; string.hpp 20-25, 121-127)

    constructor Default(ghost h: Heap)
      requires h.Valid()
      modifies h`strings
      ensures h.Valid() && h.strings == old(h.strings) + {this}
      ensures block == null
    {
      block, bit, previous, next := null, false, null, null;
      new;
      h.strings := h.strings + {this};
      StringAdded(h, this);
    }

    constructor FromView(ghost h: Heap, p: CharPointer, length: nat)
      requires h.Valid() && p.Readable() && length <= |p.Chars()|
      modifies h, h.strings, h.created
      ensures h.Valid() && h.strings == old(h.strings) + {this}
      ensures block != null && fresh(block) && block.data == old(p.Chars())[..length] + "\0"
      ensures h.owners == old(h.owners)[block := [this]]
      ensures h.created == old(h.created) + {block}
      ensures forall x :: x in old(h.strings) ==> x.block == old(x.block)
    {
      block, bit, previous, next := null, false, null, null;
      new;
      h.strings := h.strings + {this};
      StringAdded(h, this);
      var b := MakeBlock(h, p, length);
      Attach(h, b);
      assert [this] + [] == [this];
    }

    constructor FromText(ghost h: Heap, p: CharPointer)
      requires h.Valid() && p.Readable()
      modifies h, h.strings, h.created
      ensures h.Valid() && h.strings == old(h.strings) + {this}
      ensures p.Null? ==> block == null && h.owners == old(h.owners) && h.created == old(h.created)
      ensures !p.Null? ==>
        && block != null && fresh(block) && block.data == CStr(old(p.Chars())) + "\0"
        && h.owners == old(h.owners)[block := [this]]
        && h.created == old(h.created) + {block}
      ensures forall x :: x in old(h.strings) ==> x.block == old(x.block)
    {
      block, bit, previous, next := null, false, null, null;
      new;
      h.strings := h.strings + {this};
      StringAdded(h, this);
      if !p.Null? {
        var b := MakeBlock(h, p, |CStr(p.Chars())|);
        Attach(h, b);
        assert [this] + [] == [this];
      }
    }

    constructor Copy(ghost h: Heap, other: String)
      requires h.Valid() && other in h.strings
      modifies h, h.strings, h.created
      ensures h.Valid() && h.strings == old(h.strings) + {this} && h.created == old(h.created)
      ensures h.owners == Attached(old(h.owners), old(other.block), this)
      ensures block == old(other.block)
      ensures forall x :: x in old(h.strings) ==> x.block == old(x.block)
    {
      block, bit, previous, next := null, false, null, null;
      new;
      h.strings := h.strings + {this};
      StringAdded(h, this);
      assert h.StringOk(other);
      Attach(h, other.block);
    }

    constructor Move(ghost h: Heap, other: String)
      requires h.Valid() && other in h.strings
      modifies h, h.strings, h.created
      ensures h.Valid() && h.strings == old(h.strings) + {this} && h.created == old(h.created)
      ensures h.owners == Swapped(old(h.owners), this, other)
      ensures block == old(other.block) && other.block == null
      ensures forall x :: x in old(h.strings) && x != other ==> x.block == old(x.block)
    {
      block, bit, previous, next := null, false, null, null;
      new;
      h.strings := h.strings + {this};
      StringAdded(h, this);
      MoveFrom(h, other);
    }

    /** make_block (206-218) */
    static method MakeBlock(ghost h: Heap, p: CharPointer, length: nat) returns (b: Block)
      requires h.Valid() && p.Readable() && length <= |p.Chars()|
      modifies h`owners, h`created
      ensures h.Valid()
      ensures fresh(b) && b.data == p.Chars()[..length] + "\0" && !b.freed
      ensures h.owners == old(h.owners)[b := []] && h.created == old(h.created) + {b}
    {
      b := new Block(p.Chars()[..length]);
      h.created := h.created + {b};
      h.owners := h.owners[b := []];
      BlockAdded(h, b);
    }

    method Destroy(ghost h: Heap)
      requires h.Valid() && this in h.strings
      modifies h, h.strings, h.created
      ensures h.Valid() && h.strings == old(h.strings) - {this} && h.created == old(h.created)
      ensures h.owners == Detached(old(h.owners), old(block), this)
      ensures block == null && forall x :: x in h.strings ==> x.block == old(x.block)
    {
      Detach(h);
      label Detached:
      Unlisted(h, this);
      h.strings := h.strings - {this};
      StringRemoved@Detached(h, this);
    }

    // ----- Assignment (57-93; string.hpp 133-135)

    method Reset(ghost h: Heap)
      requires h.Valid() && this in h.strings
      modifies h`owners, h.strings, h.created
      ensures h.Valid() && block == null
      ensures h.owners == Detached(old(h.owners), old(block), this)
      ensures forall x :: x in h.strings && x != this ==> x.block == old(x.block)
    {
      Detach(h);
    }

    /** The replacement takes this string's place and is destroyed. */
    method TakeReplacement(ghost h: Heap, ghost before: Owners, replacement: String)
      requires h.Valid() && this in h.strings && replacement in h.strings && this != replacement
      requires replacement.block != null && replacement.block != block
      requires h.owners == before[replacement.block := [replacement]] && replacement.block !in before
      modifies h, h.strings, h.created
      ensures h.Valid() && h.strings == old(h.strings) - {replacement} && h.created == old(h.created)
      ensures block == old(replacement.block)
      ensures old(block) != null ==> old(block) in before
      ensures h.owners == Detached(before, old(block), this)[block := [this]]
      ensures forall x :: x in h.strings && x != this ==> x.block == old(x.block)
    {
      ghost var b := block;
      assert h.StringOk(this) && h.StringOk(replacement);
      Elsewhere(h, this);
      Elsewhere(h, replacement);
      if b != null { assert h.BlockOk(b, h.owners[b]); }
      assert forall c :: c in before ==> c in h.owners && c != replacement.block && h.owners[c] == before[c];
      ReplacementLists(before, b, this, replacement, replacement.block);
      Swap(h, replacement);
      replacement.Destroy(h);
    }

    /** operator=(const char*) (57-66).  The characters may lie in a block this string owns. */
    method AssignText(ghost h: Heap, p: CharPointer)
      requires h.Valid() && this in h.strings && p.Readable()
      modifies h, h.strings, h.created
      ensures h.Valid() && h.strings == old(h.strings)
      ensures p.Null? ==>
        block == null && h.owners == Detached(old(h.owners), old(block), this) && h.created == old(h.created)
      ensures !p.Null? ==>
        && block != null && fresh(block) && block.data == CStr(old(p.Chars())) + "\0"
        && h.owners == Detached(old(h.owners), old(block), this)[block := [this]]
        && h.created == old(h.created) + {block}
      ensures forall x :: x in h.strings && x != this ==> x.block == old(x.block)
    {
      if p.Null? {
        Reset(h);
        return;
      }
      assert h.StringOk(this);
      var replacement := new String.FromText(h, p);
      TakeReplacement(h, old(h.owners), replacement);
    }

    /** operator=(std::string_view) (68-72) and operator=(const std::string&) */
    method AssignView(ghost h: Heap, p: CharPointer, length: nat)
      requires h.Valid() && this in h.strings && p.Readable() && length <= |p.Chars()|
      modifies h, h.strings, h.created
      ensures h.Valid() && h.strings == old(h.strings)
      ensures block != null && fresh(block) && block.data == old(p.Chars())[..length] + "\0"
      ensures h.owners == Detached(old(h.owners), old(block), this)[block := [this]]
      ensures h.created == old(h.created) + {block}
      ensures forall x :: x in h.strings && x != this ==> x.block == old(x.block)
    {
      assert h.StringOk(this);
      var replacement := new String.FromView(h, p, length);
      TakeReplacement(h, old(h.owners), replacement);
    }

    /** operator=(const String&) (74-83) */
    method AssignCopy(ghost h: Heap, other: String)
      requires h.Valid() && this in h.strings && other in h.strings
      modifies h`owners, h.strings, h.created
      ensures h.Valid()
      ensures block == old(other.block) && forall x :: x in h.strings && x != this ==> x.block == old(x.block)
      ensures old(block) == old(other.block) ==> h.owners == old(h.owners)
      ensures old(block) != old(other.block) ==>
        && (old(other.block) != null ==> old(other.block) in Detached(old(h.owners), old(block), this))
        && h.owners == Attached(Detached(old(h.owners), old(block), this), old(other.block), this)
    {
      if this == other || block == other.block {
        return;
      }
      assert h.StringOk(this) && h.StringOk(other);
      var newBlock := other.block;
      Detach(h);
      Attach(h, newBlock);
    }

    /** operator=(String&&) (85-93); the two may own the same block. */
    method AssignMove(ghost h: Heap, other: String)
      requires h.Valid() && this in h.strings && other in h.strings
      modifies h`owners, h.strings, h.created
      ensures h.Valid()
      ensures this == other ==> h.owners == old(h.owners) && block == old(block)
      ensures this != other ==>
        && block == old(other.block) && other.block == null
        && h.owners == Swapped(Detached(old(h.owners), old(block), this), this, other)
      ensures forall x :: x in h.strings && x != this && x != other ==> x.block == old(x.block)
    {
      if this == other {
        return;
      }
      assert h.StringOk(this);
      Detach(h);
      MoveFrom(h, other);
    }
  }
}
