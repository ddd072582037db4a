/** operator== and operator< of String (string.hpp 175-212), and their order-theoretic meaning. */
module StringOrder {
  import opened CString
  import opened OwnerHeap

  /** What a String compares as: nothing, or its text up to the first NUL. */
  type Key = Option<string>

  function KeyOf(b: Block?): Key {
    if b == null then None else Some(CStr(b.data))
  }

  predicate Equal(a: Block?, b: Block?)
  {
    if a == null || b == null then a == b else StrCmp(a.data, b.data) == 0
  }

  predicate Less(a: Block?, b: Block?)
  {
    if a == null || b == null then a == null && b != null else StrCmp(a.data, b.data) < 0
  }

  /** The order on keys that operator< implements: null first, then lexicographic. */
  predicate KeyLess(a: Key, b: Key) {
    if a.None? || b.None? then a.None? && b.Some? else LexLess(a.value, b.value)
  }

  lemma ComparisonsByKey(a: Block?, b: Block?)
    ensures Less(a, b) <==> KeyLess(KeyOf(a), KeyOf(b))
    ensures Equal(a, b) <==> KeyOf(a) == KeyOf(b)
  {
    if a != null && b != null { StrCmpIsLex(a.data, b.data); }
  }

  lemma KeyLessTransitive(a: Key, b: Key, c: Key)
    requires KeyLess(a, b) && KeyLess(b, c)
    ensures KeyLess(a, c)
  {
    if a.Some? { LexLessTransitive(a.value, b.value, c.value); }
  }

  lemma KeyLessTotal(a: Key, b: Key)
    ensures !(KeyLess(a, b) && KeyLess(b, a)) && !KeyLess(a, a)
    ensures KeyLess(a, b) || KeyLess(b, a) || a == b
  {
    if a.Some? && b.Some? { LexLessTotal(a.value, b.value); }
    if a.Some? { LexLessTotal(a.value, a.value); }
  }

  /** operator< is a strict weak order, with null below every text, and two Strings neither of which is
      less are exactly those that operator== calls equal. */
  lemma LessIsStrictWeakOrder(a: Block?, b: Block?, c: Block?)
    ensures !Less(a, a)
    ensures Less(a, b) && Less(b, c) ==> Less(a, c)
    ensures !Less(a, b) && !Less(b, a) <==> Equal(a, b)
    ensures Equal(a, b) && Equal(b, c) ==> Equal(a, c)
    ensures b != null ==> Less(null, b)
  {
    ComparisonsByKey(a, a);
    ComparisonsByKey(a, b);
    ComparisonsByKey(b, a);
    ComparisonsByKey(b, c);
    ComparisonsByKey(a, c);
    KeyLessTotal(KeyOf(a), KeyOf(b));
    if Less(a, b) && Less(b, c) { KeyLessTransitive(KeyOf(a), KeyOf(b), KeyOf(c)); }
  }
}
