/** NUL-terminated text: reading it, and comparing it the way strcmp does. */
module CString {

  datatype Option<+T> = None | Some(value: T)

  /** The text up to the first NUL: what every observer of a const char* sees. */
  function CStr(data: string): (r: string)
    ensures |r| <= |data| && r == data[..|r|]
    ensures '\0' !in r
    ensures |r| < |data| ==> data[|r|] == '\0'
  {
    if data == [] || data[0] == '\0' then "" else [data[0]] + CStr(data[1..])
  }

  /** Memory a const char* may point into: it holds a terminator. */
  type Terminated = data: string | '\0' in data witness "\0"

  /** strcmp, character by character; the sign of the result is all that is used. */
  function StrCmp(a: Terminated, b: Terminated): int
    decreases |a|
  {
    if a[0] != b[0] then (if a[0] < b[0] then -1 else 1)
    else if a[0] == '\0' then 0
    else StrCmp(a[1..], b[1..])
  }

  /** Lexicographic order of texts without NUL. */
  predicate LexLess(a: string, b: string) {
    if b == [] then false
    else if a == [] then true
    else a[0] < b[0] || (a[0] == b[0] && LexLess(a[1..], b[1..]))
  }

  /** b has the first character at which the two differ, and a greater one there, or a ends before. */
  ghost predicate SmallerAt(a: string, b: string, k: nat) {
    && k <= |a| && k < |b| && a[..k] == b[..k]
    && (k == |a| || a[k] < b[k])
  }

  lemma SameFirst(a: string, b: string, k: nat)
    requires SmallerAt(a, b, k) && k > 0
    ensures a != [] && a[0] == b[0] && SmallerAt(a[1..], b[1..], k - 1)
  {
    assert a[0] == a[..k][0] && b[0] == b[..k][0];
    assert a[1..][..k - 1] == a[..k][1..] && b[1..][..k - 1] == b[..k][1..];
  }

  lemma SameFirstBack(a: string, b: string, k: nat)
    requires a != [] && b != [] && a[0] == b[0] && SmallerAt(a[1..], b[1..], k)
    ensures SmallerAt(a, b, k + 1)
  {
    assert a[..k + 1] == [a[0]] + a[1..][..k] && b[..k + 1] == [b[0]] + b[1..][..k];
  }

  /** Lexicographic order, upwards: the first difference decides, and a prefix comes first. */
  lemma {:induction false} LexLessIff(a: string, b: string)
    ensures LexLess(a, b) <==> exists k: nat :: SmallerAt(a, b, k)
  {
    if LexLess(a, b) {
      if a != [] && a[0] == b[0] {
        LexLessIff(a[1..], b[1..]);
        var k: nat :| SmallerAt(a[1..], b[1..], k);
        SameFirstBack(a, b, k);
      } else {
        assert SmallerAt(a, b, 0);
      }
    }
    if k: nat :| SmallerAt(a, b, k) {
      if k > 0 {
        SameFirst(a, b, k);
        LexLessIff(a[1..], b[1..]);
      }
    }
  }

  /** strcmp is negative exactly if the first text is the smaller one at the first difference. */
  lemma StrCmpMeans(a: Terminated, b: Terminated)
    ensures StrCmp(a, b) < 0 <==> exists k: nat :: SmallerAt(CStr(a), CStr(b), k)
    ensures StrCmp(a, b) == 0 <==> CStr(a) == CStr(b)
  {
    StrCmpIsLex(a, b);
    LexLessIff(CStr(a), CStr(b));
  }

  lemma {:induction false} StrCmpIsLex(a: Terminated, b: Terminated)
    ensures StrCmp(a, b) < 0 <==> LexLess(CStr(a), CStr(b))
    ensures StrCmp(a, b) == 0 <==> CStr(a) == CStr(b)
    decreases |a|
  {
    if a[0] == b[0] && a[0] != '\0' {
      StrCmpIsLex(a[1..], b[1..]);
      assert CStr(a)[1..] == CStr(a[1..]) && CStr(b)[1..] == CStr(b[1..]);
      if CStr(a[1..]) == CStr(b[1..]) { assert CStr(a) == CStr(b); }
    }
  }

  lemma {:induction false} LexLessTransitive(a: string, b: string, c: string)
    requires LexLess(a, b) && LexLess(b, c)
    ensures LexLess(a, c)
  {
    if a != [] && a[0] == b[0] && b[0] == c[0] {
      LexLessTransitive(a[1..], b[1..], c[1..]);
    }
  }

  lemma {:induction false} LexLessTotal(a: string, b: string)
    ensures !(LexLess(a, b) && LexLess(b, a))
    ensures LexLess(a, b) || LexLess(b, a) || a == b
  {
    if a != [] && b != [] {
      LexLessTotal(a[1..], b[1..]);
    }
  }
}
