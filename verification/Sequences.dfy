/** Facts about sequences that several modules use. */
module Sequences {

  /** No element occurs twice. */
  ghost predicate Distinct<T>(xs: seq<T>) {
    forall i, j :: 0 <= i < j < |xs| ==> xs[i] != xs[j]
  }

  ghost function SetOf<T>(xs: seq<T>): set<T> { set x | x in xs }

  lemma Joined<T>(a: seq<T>, b: seq<T>, c: seq<T>)
    ensures (a + b) + c == a + (b + c)
  {
  }

  /** Taking one element out of a sequence without repetitions takes it out of its set. */
  lemma OneGone<T>(xs: seq<T>, i: nat)
    requires Distinct(xs) && i < |xs|
    ensures var rest := xs[..i] + xs[i + 1..];
            Distinct(rest) && SetOf(rest) == SetOf(xs) - {xs[i]}
  {
    var rest := xs[..i] + xs[i + 1..];
    forall x | x in xs && x != xs[i] ensures x in rest {
      var k :| 0 <= k < |xs| && xs[k] == x;
      assert rest[if k < i then k else k - 1] == x;
    }
  }
}
