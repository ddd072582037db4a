/** Machine words and the mask arithmetic of the pools: x & ~(a - 1) for a power of two a. */
module Bits {

  const WORD: nat := 0x1_0000_0000_0000_0000

  type Word = x: nat | x < WORD

  type PositiveWord = x: Word | x > 0 witness 1

  function Pow2(k: nat): (r: nat)
    ensures r > 0
  {
    if k == 0 then 1 else 2 * Pow2(k - 1)
  }

  ghost predicate PowerOfTwo(a: nat) { exists k: nat :: a == Pow2(k) }

  /** Bitwise and. */
  function And(x: nat, y: nat): (r: nat)
    ensures r <= x && r <= y
  {
    if x == 0 || y == 0 then 0 else 2 * And(x / 2, y / 2) + (if x % 2 == 1 && y % 2 == 1 then 1 else 0)
  }

  /** ~x on a machine word. */
  function Not(x: Word): Word { WORD - 1 - x }

  /** Unsigned arithmetic wraps. */
  function Add(x: Word, y: Word): Word { (x + y) % WORD }

  function Sub(x: Word, y: Word): Word { (x + WORD - y) % WORD }

  lemma WordIsPow2() returns (n: nat)
    ensures Pow2(n) == WORD
  {
    n := 8;
    assert Pow2(n) == 256;
    Pow2Add(n, n);
    Pow2Add(n + n, n + n);
    Pow2Add(n + n + n + n, n + n + n + n);
    n := 8 * n;
  }

  lemma {:induction false} Pow2Add(j: nat, k: nat)
    ensures Pow2(j + k) == Pow2(j) * Pow2(k)
  {
    if j > 0 { Pow2Add(j - 1, k); }
  }

  lemma {:induction false} Pow2Monotone(j: nat, k: nat)
    requires j <= k
    ensures Pow2(j) <= Pow2(k)
  {
    if j < k { Pow2Monotone(j, k - 1); }
  }

  /** A smaller power of two divides a larger one. */
  lemma Divides(a: nat, b: nat)
    requires PowerOfTwo(a) && PowerOfTwo(b) && a <= b
    ensures b % a == 0
  {
    var j: nat :| a == Pow2(j);
    var k: nat :| b == Pow2(k);
    if k < j {
      Pow2Monotone(k, j - 1);
    } else {
      Pow2Add(k - j, j);
      MultipleModZero(Pow2(k - j), a);
    }
  }

  lemma MultipleModZero(q: int, a: nat)
    requires a > 0
    ensures (q * a) % a == 0
  {
    ModUnique(q * a, a, q, 0);
  }

  lemma ModUnique(x: int, a: nat, q: int, r: int)
    requires a > 0 && x == q * a + r && 0 <= r < a
    ensures x % a == r && x / a == q
  {
    var d := x / a - q;
    assert d * a == r - x % a;
    if d >= 1 { AtLeastOnce(d, a); }
    if d <= -1 { AtLeastOnce(-d, a); }
  }

  lemma AtLeastOnce(d: int, a: int)
    requires d >= 1 && a > 0
    ensures d * a >= a && (-d) * a <= -a
  {
    assert d * a == a + (d - 1) * a;
  }

  /** Alignment passes to divisors. */
  lemma ModTrans(x: int, a: nat, b: nat)
    requires a > 0 && b > 0 && b % a == 0 && x % b == 0
    ensures x % a == 0
  {
    var q, p := x / b, b / a;
    assert x == q * b && b == p * a;
    assert x == (q * p) * a;
    MultipleModZero(q * p, a);
  }

  lemma ModSum(x: int, y: int, a: nat)
    requires a > 0 && x % a == 0 && y % a == 0
    ensures (x + y) % a == 0 && (x - y) % a == 0
  {
    var p, q := x / a, y / a;
    assert x == p * a && y == q * a;
    assert x + y == (p + q) * a && x - y == (p - q) * a;
    MultipleModZero(p + q, a);
    MultipleModZero(p - q, a);
  }

  /** Multiples of a are at least a apart. */
  lemma MultiplesApart(x: int, y: int, a: nat)
    requires a > 0 && x % a == 0 && y % a == 0 && x > y - a
    ensures x >= y
  {
    ModSum(y, x, a);
    if x < y { ModUnique(y - x, a, 0, y - x); }
  }

  // ----- The mask

  lemma {:induction false} AndOnes(x: nat, n: nat)
    requires x < Pow2(n)
    ensures And(x, Pow2(n) - 1) == x
  {
    if x != 0 {
      assert (Pow2(n) - 1) / 2 == Pow2(n - 1) - 1;
      AndOnes(x / 2, n - 1);
    }
  }

  lemma ModDouble(x: nat, h: nat)
    requires h > 0
    ensures x % (2 * h) == 2 * ((x / 2) % h) + x % 2
  {
    var y := x / 2;
    var q, r := y / h, y % h;
    assert y == q * h + r;
    assert x == 2 * y + x % 2;
    assert x == q * (2 * h) + (2 * r + x % 2);
    ModUnique(x, 2 * h, q, 2 * r + x % 2);
  }

  lemma AndEven(x: nat, z: nat)
    ensures And(x, 2 * z) == 2 * And(x / 2, z)
  {
    assert (2 * z) / 2 == z && (2 * z) % 2 == 0;
  }

  lemma {:induction false} AndHighOnes(x: nat, k: nat, n: nat)
    requires x < Pow2(n) && k <= n
    ensures Pow2(k) <= Pow2(n) && And(x, Pow2(n) - Pow2(k)) == x - x % Pow2(k)
  {
    Pow2Monotone(k, n);
    if k == 0 {
      AndOnes(x, n);
    } else {
      AndHighOnes(x / 2, k - 1, n - 1);
      ModDouble(x, Pow2(k - 1));
      AndEven(x, Pow2(n - 1) - Pow2(k - 1));
    }
  }

  lemma MaskIsMod(x: Word, a: PositiveWord)
    requires PowerOfTwo(a)
    ensures And(x, Not(a - 1)) == x - x % a
  {
    var k: nat :| a == Pow2(k);
    var n := WordIsPow2();
    if k >= n { Pow2Monotone(n, k); }
    AndHighOnes(x, k, n);
  }

  lemma DownToMultiple(x: nat, a: nat)
    requires a > 0
    ensures (x - x % a) % a == 0 && x < x - x % a + a
  {
    assert x - x % a == (x / a) * a;
    MultipleModZero(x / a, a);
  }

  /** x & ~(a - 1) rounds x down to a multiple of the power of two a. */
  lemma MaskRoundsDown(x: Word, a: PositiveWord)
    requires PowerOfTwo(a)
    ensures And(x, Not(a - 1)) == x - x % a
    ensures And(x, Not(a - 1)) % a == 0 && x - a < And(x, Not(a - 1)) <= x
  {
    MaskIsMod(x, a);
    DownToMultiple(x, a);
  }
}
