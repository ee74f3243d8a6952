/** Lexicographic order on strings: the order C's strcmp induces on the
    NUL-free strings a queue stores. Strings are modelled without their
    terminator. */
module StrOrder {

  /** The sign of strcmp(a, b): -1, 0 or 1 as `a` sorts before, equal to or
      after `b`. A proper prefix sorts first, because the terminating NUL of
      the shorter string is below every character of the longer one. */
  function Compare(a: string, b: string): (r: int)
    ensures -1 <= r <= 1
    ensures r == 0 <==> a == b
  {
    if |a| == 0 then (if |b| == 0 then 0 else -1)
    else if |b| == 0 then 1
    else if a[0] < b[0] then -1
    else if b[0] < a[0] then 1
    else
      assert a == [a[0]] + a[1..] && b == [b[0]] + b[1..];
      Compare(a[1..], b[1..])
  }

  predicate LessEq(a: string, b: string) {
    Compare(a, b) <= 0
  }

  /** Swapping the arguments of strcmp flips the sign of its result. */
  lemma {:induction false} CompareFlip(a: string, b: string)
    ensures Compare(b, a) == -Compare(a, b)
    decreases |a|
  {
    if |a| > 0 && |b| > 0 && a[0] == b[0] {
      CompareFlip(a[1..], b[1..]);
    }
  }

  /** The order is total: of two strings, one sorts no later than the other. */
  lemma LessEqTotal(a: string, b: string)
    ensures LessEq(a, b) || LessEq(b, a)
  {
    CompareFlip(a, b);
  }

  /** Two strings that each sort no later than the other are equal. */
  lemma LessEqAntisymmetric(a: string, b: string)
    requires LessEq(a, b) && LessEq(b, a)
    ensures a == b
  {
    CompareFlip(a, b);
  }

  /** The order is transitive. */
  lemma {:induction false} LessEqTransitive(a: string, b: string, c: string)
    requires LessEq(a, b) && LessEq(b, c)
    ensures LessEq(a, c)
    decreases |a|
  {
    if |a| > 0 && |b| > 0 && |c| > 0 && a[0] == b[0] && b[0] == c[0] {
      LessEqTransitive(a[1..], b[1..], c[1..]);
    }
  }

  /** A non-strict step followed by a strict one is strict. */
  lemma LessEqThenLess(a: string, b: string, c: string)
    requires LessEq(a, b) && Compare(b, c) < 0
    ensures Compare(a, c) < 0
  {
    LessEqTransitive(a, b, c);
    if a == c {
      LessEqAntisymmetric(b, c);
    }
  }
}
