/** Sums of a per-element quantity over a sequence, taken from the front to the back
    as a running total does. */
module Sums {

  function SumOf<T>(s: seq<T>, f: T -> int): int {
    if s == [] then 0 else SumOf(s[..|s| - 1], f) + f(s[|s| - 1])
  }

  /** One more element adds its own quantity. */
  lemma SumOfSnoc<T>(s: seq<T>, x: T, f: T -> int)
    ensures SumOf(s + [x], f) == SumOf(s, f) + f(x)
  {
    assert (s + [x])[..|s|] == s;
  }

  /** A sum over a concatenation is the sum of the two sums. */
  lemma {:induction false} SumOfAppend<T>(a: seq<T>, b: seq<T>, f: T -> int)
    ensures SumOf(a + b, f) == SumOf(a, f) + SumOf(b, f)
    decreases |b|
  {
    if b != [] {
      var b' := b[..|b| - 1];
      assert b == b' + [b[|b| - 1]];
      SumOfSnoc(b', b[|b| - 1], f);
      assert a + b == (a + b') + [b[|b| - 1]];
      SumOfSnoc(a + b', b[|b| - 1], f);
      SumOfAppend(a, b', f);
      assert SumOf(a + b, f) == SumOf(a + b', f) + f(b[|b| - 1]);
    } else {
      assert a + b == a;
    }
  }

  /** Pointwise bounds carry over to the sums. */
  lemma {:induction false} SumOfMonotone<T>(s: seq<T>, f: T -> int, g: T -> int)
    requires forall i :: 0 <= i < |s| ==> f(s[i]) <= g(s[i])
    ensures SumOf(s, f) <= SumOf(s, g)
  {
    if s != [] {
      var init := s[..|s| - 1];
      assert forall i :: 0 <= i < |init| ==> init[i] == s[i];
      SumOfMonotone(init, f, g);
    }
  }

  /** A sum of non-negative quantities is 0 exactly when every quantity is. */
  lemma {:induction false} SumOfZero<T>(s: seq<T>, f: T -> int)
    requires forall i :: 0 <= i < |s| ==> f(s[i]) >= 0
    ensures SumOf(s, f) >= 0
    ensures SumOf(s, f) == 0 <==> forall i :: 0 <= i < |s| ==> f(s[i]) == 0
  {
    if s != [] {
      var init := s[..|s| - 1];
      assert forall i :: 0 <= i < |init| ==> init[i] == s[i];
      SumOfZero(init, f);
    }
  }

  /** A constant factor comes out of the sum. */
  lemma {:induction false} SumOfScale<T>(s: seq<T>, f: T -> int, g: T -> int, c: int)
    requires forall i :: 0 <= i < |s| ==> g(s[i]) == c * f(s[i])
    ensures SumOf(s, g) == c * SumOf(s, f)
  {
    if s != [] {
      var init := s[..|s| - 1];
      assert forall i :: 0 <= i < |init| ==> init[i] == s[i];
      SumOfScale(init, f, g, c);
    }
  }
}
