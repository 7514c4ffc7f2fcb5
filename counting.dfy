/** Occurrence counts over sequences, kept apart from multisets because
    a recursive count is far cheaper for the solver to reason about. */
module Counting {

  /** How often x occurs in s, counted from the back. */
  function Count(s: seq<int>, x: int): nat {
    if s == [] then 0 else Count(s[..|s| - 1], x) + (if s[|s| - 1] == x then 1 else 0)
  }

  /** Appending one element counts it once more when it is x. */
  lemma CountSnoc(a: seq<int>, y: int, x: int)
    ensures Count(a + [y], x) == Count(a, x) + (if y == x then 1 else 0)
  {
    assert (a + [y])[..|a|] == a;
  }

  /** Counts add up over a concatenation. */
  lemma {:induction false} CountAppend(a: seq<int>, b: seq<int>, x: int)
    ensures Count(a + b, x) == Count(a, x) + Count(b, x)
    decreases |b|
  {
    if b != [] {
      var b' := b[..|b| - 1];
      assert (a + b)[..|a + b| - 1] == a + b';
      CountAppend(a, b', x);
    } else {
      assert a + b == a;
    }
  }

  /** Count agrees with the multiplicity in the multiset of s. */
  lemma {:induction false} CountIsMultiplicity(s: seq<int>, x: int)
    ensures Count(s, x) == multiset(s)[x]
  {
    if s != [] {
      var init := s[..|s| - 1];
      CountIsMultiplicity(init, x);
      assert s == init + [s[|s| - 1]];
    }
  }
}
