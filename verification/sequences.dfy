/** Order-keeping relations between sequences, used to say that removing
    entries from a list keeps the remaining ones in place. */
module Sequences {

  /** `xs` is `ys` with some entries left out and the rest in their order. */
  predicate IsSubsequence<T(==)>(xs: seq<T>, ys: seq<T>)
    decreases |ys|
  {
    if |xs| == 0 then true
    else if |ys| == 0 then false
    else if xs[0] == ys[0] then IsSubsequence(xs[1..], ys[1..])
    else IsSubsequence(xs, ys[1..])
  }

  lemma {:induction false} SubsequenceReflexive<T>(xs: seq<T>)
    ensures IsSubsequence(xs, xs)
    decreases |xs|
  {
    if |xs| > 0 {
      SubsequenceReflexive(xs[1..]);
    }
  }

  /** Leaving out a head that `xs` does not start with keeps `xs` a subsequence. */
  lemma SkipHead<T>(xs: seq<T>, ys: seq<T>)
    requires |ys| > 0 && IsSubsequence(xs, ys[1..])
    requires |xs| == 0 || xs[0] != ys[0]
    ensures IsSubsequence(xs, ys)
  {
  }

  /** A common head can be put in front of both sides. */
  lemma KeepHead<T>(x: T, xs: seq<T>, ys: seq<T>)
    requires IsSubsequence(xs, ys)
    ensures IsSubsequence([x] + xs, [x] + ys)
  {
    assert ([x] + xs)[1..] == xs && ([x] + ys)[1..] == ys;
  }
}
