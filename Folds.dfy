/** Left folds over sequences: the shape of a loop that updates one value per element. */
module Folds {
  /** `f` applied to `s` and each element of `es` in turn. */
  function FoldLeft<S, E>(f: (S, E) -> S, s: S, es: seq<E>): S {
    if es == [] then s else f(FoldLeft(f, s, es[..|es| - 1]), es[|es| - 1])
  }

  /** One more element is one more step. */
  lemma FoldAppend<S, E>(f: (S, E) -> S, s: S, es: seq<E>, e: E)
    ensures FoldLeft(f, s, es + [e]) == f(FoldLeft(f, s, es), e)
  {
    var ys := es + [e];
    assert ys[..|ys| - 1] == es;
  }

  /** Folding over `a + b` is folding over `b` from where `a` left off. */
  lemma {:induction false} FoldConcat<S, E>(f: (S, E) -> S, s: S, a: seq<E>, b: seq<E>)
    ensures FoldLeft(f, s, a + b) == FoldLeft(f, FoldLeft(f, s, a), b)
    decreases |b|
  {
    if b == [] {
      assert a + b == a;
    } else {
      var init, x := b[..|b| - 1], b[|b| - 1];
      FoldConcat(f, s, a, init);
      assert a + b == (a + init) + [x];
      assert b == init + [x];
      FoldAppend(f, s, a + init, x);
      FoldAppend(f, FoldLeft(f, s, a), init, x);
    }
  }
}
