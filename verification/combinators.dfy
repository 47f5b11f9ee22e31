/** The combinators (index.js 811-1047): I, K, A, T, C, B, S, `flip`,
    `compose` and `pipe`.

    Each is a one-line definition; what the lemmas below record is how they
    relate to one another, which is what the source's documentation promises
    (B is `compose`, C is `flip` for curried functions, `pipe` composes left
    to right, S K K is I).
 */
module Combinators {

  /** I: identity. */
  function I<X>(x: X): (r: X)
    ensures r == x
  {
    x
  }

  /** K: the first of two values. */
  function K<X, Y>(x: X, y: Y): (r: X)
    ensures r == x
  {
    x
  }

  /** A: application. */
  function A<X, Y>(f: X -> Y, x: X): (r: Y)
    ensures r == f(x)
  {
    f(x)
  }

  /** T: reverse application (thrush). */
  function T<X, Y>(x: X, f: X -> Y): (r: Y)
    ensures r == A(f, x)
  {
    f(x)
  }

  /** C: a curried binary function applied to two values in reverse order. */
  function C<X, Y, W>(f: X -> Y -> W, y: Y, x: X): (r: W)
    ensures r == f(x)(y)
  {
    f(x)(y)
  }

  /** B: composition; shares its definition with `compose`. */
  function B<X, Y, W>(f: Y -> W, g: X -> Y, x: X): (r: W)
    ensures r == f(g(x))
  {
    Compose3(f, g, x)
  }

  /** S: `f(x)(g(x))`. */
  function S<X, Y, W>(f: X -> Y -> W, g: X -> Y, x: X): (r: W)
    ensures r == A(f(x), g(x))
  {
    f(x)(g(x))
  }

  /** `flip`: an uncurried binary function applied in reverse order. */
  function Flip<X, Y, W>(f: (X, Y) -> W, y: Y, x: X): (r: W)
    ensures r == f(x, y)
  {
    f(x, y)
  }

  /** The internal `compose3` that both B and `compose` are. */
  function Compose3<X, Y, W>(f: Y -> W, g: X -> Y, x: X): W {
    f(g(x))
  }

  /** `compose`: right-to-left composition of two unary functions. */
  function Compose<X, Y, W>(f: Y -> W, g: X -> Y, x: X): (r: W)
    ensures r == f(g(x))
  {
    Compose3(f, g, x)
  }

  /** `pipe`: `fs.reduce((x, f) => f(x), x)`, a left fold of application.
      The model gives every function one type. The contract says the last
      function runs last, on what the others have made of `x`. */
  function Pipe<X>(fs: seq<X -> X>, x: X): (r: X)
    ensures |fs| == 0 ==> r == x
    ensures |fs| > 0 ==> r == fs[|fs| - 1](Pipe(fs[..|fs| - 1], x))
    decreases |fs|
  {
    if |fs| == 0 then x
    else
      assert |fs| > 1 ==> fs[1..][..|fs| - 2] == fs[..|fs| - 1][1..];
      Pipe(fs[1..], fs[0](x))
  }

  /** The curried K, as passed to S. */
  function KCurried<X, Y>(x: X): Y -> X {
    (y: Y) => K(x, y)
  }

  /** S K K is I. */
  lemma SKKIsI<X, Y>(x: X)
    ensures S(KCurried<X, Y -> X>, KCurried<X, Y>, x) == I(x)
  {
  }

  /** B is `compose`, and A is T with its arguments exchanged. */
  lemma BIsComposeAndAIsFlippedT<X, Y, W>(f: Y -> W, g: X -> Y, x: X)
    ensures B(f, g, x) == Compose(f, g, x)
    ensures A(g, x) == T(x, g)
  {
  }

  /** C is `flip` for the curried form of a binary function. */
  lemma CIsCurriedFlip<X, Y, W>(f: (X, Y) -> W, y: Y, x: X)
    ensures C((a: X) => (b: Y) => f(a, b), y, x) == Flip(f, y, x)
  {
  }

  /** Flipping twice restores the original argument order. */
  lemma FlipInvolutive<X, Y, W>(f: (X, Y) -> W, x: X, y: Y)
    ensures Flip((b: Y, a: X) => Flip(f, b, a), x, y) == f(x, y)
  {
  }

  /** `pipe([f, g], x)` is `compose(g, f, x)`, that is `g(f(x))`. */
  lemma PipeOfTwo<X>(f: X -> X, g: X -> X, x: X)
    ensures Pipe([f, g], x) == Compose(g, f, x)
  {
    calc {
      Pipe([f, g], x);
      { assert [f, g][1..] == [g]; }
      Pipe([g], f(x));
      { assert [g][1..] == []; }
      Pipe([], g(f(x)));
    }
  }

  /** `pipe` over a concatenation is `pipe` of the second list after `pipe`
      of the first: the functions run strictly left to right. */
  lemma {:induction false} PipeAppend<X>(fs: seq<X -> X>, gs: seq<X -> X>, x: X)
    ensures Pipe(fs + gs, x) == Pipe(gs, Pipe(fs, x))
    decreases |fs|
  {
    if |fs| == 0 {
      assert fs + gs == gs;
    } else {
      assert (fs + gs)[1..] == fs[1..] + gs;
      PipeAppend(fs[1..], gs, fs[0](x));
    }
  }

  /** Appending one function to a pipe applies it last. */
  lemma PipeSnoc<X>(fs: seq<X -> X>, g: X -> X, x: X)
    ensures Pipe(fs + [g], x) == g(Pipe(fs, x))
  {
    PipeAppend(fs, [g], x);
    assert [g][1..] == [];
  }
}
