/** `Maybe#traverse` (index.js 1420-1424) and `Either#traverse`
    (index.js 2021-2025), with the target applicative fixed to Maybe (whose
    `of` is Just) or to Either (whose `of` is Right).

    On a Just/Right the source maps the receiver's constructor over
    `f(value)`; otherwise it wraps the receiver with the target's `of`,
    without calling `f`.
 */
module Traversals {
  import opened Types
  import Maybes
  import Eithers

  /** A Maybe traversed into Maybe. */
  function MaybeTraverseMaybe<A, B>(m: Maybe<A>, f: A -> Maybe<B>): (r: Maybe<Maybe<B>>)
    ensures m.Nothing? ==> r == Just(Nothing)
    ensures r.Nothing? <==> m.Just? && f(m.value).Nothing?
    ensures m.Just? && r.Just? ==> r.value == f(m.value)
  {
    if m.Just? then Maybes.Map(f(m.value), (y: B) => Just(y)) else Maybes.Of(Nothing)
  }

  /** A Maybe traversed into Either. */
  function MaybeTraverseEither<L, A, B>(m: Maybe<A>, f: A -> Either<L, B>): (r: Either<L, Maybe<B>>)
    ensures m.Nothing? ==> r == Right(Nothing)
    ensures r.Left? <==> m.Just? && f(m.value).Left?
    ensures r.Left? ==> r.left == f(m.value).left
    ensures m.Just? && r.Right? ==> r.right == Just(f(m.value).right)
  {
    if m.Just? then Eithers.Map(f(m.value), (y: B) => Just(y)) else Eithers.Of(Nothing)
  }

  /** An Either traversed into Maybe. */
  function EitherTraverseMaybe<L, A, B>(e: Either<L, A>, f: A -> Maybe<B>): (r: Maybe<Either<L, B>>)
    ensures e.Left? ==> r == Just(Left(e.left))
    ensures r.Nothing? <==> e.Right? && f(e.right).Nothing?
    ensures e.Right? && r.Just? ==> r.value == Right(f(e.right).value)
  {
    if e.Right? then Maybes.Map(f(e.right), (y: B) => Right(y)) else Maybes.Of(Left(e.left))
  }

  /** An Either traversed into Either. */
  function EitherTraverseEither<L, E, A, B>(e: Either<L, A>, f: A -> Either<E, B>): (r: Either<E, Either<L, B>>)
    ensures e.Left? ==> r == Right(Left(e.left))
    ensures r.Left? <==> e.Right? && f(e.right).Left?
    ensures r.Left? ==> r.left == f(e.right).left
    ensures e.Right? && r.Right? ==> r.right == Right(f(e.right).right)
  {
    if e.Right? then Eithers.Map(f(e.right), (y: B) => Right(y)) else Eithers.Of(Left(e.left))
  }

  /** Traversing with the target's own `of` wraps the structure unchanged. */
  lemma TraverseIdentity<L, A>(m: Maybe<A>, e: Either<L, A>)
    ensures MaybeTraverseMaybe(m, (x: A) => Maybes.Of(x)) == Maybes.Of(m)
    ensures MaybeTraverseEither(m, (x: A) => Eithers.Of<L, A>(x)) == Eithers.Of(m)
    ensures EitherTraverseMaybe(e, (x: A) => Maybes.Of(x)) == Maybes.Of(e)
    ensures EitherTraverseEither(e, (x: A) => Eithers.Of<L, A>(x)) == Eithers.Of(e)
  {
  }

  /** Naturality: `eitherToMaybe` is an applicative transformation from
      Either to Maybe, and it commutes with traversal. */
  lemma TraverseNaturality<L, E, A, B>(m: Maybe<A>, e: Either<L, A>, f: A -> Either<E, B>)
    ensures Eithers.EitherToMaybe(MaybeTraverseEither(m, f))
         == MaybeTraverseMaybe(m, (x: A) => Eithers.EitherToMaybe(f(x)))
    ensures Eithers.EitherToMaybe(EitherTraverseEither(e, f))
         == EitherTraverseMaybe(e, (x: A) => Eithers.EitherToMaybe(f(x)))
  {
  }
}
