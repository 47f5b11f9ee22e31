/** The Either type: its methods (index.js 1731-2044) and the free functions
    built on it (index.js 2057-2309).

    Left short-circuits and Right continues. As for Maybe, payload equality
    and payload concatenation are parameters, one for each side.
 */
module Eithers {
  import opened Types
  import Maybes

  /** `Either.fantasy-land/of` and `Either#of`: aliases of Right. */
  function Of<L, R>(x: R): (r: Either<L, R>)
    ensures r.Right? && r.right == x
  {
    Right(x)
  }

  /** `Either#toBoolean`. */
  function ToBoolean<L, R>(e: Either<L, R>): (b: bool)
    ensures b <==> IsRight(e)
  {
    e.Right?
  }

  /** `isLeft`: exactly one of isLeft and isRight holds. */
  function IsLeft<L, R>(e: Either<L, R>): (b: bool)
    ensures b <==> !IsRight(e)
  {
    e.Left?
  }

  /** `isRight`. */
  function IsRight<L, R>(e: Either<L, R>): (b: bool)
    ensures b <==> e.Right?
  {
    e.Right?
  }

  // ---------------------------------------------------------------------------
  // Methods
  // ---------------------------------------------------------------------------

  /** `Either#map`: a Left comes back as it is. */
  function Map<L, A, B>(e: Either<L, A>, f: A -> B): (r: Either<L, B>)
    ensures r.Right? <==> e.Right?
    ensures e.Right? ==> r.right == f(e.right)
    ensures e.Left? ==> r == Left(e.left)
  {
    match e
    case Right(x) => Right(f(x))
    case Left(a) => Left(a)
  }

  /** `Either#ap`: `e` holds the argument and `ef` the function. A Left on the
      function side wins over a Left on the argument side. */
  function Ap<L, A, B>(e: Either<L, A>, ef: Either<L, A -> B>): (r: Either<L, B>)
    ensures ef.Left? ==> r == Left(ef.left)
    ensures ef.Right? && e.Left? ==> r == Left(e.left)
    ensures r.Right? <==> e.Right? && ef.Right?
    ensures r.Right? ==> r.right == ef.right(e.right)
  {
    if ef.Left? then Left(ef.left)
    else if e.Left? then Left(e.left)
    else Right(ef.right(e.right))
  }

  /** `Either#chain`: the continuation runs only on a Right. */
  function Chain<L, A, B>(e: Either<L, A>, f: A -> Either<L, B>): (r: Either<L, B>)
    ensures e.Left? ==> r == Left(e.left)
    ensures e.Right? ==> r == f(e.right)
  {
    match e
    case Right(x) => f(x)
    case Left(a) => Left(a)
  }

  /** `Either#reduce`: folds over the zero (Left) or one (Right) payloads. */
  function Reduce<L, A, B>(e: Either<L, A>, f: (B, A) -> B, x: B): (r: B)
    ensures e.Left? ==> r == x
    ensures e.Right? ==> r == f(x, e.right)
  {
    match e
    case Right(v) => f(x, v)
    case Left(_) => x
  }

  /** `Either#extend`: `f` receives the whole Either. */
  function Extend<L, A, B>(e: Either<L, A>, f: Either<L, A> -> B): (r: Either<L, B>)
    ensures e.Left? ==> r == Left(e.left)
    ensures e.Right? ==> r == Right(f(e))
  {
    if e.Left? then Left(e.left) else Right(f(e))
  }

  /** `Either#concat`: like sides are joined; a mixed pair gives the Right. */
  function Concat<L, R>(e: Either<L, R>, other: Either<L, R>,
                        lcat: (L, L) -> L, rcat: (R, R) -> R): (r: Either<L, R>)
    ensures e.Left? && other.Left? ==> r == Left(lcat(e.left, other.left))
    ensures e.Right? && other.Right? ==> r == Right(rcat(e.right, other.right))
    ensures e.Left? != other.Left? ==> r == (if e.Right? then e else other)
  {
    if e.Left? then
      if other.Left? then Left(lcat(e.left, other.left)) else other
    else
      if other.Right? then Right(rcat(e.right, other.right)) else e
  }

  /** `Either#equals`: same side, and payloads equal by that side's `eq`
      (called with the argument's payload first). */
  function Equals<L, R>(e: Either<L, R>, other: Either<L, R>,
                        leq: (L, L) -> bool, req: (R, R) -> bool): (b: bool)
    ensures e.Left? ==> (b <==> other.Left? && leq(other.left, e.left))
    ensures e.Right? ==> (b <==> other.Right? && req(other.right, e.right))
  {
    other.Left? == e.Left? &&
    (if e.Left? then leq(other.left, e.left) else req(other.right, e.right))
  }

  // ---------------------------------------------------------------------------
  // Free functions
  // ---------------------------------------------------------------------------

  /** `fromEither`: the Right payload, or the default. */
  function FromEither<L, R>(x: R, e: Either<L, R>): (r: R)
    ensures e.Right? ==> r == e.right
    ensures e.Left? ==> r == x
  {
    if e.Right? then e.right else x
  }

  /** `toEither`: Left of the given value exactly for `null` and `undefined`. */
  function ToEither<L, R>(x: L, y: Nullable<R>): (r: Either<L, R>)
    ensures r.Left? <==> y.Null? || y.Undefined?
    ensures r.Left? ==> r.left == x
    ensures r.Right? ==> y == Present(r.right)
  {
    if y.Null? || y.Undefined? then Left(x) else Right(y.value)
  }

  /** `either`: case analysis. */
  function FoldEither<L, R, C>(l: L -> C, r: R -> C, e: Either<L, R>): (c: C)
    ensures e.Left? ==> c == l(e.left)
    ensures e.Right? ==> c == r(e.right)
  {
    match e
    case Left(a) => l(a)
    case Right(b) => r(b)
  }

  /** `lefts`: the Left payloads, in order. */
  function Lefts<L, R>(es: seq<Either<L, R>>): (r: seq<L>)
    ensures |r| <= |es|
    ensures forall k :: 0 <= k < |r| ==> Left(r[k]) in es
    ensures forall i :: 0 <= i < |es| && es[i].Left? ==> es[i].left in r
  {
    if |es| == 0 then []
    else (if es[0].Left? then [es[0].left] else []) + Lefts(es[1..])
  }

  /** `rights`: the Right payloads, in order. */
  function Rights<L, R>(es: seq<Either<L, R>>): (r: seq<R>)
    ensures |r| <= |es|
    ensures forall k :: 0 <= k < |r| ==> Right(r[k]) in es
    ensures forall i :: 0 <= i < |es| && es[i].Right? ==> es[i].right in r
  {
    if |es| == 0 then []
    else (if es[0].Right? then [es[0].right] else []) + Rights(es[1..])
  }

  /** `encaseEither`: a throw becomes Left of the mapped error. */
  function EncaseEither<E, L, A, B>(g: E -> L, f: A -> Outcome<B, E>, x: A): (r: Either<L, B>)
    ensures r.Right? <==> f(x).Ok?
    ensures r.Right? ==> r.right == f(x).result
    ensures r.Left? ==> r.left == g(f(x).error)
  {
    match f(x)
    case Ok(v) => Right(v)
    case Threw(err) => Left(g(err))
  }

  /** `encaseEither2`, for a curried binary function: the `try` covers both
      applications, so a throw from either becomes Left of the mapped
      error. */
  function EncaseEither2<E, L, A, B, C>(g: E -> L, f: Curried2<A, B, C, E>, x: A, y: B): (r: Either<L, C>)
    ensures f(x).Threw? ==> r == Left(g(f(x).error))
    ensures r.Right? <==> f(x).Ok? && f(x).result(y).Ok?
    ensures r.Right? ==> r.right == f(x).result(y).result
    ensures f(x).Ok? && r.Left? ==> r.left == g(f(x).result(y).error)
  {
    match f(x)
    case Threw(err) => Left(g(err))
    case Ok(h) =>
      match h(y)
      case Ok(v) => Right(v)
      case Threw(err) => Left(g(err))
  }

  /** `encaseEither2_`: curries `f` and defers to `encaseEither2`. The
      curried wrapper only captures its argument, so only the final call can
      throw. */
  function EncaseEither2Uncurried<E, L, A, B, C>(g: E -> L, f: (A, B) -> Outcome<C, E>, x: A, y: B): (r: Either<L, C>)
    ensures r.Right? <==> f(x, y).Ok?
    ensures r.Right? ==> r.right == f(x, y).result
    ensures r.Left? ==> r.left == g(f(x, y).error)
  {
    EncaseEither2(g, (a: A) => Ok((b: B) => f(a, b)), x, y)
  }

  /** `encaseEither3`, for a curried ternary function: a throw from any of
      the three applications becomes Left of the mapped error. */
  function EncaseEither3<E, L, A, B, C, D>(g: E -> L, f: Curried3<A, B, C, D, E>,
                                           x: A, y: B, z: C): (r: Either<L, D>)
    ensures f(x).Threw? ==> r == Left(g(f(x).error))
    ensures f(x).Ok? && f(x).result(y).Threw? ==> r == Left(g(f(x).result(y).error))
    ensures r.Right? <==> f(x).Ok? && f(x).result(y).Ok? && f(x).result(y).result(z).Ok?
    ensures r.Right? ==> r.right == f(x).result(y).result(z).result
    ensures f(x).Ok? && f(x).result(y).Ok? && r.Left? ==> r.left == g(f(x).result(y).result(z).error)
  {
    match f(x)
    case Threw(err) => Left(g(err))
    case Ok(h) =>
      match h(y)
      case Threw(err) => Left(g(err))
      case Ok(k) =>
        match k(z)
        case Ok(v) => Right(v)
        case Threw(err) => Left(g(err))
  }

  /** `encaseEither3_`: curries `f` and defers to `encaseEither3`. */
  function EncaseEither3Uncurried<E, L, A, B, C, D>(g: E -> L, f: (A, B, C) -> Outcome<D, E>,
                                                    x: A, y: B, z: C): (r: Either<L, D>)
    ensures r.Right? <==> f(x, y, z).Ok?
    ensures r.Right? ==> r.right == f(x, y, z).result
    ensures r.Left? ==> r.left == g(f(x, y, z).error)
  {
    EncaseEither3(g, (a: A) => Ok((b: B) => Ok((c: C) => f(a, b, c))), x, y, z)
  }

  /** `eitherToMaybe`: a Left becomes Nothing. */
  function EitherToMaybe<L, R>(e: Either<L, R>): (r: Maybe<R>)
    ensures r.Nothing? <==> e.Left?
    ensures r.Just? ==> r.value == e.right
  {
    if e.Left? then Nothing else Just(e.right)
  }

  // ---------------------------------------------------------------------------
  // Laws
  // ---------------------------------------------------------------------------

  lemma MapIdentity<L, A>(u: Either<L, A>)
    ensures Map(u, (x: A) => x) == u
  {
  }

  lemma MapComposition<L, A, B, C>(u: Either<L, A>, f: B -> C, g: A -> B)
    ensures Map(u, (x: A) => f(g(x))) == Map(Map(u, g), f)
  {
  }

  lemma ApComposition<L, A, B, C>(a: Either<L, A>, mg: Either<L, A -> B>, mf: Either<L, B -> C>)
    ensures Ap(a, Ap(mg, Map(mf, (f: B -> C) => (g: A -> B) => (x: A) => f(g(x)))))
         == Ap(Ap(a, mg), mf)
  {
  }

  lemma ApIdentity<L, A>(v: Either<L, A>)
    ensures Ap(v, Of((x: A) => x)) == v
  {
  }

  lemma ApHomomorphism<L, A, B>(x: A, f: A -> B)
    ensures Ap(Of<L, A>(x), Of(f)) == Of(f(x))
  {
  }

  lemma ApInterchange<L, A, B>(x: A, u: Either<L, A -> B>)
    ensures Ap(Of(x), u) == Ap(u, Of((f: A -> B) => f(x)))
  {
  }

  lemma ChainLeftIdentity<L, A, B>(x: A, f: A -> Either<L, B>)
    ensures Chain(Of(x), f) == f(x)
  {
  }

  lemma ChainRightIdentity<L, A>(m: Either<L, A>)
    ensures Chain(m, (x: A) => Of(x)) == m
  {
  }

  lemma ChainAssociativity<L, A, B, C>(m: Either<L, A>, f: A -> Either<L, B>, g: B -> Either<L, C>)
    ensures Chain(Chain(m, f), g) == Chain(m, (x: A) => Chain(f(x), g))
  {
  }

  lemma ExtendAssociativity<L, A, B, C>(w: Either<L, A>, f: Either<L, B> -> C, g: Either<L, A> -> B)
    ensures Extend(Extend(w, g), f) == Extend(w, (w': Either<L, A>) => f(Extend(w', g)))
  {
  }

  lemma ConcatAssociativity<L(!new), R(!new)>(a: Either<L, R>, b: Either<L, R>, c: Either<L, R>,
                                              lcat: (L, L) -> L, rcat: (R, R) -> R)
    requires Associative(lcat) && Associative(rcat)
    ensures Concat(Concat(a, b, lcat, rcat), c, lcat, rcat) == Concat(a, Concat(b, c, lcat, rcat), lcat, rcat)
  {
  }

  lemma EqualsReflexive<L(!new), R(!new)>(e: Either<L, R>, leq: (L, L) -> bool, req: (R, R) -> bool)
    requires Reflexive(leq) && Reflexive(req)
    ensures Equals(e, e, leq, req)
  {
  }

  lemma EqualsSymmetric<L(!new), R(!new)>(e: Either<L, R>, f: Either<L, R>, leq: (L, L) -> bool, req: (R, R) -> bool)
    requires Symmetric(leq) && Symmetric(req)
    ensures Equals(e, f, leq, req) <==> Equals(f, e, leq, req)
  {
  }

  lemma EqualsTransitive<L(!new), R(!new)>(a: Either<L, R>, b: Either<L, R>, c: Either<L, R>,
                                           leq: (L, L) -> bool, req: (R, R) -> bool)
    requires Transitive(leq) && Transitive(req)
    ensures Equals(a, b, leq, req) && Equals(b, c, leq, req) ==> Equals(a, c, leq, req)
  {
  }

  /** With structural payload equality, `equals` is structural equality. */
  lemma EqualsIsEquality<L, R>(e: Either<L, R>, f: Either<L, R>)
    ensures Equals(e, f, (x: L, y: L) => x == y, (x: R, y: R) => x == y) <==> e == f
  {
  }

  /** `eitherToMaybe` undoes `maybeToEither`; the converse holds exactly for a
      Right or for a Left that carries the default. */
  lemma ConversionRoundTrip<L, R>(x: L, m: Maybe<R>, e: Either<L, R>)
    ensures EitherToMaybe(Maybes.MaybeToEither(x, m)) == m
    ensures Maybes.MaybeToEither(x, EitherToMaybe(e)) == e <==> e.Right? || e == Left(x)
  {
  }

  /** `fromEither` is `fromMaybe` after `eitherToMaybe`, and `either` with a
      constant Left branch and the identity. */
  lemma FromEitherViaMaybe<L, R>(x: R, e: Either<L, R>)
    ensures FromEither(x, e) == Maybes.FromMaybe(x, EitherToMaybe(e))
    ensures FromEither(x, e) == FoldEither((l: L) => x, (v: R) => v, e)
  {
  }

  /** `toEither` is `maybeToEither` after `toMaybe`. */
  lemma ToEitherViaMaybe<L, R>(x: L, y: Nullable<R>)
    ensures ToEither(x, y) == Maybes.MaybeToEither(x, Maybes.ToMaybe(y))
  {
  }

  /** `either` with the two constructors rebuilds its argument, and after
      `eitherToMaybe` it is `maybe` with the Left branch made constant. */
  lemma FoldEitherReference<L, R, C>(d: C, r: R -> C, e: Either<L, R>)
    ensures FoldEither((l: L) => Left(l), (v: R) => Right(v), e) == e
    ensures FoldEither((l: L) => d, r, e) == Maybes.FoldMaybe(d, r, EitherToMaybe(e))
  {
  }

  /** `lefts` distributes over concatenation and keeps the payload of a
      single Left (`LeftsSingleton`), which together fix its order. */
  lemma {:induction false} LeftsAppend<L, R>(es: seq<Either<L, R>>, fs: seq<Either<L, R>>)
    ensures Lefts(es + fs) == Lefts(es) + Lefts(fs)
    decreases |es|
  {
    if |es| == 0 {
      assert es + fs == fs;
    } else {
      var head: seq<L> := if es[0].Left? then [es[0].left] else [];
      assert (es + fs)[0] == es[0];
      assert (es + fs)[1..] == es[1..] + fs;
      LeftsAppend(es[1..], fs);
      assert Lefts(es + fs) == head + (Lefts(es[1..]) + Lefts(fs));
      assert head + (Lefts(es[1..]) + Lefts(fs)) == (head + Lefts(es[1..])) + Lefts(fs);
    }
  }

  /** `lefts` of one element: its payload if it is a Left, nothing if not. */
  lemma LeftsSingleton<L, R>(e: Either<L, R>)
    ensures Lefts([e]) == if e.Left? then [e.left] else []
  {
    assert [e][1..] == [];
  }

  /** Every element is either a Left or a Right, and `lefts`/`rights` keep
      each one exactly once. */
  lemma {:induction false} LeftsRightsPartition<L, R>(es: seq<Either<L, R>>)
    ensures |Lefts(es)| + |Rights(es)| == |es|
    decreases |es|
  {
    if |es| > 0 {
      LeftsRightsPartition(es[1..]);
    }
  }

  /** `rights` is `justs` after `eitherToMaybe`. */
  lemma {:induction false} RightsAreJusts<L, R>(es: seq<Either<L, R>>)
    ensures Rights(es) == Maybes.Justs(Maybes.MapSeq(EitherToMaybe, es))
    decreases |es|
  {
    if |es| > 0 {
      RightsAreJusts(es[1..]);
      assert Maybes.MapSeq(EitherToMaybe, es)[1..] == Maybes.MapSeq(EitherToMaybe, es[1..]);
    }
  }

  /** `encase` is `encaseEither` with the Left forgotten, and `encaseEither`
      with a constant error mapper is `maybeToEither` after `encase`. */
  lemma EncaseAgreement<E, L, A, B>(g: E -> L, f: A -> Outcome<B, E>, x: A, d: L)
    ensures EitherToMaybe(EncaseEither(g, f, x)) == Maybes.Encase(f, x)
    ensures EncaseEither((err: E) => d, f, x) == Maybes.MaybeToEither(d, Maybes.Encase(f, x))
  {
  }

  /** `encaseEither2` is `encaseEither` of the partial application when
      that returns, and Left of the mapped error when the partial application
      itself throws; likewise `encaseEither3` is `encaseEither2` of its
      partial application. */
  lemma EncaseEitherCurried<E, L, A, B, C, D>(g: E -> L, f2: Curried2<A, B, C, E>,
                                              f3: Curried3<A, B, C, D, E>, x: A, y: B, z: C)
    ensures EncaseEither2(g, f2, x, y) ==
              if f2(x).Threw? then Left(g(f2(x).error)) else EncaseEither(g, f2(x).result, y)
    ensures EncaseEither3(g, f3, x, y, z) ==
              if f3(x).Threw? then Left(g(f3(x).error)) else EncaseEither2(g, f3(x).result, y, z)
  {
  }
}
