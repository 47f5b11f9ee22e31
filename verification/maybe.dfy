/** The Maybe type: its methods (index.js 1108-1443) and the free functions
    built on it (index.js 1456-1713).

    A JavaScript method `m.op(arg)` becomes `Op(m, arg)`. Payload equality and
    payload concatenation belong to a library this model does not contain, so
    `Equals` and `Concat` take them as parameters.
 */
module Maybes {
  import opened Types

  /** `Maybe.fantasy-land/of` and `Maybe#of`: aliases of Just. */
  function Of<A>(x: A): (r: Maybe<A>)
    ensures r.Just? && r.value == x
  {
    Just(x)
  }

  /** `Maybe.fantasy-land/empty` and `Maybe#empty`. */
  function Empty<A>(): (r: Maybe<A>)
    ensures r.Nothing?
  {
    Nothing
  }

  /** `Maybe#toBoolean`: a Maybe is "true" exactly when it is not the
      Monoid's empty value. */
  function ToBoolean<A>(m: Maybe<A>): (b: bool)
    ensures b <==> m != Empty()
  {
    m.Just?
  }

  /** `isJust`: exactly one of isJust and isNothing holds. */
  function IsJust<A>(m: Maybe<A>): (b: bool)
    ensures b <==> !IsNothing(m)
  {
    m.Just?
  }

  /** `isNothing`. */
  function IsNothing<A>(m: Maybe<A>): (b: bool)
    ensures b <==> m == Empty()
  {
    m.Nothing?
  }

  // ---------------------------------------------------------------------------
  // Methods
  // ---------------------------------------------------------------------------

  /** `Maybe#map`: the receiver comes back as it is when it is Nothing. */
  function Map<A, B>(m: Maybe<A>, f: A -> B): (r: Maybe<B>)
    ensures r.Just? <==> m.Just?
    ensures m.Just? ==> r.value == f(m.value)
  {
    match m
    case Just(x) => Just(f(x))
    case Nothing => Nothing
  }

  /** `Maybe#ap`: `m` holds the argument and `mf` the function; the result is
      Just only when both are. */
  function Ap<A, B>(m: Maybe<A>, mf: Maybe<A -> B>): (r: Maybe<B>)
    ensures r.Just? <==> m.Just? && mf.Just?
    ensures r.Just? ==> r.value == mf.value(m.value)
  {
    match mf
    case Just(f) => Map(m, f)
    case Nothing => Nothing
  }

  /** `Maybe#chain`: the continuation runs only on a Just. */
  function Chain<A, B>(m: Maybe<A>, f: A -> Maybe<B>): (r: Maybe<B>)
    ensures m.Nothing? ==> r == Nothing
    ensures m.Just? ==> r == f(m.value)
  {
    match m
    case Just(x) => f(x)
    case Nothing => Nothing
  }

  /** `Maybe#reduce`: folds over the zero or one payloads. */
  function Reduce<A, B>(m: Maybe<A>, f: (B, A) -> B, x: B): (r: B)
    ensures m.Nothing? ==> r == x
    ensures m.Just? ==> r == f(x, m.value)
  {
    match m
    case Just(v) => f(x, v)
    case Nothing => x
  }

  /** `Maybe#extend`: `f` receives the whole Maybe, not its payload. */
  function Extend<A, B>(m: Maybe<A>, f: Maybe<A> -> B): (r: Maybe<B>)
    ensures r.Just? <==> m.Just?
    ensures m.Just? ==> r.value == f(m)
  {
    if m.Just? then Just(f(m)) else Nothing
  }

  /** `Maybe#concat`: Nothing is absorbed; two payloads are joined with
      `cat`, the payload type's own concatenation. */
  function Concat<A>(m: Maybe<A>, other: Maybe<A>, cat: (A, A) -> A): (r: Maybe<A>)
    ensures r.Nothing? <==> m.Nothing? && other.Nothing?
    ensures m.Just? && other.Just? ==> r.value == cat(m.value, other.value)
    ensures m.Just? && other.Nothing? ==> r == m
    ensures m.Nothing? ==> r == other
  {
    if m.Nothing? then other
    else if other.Nothing? then m
    else Just(cat(m.value, other.value))
  }

  /** `Maybe#equals`: same variant and, for two Justs, payloads equal by
      `eq` (called with the argument's payload first, as the source does). */
  function Equals<A>(m: Maybe<A>, other: Maybe<A>, eq: (A, A) -> bool): (b: bool)
    ensures m.Nothing? ==> (b <==> other.Nothing?)
    ensures m.Just? ==> (b <==> other.Just? && eq(other.value, m.value))
  {
    (other.Nothing? && m.Nothing?) ||
    (other.Just? && m.Just? && eq(other.value, m.value))
  }

  // ---------------------------------------------------------------------------
  // Free functions
  // ---------------------------------------------------------------------------

  /** `fromMaybe`: the payload of a Just, the default otherwise. */
  function FromMaybe<A>(x: A, m: Maybe<A>): (r: A)
    ensures m.Just? ==> r == m.value
    ensures m.Nothing? ==> r == x
  {
    if m.Just? then m.value else x
  }

  /** `maybeToNullable`: Nothing becomes `null`, a Just its payload. The
      payload is any JavaScript value, `null` and `undefined` included, so
      `Just(null)` gives `null` just as Nothing does. */
  function MaybeToNullable<A>(m: Maybe<Nullable<A>>): (r: Nullable<A>)
    ensures r.Null? <==> m.Nothing? || m == Just(Null)
    ensures r.Undefined? <==> m == Just(Undefined)
    ensures r.Present? ==> m == Just(r)
  {
    if m.Just? then m.value else Null
  }

  /** A Maybe whose payload is not `null` or `undefined`, read as a Maybe
      of arbitrary JavaScript values. */
  function Lift<A>(m: Maybe<A>): (r: Maybe<Nullable<A>>)
    ensures r.Just? <==> m.Just?
    ensures m.Just? ==> r.value == Present(m.value)
  {
    if m.Just? then Just(Present(m.value)) else Nothing
  }

  /** Whether a Maybe holds `null` or `undefined`. */
  predicate HoldsNullish<A>(m: Maybe<Nullable<A>>) {
    m.Just? && !m.value.Present?
  }

  /** `toMaybe`: Nothing exactly for `null` and `undefined`. */
  function ToMaybe<A>(x: Nullable<A>): (r: Maybe<A>)
    ensures r.Nothing? <==> x.Null? || x.Undefined?
    ensures x.Present? ==> r == Just(x.value)
  {
    if x.Null? || x.Undefined? then Nothing else Just(x.value)
  }

  /** `maybe`, written as the source writes it: fromMaybe of a map. */
  function FoldMaybe<A, B>(x: B, f: A -> B, m: Maybe<A>): (r: B)
    ensures m.Just? ==> r == f(m.value)
    ensures m.Nothing? ==> r == x
  {
    FromMaybe(x, Map(m, f))
  }

  /** `justs`: the payloads of the Justs, in order. */
  function Justs<A>(ms: seq<Maybe<A>>): (r: seq<A>)
    ensures |r| <= |ms|
    ensures forall k :: 0 <= k < |r| ==> Just(r[k]) in ms
    ensures forall i :: 0 <= i < |ms| && ms[i].Just? ==> ms[i].value in r
  {
    if |ms| == 0 then []
    else (if ms[0].Just? then [ms[0].value] else []) + Justs(ms[1..])
  }

  /** The array `map` that `mapMaybe` delegates to. */
  function MapSeq<A, B>(f: A -> B, xs: seq<A>): (r: seq<B>)
    ensures |r| == |xs|
    ensures forall i :: 0 <= i < |xs| ==> r[i] == f(xs[i])
  {
    seq(|xs|, i requires 0 <= i < |xs| => f(xs[i]))
  }

  /** `mapMaybe`: map, then keep the Justs' payloads. */
  function MapMaybe<A, B>(f: A -> Maybe<B>, xs: seq<A>): (r: seq<B>)
    ensures |r| <= |xs|
    ensures forall k :: 0 <= k < |r| ==> exists i :: 0 <= i < |xs| && f(xs[i]) == Just(r[k])
    ensures forall i :: 0 <= i < |xs| && f(xs[i]).Just? ==> f(xs[i]).value in r
  {
    Justs(MapSeq(f, xs))
  }

  /** `encase`: a throw becomes Nothing and the error is discarded. */
  function Encase<A, B, E>(f: A -> Outcome<B, E>, x: A): (r: Maybe<B>)
    ensures r.Just? <==> f(x).Ok?
    ensures r.Just? ==> r.value == f(x).result
  {
    match f(x)
    case Ok(v) => Just(v)
    case Threw(_) => Nothing
  }

  /** `encase2`, for a curried binary function: the `try` covers both
      applications, so a throw from either becomes Nothing. */
  function Encase2<A, B, C, E>(f: Curried2<A, B, C, E>, x: A, y: B): (r: Maybe<C>)
    ensures r.Just? <==> f(x).Ok? && f(x).result(y).Ok?
    ensures r.Just? ==> r.value == f(x).result(y).result
  {
    match f(x)
    case Threw(_) => Nothing
    case Ok(g) =>
      match g(y)
      case Ok(v) => Just(v)
      case Threw(_) => Nothing
  }

  /** `encase2_`: curries `f` and defers to `encase2`. The curried wrapper
      only captures its argument, so only the final call can throw. */
  function Encase2Uncurried<A, B, C, E>(f: (A, B) -> Outcome<C, E>, x: A, y: B): (r: Maybe<C>)
    ensures r.Just? <==> f(x, y).Ok?
    ensures r.Just? ==> r.value == f(x, y).result
  {
    Encase2((a: A) => Ok((b: B) => f(a, b)), x, y)
  }

  /** `encase3`, for a curried ternary function: a throw from any of the
      three applications becomes Nothing. */
  function Encase3<A, B, C, D, E>(f: Curried3<A, B, C, D, E>, x: A, y: B, z: C): (r: Maybe<D>)
    ensures r.Just? <==> f(x).Ok? && f(x).result(y).Ok? && f(x).result(y).result(z).Ok?
    ensures r.Just? ==> r.value == f(x).result(y).result(z).result
  {
    match f(x)
    case Threw(_) => Nothing
    case Ok(g) =>
      match g(y)
      case Threw(_) => Nothing
      case Ok(h) =>
        match h(z)
        case Ok(v) => Just(v)
        case Threw(_) => Nothing
  }

  /** `encase3_`: curries `f` and defers to `encase3`. */
  function Encase3Uncurried<A, B, C, D, E>(f: (A, B, C) -> Outcome<D, E>, x: A, y: B, z: C): (r: Maybe<D>)
    ensures r.Just? <==> f(x, y, z).Ok?
    ensures r.Just? ==> r.value == f(x, y, z).result
  {
    Encase3((a: A) => Ok((b: B) => Ok((c: C) => f(a, b, c))), x, y, z)
  }

  /** `maybeToEither`: Nothing becomes Left of the given value. */
  function MaybeToEither<L, A>(x: L, m: Maybe<A>): (r: Either<L, A>)
    ensures r.Left? <==> m.Nothing?
    ensures r.Left? ==> r.left == x
    ensures r.Right? ==> r.right == m.value
  {
    if m.Nothing? then Left(x) else Right(m.value)
  }

  // ---------------------------------------------------------------------------
  // Laws
  // ---------------------------------------------------------------------------

  lemma MapIdentity<A>(u: Maybe<A>)
    ensures Map(u, (x: A) => x) == u
  {
  }

  lemma MapComposition<A, B, C>(u: Maybe<A>, f: B -> C, g: A -> B)
    ensures Map(u, (x: A) => f(g(x))) == Map(Map(u, g), f)
  {
  }

  lemma ApComposition<A, B, C>(a: Maybe<A>, mg: Maybe<A -> B>, mf: Maybe<B -> C>)
    ensures Ap(a, Ap(mg, Map(mf, (f: B -> C) => (g: A -> B) => (x: A) => f(g(x)))))
         == Ap(Ap(a, mg), mf)
  {
  }

  lemma ApIdentity<A>(v: Maybe<A>)
    ensures Ap(v, Of((x: A) => x)) == v
  {
  }

  lemma ApHomomorphism<A, B>(x: A, f: A -> B)
    ensures Ap(Of(x), Of(f)) == Of(f(x))
  {
  }

  lemma ApInterchange<A, B>(x: A, u: Maybe<A -> B>)
    ensures Ap(Of(x), u) == Ap(u, Of((f: A -> B) => f(x)))
  {
  }

  lemma ChainLeftIdentity<A, B>(x: A, f: A -> Maybe<B>)
    ensures Chain(Of(x), f) == f(x)
  {
  }

  lemma ChainRightIdentity<A>(m: Maybe<A>)
    ensures Chain(m, (x: A) => Of(x)) == m
  {
  }

  lemma ChainAssociativity<A, B, C>(m: Maybe<A>, f: A -> Maybe<B>, g: B -> Maybe<C>)
    ensures Chain(Chain(m, f), g) == Chain(m, (x: A) => Chain(f(x), g))
  {
  }

  lemma ExtendAssociativity<A, B, C>(w: Maybe<A>, f: Maybe<B> -> C, g: Maybe<A> -> B)
    ensures Extend(Extend(w, g), f) == Extend(w, (w': Maybe<A>) => f(Extend(w', g)))
  {
  }

  /** Nothing, the Monoid's empty value, is a two-sided identity of concat. */
  lemma ConcatIdentity<A>(m: Maybe<A>, cat: (A, A) -> A)
    ensures Concat(Empty(), m, cat) == m
    ensures Concat(m, Empty(), cat) == m
  {
  }

  lemma ConcatAssociativity<A(!new)>(a: Maybe<A>, b: Maybe<A>, c: Maybe<A>, cat: (A, A) -> A)
    requires Associative(cat)
    ensures Concat(Concat(a, b, cat), c, cat) == Concat(a, Concat(b, c, cat), cat)
  {
  }

  lemma EqualsReflexive<A(!new)>(m: Maybe<A>, eq: (A, A) -> bool)
    requires Reflexive(eq)
    ensures Equals(m, m, eq)
  {
  }

  lemma EqualsSymmetric<A(!new)>(m: Maybe<A>, n: Maybe<A>, eq: (A, A) -> bool)
    requires Symmetric(eq)
    ensures Equals(m, n, eq) <==> Equals(n, m, eq)
  {
  }

  lemma EqualsTransitive<A(!new)>(a: Maybe<A>, b: Maybe<A>, c: Maybe<A>, eq: (A, A) -> bool)
    requires Transitive(eq)
    ensures Equals(a, b, eq) && Equals(b, c, eq) ==> Equals(a, c, eq)
  {
  }

  /** With structural payload equality, `equals` is structural equality. */
  lemma EqualsIsEquality<A>(m: Maybe<A>, n: Maybe<A>)
    ensures Equals(m, n, (x: A, y: A) => x == y) <==> m == n
  {
  }

  /** Folding a Maybe with `reduce` is `maybe` with the fold's seed. */
  lemma ReduceIsFoldMaybe<A, B>(m: Maybe<A>, f: (B, A) -> B, x: B)
    ensures Reduce(m, f, x) == FoldMaybe(x, (v: A) => f(x, v), m)
  {
  }

  /** `fromMaybe` is `reduce` keeping the payload, and `maybe` with the
      identity. */
  lemma FromMaybeIsReduce<A>(x: A, m: Maybe<A>)
    ensures FromMaybe(x, m) == Reduce(m, (acc: A, v: A) => v, x)
    ensures FromMaybe(x, m) == FoldMaybe(x, (v: A) => v, m)
  {
  }

  /** `toMaybe` undoes `maybeToNullable` exactly on the Maybes that do not
      hold `null` or `undefined`. The other way round, `undefined` comes back
      as `null`. */
  lemma NullableRoundTrip<A>(m: Maybe<Nullable<A>>, x: Nullable<A>)
    ensures Lift(ToMaybe(MaybeToNullable(m))) == m <==> !HoldsNullish(m)
    ensures MaybeToNullable(Lift(ToMaybe(x))) == (if x.Undefined? then Null else x)
  {
  }

  /** `Just(null)` and Nothing both become `null`, so `toMaybe` cannot tell
      them apart and the round trip loses the Just. */
  lemma NullPayloadCollapses<A>(j: Maybe<Nullable<A>>, n: Maybe<Nullable<A>>)
    requires j == Just(Null) && n == Nothing
    ensures MaybeToNullable(j) == MaybeToNullable(n) == Null
    ensures ToMaybe(MaybeToNullable(j)) == Nothing
    ensures Lift(ToMaybe(MaybeToNullable(j))) != j
  {
  }

  /** `justs` distributes over concatenation of its input. */
  lemma {:induction false} JustsAppend<A>(xs: seq<Maybe<A>>, ys: seq<Maybe<A>>)
    ensures Justs(xs + ys) == Justs(xs) + Justs(ys)
    decreases |xs|
  {
    if |xs| == 0 {
      assert xs + ys == ys;
    } else {
      assert (xs + ys)[1..] == xs[1..] + ys;
      JustsAppend(xs[1..], ys);
    }
  }

  /** `encase2` is `encase` of the partial application when that returns,
      and Nothing when the partial application itself throws; likewise
      `encase3` is `encase2` of its partial application. */
  lemma EncaseCurried<A, B, C, D, E>(f2: Curried2<A, B, C, E>, f3: Curried3<A, B, C, D, E>,
                                     x: A, y: B, z: C)
    ensures Encase2(f2, x, y) == if f2(x).Threw? then Nothing else Encase(f2(x).result, y)
    ensures Encase3(f3, x, y, z) == if f3(x).Threw? then Nothing else Encase2(f3(x).result, y, z)
  {
  }
}
