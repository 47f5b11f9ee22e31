/** The Alternative helpers `and`, `or`, `xor` (index.js 2323-2395), `not`
    and `ifElse` (index.js 2411-2436), and the short-circuiting predicates
    `allPass`, `anyPass` (index.js 2452-2486).

    The source decides truthiness by probing the value: a Monoid is "true"
    when it differs from its empty value (a non-empty list, a Just), and
    anything else must answer `toBoolean` (a Right, `true`). Alt closes that
    over the four kinds of value the library itself supports.
 */
module Logic {
  import opened Types
  import Maybes
  import Eithers

  /** A value `and`/`or`/`xor` accept. Arrays and strings are both lists. */
  datatype Alt<M, L, R, E> =
    | MaybeAlt(m: Maybe<M>)
    | EitherAlt(e: Either<L, R>)
    | BoolAlt(b: bool)
    | ListAlt(xs: seq<E>)

  /** Both arguments have the one type the signature `a -> a -> a` names. */
  predicate SameKind<M, L, R, E>(x: Alt<M, L, R, E>, y: Alt<M, L, R, E>) {
    (x.MaybeAlt? && y.MaybeAlt?) || (x.EitherAlt? && y.EitherAlt?) ||
    (x.BoolAlt? && y.BoolAlt?) || (x.ListAlt? && y.ListAlt?)
  }

  /** The internal `toBoolean`. */
  function ToBoolean<M, L, R, E>(x: Alt<M, L, R, E>): (b: bool)
    ensures x.MaybeAlt? ==> (b <==> x.m.Just?)
    ensures x.EitherAlt? ==> (b <==> x.e.Right?)
    ensures x.BoolAlt? ==> b == x.b
    ensures x.ListAlt? ==> (b <==> |x.xs| > 0)
  {
    match x
    case MaybeAlt(m) => Maybes.ToBoolean(m)
    case EitherAlt(e) => Eithers.ToBoolean(e)
    case BoolAlt(b) => b
    case ListAlt(xs) => xs != []
  }

  /** The "false" value `xor` returns for a kind: `false` for Boolean, the
      Monoid's empty value otherwise. Either has none. */
  function FalseOf<M, L, R, E>(x: Alt<M, L, R, E>): (r: Alt<M, L, R, E>)
    requires !x.EitherAlt?
    ensures SameKind(x, r) && !ToBoolean(r)
  {
    match x
    case MaybeAlt(_) => MaybeAlt(Maybes.Empty())
    case BoolAlt(_) => BoolAlt(false)
    case ListAlt(_) => ListAlt([])
  }

  /** `and`: the second value if the first is true, the first otherwise. */
  function And<M, L, R, E>(x: Alt<M, L, R, E>, y: Alt<M, L, R, E>): (r: Alt<M, L, R, E>)
    requires SameKind(x, y)
    ensures ToBoolean(r) <==> ToBoolean(x) && ToBoolean(y)
    ensures r == x || r == y
    ensures !ToBoolean(x) ==> r == x
  {
    if ToBoolean(x) then y else x
  }

  /** `or`: the first value if it is true, the second otherwise. */
  function Or<M, L, R, E>(x: Alt<M, L, R, E>, y: Alt<M, L, R, E>): (r: Alt<M, L, R, E>)
    requires SameKind(x, y)
    ensures ToBoolean(r) <==> ToBoolean(x) || ToBoolean(y)
    ensures r == x || r == y
    ensures ToBoolean(x) ==> r == x
  {
    if ToBoolean(x) then x else y
  }

  /** `xor`: the true value when exactly one is true; the kind's false value
      otherwise. Either is excluded, as it has no empty value. */
  function Xor<M, L, R, E>(x: Alt<M, L, R, E>, y: Alt<M, L, R, E>): (r: Alt<M, L, R, E>)
    requires SameKind(x, y) && !x.EitherAlt?
    ensures ToBoolean(r) <==> ToBoolean(x) != ToBoolean(y)
    ensures ToBoolean(x) && !ToBoolean(y) ==> r == x
    ensures !ToBoolean(x) && ToBoolean(y) ==> r == y
    ensures ToBoolean(x) == ToBoolean(y) ==> r == FalseOf(x)
  {
    if ToBoolean(x) == ToBoolean(y) then
      (if x.BoolAlt? then BoolAlt(false) else FalseOf(x))
    else Or(x, y)
  }

  /** `and` and `or` are associative. */
  lemma AndOrAssociative<M, L, R, E>(x: Alt<M, L, R, E>, y: Alt<M, L, R, E>, z: Alt<M, L, R, E>)
    requires SameKind(x, y) && SameKind(y, z)
    ensures And(And(x, y), z) == And(x, And(y, z))
    ensures Or(Or(x, y), z) == Or(x, Or(y, z))
  {
  }

  /** `xor` is commutative: the false value depends only on the kind, and a
      false Maybe or list is already that value. */
  lemma XorCommutative<M, L, R, E>(x: Alt<M, L, R, E>, y: Alt<M, L, R, E>)
    requires SameKind(x, y) && !x.EitherAlt?
    ensures Xor(x, y) == Xor(y, x)
  {
  }

  /** On Booleans the three helpers are the Boolean connectives. */
  lemma BooleanConnectives<M, L, R, E>(a: bool, b: bool)
    ensures And<M, L, R, E>(BoolAlt(a), BoolAlt(b)) == BoolAlt(a && b)
    ensures Or<M, L, R, E>(BoolAlt(a), BoolAlt(b)) == BoolAlt(a || b)
    ensures Xor<M, L, R, E>(BoolAlt(a), BoolAlt(b)) == BoolAlt(a != b)
  {
  }

  /** `not`: the negation of a Boolean. */
  function Not(b: bool): (r: bool)
    ensures r != b
  {
    !b
  }

  /** `ifElse`: the "if" function applied to `x` when `x` satisfies the
      predicate, the "else" function applied to it otherwise. */
  function IfElse<X, Y>(pred: X -> bool, f: X -> Y, g: X -> Y, x: X): (r: Y)
    ensures pred(x) ==> r == f(x)
    ensures !pred(x) ==> r == g(x)
  {
    if pred(x) then f(x) else g(x)
  }

  /** Negating the predicate and swapping the branches changes nothing, and
      `not` undoes itself. */
  lemma IfElseNegated<X, Y>(pred: X -> bool, f: X -> Y, g: X -> Y, x: X)
    ensures IfElse(y => Not(pred(y)), g, f, x) == IfElse(pred, f, g, x)
    ensures Not(Not(pred(x))) == pred(x)
  {
  }

  /** `allPass`: whether every predicate holds of `x`. `evaluated` counts the
      predicates actually called: the loop stops at the first failure. */
  method AllPass<X>(preds: seq<X -> bool>, x: X) returns (r: bool, evaluated: nat)
    ensures r <==> forall i :: 0 <= i < |preds| ==> preds[i](x)
    ensures r ==> evaluated == |preds|
    ensures !r ==> 0 < evaluated <= |preds| && !preds[evaluated - 1](x)
    ensures forall i :: 0 <= i < evaluated - 1 ==> preds[i](x)
  {
    var idx := 0;
    while idx < |preds|
      invariant 0 <= idx <= |preds|
      invariant forall i :: 0 <= i < idx ==> preds[i](x)
    {
      if !preds[idx](x) {
        return false, idx + 1;
      }
      idx := idx + 1;
    }
    return true, |preds|;
  }

  /** `anyPass`: whether some predicate holds of `x`. `evaluated` counts the
      predicates actually called: the loop stops at the first success. */
  method AnyPass<X>(preds: seq<X -> bool>, x: X) returns (r: bool, evaluated: nat)
    ensures r <==> exists i :: 0 <= i < |preds| && preds[i](x)
    ensures !r ==> evaluated == |preds|
    ensures r ==> 0 < evaluated <= |preds| && preds[evaluated - 1](x)
    ensures forall i :: 0 <= i < evaluated - 1 ==> !preds[i](x)
  {
    var idx := 0;
    while idx < |preds|
      invariant 0 <= idx <= |preds|
      invariant forall i :: 0 <= i < idx ==> !preds[i](x)
    {
      if preds[idx](x) {
        return true, idx + 1;
      }
      idx := idx + 1;
    }
    return false, |preds|;
  }
}
