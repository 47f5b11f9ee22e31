/** The value families the library is built from.

    Maybe and Either are the library's two tagged unions. Outcome stands for
    the result of running a user callback that may throw, and Nullable for a
    JavaScript value that may be `null` or `undefined`. The module also names
    the algebraic properties that the payload operations passed to `equals`
    and `concat` are assumed to have.
 */
module Types {

  /** Nothing, or Just a payload. A Just may wrap any value at all. */
  datatype Maybe<+A> = Nothing | Just(value: A)

  /** Left (conventionally a failure) or Right (conventionally a success). */
  datatype Either<+L, +R> = Left(left: L) | Right(right: R)

  /** What a user callback did: returned a value, or threw an error. */
  datatype Outcome<+T, +E> = Ok(result: T) | Threw(error: E)

  /** A curried binary callback: applying it to its first argument may
      already throw, and so may applying the function that returns. */
  type Curried2<-A, -B, +C, +E> = A -> Outcome<B -> Outcome<C, E>, E>

  /** A curried ternary callback, each of whose three applications may
      throw. */
  type Curried3<-A, -B, -C, +D, +E> = A -> Outcome<B -> Outcome<C -> Outcome<D, E>, E>, E>

  /** A JavaScript value that may be `null` or `undefined`. */
  datatype Nullable<+A> = Null | Undefined | Present(value: A)

  ghost predicate Reflexive<A(!new)>(eq: (A, A) -> bool) {
    forall x :: eq(x, x)
  }

  ghost predicate Symmetric<A(!new)>(eq: (A, A) -> bool) {
    forall x, y :: eq(x, y) <==> eq(y, x)
  }

  ghost predicate Transitive<A(!new)>(eq: (A, A) -> bool) {
    forall x, y, z :: eq(x, y) && eq(y, z) ==> eq(x, z)
  }

  ghost predicate Associative<A(!new)>(cat: (A, A) -> A) {
    forall x, y, z :: cat(cat(x, y), z) == cat(x, cat(y, z))
  }
}
