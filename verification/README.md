# sanctuary core in Dafny

A model of the pure core of sanctuary's `index.js`, with proofs of what its
documentation and its law-based tests promise. The model covers:

- the Maybe type (`Nothing | Just`) with its Fantasy Land methods and free
  functions;
- the Either type (`Left | Right`) with the parallel methods and free
  functions;
- `traverse` from each of them into Maybe or Either;
- the Alternative helpers `and`, `or`, `xor`, plus `not`, `ifElse`,
  `allPass` and `anyPass`;
- the list layer from `slice` to `range`;
- `parseInt`;
- `regexEscape`, `words`, `unwords`, `lines` and `unlines`;
- JavaScript strings as the UTF-16 code units the list functions index;
- the combinators `I`, `K`, `A`, `T`, `C`, `B`, `S`, `flip`, `compose` and
  `pipe`.

Modules, one per file:

| file | module | contents |
|---|---|---|
| types.dfy | Types | `Maybe`, `Either`, `Outcome` (`Ok` or `Threw`, the result of a callback that may throw), `Nullable` (`null`, `undefined` or a value), and the properties a payload relation may have |
| combinators.dfy | Combinators | the combinators, `compose` and `pipe` |
| maybe.dfy | Maybes | Maybe methods, free functions, `encase*` and laws |
| either.dfy | Eithers | Either methods, free functions, `encaseEither*` and laws |
| traversals.dfy | Traversals | `traverse` for Maybe and Either into Maybe or Either |
| logic.dfy | Logic | `and`, `or`, `xor`, `not`, `ifElse`, `allPass`, `anyPass` |
| lists.dfy | Lists | an index type `Idx = Int(n) \| NegZero`, `slice` and the functions built on it, `reverse`, the `indexOf` family, `append`, `prepend`, `find`, `unfoldr`, `range` |
| chars.dfy | Chars | the ECMAScript character classes behind `\s` and line terminators |
| parse_int.dfy | Parsing | `parseInt` and the built-in it calls |
| strings.dfy | Strings | `words`, `unwords`, `lines`, `unlines`, `regexEscape` |
| utf16.dfy | Utf16 | JavaScript strings as UTF-16 code units: encoding, decoding, and what `reverse` and `indexOf` see |

Conventions:

- JavaScript's negative zero is a value of its own (`Idx.NegZero`).
  - `slice` reads `-0` as the length of the list.
  - `at`, `take`, `drop`, `takeLast` and `dropLast` reject it.
  - Unary minus on `0` gives `-0`. So `takeLast(0)` calls `slice(-0, -0)` and
    `dropLast(0)` calls `slice(0, -0)`, and both come out as the source
    intends.
- Payload equality and payload concatenation come from a library outside
  this model. They are parameters (`eq`, `cat`, `lcat`, `rcat`).
- A callback that may throw returns an `Outcome`.
- `parseInt`'s `RangeError` is the `Threw` case of its result.
- `unfoldr` takes a rank function that the caller promises each step lowers.

## Model

| member | source | states |
|---|---|---|
| Maybes.ToBoolean | index.js:1196-1199 | a Maybe is true exactly when it is not the empty value Nothing |
| Maybes.IsJust | index.js:1473-1477 | `isJust` is the negation of `isNothing` |
| Maybes.IsNothing | index.js:1456-1460 | `isNothing` holds exactly of the empty value |
| Maybes.Map | index.js:1325-1329 | the result is Just exactly when the receiver is, holding `f` of its value |
| Maybes.Ap | index.js:1353-1357 | Just exactly when both the argument and the function are Just, holding the function applied to the argument |
| Maybes.Chain | index.js:1381-1385 | Nothing stays Nothing; Just x gives `f(x)` |
| Maybes.Reduce | index.js:1403-1407 | Nothing gives the seed back; Just x gives `f(seed, x)` |
| Maybes.Extend | index.js:1439-1443 | Just exactly when the receiver is, holding `f` of the whole receiver |
| Maybes.Concat | index.js:1290-1295 | Nothing only when both are Nothing; two Justs concatenate their payloads; otherwise the Just side is returned |
| Maybes.Equals | index.js:1255-1260 | Nothing equals only Nothing; Justs are equal when the payload equality holds |
| Maybes.FromMaybe | index.js:1493-1497 | the Just's value, or the default for Nothing |
| Maybes.MaybeToNullable | index.js:1513-1517 | the payload of a Just, whatever JavaScript value it is; `null` exactly for Nothing and for `Just(null)`, `undefined` exactly for `Just(undefined)` |
| Maybes.ToMaybe | index.js:1531-1535 | Nothing exactly for `null` and `undefined`; Just the value otherwise |
| Maybes.FoldMaybe | index.js:1550-1554 | `maybe(x, f, m)`: `f` of a Just's value, `x` for Nothing |
| Maybes.Justs | index.js:1567-1575 | no longer than the input; every element comes from a Just in the input, and every Just's value appears |
| Maybes.MapSeq | index.js:1591-1595 | the element-wise image of the list under `f`, as `mapMaybe` uses it |
| Maybes.MapMaybe | index.js:1591-1595 | every result is a Just value of `f` on some input element, and every Just value of `f` appears |
| Maybes.Encase | index.js:1613-1623 | Just exactly when the callback returns normally, holding what it returned |
| Maybes.Encase2 | index.js:1630-1640 | for a curried binary callback: Just exactly when neither the first application nor the second throws, holding what the second returned |
| Maybes.Encase2Uncurried | index.js:1645-1656 | the same for an uncurried binary callback (`encase2_`) |
| Maybes.Encase3 | index.js:1663-1673 | for a curried ternary callback: Just exactly when none of the three applications throws, holding what the third returned |
| Maybes.Encase3Uncurried | index.js:1678-1691 | the same for an uncurried ternary callback (`encase3_`) |
| Maybes.MaybeToEither | index.js:1707-1713 | Left of the given value exactly for Nothing; Right of the value for a Just |
| Maybes.MapIdentity | index.js:1325-1329 | Functor identity |
| Maybes.MapComposition | index.js:1325-1329 | Functor composition |
| Maybes.ApComposition | index.js:1353-1357 | Apply composition |
| Maybes.ApIdentity | index.js:1353-1364 | Applicative identity with `of` = Just |
| Maybes.ApHomomorphism | index.js:1353-1364 | Applicative homomorphism |
| Maybes.ApInterchange | index.js:1353-1364 | Applicative interchange |
| Maybes.ChainLeftIdentity | index.js:1362-1385 | Monad left identity |
| Maybes.ChainRightIdentity | index.js:1362-1385 | Monad right identity |
| Maybes.ChainAssociativity | index.js:1381-1385 | Chain associativity |
| Maybes.ExtendAssociativity | index.js:1439-1443 | Extend associativity |
| Maybes.ConcatIdentity | index.js:1290-1307 | Nothing (`empty`) is a left and right identity of `concat` |
| Maybes.ConcatAssociativity | index.js:1290-1295 | `concat` is associative whenever the payload concatenation is |
| Maybes.EqualsReflexive | index.js:1255-1260 | Setoid reflexivity, given a reflexive payload equality |
| Maybes.EqualsSymmetric | index.js:1255-1260 | Setoid symmetry, given a symmetric payload equality |
| Maybes.EqualsTransitive | index.js:1255-1260 | Setoid transitivity, given a transitive payload equality |
| Maybes.EqualsIsEquality | index.js:1255-1260 | with structural payload equality, `equals` is equality of Maybes |
| Maybes.ReduceIsFoldMaybe | index.js:1403-1407 | `reduce` is `maybe` with the seed as default |
| Maybes.NullableRoundTrip | index.js:1513-1535 | `toMaybe` undoes `maybeToNullable` exactly on the Maybes that do not hold `null` or `undefined`; the other way round, `undefined` becomes `null` |
| Maybes.NullPayloadCollapses | index.js:1513-1535 | `Just(null)` and Nothing both become `null`, and `toMaybe` then gives Nothing, so the round trip loses that Just |
| Maybes.JustsAppend | index.js:1567-1575 | `justs` of a concatenation is the concatenation of the `justs`, so order is kept |
| Maybes.EncaseCurried | index.js:1613-1673 | `encase2` is Nothing when the first application throws and otherwise `encase` of the function it returned; `encase3` likewise reduces to `encase2` |
| Maybes.Of | index.js:1154 | `of` wraps its argument in a Just |
| Maybes.Empty | index.js:1145-1149 | `empty` is Nothing |
| Maybes.FromMaybeIsReduce | index.js:1493-1497 | `fromMaybe` is `reduce` keeping the value, and `maybe` with the identity |
| Eithers.Of | index.js:1765 | `of` wraps its argument in a Right |
| Eithers.IsRight | index.js:2074-2078 | `isRight` holds exactly of a Right |
| Eithers.FromEitherViaMaybe | index.js:2092-2096 | `fromEither` is `fromMaybe` after `eitherToMaybe`, and `either` with a constant Left branch and the identity |
| Eithers.ToEitherViaMaybe | index.js:2117-2121 | `toEither` is `maybeToEither` after `toMaybe` |
| Eithers.FoldEitherReference | index.js:2137-2143 | `either` with the two constructors rebuilds its argument; with a constant Left branch it is `maybe` after `eitherToMaybe` |
| Eithers.LeftsAppend | index.js:2156-2164 | `lefts` of a concatenation is the concatenation of the `lefts`, so order is kept |
| Eithers.LeftsSingleton | index.js:2156-2164 | `lefts` of one element is its payload when it is a Left, and empty otherwise |
| Eithers.ToBoolean | index.js:1807-1810 | an Either is true exactly when it is a Right |
| Eithers.IsLeft | index.js:2057-2061 | `isLeft` is the negation of `isRight` |
| Eithers.Map | index.js:1921-1925 | a Left is returned unchanged; a Right holds `f` of its value |
| Eithers.Ap | index.js:1949-1953 | a Left on the function side wins; otherwise a Left argument is returned; Right only when both are Right, holding the application |
| Eithers.Chain | index.js:1982-1986 | a Left is returned unchanged; Right x gives `f(x)` |
| Eithers.Reduce | index.js:2004-2008 | a Left gives the seed back; Right x gives `f(seed, x)` |
| Eithers.Extend | index.js:2040-2044 | a Left is returned unchanged; a Right gives Right of `f` of the whole receiver |
| Eithers.Concat | index.js:1897-1903 | two Lefts or two Rights concatenate their payloads; a mixed pair gives the Right |
| Eithers.Equals | index.js:1862-1866 | equal when the sides agree and the payload equality for that side holds |
| Eithers.FromEither | index.js:2092-2096 | the Right's value, or the default for a Left |
| Eithers.ToEither | index.js:2117-2121 | Left of the given value exactly for `null` and `undefined`; Right of the value otherwise |
| Eithers.FoldEither | index.js:2137-2143 | `either(l, r, e)` applies `l` to a Left's value and `r` to a Right's |
| Eithers.Lefts | index.js:2156-2164 | no longer than the input; elements come from Lefts of the input, and every Left's value appears |
| Eithers.Rights | index.js:2177-2185 | no longer than the input; elements come from Rights of the input, and every Right's value appears |
| Eithers.EncaseEither | index.js:2207-2217 | Right exactly when the callback returns normally; otherwise Left of the error mapped by the handler |
| Eithers.EncaseEither2 | index.js:2224-2234 | for a curried binary callback: Right exactly when neither application throws; a throw from either application gives Left of the mapped error |
| Eithers.EncaseEither2Uncurried | index.js:2240-2251 | the same for an uncurried binary callback (`encaseEither2_`) |
| Eithers.EncaseEither3 | index.js:2258-2268 | for a curried ternary callback: Right exactly when none of the three applications throws; the first throw gives Left of the mapped error |
| Eithers.EncaseEither3Uncurried | index.js:2274-2287 | the same for an uncurried ternary callback (`encaseEither3_`) |
| Eithers.EitherToMaybe | index.js:2303-2309 | Nothing exactly for a Left; Just the value of a Right |
| Eithers.MapIdentity | index.js:1921-1925 | Functor identity |
| Eithers.MapComposition | index.js:1921-1925 | Functor composition |
| Eithers.ApComposition | index.js:1949-1953 | Apply composition |
| Eithers.ApIdentity | index.js:1949-1960 | Applicative identity with `of` = Right |
| Eithers.ApHomomorphism | index.js:1949-1960 | Applicative homomorphism |
| Eithers.ApInterchange | index.js:1949-1960 | Applicative interchange |
| Eithers.ChainLeftIdentity | index.js:1958-1986 | Monad left identity |
| Eithers.ChainRightIdentity | index.js:1958-1986 | Monad right identity |
| Eithers.ChainAssociativity | index.js:1982-1986 | Chain associativity |
| Eithers.ExtendAssociativity | index.js:2040-2044 | Extend associativity |
| Eithers.ConcatAssociativity | index.js:1897-1903 | `concat` is associative whenever both payload concatenations are |
| Eithers.EqualsReflexive | index.js:1862-1866 | Setoid reflexivity, given reflexive payload equalities |
| Eithers.EqualsSymmetric | index.js:1862-1866 | Setoid symmetry, given symmetric payload equalities |
| Eithers.EqualsTransitive | index.js:1862-1866 | Setoid transitivity, given transitive payload equalities |
| Eithers.EqualsIsEquality | index.js:1862-1866 | with structural payload equalities, `equals` is equality of Eithers |
| Eithers.ConversionRoundTrip | index.js:1707-1713 | `eitherToMaybe` undoes `maybeToEither`; the other way round only Rights and the chosen Left survive |
| Eithers.LeftsRightsPartition | index.js:2156-2185 | the lengths of `lefts` and `rights` add up to the input's length, so every element is kept by exactly one of them |
| Eithers.RightsAreJusts | index.js:2177-2185 | `rights` is `justs` after `eitherToMaybe`, so order is kept |
| Eithers.EncaseAgreement | index.js:2207-2217 | forgetting the Left of `encaseEither` gives `encase`; with a constant error handler, `encaseEither` is `maybeToEither` of `encase` |
| Eithers.EncaseEitherCurried | index.js:2224-2268 | `encaseEither2` is Left of the mapped error when the first application throws and otherwise `encaseEither` of the function it returned; `encaseEither3` likewise reduces to `encaseEither2` |
| Traversals.MaybeTraverseMaybe | index.js:1420-1424 | Nothing traverses to Just(Nothing); Just x gives Nothing exactly when `f(x)` does, and otherwise `f(x)` itself |
| Traversals.MaybeTraverseEither | index.js:1420-1424 | Nothing traverses to Right(Nothing); Just x gives `f(x)`'s Left, or Right(Just) of its value |
| Traversals.EitherTraverseMaybe | index.js:2021-2025 | a Left traverses to Just of itself; Right x gives Nothing exactly when `f(x)` does, else Just(Right) of its value |
| Traversals.EitherTraverseEither | index.js:2021-2025 | a Left traverses to Right of itself; Right x gives `f(x)`'s Left, or Right(Right) of its value |
| Traversals.TraverseIdentity | index.js:1420-2025 | Traversable identity: traversing with `of` is `of` |
| Traversals.TraverseNaturality | index.js:1420-2025 | naturality: `eitherToMaybe` after traversing into Either is traversing into Maybe with `f` converted |
| Logic.ToBoolean | index.js:2323-2327 | a Maybe is true when Just, an Either when Right, a list when non-empty, a Boolean when it is true |
| Logic.FalseOf | index.js:2387-2395 | the false value `xor` uses has the argument's kind and is not true |
| Logic.And | index.js:2344-2348 | true exactly when both are; returns one of its arguments; a false first argument is returned |
| Logic.Or | index.js:2365-2369 | true exactly when either is; returns one of its arguments; a true first argument is returned |
| Logic.Xor | index.js:2387-2395 | true exactly when one argument is; returns that argument, or the kind's false value |
| Logic.AndOrAssociative | index.js:2344-2369 | `and` and `or` are associative |
| Logic.XorCommutative | index.js:2387-2395 | `xor` is commutative |
| Logic.BooleanConnectives | index.js:2344-2395 | on Booleans the helpers are conjunction, disjunction and inequality |
| Logic.Not | index.js:2411-2415 | `not` returns the other Boolean |
| Logic.IfElse | index.js:2432-2436 | the "if" function's result when the predicate holds, the "else" function's otherwise |
| Logic.IfElseNegated | index.js:2411-2436 | negating the predicate and swapping the branches gives the same result; `not` undoes itself |
| Logic.AllPass | index.js:2452-2461 | true exactly when every predicate holds; stops after the first failing predicate |
| Logic.AnyPass | index.js:2477-2486 | true exactly when some predicate holds; stops after the first passing predicate |
| Lists.Negate | index.js:2698-2752 | unary minus: `-0` exactly for 0, 0 for `-0`, `-n` otherwise |
| Lists.NegateInvolutive | index.js:2698-2752 | negating twice restores the index, `-0` included |
| Lists.Slice | index.js:2545-2557 | Just exactly when both indices lie within the length and the resolved start is not after the resolved end; the result is the run between the two positions |
| Lists.At | index.js:2575-2582 | Just exactly for an integer in [-len, len), `-0` excluded; the element at the resolved position |
| Lists.Head | index.js:2596-2600 | Just the first element exactly for a non-empty list |
| Lists.Last | index.js:2614-2618 | Just the last element exactly for a non-empty list |
| Lists.Tail | index.js:2633-2637 | Just all but the first element exactly for a non-empty list |
| Lists.Init | index.js:2652-2656 | Just all but the last element exactly for a non-empty list |
| Lists.Take | index.js:2674-2680 | Just the first n elements exactly for 0 <= n <= len; Nothing for negatives, `-0` and too-large counts |
| Lists.TakeLast | index.js:2698-2704 | Just the last n elements exactly for 0 <= n <= len |
| Lists.Drop | index.js:2722-2728 | Just all but the first n elements exactly for 0 <= n <= len |
| Lists.DropLast | index.js:2746-2752 | Just all but the last n elements exactly for 0 <= n <= len |
| Lists.SliceSplit | index.js:2545-2557 | the slices before and after any in-range boundary put the list back together |
| Lists.ZeroAndNegativeZeroDiffer | index.js:2551-2552 | as a start, 0 is the first position and `-0` the position after the last |
| Lists.SliceWhole | index.js:2551-2552 | `slice(0, -0)` is the whole list |
| Lists.SliceFromEnd | index.js:2551-2552 | `slice(-0, -0)` is the empty list |
| Lists.SliceEndToZero | index.js:2551-2552 | `slice(-0, 0)` is Just only for the empty list |
| Lists.AtIsSingletonSlice | index.js:2545-2582 | `at(i)` finds x exactly when the one-element slice at i is `[x]` |
| Lists.TakeDropSplit | index.js:2674-2728 | `take(n)` followed by `drop(n)` is the list |
| Lists.DropLastTakeLastSplit | index.js:2674-2752 | `dropLast(n)` followed by `takeLast(n)` is the list; each equals `take`/`drop` of the complementary count |
| Lists.ZeroCounts | index.js:2674-2752 | a count of 0 gives the empty or the whole list; `-0` gives Nothing everywhere |
| Lists.ListExamples | index.js:2545-2728 | the worked examples of `slice`, `at`, `takeLast` and `drop` |
| Lists.Reverse | index.js:2765-2773 | same length, element i is element len-1-i of the input |
| Lists.ReverseInvolutive | index.js:2765-2773 | reversing twice gives the list back |
| Lists.ReverseLoop | index.js:2765-2773 | the source's downward loop computes `reverse` |
| Lists.IndexOfSubstring | index.js:2794-2801 | on strings (as code units), the first position where the needle occurs, Nothing when it occurs nowhere |
| Lists.LastIndexOfSubstring | index.js:2822-2829 | on strings (as code units), the last position where the needle occurs, Nothing when it occurs nowhere |
| Lists.IndexOf | index.js:2794-2801 | on arrays, the first index holding x; Nothing exactly when x is absent |
| Lists.LastIndexOf | index.js:2822-2829 | on arrays, the last index holding x; Nothing exactly when x is absent |
| Lists.ReverseMembership | index.js:2765-2773 | reversal keeps the same elements |
| Utf16.EncodeChar | index.js:2765-2829 | a character is one code unit when below U+10000, else a high and a low surrogate that combine back to it |
| Utf16.Encode | index.js:2765-2829 | a string as `reverse` and the `indexOf` family index it: at least one code unit per character, exactly one when every character is in the Basic Multilingual Plane |
| Utf16.DecodeEncode | index.js:2765-2829 | decoding the code units of a string gives the string back, so the encoding loses nothing |
| Utf16.EncodeAppend | index.js:2765-2829 | the code units of a concatenation are the concatenated code units |
| Utf16.IndexOfAfterAstral | index.js:2794-2801 | positions count code units: `indexOf('a')` after U+1F600 is 2 |
| Utf16.ReverseSplitsSurrogatePair | index.js:2765-2773 | reversing a string reverses code units, leaving a low surrogate before a high one, which decodes to no string |
| Lists.LastIndexOfMirrorsIndexOf | index.js:2794-2829 | `lastIndexOf` is the mirror image of `indexOf` on the reversed list |
| Lists.Append | index.js:2844-2848 | the result's `last` is x and its `init` is the list |
| Lists.Prepend | index.js:2861-2865 | the result's `head` is x and its `tail` is the list |
| Lists.Find | index.js:2880-2891 | Nothing exactly when no element satisfies the predicate; otherwise the leftmost one that does |
| Lists.Unfoldr | index.js:2929-2941 | empty exactly when the first step yields Nothing; otherwise starts with the first pair's first component |
| Lists.UnfoldrLoop | index.js:2929-2941 | the source's loop computes `unfoldr` |
| Lists.Range | index.js:2959-2967 | `max(hi - lo, 0)` elements, element i being lo + i |
| Lists.RangeLoop | index.js:2959-2967 | the source's counting loop computes `range` |
| Lists.UnfoldrCountsUp | index.js:2929-2967 | unfolding the counting generator from lo gives `range(lo, hi)` |
| Parsing.ParseInt | index.js:3462-3480 | a RangeError with the source's message exactly for a radix outside [2, 36]; any Just value is a safe integer |
| Parsing.ParseIntReadsSpelling | index.js:3471-3478 | a string of the accepted shape (sign, hex prefix only in radix 16, digits) reads as its value when that is safe, and as Nothing when it is not |
| Parsing.ParseIntJustIsSpelled | index.js:3471-3478 | conversely, a Just result comes only from a string of the accepted shape, and is its value |
| Parsing.ParseIntRefusesOtherShapes | index.js:3471-3479 | a string of no accepted shape reads as Nothing |
| Parsing.ParseIntOfDigits | index.js:3471-3478 | when the checked body is all digits, the built-in reads exactly the signed digits |
| Parsing.SpellingUnique | index.js:3471-3475 | sign, prefix and digits of an accepted string are determined by the string |
| Parsing.ShowSpells | index.js:3471-3475 | an integer written in a radix has the accepted shape and spells its value |
| Parsing.ParseShowRoundTrip | index.js:3462-3480 | every safe integer written in a radix reads back as itself; an unsafe one reads as Nothing |
| Parsing.SafeIntegerBoundary | index.js:3476-3477 | 2^53 - 1 is read, 2^53 is not |
| Parsing.ParseIntNegativeDecimal | index.js:3462-3480 | `-42` in radix 10 is -42 |
| Parsing.ParseIntHexadecimal | index.js:3462-3480 | `0xFF` in radix 16 is 255 |
| Parsing.ParseIntRefusesNonDigits | index.js:3471-3479 | `0xGG` in radix 16 is Nothing |
| Parsing.ParseIntPrefixOnlyInHex | index.js:3474-3475 | `0xFF` in radix 17 is Nothing: the `0x` prefix is stripped only in radix 16 |
| Parsing.ParseIntRefusesEmpty | index.js:3471-3479 | the empty string is Nothing |
| Parsing.ParseIntRefusesFractions | index.js:3471-3479 | a string with a fraction part is Nothing, although the built-in would read its integer prefix |
| Parsing.BuiltinParseInt | index.js:3476 | the built-in reads a number exactly when, after leading whitespace, sign and (in radix 16) prefix, a digit of the radix follows; the sign of the result follows the sign of the string |
| Chars.FindSpace | index.js:3650 | the first whitespace at or after a position, or the length: nothing before it is whitespace |
| Chars.SkipSpace | index.js:3650 | the end of the run of whitespace at a position: everything before it is whitespace, the character there is not |
| Parsing.ParseIntRadixOutOfRange | index.js:3467-3469 | radixes 1 and 37 throw |
| Strings.SplitOnSpace | index.js:3650 | the pieces between whitespace runs are free of whitespace and, apart from the ends, non-empty |
| Strings.Words | index.js:3645-3653 | every word is non-empty and free of whitespace; Strings.WordsOfJoin and Strings.WordsDecompose fix the result on every string |
| Strings.SplitOnSpaceDecomposes | index.js:3650 | every string is its split pieces joined by the whitespace runs between them, and the pieces have the shape of a split |
| Strings.SplitOnSpaceJoin | index.js:3650 | splitting pieces joined by any runs of whitespace gives the pieces back |
| Strings.WordsOfJoin | index.js:3645-3653 | words separated by any runs of whitespace, with any whitespace before and after, read back as those words |
| Strings.WordsDecompose | index.js:3645-3653 | conversely, a string without words is all whitespace, and a string with words is those words separated by whitespace runs with whitespace around them |
| Strings.Unwords | index.js:3666-3670 | `unwords` joins the words with single spaces as separators; no words give the empty string |
| Strings.WordsKeepText | index.js:3645-3653 | the words laid end to end are the string with its whitespace removed |
| Strings.SplitOnSpaceUnwords | index.js:3650-3670 | splitting joined words on whitespace gives the words back |
| Strings.WordsUnwords | index.js:3645-3670 | `words` undoes `unwords` on a list of words |
| Strings.WordsOfSpace | index.js:3645-3653 | a string of whitespace only has no words |
| Strings.WordsIgnorePadding | index.js:3645-3670 | whitespace around joined words does not change the words |
| Strings.WordsExample | index.js:3645-3653 | the documented example: `' foo bar baz '` gives the three words |
| Strings.NormalizeNewlines | index.js:3689 | the result has no carriage return, and a string without one is unchanged |
| Strings.NormalizeKeepsPlainPrefix | index.js:3689 | text without a carriage return is copied, whatever follows it |
| Strings.NormalizeCRLF | index.js:3689 | a CR LF pair becomes one LF |
| Strings.NormalizeLoneCR | index.js:3689 | a CR that no LF follows becomes one LF |
| Strings.NormalizeLF | index.js:3689 | an LF stays as it is |
| Strings.NormalizeNewlinesExamples | index.js:3689 | `'a\rb'` and `'a\r\nb'` both become `'a\nb'` |
| Strings.NormalizeTerminatedLines | index.js:3674-3691 | lines ended by LF, by CR LF or by a lone CR normalize to the text `unlines` builds |
| Strings.LinesOfTerminatedLines | index.js:3674-3691 | `lines` gives back the lines, whichever of the three documented line ends follows each |
| Strings.LinesCRLFExample | test/lines.js:21 | `'\tfoo\r\n\tbar\r\n\tbaz\r\n'` gives `['\tfoo', '\tbar', '\tbaz']` |
| Strings.Lines | index.js:3684-3691 | no line `lines` returns holds a line terminator |
| Strings.Unlines | index.js:3704-3710 | empty exactly for no lines; otherwise ends in a line feed |
| Strings.UnlinesSnoc | index.js:3709 | the source's left fold: one more line appends that line and a line feed to the text of the lines before it |
| Strings.LinesIsSplit | index.js:3684-3691 | `lines` is the split at line terminators of the normalised string, less a final empty piece |
| Strings.LinesAreLines | index.js:3684-3691 | no line holds a line terminator |
| Strings.SplitLinesUnlines | index.js:3704-3710 | splitting what `unlines` builds gives the lines and one empty piece |
| Strings.LinesUnlines | index.js:3684-3710 | `lines` undoes `unlines` when no line holds a line terminator |
| Strings.LinesOfNothing | index.js:3684-3691 | the empty string has no lines; a single line feed has one empty line |
| Strings.LinesExample | index.js:3684-3691 | the documented example: `'foo\nbar\nbaz\n'` gives three lines |
| Strings.RegexEscape | index.js:3534-3538 | the escaped string is at least as long as the input and at most twice as long |
| Strings.RegexEscapeIsLiteral | index.js:3528-3538 | the escaped string is a pattern of literal characters only: every metacharacter is preceded by a backslash |
| Strings.UnescapeRegexEscape | index.js:3528-3538 | the literal pattern matches exactly the input: removing the escapes gives it back |
| Strings.RegexEscapeUnescape | index.js:3534-3538 | escaping is the inverse of unescaping on literal patterns |
| Strings.RegexEscapeAppend | index.js:3534-3538 | escaping distributes over concatenation |
| Strings.RegexEscapeExample | index.js:3534-3538 | metacharacters are escaped and letters are not |
| Strings.RegexEscapeDocExample | index.js:3528-3538 | the documented example: `-=*{XYZ}*=-` escapes to `\\-=\\*\\{XYZ\\}\\*=\\-` |
| Strings.RegexEscapeSpaceExample | index.js:3534-3538 | whitespace and `.` are escaped, digits are not |
| Combinators.I | index.js:811-815 | `I` returns its argument unchanged |
| Combinators.K | index.js:829-833 | `K` returns its first argument and ignores the second |
| Combinators.A | index.js:848-852 | `A` applies the function to the value |
| Combinators.T | index.js:867-871 | `T` is `A` with the value given first |
| Combinators.C | index.js:890-894 | `C` applies a curried function to its two arguments in reverse order |
| Combinators.B | index.js:907-911 | `B` applies the second function, then the first |
| Combinators.S | index.js:925-929 | `S` applies `f(x)` to `g(x)` |
| Combinators.Flip | index.js:944-948 | `flip` applies an uncurried function to its two arguments in reverse order |
| Combinators.Compose | index.js:1020-1024 | `compose` applies the second function, then the first |
| Combinators.Pipe | index.js:1041-1047 | an empty pipe is the identity; otherwise the last function runs last, on what the others made of the value, as the source's left fold does |
| Combinators.SKKIsI | index.js:811-929 | `S K K` is `I` |
| Combinators.BIsComposeAndAIsFlippedT | index.js:848-1024 | `B` is `compose`, and `A` is `T` with its arguments exchanged |
| Combinators.CIsCurriedFlip | index.js:890-948 | `C` is `flip` on the curried function |
| Combinators.FlipInvolutive | index.js:944-948 | flipping twice restores the argument order |
| Combinators.PipeOfTwo | index.js:1020-1047 | `pipe([f, g])` is `compose(g, f)` |
| Combinators.PipeAppend | index.js:1041-1047 | `pipe` of a concatenation runs the first list, then the second |
| Combinators.PipeSnoc | index.js:1041-1047 | a function appended to a pipe runs last |

## Left out

- Runtime type checking, currying and the `__` placeholder (`def`). The model gives every function its uncurried, well-typed form.
- Dispatch through sanctuary-type-classes (`Z.map`, `Z.equals`, `Z.concat` and the others) and the generic `S.map`, `S.ap`, `S.of`, `S.empty` and so on. Only the Maybe and Either methods are modelled, and payload equality and concatenation are parameters.
- `toString` and `inspect` rendering, which delegate to code outside this model.
- The "Cannot instantiate" guard of the Maybe and Either constructors. Dafny datatypes cannot be built any other way.
- Floating-point arithmetic and `parseFloat`.
- `parseDate`, `parseJson`, `regex`, `test`, `match`, `toUpper`, `toLower` and `trim`. They need Date, JSON, a regular-expression engine or Unicode tables.
- `keys`, `values` and `pairs`, whose order comes from `Object.keys`.
- `prop`, `get`, `gets` and `pluck`, which probe the JavaScript object model.
- `meld`, `lift`, `lift2` and `lift3`, plus `create` and `env`.
- Lists.Unfoldr: only generators the caller ranks as terminating are covered. A generator that never yields Nothing makes the source loop forever. The rank must fall on every step from every value of the state type, not only on the states reachable from the seed, so a generator that terminates from the given seed but not from some unreachable state is not covered.
- Maybes.Justs, Maybes.MapMaybe, Eithers.Lefts, Eithers.Rights: the function contracts state membership only. Order is stated separately by the lemmas Maybes.JustsAppend, Eithers.LeftsAppend and Eithers.RightsAreJusts.
- Lists.IndexOf, Lists.LastIndexOf: the model's `==` on the element type stands for JavaScript's `===`, so elements are read as JavaScript values compared by identity (index.js:2799 calls `xs.indexOf(x)`, index.js:2827 calls `xs.lastIndexOf(x)`). Structural equality of Dafny values does not match that for objects and arrays: `S.indexOf(S.Just(1), [S.Just(1)])` and `S.indexOf([1], [[1]])` are Nothing in the source, because the two objects are distinct, but the model finds them at index 0. The contracts are faithful only for element types whose equality is `===`, such as strings, integers and booleans. `===` also never finds NaN, and floats are out of the model.
- Maybes.MaybeToNullable: the result may be `undefined`, since `S.Just(undefined)` gives it back. A Just's payload is any JavaScript value, so a Maybe of the source is a `Maybe<Nullable<A>>`. A Just from `toMaybe` never holds `null` or `undefined`, so its result is a `Maybe<A>`, and `Lift` reads it as a Maybe of JavaScript values.
- Lists.ReverseLoop, Lists.Find, Lists.UnfoldrLoop, Lists.RangeLoop: the model's lists are immutable sequences, so `push` becomes appending one element.
- Parsing.ParseInt: the result `-0` (from `-0` or `-00`) is an integer 0, since the model's integers have no sign on zero.
- Parsing.ParseInt: the built-in `parseInt` is modelled on exact integers. For values beyond 2^53 it rounds to a double, but `$.Integer` refuses every such value either way, so the result is Nothing in both.
- Parsing.ParseIntNegativeDecimal, Parsing.ParseIntHexadecimal, Parsing.ParseIntRefusesNonDigits, Parsing.ParseIntPrefixOnlyInHex, Parsing.ParseIntRefusesFractions: the example strings are parameters fixed by a precondition. Evaluating the parser on a literal is too costly for the solver.
- Strings.WordsExample: the padded string is written through `unwords`, for the same reason.
- Strings.LinesExample, Strings.LinesCRLFExample: the example strings are built from their lines and a line-end parameter fixed by a precondition, for the same reason.
- Strings, Chars, Parsing: a Dafny `string` is a sequence of Unicode scalar values, while a JavaScript string is a sequence of UTF-16 code units. These modules work on scalar values. Every character their patterns name (whitespace, line terminators, digits, the escaped metacharacters) is a single code unit, so only positions and lengths differ, and none of these functions returns a position. A JavaScript string holding a lone surrogate has no `string` counterpart. The whitespace class follows section 22.2.2.9 of ECMA-262 with the Unicode Zs category as a fixed set.
- Lists.Slice, Lists.At, Lists.Reverse, Lists.IndexOfSubstring, Lists.LastIndexOfSubstring: on a JavaScript string these functions count code units. The model applies them to `Utf16.Encode(s)` rather than to `s`. Applied to `s` directly, they would differ from the source on characters outside the Basic Multilingual Plane (see Utf16.IndexOfAfterAstral and Utf16.ReverseSplitsSurrogatePair).
- Nothing is left out of `lines`, but its documentation and its code disagree. The documentation mentions only `\n`, `\r\n` and `\r` as line ends. The code also ends a line at U+2028 and U+2029, because `.` and the `m` flag treat them as line terminators. The model follows the code.
- Combinators.Pipe: every function in the pipe has one type, because Dafny sequences are homogeneous.
- Logic.Xor: Either is excluded, as in the source, because it has no empty value.
