/** The list functions (index.js 2545-2967): `slice` and everything defined
    through it, `reverse`, the `indexOf` family, `append`, `prepend`, `find`,
    `unfoldr` and `range`.

    Arrays and strings are both lists. A JavaScript string is a sequence of
    UTF-16 code units, so these functions see a string `s` as
    `Utf16.Encode(s)`, where a character outside the Basic Multilingual
    Plane is two elements. An integer
    argument is an `Idx`, because JavaScript tells `-0` apart from `0` and
    `slice` reads `-0` as "the length of the list".
 */
module Lists {
  import opened Types

  // ---------------------------------------------------------------------------
  // Indices
  // ---------------------------------------------------------------------------

  /** An integer argument as JavaScript holds it: `-0` is a value of its own. */
  datatype Idx = Int(n: int) | NegZero

  /** The numeric value, where `-0` counts as 0. */
  function Value(i: Idx): int {
    if i.NegZero? then 0 else i.n
  }

  /** `Math.abs`. */
  function Abs(i: Idx): nat {
    if Value(i) < 0 then -Value(i) else Value(i)
  }

  /** JavaScript's `i < 0`, which is false for `-0`. */
  predicate IsNegative(i: Idx) {
    Value(i) < 0
  }

  /** JavaScript's unary minus: the negation of 0 is `-0`, and of `-0` is 0. */
  function Negate(i: Idx): (r: Idx)
    ensures r.NegZero? <==> i == Int(0)
    ensures i.NegZero? ==> r == Int(0)
    ensures i.Int? && i.n != 0 ==> r == Int(-i.n)
  {
    match i
    case NegZero => Int(0)
    case Int(n) => if n == 0 then NegZero else Int(-n)
  }

  /** Where `slice` puts a boundary in a list of length `len`: `-0` is the
      length itself and a negative index counts back from the end. */
  function Position(i: Idx, len: nat): int {
    if i.NegZero? then len else if i.n < 0 then i.n + len else i.n
  }

  lemma NegateInvolutive(i: Idx)
    ensures Negate(Negate(i)) == i
  {
  }

  // ---------------------------------------------------------------------------
  // slice and the functions built on it
  // ---------------------------------------------------------------------------

  /** `slice`: Just the half-open run between the two resolved positions when
      both indices lie within the list and they are in order; Nothing
      otherwise. */
  function Slice<T>(start: Idx, end: Idx, xs: seq<T>): (r: Maybe<seq<T>>)
    ensures r.Just? <==> Abs(start) <= |xs| && Abs(end) <= |xs|
                         && Position(start, |xs|) <= Position(end, |xs|)
    ensures r.Just? ==> 0 <= Position(start, |xs|) <= Position(end, |xs|) <= |xs|
    ensures r.Just? ==> |r.value| == Position(end, |xs|) - Position(start, |xs|)
    ensures r.Just? ==> forall k :: 0 <= k < |r.value| ==> r.value[k] == xs[Position(start, |xs|) + k]
  {
    var len := |xs|;
    var a := Position(start, len);
    var z := Position(end, len);
    if Abs(start) <= len && Abs(end) <= len && a <= z then Just(xs[a..z]) else Nothing
  }

  /** `at`: Just the element at a non-negative index, or at an offset from the
      end for a negative one; Nothing out of range and for `-0`. */
  function At<T>(n: Idx, xs: seq<T>): (r: Maybe<T>)
    ensures r.Just? <==> n.Int? && -|xs| <= n.n < |xs|
    ensures r.Just? ==> 0 <= Position(n, |xs|) < |xs| && r.value == xs[Position(n, |xs|)]
  {
    if !IsNegative(n) && !n.NegZero? && Value(n) < |xs| then Just(xs[Value(n)])
    else if IsNegative(n) && |xs| + Value(n) >= 0 then Just(xs[|xs| + Value(n)])
    else Nothing
  }

  /** `head`, which is `at(0)`. */
  function Head<T>(xs: seq<T>): (r: Maybe<T>)
    ensures r.Just? <==> |xs| > 0
    ensures r.Just? ==> r.value == xs[0]
  {
    At(Int(0), xs)
  }

  /** `last`, which is `at(-1)`. */
  function Last<T>(xs: seq<T>): (r: Maybe<T>)
    ensures r.Just? <==> |xs| > 0
    ensures r.Just? ==> r.value == xs[|xs| - 1]
  {
    At(Int(-1), xs)
  }

  /** `tail`, which is `slice(1, -0)`. */
  function Tail<T>(xs: seq<T>): (r: Maybe<seq<T>>)
    ensures r.Just? <==> |xs| > 0
    ensures r.Just? ==> r.value == xs[1..]
  {
    Slice(Int(1), NegZero, xs)
  }

  /** `init`, which is `slice(0, -1)`. */
  function Init<T>(xs: seq<T>): (r: Maybe<seq<T>>)
    ensures r.Just? <==> |xs| > 0
    ensures r.Just? ==> r.value == xs[..|xs| - 1]
  {
    Slice(Int(0), Int(-1), xs)
  }

  /** `take`: Just the first `n` elements for 0 <= n <= length. */
  function Take<T>(n: Idx, xs: seq<T>): (r: Maybe<seq<T>>)
    ensures r.Just? <==> n.Int? && 0 <= n.n <= |xs|
    ensures r.Just? ==> r.value == xs[..n.n]
  {
    if IsNegative(n) || n.NegZero? then Nothing else Slice(Int(0), n, xs)
  }

  /** `takeLast`: Just the last `n` elements for 0 <= n <= length. It calls
      `slice(-n, -0)`, and for n = 0 the start `-n` is `-0`. */
  function TakeLast<T>(n: Idx, xs: seq<T>): (r: Maybe<seq<T>>)
    ensures r.Just? <==> n.Int? && 0 <= n.n <= |xs|
    ensures r.Just? ==> r.value == xs[|xs| - n.n..]
  {
    if IsNegative(n) || n.NegZero? then Nothing else Slice(Negate(n), NegZero, xs)
  }

  /** `drop`: Just all but the first `n` elements for 0 <= n <= length. */
  function Drop<T>(n: Idx, xs: seq<T>): (r: Maybe<seq<T>>)
    ensures r.Just? <==> n.Int? && 0 <= n.n <= |xs|
    ensures r.Just? ==> r.value == xs[n.n..]
  {
    if IsNegative(n) || n.NegZero? then Nothing else Slice(n, NegZero, xs)
  }

  /** `dropLast`: Just all but the last `n` elements for 0 <= n <= length. It
      calls `slice(0, -n)`, and for n = 0 the end `-n` is `-0`. */
  function DropLast<T>(n: Idx, xs: seq<T>): (r: Maybe<seq<T>>)
    ensures r.Just? <==> n.Int? && 0 <= n.n <= |xs|
    ensures r.Just? ==> r.value == xs[..|xs| - n.n]
  {
    if IsNegative(n) || n.NegZero? then Nothing else Slice(Int(0), Negate(n), xs)
  }

  /** The two slices on either side of any in-range boundary put the list
      back together. */
  lemma SliceSplit<T>(i: Idx, xs: seq<T>)
    requires Abs(i) <= |xs|
    ensures Slice(Int(0), i, xs).Just? && Slice(i, NegZero, xs).Just?
    ensures Slice(Int(0), i, xs).value + Slice(i, NegZero, xs).value == xs
  {
    var p := Position(i, |xs|);
    assert Slice(Int(0), i, xs).value == xs[..p];
    assert Slice(i, NegZero, xs).value == xs[p..];
  }

  /** `0` and `-0` are different boundaries: as a start, 0 is the first
      position and `-0` the position after the last. */
  lemma ZeroAndNegativeZeroDiffer<T>(xs: seq<T>)
    ensures Slice(Int(0), NegZero, xs) == Just(xs)
    ensures Slice(NegZero, NegZero, xs) == Just([])
    ensures Slice(NegZero, Int(0), xs).Just? <==> |xs| == 0
  {
    SliceWhole(xs);
    SliceFromEnd(xs);
    SliceEndToZero(xs);
  }

  /** `slice(0, -0)` is the whole list. */
  lemma SliceWhole<T>(xs: seq<T>)
    ensures Slice(Int(0), NegZero, xs) == Just(xs)
  {
    var r := Slice(Int(0), NegZero, xs);
    assert Position(Int(0), |xs|) == 0 && Position(NegZero, |xs|) == |xs|;
    assert r.Just?;
    assert r.value == xs;
  }

  /** `slice(-0, -0)` is empty. */
  lemma SliceFromEnd<T>(xs: seq<T>)
    ensures Slice(NegZero, NegZero, xs) == Just([])
  {
    var r := Slice(NegZero, NegZero, xs);
    assert Position(NegZero, |xs|) == |xs|;
    assert r.Just?;
    assert |r.value| == 0;
  }

  /** `slice(-0, 0)` starts after it ends unless the list is empty. */
  lemma SliceEndToZero<T>(xs: seq<T>)
    ensures Slice(NegZero, Int(0), xs).Just? <==> |xs| == 0
  {
    assert Position(Int(0), |xs|) == 0 && Position(NegZero, |xs|) == |xs|;
  }

  /** An element that `at` finds is the one-element slice from its index to
      the next boundary, which for -1 has to be `-0`. */
  lemma AtIsSingletonSlice<T>(i: int, xs: seq<T>, x: T)
    ensures At(Int(i), xs) == Just(x) <==>
            Slice(Int(i), if i == -1 then NegZero else Int(i + 1), xs) == Just([x])
  {
    var end := if i == -1 then NegZero else Int(i + 1);
    var s := Slice(Int(i), end, xs);
    if s.Just? && |s.value| == 1 {
      assert s.value == [xs[Position(Int(i), |xs|)]];
    }
  }

  /** `take` and `drop` split the list at the same place. */
  lemma TakeDropSplit<T>(n: nat, xs: seq<T>)
    requires n <= |xs|
    ensures Take(Int(n), xs).value + Drop(Int(n), xs).value == xs
  {
    assert xs[..n] + xs[n..] == xs;
  }

  /** `dropLast` and `takeLast` split the list at the same place, and each
      is the other end's `take`/`drop` of the complementary count. */
  lemma DropLastTakeLastSplit<T>(n: nat, xs: seq<T>)
    requires n <= |xs|
    ensures DropLast(Int(n), xs).value + TakeLast(Int(n), xs).value == xs
    ensures TakeLast(Int(n), xs) == Drop(Int(|xs| - n), xs)
    ensures DropLast(Int(n), xs) == Take(Int(|xs| - n), xs)
  {
    assert xs[..|xs| - n] + xs[|xs| - n..] == xs;
  }

  /** The count 0 is valid and `-0` is not. */
  lemma ZeroCounts<T>(xs: seq<T>)
    ensures TakeLast(Int(0), xs) == Just([])
    ensures DropLast(Int(0), xs) == Just(xs)
    ensures Take(Int(0), xs) == Just([])
    ensures Drop(Int(0), xs) == Just(xs)
    ensures Take(NegZero, xs) == Drop(NegZero, xs) == Nothing
    ensures TakeLast(NegZero, xs) == DropLast(NegZero, xs) == Nothing
    ensures At(NegZero, xs) == Nothing
  {
    assert xs[..|xs|] == xs;
    assert xs[0..] == xs;
  }

  /** The worked examples that accompany `slice`, `at`, `takeLast` and
      `dropLast`. */
  lemma ListExamples()
    ensures Slice(Int(1), Int(3), ['a', 'b', 'c', 'd', 'e']) == Just(['b', 'c'])
    ensures Slice(Int(-2), NegZero, ['a', 'b', 'c', 'd', 'e']) == Just(['d', 'e'])
    ensures Slice(Int(2), NegZero, ['a', 'b', 'c', 'd', 'e']) == Just(['c', 'd', 'e'])
    ensures Slice(Int(1), Int(6), ['a', 'b', 'c', 'd', 'e']) == Nothing
    ensures Slice(Int(6), Int(1), [1, 2, 3, 4, 5]) == Nothing
    ensures Slice(Int(1), Int(-6), [1, 2, 3, 4, 5]) == Nothing
    ensures Slice(Int(-4), Int(1), [1, 2, 3, 4, 5]) == Just([])
    ensures Slice(NegZero, Int(5), [1, 2, 3, 4, 5]) == Just([])
    ensures Slice(Int(2), Int(6), "banana") == Just("nana")
    ensures Slice(Int(1), Int(-3), "ramda") == Just("a")
    ensures Slice(Int(3), Int(-3), "ramda") == Nothing
    ensures At(Int(-1), ["foo", "bar", "baz"]) == Just("baz")
    ensures At(Int(-4), ["foo", "bar", "baz"]) == Nothing
    ensures TakeLast(Int(2), "abc") == Just("bc")
    ensures Drop(Int(6), "abcde") == Nothing
  {
    assert ['a', 'b', 'c', 'd', 'e'][1..3] == ['b', 'c'];
    assert ['a', 'b', 'c', 'd', 'e'][3..5] == ['d', 'e'];
    assert ['a', 'b', 'c', 'd', 'e'][2..5] == ['c', 'd', 'e'];
    assert "banana"[2..6] == "nana";
    assert "ramda"[1..2] == "a";
    assert "abc"[1..] == "bc";
  }

  // ---------------------------------------------------------------------------
  // Other list functions
  // ---------------------------------------------------------------------------

  /** `reverse`. */
  function Reverse<T>(xs: seq<T>): (r: seq<T>)
    ensures |r| == |xs|
    ensures forall i :: 0 <= i < |xs| ==> r[i] == xs[|xs| - 1 - i]
  {
    if |xs| == 0 then [] else Reverse(xs[1..]) + [xs[0]]
  }

  lemma ReverseInvolutive<T>(xs: seq<T>)
    ensures Reverse(Reverse(xs)) == xs
  {
  }

  /** `reverse` as the source writes it: walk the indices downwards from the
      last, pushing each element. */
  method ReverseLoop<T>(xs: seq<T>) returns (result: seq<T>)
    ensures result == Reverse(xs)
  {
    result := [];
    var idx := |xs| - 1;
    while idx >= 0
      invariant -1 <= idx < |xs|
      invariant |result| == |xs| - 1 - idx
      invariant forall i :: 0 <= i < |result| ==> result[i] == xs[|xs| - 1 - i]
    {
      result := result + [xs[idx]];
      idx := idx - 1;
    }
  }

  /** Whether `needle` occurs in `xs` starting at position `i`. */
  ghost predicate OccursAt<T>(needle: seq<T>, xs: seq<T>, i: int) {
    0 <= i && i + |needle| <= |xs| && xs[i..i + |needle|] == needle
  }

  lemma OccursAtSingleton<T>(x: T, xs: seq<T>, i: int)
    ensures OccursAt([x], xs, i) <==> 0 <= i < |xs| && xs[i] == x
  {
    if 0 <= i < |xs| {
      assert xs[i..i + 1] == [xs[i]];
    }
  }

  /** A one-element needle occurs exactly where the list holds it. */
  lemma OccursAtElement<T>(x: T, xs: seq<T>)
    ensures forall j :: OccursAt([x], xs, j) <==> 0 <= j < |xs| && xs[j] == x
  {
    forall j
      ensures OccursAt([x], xs, j) <==> 0 <= j < |xs| && xs[j] == x
    {
      OccursAtSingleton(x, xs, j);
    }
  }

  /** The first occurrence at or after `i`. */
  function SearchUp<T(==)>(needle: seq<T>, xs: seq<T>, i: nat): (r: Maybe<nat>)
    ensures r.Just? ==> i <= r.value && OccursAt(needle, xs, r.value)
    ensures r.Just? ==> forall j :: i <= j < r.value ==> !OccursAt(needle, xs, j)
    ensures r.Nothing? ==> forall j :: i <= j ==> !OccursAt(needle, xs, j)
    decreases |xs| - i
  {
    if i + |needle| > |xs| then Nothing
    else if xs[i..i + |needle|] == needle then Just(i)
    else SearchUp(needle, xs, i + 1)
  }

  /** The last occurrence at or before `i`. */
  function SearchDown<T(==)>(needle: seq<T>, xs: seq<T>, i: int): (r: Maybe<nat>)
    requires i + |needle| <= |xs|
    ensures r.Just? ==> r.value <= i && OccursAt(needle, xs, r.value)
    ensures r.Just? ==> forall j :: r.value < j <= i ==> !OccursAt(needle, xs, j)
    ensures r.Nothing? ==> forall j :: j <= i ==> !OccursAt(needle, xs, j)
    decreases i + 1
  {
    if i < 0 then Nothing
    else if xs[i..i + |needle|] == needle then Just(i)
    else SearchDown(needle, xs, i - 1)
  }

  /** `indexOf` on a string: the first position where `needle` occurs as a
      substring. The empty needle occurs at 0. A JavaScript string is its
      sequence of UTF-16 code units (`Utf16.Encode`), and positions count
      those units. */
  function IndexOfSubstring<T(==)>(needle: seq<T>, s: seq<T>): (r: Maybe<nat>)
    ensures r.Just? ==> OccursAt(needle, s, r.value)
    ensures r.Just? ==> forall j :: 0 <= j < r.value ==> !OccursAt(needle, s, j)
    ensures r.Nothing? ==> forall j :: !OccursAt(needle, s, j)
  {
    SearchUp(needle, s, 0)
  }

  /** `lastIndexOf` on a string: the last position where `needle` occurs. The
      empty needle occurs at the length. As for `IndexOfSubstring`, the
      positions are those of UTF-16 code units. */
  function LastIndexOfSubstring<T(==)>(needle: seq<T>, s: seq<T>): (r: Maybe<nat>)
    ensures r.Just? ==> OccursAt(needle, s, r.value)
    ensures r.Just? ==> forall j :: r.value < j ==> !OccursAt(needle, s, j)
    ensures r.Nothing? ==> forall j :: !OccursAt(needle, s, j)
  {
    if |needle| > |s| then Nothing else SearchDown(needle, s, |s| - |needle|)
  }

  /** `indexOf` on an array: the first index holding `x`. */
  function IndexOf<T(==)>(x: T, xs: seq<T>): (r: Maybe<nat>)
    ensures r.Just? ==> r.value < |xs| && xs[r.value] == x
    ensures r.Just? ==> forall j :: 0 <= j < r.value ==> xs[j] != x
    ensures r.Nothing? <==> x !in xs
  {
    OccursAtElement(x, xs);
    SearchUp([x], xs, 0)
  }

  /** `lastIndexOf` on an array: the last index holding `x`. */
  function LastIndexOf<T(==)>(x: T, xs: seq<T>): (r: Maybe<nat>)
    ensures r.Just? ==> r.value < |xs| && xs[r.value] == x
    ensures r.Just? ==> forall j :: r.value < j < |xs| ==> xs[j] != x
    ensures r.Nothing? <==> x !in xs
  {
    OccursAtElement(x, xs);
    if 1 > |xs| then Nothing else SearchDown([x], xs, |xs| - 1)
  }

  /** Reversal keeps the same elements. */
  lemma ReverseMembership<T>(x: T, xs: seq<T>)
    ensures x in xs <==> x in Reverse(xs)
  {
    var rs := Reverse(xs);
    if x in xs {
      var k :| 0 <= k < |xs| && xs[k] == x;
      assert rs[|xs| - 1 - k] == x;
    }
    if x in rs {
      var k :| 0 <= k < |rs| && rs[k] == x;
      assert xs[|xs| - 1 - k] == x;
    }
  }

  /** A last occurrence in `xs` and a first occurrence in its reversal are
      mirror images. */
  lemma MirrorIndex<T>(x: T, xs: seq<T>, l: nat, f: nat)
    requires l < |xs| && xs[l] == x && forall j :: l < j < |xs| ==> xs[j] != x
    requires f < |xs| && Reverse(xs)[f] == x
    requires forall j :: 0 <= j < f ==> Reverse(xs)[j] != x
    ensures l == |xs| - 1 - f
  {
    var n := |xs|;
    var r := Reverse(xs);
    var g := n - 1 - l;
    assert r[g] == x;
    assert xs[n - 1 - f] == x;
  }

  /** The last index of `x` is the mirror image of its first index in the
      reversed list. */
  lemma LastIndexOfMirrorsIndexOf<T>(x: T, xs: seq<T>)
    ensures LastIndexOf(x, xs).Nothing? <==> IndexOf(x, Reverse(xs)).Nothing?
    ensures LastIndexOf(x, xs).Just? ==>
            LastIndexOf(x, xs).value == |xs| - 1 - IndexOf(x, Reverse(xs)).value
  {
    ReverseMembership(x, xs);
    var l := LastIndexOf(x, xs);
    var f := IndexOf(x, Reverse(xs));
    if l.Just? {
      MirrorIndex(x, xs, l.value, f.value);
    }
  }

  /** `append`: the array with `x` added at the end. */
  function Append<T>(x: T, xs: seq<T>): (r: seq<T>)
    ensures Last(r) == Just(x) && Init(r) == Just(xs)
  {
    xs + [x]
  }

  /** `prepend`: the array with `x` added at the front. */
  function Prepend<T>(x: T, xs: seq<T>): (r: seq<T>)
    ensures Head(r) == Just(x) && Tail(r) == Just(xs)
  {
    [x] + xs
  }

  /** `find`: Just the leftmost element satisfying `pred`, found by a loop
      that stops at the first match. */
  method Find<T>(pred: T -> bool, xs: seq<T>) returns (r: Maybe<T>)
    ensures r.Nothing? <==> forall i :: 0 <= i < |xs| ==> !pred(xs[i])
    ensures r.Just? ==> exists i :: 0 <= i < |xs| && xs[i] == r.value && pred(xs[i])
                                     && forall j :: 0 <= j < i ==> !pred(xs[j])
  {
    var idx := 0;
    while idx < |xs|
      invariant 0 <= idx <= |xs|
      invariant forall j :: 0 <= j < idx ==> !pred(xs[j])
    {
      if pred(xs[idx]) {
        return Just(xs[idx]);
      }
      idx := idx + 1;
    }
    return Nothing;
  }

  // ---------------------------------------------------------------------------
  // unfoldr and range
  // ---------------------------------------------------------------------------

  /** The caller's guarantee that generation stops: every step lowers `rank`. */
  ghost predicate Decreasing<A, B(!new)>(f: B -> Maybe<(A, B)>, rank: B -> nat) {
    forall b :: f(b).Just? ==> rank(f(b).value.1) < rank(b)
  }

  /** `unfoldr`: the first components of the pairs `f` yields, in the order it
      yields them, until it yields Nothing. */
  function Unfoldr<A, B(!new)>(f: B -> Maybe<(A, B)>, rank: B -> nat, seed: B): (r: seq<A>)
    requires Decreasing(f, rank)
    ensures f(seed).Nothing? <==> r == []
    ensures f(seed).Just? ==> r[0] == f(seed).value.0
    ensures |r| <= rank(seed) + 1
    decreases rank(seed)
  {
    match f(seed)
    case Nothing => []
    case Just(p) => [p.0] + Unfoldr(f, rank, p.1)
  }

  /** `unfoldr` as the source writes it: a loop that pushes each element. */
  method UnfoldrLoop<A, B(!new)>(f: B -> Maybe<(A, B)>, rank: B -> nat, seed: B) returns (result: seq<A>)
    requires Decreasing(f, rank)
    ensures result == Unfoldr(f, rank, seed)
  {
    result := [];
    var m := f(seed);
    ghost var b := seed;
    while m.Just?
      invariant m == f(b)
      invariant result + Unfoldr(f, rank, b) == Unfoldr(f, rank, seed)
      decreases rank(b)
    {
      result := result + [m.value.0];
      b := m.value.1;
      m := f(m.value.1);
    }
  }

  /** `range`: the integers from `lo` up to but excluding `hi`. */
  function Range(lo: int, hi: int): (r: seq<int>)
    ensures |r| == (if hi > lo then hi - lo else 0)
    ensures forall i :: 0 <= i < |r| ==> r[i] == lo + i
    decreases hi - lo
  {
    if lo >= hi then [] else [lo] + Range(lo + 1, hi)
  }

  /** `range` as the source writes it: count `n` up from `lo` while it is
      below `hi`, pushing each value. */
  method RangeLoop(lo: int, hi: int) returns (result: seq<int>)
    ensures result == Range(lo, hi)
  {
    result := [];
    var n := lo;
    while n < hi
      invariant n == lo || lo <= n <= hi
      invariant |result| == n - lo
      invariant forall i :: 0 <= i < |result| ==> result[i] == lo + i
      decreases hi - n
    {
      result := result + [n];
      n := n + 1;
    }
  }

  /** The generator from the `unfoldr` example: count up to `to`. */
  function CountUpTo(to: int): int -> Maybe<(int, int)> {
    (n: int) => if n >= to then Nothing else Just((n, n + 1))
  }

  function CountUpRank(to: int): int -> nat {
    (n: int) => if to - n > 0 then to - n else 0
  }

  /** Unfolding the counting generator from `lo` gives `range(lo, hi)`;
      in particular `unfoldr(f, 1)` with bound 5 is `[1, 2, 3, 4]`. */
  lemma {:induction false} UnfoldrCountsUp(lo: int, hi: int)
    ensures Decreasing(CountUpTo(hi), CountUpRank(hi))
    ensures Unfoldr(CountUpTo(hi), CountUpRank(hi), lo) == Range(lo, hi)
    decreases hi - lo
  {
    assert Decreasing(CountUpTo(hi), CountUpRank(hi));
    if lo < hi {
      UnfoldrCountsUp(lo + 1, hi);
    }
  }
}
