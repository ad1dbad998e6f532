/** The indexing, prefixing, reduction and traversal helpers of the
    `Collection` extensions. A collection is a `seq<T>` whose indices are the
    integers `0 ..< |s|`: `startIndex` is 0, `endIndex` is `|s|`, and
    `index(after: i)` is `i + 1`. Lazy sequences are modelled by the eager
    sequence of the elements they would produce. */
module CollectionBasics {
  import opened Wrappers
  import opened Numbers
  import Optionals

  // ----- nilIfEmpty -----

  /** `nilIfEmpty()`: `nil` for an empty collection, otherwise the collection. */
  function NilIfEmpty<T>(s: seq<T>): (r: Option<seq<T>>)
    ensures r.None? <==> |s| == 0
    ensures r.Some? ==> r.value == s
  {
    if |s| == 0 then None else Some(s)
  }

  /** `nilIfEmpty()` on an optional collection: `self?.nilIfEmpty()`. */
  function NilIfEmptyOptional<T>(o: Option<seq<T>>): (r: Option<seq<T>>)
    ensures r.None? <==> Optionals.IsNilOrEmpty(o)
    ensures r.Some? ==> r == o
  {
    match o
    case None => None
    case Some(s) => NilIfEmpty(s)
  }

  /** `nilIfEmpty()` loses nothing: `?? []` gives the collection back, and
      the optional overload agrees with it on a present collection. */
  lemma NilIfEmptyRoundTrip<T>(s: seq<T>)
    ensures NilIfEmpty(s).GetOr([]) == s
    ensures NilIfEmptyOptional(Some(s)) == NilIfEmpty(s)
    ensures NilIfEmptyOptional<T>(None).None?
  {
  }

  // ----- Consecutive elements -----

  /** `consecutives()`: the iterator keeps the current index, stops as soon as
      the index after it is `endIndex`, and otherwise yields the pair and
      advances. */
  method Consecutives<T>(s: seq<T>) returns (pairs: seq<(T, T)>)
    ensures |s| == 0 ==> pairs == []
    ensures |s| > 0 ==> |pairs| == |s| - 1
    ensures forall k :: 0 <= k < |pairs| ==> pairs[k] == (s[k], s[k + 1])
    ensures forall k :: 0 <= k < |pairs| ==>
              ConsecutivesAllowingHalfEmptyPairs(s)[k] == (pairs[k].0, Some(pairs[k].1))
  {
    if |s| == 0 {
      return [];
    }
    pairs := [];
    var index := 0;
    while true
      invariant 0 <= index < |s|
      invariant |pairs| == index
      invariant forall k :: 0 <= k < index ==> pairs[k] == (s[k], s[k + 1])
      decreases |s| - index
    {
      var nextIndex := index + 1;
      if !(nextIndex < |s|) {
        break;
      }
      pairs := pairs + [(s[index], s[nextIndex])];
      index := nextIndex;
    }
  }

  /** `consecutivesAllowingHalfEmptyPairs()`: every element paired with the
      element after it, if any; only the last pair is half empty. */
  function ConsecutivesAllowingHalfEmptyPairs<T>(s: seq<T>): (r: seq<(T, Option<T>)>)
    ensures |r| == |s|
    ensures forall k :: 0 <= k < |r| ==> r[k].0 == s[k]
    ensures forall k :: 0 <= k < |r| - 1 ==> r[k].1 == Some(s[k + 1])
    ensures |r| > 0 ==> r[|r| - 1].1.None?
  {
    seq(|s|, k requires 0 <= k < |s| => (s[k], TrySubscript(s, k + 1)))
  }

  // ----- Indexing -----

  /** `lastIndex`: `nil` for an empty collection, else the index at distance
      `count - 1`. */
  function LastIndex<T>(s: seq<T>): (r: Option<int>)
    ensures r.None? <==> |s| == 0
    ensures r.Some? ==> ContainsIndex(s, r.value) && !ContainsIndex(s, r.value + 1)
  {
    if |s| == 0 then None else Some(|s| - 1)
  }

  /** `second`: the element after the first, when there are at least two. */
  function Second<T>(s: seq<T>): (r: Option<T>)
    ensures r.Some? <==> |s| > 1
    ensures r.Some? ==> r.value == s[1]
  {
    if |s| > 1 then Some(s[1]) else None
  }

  /** `last`: the element at `lastIndex`. */
  function Last<T>(s: seq<T>): (r: Option<T>)
    ensures r.Some? <==> |s| > 0
    ensures r.Some? ==> r.value == s[|s| - 1]
  {
    match LastIndex(s)
    case None => None
    case Some(i) => Some(s[i])
  }

  /** `containsIndex(_:)`: `startIndex <= index < endIndex`. */
  predicate ContainsIndex<T>(s: seq<T>, index: int) {
    index >= 0 && index < |s|
  }

  /** `contains(after:)`: the index and the one after it are both valid. */
  predicate ContainsAfter<T>(s: seq<T>, index: int) {
    ContainsIndex(s, index) && ContainsIndex(s, index + 1)
  }

  /** `contains(after:)` holds exactly at the positions of the full pairs:
      where the half-empty pairing has a second element, and where
      `consecutives()` yields a pair. */
  lemma ContainsAfterIsFullPair<T>(s: seq<T>, index: int)
    ensures 0 <= index < |s| ==>
              (ContainsAfter(s, index) <==> ConsecutivesAllowingHalfEmptyPairs(s)[index].1.Some?)
    ensures ContainsAfter(s, index) ==>
              ConsecutivesAllowingHalfEmptyPairs(s)[index] == (s[index], Some(s[index + 1]))
    ensures !ContainsAfter(s, index) <==> index < 0 || |s| - 1 <= index
  {
  }

  /** `subscript(try:)` on an index: the element, or `nil` out of bounds. */
  function TrySubscript<T>(s: seq<T>, index: int): (r: Option<T>)
    ensures r.Some? <==> 0 <= index < |s|
    ensures r.Some? ==> r.value == s[index]
  {
    if ContainsIndex(s, index) then Some(s[index]) else None
  }

  /** The element accessors are `subscript(try:)` at a fixed index. */
  lemma AccessorsAreTrySubscripts<T>(s: seq<T>)
    ensures Last(s) == TrySubscript(s, |s| - 1)
    ensures Second(s) == TrySubscript(s, 1)
    ensures LastIndex(s).Some? ==> TrySubscript(s, LastIndex(s).value) == Last(s)
  {
  }

  /** A `Range<Int>` `lower ..< upper`; Swift refuses to build one with
      `lower > upper`, so that is a precondition wherever one is formed. */
  datatype Range = Range(lower: int, upper: int)

  predicate ValidRange(r: Range) {
    r.lower <= r.upper
  }

  /** `contains(_ bounds:)` as written: the lower bound and the index before
      the upper bound are both valid indices. */
  predicate ContainsRangeAsWritten<T>(s: seq<T>, bounds: Range) {
    ContainsIndex(s, bounds.lower) && ContainsIndex(s, bounds.upper - 1)
  }

  /** `subscript(try bounds:)` as written. */
  function TrySliceAsWritten<T>(s: seq<T>, bounds: Range): (r: Option<seq<T>>)
    requires ValidRange(bounds)
    ensures r.Some? <==> 0 <= bounds.lower < |s| && 1 <= bounds.upper <= |s|
    ensures r.Some? ==> r.value == s[bounds.lower..bounds.upper]
  {
    if ContainsRangeAsWritten(s, bounds) then Some(s[bounds.lower..bounds.upper]) else None
  }

  /** The as-written check is inconsistent on empty ranges: it refuses the
      empty range at the start (and every range of an empty collection) but
      accepts an empty range strictly inside, although all of them are valid
      slices. */
  lemma TrySliceAsWrittenEmptyRanges<T>(s: seq<T>)
    ensures TrySliceAsWritten(s, Range(0, 0)).None?
    ensures TrySliceAsWritten(s, Range(|s|, |s|)).None?
    ensures |s| >= 2 ==> TrySliceAsWritten(s, Range(1, 1)) == Some([])
  {
    if |s| >= 2 {
      assert s[1..1] == [];
    }
  }

  /** `contains(_ bounds:)` corrected: the range lies within
      `startIndex ..< endIndex`. */
  predicate ContainsRange<T>(s: seq<T>, bounds: Range) {
    bounds.lower >= 0 && bounds.upper <= |s|
  }

  /** `subscript(try bounds:)` corrected: the slice exactly when slicing
      would not trap. */
  function TrySlice<T>(s: seq<T>, bounds: Range): (r: Option<seq<T>>)
    requires ValidRange(bounds)
    ensures r.Some? <==> 0 <= bounds.lower && bounds.upper <= |s|
    ensures r.Some? ==> r.value == s[bounds.lower..bounds.upper]
  {
    if ContainsRange(s, bounds) then Some(s[bounds.lower..bounds.upper]) else None
  }

  /** The two checks agree on every non-empty range; they differ only on
      empty ones. */
  lemma TrySliceAgreesOnNonEmpty<T>(s: seq<T>, bounds: Range)
    requires bounds.lower < bounds.upper
    ensures TrySliceAsWritten(s, bounds) == TrySlice(s, bounds)
  {
  }

  /** `cycle(index:)`: an index past `lastIndex` wraps around by
      `distance(lastIndex, index - 1) % count`; anything else is returned
      unchanged. The force unwrap of `lastIndex` needs a non-empty collection.
      The dividend is never negative, so Swift's truncating `%` and Dafny's
      Euclidean `%` agree here. */
  function Cycle<T>(s: seq<T>, index: int): (r: int)
    requires |s| > 0
    ensures index < |s| ==> r == index
    ensures index >= |s| ==> r == index % |s|
    ensures 0 <= index ==> ContainsIndex(s, r)
  {
    var lastIndex := |s| - 1;
    if index - lastIndex > 0 then
      ModShift(index, |s|);
      (index - 1 - lastIndex) % |s|
    else
      index
  }

  lemma MulAtLeast(k: int, n: int)
    requires k >= 1 && n > 0
    ensures k * n >= n
  {
  }

  lemma Distribute(q: int, q': int, n: int)
    ensures q * n - q' * n == (q - q') * n
  {
  }

  /** Quotient and remainder are unique. */
  lemma ModUnique(a: int, n: int, q: int, r: int)
    requires n > 0 && 0 <= r < n && a == q * n + r
    ensures a % n == r
  {
    var q', r' := a / n, a % n;
    assert a == q' * n + r';
    Distribute(q, q', n);
    if q > q' {
      MulAtLeast(q - q', n);
    } else if q < q' {
      MulAtLeast(q' - q, n);
      Distribute(q', q, n);
    }
  }

  /** Subtracting the modulus once does not change the remainder. */
  lemma ModShift(a: int, n: int)
    requires 0 < n <= a
    ensures (a - n) % n == a % n
  {
    var q, r := a / n, a % n;
    assert a == q * n + r;
    Distribute(q, 1, n);
    ModUnique(a - n, n, q - 1, r);
  }

  /** `subscript(cycling:)`: the element at the cycled index. A negative
      index is returned unchanged by `cycle` and then traps. */
  function CyclingSubscript<T>(s: seq<T>, index: int): (r: T)
    requires |s| > 0 && index >= 0
    ensures r == s[index % |s|]
  {
    s[Cycle(s, index)]
  }

  /** Cycling leaves valid indices alone, lands on a valid index, and is
      periodic in the length of the collection. */
  lemma CyclingIsPeriodic<T>(s: seq<T>, index: int)
    requires |s| > 0 && index >= 0
    ensures ContainsIndex(s, index) ==> Cycle(s, index) == index
    ensures Cycle(s, Cycle(s, index)) == Cycle(s, index)
    ensures CyclingSubscript(s, index + |s|) == CyclingSubscript(s, index)
  {
    ModShift(index + |s|, |s|);
  }

  // ----- Prefixing -----

  lemma AppendAssoc<X>(a: seq<X>, b: seq<X>, c: seq<X>)
    ensures a + b + c == a + (b + c)
  {
  }

  /** `prefix(_ maxLength: Int?)`: the first `maxLength` elements, or all of
      them for `nil`. The standard `prefix(_:)` traps on a negative length. */
  function PrefixUpTo<T>(s: seq<T>, maxLength: Option<int>): (r: seq<T>)
    requires maxLength.Some? ==> maxLength.value >= 0
    ensures r <= s
    ensures maxLength.None? ==> r == s
    ensures maxLength.Some? ==> |r| == Min(maxLength.value, |s|)
  {
    match maxLength
    case None => s
    case Some(n) => s[..Min(n, |s|)]
  }

  /** The standard `firstIndex(where:)`. */
  function FirstIndex<T>(s: seq<T>, p: T -> bool): (r: Option<nat>)
    ensures r.Some? ==> r.value < |s| && p(s[r.value])
    ensures r.Some? ==> forall j :: 0 <= j < r.value ==> !p(s[j])
    ensures r.None? ==> forall j :: 0 <= j < |s| ==> !p(s[j])
    decreases |s|
  {
    if |s| == 0 then None
    else if p(s[0]) then Some(0)
    else match FirstIndex(s[1..], p)
      case None => None
      case Some(k) => Some(k + 1)
  }

  /** `prefix(till:)`: the elements before the first terminator. When there
      is no terminator, or the first element is one, the guard falls through
      and the whole collection is returned. */
  function PrefixTill<T>(s: seq<T>, isTerminator: T -> bool): (r: Option<seq<T>>)
    ensures r.Some? && r.value <= s
    ensures |s| > 0 && isTerminator(s[0]) ==> r.value == s
    ensures !(|s| > 0 && isTerminator(s[0])) ==> forall i :: 0 <= i < |r.value| ==> !isTerminator(r.value[i])
    ensures |r.value| < |s| ==> |r.value| > 0 && isTerminator(s[|r.value|])
  {
    match FirstIndex(s, isTerminator)
    case Some(k) => if k != 0 then Some(s[..k]) else Some(s)
    case None => Some(s)
  }

  /** `prefix(till element:)`: `prefix(till:)` with an equality test. */
  function PrefixTillElement<T(==)>(s: seq<T>, element: T): (r: Option<seq<T>>)
    ensures r.Some? && r.value <= s
    ensures element !in s || s[0] == element ==> r.value == s
    ensures element in s && s[0] != element ==> element !in r.value && s[|r.value|] == element
  {
    PrefixTill(s, x => x == element)
  }

  // ----- Reduction -----

  /** The standard seeded `reduce(_:_:)`, the left fold. */
  function FoldLeft<T>(combine: (T, T) -> T, acc: T, xs: seq<T>): T
    decreases |xs|
  {
    if |xs| == 0 then acc else FoldLeft(combine, combine(acc, xs[0]), xs[1..])
  }

  lemma {:induction false} FoldLeftSnoc<T>(combine: (T, T) -> T, acc: T, xs: seq<T>, x: T)
    ensures FoldLeft(combine, acc, xs + [x]) == combine(FoldLeft(combine, acc, xs), x)
    decreases |xs|
  {
    if |xs| == 0 {
      assert (xs + [x])[1..] == [];
    } else {
      assert (xs + [x])[1..] == xs[1..] + [x];
      FoldLeftSnoc(combine, combine(acc, xs[0]), xs[1..], x);
    }
  }

  /** `reduce(_:)`: `nil` for an empty collection, otherwise the rest folded
      into the first element, one element at a time. */
  method Reduce<T>(s: seq<T>, combine: (T, T) -> T) returns (r: Option<T>)
    ensures r.None? <==> |s| == 0
    ensures r.Some? ==> r.value == FoldLeft(combine, s[0], s[1..])
    ensures |s| == 1 ==> r == Some(s[0])
  {
    if |s| == 0 {
      return None;
    }
    var acc := s[0];
    var i := 1;
    while i < |s|
      invariant 1 <= i <= |s|
      invariant acc == FoldLeft(combine, s[0], s[1..i])
    {
      FoldLeftSnoc(combine, s[0], s[1..i], s[i]);
      assert s[1..i + 1] == s[1..i] + [s[i]];
      acc := combine(acc, s[i]);
      i := i + 1;
    }
    assert s[1..i] == s[1..];
    r := Some(acc);
  }

  /** Reducing one more element is combining it into the previous reduction. */
  lemma {:induction false} ReduceAppend<T>(s: seq<T>, x: T, combine: (T, T) -> T)
    requires |s| > 0
    ensures FoldLeft(combine, (s + [x])[0], (s + [x])[1..]) == combine(FoldLeft(combine, s[0], s[1..]), x)
  {
    assert (s + [x])[1..] == s[1..] + [x];
    FoldLeftSnoc(combine, s[0], s[1..], x);
  }

  // ----- Head and tail -----

  /** `splittingFirst()`: the first element and the rest, or `nil`. */
  function SplittingFirst<T>(s: seq<T>): (r: Option<(T, seq<T>)>)
    ensures r.None? <==> |s| == 0
    ensures r.Some? ==> [r.value.0] + r.value.1 == s
  {
    if |s| == 0 then None else Some((s[0], s[1..]))
  }

  /** `unfoldingForward()`: repeatedly split off the head, yielding it with
      the remaining tail. */
  function UnfoldingForward<T>(s: seq<T>): (r: seq<(T, seq<T>)>)
    ensures |r| == |s|
    ensures forall k :: 0 <= k < |r| ==> r[k] == (s[k], s[k + 1..])
    decreases |s|
  {
    match SplittingFirst(s)
    case None => []
    case Some((head, tail)) => [(head, tail)] + UnfoldingForward(tail)
  }
}
