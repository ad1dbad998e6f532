/** Chunking a collection: into pieces of a fixed size (`chunked(by:)` with an
    `Int`), and along a sorted list of ranges, filling the gaps between them
    (`allSubrangesChunked(by:)` and `chunked(by:)` with ranges). Indices are
    `Int` offsets from zero and the collection is represented by its length
    where only the length matters. */
module CollectionChunks {
  import opened Wrappers
  import opened Numbers
  import opened CollectionBasics

  /** Concatenation of the chunks, built from the back the way the loops
      below append. */
  function Flatten<T>(chunks: seq<seq<T>>): seq<T>
    decreases |chunks|
  {
    if |chunks| == 0 then [] else Flatten(chunks[..|chunks| - 1]) + chunks[|chunks| - 1]
  }

  lemma FlattenSnoc<T>(chunks: seq<seq<T>>, c: seq<T>)
    ensures Flatten(chunks + [c]) == Flatten(chunks) + c
  {
    assert (chunks + [c])[..|chunks|] == chunks;
  }

  /** `chunked(by: chunkSize)`: `stride(from: 0, to: count, by: chunkSize)`
      gives each chunk's start and the chunk runs to the next stride or the
      end. A negative stride from 0 never reaches a non-negative count, so it
      yields no chunk; a zero stride traps, hence the precondition. */
  method Chunked<T>(s: seq<T>, chunkSize: int) returns (chunks: seq<seq<T>>)
    requires chunkSize != 0
    ensures chunkSize < 0 ==> chunks == []
    ensures chunkSize > 0 ==> Flatten(chunks) == s
    ensures chunkSize > 0 ==> forall i :: 0 <= i < |chunks| - 1 ==> |chunks[i]| == chunkSize
    ensures chunkSize > 0 && |chunks| > 0 ==> 0 < |chunks[|chunks| - 1]| <= chunkSize
    ensures chunkSize > 0 ==> (|chunks| == 0 <==> |s| == 0)
  {
    chunks := [];
    if chunkSize < 0 {
      return;
    }
    var start := 0;
    while start < |s|
      invariant 0 <= start
      invariant (start == 0) == (|chunks| == 0)
      invariant Flatten(chunks) == s[..Min(start, |s|)]
      invariant forall i :: 0 <= i < |chunks| ==> 0 < |chunks[i]| <= chunkSize
      invariant forall i :: 0 <= i < |chunks| - 1 ==> |chunks[i]| == chunkSize
      invariant start <= |s| ==> forall i :: 0 <= i < |chunks| ==> |chunks[i]| == chunkSize
      decreases |s| - start
    {
      var end := Min(start + chunkSize, |s|);
      FlattenSnoc(chunks, s[start..end]);
      assert s[..start] + s[start..end] == s[..end];
      chunks := chunks + [s[start..end]];
      start := start + chunkSize;
    }
    assert s[..|s|] == s;
  }

  /** Each range is well formed and ends where the next begins or earlier:
      the source builds the gap `previous.upperBound ..< next.lowerBound`,
      which traps otherwise. */
  predicate SortedRanges(ranges: seq<Range>) {
    && (forall i :: 0 <= i < |ranges| ==> ValidRange(ranges[i]))
    && (forall i, j :: 0 <= i < j < |ranges| ==> ranges[i].upper <= ranges[j].lower)
  }

  /** `ranges` lie back to back, covering `from ..< to` exactly. */
  ghost predicate Tiles(ranges: seq<Range>, from: int, to: int) {
    && (|ranges| == 0 ==> from == to)
    && (|ranges| > 0 ==> ranges[0].lower == from && ranges[|ranges| - 1].upper == to)
    && (forall i :: 0 <= i < |ranges| ==> ValidRange(ranges[i]))
    && (forall i, j :: 0 <= i && j == i + 1 && j < |ranges| ==> ranges[i].upper == ranges[j].lower)
  }

  /** `xs` occurs in `ys` in order, possibly with other entries between. */
  predicate IsSubsequence<X(==)>(xs: seq<X>, ys: seq<X>)
    decreases |ys|
  {
    if |xs| == 0 then true
    else if |ys| == 0 then false
    else if xs[0] == ys[0] then IsSubsequence(xs[1..], ys[1..])
    else IsSubsequence(xs, ys[1..])
  }

  /** The range from `from` to `to`, or nothing when it would be empty. */
  function Gap(from: int, to: int): (r: seq<Range>)
    requires from <= to
  {
    if from == to then [] else [Range(from, to)]
  }

  /** The range from the last range's end to the end of the collection,
      appended only when the last range ends before it. */
  function FinalGap(from: int, count: int): seq<Range> {
    if from < count then [Range(from, count)] else []
  }

  /** Reference definition: starting at `from`, each range is preceded by
      the gap from the previous end, and the last is followed by the gap to
      `count` if it ends before `count`. */
  function CoverFrom(from: int, ranges: seq<Range>, count: int): seq<Range>
    requires SortedRanges(ranges)
    requires |ranges| > 0 ==> from <= ranges[0].lower
    decreases |ranges|
  {
    if |ranges| == 0 then FinalGap(from, count)
    else Gap(from, ranges[0].lower) + [ranges[0]] + CoverFrom(ranges[0].upper, ranges[1..], count)
  }

  /** What `allSubrangesChunked(by:)` returns. No ranges give the whole
      collection. A first range starting before index zero is dropped and
      the cover starts where it ends. */
  function Subranges(count: nat, ranges: seq<Range>): seq<Range>
    requires SortedRanges(ranges)
  {
    if |ranges| == 0 then [Range(0, count)]
    else if ranges[0].lower < 0 then CoverFrom(ranges[0].upper, ranges[1..], count)
    else CoverFrom(0, ranges, count)
  }

  /** Where a cover starting at `from` ends. */
  function CoverEnd(from: int, ranges: seq<Range>, count: int): int {
    Max(count, if |ranges| == 0 then from else ranges[|ranges| - 1].upper)
  }

  lemma TilesAppend(a: seq<Range>, b: seq<Range>, x: int, y: int, z: int)
    requires Tiles(a, x, y) && Tiles(b, y, z)
    ensures Tiles(a + b, x, z)
  {
    var ab := a + b;
    forall i | 0 <= i < |ab|
      ensures ValidRange(ab[i])
    {
      if i < |a| { assert ab[i] == a[i]; } else { assert ab[i] == b[i - |a|]; }
    }
    forall i, j | 0 <= i && j == i + 1 && j < |ab|
      ensures ab[i].upper == ab[j].lower
    {
      if j < |a| {
        assert ab[i] == a[i] && ab[j] == a[j];
      } else if i >= |a| {
        assert ab[i] == b[i - |a|] && ab[j] == b[j - |a|];
      } else {
        assert ab[i] == a[|a| - 1] && ab[j] == b[0];
      }
    }
  }

  /** The cover tiles everything from `from` to the later of `count` and the
      last range's end. */
  lemma {:induction false} CoverFromTiles(from: int, ranges: seq<Range>, count: int)
    requires SortedRanges(ranges)
    requires |ranges| > 0 ==> from <= ranges[0].lower
    ensures Tiles(CoverFrom(from, ranges, count), from, CoverEnd(from, ranges, count))
    decreases |ranges|
  {
    if |ranges| == 0 {
      assert Tiles(CoverFrom(from, ranges, count), from, Max(count, from));
    } else {
      var r := ranges[0];
      assert ValidRange(r);
      var rest := ranges[1..];
      assert SortedRanges(rest);
      assert |rest| > 0 ==> rest[0] == ranges[1];
      CoverFromTiles(r.upper, rest, count);
      assert CoverEnd(r.upper, rest, count) == CoverEnd(from, ranges, count);
      assert Tiles(Gap(from, r.lower), from, r.lower);
      assert Tiles([r], r.lower, r.upper);
      TilesAppend(Gap(from, r.lower), [r], from, r.lower, r.upper);
      TilesAppend(Gap(from, r.lower) + [r], CoverFrom(r.upper, rest, count), from, r.upper, CoverEnd(from, ranges, count));
    }
  }

  lemma {:induction false} SubsequenceAfter<X>(xs: seq<X>, prefix: seq<X>, ys: seq<X>)
    requires IsSubsequence(xs, ys)
    requires forall i :: 0 <= i < |prefix| ==> |xs| == 0 || prefix[i] != xs[0]
    ensures IsSubsequence(xs, prefix + ys)
    decreases |prefix|
  {
    if |prefix| > 0 {
      assert (prefix + ys)[1..] == prefix[1..] + ys;
      SubsequenceAfter(xs, prefix[1..], ys);
    } else {
      assert prefix + ys == ys;
    }
  }

  /** The given ranges all occur in the cover, in their order. */
  lemma {:induction false} CoverFromKeepsRanges(from: int, ranges: seq<Range>, count: int)
    requires SortedRanges(ranges)
    requires |ranges| > 0 ==> from <= ranges[0].lower
    ensures IsSubsequence(ranges, CoverFrom(from, ranges, count))
    decreases |ranges|
  {
    if |ranges| > 0 {
      var r := ranges[0];
      var rest := ranges[1..];
      assert SortedRanges(rest);
      assert |rest| > 0 ==> rest[0] == ranges[1];
      CoverFromKeepsRanges(r.upper, rest, count);
      var tail := [r] + CoverFrom(r.upper, rest, count);
      assert tail[1..] == CoverFrom(r.upper, rest, count);
      assert IsSubsequence(ranges, tail);
      SubsequenceAfter(ranges, Gap(from, r.lower), tail);
      assert Gap(from, r.lower) + [r] + CoverFrom(r.upper, rest, count) == Gap(from, r.lower) + tail;
    }
  }

  /** Unfolding the cover at position `index` of `ranges`. */
  lemma CoverAt(from: int, ranges: seq<Range>, index: nat, count: int)
    requires SortedRanges(ranges)
    requires index < |ranges| && from <= ranges[index].lower
    ensures SortedRanges(ranges[index..])
    ensures index + 1 < |ranges| ==> ranges[index].upper <= ranges[index + 1].lower && SortedRanges(ranges[index + 1..])
    ensures CoverFrom(from, ranges[index..], count)
         == Gap(from, ranges[index].lower) + [ranges[index]]
            + (if index + 1 < |ranges| then CoverFrom(ranges[index].upper, ranges[index + 1..], count)
               else FinalGap(ranges[index].upper, count))
  {
    assert ranges[index..][0] == ranges[index];
    assert ranges[index..][1..] == ranges[index + 1..];
    assert SortedRanges(ranges[index..]);
    if index + 1 < |ranges| {
      assert ranges[index + 1..][0] == ranges[index + 1];
      assert SortedRanges(ranges[index + 1..]);
    }
  }

  /** One iteration of the loop in `allSubrangesChunked(by:)`: the entries
      appended for `range`. The first range gets the gap from index zero in
      front of it, or nothing at all when it starts before zero; later ones
      the gap from the previous range's end; the last one is followed by the
      gap to the end of the collection. */
  method AppendedFor(isFirst: bool, isLast: bool, range: Range, lastRange: Option<Range>, count: nat)
    returns (added: seq<Range>)
    requires ValidRange(range)
    requires !isFirst ==> lastRange.Some? && lastRange.value.upper <= range.lower
    ensures isFirst && range.lower < 0 ==> added == (if isLast then FinalGap(range.upper, count) else [])
    ensures !(isFirst && range.lower < 0) ==>
              added == Gap(if isFirst then 0 else lastRange.value.upper, range.lower) + [range]
                       + (if isLast then FinalGap(range.upper, count) else [])
  {
    added := [];
    if isFirst {
      if range.lower == 0 {
        added := added + [range];
      } else if range.lower > 0 {
        added := added + [Range(0, range.lower)];
        added := added + [range];
      }
    } else if lastRange.Some? {
      var previous := lastRange.value;
      if previous.upper == range.lower {
        added := added + [range];
      } else {
        added := added + [Range(previous.upper, range.lower)];
        added := added + [range];
      }
    }
    if isLast {
      if range.upper < count {
        added := added + [Range(range.upper, count)];
      }
    }
  }

  /** `allSubrangesChunked(by:)`, following the source's loop and its
      `lastRange` bookkeeping. */
  method AllSubrangesChunked(count: nat, ranges: seq<Range>) returns (result: seq<Range>)
    requires SortedRanges(ranges)
    ensures result == Subranges(count, ranges)
    ensures |ranges| == 0 ==> result == [Range(0, count)]
    ensures |ranges| > 0 && ranges[0].lower >= 0 ==>
              && Tiles(result, 0, Max(count, ranges[|ranges| - 1].upper))
              && IsSubsequence(ranges, result)
    ensures |ranges| > 0 && ranges[0].lower < 0 ==>
              && Tiles(result, ranges[0].upper, Max(count, ranges[|ranges| - 1].upper))
              && IsSubsequence(ranges[1..], result)
  {
    if |ranges| == 0 {
      return [Range(0, count)];
    }
    ghost var whole := Subranges(count, ranges);
    result := [];
    var lastRange: Option<Range> := None;
    var index := 0;
    while index < |ranges|
      invariant 0 <= index <= |ranges|
      invariant index == 0 ==> result == [] && lastRange.None?
      invariant 0 < index ==> lastRange == Some(ranges[index - 1])
      invariant 0 < index < |ranges| ==> ranges[index - 1].upper <= ranges[index].lower
      invariant 0 < index < |ranges| ==>
                  result + CoverFrom(ranges[index - 1].upper, ranges[index..], count) == whole
      invariant index == |ranges| ==> result == whole
    {
      var range := ranges[index];
      assert ValidRange(range);
      var added := AppendedFor(index == 0, index == |ranges| - 1, range, lastRange, count);
      assert result + added + (if index + 1 < |ranges| then CoverFrom(range.upper, ranges[index + 1..], count) else [])
          == whole by {
        CoverStep(count, ranges, index, result, added);
      }
      result := result + added;
      lastRange := Some(range);
      if index + 1 < |ranges| {
        assert ranges[index].upper <= ranges[index + 1].lower;
      } else {
        assert result + [] == result;
      }
      index := index + 1;
    }
    SubrangesMeaning(count, ranges);
  }

  /** The loop invariant of `AllSubrangesChunked` across one iteration. */
  lemma CoverStep(count: nat, ranges: seq<Range>, index: nat, before: seq<Range>, added: seq<Range>)
    requires SortedRanges(ranges)
    requires index < |ranges|
    requires index == 0 ==> before == []
    requires 0 < index ==> before + CoverFrom(ranges[index - 1].upper, ranges[index..], count) == Subranges(count, ranges)
    requires var range := ranges[index];
             var isLast := index == |ranges| - 1;
             && (index == 0 && range.lower < 0 ==> added == (if isLast then FinalGap(range.upper, count) else []))
             && (!(index == 0 && range.lower < 0) ==>
                   added == Gap(if index == 0 then 0 else ranges[index - 1].upper, range.lower) + [range]
                            + (if isLast then FinalGap(range.upper, count) else []))
    ensures index + 1 < |ranges| ==> SortedRanges(ranges[index + 1..]) && ranges[index].upper <= ranges[index + 1].lower
    ensures before + added + (if index + 1 < |ranges| then CoverFrom(ranges[index].upper, ranges[index + 1..], count) else [])
         == Subranges(count, ranges)
  {
    var range := ranges[index];
    assert ValidRange(range);
    if index == 0 && range.lower < 0 {
      CoverStepDropped(count, ranges, added);
    } else {
      var from := if index == 0 then 0 else ranges[index - 1].upper;
      assert before + CoverFrom(from, ranges[index..], count) == Subranges(count, ranges) by {
        if index == 0 {
          assert ranges[0..] == ranges;
        }
      }
      CoverStepKept(count, ranges, index, from, before, added);
    }
  }

  lemma CoverStepDropped(count: nat, ranges: seq<Range>, added: seq<Range>)
    requires SortedRanges(ranges)
    requires |ranges| > 0 && ranges[0].lower < 0
    requires added == (if |ranges| == 1 then FinalGap(ranges[0].upper, count) else [])
    ensures 1 < |ranges| ==> SortedRanges(ranges[1..]) && ranges[0].upper <= ranges[1].lower
    ensures [] + added + (if 1 < |ranges| then CoverFrom(ranges[0].upper, ranges[1..], count) else [])
         == Subranges(count, ranges)
  {
    assert SortedRanges(ranges[1..]);
    if |ranges| == 1 {
      assert ranges[1..] == [];
    } else {
      assert ranges[1..][0] == ranges[1];
    }
  }

  lemma CoverStepKept(count: nat, ranges: seq<Range>, index: nat, from: int, before: seq<Range>, added: seq<Range>)
    requires SortedRanges(ranges)
    requires index < |ranges| && from <= ranges[index].lower
    requires before + CoverFrom(from, ranges[index..], count) == Subranges(count, ranges)
    requires added == Gap(from, ranges[index].lower) + [ranges[index]]
                      + (if index == |ranges| - 1 then FinalGap(ranges[index].upper, count) else [])
    ensures index + 1 < |ranges| ==> SortedRanges(ranges[index + 1..]) && ranges[index].upper <= ranges[index + 1].lower
    ensures before + added + (if index + 1 < |ranges| then CoverFrom(ranges[index].upper, ranges[index + 1..], count) else [])
         == Subranges(count, ranges)
  {
    var range := ranges[index];
    var head := Gap(from, range.lower) + [range];
    CoverAt(from, ranges, index, count);
    if index + 1 < |ranges| {
      var rest := CoverFrom(range.upper, ranges[index + 1..], count);
      assert added == head + [];
      calc {
        before + added + rest;
        before + head + rest;
        { AppendAssoc(before, head, rest); }
        before + (head + rest);
      }
    } else {
      var last := FinalGap(range.upper, count);
      calc {
        before + added + [];
        before + (head + last);
      }
    }
  }

  /** The meaning of `Subranges` for non-empty input. */
  lemma SubrangesMeaning(count: nat, ranges: seq<Range>)
    requires SortedRanges(ranges)
    requires |ranges| > 0
    ensures ranges[0].lower >= 0 ==>
              && Tiles(Subranges(count, ranges), 0, Max(count, ranges[|ranges| - 1].upper))
              && IsSubsequence(ranges, Subranges(count, ranges))
    ensures ranges[0].lower < 0 ==>
              && Tiles(Subranges(count, ranges), ranges[0].upper, Max(count, ranges[|ranges| - 1].upper))
              && IsSubsequence(ranges[1..], Subranges(count, ranges))
  {
    if ranges[0].lower >= 0 {
      CoverFromTiles(0, ranges, count);
      CoverFromKeepsRanges(0, ranges, count);
    } else {
      var rest := ranges[1..];
      assert SortedRanges(rest);
      assert |rest| > 0 ==> rest[0] == ranges[1] && rest[|rest| - 1] == ranges[|ranges| - 1];
      assert ValidRange(ranges[0]);
      CoverFromTiles(ranges[0].upper, rest, count);
      CoverFromKeepsRanges(ranges[0].upper, rest, count);
    }
  }

  /** The slices of `s` at `ranges`. */
  function Slices<T>(s: seq<T>, ranges: seq<Range>): (r: seq<seq<T>>)
    requires forall i :: 0 <= i < |ranges| ==> 0 <= ranges[i].lower <= ranges[i].upper <= |s|
    ensures |r| == |ranges|
    ensures forall i :: 0 <= i < |r| ==> r[i] == s[ranges[i].lower..ranges[i].upper]
    decreases |ranges|
  {
    if |ranges| == 0 then [] else Slices(s, ranges[..|ranges| - 1]) + [s[ranges[|ranges| - 1].lower..ranges[|ranges| - 1].upper]]
  }

  lemma {:induction false} TilesOrdered(ranges: seq<Range>, from: int, to: int)
    requires Tiles(ranges, from, to)
    ensures from <= to
    ensures forall i :: 0 <= i < |ranges| ==> from <= ranges[i].lower && ranges[i].upper <= to
    decreases |ranges|
  {
    if |ranges| > 0 {
      var n := |ranges| - 1;
      var front := ranges[..n];
      assert ValidRange(ranges[n]);
      assert n > 0 ==> front[n - 1] == ranges[n - 1];
      assert Tiles(front, from, ranges[n].lower);
      TilesOrdered(front, from, ranges[n].lower);
      forall i | 0 <= i < |ranges|
        ensures from <= ranges[i].lower && ranges[i].upper <= to
      {
        if i < n {
          assert ranges[i] == front[i];
        }
      }
    }
  }

  /** Slicing along a tiling and concatenating gives back the tiled stretch. */
  lemma {:induction false} FlattenSlicesOfTiling<T>(s: seq<T>, ranges: seq<Range>, from: int, to: int)
    requires Tiles(ranges, from, to)
    requires 0 <= from && to <= |s|
    ensures forall i :: 0 <= i < |ranges| ==> 0 <= ranges[i].lower <= ranges[i].upper <= |s|
    ensures from <= to && Flatten(Slices(s, ranges)) == s[from..to]
    decreases |ranges|
  {
    TilesOrdered(ranges, from, to);
    if |ranges| > 0 {
      var n := |ranges| - 1;
      var front := ranges[..n];
      var last := ranges[n];
      assert ValidRange(last);
      assert n > 0 ==> front[n - 1] == ranges[n - 1];
      assert Tiles(front, from, last.lower);
      FlattenSlicesOfTiling(s, front, from, last.lower);
      assert ranges[..|ranges| - 1] == front;
      FlattenSnoc(Slices(s, front), s[last.lower..last.upper]);
      assert s[from..last.lower] + s[last.lower..to] == s[from..to];
    }
  }

  /** Where the elements covered by the chunks of `chunked(by:)` begin: at
      zero, or, when a first range starting before zero is dropped, at its
      end (no further than `count`). */
  function ChunksStart(count: nat, ranges: seq<Range>): int {
    if |ranges| > 0 && ranges[0].lower < 0 then Min(ranges[0].upper, count) else 0
  }

  /** The sorted ranges for which `chunked(by:)` slices only within a
      collection of `count` elements: the first range does not end before
      zero, and the last one ends by `count`, unless it is a lone first
      range starting before zero, which is dropped without being sliced. */
  predicate SlicesInBounds(count: nat, ranges: seq<Range>) {
    || |ranges| == 0
    || (&& ranges[0].upper >= 0
        && (ranges[|ranges| - 1].upper <= count || (|ranges| == 1 && ranges[0].lower < 0)))
  }

  /** Every range lies within `0 ..< count`, so slicing at it does not trap. */
  predicate WithinCount(count: nat, ranges: seq<Range>) {
    forall i :: 0 <= i < |ranges| ==> 0 <= ranges[i].lower <= ranges[i].upper <= count
  }

  /** `chunked(by:)` with ranges: the slices at `allSubrangesChunked(by:)`.
      Slicing traps unless the ranges meet `SlicesInBounds`. The chunks put
      back together are the collection from `ChunksStart` on: everything,
      unless a first range starting before zero was dropped, in which case
      the elements before its end are lost. */
  method ChunkedByRanges<T>(s: seq<T>, ranges: seq<Range>) returns (chunks: seq<seq<T>>)
    requires SortedRanges(ranges)
    requires SlicesInBounds(|s|, ranges)
    ensures WithinCount(|s|, Subranges(|s|, ranges))
    ensures chunks == Slices(s, Subranges(|s|, ranges))
    ensures 0 <= ChunksStart(|s|, ranges) <= |s| && Flatten(chunks) == s[ChunksStart(|s|, ranges)..|s|]
    ensures |ranges| > 0 && ranges[0].lower >= 0 ==> |ranges| <= |chunks| <= 2 * |ranges| + 1
  {
    var subranges := AllSubrangesChunked(|s|, ranges);
    SubrangesWithin(s, ranges);
    chunks := Slices(s, subranges);
  }

  /** Under `SlicesInBounds` the subranges tile `ChunksStart ..< count`. */
  lemma SubrangesTileFromStart(count: nat, ranges: seq<Range>)
    requires SortedRanges(ranges)
    requires SlicesInBounds(count, ranges)
    ensures 0 <= ChunksStart(count, ranges) <= count
    ensures Tiles(Subranges(count, ranges), ChunksStart(count, ranges), count)
  {
    if |ranges| > 0 {
      var first, last := ranges[0], ranges[|ranges| - 1];
      assert ValidRange(first) && ValidRange(last);
      if |ranges| == 1 && first.lower < 0 {
        assert Subranges(count, ranges) == FinalGap(first.upper, count);
      } else {
        assert first.upper <= last.upper;
        SubrangesMeaning(count, ranges);
      }
    }
  }

  /** Slicing along the subranges and concatenating gives the collection
      from `ChunksStart` on; with no first range dropped there is at least
      one subrange per range and at most one gap more than ranges. */
  lemma SubrangesWithin<T>(s: seq<T>, ranges: seq<Range>)
    requires SortedRanges(ranges)
    requires SlicesInBounds(|s|, ranges)
    ensures WithinCount(|s|, Subranges(|s|, ranges))
    ensures 0 <= ChunksStart(|s|, ranges) <= |s|
    ensures Flatten(Slices(s, Subranges(|s|, ranges))) == s[ChunksStart(|s|, ranges)..|s|]
    ensures |ranges| > 0 && ranges[0].lower >= 0 ==> |ranges| <= |Subranges(|s|, ranges)| <= 2 * |ranges| + 1
  {
    SubrangesTileFromStart(|s|, ranges);
    SubrangesWithinCount(|s|, ranges);
    FlattenSubranges(s, ranges);
    if |ranges| > 0 && ranges[0].lower >= 0 {
      SubrangesCount(|s|, ranges);
    }
  }

  /** When slicing cannot trap, every subrange lies within the collection. */
  lemma SubrangesWithinCount(count: nat, ranges: seq<Range>)
    requires SortedRanges(ranges)
    requires SlicesInBounds(count, ranges)
    ensures WithinCount(count, Subranges(count, ranges))
  {
    SubrangesTileFromStart(count, ranges);
    TilesOrdered(Subranges(count, ranges), ChunksStart(count, ranges), count);
  }

  /** When slicing cannot trap, the slices rebuild the collection from
      `ChunksStart` on. */
  lemma FlattenSubranges<T>(s: seq<T>, ranges: seq<Range>)
    requires SortedRanges(ranges)
    requires SlicesInBounds(|s|, ranges)
    requires WithinCount(|s|, Subranges(|s|, ranges))
    ensures 0 <= ChunksStart(|s|, ranges) <= |s|
    ensures Flatten(Slices(s, Subranges(|s|, ranges))) == s[ChunksStart(|s|, ranges)..|s|]
  {
    var start := ChunksStart(|s|, ranges);
    SubrangesTileFromStart(|s|, ranges);
    FlattenSlicesOfTiling(s, Subranges(|s|, ranges), start, |s|);
  }

  /** With no first range dropped there is at least one subrange per range
      and at most one gap more than ranges. */
  lemma SubrangesCount(count: nat, ranges: seq<Range>)
    requires SortedRanges(ranges)
    requires |ranges| > 0 && ranges[0].lower >= 0
    ensures |ranges| <= |Subranges(count, ranges)| <= 2 * |ranges| + 1
  {
    SubrangesMeaning(count, ranges);
    CoverFromLength(0, ranges, count);
    SubsequenceLength(ranges, Subranges(count, ranges));
  }

  /** A non-empty cover begins at `from`. */
  lemma CoverFromStarts(from: int, ranges: seq<Range>, count: int)
    requires SortedRanges(ranges)
    requires |ranges| > 0 && from <= ranges[0].lower
    ensures |CoverFrom(from, ranges, count)| > 0 && CoverFrom(from, ranges, count)[0].lower == from
  {
  }

  /** An entry of a subsequence is an entry of the whole. */
  lemma {:induction false} SubsequenceMember<X>(xs: seq<X>, ys: seq<X>, k: nat)
    requires IsSubsequence(xs, ys) && k < |xs|
    ensures xs[k] in ys
    decreases |ys|
  {
    if xs[0] == ys[0] {
      if k > 0 {
        SubsequenceMember(xs[1..], ys[1..], k - 1);
        assert xs[1..][k - 1] == xs[k];
        assert xs[k] in ys[1..];
      }
    } else {
      SubsequenceMember(xs, ys[1..], k);
      assert xs[k] in ys[1..];
    }
  }

  /** `SlicesInBounds` is exactly the condition under which every subrange
      `chunked(by:)` slices at lies within the collection: when it fails,
      some subrange reaches below zero or past `count`, and slicing traps. */
  lemma SlicesInBoundsExactly(count: nat, ranges: seq<Range>)
    requires SortedRanges(ranges)
    ensures SlicesInBounds(count, ranges) <==> WithinCount(count, Subranges(count, ranges))
  {
    var subranges := Subranges(count, ranges);
    if SlicesInBounds(count, ranges) {
      SubrangesTileFromStart(count, ranges);
      TilesOrdered(subranges, ChunksStart(count, ranges), count);
    } else {
      var first, last := ranges[0], ranges[|ranges| - 1];
      assert ValidRange(first);
      if first.upper < 0 {
        if |ranges| == 1 {
          assert subranges[0] == Range(first.upper, count);
        } else {
          assert SortedRanges(ranges[1..]) && ranges[1..][0] == ranges[1];
          CoverFromStarts(first.upper, ranges[1..], count);
        }
        assert subranges[0].lower < 0;
      } else if first.lower >= 0 {
        SubrangesMeaning(count, ranges);
        SubsequenceMember(ranges, subranges, |ranges| - 1);
        assert last in subranges && last.upper > count;
      } else {
        SubrangesMeaning(count, ranges);
        SubsequenceMember(ranges[1..], subranges, |ranges| - 2);
        assert ranges[1..][|ranges| - 2] == last;
        assert last in subranges && last.upper > count;
      }
    }
  }

  /** As written, a first range starting before zero is dropped from the
      subranges, and `chunked(by:)` loses the elements before its end. */
  lemma NegativeFirstRangeIsDropped()
    ensures Subranges(3, [Range(-1, 1)]) == [Range(1, 3)]
    ensures Range(-1, 1) !in Subranges(3, [Range(-1, 1)])
    ensures Flatten(Slices([10, 20, 30], Subranges(3, [Range(-1, 1)]))) == [20, 30]
  {
    var s := [10, 20, 30];
    assert Subranges(3, [Range(-1, 1)]) == [Range(1, 3)];
    var chunks := Slices(s, [Range(1, 3)]);
    assert |chunks| == 1 && chunks[0] == s[1..3] == [20, 30];
    assert chunks == [[20, 30]];
    assert Flatten(chunks) == Flatten([]) + [20, 30];
  }

  /** `allSubrangesChunked(by:)` corrected to keep a first range that starts
      before zero, as the other branches keep every range: the cover then
      starts at that range. */
  function SubrangesKeepingFirst(count: nat, ranges: seq<Range>): (r: seq<Range>)
    requires SortedRanges(ranges)
    ensures |ranges| == 0 ==> r == [Range(0, count)]
    ensures |ranges| > 0 ==>
              && IsSubsequence(ranges, r)
              && Tiles(r, Min(0, ranges[0].lower), Max(count, ranges[|ranges| - 1].upper))
  {
    if |ranges| == 0 then [Range(0, count)]
    else
      var from := Min(0, ranges[0].lower);
      CoverFromTiles(from, ranges, count);
      CoverFromKeepsRanges(from, ranges, count);
      assert CoverEnd(from, ranges, count) == Max(count, ranges[|ranges| - 1].upper);
      CoverFrom(from, ranges, count)
  }

  /** The correction changes nothing unless the first range starts before zero. */
  lemma SubrangesKeepingFirstAgrees(count: nat, ranges: seq<Range>)
    requires SortedRanges(ranges)
    requires |ranges| == 0 || ranges[0].lower >= 0
    ensures SubrangesKeepingFirst(count, ranges) == Subranges(count, ranges)
  {
  }

  lemma {:induction false} CoverFromLength(from: int, ranges: seq<Range>, count: int)
    requires SortedRanges(ranges)
    requires |ranges| > 0 ==> from <= ranges[0].lower
    ensures |CoverFrom(from, ranges, count)| <= 2 * |ranges| + 1
    decreases |ranges|
  {
    if |ranges| > 0 {
      assert SortedRanges(ranges[1..]);
      assert |ranges| > 1 ==> ranges[1..][0] == ranges[1];
      assert ValidRange(ranges[0]);
      CoverFromLength(ranges[0].upper, ranges[1..], count);
    }
  }

  lemma {:induction false} SubsequenceLength<X>(xs: seq<X>, ys: seq<X>)
    requires IsSubsequence(xs, ys)
    ensures |xs| <= |ys|
    decreases |ys|
  {
    if |xs| > 0 {
      if xs[0] == ys[0] {
        SubsequenceLength(xs[1..], ys[1..]);
      } else {
        SubsequenceLength(xs, ys[1..]);
      }
    }
  }
}
