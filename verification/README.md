# Swallow standard-library helpers, modelled in Dafny

Swallow adds small helpers to Swift's standard library. This project models
four of them and proves properties of the model:

- the `Collection` extensions: `nilIfEmpty`, consecutive pairs, safe
  indexing, cycling indices, prefixes, `reduce`, `splitIncludingSeparators`,
  head/tail unfolding, and chunking by a size or by ranges;
- the three-valued `Trilean`;
- the `Boolean` protocol's combinators `then` / `or`, `&&->`, `||>`, `&&=` and `||=`;
- the `Optional` helpers: conditional construction, `??=`, `=??`,
  `compact`, `unwrap` and friends, and `!!`.

The project has one module per concept:

| module | file | models |
|---|---|---|
| `Wrappers` | `wrappers.dfy` | `Optional` (`Option`), `throws` results (`Result`), and `Either` |
| `Numbers` | `numbers.dfy` | `Swift.min` / `Swift.max` on `Int` |
| `Trileans` | `trilean.dfy` | `Trilean.swift` |
| `Booleans` | `boolean.dfy` | `Boolean.swift` |
| `Optionals` | `optional.dfy` | `Optional++.swift` |
| `CollectionBasics` | `collection_basics.dfy` | indexing, prefixing, reduction and traversal in `Collection++.swift` |
| `CollectionSplit` | `collection_split.dfy` | `splitIncludingSeparators` |
| `CollectionChunks` | `collection_chunks.dfy` | `chunked(by:)` and `allSubrangesChunked(by:)` |

Modelling choices:

- A collection is a `seq<T>` indexed by the integers `0 ..< |s|`, and a
  `Range<Int>` is the datatype `Range(lower, upper)`.
- Lazy sequences and iterators are the eager sequence of the elements they
  would produce.
- An `inout` parameter becomes a function that returns the new value.
- Autoclosures are passed already evaluated.
- A Swift trap becomes a precondition: a force unwrap of `nil`, an invalid
  `Range`, a zero stride or an out-of-bounds slice.
- `splitIncludingSeparators` and `allSubrangesChunked(by:)` are methods that
  follow the source's loop. Each is proved equal to an independent recursive
  definition (`Split`, `Subranges`), and the properties are lemmas about those
  definitions.

## Model

| member | source | states |
|---|---|---|
| Trileans.RawValue | Sources/Intermodular/Helpers/Swift/Trilean.swift:7-11 | the raw values lie in -1..1 and their sign is the truth value: positive exactly for true, negative exactly for false |
| Trileans.FromRawValue | Sources/Intermodular/Helpers/Swift/Trilean.swift:7-11 | `init(rawValue:)` succeeds exactly on -1, 0 and 1, and the case it returns has that raw value |
| Trileans.RawValueRoundTrip | Sources/Intermodular/Helpers/Swift/Trilean.swift:7-11 | raw value then `init(rawValue:)` gives the case back, and distinct cases have distinct raw values |
| Trileans.Description | Sources/Intermodular/Helpers/Swift/Trilean.swift:22-34 | each case prints as its own name: `"false"`, `"unknown"` and `"true"` |
| Trileans.DescriptionInjective | Sources/Intermodular/Helpers/Swift/Trilean.swift:22-34 | distinct cases have distinct descriptions |
| Trileans.Value | Sources/Intermodular/Helpers/Swift/Trilean.swift:45-55 | `value` is `nil` exactly for unknown, and otherwise true exactly for `.true` |
| Trileans.FromOptional | Sources/Intermodular/Helpers/Swift/Trilean.swift:61-63 | `Trilean(_: Bool?)` is a right inverse of the `value` getter |
| Trileans.WithValue | Sources/Intermodular/Helpers/Swift/Trilean.swift:56-58 | after setting `value`, the getter returns the value set, and the old case has no influence on the result |
| Trileans.ValueBijection | Sources/Intermodular/Helpers/Swift/Trilean.swift:43-63 | `value` and `Trilean(_:)` are inverse bijections between `Trilean` and `Bool?`, and setting `value` to its own value changes nothing |
| Trileans.FromBool | Sources/Intermodular/Helpers/Swift/Trilean.swift:36-41 | a boolean literal gives a known case whose value is the literal |
| Trileans.BoolValue | Sources/Intermodular/Helpers/Swift/Trilean.swift:15-20 | `boolValue` is true exactly for `.true`, so unknown counts as false |
| Trileans.Not | Sources/Intermodular/Helpers/Swift/Trilean.swift:70-72 | `!` negates the raw value |
| Trileans.NotTable | Sources/Intermodular/Helpers/Swift/Trilean.swift:70-72 | `!` swaps true and false, keeps unknown, and is an involution |
| Trileans.And | Sources/Intermodular/Helpers/Swift/Trilean.swift:75-77 | `&&` is the minimum of the raw values, which is Kleene conjunction |
| Trileans.AndCases | Sources/Intermodular/Helpers/Swift/Trilean.swift:75-77 | `&&` is false iff either side is false, unknown iff neither is false and one is unknown, and true iff both are true |
| Trileans.Or | Sources/Intermodular/Helpers/Swift/Trilean.swift:80-82 | `\|\|` is the maximum of the raw values, which is Kleene disjunction |
| Trileans.OrCases | Sources/Intermodular/Helpers/Swift/Trilean.swift:80-82 | `\|\|` is true iff either side is true, unknown iff neither is true and one is unknown, and false iff both are false |
| Trileans.AndOrCommutativeAssociative | Sources/Intermodular/Helpers/Swift/Trilean.swift:75-82 | `&&` and `\|\|` are commutative and associative |
| Trileans.DeMorgan | Sources/Intermodular/Helpers/Swift/Trilean.swift:70-82 | De Morgan's laws hold for `!`, `&&` and `\|\|` |
| Trileans.AgreesWithBool | Sources/Intermodular/Helpers/Swift/Trilean.swift:36-41 | on boolean literals, `!`, `&&` and `\|\|` agree with `Bool`'s operators |
| Trileans.BoolValueProjection | Sources/Intermodular/Helpers/Swift/Trilean.swift:15-20 | `boolValue` commutes with `&&` and `\|\|`, but not with `!` |
| Booleans.Then | Sources/Intermodular/Helpers/Swift/Boolean.swift:19-21 | `then` yields a value exactly when `boolValue` is true, and the value is the one given |
| Booleans.ThenOptional | Sources/Intermodular/Helpers/Swift/Boolean.swift:30-32 | the optional overload of `then` passes the optional through unchanged when true, and gives `nil` when false |
| Booleans.AndThen | Sources/Intermodular/Helpers/Swift/Boolean.swift:25-27 | `lhs &&-> rhs` equals `lhs.then(rhs)` |
| Booleans.AndThenOptional | Sources/Intermodular/Helpers/Swift/Boolean.swift:34-37 | `lhs &&-> rhs` with an optional `rhs` equals the optional overload of `then` |
| Booleans.OrElse | Sources/Intermodular/Helpers/Swift/Boolean.swift:44-46 | `or` yields a value exactly when `boolValue` is false, and the value is the one given |
| Booleans.OrElseOptional | Sources/Intermodular/Helpers/Swift/Boolean.swift:55-57 | the optional overload of `or` passes the optional through when false, and gives `nil` when true |
| Booleans.OrThen | Sources/Intermodular/Helpers/Swift/Boolean.swift:50-52 | `lhs \|\|> rhs` equals `lhs.or(rhs)` |
| Booleans.OrThenOptional | Sources/Intermodular/Helpers/Swift/Boolean.swift:59-63 | `lhs \|\|> rhs` with an optional `rhs` equals the optional overload of `or` |
| Booleans.OptionalOverloadsAgree | Sources/Intermodular/Helpers/Swift/Boolean.swift:19-57 | given a present payload, each optional overload agrees with the plain overload |
| Booleans.ThenOrComplementary | Sources/Intermodular/Helpers/Swift/Boolean.swift:19-46 | exactly one of `then` and `or` yields the value |
| Booleans.AndAssign | Sources/Intermodular/Helpers/Swift/Boolean.swift:71-75 | `&&=` replaces the left side only when it is true, so the truth of the result is the conjunction |
| Booleans.OrAssign | Sources/Intermodular/Helpers/Swift/Boolean.swift:78-86 | `\|\|=` replaces the left side only with a true right side, so the truth of the result is the disjunction and a false value is never written |
| Booleans.AssignIdempotent | Sources/Intermodular/Helpers/Swift/Boolean.swift:71-86 | repeating `&&=` or `\|\|=` with the same right side changes nothing more |
| Booleans.BoolAssignIsConnective | Sources/Intermodular/Helpers/Swift/Boolean.swift:71-86 | on `Bool`, `&&=` and `\|\|=` compute `&&` and `\|\|` |
| Booleans.TrileanAssignVersusOperators | Sources/Intermodular/Helpers/Swift/Boolean.swift:71-86 | on `Trilean`, the compound assignments agree with `&&` and `\|\|` under `boolValue`, but not in value: `unknown &&= false` and `false \|\|= unknown` differ from the operators |
| Optionals.OptionalIf | Sources/Intermodular/Extensions/Swift/Optional++.swift:12-14 | `Optional(_:if:)` holds a value exactly when the condition holds, and that value is the one given |
| Optionals.OptionalIfOptional | Sources/Intermodular/Extensions/Swift/Optional++.swift:17-19 | the optional overload passes the optional through when the condition holds, and is `nil` otherwise |
| Optionals.OptionalIfOverloadsAgree | Sources/Intermodular/Extensions/Swift/Optional++.swift:12-19 | the optional overload of `Optional(_:if:)` given a present payload is the plain one, and given `nil` is `nil` |
| Optionals.MapInto | Sources/Intermodular/Extensions/Swift/Optional++.swift:24-26 | `map(into:)` overwrites the target with the payload, and leaves it alone for `nil` |
| Optionals.MapIntoIsAssignIfSome | Sources/Intermodular/Extensions/Swift/Optional++.swift:24-26 | `self.map(into: &x)` and `x =?? self` have the same effect |
| Optionals.Mutate | Sources/Intermodular/Extensions/Swift/Optional++.swift:29-35 | `mutate` leaves `nil` alone and returns `nil`; otherwise it stores the transformed payload and returns the transform's result |
| Optionals.MutateIsMap | Sources/Intermodular/Extensions/Swift/Optional++.swift:29-35 | `mutate` maps the payload: the new optional is the payload mapped to its update, the result is the payload mapped to the transform's result |
| Optionals.Remove | Sources/Intermodular/Extensions/Swift/Optional++.swift:38-44 | `remove` returns the payload and leaves `nil` behind |
| Optionals.RemoveThenRestore | Sources/Intermodular/Extensions/Swift/Optional++.swift:38-52 | `remove()` followed by `??=` of the removed payload restores the optional |
| Optionals.CoalesceAssign | Sources/Intermodular/Extensions/Swift/Optional++.swift:48-52 | `??=` always leaves a value, keeps an existing one, and fills `nil` with the right side |
| Optionals.CoalesceAssignOptional | Sources/Intermodular/Extensions/Swift/Optional++.swift:54-58 | the optional `??=` changes the left side only when it is `nil` and the right side is not; the result is `nil` iff both are |
| Optionals.CoalesceOverloadsAgree | Sources/Intermodular/Extensions/Swift/Optional++.swift:48-58 | the two `??=` overloads agree on a present right side, and a `nil` right side changes nothing |
| Optionals.CoalesceAssignIdempotent | Sources/Intermodular/Extensions/Swift/Optional++.swift:48-52 | `??=` is idempotent, and a later `??=` never overrides an earlier one |
| Optionals.AssignIfSome | Sources/Intermodular/Extensions/Swift/Optional++.swift:60-64 | `=??` replaces the left side exactly when the right side has a value |
| Optionals.AssignIfSomeNested | Sources/Intermodular/Extensions/Swift/Optional++.swift:66-68 | the doubly-optional `=??` replaces only when both levels hold a value |
| Optionals.Compact | Sources/Intermodular/Extensions/Swift/Optional++.swift:72-74 | `compact` on `T??` has a value exactly when both levels do, and the value is the innermost payload |
| Optionals.Compact3 | Sources/Intermodular/Extensions/Swift/Optional++.swift:76-78 | the same for three levels |
| Optionals.Compact4 | Sources/Intermodular/Extensions/Swift/Optional++.swift:80-82 | the same for four levels |
| Optionals.CompactLaws | Sources/Intermodular/Extensions/Swift/Optional++.swift:72-78 | `compact` undoes wrapping, and flattening three levels equals flattening twice, either inner or outer first |
| Optionals.UnwrapOrThrow | Sources/Intermodular/Extensions/Swift/Optional++.swift:107-115 | `unwrapOrThrow` succeeds exactly on a value, returning it, and otherwise throws the given error |
| Optionals.Unwrap | Sources/Intermodular/Extensions/Swift/Optional++.swift:146-152 | `unwrap` is `unwrapOrThrow` with `UnwrappingError.unexpectedlyFoundNil` |
| Optionals.UnwrapRoundTrip | Sources/Intermodular/Extensions/Swift/Optional++.swift:107-152 | `try?` of `unwrapOrThrow` or `unwrap` gives the optional back |
| Optionals.ForceUnwrap | Sources/Intermodular/Extensions/Swift/Optional++.swift:173-175 | on a value, `forceUnwrap` returns what `unwrap` returns; `nil` traps |
| Optionals.UnwrapOrDie | Sources/Intermodular/Extensions/Swift/Optional++.swift:187-193 | `lhs !! message` returns the payload; `nil` is a fatal error |
| Optionals.IsNilOrEmpty | Sources/Intermodular/Extensions/Swift/Optional++.swift:179-183 | `isNilOrEmpty` is true exactly for `nil` or an empty collection |
| CollectionBasics.NilIfEmpty | Sources/Swallow/Intermodular/Extensions/Swift/Collection++.swift:9-17 | `nilIfEmpty` is `nil` exactly for an empty collection, and otherwise the collection itself |
| CollectionBasics.NilIfEmptyOptional | Sources/Swallow/Intermodular/Extensions/Swift/Collection++.swift:19-23 | on an optional collection, `nilIfEmpty` is `nil` exactly when `isNilOrEmpty` holds, and otherwise the optional unchanged |
| CollectionBasics.NilIfEmptyRoundTrip | Sources/Swallow/Intermodular/Extensions/Swift/Collection++.swift:9-23 | `nilIfEmpty() ?? []` gives the collection back, and the optional overload on a present collection is the plain one |
| CollectionBasics.Consecutives | Sources/Swallow/Intermodular/Extensions/Swift/Collection++.swift:28-52 | `consecutives` yields one pair per adjacent pair of elements, in order, which are the full pairs of `consecutivesAllowingHalfEmptyPairs` |
| CollectionBasics.ConsecutivesAllowingHalfEmptyPairs | Sources/Swallow/Intermodular/Extensions/Swift/Collection++.swift:54-56 | each element is paired with the next one, and only the last pair is half empty |
| CollectionBasics.LastIndex | Sources/Swallow/Intermodular/Extensions/Swift/Collection++.swift:66-72 | `lastIndex` is `nil` only for an empty collection, and otherwise the one valid index whose successor is not valid |
| CollectionBasics.Second | Sources/Swallow/Intermodular/Extensions/Swift/Collection++.swift:74-80 | `second` exists exactly when there are two or more elements, and is the element at offset 1 |
| CollectionBasics.Last | Sources/Swallow/Intermodular/Extensions/Swift/Collection++.swift:82-88 | `last` exists exactly for a non-empty collection, and is the final element |
| CollectionBasics.AccessorsAreTrySubscripts | Sources/Swallow/Intermodular/Extensions/Swift/Collection++.swift:66-88 | `last` and `second` are `subscript(try:)` at `count - 1` and at 1 |
| CollectionBasics.ContainsAfterIsFullPair | Sources/Swallow/Intermodular/Extensions/Swift/Collection++.swift:94-96 | `contains(after:)` holds exactly at the indices where `consecutivesAllowingHalfEmptyPairs()` has a full pair, that pair being the element and its successor; it fails exactly before the start and at or after the last index |
| CollectionBasics.TrySubscript | Sources/Swallow/Intermodular/Extensions/Swift/Collection++.swift:150-170 | `subscript(try:)` gives the element exactly for a valid index, and `nil` otherwise |
| CollectionBasics.TrySliceAsWritten | Sources/Swallow/Intermodular/Extensions/Swift/Collection++.swift:172-181 | as written, `subscript(try bounds:)` returns the slice exactly when `lower` is a valid index and `1 <= upper <= count`, so never for an empty range at either end |
| CollectionBasics.TrySliceAsWrittenEmptyRanges | Sources/Swallow/Intermodular/Extensions/Swift/Collection++.swift:98-100 | the as-written check rejects the empty range at the start and at the end but accepts one strictly inside |
| CollectionBasics.TrySlice | Sources/Swallow/Intermodular/Extensions/Swift/Collection++.swift:172-181 | corrected `subscript(try bounds:)`: it returns the slice exactly when slicing would not trap |
| CollectionBasics.TrySliceAgreesOnNonEmpty | Sources/Swallow/Intermodular/Extensions/Swift/Collection++.swift:172-181 | the as-written and corrected bounds checks agree on every non-empty range |
| CollectionBasics.Cycle | Sources/Swallow/Intermodular/Extensions/Swift/Collection++.swift:183-190 | `cycle(index:)` keeps indices below `count`, reduces larger ones modulo `count`, and maps every non-negative index to a valid one |
| CollectionBasics.CyclingSubscript | Sources/Swallow/Intermodular/Extensions/Swift/Collection++.swift:192-197 | `subscript(cycling:)` is the element at the index modulo `count` |
| CollectionBasics.CyclingIsPeriodic | Sources/Swallow/Intermodular/Extensions/Swift/Collection++.swift:183-197 | cycling fixes valid indices, is idempotent, and `subscript(cycling:)` is periodic in `count` |
| CollectionBasics.PrefixUpTo | Sources/Swallow/Intermodular/Extensions/Swift/Collection++.swift:210-216 | `prefix(_: Int?)` is a prefix of length `min(maxLength, count)`, or the whole collection for `nil` |
| CollectionBasics.FirstIndex | Sources/Swallow/Intermodular/Extensions/Swift/Collection++.swift:221 | `firstIndex(where:)` gives the first index satisfying the predicate, or `nil` when none does |
| CollectionBasics.PrefixTill | Sources/Swallow/Intermodular/Extensions/Swift/Collection++.swift:218-226 | `prefix(till:)` is a prefix that, unless the first element is a terminator, contains no terminator; when shorter than the collection it is non-empty and stops just before a terminator |
| CollectionBasics.PrefixTillElement | Sources/Swallow/Intermodular/Extensions/Swift/Collection++.swift:228-232 | `prefix(till: element)` is the whole collection when the element is absent or first, and otherwise stops just before the element's first occurrence |
| CollectionBasics.FoldLeftSnoc | Sources/Swallow/Intermodular/Extensions/Swift/Collection++.swift:244 | folding one more element combines it into the previous fold |
| CollectionBasics.Reduce | Sources/Swallow/Intermodular/Extensions/Swift/Collection++.swift:238-245 | `reduce(_:)` is `nil` exactly for an empty collection, and otherwise folds the rest into the first element from the left |
| CollectionBasics.ReduceAppend | Sources/Swallow/Intermodular/Extensions/Swift/Collection++.swift:238-245 | reducing one more element combines it into the previous reduction |
| CollectionBasics.SplittingFirst | Sources/Swallow/Intermodular/Extensions/Swift/Collection++.swift:300-306 | `splittingFirst` is `nil` exactly for an empty collection, and otherwise head and tail rebuild the collection |
| CollectionBasics.UnfoldingForward | Sources/Swallow/Intermodular/Extensions/Swift/Collection++.swift:308-320 | `unfoldingForward` yields each element with the suffix after it, one step per element |
| CollectionSplit.SplitIncludingSeparators | Sources/Swallow/Intermodular/Extensions/Swift/Collection++.swift:251-283 | the single-pass loop computes the recursive reference split `Split` (cut at the first separator, recurse on the rest) |
| CollectionSplit.SplitKeepingEmptyRebuilds | Sources/Swallow/Intermodular/Extensions/Swift/Collection++.swift:251-283 | when empty pieces are kept, the output alternates piece / separator and starts and ends with a piece; putting the splitting elements back between the pieces rebuilds the collection; each separator is what the closure extracted from its splitting element |
| CollectionSplit.SplitCountsSeparators | Sources/Swallow/Intermodular/Extensions/Swift/Collection++.swift:251-283 | the number of separators emitted is the number of splitting elements, capped at `maxSplits` when it is positive |
| CollectionSplit.SplitPiecesButLastAreSeparatorFree | Sources/Swallow/Intermodular/Extensions/Swift/Collection++.swift:251-283 | every piece except possibly the final entry contains no splitting element |
| CollectionSplit.SplitPiecesAreSeparatorFree | Sources/Swallow/Intermodular/Extensions/Swift/Collection++.swift:251-283 | all pieces are free of splitting elements iff `maxSplits` is not positive or the collection has at most `maxSplits` splitting elements |
| CollectionSplit.SplitOmittingHasNoEmptyPieces | Sources/Swallow/Intermodular/Extensions/Swift/Collection++.swift:263-280 | with `omittingEmptySubsequences`, no piece is empty |
| CollectionSplit.SplitOmittingDropsEmptyPieces | Sources/Swallow/Intermodular/Extensions/Swift/Collection++.swift:263-280 | omitting empty subsequences gives the output with empty pieces kept, minus its empty pieces |
| CollectionChunks.FlattenSnoc | Sources/Swallow/Intermodular/Extensions/Swift/Collection++.swift:326-330 | helper behind `Chunked`'s concatenation clause: concatenating the chunks commutes with appending one chunk |
| CollectionChunks.Chunked | Sources/Swallow/Intermodular/Extensions/Swift/Collection++.swift:326-330 | `chunked(by: n)` gives no chunks for a negative `n`; for a positive `n`, the chunks concatenate to the collection, all but the last have length `n`, the last has 1 to `n` elements, and there are none only for an empty collection |
| CollectionChunks.AllSubrangesChunked | Sources/Swallow/Intermodular/Extensions/Swift/Collection++.swift:332-369 | the loop computes the reference `Subranges`: the whole range when no ranges are given, and otherwise back-to-back ranges that contain the given ranges in order, from 0 (or from the end of a dropped first range that starts below 0) to the later of `count` and the last range's end |
| CollectionChunks.SubrangesMeaning | Sources/Swallow/Intermodular/Extensions/Swift/Collection++.swift:332-369 | the reference `Subranges` tile their stretch without gaps or overlap and contain the given ranges in order |
| CollectionChunks.CoverFromTiles | Sources/Swallow/Intermodular/Extensions/Swift/Collection++.swift:350-365 | filling the gaps between sorted ranges and after the last one gives back-to-back ranges |
| CollectionChunks.CoverFromKeepsRanges | Sources/Swallow/Intermodular/Extensions/Swift/Collection++.swift:350-365 | filling the gaps keeps every given range, in order |
| CollectionChunks.FlattenSlicesOfTiling | Sources/Swallow/Intermodular/Extensions/Swift/Collection++.swift:374 | slicing along back-to-back ranges and concatenating gives back the stretch they cover |
| CollectionChunks.ChunkedByRanges | Sources/Swallow/Intermodular/Extensions/Swift/Collection++.swift:371-375 | `chunked(by: ranges)` is the slices at `allSubrangesChunked(by:)`, all in bounds; put back together they are the collection from `ChunksStart` on (everything unless a first range starting below 0 was dropped); with no range dropped there are at least as many chunks as ranges and at most twice as many plus one |
| CollectionChunks.SubrangesTileFromStart | Sources/Swallow/Intermodular/Extensions/Swift/Collection++.swift:332-369 | when slicing cannot trap, the subranges lie back to back from `ChunksStart` to `count` |
| CollectionChunks.SubrangesWithin | Sources/Swallow/Intermodular/Extensions/Swift/Collection++.swift:332-375 | when slicing cannot trap, the subranges stay within the collection, and slicing along them rebuilds it from `ChunksStart` on |
| CollectionChunks.SubrangesCount | Sources/Swallow/Intermodular/Extensions/Swift/Collection++.swift:342-365 | with no range dropped, there are at least as many subranges as ranges and at most twice as many plus one (a gap before each range and one after the last) |
| CollectionChunks.SlicesInBoundsExactly | Sources/Swallow/Intermodular/Extensions/Swift/Collection++.swift:332-375 | `SlicesInBounds` holds exactly when every subrange lies within `0 ..< count`. The condition: the first range does not end below 0, and the last ends by `count` unless it is a lone first range starting below 0. Otherwise `chunked(by:)` slices out of bounds and traps |
| CollectionChunks.NegativeFirstRangeIsDropped | Sources/Swallow/Intermodular/Extensions/Swift/Collection++.swift:343-349 | as written, the range `-1..<1` is missing from the subranges of a 3-element collection, and `chunked(by: [-1..<1])` on `[10, 20, 30]` gives only `[20, 30]` |
| CollectionChunks.SubrangesKeepingFirst | Sources/Swallow/Intermodular/Extensions/Swift/Collection++.swift:343-349 | corrected `allSubrangesChunked(by:)`: every given range occurs in the result, in order, and the result tiles from `min(0, first lower bound)` without gaps |
| CollectionChunks.SubrangesKeepingFirstAgrees | Sources/Swallow/Intermodular/Extensions/Swift/Collection++.swift:343-349 | the correction agrees with the source whenever the first range does not start below 0 |

## Left out

- Only the four files above are modelled. The rest of the repository is not part of this model: raw-memory helpers, logging, reflection, macros, `_lazyConcatenate` and `_intersection`.
- The `CasePath` overload of `splitIncludingSeparators` (Collection++.swift:285-298) is not modelled. It only forwards `separator.extract(from:)` as the closure, and case paths are not part of this model.
- Laziness is not modelled: `AnySequence`, `AnyIterator`, `LazyMapSequence` and `UnfoldSequence` are the eager sequences of what they yield.
- Only `Int` indices are modelled, starting at 0. With them the index helpers below are identities or additions, and they have no members of their own: `bounds`, `index(atDistance:)`, `index(_:insetBy:)`, `index(_:offsetByDistanceFromStartIndexFor:)`, `index(before:)` / `index(after:)`, `distanceFromStartIndex(to:)`, `_stride()`, `range(from:)`, `subscript(atDistance:)` and `subscript(after:)`.
- `indices(of:)` (every position holding a given element, a filter over the indices) and `_enumerated()` (the index–element pairs) are not modelled. The modelled operations use `_enumerated()` only to loop over the indices, which the models do directly, and none of them uses `indices(of:)`.
- Throwing closures and `rethrows` are not modelled: the closures are total functions, and autoclosures are evaluated values.
- `Optionals.Unwrap`: `UnwrappingError` is one case without its `SourceCodeLocation`, and its `debugDescription` is not modelled.
- The optional-payload overloads of `&&->` and `||>` are modelled as `AndThenOptional` and `OrThenOptional`; their `@discardableResult` attribute has no counterpart.
- The `#if DEBUG` variants of `unwrap` and `forceUnwrap` only add a source location to the error, so they are left out.
- `!!` carries its message into a fatal error that is not modelled; `nil` is a precondition instead.
- `BooleanInitiable.init(boolean:)` (Boolean.swift:91-95) is left out because `BooleanInitiable` is declared elsewhere.
- The global constant `unknown` (Trilean.swift:87) is left out; it is just `Trilean.unknown`.
- `CollectionChunks.Chunked`: `Int` overflow of `start + chunkSize` near `Int.max` is not modelled.
- `CollectionSplit.SplitIncludingSeparators`: overflow of `splitCount` is not modelled, since it would need more than `Int.max` splitting elements.
- `CollectionChunks.AllSubrangesChunked`: overlapping or unsorted ranges make the source build a range with `lower > upper`, which traps. They are therefore a precondition (`SortedRanges`) rather than an error path.
- `CollectionChunks.ChunkedByRanges`: ranges for which the source would slice outside the collection make it trap. The precondition `SlicesInBounds` excludes exactly those, as `SlicesInBoundsExactly` shows. A first range starting below 0 is accepted and dropped, as in the source.
- `CollectionBasics.PrefixUpTo`: the standard `prefix(_:)` traps on a negative length, so a non-negative length is a precondition.
- `CollectionBasics.CyclingSubscript`: `cycle(index:)` returns a negative index unchanged and subscripting then traps, so a non-negative index is a precondition. `cycle(index:)` itself force-unwraps `lastIndex`, so it requires a non-empty collection.

## Findings

| source | as written | input that shows it | evidently intended | confidence | as-written member | corrected member |
|---|---|---|---|---|---|---|
| Sources/Swallow/Intermodular/Extensions/Swift/Collection++.swift:98-100 | `contains(_ bounds:)` tests `containsIndex(lower)` and `containsIndex(upper - 1)`, so `subscript(try:)` with a range returns `nil` for the empty range `0..<0`, for `count..<count`, and for every range of an empty collection, while it accepts the empty range `1..<1` of a two-element collection | `[a, b][try: 0..<0]` is `nil`, but `[a, b][try: 1..<1]` is `[]` | return the slice exactly when `0 <= lower` and `upper <= count`, i.e. whenever slicing would not trap | not executed | CollectionBasics.TrySliceAsWritten (CollectionBasics.TrySliceAsWrittenEmptyRanges) | CollectionBasics.TrySlice (CollectionBasics.TrySliceAgreesOnNonEmpty) |
| Sources/Swallow/Intermodular/Extensions/Swift/Collection++.swift:343-349 | `allSubrangesChunked(by:)` handles a first range whose lower bound equals or exceeds `startIndex`, and silently does nothing for one that starts below it. It still records that range as `lastRange`, so the next gap starts at its end and the range itself never appears in the result | `chunked(by: [-1..<1])` on `[10, 20, 30]` gives `[[20, 30]]`, losing `10` without trapping | every given range appears in the result, as it does in the other two branches | medium, not executed | CollectionChunks.AllSubrangesChunked (CollectionChunks.NegativeFirstRangeIsDropped) | CollectionChunks.SubrangesKeepingFirst (CollectionChunks.SubrangesKeepingFirstAgrees) |
