/** `splitIncludingSeparators(maxSplits:omittingEmptySubsequences:separator:)`:
    a split that keeps, between the pieces, the value the separator closure
    extracted from each splitting element. The method follows the source's
    single pass; `Split` is an independent recursive definition (cut at the
    first separator, recurse on the rest) that the method is proved to
    compute and that the lemmas below are stated about. */
module CollectionSplit {
  import opened Wrappers
  import opened Numbers
  import opened CollectionBasics

  /** One output entry: `.left(piece)` or `.right(separator)`. */
  type Entry<T, S> = Either<seq<T>, S>

  /** The elements the closure turns into a separator. */
  function Separators<T, S>(separator: T -> Option<S>): T -> bool {
    x => separator(x).Some?
  }

  predicate SeparatorFree<T, S>(piece: seq<T>, separator: T -> Option<S>) {
    forall i :: 0 <= i < |piece| ==> separator(piece[i]).None?
  }

  /** A piece, unless it is empty and empty pieces are omitted. */
  function EmitPiece<T, S>(piece: seq<T>, omit: bool): seq<Entry<T, S>> {
    if omit && |piece| == 0 then [] else [Left(piece)]
  }

  /** Reference definition. `remaining` is `maxSplits` minus the splits made
      so far: the split stops once it reaches zero after a split, so a
      `maxSplits` of zero or less never stops it. */
  function Split<T, S>(s: seq<T>, remaining: int, omit: bool, separator: T -> Option<S>): seq<Entry<T, S>>
    decreases |s|
  {
    match FirstIndex(s, Separators(separator))
    case None => EmitPiece(s, omit)
    case Some(k) =>
      EmitPiece(s[..k], omit) + [Right(separator(s[k]).value)]
      + (if remaining - 1 == 0 then EmitPiece(s[k + 1..], omit)
         else Split(s[k + 1..], remaining - 1, omit, separator))
  }

  /** The splitting elements, in the same recursion as `Split`. */
  function SplittingElements<T, S>(s: seq<T>, remaining: int, separator: T -> Option<S>): seq<T>
    decreases |s|
  {
    match FirstIndex(s, Separators(separator))
    case None => []
    case Some(k) =>
      [s[k]] + (if remaining - 1 == 0 then [] else SplittingElements(s[k + 1..], remaining - 1, separator))
  }

  /** The number of elements that produce a separator. */
  function CountSeparators<T, S>(s: seq<T>, separator: T -> Option<S>): nat
    decreases |s|
  {
    if |s| == 0 then 0
    else (if separator(s[0]).Some? then 1 else 0) + CountSeparators(s[1..], separator)
  }

  /** The `.left` pieces, in order. */
  function Lefts<T, S>(out: seq<Entry<T, S>>): seq<seq<T>>
    decreases |out|
  {
    if |out| == 0 then []
    else (if out[0].Left? then [out[0].left] else []) + Lefts(out[1..])
  }

  /** The `.right` separators, in order. */
  function Rights<T, S>(out: seq<Entry<T, S>>): seq<S>
    decreases |out|
  {
    if |out| == 0 then []
    else (if out[0].Right? then [out[0].right] else []) + Rights(out[1..])
  }

  /** The output with every empty `.left` piece removed. */
  function DropEmptyPieces<T, S>(out: seq<Entry<T, S>>): seq<Entry<T, S>>
    decreases |out|
  {
    if |out| == 0 then []
    else (if out[0].Left? && |out[0].left| == 0 then [] else [out[0]]) + DropEmptyPieces(out[1..])
  }

  /** `pieces[0] + [seps[0]] + pieces[1] + ... + pieces[n]`. */
  function Interleave<T>(pieces: seq<seq<T>>, seps: seq<T>): seq<T>
    requires |pieces| == |seps| + 1
    decreases |seps|
  {
    if |seps| == 0 then pieces[0]
    else pieces[0] + [seps[0]] + Interleave(pieces[1..], seps[1..])
  }

  /** Entries alternate `.left`, `.right`, ..., `.left`. */
  predicate Alternating<T, S>(out: seq<Entry<T, S>>) {
    |out| % 2 == 1 && forall k :: 0 <= k < |out| ==> (out[k].Left? <==> k % 2 == 0)
  }

  predicate PiecesSeparatorFree<T, S>(out: seq<Entry<T, S>>, separator: T -> Option<S>) {
    forall k :: 0 <= k < |out| && out[k].Left? ==> SeparatorFree(out[k].left, separator)
  }

  /** Only the last entry may be a piece holding a splitting element. */
  predicate PiecesSeparatorFreeButLast<T, S>(out: seq<Entry<T, S>>, separator: T -> Option<S>) {
    forall k :: 0 <= k < |out| - 1 && out[k].Left? ==> SeparatorFree(out[k].left, separator)
  }

  predicate NoEmptyPieces<T, S>(out: seq<Entry<T, S>>) {
    forall k :: 0 <= k < |out| && out[k].Left? ==> |out[k].left| > 0
  }

  // ----- The source's loop -----

  lemma FirstIndexIs<T>(s: seq<T>, p: T -> bool, k: nat)
    requires k < |s| && p(s[k])
    requires forall j :: 0 <= j < k ==> !p(s[j])
    ensures FirstIndex(s, p) == Some(k)
  {
  }

  /** Unfolding `Split` at a cut found by scanning from `start`. */
  lemma SplitAtCut<T, S>(s: seq<T>, start: nat, index: nat, remaining: int, omit: bool, separator: T -> Option<S>)
    requires start <= index < |s| && separator(s[index]).Some?
    requires forall j :: start <= j < index ==> separator(s[j]).None?
    ensures Split(s[start..], remaining, omit, separator)
         == EmitPiece(s[start..index], omit) + [Right(separator(s[index]).value)]
            + (if remaining - 1 == 0 then EmitPiece(s[index + 1..], omit)
               else Split(s[index + 1..], remaining - 1, omit, separator))
  {
    var rest := s[start..];
    var k := index - start;
    forall j | 0 <= j < k
      ensures !Separators(separator)(rest[j])
    {
      assert rest[j] == s[start + j];
    }
    assert Separators(separator)(rest[k]);
    FirstIndexIs(rest, Separators(separator), k);
    assert rest[..k] == s[start..index];
    assert rest[k + 1..] == s[index + 1..];
    assert rest[k] == s[index];
  }

  /** `Split` of a stretch without splitting elements is its single piece. */
  lemma SplitWithoutCut<T, S>(s: seq<T>, start: nat, remaining: int, omit: bool, separator: T -> Option<S>)
    requires start <= |s|
    requires forall j :: start <= j < |s| ==> separator(s[j]).None?
    ensures Split(s[start..], remaining, omit, separator) == EmitPiece(s[start..], omit)
  {
    var rest := s[start..];
    assert forall j :: 0 <= j < |rest| ==> !Separators(separator)(rest[j]);
  }

  /** The state of the source's loop as a function: `start` is where the
      current piece begins and `index` the element being examined. */
  function Scan<T, S>(s: seq<T>, start: nat, index: nat, remaining: int, omit: bool, separator: T -> Option<S>)
    : seq<Entry<T, S>>
    requires start <= index <= |s|
    decreases |s| - index
  {
    if index == |s| then EmitPiece(s[start..], omit)
    else if separator(s[index]).Some? then
      EmitPiece(s[start..index], omit) + [Right(separator(s[index]).value)]
      + (if remaining - 1 == 0 then EmitPiece(s[index + 1..], omit)
         else Scan(s, index + 1, index + 1, remaining - 1, omit, separator))
    else Scan(s, start, index + 1, remaining, omit, separator)
  }

  lemma {:induction false} ScanIsSplit<T, S>(s: seq<T>, start: nat, index: nat, remaining: int, omit: bool,
                                            separator: T -> Option<S>)
    requires start <= index <= |s|
    requires forall j :: start <= j < index ==> separator(s[j]).None?
    ensures Scan(s, start, index, remaining, omit, separator) == Split(s[start..], remaining, omit, separator)
    decreases |s| - index
  {
    if index == |s| {
      SplitWithoutCut(s, start, remaining, omit, separator);
    } else if separator(s[index]).Some? {
      SplitAtCut(s, start, index, remaining, omit, separator);
      if remaining - 1 != 0 {
        ScanIsSplit(s, index + 1, index + 1, remaining - 1, omit, separator);
      }
    } else {
      ScanIsSplit(s, start, index + 1, remaining, omit, separator);
    }
  }

  lemma ScanFromStartIsSplit<T, S>(s: seq<T>, maxSplits: int, omit: bool, separator: T -> Option<S>)
    ensures Scan(s, 0, 0, maxSplits, omit, separator) == Split(s, maxSplits, omit, separator)
  {
    ScanIsSplit(s, 0, 0, maxSplits, omit, separator);
    assert s[0..] == s;
  }

  /** One cut of the loop, on the accumulated output: the entries the loop
      appends at a splitting element, followed by what is still to come,
      give the same output as before. */
  lemma ScanCut<T, S>(s: seq<T>, before: seq<Entry<T, S>>, whole: seq<Entry<T, S>>, start: nat, index: nat,
                      remaining: int, omit: bool, separator: T -> Option<S>)
    requires start <= index < |s| && separator(s[index]).Some?
    requires before + Scan(s, start, index, remaining, omit, separator) == whole
    ensures var next := (if !(omit && start == index) then before + [Left(s[start..index])] else before)
                        + [Right(separator(s[index]).value)];
            && (remaining - 1 == 0 ==> next + EmitPiece(s[index + 1..], omit) == whole)
            && (remaining - 1 != 0 ==> next + Scan(s, index + 1, index + 1, remaining - 1, omit, separator) == whole)
  {
    var piece := EmitPiece<T, S>(s[start..index], omit);
    var sep: seq<Entry<T, S>> := [Right(separator(s[index]).value)];
    var rest := if remaining - 1 == 0 then EmitPiece(s[index + 1..], omit)
                else Scan(s, index + 1, index + 1, remaining - 1, omit, separator);
    assert Scan(s, start, index, remaining, omit, separator) == piece + sep + rest;
    assert (if !(omit && start == index) then before + [Left(s[start..index])] else before) == before + piece;
    calc {
      before + piece + sep + rest;
      { AppendAssoc(before, piece, sep); }
      before + (piece + sep) + rest;
      { AppendAssoc(before, piece + sep, rest); }
      before + (piece + sep + rest);
    }
  }

  /** The source's single pass: scan the indices; at each splitting element
      emit the piece since the last cut (unless it is empty and omitted) and
      the separator, cut after the element, count the split and stop when the
      count equals `maxSplits`; finally emit the trailing piece the same way. */
  method SplitIncludingSeparators<T, S>(s: seq<T>, maxSplits: int, omittingEmptySubsequences: bool,
                                        separator: T -> Option<S>)
    returns (result: seq<Entry<T, S>>)
    ensures result == Split(s, maxSplits, omittingEmptySubsequences, separator)
  {
    var omit := omittingEmptySubsequences;
    ghost var whole := Scan(s, 0, 0, maxSplits, omit, separator);
    result := [];
    var subsequenceStart := 0;
    var splitCount := 0;
    var index := 0;
    ghost var remaining := maxSplits;
    while index < |s|
      invariant 0 <= subsequenceStart <= index <= |s|
      invariant remaining == maxSplits - splitCount
      invariant result + Scan(s, subsequenceStart, index, remaining, omit, separator) == whole
    {
      var sep := separator(s[index]);
      if sep.Some? {
        ScanCut(s, result, whole, subsequenceStart, index, remaining, omit, separator);
        if !(omit && subsequenceStart == index) {
          result := result + [Left(s[subsequenceStart..index])];
        }
        result := result + [Right(sep.value)];
        subsequenceStart := index + 1;
        splitCount := splitCount + 1;
        remaining := remaining - 1;
        if splitCount == maxSplits {
          assert result + EmitPiece(s[subsequenceStart..], omit) == whole;
          break;
        }
      } else {
        assert Scan(s, subsequenceStart, index, remaining, omit, separator)
            == Scan(s, subsequenceStart, index + 1, remaining, omit, separator);
      }
      index := index + 1;
    }
    if index == |s| {
      assert Scan(s, subsequenceStart, index, remaining, omit, separator)
          == EmitPiece(s[subsequenceStart..], omit);
    }
    assert result + EmitPiece(s[subsequenceStart..], omit) == whole;
    if !(omit && subsequenceStart == |s|) {
      result := result + [Left(s[subsequenceStart..])];
    }
    ScanFromStartIsSplit(s, maxSplits, omit, separator);
  }

  // ----- Properties of the split -----

  lemma {:induction false} LeftsAppend<T, S>(a: seq<Entry<T, S>>, b: seq<Entry<T, S>>)
    ensures Lefts(a + b) == Lefts(a) + Lefts(b)
    decreases |a|
  {
    if |a| == 0 {
      assert a + b == b;
    } else {
      var h := if a[0].Left? then [a[0].left] else [];
      assert Lefts(a + b) == h + Lefts(a[1..] + b) by {
        assert (a + b)[0] == a[0];
        assert (a + b)[1..] == a[1..] + b;
      }
      LeftsAppend(a[1..], b);
      AppendAssoc(h, Lefts(a[1..]), Lefts(b));
    }
  }

  lemma {:induction false} RightsAppend<T, S>(a: seq<Entry<T, S>>, b: seq<Entry<T, S>>)
    ensures Rights(a + b) == Rights(a) + Rights(b)
    decreases |a|
  {
    if |a| == 0 {
      assert a + b == b;
    } else {
      var h := if a[0].Right? then [a[0].right] else [];
      assert Rights(a + b) == h + Rights(a[1..] + b) by {
        assert (a + b)[0] == a[0];
        assert (a + b)[1..] == a[1..] + b;
      }
      RightsAppend(a[1..], b);
      AppendAssoc(h, Rights(a[1..]), Rights(b));
    }
  }

  lemma {:induction false} DropEmptyAppend<T, S>(a: seq<Entry<T, S>>, b: seq<Entry<T, S>>)
    ensures DropEmptyPieces(a + b) == DropEmptyPieces(a) + DropEmptyPieces(b)
    decreases |a|
  {
    if |a| == 0 {
      assert a + b == b;
    } else {
      var h := if a[0].Left? && |a[0].left| == 0 then [] else [a[0]];
      assert DropEmptyPieces(a + b) == h + DropEmptyPieces(a[1..] + b) by {
        assert (a + b)[0] == a[0];
        assert (a + b)[1..] == a[1..] + b;
      }
      DropEmptyAppend(a[1..], b);
      AppendAssoc(h, DropEmptyPieces(a[1..]), DropEmptyPieces(b));
    }
  }

  /** `Split` at its last cut (`maxSplits` is one): the rest is one piece. */
  lemma SplitAtLastCut<T, S>(s: seq<T>, k: nat, omit: bool, separator: T -> Option<S>)
    requires FirstIndex(s, Separators(separator)) == Some(k)
    ensures k < |s| && separator(s[k]).Some? && SeparatorFree(s[..k], separator)
    ensures Split(s, 1, omit, separator)
         == EmitPiece(s[..k], omit) + [Right(separator(s[k]).value)] + EmitPiece(s[k + 1..], omit)
    ensures SplittingElements(s, 1, separator) == [s[k]]
  {
    assert forall j :: 0 <= j < k ==> !Separators(separator)(s[j]);
  }

  /** `Split` at a cut after which it goes on splitting. */
  lemma SplitAtNextCut<T, S>(s: seq<T>, k: nat, maxSplits: int, omit: bool, separator: T -> Option<S>)
    requires FirstIndex(s, Separators(separator)) == Some(k)
    requires maxSplits != 1
    ensures k < |s| && separator(s[k]).Some? && SeparatorFree(s[..k], separator)
    ensures Split(s, maxSplits, omit, separator)
         == EmitPiece(s[..k], omit) + [Right(separator(s[k]).value)]
            + Split(s[k + 1..], maxSplits - 1, omit, separator)
    ensures SplittingElements(s, maxSplits, separator)
         == [s[k]] + SplittingElements(s[k + 1..], maxSplits - 1, separator)
  {
    assert forall j :: 0 <= j < k ==> !Separators(separator)(s[j]);
  }

  /** `Split` of a sequence without splitting elements is its single piece. */
  lemma SplitWithoutSeparator<T, S>(s: seq<T>, remaining: int, omit: bool, separator: T -> Option<S>)
    requires FirstIndex(s, Separators(separator)).None?
    ensures SeparatorFree(s, separator)
    ensures Split(s, remaining, omit, separator) == EmitPiece(s, omit)
    ensures SplittingElements(s, remaining, separator) == []
  {
    assert forall j :: 0 <= j < |s| ==> !Separators(separator)(s[j]);
  }

  /** How the output without omission lines up with the input and the
      splitting elements: entries alternate piece, separator, ..., piece;
      putting the splitting elements back between the pieces rebuilds the
      input; and each separator is what its splitting element produced. */
  ghost predicate Rebuilds<T, S>(out: seq<Entry<T, S>>, cuts: seq<T>, s: seq<T>, separator: T -> Option<S>) {
    && Alternating(out)
    && |Lefts(out)| == |Rights(out)| + 1
    && |cuts| == |Rights(out)|
    && Interleave(Lefts(out), cuts) == s
    && (forall k :: 0 <= k < |cuts| ==> separator(cuts[k]) == Some(Rights(out)[k]))
  }

  lemma RebuildsPiece<T, S>(piece: seq<T>, separator: T -> Option<S>)
    ensures Rebuilds(EmitPiece<T, S>(piece, false), [], piece, separator)
  {
    var out := EmitPiece<T, S>(piece, false);
    assert out == [Left(piece)];
    assert Lefts(out) == [piece];
    assert Rights(out) == [];
  }

  lemma AlternatingAtCut<T, S>(piece: seq<T>, x: S, rest: seq<Entry<T, S>>)
    requires Alternating(rest)
    ensures Alternating(EmitPiece<T, S>(piece, false) + [Right(x)] + rest)
  {
    var out := EmitPiece<T, S>(piece, false) + [Right(x)] + rest;
    forall k | 2 <= k < |out|
      ensures out[k].Left? <==> k % 2 == 0
    {
      assert out[k] == rest[k - 2];
    }
  }

  lemma ProjectionsAtCut<T, S>(piece: seq<T>, x: S, rest: seq<Entry<T, S>>)
    ensures Lefts(EmitPiece<T, S>(piece, false) + [Right(x)] + rest) == [piece] + Lefts(rest)
    ensures Rights(EmitPiece<T, S>(piece, false) + [Right(x)] + rest) == [x] + Rights(rest)
  {
    var first: seq<Entry<T, S>> := [Left(piece)];
    var second: seq<Entry<T, S>> := [Right(x)];
    LeftsAppend(first + second, rest);
    LeftsAppend(first, second);
    RightsAppend(first + second, rest);
    RightsAppend(first, second);
    assert Lefts(first) == [piece] && Rights(first) == [];
    assert Lefts(second) == [] && Rights(second) == [x];
  }

  lemma InterleaveAtCut<T>(piece: seq<T>, cut: T, pieces: seq<seq<T>>, cuts: seq<T>)
    requires |pieces| == |cuts| + 1
    ensures Interleave([piece] + pieces, [cut] + cuts) == piece + [cut] + Interleave(pieces, cuts)
  {
    assert ([piece] + pieces)[1..] == pieces;
    assert ([cut] + cuts)[1..] == cuts;
  }

  lemma MatchedAtCut<T, S>(cut: T, x: S, cuts: seq<T>, seps: seq<S>, separator: T -> Option<S>)
    requires separator(cut) == Some(x)
    requires |cuts| == |seps|
    requires forall k :: 0 <= k < |cuts| ==> separator(cuts[k]) == Some(seps[k])
    ensures forall k :: 0 <= k < |cuts| + 1 ==> separator(([cut] + cuts)[k]) == Some(([x] + seps)[k])
  {
    forall k | 1 <= k < |cuts| + 1
      ensures separator(([cut] + cuts)[k]) == Some(([x] + seps)[k])
    {
      assert ([cut] + cuts)[k] == cuts[k - 1];
      assert ([x] + seps)[k] == seps[k - 1];
    }
  }

  lemma RebuildsAtCut<T, S>(piece: seq<T>, cut: T, rest: seq<Entry<T, S>>, restCuts: seq<T>, tail: seq<T>,
                            separator: T -> Option<S>)
    requires separator(cut).Some?
    requires Rebuilds(rest, restCuts, tail, separator)
    ensures Rebuilds(EmitPiece<T, S>(piece, false) + [Right(separator(cut).value)] + rest,
                     [cut] + restCuts, piece + [cut] + tail, separator)
  {
    var x := separator(cut).value;
    AlternatingAtCut(piece, x, rest);
    ProjectionsAtCut(piece, x, rest);
    InterleaveAtCut(piece, cut, Lefts(rest), restCuts);
    MatchedAtCut(cut, x, restCuts, Rights(rest), separator);
  }

  /** Without omission the output alternates piece, separator, ..., piece,
      so there is one more piece than separators; and the pieces, with the
      splitting elements put back between them, rebuild the input. */
  lemma {:induction false} SplitKeepingEmptyRebuilds<T, S>(s: seq<T>, maxSplits: int, separator: T -> Option<S>)
    ensures Rebuilds(Split(s, maxSplits, false, separator), SplittingElements(s, maxSplits, separator), s, separator)
    decreases |s|, 1
  {
    match FirstIndex(s, Separators(separator))
    case None =>
      SplitWithoutSeparator(s, maxSplits, false, separator);
      RebuildsPiece(s, separator);
    case Some(k) =>
      RebuildsAtFirstCut(s, k, maxSplits, separator);
  }

  /** The inductive step of `SplitKeepingEmptyRebuilds`. */
  lemma {:induction false} RebuildsAtFirstCut<T, S>(s: seq<T>, k: nat, maxSplits: int, separator: T -> Option<S>)
    requires FirstIndex(s, Separators(separator)) == Some(k)
    ensures Rebuilds(Split(s, maxSplits, false, separator), SplittingElements(s, maxSplits, separator), s, separator)
    decreases |s|, 0
  {
    assert k < |s| && separator(s[k]).Some? by {
      SplitAtLastCut(s, k, false, separator);
    }
    var tail := s[k + 1..];
    var front := EmitPiece<T, S>(s[..k], false) + [Right(separator(s[k]).value)];
    assert s[..k] + [s[k]] + tail == s;
    if maxSplits == 1 {
      assert Split(s, maxSplits, false, separator) == front + EmitPiece<T, S>(tail, false)
          && SplittingElements(s, maxSplits, separator) == [s[k]] + [] by {
        SplitAtLastCut(s, k, false, separator);
      }
      assert Rebuilds(front + EmitPiece<T, S>(tail, false), [s[k]] + [], s[..k] + [s[k]] + tail, separator) by {
        RebuildsPiece(tail, separator);
        RebuildsAtCut(s[..k], s[k], EmitPiece<T, S>(tail, false), [], tail, separator);
      }
    } else {
      var rest := Split(tail, maxSplits - 1, false, separator);
      var restCuts := SplittingElements(tail, maxSplits - 1, separator);
      assert Split(s, maxSplits, false, separator) == front + rest
          && SplittingElements(s, maxSplits, separator) == [s[k]] + restCuts by {
        SplitAtNextCut(s, k, maxSplits, false, separator);
      }
      assert Rebuilds(front + rest, [s[k]] + restCuts, s[..k] + [s[k]] + tail, separator) by {
        SplitKeepingEmptyRebuilds(tail, maxSplits - 1, separator);
        RebuildsAtCut(s[..k], s[k], rest, restCuts, tail, separator);
      }
    }
  }

  /** Counting from the first separator: a stretch without separators
      contributes nothing. */
  lemma {:induction false} CountSkipsFree<T, S>(s: seq<T>, k: nat, separator: T -> Option<S>)
    requires k <= |s|
    requires forall j :: 0 <= j < k ==> separator(s[j]).None?
    ensures CountSeparators(s, separator) == CountSeparators(s[k..], separator)
    decreases k
  {
    if k > 0 {
      assert s[1..][k - 1..] == s[k..];
      CountSkipsFree(s[1..], k - 1, separator);
    }
  }

  lemma CountAtFirst<T, S>(s: seq<T>, separator: T -> Option<S>)
    ensures FirstIndex(s, Separators(separator)).None? ==> CountSeparators(s, separator) == 0
    ensures FirstIndex(s, Separators(separator)).Some? ==>
              var k := FirstIndex(s, Separators(separator)).value;
              CountSeparators(s, separator) == 1 + CountSeparators(s[k + 1..], separator)
  {
    match FirstIndex(s, Separators(separator))
    case None =>
      assert forall j :: 0 <= j < |s| ==> !Separators(separator)(s[j]);
      CountSkipsFree(s, |s|, separator);
    case Some(k) =>
      assert forall j :: 0 <= j < k ==> !Separators(separator)(s[j]);
      CountSkipsFree(s, k, separator);
      assert s[k..][1..] == s[k + 1..];
  }

  lemma RightsAtCut<T, S>(piece: seq<T>, x: S, rest: seq<Entry<T, S>>, omit: bool)
    ensures Rights(EmitPiece<T, S>(piece, omit) + [Right(x)] + rest) == [x] + Rights(rest)
  {
    var cut: seq<Entry<T, S>> := [Right(x)];
    RightsAppend(EmitPiece<T, S>(piece, omit) + cut, rest);
    RightsAppend(EmitPiece<T, S>(piece, omit), cut);
    assert Rights(cut) == [x];
  }

  /** A split stops after `maxSplits` cuts when that is positive, and
      otherwise cuts at every splitting element. */
  lemma {:induction false} SplitCountsSeparators<T, S>(s: seq<T>, maxSplits: int, omit: bool, separator: T -> Option<S>)
    ensures |Rights(Split(s, maxSplits, omit, separator))|
         == if maxSplits >= 1 then Min(maxSplits, CountSeparators(s, separator))
            else CountSeparators(s, separator)
    decreases |s|, 1
  {
    match FirstIndex(s, Separators(separator))
    case None =>
      CountAtFirst(s, separator);
      SplitWithoutSeparator(s, maxSplits, omit, separator);
      RightsOfPiece<T, S>(s, omit);
    case Some(k) =>
      CountAtFirstCut(s, k, maxSplits, omit, separator);
  }

  lemma RightsOfPiece<T, S>(piece: seq<T>, omit: bool)
    ensures Rights(EmitPiece<T, S>(piece, omit)) == []
  {
  }

  /** The inductive step of `SplitCountsSeparators`. */
  lemma {:induction false} CountAtFirstCut<T, S>(s: seq<T>, k: nat, maxSplits: int, omit: bool, separator: T -> Option<S>)
    requires FirstIndex(s, Separators(separator)) == Some(k)
    ensures |Rights(Split(s, maxSplits, omit, separator))|
         == if maxSplits >= 1 then Min(maxSplits, CountSeparators(s, separator))
            else CountSeparators(s, separator)
    decreases |s|, 0
  {
    assert k < |s| && separator(s[k]).Some? by {
      SplitAtLastCut(s, k, omit, separator);
    }
    var tail := s[k + 1..];
    var x := separator(s[k]).value;
    var front := EmitPiece<T, S>(s[..k], omit) + [Right(x)];
    assert CountSeparators(s, separator) == 1 + CountSeparators(tail, separator) by {
      CountAtFirst(s, separator);
    }
    if maxSplits == 1 {
      assert Split(s, maxSplits, omit, separator) == front + EmitPiece<T, S>(tail, omit) by {
        SplitAtLastCut(s, k, omit, separator);
      }
      assert |Rights(front + EmitPiece<T, S>(tail, omit))| == 1 by {
        RightsAtCut(s[..k], x, EmitPiece<T, S>(tail, omit), omit);
        RightsOfPiece<T, S>(tail, omit);
      }
    } else {
      var rest := Split(tail, maxSplits - 1, omit, separator);
      assert Split(s, maxSplits, omit, separator) == front + rest by {
        SplitAtNextCut(s, k, maxSplits, omit, separator);
      }
      assert |Rights(front + rest)| == 1 + |Rights(rest)| by {
        RightsAtCut(s[..k], x, rest, omit);
      }
      SplitCountsSeparators(tail, maxSplits - 1, omit, separator);
    }
  }

  lemma PiecePredicatesAppend<T, S>(a: seq<Entry<T, S>>, b: seq<Entry<T, S>>, separator: T -> Option<S>)
    ensures PiecesSeparatorFree(a + b, separator) <==> PiecesSeparatorFree(a, separator) && PiecesSeparatorFree(b, separator)
    ensures NoEmptyPieces(a + b) <==> NoEmptyPieces(a) && NoEmptyPieces(b)
  {
    assert forall k :: 0 <= k < |a| ==> (a + b)[k] == a[k];
    assert forall k :: 0 <= k < |b| ==> (a + b)[|a| + k] == b[k];
  }

  /** The piece predicates across the first cut: the entries in front of
      `rest` are a separator-free piece (if emitted) and a separator. */
  lemma PiecePredicatesAtCut<T, S>(piece: seq<T>, x: S, rest: seq<Entry<T, S>>, omit: bool, separator: T -> Option<S>)
    requires SeparatorFree(piece, separator)
    ensures var out := EmitPiece<T, S>(piece, omit) + [Right(x)] + rest;
            && (PiecesSeparatorFree(out, separator) <==> PiecesSeparatorFree(rest, separator))
            && (omit ==> (NoEmptyPieces(out) <==> NoEmptyPieces(rest)))
  {
    var cut: seq<Entry<T, S>> := [Right(x)];
    var front := EmitPiece<T, S>(piece, omit) + cut;
    PiecePredicatesAppend(EmitPiece<T, S>(piece, omit), cut, separator);
    PiecePredicatesAppend(front, rest, separator);
  }

  /** All entries but the last, across the first cut. */
  lemma PiecesButLastAtCut<T, S>(piece: seq<T>, x: S, rest: seq<Entry<T, S>>, omit: bool, separator: T -> Option<S>)
    requires SeparatorFree(piece, separator)
    requires PiecesSeparatorFreeButLast(rest, separator)
    ensures PiecesSeparatorFreeButLast(EmitPiece<T, S>(piece, omit) + [Right(x)] + rest, separator)
  {
    var front := EmitPiece<T, S>(piece, omit) + [Right(x)];
    var out := front + rest;
    forall k | 0 <= k < |out| - 1 && out[k].Left?
      ensures SeparatorFree(out[k].left, separator)
    {
      if k < |front| {
        assert out[k] == front[k];
      } else {
        assert out[k] == rest[k - |front|];
      }
    }
  }

  /** A stretch has no splitting element exactly when it counts none. */
  lemma SeparatorFreeIffNoneCounted<T, S>(s: seq<T>, separator: T -> Option<S>)
    ensures SeparatorFree(s, separator) <==> CountSeparators(s, separator) == 0
  {
    CountAtFirst(s, separator);
    match FirstIndex(s, Separators(separator))
    case None =>
      SplitWithoutSeparator(s, 0, false, separator);
    case Some(k) =>
      assert separator(s[k]).Some?;
  }

  /** The piece predicates of a single emitted piece. */
  lemma PiecePredicatesOfPiece<T, S>(piece: seq<T>, omit: bool, separator: T -> Option<S>)
    ensures PiecesSeparatorFree(EmitPiece<T, S>(piece, omit), separator) <==> SeparatorFree(piece, separator)
    ensures PiecesSeparatorFreeButLast(EmitPiece<T, S>(piece, omit), separator)
    ensures NoEmptyPieces(EmitPiece<T, S>(piece, true))
  {
    if !(omit && |piece| == 0) {
      assert EmitPiece<T, S>(piece, omit)[0] == Left(piece);
    }
  }

  /** Every piece but the last is free of splitting elements. */
  lemma {:induction false} SplitPiecesButLastAreSeparatorFree<T, S>(s: seq<T>, maxSplits: int, omit: bool,
                                                                   separator: T -> Option<S>)
    ensures PiecesSeparatorFreeButLast(Split(s, maxSplits, omit, separator), separator)
    decreases |s|, 1
  {
    match FirstIndex(s, Separators(separator))
    case None =>
      SplitWithoutSeparator(s, maxSplits, omit, separator);
      PiecePredicatesOfPiece(s, omit, separator);
    case Some(k) =>
      PiecesButLastAtFirstCut(s, k, maxSplits, omit, separator);
  }

  /** The inductive step of `SplitPiecesButLastAreSeparatorFree`. */
  lemma {:induction false} PiecesButLastAtFirstCut<T, S>(s: seq<T>, k: nat, maxSplits: int, omit: bool,
                                                         separator: T -> Option<S>)
    requires FirstIndex(s, Separators(separator)) == Some(k)
    ensures PiecesSeparatorFreeButLast(Split(s, maxSplits, omit, separator), separator)
    decreases |s|, 0
  {
    assert k < |s| && separator(s[k]).Some? && SeparatorFree(s[..k], separator) by {
      SplitAtLastCut(s, k, omit, separator);
    }
    var tail := s[k + 1..];
    var x := separator(s[k]).value;
    var rest := if maxSplits == 1 then EmitPiece<T, S>(tail, omit) else Split(tail, maxSplits - 1, omit, separator);
    assert Split(s, maxSplits, omit, separator) == EmitPiece<T, S>(s[..k], omit) + [Right(x)] + rest by {
      if maxSplits == 1 {
        SplitAtLastCut(s, k, omit, separator);
      } else {
        SplitAtNextCut(s, k, maxSplits, omit, separator);
      }
    }
    assert PiecesSeparatorFreeButLast(rest, separator) by {
      if maxSplits == 1 {
        PiecePredicatesOfPiece(tail, omit, separator);
      } else {
        SplitPiecesButLastAreSeparatorFree(tail, maxSplits - 1, omit, separator);
      }
    }
    PiecesButLastAtCut(s[..k], x, rest, omit, separator);
  }

  /** All pieces, the last included, are free of splitting elements exactly
      when the split was not stopped early by `maxSplits`. */
  lemma {:induction false} SplitPiecesAreSeparatorFree<T, S>(s: seq<T>, maxSplits: int, omit: bool, separator: T -> Option<S>)
    ensures PiecesSeparatorFree(Split(s, maxSplits, omit, separator), separator)
        <==> maxSplits <= 0 || CountSeparators(s, separator) <= maxSplits
    decreases |s|, 1
  {
    match FirstIndex(s, Separators(separator))
    case None =>
      CountAtFirst(s, separator);
      SplitWithoutSeparator(s, maxSplits, omit, separator);
      PiecePredicatesOfPiece(s, omit, separator);
    case Some(k) =>
      SeparatorFreeAtFirstCut(s, k, maxSplits, omit, separator);
  }

  /** The inductive step of `SplitPiecesAreSeparatorFree`. */
  lemma {:induction false} SeparatorFreeAtFirstCut<T, S>(s: seq<T>, k: nat, maxSplits: int, omit: bool, separator: T -> Option<S>)
    requires FirstIndex(s, Separators(separator)) == Some(k)
    ensures PiecesSeparatorFree(Split(s, maxSplits, omit, separator), separator)
        <==> maxSplits <= 0 || CountSeparators(s, separator) <= maxSplits
    decreases |s|, 0
  {
    assert k < |s| && separator(s[k]).Some? && SeparatorFree(s[..k], separator) by {
      SplitAtLastCut(s, k, omit, separator);
    }
    var tail := s[k + 1..];
    var x := separator(s[k]).value;
    assert CountSeparators(s, separator) == 1 + CountSeparators(tail, separator) by {
      CountAtFirst(s, separator);
    }
    var rest := if maxSplits == 1 then EmitPiece<T, S>(tail, omit) else Split(tail, maxSplits - 1, omit, separator);
    assert Split(s, maxSplits, omit, separator) == EmitPiece<T, S>(s[..k], omit) + [Right(x)] + rest by {
      if maxSplits == 1 {
        SplitAtLastCut(s, k, omit, separator);
      } else {
        SplitAtNextCut(s, k, maxSplits, omit, separator);
      }
    }
    assert PiecesSeparatorFree(EmitPiece<T, S>(s[..k], omit) + [Right(x)] + rest, separator)
        <==> PiecesSeparatorFree(rest, separator) by {
      PiecePredicatesAtCut(s[..k], x, rest, omit, separator);
    }
    if maxSplits == 1 {
      assert PiecesSeparatorFree(rest, separator) <==> CountSeparators(tail, separator) == 0 by {
        SeparatorFreeIffNoneCounted(tail, separator);
        PiecePredicatesOfPiece(tail, omit, separator);
      }
    } else {
      SplitPiecesAreSeparatorFree(tail, maxSplits - 1, omit, separator);
    }
  }

  /** With omission on, no piece is empty. */
  lemma {:induction false} SplitOmittingHasNoEmptyPieces<T, S>(s: seq<T>, maxSplits: int, separator: T -> Option<S>)
    ensures NoEmptyPieces(Split(s, maxSplits, true, separator))
    decreases |s|, 1
  {
    match FirstIndex(s, Separators(separator))
    case None =>
      SplitWithoutSeparator(s, maxSplits, true, separator);
      PiecePredicatesOfPiece(s, true, separator);
    case Some(k) =>
      NoEmptyPiecesAtFirstCut(s, k, maxSplits, separator);
  }

  /** The inductive step of `SplitOmittingHasNoEmptyPieces`. */
  lemma {:induction false} NoEmptyPiecesAtFirstCut<T, S>(s: seq<T>, k: nat, maxSplits: int, separator: T -> Option<S>)
    requires FirstIndex(s, Separators(separator)) == Some(k)
    ensures NoEmptyPieces(Split(s, maxSplits, true, separator))
    decreases |s|, 0
  {
    assert k < |s| && separator(s[k]).Some? && SeparatorFree(s[..k], separator) by {
      SplitAtLastCut(s, k, true, separator);
    }
    var tail := s[k + 1..];
    var x := separator(s[k]).value;
    var front := EmitPiece<T, S>(s[..k], true) + [Right(x)];
    var rest := if maxSplits == 1 then EmitPiece<T, S>(tail, true) else Split(tail, maxSplits - 1, true, separator);
    assert Split(s, maxSplits, true, separator) == front + rest by {
      if maxSplits == 1 {
        SplitAtLastCut(s, k, true, separator);
      } else {
        SplitAtNextCut(s, k, maxSplits, true, separator);
      }
    }
    assert NoEmptyPieces(rest) by {
      if maxSplits == 1 {
        PiecePredicatesOfPiece(tail, true, separator);
      } else {
        SplitOmittingHasNoEmptyPieces(tail, maxSplits - 1, separator);
      }
    }
    PiecePredicatesAtCut(s[..k], x, rest, true, separator);
  }

  lemma DropEmptyOfPiece<T, S>(piece: seq<T>)
    ensures DropEmptyPieces(EmitPiece<T, S>(piece, false)) == EmitPiece<T, S>(piece, true)
  {
  }

  lemma DropEmptyAtCut<T, S>(piece: seq<T>, x: S, rest: seq<Entry<T, S>>)
    ensures DropEmptyPieces(EmitPiece<T, S>(piece, false) + [Right(x)] + rest)
         == EmitPiece<T, S>(piece, true) + [Right(x)] + DropEmptyPieces(rest)
  {
    var cut: seq<Entry<T, S>> := [Right(x)];
    DropEmptyAppend(EmitPiece<T, S>(piece, false) + cut, rest);
    DropEmptyAppend(EmitPiece<T, S>(piece, false), cut);
    DropEmptyOfPiece<T, S>(piece);
    assert DropEmptyPieces(cut) == cut;
  }

  /** Omitting empty pieces changes nothing but the empty pieces: the cuts
      are made at the same places either way. */
  lemma {:induction false} SplitOmittingDropsEmptyPieces<T, S>(s: seq<T>, maxSplits: int, separator: T -> Option<S>)
    ensures Split(s, maxSplits, true, separator) == DropEmptyPieces(Split(s, maxSplits, false, separator))
    decreases |s|, 1
  {
    match FirstIndex(s, Separators(separator))
    case None =>
      SplitWithoutSeparator(s, maxSplits, true, separator);
      SplitWithoutSeparator(s, maxSplits, false, separator);
      DropEmptyOfPiece<T, S>(s);
    case Some(k) =>
      DropEmptyPiecesAtFirstCut(s, k, maxSplits, separator);
  }

  /** The inductive step of `SplitOmittingDropsEmptyPieces`. */
  lemma {:induction false} DropEmptyPiecesAtFirstCut<T, S>(s: seq<T>, k: nat, maxSplits: int, separator: T -> Option<S>)
    requires FirstIndex(s, Separators(separator)) == Some(k)
    ensures Split(s, maxSplits, true, separator) == DropEmptyPieces(Split(s, maxSplits, false, separator))
    decreases |s|, 0
  {
    assert k < |s| && separator(s[k]).Some? by {
      SplitAtLastCut(s, k, true, separator);
    }
    var tail := s[k + 1..];
    var x := separator(s[k]).value;
    var kept := if maxSplits == 1 then EmitPiece<T, S>(tail, false) else Split(tail, maxSplits - 1, false, separator);
    var omitted := if maxSplits == 1 then EmitPiece<T, S>(tail, true) else Split(tail, maxSplits - 1, true, separator);
    assert Split(s, maxSplits, false, separator) == EmitPiece<T, S>(s[..k], false) + [Right(x)] + kept
        && Split(s, maxSplits, true, separator) == EmitPiece<T, S>(s[..k], true) + [Right(x)] + omitted by {
      if maxSplits == 1 {
        SplitAtLastCut(s, k, true, separator);
        SplitAtLastCut(s, k, false, separator);
      } else {
        SplitAtNextCut(s, k, maxSplits, true, separator);
        SplitAtNextCut(s, k, maxSplits, false, separator);
      }
    }
    assert omitted == DropEmptyPieces(kept) by {
      if maxSplits == 1 {
        DropEmptyOfPiece<T, S>(tail);
      } else {
        SplitOmittingDropsEmptyPieces(tail, maxSplits - 1, separator);
      }
    }
    DropEmptyAtCut(s[..k], x, kept);
  }
}
