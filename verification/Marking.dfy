/**
 Marking text with an explicit selection: the source adds the ends of the replaced range to a selection
 converted against the whole new content.
 */
module Marking {
  import opened Common
  import opened Utf
  import opened TextEditing

  // ---------------------------------------------------------------- any selection

  /**
   Marking is safe for every ordered selection, within the new text or not, exactly when the replaced
   range is the empty range at the start of the text. A single call can be safe elsewhere; see below.
   */
  lemma ExplicitSelectionSafe(st: TextState, range16: Option<Range>, text: string)
    requires Inv(st)
    ensures (forall sel: Range :: sel.start <= sel.end ==> Inv(ReplaceAndMark(st, range16, text, Some(sel))))
            <==> EditRange(st, range16) == Range(0, 0)
  {
    if EditRange(st, range16) == Range(0, 0) {
      forall sel: Range | sel.start <= sel.end
        ensures Inv(ReplaceAndMark(st, range16, text, Some(sel)))
      {
        SafeAtStart(st, range16, text, sel);
      }
    } else {
      UnsafeElsewhere(st, range16, text);
    }
  }

  lemma SafeAtStart(st: TextState, range16: Option<Range>, text: string, sel: Range)
    requires Inv(st) && EditRange(st, range16) == Range(0, 0) && sel.start <= sel.end
    ensures Inv(ReplaceAndMark(st, range16, text, Some(sel)))
  {
    MarkKeepsInv(st, range16, text);
    OrderedUtf16RangeIsLegal(st.(content := Splice(st.content, Range(0, 0), text)), sel);
  }

  /** No explicit selection, or an ordered one for text put in at the very start without replacing any. */
  predicate SafeToMark(st: TextState, range16: Option<Range>, selection16: Option<Range>) {
    selection16.Some? ==> selection16.value.start <= selection16.value.end && EditRange(st, range16) == Range(0, 0)
  }

  lemma SafeMarkKeepsInv(st: TextState, range16: Option<Range>, text: string, selection16: Option<Range>)
    requires Inv(st) && SafeToMark(st, range16, selection16)
    ensures Inv(ReplaceAndMark(st, range16, text, selection16))
  {
    if selection16.Some? {
      SafeAtStart(st, range16, text, selection16.value);
    } else {
      MarkKeepsInv(st, range16, text);
    }
  }

  lemma UnsafeElsewhere(st: TextState, range16: Option<Range>, text: string)
    requires EditRange(st, range16) != Range(0, 0)
    ensures exists sel: Range :: sel.start <= sel.end && !Inv(ReplaceAndMark(st, range16, text, Some(sel)))
  {
    var range := EditRange(st, range16);
    var after := Splice(st.content, range, text);
    var end := Size(Utf16, after);
    SelectingTheEndOverruns(after, range);
    assert !Inv(ReplaceAndMark(st, range16, text, Some(Range(end, end))));
  }

  lemma SelectingTheEndOverruns(content: string, range: Range)
    requires range != Range(0, 0)
    ensures !LegalSlice(content, ExplicitSelection(content, range, Range(Size(Utf16, content), Size(Utf16, content))))
  {
    var end := Size(Utf16, content);
    OffsetOfEnd(Utf16, content);
    OffsetOfEnd(Utf8, content);
    IndexOfOffset(Utf16, content, |content|);
    var sel := ExplicitSelection(content, range, Range(end, end));
    if LegalSlice(content, sel) {
      BoundaryIndex(Utf8, content, sel.start);
      BoundaryIndex(Utf8, content, sel.end);
    }
  }

  /** Marking "b" over the selected "a" and selecting its end puts the selection at 1..2 in a text of length 1. */
  lemma ExplicitSelectionOverruns()
    ensures var st := TextState("a", Range(0, 1), false, None, false);
      && Inv(st)
      && ReplaceAndMark(st, None, "b", Some(Range(1, 1))).content == "b"
      && ReplaceAndMark(st, None, "b", Some(Range(1, 1))).selected == Range(1, 2)
  {
    var a, b := "a", "b";
    var st := TextState(a, Range(0, 1), false, None, false);
    assert a[..0] == [] && b[..0] == [];
    OffsetOfEnd(Utf8, a);
    OffsetOfEnd(Utf8, b);
    OffsetOfEnd(Utf16, b);
    assert Size(Utf8, a) == 1 && Size(Utf8, b) == 1 && Size(Utf16, b) == 1;
    EndsAreBoundaries(a);
    IndexOfOffset(Utf8, a, 0);
    IndexOfOffset(Utf8, a, 1);
    assert Splice(a, Range(0, 1), b) == b;
    IndexOfOffset(Utf16, b, 1);
  }

  // ---------------------------------------------------------------- selections within the new text

  ghost predicate Within(text: string, sel: Range) {
    sel.start <= sel.end <= Size(Utf16, text)
  }

  /** What an input method means by `sel`: that part of the text put in at `range`. */
  function Requested(text: string, range: Range, sel: Range): Range {
    Range(range.start + Convert(Utf16, Utf8, text, sel.start), range.start + Convert(Utf16, Utf8, text, sel.end))
  }

  /** Character by character the content begins with as many bytes as `text`. */
  ghost predicate SameWidths(text: string, content: string) {
    |text| <= |content| && forall k :: 0 <= k < |text| ==> Width(Utf8, text[k]) == Width(Utf8, content[k])
  }

  lemma {:induction false} SameOffsets(text: string, content: string, k: nat)
    requires k <= |text| <= |content|
    requires forall i :: 0 <= i < k ==> Width(Utf8, text[i]) == Width(Utf8, content[i])
    ensures Offset(Utf8, text, k) == Offset(Utf8, content, k) && Offset(Utf16, text, k) == Offset(Utf16, content, k)
  {
    if k > 0 {
      SameOffsets(text, content, k - 1);
      OffsetStep(Utf8, text, k - 1);
      OffsetStep(Utf8, content, k - 1);
      OffsetStep(Utf16, text, k - 1);
      OffsetStep(Utf16, content, k - 1);
    }
  }

  lemma SameIndex(text: string, content: string, offset: nat)
    requires SameWidths(text, content) && offset <= Size(Utf16, text)
    ensures Index(Utf16, text, offset) == Index(Utf16, content, offset)
    ensures Convert(Utf16, Utf8, text, offset) == Convert(Utf16, Utf8, content, offset)
  {
    var i, j := Index(Utf16, text, offset), Index(Utf16, content, offset);
    IndexIsLeast(Utf16, text, offset);
    IndexIsLeast(Utf16, content, offset);
    OffsetOfEnd(Utf16, text);
    SameOffsets(text, content, i);
    if j < i {
      SameOffsets(text, content, j);
    }
  }

  /** The index of an offset just past boundary `k`. */
  lemma IndexPast(s: string, k: nat)
    requires k < |s|
    ensures Index(Utf16, s, Offset(Utf16, s, k) + 1) == k + 1
  {
    var offset := Offset(Utf16, s, k) + 1;
    var r := Index(Utf16, s, offset);
    IndexIsLeast(Utf16, s, offset);
    OffsetStep(Utf16, s, k);
    if r <= k {
      OffsetIncreases(Utf16, s, r, k);
    }
  }

  ghost predicate ConvertsAlike(text: string, content: string) {
    forall x :: 0 <= x <= Size(Utf16, text) ==> Convert(Utf16, Utf8, text, x) == Convert(Utf16, Utf8, content, x)
  }

  lemma {:induction false} AlikeMeansSameWidths(text: string, content: string, k: nat)
    requires ConvertsAlike(text, content) && k <= |text| <= |content|
    ensures forall i :: 0 <= i < k ==> Width(Utf8, text[i]) == Width(Utf8, content[i])
  {
    if k > 0 {
      AlikeMeansSameWidths(text, content, k - 1);
      SameOffsets(text, content, k - 1);
      IndexPast(text, k - 1);
      IndexPast(content, k - 1);
      OffsetStep(Utf8, text, k - 1);
      OffsetStep(Utf8, content, k - 1);
      OffsetStep(Utf16, text, k - 1);
      OffsetIncreases(Utf16, text, k, |text|);
      OffsetOfEnd(Utf16, text);
      var x := Offset(Utf16, text, k - 1) + 1;
      assert Convert(Utf16, Utf8, text, x) == Convert(Utf16, Utf8, content, x);
    }
  }

  ghost predicate SelectsAsRequested(st: TextState, range16: Option<Range>, text: string, sel: Range) {
    ReplaceAndMark(st, range16, text, Some(sel)).selected == Requested(text, EditRange(st, range16), sel)
  }

  /**
   Every selection within the new text becomes the part of the text it means exactly when nothing is
   replaced and the new content begins with characters as wide as those of the new text.
   */
  lemma ExplicitSelectionAsRequested(st: TextState, range16: Option<Range>, text: string)
    ensures (forall sel: Range :: Within(text, sel) ==> SelectsAsRequested(st, range16, text, sel))
            <==> EditRange(st, range16).start == EditRange(st, range16).end
                 && SameWidths(text, Splice(st.content, EditRange(st, range16), text))
  {
    var range := EditRange(st, range16);
    var after := Splice(st.content, range, text);
    if forall sel: Range :: Within(text, sel) ==> SelectsAsRequested(st, range16, text, sel) {
      assert SelectsAsRequested(st, range16, text, Range(0, 0));
      IndexOfOffset(Utf16, text, 0);
      IndexOfOffset(Utf16, after, 0);
      forall x | 0 <= x <= Size(Utf16, text)
        ensures Convert(Utf16, Utf8, text, x) == Convert(Utf16, Utf8, after, x)
      {
        assert SelectsAsRequested(st, range16, text, Range(x, x));
      }
      AlikeMeansSameWidths(text, after, |text|);
    }
    if range.start == range.end && SameWidths(text, after) {
      forall sel: Range | Within(text, sel)
        ensures SelectsAsRequested(st, range16, text, sel)
      {
        SameIndex(text, after, sel.start);
        SameIndex(text, after, sel.end);
      }
    }
  }

  // ---------------------------------------------------------------- text of one width

  /** Every character takes `w` bytes. */
  ghost predicate Uniform(s: string, w: nat) {
    forall i :: 0 <= i < |s| ==> Width(Utf8, s[i]) == w
  }

  lemma {:induction false} UniformOffset(s: string, w: nat, k: nat)
    requires Uniform(s, w) && k <= |s|
    ensures Offset(Utf8, s, k) == w * k
  {
    if k > 0 {
      UniformOffset(s, w, k - 1);
      OffsetStep(Utf8, s, k - 1);
    }
  }

  lemma MultipleAtMost(w: nat, n: nat, m: nat)
    requires w >= 1
    ensures w * n <= w * m <==> n <= m
  {
  }

  lemma UniformBoundary(s: string, w: nat, n: nat)
    requires Uniform(s, w) && w >= 1
    ensures IsBoundary(Utf8, s, w * n) <==> w * n <= Size(Utf8, s)
  {
    UniformOffset(s, w, |s|);
    OffsetOfEnd(Utf8, s);
    MultipleAtMost(w, n, |s|);
    if n <= |s| {
      UniformOffset(s, w, n);
    }
    if IsBoundary(Utf8, s, w * n) {
      BoundaryIndex(Utf8, s, w * n);
    }
  }

  lemma UniformMultiple(s: string, w: nat, x: nat) returns (n: nat)
    requires Uniform(s, w) && IsBoundary(Utf8, s, x)
    ensures x == w * n
  {
    n := Index(Utf8, s, x);
    BoundaryIndex(Utf8, s, x);
    UniformOffset(s, w, n);
  }

  lemma SumOfMultiples(w: nat, i: nat, j: nat) returns (n: nat)
    ensures n == i + j && w * i + w * j == w * n
  {
    n := i + j;
  }

  /** A boundary of one uniform text, moved on by a boundary of another, is a boundary unless it is past the end. */
  lemma UniformShift(s: string, t: string, w: nat, x: nat, y: nat)
    requires Uniform(s, w) && Uniform(t, w) && w >= 1
    requires IsBoundary(Utf8, s, x) && IsBoundary(Utf8, t, y)
    ensures IsBoundary(Utf8, s, x + y) <==> x + y <= Size(Utf8, s)
  {
    var i := UniformMultiple(s, w, x);
    var j := UniformMultiple(t, w, y);
    var n := SumOfMultiples(w, i, j);
    UniformBoundary(s, w, n);
  }

  lemma UniformSplice(content: string, r: Range, text: string, w: nat)
    requires Uniform(content, w) && Uniform(text, w)
    ensures Uniform(Splice(content, r, text), w) && SameWidths(text, Splice(content, r, text))
  {
  }

  /** In text of one width, a selection within the new text becomes the part it means exactly when nothing is replaced. */
  lemma UniformSelectionAsRequested(st: TextState, range16: Option<Range>, text: string, sel: Range, w: nat)
    requires Uniform(st.content, w) && Uniform(text, w) && Within(text, sel)
    ensures SelectsAsRequested(st, range16, text, sel) <==> EditRange(st, range16).start == EditRange(st, range16).end
  {
    UniformSplice(st.content, EditRange(st, range16), text, w);
    SameIndex(text, Splice(st.content, EditRange(st, range16), text), sel.start);
    SameIndex(text, Splice(st.content, EditRange(st, range16), text), sel.end);
  }

  /**
   In text of one width a single call with a selection within the new text is safe exactly when the
   selection's end, moved on by the length of the replaced range, still lies in the content, and its ends
   stay in order, which they do unless the replaced range is out of order.
   */
  lemma UniformSelectionSafe(st: TextState, range16: Option<Range>, text: string, sel: Range, w: nat)
    requires Inv(st) && Uniform(st.content, w) && Uniform(text, w) && w >= 1 && Within(text, sel)
    ensures var range := EditRange(st, range16);
      var from, to := Convert(Utf16, Utf8, text, sel.start), Convert(Utf16, Utf8, text, sel.end);
      Inv(ReplaceAndMark(st, range16, text, Some(sel)))
      <==> && to + (range.end - range.start) <= Size(Utf8, text) + (Size(Utf8, st.content) - range.end)
           && from <= to + (range.end - range.start)
  {
    var range := EditRange(st, range16);
    EditRangeOnBoundaries(st, range16);
    UniformExplicit(st.content, range, text, sel, w);
    SpliceBoundaries(st.content, range, text);
    MarkKeepsInv(st, range16, text);
  }

  lemma UniformExplicit(content: string, range: Range, text: string, sel: Range, w: nat)
    requires Uniform(content, w) && Uniform(text, w) && w >= 1 && Within(text, sel)
    requires IsBoundary(Utf8, content, range.start) && IsBoundary(Utf8, content, range.end)
    ensures var after := Splice(content, range, text);
      var r := Range(Convert(Utf16, Utf8, text, sel.start) + range.start, Convert(Utf16, Utf8, text, sel.end) + range.end);
      ExplicitSelection(after, range, sel) == r && (LegalSlice(after, r) <==> r.start <= r.end <= Size(Utf8, after))
  {
    var after := Splice(content, range, text);
    UniformSplice(content, range, text, w);
    SameIndex(text, after, sel.start);
    SameIndex(text, after, sel.end);
    ConvertLandsOnBoundary(Utf16, Utf8, after, sel.start);
    ConvertLandsOnBoundary(Utf16, Utf8, after, sel.end);
    UniformShift(after, content, w, Convert(Utf16, Utf8, after, sel.start), range.start);
    UniformShift(after, content, w, Convert(Utf16, Utf8, after, sel.end), range.end);
  }

  /** So in such text every selection within the new text is safe exactly when no more is replaced than follows. */
  lemma UniformAlwaysSafe(st: TextState, range16: Option<Range>, text: string, w: nat)
    requires Inv(st) && Uniform(st.content, w) && Uniform(text, w) && w >= 1
    ensures var range := EditRange(st, range16);
      (forall sel: Range :: Within(text, sel) ==> Inv(ReplaceAndMark(st, range16, text, Some(sel))))
      <==> range.start <= range.end && range.end - range.start <= Size(Utf8, st.content) - range.end
  {
    var range := EditRange(st, range16);
    var end := Size(Utf16, text);
    IndexOfOffset(Utf16, text, 0);
    OffsetOfEnd(Utf16, text);
    OffsetOfEnd(Utf8, text);
    IndexOfOffset(Utf16, text, |text|);
    UniformSelectionSafe(st, range16, text, Range(0, 0), w);
    UniformSelectionSafe(st, range16, text, Range(end, end), w);
    if range.start <= range.end && range.end - range.start <= Size(Utf8, st.content) - range.end {
      forall sel: Range | Within(text, sel)
        ensures Inv(ReplaceAndMark(st, range16, text, Some(sel)))
      {
        UniformSelectionSafe(st, range16, text, sel, w);
        ConvertLandsOnBoundary(Utf16, Utf8, text, sel.end);
        ConvertIsMonotone(Utf16, Utf8, text, sel.start, sel.end);
      }
    }
  }
}
