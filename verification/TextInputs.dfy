/** The text field of `input.rs`: an object whose commands assign its fields. */
module TextInputs {
  import opened Common
  import opened Utf
  import opened TextEditing
  import opened Marking

  class TextInput {
    var content: string
    var selectedRange: Range
    var selectionReversed: bool
    var markedRange: Option<Range>
    var isSelecting: bool
    const graphemes: Segmentation

    function State(): TextState
      reads this
    {
      TextState(content, selectedRange, selectionReversed, markedRange, isSelecting)
    }

    /** The selection and the marked text are ordered character-boundary ranges of the content. */
    ghost predicate Valid()
      reads this
    {
      SegmentationOk(graphemes) && Inv(State())
    }

    constructor (g: Segmentation)
      requires SegmentationOk(g)
      ensures Valid() && State() == Initial() && graphemes == g
    {
      content, selectedRange, selectionReversed, markedRange, isSelecting := "", Range(0, 0), false, None, false;
      graphemes := g;
      new;
      EndsAreBoundaries("");
    }

    // -------------------------------------------------------------- movement and selection

    /** The selection-reversed flag is left as it was. */
    method MoveTo(offset: nat)
      modifies this
      ensures State() == TextEditing.MoveTo(old(State()), offset)
    {
      selectedRange := Range(offset, offset);
    }

    /** The cursor goes to `offset` and the selection's other end stays where it was. */
    method SelectTo(offset: nat)
      modifies this
      ensures State() == TextEditing.SelectTo(old(State()), offset)
      ensures CursorOffset(State()) == offset && Anchor(State()) == old(Anchor(State()))
      ensures selectedRange.start <= selectedRange.end
      ensures old(Valid() && IsBoundary(Utf8, content, offset)) ==> Valid()
    {
      if Valid() && IsBoundary(Utf8, content, offset) {
        SelectToKeepsInv(State(), offset);
      }
      if selectionReversed {
        selectedRange := selectedRange.(start := offset);
      } else {
        selectedRange := selectedRange.(end := offset);
      }
      if selectedRange.end < selectedRange.start {
        selectionReversed := !selectionReversed;
        selectedRange := Range(selectedRange.end, selectedRange.start);
      }
    }

    method Left()
      requires Valid()
      modifies this
      ensures Valid() && State() == DoLeft(graphemes, old(State()))
    {
      StepKeepsInv(graphemes, State(), Command.Left);
      if selectedRange.IsEmpty() {
        MoveTo(PreviousBoundary(graphemes, State(), CursorOffset(State())));
      } else {
        MoveTo(selectedRange.start);
      }
    }

    method Right()
      requires Valid()
      modifies this
      ensures Valid() && State() == DoRight(graphemes, old(State()))
    {
      StepKeepsInv(graphemes, State(), Command.Right);
      if selectedRange.IsEmpty() {
        MoveTo(NextBoundary(graphemes, State(), selectedRange.end));
      } else {
        MoveTo(selectedRange.end);
      }
    }

    method SelectLeft()
      requires Valid()
      modifies this
      ensures Valid() && State() == DoSelectLeft(graphemes, old(State()))
    {
      StepKeepsInv(graphemes, State(), Command.SelectLeft);
      SelectTo(PreviousBoundary(graphemes, State(), CursorOffset(State())));
    }

    method SelectRight()
      requires Valid()
      modifies this
      ensures Valid() && State() == DoSelectRight(graphemes, old(State()))
    {
      StepKeepsInv(graphemes, State(), Command.SelectRight);
      SelectTo(NextBoundary(graphemes, State(), CursorOffset(State())));
    }

    method SelectAll()
      requires Valid()
      modifies this
      ensures Valid() && State() == DoSelectAll(old(State()))
    {
      StepKeepsInv(graphemes, State(), Command.SelectAll);
      MoveTo(0);
      SelectTo(Size(Utf8, content));
    }

    method Home()
      requires Valid()
      modifies this
      ensures Valid() && State() == TextEditing.MoveTo(old(State()), 0)
    {
      StepKeepsInv(graphemes, State(), Command.Home);
      MoveTo(0);
    }

    method End()
      requires Valid()
      modifies this
      ensures Valid() && State() == TextEditing.MoveTo(old(State()), Size(Utf8, old(content)))
    {
      StepKeepsInv(graphemes, State(), Command.End);
      MoveTo(Size(Utf8, content));
    }

    /** `index` is where the shaped line puts the mouse, assumed to be a character boundary. */
    method OnMouseDown(shift: bool, index: nat)
      requires Valid() && IsBoundary(Utf8, content, index)
      modifies this
      ensures Valid() && State() == DoMouseDown(old(State()), shift, index)
    {
      StepKeepsInv(graphemes, State(), MouseDown(shift, index));
      isSelecting := true;
      if shift {
        SelectTo(index);
      } else {
        MoveTo(index);
      }
    }

    method OnMouseUp()
      requires Valid()
      modifies this
      ensures Valid() && State() == old(State()).(selecting := false)
    {
      StepKeepsInv(graphemes, State(), MouseUp);
      isSelecting := false;
    }

    method OnMouseMove(index: nat)
      requires Valid() && IsBoundary(Utf8, content, index)
      modifies this
      ensures Valid() && State() == if old(isSelecting) then TextEditing.SelectTo(old(State()), index) else old(State())
    {
      StepKeepsInv(graphemes, State(), MouseMove(index));
      if isSelecting {
        SelectTo(index);
      }
    }

    // -------------------------------------------------------------- editing

    method RangeFromUtf16(range16: Range) returns (r: Range)
      ensures r == FromUtf16(State(), range16)
    {
      var start := OffsetFromUtf16(content, range16.start);
      var end := OffsetFromUtf16(content, range16.end);
      r := Range(start, end);
    }

    method RangeToUtf16(range: Range) returns (r: Range)
      ensures r == ToUtf16(State(), range)
    {
      var start := OffsetToUtf16(content, range.start);
      var end := OffsetToUtf16(content, range.end);
      r := Range(start, end);
    }

    method RangeToEdit(range16: Option<Range>) returns (r: Range)
      ensures r == EditRange(State(), range16)
    {
      if range16.Some? {
        r := RangeFromUtf16(range16.value);
      } else if markedRange.Some? {
        r := markedRange.value;
      } else {
        r := selectedRange;
      }
    }

    method ReplaceTextInRange(range16: Option<Range>, newText: string)
      requires Valid()
      modifies this
      ensures Valid() && State() == Replace(old(State()), range16, newText)
    {
      ReplaceKeepsInv(State(), range16, newText);
      var range := RangeToEdit(range16);
      content := Splice(content, range, newText);
      selectedRange := Range(range.start + Size(Utf8, newText), range.start + Size(Utf8, newText));
      markedRange := None;
    }

    /** The field stays valid when no explicit selection is asked for, or when the replaced range is 0..0. */
    method ReplaceAndMarkTextInRange(range16: Option<Range>, newText: string, newSelected16: Option<Range>)
      requires Valid()
      modifies this
      ensures State() == ReplaceAndMark(old(State()), range16, newText, newSelected16)
      ensures SafeToMark(old(State()), range16, newSelected16) ==> Valid()
    {
      ghost var before := State();
      MarkInPlace(range16, newText, newSelected16);
      if SafeToMark(before, range16, newSelected16) {
        SafeMarkKeepsInv(before, range16, newText, newSelected16);
      }
    }

    method MarkInPlace(range16: Option<Range>, newText: string, newSelected16: Option<Range>)
      modifies this
      ensures State() == ReplaceAndMark(old(State()), range16, newText, newSelected16)
    {
      var range := RangeToEdit(range16);
      ghost var after := Splice(content, range, newText);
      content := Splice(content, range, newText);
      assert content == after;
      SetMarked(range.start, newText);
      assert content == after;
      if newSelected16.Some? {
        SelectExplicitly(range, newSelected16.value);
      } else {
        selectedRange := Range(range.start + Size(Utf8, newText), range.start + Size(Utf8, newText));
      }
    }

    method SetMarked(start: nat, newText: string)
      modifies this`markedRange
      ensures markedRange == if newText != "" then Some(Range(start, start + Size(Utf8, newText))) else None
    {
      if newText != "" {
        markedRange := Some(Range(start, start + Size(Utf8, newText)));
      } else {
        markedRange := None;
      }
    }

    /** The requested selection, converted against the whole new content and shifted by the replaced range. */
    method SelectExplicitly(range: Range, newSelected16: Range)
      modifies this`selectedRange
      ensures State() == old(State()).(selected := ExplicitSelection(content, range, newSelected16))
    {
      var newRange := RangeFromUtf16(newSelected16);
      selectedRange := Range(newRange.start + range.start, newRange.end + range.end);
    }

    method Backspace()
      requires Valid()
      modifies this
      ensures Valid() && State() == DoBackspace(graphemes, old(State()))
    {
      StepKeepsInv(graphemes, State(), Command.Backspace);
      if selectedRange.IsEmpty() {
        SelectLeft();
      }
      ReplaceTextInRange(None, "");
    }

    method Delete()
      requires Valid()
      modifies this
      ensures Valid() && State() == DoDelete(graphemes, old(State()))
    {
      StepKeepsInv(graphemes, State(), Command.Delete);
      if selectedRange.IsEmpty() {
        SelectRight();
      }
      ReplaceTextInRange(None, "");
    }

    method Paste(clipboard: Option<string>)
      requires Valid()
      modifies this
      ensures Valid() && State() == DoPaste(old(State()), clipboard)
    {
      StepKeepsInv(graphemes, State(), Command.Paste(clipboard));
      if clipboard.Some? {
        ReplaceTextInRange(None, NewlinesToSpaces(clipboard.value));
      }
    }

    /** What is written to the clipboard, if anything. */
    method Copy() returns (clipboard: Option<string>)
      requires Valid()
      ensures clipboard == if selectedRange.IsEmpty() then None else Some(Slice(content, selectedRange))
    {
      clipboard := None;
      if !selectedRange.IsEmpty() {
        clipboard := Some(Slice(content, selectedRange));
      }
    }

    method Cut() returns (clipboard: Option<string>)
      requires Valid()
      modifies this
      ensures Valid() && State() == DoCut(old(State()))
      ensures clipboard == if old(selectedRange).IsEmpty() then None else Some(Slice(old(content), old(selectedRange)))
    {
      clipboard := None;
      if !selectedRange.IsEmpty() {
        clipboard := Some(Slice(content, selectedRange));
        ReplaceTextInRange(None, "");
      }
    }

    method UnmarkText()
      requires Valid()
      modifies this
      ensures Valid() && State() == old(State()).(marked := None)
    {
      markedRange := None;
    }

    method Reset()
      requires Valid()
      modifies this
      ensures Valid() && State() == Initial()
    {
      EndsAreBoundaries("");
      content := "";
      selectedRange := Range(0, 0);
      selectionReversed := false;
      markedRange := None;
      isSelecting := false;
    }

    // -------------------------------------------------------------- queries of the input method

    /** The text of a UTF-16 range and the range it was widened to; `None` is the panic of an unordered slice. */
    method TextForRange(range16: Range) returns (text: Option<string>, actual: Range)
      ensures text.Some? <==> LegalSlice(content, FromUtf16(State(), range16))
      ensures text.Some? ==> text.value == Slice(content, FromUtf16(State(), range16))
      ensures range16.start <= range16.end ==> text.Some?
      ensures IsRoundedUp(Utf16, content, range16.start, actual.start)
      ensures IsRoundedUp(Utf16, content, range16.end, actual.end)
    {
      var range := RangeFromUtf16(range16);
      actual := RangeToUtf16(range);
      ConvertRoundTrip(Utf16, Utf8, content, range16.start);
      ConvertRoundTrip(Utf16, Utf8, content, range16.end);
      ConvertLandsOnBoundary(Utf16, Utf8, content, range16.start);
      ConvertLandsOnBoundary(Utf16, Utf8, content, range16.end);
      if range16.start <= range16.end {
        OrderedUtf16RangeIsLegal(State(), range16);
      }
      text := if range.start <= range.end then Some(Slice(content, range)) else None;
    }

    /** The reported selection denotes the selection: converting it back gives the same range. */
    method SelectedTextRange() returns (range16: Range, reversed: bool)
      requires Valid()
      ensures FromUtf16(State(), range16) == selectedRange && reversed == selectionReversed
      ensures range16 == ToUtf16(State(), selectedRange)
    {
      range16 := RangeToUtf16(selectedRange);
      reversed := selectionReversed;
      SelectionSurvivesUtf16(State());
    }

    method MarkedTextRange() returns (range16: Option<Range>)
      requires Valid()
      ensures range16.Some? <==> markedRange.Some?
      ensures range16.Some? ==> FromUtf16(State(), range16.value) == markedRange.value
      ensures range16.Some? ==> range16.value == ToUtf16(State(), markedRange.value)
    {
      range16 := None;
      if markedRange.Some? {
        var r := RangeToUtf16(markedRange.value);
        range16 := Some(r);
        SelectionSurvivesUtf16(State());
      }
    }
  }
}
