/** Laws of the text field about sequences of commands: typing, composing, moving and dragging. */
module TextLaws {
  import opened Common
  import opened Utf
  import opened TextEditing

  // ---------------------------------------------------------------- typing

  /** The text an edit keeps before and after what it replaces. */
  function Before(st: TextState, range16: Option<Range>): string {
    st.content[..Index(Utf8, st.content, EditRange(st, range16).start)]
  }

  function After(st: TextState, range16: Option<Range>): string {
    st.content[Index(Utf8, st.content, EditRange(st, range16).end)..]
  }

  lemma BeforeEnds(st: TextState, range16: Option<Range>)
    requires Inv(st)
    ensures Size(Utf8, Before(st, range16)) == EditRange(st, range16).start
  {
    EditRangeOnBoundaries(st, range16);
    BoundaryIndex(Utf8, st.content, EditRange(st, range16).start);
  }

  /** The cursor is an empty selection at the end of `before`, and `after` follows it. */
  ghost predicate CursorBetween(st: TextState, before: string, after: string) {
    && st.content == before + after
    && st.selected == Range(Size(Utf8, before), Size(Utf8, before))
  }

  /** What a cursor between two texts means for the content: it divides it there. */
  lemma CursorDivides(st: TextState, before: string, after: string)
    requires CursorBetween(st, before, after)
    ensures var k := Index(Utf8, st.content, CursorOffset(st)); st.content[..k] == before && st.content[k..] == after
  {
    IndexOfPrefix(Utf8, st.content, before);
  }

  /**
   Whatever range an edit is given, its text replaces exactly that range and the cursor ends up behind it,
   with nothing marked.
   */
  lemma ReplacePutsCursorAfter(st: TextState, range16: Option<Range>, s: string)
    requires Inv(st)
    ensures CursorBetween(Replace(st, range16, s), Before(st, range16) + s, After(st, range16))
    ensures Replace(st, range16, s).marked.None?
  {
    BeforeEnds(st, range16);
    SizeConcat(Utf8, Before(st, range16), s);
  }

  /** An edit at a cursor inserts there. */
  lemma InsertAtCursor(st: TextState, before: string, after: string, t: string)
    requires CursorBetween(st, before, after) && st.marked.None?
    ensures CursorBetween(Replace(st, None, t), before + t, after)
  {
    assert st.content == before + "" + after;
    SpliceOfParts(st.content, st.selected, before, "", after, t);
    SizeConcat(Utf8, before, t);
  }

  /** Typing `s` and then `t` is typing `s + t`, over any range. */
  lemma TypingInTwo(st: TextState, range16: Option<Range>, s: string, t: string)
    requires Inv(st)
    ensures Replace(Replace(st, range16, s), None, t) == Replace(st, range16, s + t)
  {
    var before, after := Before(st, range16), After(st, range16);
    ReplacePutsCursorAfter(st, range16, s);
    InsertAtCursor(Replace(st, range16, s), before + s, after, t);
    ReplacePutsCursorAfter(st, range16, s + t);
    assert before + s + t == before + (s + t);
  }

  /** A range given by the system counts UTF-16 units: in a text of three parts it picks the middle one. */
  lemma GivenRangeIsReplaced(st: TextState, before: string, middle: string, rest: string, range16: Range, t: string)
    requires st.content == before + middle + rest
    requires range16 == Range(Size(Utf16, before), Size(Utf16, before) + Size(Utf16, middle))
    ensures EditRange(st, Some(range16)) == Range(Size(Utf8, before), Size(Utf8, before) + Size(Utf8, middle))
    ensures CursorBetween(Replace(st, Some(range16), t), before + t, rest)
    ensures CursorBetween(ReplaceAndMark(st, Some(range16), t, None), before + t, rest)
  {
    var head := HeadOf(st.content, before, middle, rest);
    ConvertPrefix(st.content, before, range16.start, Size(Utf8, before));
    ConvertPrefix(st.content, head, range16.end, Size(Utf8, before) + Size(Utf8, middle));
    PartIsReplaced(st, Some(range16), before, middle, rest, t);
  }

  lemma PartIsReplaced(st: TextState, range16: Option<Range>, before: string, middle: string, rest: string, t: string)
    requires st.content == before + middle + rest
    requires EditRange(st, range16) == Range(Size(Utf8, before), Size(Utf8, before) + Size(Utf8, middle))
    ensures CursorBetween(Replace(st, range16, t), before + t, rest)
    ensures CursorBetween(ReplaceAndMark(st, range16, t, None), before + t, rest)
  {
    SizeConcat(Utf8, before, t);
    SpliceOfParts(st.content, EditRange(st, range16), before, middle, rest, t);
  }

  /** The text up to the end of the middle part, its prefix and its sizes. */
  lemma HeadOf(content: string, before: string, middle: string, rest: string) returns (head: string)
    requires content == before + middle + rest
    ensures before <= content && head <= content
    ensures Size(Utf8, head) == Size(Utf8, before) + Size(Utf8, middle)
    ensures Size(Utf16, head) == Size(Utf16, before) + Size(Utf16, middle)
  {
    SizeConcat(Utf8, before, middle);
    SizeConcat(Utf16, before, middle);
    head := before + middle;
  }

  /** An offset counted in one encoding over a prefix is converted to the offset counted in the other. */
  lemma ConvertPrefix(content: string, prefix: string, offset16: nat, offset8: nat)
    requires prefix <= content && offset16 == Size(Utf16, prefix) && offset8 == Size(Utf8, prefix)
    ensures Convert(Utf16, Utf8, content, offset16) == offset8
  {
    IndexOfPrefix(Utf16, content, prefix);
    assert content[..|prefix|] == prefix;
  }

  // ---------------------------------------------------------------- composing

  /** While text is being composed it is what is marked, and the cursor is behind it. */
  lemma MarkingMarksText(st: TextState, range16: Option<Range>, s: string)
    requires Inv(st)
    ensures var marked := ReplaceAndMark(st, range16, s, None);
      && CursorBetween(marked, Before(st, range16) + s, After(st, range16))
      && (s == "" ==> marked.marked.None?)
      && (s != "" ==> marked.marked.Some? && Slice(marked.content, marked.marked.value) == s
                      && marked.marked.value.end == CursorOffset(marked))
  {
    BeforeEnds(st, range16);
    MarkedBetween(ReplaceAndMark(st, range16, s, None), Before(st, range16), s, After(st, range16));
  }

  lemma MarkedBetween(marked: TextState, before: string, s: string, after: string)
    requires marked.content == before + s + after
    requires var c := Size(Utf8, before) + Size(Utf8, s);
             && marked.selected == Range(c, c)
             && marked.marked == if s != "" then Some(Range(Size(Utf8, before), c)) else None
    ensures CursorBetween(marked, before + s, after)
    ensures s != "" ==> Slice(marked.content, marked.marked.value) == s && marked.marked.value.end == CursorOffset(marked)
  {
    SizeConcat(Utf8, before, s);
    if s != "" {
      SpliceOfParts(marked.content, marked.marked.value, before, s, after, "");
    }
  }

  /** The next edit without a range replaces what was put in last, if it was marked. */
  lemma EditAfterMarking(st: TextState, range16: Option<Range>, s: string, selection16: Option<Range>, t: string)
    requires Inv(st) && (selection16.None? || s != "")
    ensures var marked := ReplaceAndMark(st, range16, s, selection16);
      && EditRange(marked, None).start == EditRange(st, range16).start
      && Splice(marked.content, EditRange(marked, None), t) == Before(st, range16) + t + After(st, range16)
  {
    var before, after := Before(st, range16), After(st, range16);
    var marked := ReplaceAndMark(st, range16, s, selection16);
    BeforeEnds(st, range16);
    assert marked.content == before + s + after;
    SpliceOfParts(marked.content, EditRange(marked, None), before, s, after, t);
  }

  /** Composing `s` and then committing `t` is replacing by `t`: nothing of the composition stays. */
  lemma CommitReplacesComposition(st: TextState, range16: Option<Range>, s: string, selection16: Option<Range>, t: string)
    requires Inv(st) && (selection16.None? || s != "")
    ensures Replace(ReplaceAndMark(st, range16, s, selection16), None, t) == Replace(st, range16, t)
  {
    EditAfterMarking(st, range16, s, selection16, t);
  }

  /** Composing `s` and then `t` is composing `t`. */
  lemma CompositionReplacesComposition(st: TextState, range16: Option<Range>, s: string, selection16: Option<Range>,
                                       t: string)
    requires Inv(st) && (selection16.None? || s != "")
    ensures ReplaceAndMark(ReplaceAndMark(st, range16, s, selection16), None, t, None) == ReplaceAndMark(st, range16, t, None)
  {
    EditAfterMarking(st, range16, s, selection16, t);
  }

  /** Composing `s`, unmarking it and typing `t` is typing `s + t`. */
  lemma UnmarkKeepsComposition(g: Segmentation, st: TextState, range16: Option<Range>, s: string, t: string)
    requires Inv(st)
    ensures Replace(Step(g, Step(g, st, MarkText(range16, s)), Unmark), None, t) == Replace(st, range16, s + t)
  {
    TypingInTwo(st, range16, s, t);
    assert Step(g, Step(g, st, MarkText(range16, s)), Unmark) == Replace(st, range16, s);
  }

  // ---------------------------------------------------------------- moving

  /** `p` is the last grapheme start before `c`, or the start of the text. */
  ghost predicate IsPrevious(g: Segmentation, content: string, c: nat, p: nat) {
    && (p == 0 || (p in g(content) && p < c))
    && forall b :: b in g(content) && b < c ==> b <= p
  }

  /** `n` is the first grapheme start after `c`, or the end of the text when there is none. */
  ghost predicate IsNext(g: Segmentation, content: string, c: nat, n: nat) {
    && ((n in g(content) && n > c) || (n == Size(Utf8, content) && forall b :: b in g(content) ==> b <= c))
    && forall b :: b in g(content) && b > c ==> n <= b
  }

  lemma BoundariesFound(g: Segmentation, st: TextState, c: nat)
    requires SegmentationOk(g)
    ensures IsPrevious(g, st.content, c, PreviousBoundary(g, st, c)) && IsNext(g, st.content, c, NextBoundary(g, st, c))
  {
    assert Segments(g, st.content);
    LastBelowIsGreatest(g(st.content), c);
    FirstAboveIsLeast(g(st.content), c, Size(Utf8, st.content));
  }

  /** The cursor is at `c` with nothing selected. */
  ghost predicate CursorAt(st: TextState, c: nat) {
    st.selected == Range(c, c)
  }

  /** Left and right move the cursor by one grapheme. */
  lemma ArrowsMoveOneGrapheme(g: Segmentation, st: TextState, c: nat) returns (p: nat, n: nat)
    requires SegmentationOk(g) && CursorAt(st, c)
    ensures CursorAt(Step(g, st, Left), p) && IsPrevious(g, st.content, c, p)
    ensures CursorAt(Step(g, st, Right), n) && IsNext(g, st.content, c, n)
  {
    BoundariesFound(g, st, c);
    p, n := PreviousBoundary(g, st, c), NextBoundary(g, st, c);
  }

  /** With a selection, made in whichever direction, left goes to its smaller end and right to its larger. */
  lemma ArrowsLeaveSelection(g: Segmentation, st: TextState, anchor: nat, cursor: nat)
    requires SelectedFrom(st, anchor, cursor) && anchor != cursor
    ensures CursorAt(Step(g, st, Left), if anchor < cursor then anchor else cursor)
    ensures CursorAt(Step(g, st, Right), if anchor < cursor then cursor else anchor)
  {
  }

  /** Selecting left or right moves the cursor by one grapheme and keeps the anchor, shrinking or growing the selection. */
  lemma SelectingMovesCursor(g: Segmentation, st: TextState, anchor: nat, cursor: nat) returns (p: nat, n: nat)
    requires SegmentationOk(g) && SelectedFrom(st, anchor, cursor)
    ensures SelectedFrom(Step(g, st, SelectLeft), anchor, p) && IsPrevious(g, st.content, cursor, p)
    ensures SelectedFrom(Step(g, st, SelectRight), anchor, n) && IsNext(g, st.content, cursor, n)
  {
    BoundariesFound(g, st, cursor);
    p, n := PreviousBoundary(g, st, cursor), NextBoundary(g, st, cursor);
  }

  /** Home goes before all text and end behind it. */
  lemma HomeAndEnd(g: Segmentation, st: TextState)
    ensures CursorBetween(Step(g, st, Home), "", st.content) && CursorBetween(Step(g, st, End), st.content, "")
  {
    assert "" + st.content == st.content == st.content + "";
  }

  /** So typing there, with nothing marked, puts the typed text first or last. */
  lemma TypingAtTheEnds(st: TextState, home: TextState, end: TextState, content: string, s: string)
    requires st.marked.None? && content == st.content
    requires home == MoveTo(st, 0) && end == MoveTo(st, Size(Utf8, content))
    ensures Replace(home, None, s).content == s + content
    ensures Replace(end, None, s).content == content + s
  {
    HomeTypes(home, content, s);
    EndTypes(end, content, s);
  }

  lemma HomeTypes(home: TextState, content: string, s: string)
    requires home.marked.None? && home.content == content && home.selected == Range(0, 0)
    ensures Replace(home, None, s).content == s + content
  {
    assert "" + content == content;
    InsertAtCursor(home, "", content, s);
    assert "" + s == s;
  }

  lemma EndTypes(end: TextState, content: string, s: string)
    requires end.marked.None? && end.content == content && end.selected == Range(Size(Utf8, content), Size(Utf8, content))
    ensures Replace(end, None, s).content == content + s
  {
    assert content + "" == content;
    InsertAtCursor(end, content, "", s);
    assert content + s + "" == content + s;
  }

  // ---------------------------------------------------------------- the mouse

  function MouseMoves(g: Segmentation, st: TextState, offsets: seq<nat>): TextState {
    if offsets == [] then st
    else Step(g, MouseMoves(g, st, offsets[..|offsets| - 1]), MouseMove(offsets[|offsets| - 1]))
  }

  lemma {:induction false} MovesSelect(g: Segmentation, st: TextState, anchor: nat, offsets: seq<nat>)
    requires st.selecting && SelectedFrom(st, anchor, CursorOffset(st))
    ensures var after := MouseMoves(g, st, offsets);
      && after.selecting
      && SelectedFrom(after, anchor, if offsets == [] then CursorOffset(st) else offsets[|offsets| - 1])
  {
    if offsets != [] {
      MovesSelect(g, st, anchor, offsets[..|offsets| - 1]);
    }
  }

  /** Pressing the mouse at `a` and dragging it selects from `a` to where it is; after the button is up moves do nothing. */
  lemma MouseDragSelects(g: Segmentation, st: TextState, a: nat, offsets: seq<nat>, later: seq<nat>)
    ensures var dragged := MouseMoves(g, Step(g, st, MouseDown(false, a)), offsets);
      && SelectedFrom(dragged, a, if offsets == [] then a else offsets[|offsets| - 1])
      && MouseMoves(g, Step(g, dragged, MouseUp), later) == dragged.(selecting := false)
  {
    MovesSelect(g, Step(g, st, MouseDown(false, a)), a, offsets);
    MovesIgnored(g, MouseMoves(g, Step(g, st, MouseDown(false, a)), offsets).(selecting := false), later);
  }

  lemma {:induction false} MovesIgnored(g: Segmentation, st: TextState, offsets: seq<nat>)
    requires !st.selecting
    ensures MouseMoves(g, st, offsets) == st
  {
    if offsets != [] {
      MovesIgnored(g, st, offsets[..|offsets| - 1]);
    }
  }

  /** A shifted press keeps the anchor and drags the cursor on from where it is pressed. */
  lemma ShiftPressExtends(g: Segmentation, st: TextState, anchor: nat, cursor: nat, index: nat, offsets: seq<nat>)
    requires SelectedFrom(st, anchor, cursor)
    ensures SelectedFrom(MouseMoves(g, Step(g, st, MouseDown(true, index)), offsets), anchor,
                         if offsets == [] then index else offsets[|offsets| - 1])
  {
    MovesSelect(g, Step(g, st, MouseDown(true, index)), anchor, offsets);
  }

  // ---------------------------------------------------------------- what commands leave alone

  predicate IsEdit(c: Command) {
    c.Backspace? || c.Delete? || c.Paste? || c.Cut? || c.ReplaceText? || c.MarkText? || c.Reset?
  }

  predicate Selects(c: Command) {
    c.SelectLeft? || c.SelectRight? || c.SelectAll? || c.MouseDown? || c.MouseMove?
  }

  /** Only edits change the text, and with unmarking the marking; only the mouse buttons the dragging; plain moves keep the direction. */
  lemma CommandsLeaveAlone(g: Segmentation, st: TextState, c: Command)
    ensures !IsEdit(c) ==> Step(g, st, c).content == st.content
    ensures !IsEdit(c) && !c.Unmark? ==> Step(g, st, c).marked == st.marked
    ensures !c.MouseDown? && !c.MouseUp? && !c.Reset? ==> Step(g, st, c).selecting == st.selecting
    ensures !Selects(c) && !c.Reset? && !c.Backspace? && !c.Delete? ==> Step(g, st, c).reversed == st.reversed
    ensures c.Unmark? || c.MouseUp? ==> Step(g, st, c).selected == st.selected
    ensures c == Paste(None) || (c.Cut? && st.selected.IsEmpty()) ==> Step(g, st, c) == st
    ensures c.Unmark? ==> Step(g, st, c).marked.None?
  {
  }

  /** Pasting types the clipboard, newlines made spaces. */
  lemma PasteTypes(g: Segmentation, st: TextState, text: string)
    requires Inv(st)
    ensures CursorBetween(Step(g, st, Paste(Some(text))), Before(st, None) + NewlinesToSpaces(text), After(st, None))
  {
    ReplacePutsCursorAfter(st, None, NewlinesToSpaces(text));
  }

  /** After a reset nothing of the past remains: typing gives just the text typed, with the cursor behind it. */
  lemma ResetForgets(g: Segmentation, st: TextState, s: string)
    ensures Replace(Step(g, st, Reset), None, s) == TextState(s, Range(Size(Utf8, s), Size(Utf8, s)), false, None, false)
  {
    assert "" == "" + "";
    InsertAtCursor(Initial(), "", "", s);
    assert "" + s == s && s + "" == s;
  }
}
