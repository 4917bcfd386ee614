/** What each command of the `input.rs` text field does to its state, and what every run of commands keeps. */
module TextEditing {
  import opened Common
  import opened Utf

  /** A range of UTF-8 offsets, as Rust's `Range<usize>`: the ends need not be in order. */
  datatype Range = Range(start: nat, end: nat) {
    predicate IsEmpty() {
      start >= end
    }
  }

  datatype TextState = TextState(
    content: string,
    selected: Range,
    reversed: bool,
    marked: Option<Range>,
    selecting: bool)

  /** Start offsets of the grapheme clusters of a text; the segmentation library is not part of this model. */
  type Segmentation = string -> seq<nat>

  ghost predicate Ascending(s: seq<nat>) {
    forall i, j :: 0 <= i < j < |s| ==> s[i] < s[j]
  }

  ghost predicate Segments(g: Segmentation, s: string) {
    && Ascending(g(s))
    && forall i :: 0 <= i < |g(s)| ==> IsBoundary(Utf8, s, g(s)[i])
  }

  /** What is known of grapheme clusters: they start at character boundaries, in order. */
  ghost predicate SegmentationOk(g: Segmentation) {
    forall s: string :: Segments(g, s)
  }

  // ---------------------------------------------------------------- movement

  function CursorOffset(st: TextState): nat {
    if st.reversed then st.selected.start else st.selected.end
  }

  /** The end of the selection that stays when it is extended. */
  function Anchor(st: TextState): nat {
    if st.reversed then st.selected.end else st.selected.start
  }

  function MoveTo(st: TextState, offset: nat): TextState {
    st.(selected := Range(offset, offset))
  }

  function SelectTo(st: TextState, offset: nat): TextState {
    var r := if st.reversed then Range(offset, st.selected.end) else Range(st.selected.start, offset);
    if r.end < r.start then st.(selected := Range(r.end, r.start), reversed := !st.reversed)
    else st.(selected := r)
  }

  /** The last start below `offset`, or 0. */
  function LastBelow(starts: seq<nat>, offset: nat): nat {
    if starts == [] then 0
    else if starts[|starts| - 1] < offset then starts[|starts| - 1]
    else LastBelow(starts[..|starts| - 1], offset)
  }

  /** The first start above `offset`, or `end`. */
  function FirstAbove(starts: seq<nat>, offset: nat, end: nat): nat {
    if starts == [] then end
    else if starts[0] > offset then starts[0]
    else FirstAbove(starts[1..], offset, end)
  }

  function PreviousBoundary(g: Segmentation, st: TextState, offset: nat): nat {
    LastBelow(g(st.content), offset)
  }

  function NextBoundary(g: Segmentation, st: TextState, offset: nat): nat {
    FirstAbove(g(st.content), offset, Size(Utf8, st.content))
  }

  lemma {:induction false} LastBelowIsGreatest(starts: seq<nat>, offset: nat)
    requires Ascending(starts)
    ensures var r := LastBelow(starts, offset);
      && (r in starts || r == 0)
      && (r < offset || r == 0)
      && forall b :: b in starts && b < offset ==> b <= r
  {
    if starts != [] {
      var n := |starts| - 1;
      LastBelowIsGreatest(starts[..n], offset);
      assert starts == starts[..n] + [starts[n]];
    }
  }

  lemma {:induction false} FirstAboveIsLeast(starts: seq<nat>, offset: nat, end: nat)
    requires Ascending(starts)
    ensures var r := FirstAbove(starts, offset, end);
      && ((r in starts && r > offset) || (r == end && forall b :: b in starts ==> b <= offset))
      && forall b :: b in starts && b > offset ==> r <= b
  {
    if starts != [] {
      FirstAboveIsLeast(starts[1..], offset, end);
      assert starts == [starts[0]] + starts[1..];
    }
  }

  // ---------------------------------------------------------------- editing

  function FromUtf16(st: TextState, r: Range): Range {
    Range(Convert(Utf16, Utf8, st.content, r.start), Convert(Utf16, Utf8, st.content, r.end))
  }

  function ToUtf16(st: TextState, r: Range): Range {
    Range(Convert(Utf8, Utf16, st.content, r.start), Convert(Utf8, Utf16, st.content, r.end))
  }

  /** `content[0..start] + text + &content[end..]` */
  function Splice(content: string, r: Range, text: string): string {
    content[..Index(Utf8, content, r.start)] + text + content[Index(Utf8, content, r.end)..]
  }

  /** The range an edit replaces: the one given, else the marked text, else the selection. */
  function EditRange(st: TextState, range16: Option<Range>): Range {
    match range16
    case Some(r) => FromUtf16(st, r)
    case None => if st.marked.Some? then st.marked.value else st.selected
  }

  function Replace(st: TextState, range16: Option<Range>, text: string): TextState {
    var range := EditRange(st, range16);
    var cursor := range.start + Size(Utf8, text);
    st.(content := Splice(st.content, range, text), selected := Range(cursor, cursor), marked := None)
  }

  /** The selection after marking when the input method asks for one: both ends are shifted, by different amounts. */
  function ExplicitSelection(content: string, range: Range, selection16: Range): Range {
    Range(Convert(Utf16, Utf8, content, selection16.start) + range.start,
          Convert(Utf16, Utf8, content, selection16.end) + range.end)
  }

  function ReplaceAndMark(st: TextState, range16: Option<Range>, text: string, selection16: Option<Range>): TextState {
    var range := EditRange(st, range16);
    var cursor := range.start + Size(Utf8, text);
    var content := Splice(st.content, range, text);
    st.(content := content,
        marked := if text != "" then Some(Range(range.start, cursor)) else None,
        selected := match selection16
                    case Some(r) => ExplicitSelection(content, range, r)
                    case None => Range(cursor, cursor))
  }

  /** `&content[range]` on a range that lies on boundaries. */
  function Slice(content: string, r: Range): string {
    var i, j := Index(Utf8, content, r.start), Index(Utf8, content, r.end);
    if i <= j then content[i..j] else ""
  }

  /** The slice expression's panic condition. */
  ghost predicate LegalSlice(content: string, r: Range) {
    r.start <= r.end && IsBoundary(Utf8, content, r.start) && IsBoundary(Utf8, content, r.end)
  }

  /** `text.replace("\n", " ")` */
  function NewlinesToSpaces(text: string): (r: string)
    ensures |r| == |text|
    ensures forall i :: 0 <= i < |r| ==> r[i] == if text[i] == '\n' then ' ' else text[i]
  {
    if text == "" then ""
    else NewlinesToSpaces(text[..|text| - 1]) + [if text[|text| - 1] == '\n' then ' ' else text[|text| - 1]]
  }

  // ---------------------------------------------------------------- the commands

  datatype Command =
    | Left | Right | SelectLeft | SelectRight | SelectAll | Home | End
    | Backspace | Delete
    | MouseDown(shift: bool, index: nat) | MouseUp | MouseMove(index: nat)
    | Paste(clipboard: Option<string>) | Cut
    | ReplaceText(range16: Option<Range>, text: string)
    | MarkText(range16: Option<Range>, text: string)
    | Unmark
    | Reset

  function DoLeft(g: Segmentation, st: TextState): TextState {
    if st.selected.IsEmpty() then MoveTo(st, PreviousBoundary(g, st, CursorOffset(st))) else MoveTo(st, st.selected.start)
  }

  function DoRight(g: Segmentation, st: TextState): TextState {
    if st.selected.IsEmpty() then MoveTo(st, NextBoundary(g, st, st.selected.end)) else MoveTo(st, st.selected.end)
  }

  function DoSelectLeft(g: Segmentation, st: TextState): TextState {
    SelectTo(st, PreviousBoundary(g, st, CursorOffset(st)))
  }

  function DoSelectRight(g: Segmentation, st: TextState): TextState {
    SelectTo(st, NextBoundary(g, st, CursorOffset(st)))
  }

  function DoSelectAll(st: TextState): TextState {
    SelectTo(MoveTo(st, 0), Size(Utf8, st.content))
  }

  function DoBackspace(g: Segmentation, st: TextState): TextState {
    Replace(if st.selected.IsEmpty() then DoSelectLeft(g, st) else st, None, "")
  }

  function DoDelete(g: Segmentation, st: TextState): TextState {
    Replace(if st.selected.IsEmpty() then DoSelectRight(g, st) else st, None, "")
  }

  function DoMouseDown(st: TextState, shift: bool, index: nat): TextState {
    var st' := st.(selecting := true);
    if shift then SelectTo(st', index) else MoveTo(st', index)
  }

  function DoPaste(st: TextState, clipboard: Option<string>): TextState {
    match clipboard
    case None => st
    case Some(text) => Replace(st, None, NewlinesToSpaces(text))
  }

  function DoCut(st: TextState): TextState {
    if st.selected.IsEmpty() then st else Replace(st, None, "")
  }

  function Initial(): TextState {
    TextState("", Range(0, 0), false, None, false)
  }

  function Step(g: Segmentation, st: TextState, c: Command): TextState {
    match c
    case Left => DoLeft(g, st)
    case Right => DoRight(g, st)
    case SelectLeft => DoSelectLeft(g, st)
    case SelectRight => DoSelectRight(g, st)
    case SelectAll => DoSelectAll(st)
    case Home => MoveTo(st, 0)
    case End => MoveTo(st, Size(Utf8, st.content))
    case Backspace => DoBackspace(g, st)
    case Delete => DoDelete(g, st)
    case MouseDown(shift, index) => DoMouseDown(st, shift, index)
    case MouseUp => st.(selecting := false)
    case MouseMove(index) => if st.selecting then SelectTo(st, index) else st
    case Paste(clipboard) => DoPaste(st, clipboard)
    case Cut => DoCut(st)
    case ReplaceText(r, text) => Replace(st, r, text)
    case MarkText(r, text) => ReplaceAndMark(st, r, text, None)
    case Unmark => st.(marked := None)
    case Reset => Initial()
  }

  /** Mouse positions are resolved by the shaped line, which is assumed to answer with character boundaries. */
  ghost predicate Legal(st: TextState, c: Command) {
    c.MouseDown? || c.MouseMove? ==> IsBoundary(Utf8, st.content, c.index)
  }

  // ---------------------------------------------------------------- the invariant

  /** The selection is an ordered range of character boundaries; so is the marked text, which is not empty. */
  ghost predicate Inv(st: TextState) {
    && LegalSlice(st.content, st.selected)
    && (st.marked.Some? ==> LegalSlice(st.content, st.marked.value) && st.marked.value.start < st.marked.value.end)
  }

  lemma EndsAreBoundaries(s: string)
    ensures IsBoundary(Utf8, s, 0) && IsBoundary(Utf8, s, Size(Utf8, s))
  {
    OffsetOfEnd(Utf8, s);
  }

  lemma SelectToKeepsInv(st: TextState, offset: nat)
    requires Inv(st) && IsBoundary(Utf8, st.content, offset)
    ensures Inv(SelectTo(st, offset))
  {
  }

  lemma PreviousIsBoundary(g: Segmentation, st: TextState, offset: nat)
    requires SegmentationOk(g)
    ensures IsBoundary(Utf8, st.content, PreviousBoundary(g, st, offset))
  {
    assert Segments(g, st.content);
    LastBelowIsGreatest(g(st.content), offset);
    EndsAreBoundaries(st.content);
  }

  lemma NextIsBoundary(g: Segmentation, st: TextState, offset: nat)
    requires SegmentationOk(g)
    ensures IsBoundary(Utf8, st.content, NextBoundary(g, st, offset))
  {
    assert Segments(g, st.content);
    FirstAboveIsLeast(g(st.content), offset, Size(Utf8, st.content));
    EndsAreBoundaries(st.content);
  }

  /** Splicing on boundaries keeps what is outside the range and makes both ends of the new text boundaries. */
  lemma SpliceBoundaries(content: string, r: Range, text: string)
    requires IsBoundary(Utf8, content, r.start) && IsBoundary(Utf8, content, r.end)
    ensures var after := Splice(content, r, text);
      && IsBoundary(Utf8, after, r.start)
      && IsBoundary(Utf8, after, r.start + Size(Utf8, text))
      && Size(Utf8, after) == r.start + Size(Utf8, text) + (Size(Utf8, content) - r.end)
  {
    var i, j := Index(Utf8, content, r.start), Index(Utf8, content, r.end);
    var after := Splice(content, r, text);
    BoundaryIndex(Utf8, content, r.start);
    BoundaryIndex(Utf8, content, r.end);
    SizeConcat(Utf8, content[..i], text);
    SizeConcat(Utf8, content[..i] + text, content[j..]);
    assert after[..i] == content[..i];
    assert after[..i + |text|] == content[..i] + text;
    assert Offset(Utf8, after, i) == r.start;
    assert Offset(Utf8, after, i + |text|) == r.start + Size(Utf8, text);
  }

  lemma EditRangeOnBoundaries(st: TextState, range16: Option<Range>)
    requires Inv(st)
    ensures var r := EditRange(st, range16); IsBoundary(Utf8, st.content, r.start) && IsBoundary(Utf8, st.content, r.end)
  {
    if range16.Some? {
      ConvertLandsOnBoundary(Utf16, Utf8, st.content, range16.value.start);
      ConvertLandsOnBoundary(Utf16, Utf8, st.content, range16.value.end);
    }
  }

  lemma ReplaceKeepsInv(st: TextState, range16: Option<Range>, text: string)
    requires Inv(st)
    ensures Inv(Replace(st, range16, text))
  {
    EditRangeOnBoundaries(st, range16);
    SpliceBoundaries(st.content, EditRange(st, range16), text);
  }

  lemma MarkKeepsInv(st: TextState, range16: Option<Range>, text: string)
    requires Inv(st)
    ensures Inv(ReplaceAndMark(st, range16, text, None))
  {
    EditRangeOnBoundaries(st, range16);
    SpliceBoundaries(st.content, EditRange(st, range16), text);
  }

  lemma MovementKeepsInv(g: Segmentation, st: TextState)
    requires SegmentationOk(g) && Inv(st)
    ensures Inv(DoLeft(g, st)) && Inv(DoRight(g, st)) && Inv(MoveTo(st, 0)) && Inv(MoveTo(st, Size(Utf8, st.content)))
  {
    EndsAreBoundaries(st.content);
    PreviousIsBoundary(g, st, CursorOffset(st));
    NextIsBoundary(g, st, st.selected.end);
  }

  lemma SelectionKeepsInv(g: Segmentation, st: TextState)
    requires SegmentationOk(g) && Inv(st)
    ensures Inv(DoSelectLeft(g, st)) && Inv(DoSelectRight(g, st)) && Inv(DoSelectAll(st))
  {
    EndsAreBoundaries(st.content);
    PreviousIsBoundary(g, st, CursorOffset(st));
    NextIsBoundary(g, st, CursorOffset(st));
    SelectToKeepsInv(st, PreviousBoundary(g, st, CursorOffset(st)));
    SelectToKeepsInv(st, NextBoundary(g, st, CursorOffset(st)));
    SelectToKeepsInv(MoveTo(st, 0), Size(Utf8, st.content));
  }

  lemma DeletionKeepsInv(g: Segmentation, st: TextState)
    requires SegmentationOk(g) && Inv(st)
    ensures Inv(DoBackspace(g, st)) && Inv(DoDelete(g, st)) && Inv(DoCut(st))
  {
    SelectionKeepsInv(g, st);
    ReplaceKeepsInv(if st.selected.IsEmpty() then DoSelectLeft(g, st) else st, None, "");
    ReplaceKeepsInv(if st.selected.IsEmpty() then DoSelectRight(g, st) else st, None, "");
    ReplaceKeepsInv(st, None, "");
  }

  lemma MouseKeepsInv(st: TextState, index: nat)
    requires Inv(st) && IsBoundary(Utf8, st.content, index)
    ensures Inv(DoMouseDown(st, true, index)) && Inv(DoMouseDown(st, false, index)) && Inv(SelectTo(st, index))
  {
    SelectToKeepsInv(st, index);
    SelectToKeepsInv(st.(selecting := true), index);
  }

  /** Every command keeps the selection and the marked text on ordered character boundaries. */
  lemma StepKeepsInv(g: Segmentation, st: TextState, c: Command)
    requires SegmentationOk(g) && Inv(st) && Legal(st, c)
    ensures Inv(Step(g, st, c))
  {
    if c.MouseDown? || c.MouseMove? {
      MouseKeepsInv(st, c.index);
    } else if c.Backspace? || c.Delete? || c.Cut? {
      DeletionKeepsInv(g, st);
    } else if c.Paste? {
      if c.clipboard.Some? {
        ReplaceKeepsInv(st, None, NewlinesToSpaces(c.clipboard.value));
      }
    } else if c.ReplaceText? {
      ReplaceKeepsInv(st, c.range16, c.text);
    } else if c.MarkText? {
      MarkKeepsInv(st, c.range16, c.text);
    } else if c.Reset? {
      EndsAreBoundaries("");
    } else if c.SelectLeft? || c.SelectRight? || c.SelectAll? {
      SelectionKeepsInv(g, st);
    } else if c.Left? || c.Right? || c.Home? || c.End? {
      MovementKeepsInv(g, st);
    }
  }

  ghost predicate StepsTo(g: Segmentation, st: TextState, c: Command, st': TextState) {
    Legal(st, c) && st' == Step(g, st, c)
  }

  /** A run, as the states passed; mouse positions are character boundaries of the text at that moment. */
  ghost predicate IsRun(g: Segmentation, states: seq<TextState>, commands: seq<Command>) {
    && |states| == |commands| + 1
    && Inv(states[0])
    && forall k :: 0 <= k < |commands| ==> StepsTo(g, states[k], commands[k], states[k + 1])
  }

  lemma {:induction false} RunKeepsInv(g: Segmentation, states: seq<TextState>, commands: seq<Command>, k: nat)
    requires SegmentationOk(g) && IsRun(g, states, commands) && k <= |commands|
    ensures Inv(states[k])
  {
    if k > 0 {
      RunKeepsInv(g, states, commands, k - 1);
      assert StepsTo(g, states[k - 1], commands[k - 1], states[k]);
      StepKeepsInv(g, states[k - 1], commands[k - 1]);
    }
  }

  // ---------------------------------------------------------------- text runs

  /** A stretch of text painted in one style. */
  datatype TextRun = TextRun(len: int, underlined: bool)

  function Shown(st: TextState, placeholder: string): string {
    if st.content == "" then placeholder else st.content
  }

  /** The text runs of `prepaint`, with the marked text underlined and empty runs dropped. */
  function TextRuns(st: TextState, placeholder: string): seq<TextRun> {
    var size := Size(Utf8, Shown(st, placeholder));
    match st.marked
    case None => [TextRun(size, false)]
    case Some(m) =>
      Positive([TextRun(m.start, false), TextRun(m.end - m.start, true), TextRun(size - m.end, false)])
  }

  function Positive(runs: seq<TextRun>): seq<TextRun> {
    if runs == [] then []
    else (if runs[0].len > 0 then [runs[0]] else []) + Positive(runs[1..])
  }

  function TotalLength(runs: seq<TextRun>): int {
    if runs == [] then 0 else runs[0].len + TotalLength(runs[1..])
  }

  /** Byte `p` of the text lies in an underlined run. */
  predicate UnderlinedAt(runs: seq<TextRun>, p: nat) {
    if runs == [] then false
    else if p < runs[0].len then runs[0].underlined
    else p >= runs[0].len >= 0 && UnderlinedAt(runs[1..], p - runs[0].len)
  }

  /** Dropping runs of length zero changes neither the total nor any byte's style. */
  lemma {:induction false} PositiveKeepsStyle(runs: seq<TextRun>, p: nat)
    requires forall i :: 0 <= i < |runs| ==> runs[i].len >= 0
    ensures TotalLength(Positive(runs)) == TotalLength(runs)
    ensures UnderlinedAt(Positive(runs), p) <==> UnderlinedAt(runs, p)
    ensures forall i :: 0 <= i < |Positive(runs)| ==> Positive(runs)[i].len > 0
  {
    if runs != [] {
      var run, others := runs[0], runs[1..];
      var rest := Positive(others);
      PositiveKeepsStyle(others, if p >= run.len then p - run.len else 0);
      assert runs == [run] + others;
      FirstRun(run, others, p);
      if run.len > 0 {
        FirstRun(run, rest, p);
      } else {
        assert [] + rest == rest;
      }
    }
  }

  /** No subtraction underflows, the runs cover the shown text exactly, and the marked bytes are those underlined. */
  lemma RunsCoverText(st: TextState, placeholder: string)
    requires Inv(st)
    ensures st.marked.Some? ==>
              && st.content != ""
              && st.marked.value.start <= st.marked.value.end <= Size(Utf8, st.content)
    ensures TotalLength(TextRuns(st, placeholder)) == Size(Utf8, Shown(st, placeholder))
    ensures forall p: nat :: UnderlinedAt(TextRuns(st, placeholder), p) <==>
                        st.marked.Some? && st.marked.value.start <= p < st.marked.value.end
    ensures st.marked.Some? ==> forall i :: 0 <= i < |TextRuns(st, placeholder)| ==> TextRuns(st, placeholder)[i].len > 0
  {
    var size := Size(Utf8, Shown(st, placeholder));
    if st.marked.Some? {
      var m := st.marked.value;
      MarkedInside(st.content, m);
      forall p: nat
        ensures UnderlinedAt(TextRuns(st, placeholder), p) <==> m.start <= p < m.end
      {
        ThreeRuns(m.start, m.end, size, p);
      }
      ThreeRuns(m.start, m.end, size, 0);
    } else {
      OneRun(size);
    }
  }

  lemma OneRun(size: nat)
    ensures TotalLength([TextRun(size, false)]) == size
    ensures forall p: nat :: !UnderlinedAt([TextRun(size, false)], p)
  {
    assert [TextRun(size, false)][1..] == [];
  }

  lemma MarkedInside(content: string, m: Range)
    requires LegalSlice(content, m) && m.start < m.end
    ensures content != "" && m.end <= Size(Utf8, content)
  {
    BoundaryIndex(Utf8, content, m.end);
  }

  lemma FirstRun(run: TextRun, rest: seq<TextRun>, p: nat)
    requires run.len >= 0
    ensures TotalLength([run] + rest) == run.len + TotalLength(rest)
    ensures UnderlinedAt([run] + rest, p) <==> if p < run.len then run.underlined else UnderlinedAt(rest, p - run.len)
  {
    assert ([run] + rest)[1..] == rest;
  }

  lemma ThreeRuns(start: nat, end: nat, size: nat, p: nat)
    requires start <= end <= size
    ensures var runs := Positive([TextRun(start, false), TextRun(end - start, true), TextRun(size - end, false)]);
      && TotalLength(runs) == size
      && (UnderlinedAt(runs, p) <==> start <= p < end)
      && forall i :: 0 <= i < |runs| ==> runs[i].len > 0
  {
    var a, b, c := TextRun(start, false), TextRun(end - start, true), TextRun(size - end, false);
    TotalOfThree(a, b, c, p);
    PositiveKeepsStyle([a, b, c], p);
  }

  lemma TotalOfThree(a: TextRun, b: TextRun, c: TextRun, p: nat)
    requires a.len >= 0 && b.len >= 0 && c.len >= 0
    ensures TotalLength([a, b, c]) == a.len + b.len + c.len
    ensures UnderlinedAt([a, b, c], p)
            <==> if p < a.len then a.underlined else if p < a.len + b.len then b.underlined
                 else c.underlined && p < a.len + b.len + c.len
  {
    assert [a, b, c] == [a] + ([b] + ([c] + []));
    FirstRun(a, [b] + ([c] + []), p);
    FirstRun(b, [c] + [], if p >= a.len then p - a.len else 0);
    FirstRun(c, [], if p >= a.len + b.len then p - a.len - b.len else 0);
  }

  // ---------------------------------------------------------------- selecting

  function SelectAlong(st: TextState, offsets: seq<nat>): TextState {
    if offsets == [] then st else SelectTo(SelectAlong(st, offsets[..|offsets| - 1]), offsets[|offsets| - 1])
  }

  /** The selection runs between the anchor and the cursor, whichever comes first. */
  ghost predicate SelectedFrom(st: TextState, anchor: nat, cursor: nat) {
    && CursorOffset(st) == cursor && Anchor(st) == anchor
    && st.selected == if anchor <= cursor then Range(anchor, cursor) else Range(cursor, anchor)
  }

  /** However a drag wanders after `MoveTo(a)`, it selects exactly what lies between `a` and where it ends. */
  lemma {:induction false} DragSelectsFromAnchor(st: TextState, a: nat, offsets: seq<nat>)
    ensures SelectedFrom(SelectAlong(MoveTo(st, a), offsets), a, if offsets == [] then a else offsets[|offsets| - 1])
  {
    if offsets != [] {
      DragSelectsFromAnchor(st, a, offsets[..|offsets| - 1]);
    }
  }

  /** Select-all selects the whole text with the cursor at its end, even when a stale reversed flag is set. */
  lemma SelectAllSelectsEverything(st: TextState)
    ensures SelectedFrom(DoSelectAll(st), 0, Size(Utf8, st.content))
  {
    var steps := [Size(Utf8, st.content)];
    assert steps[..0] == [];
    DragSelectsFromAnchor(st, 0, steps);
  }

  // ---------------------------------------------------------------- editing laws

  lemma PreviousIsGreatest(g: Segmentation, st: TextState, c: nat)
    requires SegmentationOk(g)
    ensures var p := PreviousBoundary(g, st, c);
      p <= c && (c > 0 ==> p < c) && forall b :: b in g(st.content) && b < c ==> b <= p
  {
    assert Segments(g, st.content);
    LastBelowIsGreatest(g(st.content), c);
  }

  lemma NextIsLeast(g: Segmentation, st: TextState, c: nat)
    requires SegmentationOk(g) && IsBoundary(Utf8, st.content, c)
    ensures var n := NextBoundary(g, st, c);
      c <= n && (c < Size(Utf8, st.content) ==> c < n) && forall b :: b in g(st.content) && b > c ==> n <= b
  {
    assert Segments(g, st.content);
    FirstAboveIsLeast(g(st.content), c, Size(Utf8, st.content));
    BoundaryIndex(Utf8, st.content, c);
  }

  /** Extending an empty selection selects what lies between the cursor and the new offset. */
  lemma SelectFromCursor(st: TextState, offset: nat)
    requires st.selected.start == st.selected.end
    ensures SelectedFrom(SelectTo(st, offset), st.selected.start, offset)
  {
  }

  /** Moving right from a grapheme start and back left returns to it. */
  lemma LeftUndoesRight(g: Segmentation, st: TextState, right: TextState)
    requires SegmentationOk(g) && Inv(st) && st.selected.IsEmpty()
    requires st.selected.start in g(st.content) && st.selected.start < Size(Utf8, st.content)
    requires right == DoRight(g, st)
    ensures right.selected.IsEmpty() && right.selected.start > st.selected.start
    ensures DoLeft(g, right).selected == st.selected
  {
    var c := st.selected.end;
    NextIsLeast(g, st, c);
    assert CursorOffset(right) == NextBoundary(g, st, c);
    PreviousIsGreatest(g, right, CursorOffset(right));
    PreviousIsStart(g, right, CursorOffset(right));
  }

  lemma PreviousIsStart(g: Segmentation, st: TextState, c: nat)
    requires SegmentationOk(g)
    ensures PreviousBoundary(g, st, c) in g(st.content) || PreviousBoundary(g, st, c) == 0
  {
    assert Segments(g, st.content);
    LastBelowIsGreatest(g(st.content), c);
  }

  /** `range` has been taken out of the text of `st`, leaving the cursor there and nothing marked. */
  ghost predicate Removed(st: TextState, range: Range, after: TextState) {
    && after.content == Splice(st.content, range, "")
    && after.selected == Range(range.start, range.start)
    && after.marked.None?
  }

  /**
   Backspace removes the marked text if there is any, else the selection, else exactly the text from the
   last grapheme start before the cursor.
   */
  lemma BackspaceRemoves(g: Segmentation, st: TextState, p: nat)
    requires SegmentationOk(g) && Inv(st) && p == PreviousBoundary(g, st, CursorOffset(st))
    ensures var c := CursorOffset(st);
      && p <= c && (c > 0 ==> p < c)
      && (forall b :: b in g(st.content) && b < c ==> b <= p)
      && Removed(st, if st.marked.Some? then st.marked.value
                     else if !st.selected.IsEmpty() then st.selected else Range(p, c), DoBackspace(g, st))
  {
    PreviousIsGreatest(g, st, CursorOffset(st));
    if st.selected.IsEmpty() {
      SelectFromCursor(st, p);
    }
  }

  /** Delete likewise, with the text from the cursor up to the next grapheme start, or to the end. */
  lemma DeleteRemoves(g: Segmentation, st: TextState, n: nat)
    requires SegmentationOk(g) && Inv(st) && n == NextBoundary(g, st, CursorOffset(st))
    ensures var c := CursorOffset(st);
      && c <= n && (c < Size(Utf8, st.content) ==> c < n)
      && (forall b :: b in g(st.content) && b > c ==> n <= b)
      && Removed(st, if st.marked.Some? then st.marked.value
                     else if !st.selected.IsEmpty() then st.selected else Range(c, n), DoDelete(g, st))
  {
    NextIsLeast(g, st, CursorOffset(st));
    if st.selected.IsEmpty() {
      SelectFromCursor(st, n);
    }
  }

  /** What a splice does to a text known in three parts. */
  lemma SpliceOfParts(content: string, r: Range, before: string, middle: string, rest: string, text: string)
    requires content == before + middle + rest
    requires r == Range(Size(Utf8, before), Size(Utf8, before) + Size(Utf8, middle))
    ensures Splice(content, r, text) == before + text + rest
    ensures Slice(content, r) == middle
  {
    IndexOfParts(content, before, middle, rest);
    var i, j := |before|, |before| + |middle|;
    assert content[..i] == before && content[i..j] == middle && content[j..] == rest;
  }

  lemma IndexOfParts(content: string, before: string, middle: string, rest: string)
    requires content == before + middle + rest
    ensures Index(Utf8, content, Size(Utf8, before)) == |before|
    ensures Index(Utf8, content, Size(Utf8, before) + Size(Utf8, middle)) == |before| + |middle|
  {
    SizeConcat(Utf8, before, middle);
    IndexOfPrefix(Utf8, content, before);
    IndexOfPrefix(Utf8, content, before + middle);
  }

  /** A legal range divides the text in three. */
  lemma Parts(content: string, r: Range) returns (before: string, middle: string, rest: string)
    requires LegalSlice(content, r)
    ensures content == before + middle + rest
    ensures r == Range(Size(Utf8, before), Size(Utf8, before) + Size(Utf8, middle))
  {
    var i, j := Index(Utf8, content, r.start), Index(Utf8, content, r.end);
    BoundaryIndex(Utf8, content, r.start);
    BoundaryIndex(Utf8, content, r.end);
    if j < i {
      OffsetIncreases(Utf8, content, j, i);
    }
    before, middle, rest := content[..i], content[i..j], content[j..];
    PartsAt(content, i, j);
  }

  lemma PartsAt(content: string, i: nat, j: nat)
    requires i <= j <= |content|
    ensures content == content[..i] + content[i..j] + content[j..]
    ensures Offset(Utf8, content, i) == Size(Utf8, content[..i])
    ensures Offset(Utf8, content, j) == Size(Utf8, content[..i]) + Size(Utf8, content[i..j])
  {
    assert content[..j] == content[..i] + content[i..j];
    SizeConcat(Utf8, content[..i], content[i..j]);
  }

  lemma SplicedParts(content: string, r: Range, text: string) returns (before: string, middle: string, rest: string)
    requires LegalSlice(content, r)
    ensures content == before + middle + rest && middle == Slice(content, r)
    ensures Splice(content, r, text) == before + text + rest && r.start == Size(Utf8, before)
  {
    before, middle, rest := Parts(content, r);
    SpliceOfParts(content, r, before, middle, rest, text);
  }

  lemma UndoParts(content: string, r: Range, after: string, before: string, middle: string, rest: string, text: string,
                  removed: string)
    requires content == before + middle + rest && removed == middle
    requires after == before + text + rest && r.start == Size(Utf8, before)
    ensures Splice(after, Range(r.start, r.start + Size(Utf8, text)), removed) == content
  {
    SpliceOfParts(after, Range(r.start, r.start + Size(Utf8, text)), before, text, rest, removed);
  }

  /** Replacing a boundary range and then replacing the inserted text by what was there restores the text. */
  lemma SpliceUndo(content: string, r: Range, text: string, after: string, removed: string)
    requires LegalSlice(content, r)
    requires after == Splice(content, r, text) && removed == Slice(content, r)
    ensures Splice(after, Range(r.start, r.start + Size(Utf8, text)), removed) == content
  {
    var before, middle, rest := SplicedParts(content, r, text);
    UndoParts(content, r, after, before, middle, rest, text, removed);
  }

  lemma CutParts(before: string, cut: string, rest: string, pasted: string, content: string, after: string, r: Range)
    requires content == before + cut + rest && after == before + rest
    requires r == Range(Size(Utf8, before), Size(Utf8, before) + Size(Utf8, cut))
    ensures Splice(content, r, "") == after
    ensures Splice(after, Range(r.start, r.start), pasted) == before + pasted + rest
  {
    assert before + "" + rest == after;
    SpliceOfParts(content, r, before, cut, rest, "");
    SpliceOfParts(after, Range(r.start, r.start), before, "", rest, pasted);
  }

  lemma CutPasteText(content: string, r: Range, after: string, pasted: string)
    requires LegalSlice(content, r) && after == Splice(content, r, "")
    ensures Splice(after, Range(r.start, r.start), pasted) == content <==> pasted == Slice(content, r)
  {
    var before, middle, rest := Parts(content, r);
    SpliceOfParts(content, r, before, middle, rest, "");
    CutParts(before, middle, rest, pasted, content, before + rest, r);
    MiddleDecides(before, middle, pasted, rest);
  }

  /**
   Cutting and pasting back restores the text exactly when what is pasted, the selected text with newlines
   made spaces, is what the cut removed, which is the marked text if there is any.
   */
  lemma CutThenPaste(st: TextState, cut: string)
    requires Inv(st) && !st.selected.IsEmpty() && cut == Slice(st.content, st.selected)
    ensures DoPaste(DoCut(st), Some(cut)).content == st.content
            <==> NewlinesToSpaces(cut) == Slice(st.content, EditRange(st, None))
  {
    var range := EditRange(st, None);
    var afterCut := DoCut(st);
    assert afterCut.content == Splice(st.content, range, "") && EditRange(afterCut, None) == Range(range.start, range.start);
    CutPasteText(st.content, range, afterCut.content, NewlinesToSpaces(cut));
  }

  /** With nothing marked that means the cut text holds no newline. */
  lemma CutThenPasteUnmarked(st: TextState, cut: string)
    requires Inv(st) && st.marked.None? && !st.selected.IsEmpty() && cut == Slice(st.content, st.selected)
    ensures DoPaste(DoCut(st), Some(cut)).content == st.content <==> '\n' !in cut
  {
    CutThenPaste(st, cut);
    PastedIsCut(cut);
  }

  lemma ReplaceParts(st: TextState, before: string, middle: string, rest: string, text: string)
    requires st.content == before + middle + rest
    requires EditRange(st, None) == Range(Size(Utf8, before), Size(Utf8, before) + Size(Utf8, middle))
    ensures Replace(st, None, text).content == before + text + rest
    ensures ReplaceAndMark(st, None, text, None).content == before + text + rest
  {
    SpliceOfParts(st.content, EditRange(st, None), before, middle, rest, text);
  }

  /** With `marked` marked and a text after it selected, cut and paste puts the selected text in its place. */
  lemma CutThenPasteMarked(st: TextState, marked: string, selected: string)
    requires marked != "" && selected != "" && '\n' !in selected && st.content == "" + marked + selected
    requires st.marked == Some(Range(0, Size(Utf8, marked)))
    requires st.selected == Range(Size(Utf8, marked), Size(Utf8, marked) + Size(Utf8, selected))
    ensures Inv(st) && Slice(st.content, st.selected) == selected
    ensures DoPaste(DoCut(st), Some(selected)).content == selected + selected
    ensures DoPaste(DoCut(st), Some(selected)).content == st.content <==> marked == selected
  {
    MarkedAndSelected(st, marked, selected);
    PastedIsCut(selected);
    MarkedThenPasted(st, DoCut(st), marked, selected);
    MiddleDecides("", marked, selected, selected);
    assert "" + selected + selected == selected + selected;
  }

  lemma MarkedThenPasted(st: TextState, afterCut: TextState, marked: string, selected: string)
    requires st.content == "" + marked + selected && st.marked == Some(Range(0, Size(Utf8, marked)))
    requires afterCut == Replace(st, None, "")
    ensures Replace(afterCut, None, selected).content == "" + selected + selected
  {
    ReplaceParts(st, "", marked, selected, "");
    assert afterCut.content == "" + "" + selected;
    ReplaceParts(afterCut, "", "", selected, selected);
  }

  lemma MarkedAndSelected(st: TextState, marked: string, selected: string)
    requires marked != "" && st.content == "" + marked + selected
    requires st.marked == Some(Range(0, Size(Utf8, marked)))
    requires st.selected == Range(Size(Utf8, marked), Size(Utf8, marked) + Size(Utf8, selected))
    ensures Inv(st) && Slice(st.content, st.selected) == selected
  {
    assert "" + marked == marked;
    TwoParts(st.content, marked, selected);
  }

  lemma TwoParts(content: string, first: string, second: string)
    requires content == first + second
    ensures IsBoundary(Utf8, content, 0) && IsBoundary(Utf8, content, Size(Utf8, first))
    ensures IsBoundary(Utf8, content, Size(Utf8, first) + Size(Utf8, second))
    ensures Slice(content, Range(Size(Utf8, first), Size(Utf8, first) + Size(Utf8, second))) == second
  {
    SizeConcat(Utf8, first, second);
    EndsAreBoundaries(content);
    assert content[..|first|] == first;
    assert Offset(Utf8, content, |first|) == Size(Utf8, first);
    SliceOfParts(content, first, second, "");
  }

  lemma SliceOfParts(content: string, before: string, middle: string, rest: string)
    requires content == before + middle && rest == ""
    ensures Slice(content, Range(Size(Utf8, before), Size(Utf8, before) + Size(Utf8, middle))) == middle
  {
    assert content == before + middle + rest;
    SpliceOfParts(content, Range(Size(Utf8, before), Size(Utf8, before) + Size(Utf8, middle)), before, middle, rest, "");
  }

  predicate FromKeyboard(c: Command) {
    !c.MouseDown? && !c.MouseMove?
  }

  /** Four commands in a row, as a run and one by one. */
  lemma FourSteps(g: Segmentation, states: seq<TextState>, commands: seq<Command>,
                  c0: Command, c1: Command, c2: Command, c3: Command)
    requires |states| == 5 && Inv(states[0]) && commands == [c0, c1, c2, c3]
    requires FromKeyboard(c0) && FromKeyboard(c1) && FromKeyboard(c2) && FromKeyboard(c3)
    requires forall k :: 0 <= k < |commands| ==> states[k + 1] == Step(g, states[k], commands[k])
    ensures IsRun(g, states, commands)
    ensures states[1] == Step(g, states[0], c0) && states[2] == Step(g, states[1], c1)
    ensures states[3] == Step(g, states[2], c2) && states[4] == Step(g, states[3], c3)
  {
    assert commands[0] == c0 && commands[1] == c1 && commands[2] == c2 && commands[3] == c3;
    forall k | 0 <= k < |commands|
      ensures StepsTo(g, states[k], commands[k], states[k + 1])
    {
      assert FromKeyboard(commands[k]);
    }
  }

  lemma InitialInv()
    ensures Inv(Initial())
  {
    EndsAreBoundaries("");
  }

  /** Typing "b", marking "a" before it and selecting the "b" leads to such a state, whatever the segmentation. */
  lemma CutMarkedIsReached(g: Segmentation, states: seq<TextState>, commands: seq<Command>)
    requires SegmentationOk(g)
    requires commands == [ReplaceText(None, "b"), Home, MarkText(None, "a"), SelectRight]
    requires |states| == 5 && states[0] == Initial()
    requires forall k :: 0 <= k < |commands| ==> states[k + 1] == Step(g, states[k], commands[k])
    ensures IsRun(g, states, commands)
    ensures states[4] == TextState("ab", Range(1, 2), false, Some(Range(0, 1)), false)
  {
    InitialInv();
    FourSteps(g, states, commands, ReplaceText(None, "b"), Home, MarkText(None, "a"), SelectRight);
    TypedMarkedSelected(g, states[0], states[1], states[2], states[3], states[4]);
  }

  lemma TypedMarkedSelected(g: Segmentation, s0: TextState, s1: TextState, s2: TextState, s3: TextState, s4: TextState)
    requires SegmentationOk(g) && s0 == Initial()
    requires s1 == Step(g, s0, ReplaceText(None, "b")) && s2 == Step(g, s1, Home)
    requires s3 == Step(g, s2, MarkText(None, "a")) && s4 == Step(g, s3, SelectRight)
    ensures s4 == TextState("ab", Range(1, 2), false, Some(Range(0, 1)), false)
  {
    TypedAndMarked(s0, "b", "a", s1, s2, s3);
    assert "a" + "b" == "ab";
    SelectedRight(g, s3, s4);
  }

  /** There cut and paste loses the "a". */
  lemma CutMarkedLosesText(st: TextState)
    requires st == TextState("ab", Range(1, 2), false, Some(Range(0, 1)), false)
    ensures Slice(st.content, st.selected) == "b" && DoPaste(DoCut(st), Some("b")).content == "bb"
  {
    OneByte("a");
    OneByte("b");
    assert "" + "a" + "b" == "ab" && "b" + "b" == "bb";
    CutThenPasteMarked(st, "a", "b");
  }

  lemma OneByte(s: string)
    requires |s| == 1 && s[0] as int < 0x80
    ensures Size(Utf8, s) == 1
  {
    assert s[..0] == "";
  }

  /** Typing `typed`, going home and marking `marked` there. */
  lemma TypedAndMarked(s0: TextState, typed: string, marked: string, s1: TextState, s2: TextState, s3: TextState)
    requires s0 == Initial() && |typed| == 1 && |marked| == 1 && typed[0] as int < 0x80 && marked[0] as int < 0x80
    requires s1 == Replace(s0, None, typed) && s2 == MoveTo(s1, 0) && s3 == ReplaceAndMark(s2, None, marked, None)
    ensures s3 == TextState(marked + typed, Range(1, 1), false, Some(Range(0, 1)), false)
  {
    OneByte(typed);
    OneByte(marked);
    ReplaceParts(s0, "", "", "", typed);
    assert "" + typed + "" == typed == "" + "" + typed;
    ReplaceParts(s2, "", "", typed, marked);
    assert "" + marked + typed == marked + typed;
  }

  lemma SelectedRight(g: Segmentation, st: TextState, after: TextState)
    requires SegmentationOk(g) && after == DoSelectRight(g, st)
    requires st == TextState("ab", Range(1, 1), false, Some(Range(0, 1)), false)
    ensures after == st.(selected := Range(1, 2))
  {
    var s, next := "ab", NextBoundary(g, st, 1);
    OneByte("a");
    assert s[..1] == "a" && Offset(Utf8, s, 1) == 1;
    OffsetStep(Utf8, s, 1);
    OffsetOfEnd(Utf8, s);
    NextIsLeast(g, st, 1);
    NextIsBoundary(g, st, 1);
    BoundaryIndex(Utf8, s, next);
  }

  lemma PastedIsCut(cut: string)
    ensures NewlinesToSpaces(cut) == cut <==> '\n' !in cut
  {
    if '\n' in cut {
      var k :| 0 <= k < |cut| && cut[k] == '\n';
      assert NewlinesToSpaces(cut)[k] == ' ';
    }
  }

  lemma MiddleDecides(before: string, middle: string, other: string, rest: string)
    ensures before + other + rest == before + middle + rest <==> other == middle
  {
    var whole, i := before + other + rest, |before|;
    assert whole[i..i + |other|] == other;
    assert (before + middle + rest)[i..i + |middle|] == middle;
    assert |whole| == |before| + |other| + |rest|;
  }

  // ---------------------------------------------------------------- offsets across the system boundary

  /** An ordered UTF-16 range always names a legal slice. */
  lemma OrderedUtf16RangeIsLegal(st: TextState, r: Range)
    requires r.start <= r.end
    ensures LegalSlice(st.content, FromUtf16(st, r))
  {
    ConvertLandsOnBoundary(Utf16, Utf8, st.content, r.start);
    ConvertLandsOnBoundary(Utf16, Utf8, st.content, r.end);
    ConvertIsMonotone(Utf16, Utf8, st.content, r.start, r.end);
  }

  /** The selection reported to the system in UTF-16 comes back as the selection. */
  lemma SelectionSurvivesUtf16(st: TextState)
    requires Inv(st)
    ensures FromUtf16(st, ToUtf16(st, st.selected)) == st.selected
    ensures st.marked.Some? ==> FromUtf16(st, ToUtf16(st, st.marked.value)) == st.marked.value
  {
    ConvertRoundTrip(Utf8, Utf16, st.content, st.selected.start);
    ConvertRoundTrip(Utf8, Utf16, st.content, st.selected.end);
    if st.marked.Some? {
      ConvertRoundTrip(Utf8, Utf16, st.content, st.marked.value.start);
      ConvertRoundTrip(Utf8, Utf16, st.content, st.marked.value.end);
    }
  }
}
