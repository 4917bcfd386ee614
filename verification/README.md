# GPUI cores: models and proofs

This project models seven stateful or arithmetic cores of GPUI and its examples in Dafny and proves what
each of them promises. `dafny verify dfyconfig.toml` checks all of it.

- **Paint order** (`crates/gpui/src/bounds_tree.rs`, `crates/gpui/src/geometry.rs`). `Geometry` holds the
  rectangles, over real arithmetic, with any sizes, negative ones included. `PaintOrder` is the promise, stated on the list of
  inserted bounds alone: a naive scan, and what the orders it gives mean. `TreeShape` has the flat node vector and its
  invariants, `TreeSteps` what one insert does to them, `TreeSearch` why the pruned search misses nothing,
  and `BoundsTrees` the mutable tree. The branching factor is a parameter that defaults to the source's 12;
  every proof holds from 2 on. Child indices are not ordered against parent indices, so the links carry
  ghost parents and bounded depths, which give termination.
- **Arena** (`crates/gpui/src/arena.rs`). `ArenaSpec` is the chunked bump allocator as a value: chunks at
  arbitrary disjoint addresses, any positive alignment. `ArenaRuns` adds memory, boxes, generations and
  destructors and proves facts about whole runs, including runs in which an allocation panics and is
  caught. `Arenas` is the mutable arena with its shared validity cells, proved against both, and `ArenaPrograms` a
  program that uses it, whose every call is a step of such a run. The address of
  a new chunk is a parameter, required to be a fresh region as the system allocator promises.
- **Colour** (`crates/gpui/src/color.rs`). `Color` has the conversions and blending in exact arithmetic,
  `HexColor` the printer and the parser on Unicode text, down to byte lengths and character boundaries,
  `HexColorLaws` what digits, rounding and errors mean.
- **Text field** (`crates/gpui/examples/input.rs`). `Utf` has UTF-8 and UTF-16 offsets and the conversion loops,
  `UtfCodes` the encodings they count, `TextEditing` the commands and what every run keeps, `TextLaws` what sequences
  of commands do, `Marking` explicit selections, `TextInputs` the object.
  Grapheme starts are an unknown function that returns ordered character boundaries.
- **LRU cache** (`crates/gpui/examples/image_gallery.rs`). `LruCache`.
- **Hold to repeat** (`crates/counter_demo/src/main.rs`). `HoldRepeat` is the protocol under every
  interleaving of presses, releases and frames, with 64-bit generations that wrap; `CounterApps` the object
  and its window. A frame takes the queued callbacks and runs them, as `crates/gpui/src/window.rs:4196-4203` does. Times are parameters.
- **Networked counters** (`crates/gpui/examples/testing.rs`). `NetworkSpec` has every interleaving of two peers on
  one network, `Networks` the objects. Additions wrap at 32 bits, as in release builds. In debug builds they panic
  instead: `NetworkOverflow` says when no addition does either, and that all counts are then exact. `NetworkOrder` is
  about the order of messages.
- `Common` holds the few definitions the models share.

What the code does not keep, with the exact condition under which it does:

- HSL to RGB and back is not the identity on all in-range colours: `Color.HslRoundTrip`, `Color.FullTurnIsLost`.
- The parser accepts more than the schema's pattern, a plus sign in place of a high digit and whitespace around the
  colour: `HexColor.ParserAgainstSchema`, `HexColor.PlusSignsAreAccepted`, `HexColor.PaddedAbc`.
- A blend does not give the lower colour the weight its documentation states, its own alpha times what the upper
  leaves: `Color.BlendWeights`, `Color.DocumentedWeights`, `Color.LowerAlphaIsIgnored`.
- Marking text with an explicit selection can leave the selection outside the text, or on another part of it than the
  input method means: `Marking.ExplicitSelectionSafe`, `Marking.ExplicitSelectionAsRequested`,
  `Marking.UniformSelectionSafe`, `Marking.ExplicitSelectionOverruns`. Input methods send selections within the new
  text (`crates/gpui_windows/src/events.rs:674-689`); the first of these quantifies over all others too.
- After 2^64 presses and releases between two frames a stale callback acts again:
  `HoldRepeat.SafeExactlyBelowWrapAround`, `HoldRepeat.WrapAroundBreaks`.
- Cutting and pasting back changes newlines to spaces, and with text marked it removes the marked text but pastes the
  selected one: `TextEditing.CutThenPaste`, `TextEditing.CutMarkedLosesText`.
- Additions of the networked counters can overflow: `NetworkOverflow.NoOverflowExactlyWithin32`,
  `NetworkOverflow.TwoIncrementsOverflow`.
- An LRU cache of capacity 0 panics on its first load: `LruCache.SimpleLruCache.Load`.

Where code and documentation disagree the model follows the code: so with the blend weights of
`crates/gpui/src/color.rs:484-491`, above, and with the branching factor, which the comment at
`crates/gpui/src/bounds_tree.rs:18` gives as 4 where the constant is 12.

## Model

| member | source | states |
|---|---|---|
| Geometry.UnionIsLeastEnclosing | crates/gpui/src/geometry.rs:1124-1128 | the union encloses both boxes and lies in every box that does, for all sizes |
| Geometry.EnclosureKeepsIntersection | crates/gpui/src/geometry.rs:904-912 | a query that meets a box meets every box around it, so pruning on boxes is sound |
| Geometry.IntersectsIsOverlap | crates/gpui/src/geometry.rs:904-912 | non-empty boxes intersect exactly when they share an interior point; touching is not enough |
| Geometry.IntersectsUnlessApart | crates/gpui/src/geometry.rs:904-912 | boxes of any size, empty and negative ones included, intersect exactly when neither lies to one side of the other |
| Geometry.HalfPerimeterOfEdges | crates/gpui/src/geometry.rs:970-972 | half the perimeter is what the four sides say, grows with the box, and is larger for any box strictly around it |
| PaintOrder.MaxHitIsMaximum | crates/gpui/src/bounds_tree.rs:452-457 | the oracle's scan returns the largest order among intersecting bounds, or 0 when there are none |
| PaintOrder.LaterIntersectingIsAbove | crates/gpui/src/bounds_tree.rs:115-118 | of two intersecting bounds the later one has the strictly larger order |
| PaintOrder.OrderIsLongestChain | crates/gpui/src/bounds_tree.rs:115-135 | a bounds' order is the length of the longest chain of consecutively intersecting bounds ending at it |
| PaintOrder.OrdersAreLeast | crates/gpui/src/bounds_tree.rs:115-135 | the orders paint correctly and are pointwise least among all assignments that do |
| PaintOrder.OrderAtMostPosition | crates/gpui/src/bounds_tree.rs:119-122 | the k-th order lies between 1 and k+1, so 32 bits suffice for 2^32 - 1 inserts |
| PaintOrder.OrdersPrefix | crates/gpui/src/bounds_tree.rs:119-135 | later inserts never change earlier orders |
| TreeShape.RootReachesAll | crates/gpui/src/bounds_tree.rs:26-29 | every node of the vector hangs below the root |
| TreeShape.ReachedOnce | crates/gpui/src/bounds_tree.rs:58-61 | a node is a child of one internal node at one position; the root is nobody's child |
| TreeShape.AncestorIsHigher | crates/gpui/src/bounds_tree.rs:58-61 | a proper ancestor is strictly nearer the root, so there are no cycles |
| TreeShape.AncestorSummarises | crates/gpui/src/bounds_tree.rs:42-45 | an internal node's box encloses, and its maximum bounds, every node below it |
| TreeShape.MaximumAttained | crates/gpui/src/bounds_tree.rs:44-45 | a node's maximum is the order of a leaf below it, found by following last children |
| TreeShape.SideAttainedByLeaf | crates/gpui/src/bounds_tree.rs:42-43 | each side of a node's box is a side of a leaf below it: boxes are tight |
| TreeSearch.SearchIsComplete | crates/gpui/src/bounds_tree.rs:157-184 | when the stack runs empty no intersecting bounds has an order above the one found |
| TreeSearch.VisitStep | crates/gpui/src/bounds_tree.rs:157-184 | each iteration, whatever its branch, visits a node not visited before and keeps the frontier |
| TreeSteps.RaisedChildReadiesParent | crates/gpui/src/bounds_tree.rs:323-347 | after a child is raised, its parent needs only the upward pass to be exact again |
| TreeSteps.RaisedFits | crates/gpui/src/bounds_tree.rs:325-344 | the upward pass makes a node's box, maximum and last-child order exact |
| TreeSteps.SplittingKeepsLinks | crates/gpui/src/bounds_tree.rs:278-314 | replacing a leaf child by an internal node over it and the new leaf keeps one tree |
| TreeSteps.AttachingKeepsLinks | crates/gpui/src/bounds_tree.rs:260-276 | adding the new leaf to a node with room keeps one tree within the branching factor |
| TreeSteps.JoinedInOrder | crates/gpui/src/bounds_tree.rs:262-276 | a leaf goes behind all children as the new maximum, else just before the last, the others in order |
| TreeSteps.ReplacedInPlace | crates/gpui/src/bounds_tree.rs:300-314 | the pair takes the replaced child's place, or changes places with the last as the new maximum |
| TreeSteps.RaisedMovesOneChild | crates/gpui/src/bounds_tree.rs:330-344 | children move only when the maximum grows, and then only the one that grew it and the last |
| BoundsTrees.BoundsTree.constructor | crates/gpui/src/bounds_tree.rs:353-366 | an empty tree is valid for every branching factor from 2 |
| BoundsTrees.BoundsTree.Clear | crates/gpui/src/bounds_tree.rs:107-113 | clearing forgets all bounds and leaves a valid tree |
| BoundsTrees.BoundsTree.Insert | crates/gpui/src/bounds_tree.rs:119-135 | returns one more than the largest order of an earlier intersecting bounds, records the bounds, keeps every invariant and the maximal leaf |
| BoundsTrees.BoundsTree.FindMaxOrdering | crates/gpui/src/bounds_tree.rs:138-187 | the fast path and the search both return what the naive scan returns |
| BoundsTrees.BoundsTree.Search | crates/gpui/src/bounds_tree.rs:151-186 | the pruned stack search ends and returns what the naive scan returns |
| BoundsTrees.BoundsTree.InsertLeaf | crates/gpui/src/bounds_tree.rs:191-350 | the tree stays linked and exact, gains exactly the new leaf, and has at most 2n-1 nodes after n inserts |
| BoundsTrees.BoundsTree.SplitRoot | crates/gpui/src/bounds_tree.rs:206-228 | a lone leaf and the new one go under a new root, the larger order last |
| BoundsTrees.BoundsTree.Descend | crates/gpui/src/bounds_tree.rs:230-260 | the descent ends at a node whose cheapest child is a leaf, by first-cheapest children all the way |
| BoundsTrees.BoundsTree.JoinNode | crates/gpui/src/bounds_tree.rs:262-276 | with room, the leaf is added before the last child unless it is the new maximum |
| BoundsTrees.BoundsTree.SplitChild | crates/gpui/src/bounds_tree.rs:277-314 | in a full node the leaf child makes way for an internal node, moved last when it is the new maximum |
| BoundsTrees.BoundsTree.Propagate | crates/gpui/src/bounds_tree.rs:323-347 | the upward pass restores every summary and changes no leaf |
| BoundsTrees.CheapestChild | crates/gpui/src/bounds_tree.rs:242-256 | the chosen child is the first of least enlarged half-perimeter |
| BoundsTrees.InsertAll | crates/gpui/src/bounds_tree.rs:430-464 | a whole run of inserts returns exactly the specified orders |
| ArenaSpec.AlignUpIsLeastMultiple | crates/gpui/src/arena.rs:56 | the aligned offset is the least multiple of the alignment not below the offset |
| ArenaSpec.AllocKeepsWellFormed | crates/gpui/src/arena.rs:126-150 | an allocation, panicking or not, keeps chunks above the current one empty and every chunk in place |
| ArenaSpec.AllocReturnsFreeBlock | crates/gpui/src/arena.rs:55-65 | the block is aligned, inside its chunk and at or after the old offset |
| ArenaSpec.ChunkRefusesOnlyWhenFull | crates/gpui/src/arena.rs:55-65 | a chunk refuses a block exactly when no aligned place for it is free, and else gives the first there is |
| ArenaSpec.AllocIsNextFit | crates/gpui/src/arena.rs:126-150 | the current chunk is left only when the block has no room there; the panic comes only when it has none in the next either; capacity grows by one chunk only past the last |
| ArenaSpec.FullChunkFits | crates/gpui/src/arena.rs:243-259 | an aligned block exactly as large as the chunk fits a new arena |
| ArenaSpec.ClearEmpties | crates/gpui/src/arena.rs:102-110 | resetting only the chunks up to the current one empties the arena and keeps its capacity |
| ArenaSpec.ReplayAfterClear | crates/gpui/src/arena.rs:102-150 | replaying a generation's layouts returns the same addresses and panics and never grows the arena |
| ArenaSpec.ChunkCountBound | crates/gpui/src/arena.rs:126-150 | requests of footprint at most m never panic, and abandoned chunks times (size - m + 1) is at most the total footprint |
| ArenaRuns.StepKeepsInv | crates/gpui/src/arena.rs:102-162 | every operation keeps live blocks placed and separate, boxes faithful, destructors single |
| ArenaRuns.LiveBlocksAreSeparate | crates/gpui/src/arena.rs:55-65 | in every run every live allocation is aligned and inside one chunk, and any two are disjoint |
| ArenaRuns.WriteThenDeref | crates/gpui/src/arena.rs:198-204 | what is written through a valid box is read back through it, and no other box reads differently; through a dead box nothing happens but the panic |
| ArenaRuns.MapThenDeref | crates/gpui/src/arena.rs:170-177 | a mapped box reads its part of what the box read, and no other box reads differently |
| ArenaRuns.AllocThenDeref | crates/gpui/src/arena.rs:113-162 | the new box reads the value stored, and no box that was there reads differently |
| ArenaRuns.ClearThenDeref | crates/gpui/src/arena.rs:102-110 | after a clear no box can be read |
| ArenaRuns.DerefReturnsLastWritten | crates/gpui/src/arena.rs:188-204 | in every run a box that is still valid reads the bytes of the last write through it, and a dead one panics |
| ArenaRuns.DerefReturnsAllocated | crates/gpui/src/arena.rs:113-162 | a box never written or mapped reads the value it was allocated with as long as it is valid |
| ArenaRuns.OthersLeaveContents | crates/gpui/src/arena.rs:172-177 | only a write or map through a box changes what that box holds |
| ArenaRuns.ValidUntilCleared | crates/gpui/src/arena.rs:80-84 | a box, mapped or not, validates exactly until the first clear after its allocation |
| ArenaRuns.ValidExactlyUntilDestroyed | crates/gpui/src/arena.rs:102-110 | in every run a box validates exactly while the destructor of its value has not run |
| ArenaRuns.DestructorsRunOnce | crates/gpui/src/arena.rs:152-156 | destructors run in order of allocation and none runs twice |
| ArenaRuns.DropDestroysEverything | crates/gpui/src/arena.rs:80-84 | after the arena is dropped every stored value has been destroyed exactly once |
| Arenas.Chunk.Allocate | crates/gpui/src/arena.rs:55-65 | the mutable chunk allocates as the specification does, refusing exactly when no aligned place is free |
| Arenas.ArenaBox.Deref | crates/gpui/src/arena.rs:188-196 | reads the bytes while the shared cell holds true, panics otherwise |
| Arenas.ArenaBox.Write | crates/gpui/src/arena.rs:198-204 | writes exactly the value's bytes, which the box then reads, while the cell holds true |
| Arenas.ArenaBox.Map | crates/gpui/src/arena.rs:170-177 | the narrowed box shares the validity cell |
| Arenas.Arena.constructor | crates/gpui/src/arena.rs:87-96 | one empty chunk, a valid cell, the initial state of the runs |
| Arenas.Arena.Alloc | crates/gpui/src/arena.rs:113-162 | allocates, writes and registers as the specification does; the box carries the current cell; no panic while the current or the next chunk has room |
| Arenas.Arena.Clear | crates/gpui/src/arena.rs:102-110 | drops every value, empties the chunks, and only the new generation's cell holds true |
| Arenas.Arena.Drop | crates/gpui/src/arena.rs:80-84 | no box stays valid and every value has been destroyed exactly once |
| ArenaPrograms.Program.Write | crates/gpui/src/arena.rs:198-204 | a write through a box object is the step of the run, panic included |
| ArenaPrograms.Program.Map | crates/gpui/src/arena.rs:170-177 | so is a map |
| ArenaPrograms.Program.Alloc | crates/gpui/src/arena.rs:113-162 | so is an allocation by the arena object |
| ArenaPrograms.Program.Clear | crates/gpui/src/arena.rs:102-110 | so is a clear |
| ArenaPrograms.Program.Deref | crates/gpui/src/arena.rs:188-196 | a box object reads, or panics, as the run says |
| Color.RgbRoundTrip | crates/gpui/src/color.rs:132-160 | RGB to HSL and back is the identity for all components in [0,1] |
| Color.HueInvertsHexagon | crates/gpui/src/color.rs:608-616 | the computed hue is below a full turn and leads back to the colour it came from |
| Color.HslAfterRoundTrip | crates/gpui/src/color.rs:589-625 | the round trip of every in-range HSL colour, greys and full turns included |
| Color.HslRoundTrip | crates/gpui/src/color.rs:589-625 | HSL to RGB and back is the identity exactly for proper colours of hue below 1 and greys of hue 0 |
| Color.FullTurnIsLost | crates/gpui/src/color.rs:273-274 | red at hue 1 comes back at hue 0 |
| Color.ClampIsIdle | crates/gpui/src/color.rs:153-158 | the final clamp changes nothing for in-range HSL |
| Color.ClampIsNearest | crates/gpui/src/color.rs:153-158 | an out-of-range channel is drawn as the nearer end |
| Color.RemaindersOf | crates/gpui/src/color.rs:138-141 | both remainders differ from their argument by whole turns, one with its sign, one never negative |
| Color.HueJustBeyondTurn | crates/gpui/src/color.rs:144-151 | hues up to a sixth beyond a full turn are drawn as if the turn had not been made |
| Color.HueFarOutOfRange | crates/gpui/src/color.rs:144-151 | other hues out of range are not wrapped but drawn in the last sector |
| Color.RoundTripKeepsAppearance | crates/gpui/src/color.rs:132-160 | a round trip never changes how a colour is drawn |
| Color.HexagonCorners | crates/gpui/src/color.rs:589-625 | between any low and high channel value the six corner colours have hues 0 to 5 sixths, one saturation and one lightness; greys have neither hue nor saturation |
| Color.BlendsAgree | crates/gpui/src/color.rs:492-505 | blending in HSL draws as the blend of the converted colours, for all inputs |
| Color.BlendMovesByAlpha | crates/gpui/src/color.rs:58-71 | for every alpha each channel moves from the lower colour towards the upper by the alpha held in [0,1]; only an opaque upper colour brings its alpha |
| Color.HslBlendEnds | crates/gpui/src/color.rs:492-505 | opaque and transparent upper colours give one of the two unconverted |
| Color.BlendIsBetween | crates/gpui/src/color.rs:58-71 | each blended channel lies between the two inputs' |
| Color.BlendWeights | crates/gpui/src/color.rs:58-71 | a translucent blend has the documented contributions exactly when the lower colour is opaque or black; relative to their sum, opaque or equal to the upper |
| Color.DocumentedWeights | crates/gpui/src/color.rs:484-505 | the same for the documented HSL blend, as it is drawn |
| Color.LowerAlphaIsIgnored | crates/gpui/src/color.rs:58-71 | half-transparent black over half-transparent red keeps half the red; the documented weights give a quarter, or a third |
| HexColor.AcceptedStrings | crates/gpui/src/color.rs:165-266 | a string parses exactly when, trimmed, it is # and digits of an accepted form |
| HexColor.ParserAgainstSchema | crates/gpui/src/color.rs:103-108 | every string of the schema parses; of all strings, those that parse beyond it are exactly the accepted ones with whitespace around them or a plus sign in them |
| HexColor.PlusSignsAreAccepted | crates/gpui/src/color.rs:217-242 | a string with plus signs, outside the schema, that parses |
| HexColor.PaddedColoursAreAccepted | crates/gpui/src/color.rs:174 | every string of the schema with whitespace around it parses the same but is outside the schema |
| HexColor.PaddedAbc | crates/gpui/src/color.rs:174 | ` #abc` is such a string |
| HexColor.ParsePrinted | crates/gpui/src/color.rs:117-130 | parsing a printed colour recovers the printed bytes, for every colour |
| HexColor.PrintParseRoundTrip | crates/gpui/src/color.rs:117-130 | an in-range colour is read back within 1/510 per channel and prints the same again |
| HexColor.ByteColoursAreExact | crates/gpui/src/color.rs:117-130 | byte-valued colours survive printing and parsing exactly |
| HexColor.ShortFormWithAlpha | crates/gpui/src/color.rs:179-216 | #rgba parses as #rrggbbaa |
| HexColor.ShortFormWithoutAlpha | crates/gpui/src/color.rs:179-216 | #rgb parses as #rrggbb |
| HexColor.MissingAlphaIsOpaque | crates/gpui/src/color.rs:243-254 | #rrggbb parses as #rrggbbff, fully opaque |
| HexColor.PaddingIsIgnored | crates/gpui/src/color.rs:174 | whitespace around any text, valid or not, changes nothing |
| HexColor.CaseDoesNotMatter | crates/gpui/src/color.rs:179-256 | only the values of the digits count, in the short and long forms and in errors |
| HexColorLaws.LowerCaseMeansSame | crates/gpui/src/color.rs:217-242 | replacing A to F by a to f, by code point, in any hex digits changes nothing |
| HexColorLaws.UpperCaseParses | crates/gpui/src/color.rs:217-242 | any four bytes written in upper-case digits parse to those bytes |
| HexColorLaws.ToByteIsNearest | crates/gpui/src/color.rs:117-130 | every channel prints as the nearest byte, a tie as the larger, out of range as the nearer end |
| HexColorLaws.BadFormatExactly | crates/gpui/src/color.rs:174-178 | a string is reported as badly formed exactly when its beginning or its length in bytes is wrong |
| HexColorLaws.BadDigitsOfAscii | crates/gpui/src/color.rs:179-256 | ASCII text of a right length that is no colour is reported for its digits |
| HexColorLaws.BadUnicodeOfComponent | crates/gpui/src/color.rs:181-186 | a component is reported as bad Unicode exactly when one of its ends falls inside a character |
| HexColorLaws.FirstBadComponentDecides | crates/gpui/src/color.rs:179-256 | a text of a right length is rejected for what its first bad component is rejected for, and only then |
| Utf.IndexIsLeast | crates/gpui/examples/input.rs:204-210 | the loops stop at the first boundary that reaches the offset, or at the end |
| Utf.ConvertLandsOnBoundary | crates/gpui/examples/input.rs:200-228 | a converted offset is a character boundary inside the text |
| Utf.ConvertIsMonotone | crates/gpui/examples/input.rs:200-228 | conversion keeps the order of offsets |
| Utf.ConvertRoundTrip | crates/gpui/examples/input.rs:200-228 | there and back is the least boundary not below, capped at the end, hence the identity exactly on boundaries |
| Utf.OffsetFromUtf16 | crates/gpui/examples/input.rs:200-213 | the loop computes the conversion from UTF-16 |
| Utf.OffsetToUtf16 | crates/gpui/examples/input.rs:215-228 | the loop computes the conversion to UTF-16 |
| UtfCodes.CodeOfCharacter | crates/gpui/examples/input.rs:208-209 | a character's width is the length of its UTF-8 or UTF-16 code, which fits its units and decodes to the character |
| UtfCodes.SizeIsEncodedLength | crates/gpui/examples/input.rs:200-228 | the length of a text is that of its encoding |
| UtfCodes.OffsetCutsEncoded | crates/gpui/examples/input.rs:200-228 | cutting the encoding at a boundary's offset gives the encoding of the text before it |
| TextEditing.StepKeepsInv | crates/gpui/examples/input.rs:49-198 | every command keeps selection and marked text on ordered character boundaries |
| TextEditing.RunKeepsInv | crates/gpui/examples/input.rs:49-353 | so does every run of commands |
| TextEditing.SpliceBoundaries | crates/gpui/examples/input.rs:316-319 | replacing a range makes both ends of the new text boundaries and changes the length by the difference |
| TextEditing.SpliceUndo | crates/gpui/examples/input.rs:316-318 | putting the replaced text back over the new text restores the content |
| TextEditing.CutThenPaste | crates/gpui/examples/input.rs:134-154 | cut then paste restores the content exactly when the selected text, newlines made spaces, equals the text the cut removes, which is the marked text if there is any |
| TextEditing.CutThenPasteUnmarked | crates/gpui/examples/input.rs:134-154 | with nothing marked, exactly when the cut text has no newline |
| TextEditing.CutThenPasteMarked | crates/gpui/examples/input.rs:310-314 | with one text marked and the text after it selected, the selected text takes the marked one's place |
| TextEditing.CutMarkedIsReached | crates/gpui/examples/input.rs:49-353 | four commands lead to a state with "a" marked and "b" selected, whatever the segmentation |
| TextEditing.CutMarkedLosesText | crates/gpui/examples/input.rs:147-154 | in that state cut and paste turns "ab" into "bb" |
| TextEditing.RunsCoverText | crates/gpui/examples/input.rs:463-488 | the split text runs never underflow, sum to the length of the shown text, and underline exactly the marked bytes |
| TextEditing.DragSelectsFromAnchor | crates/gpui/examples/input.rs:156-198 | any selection sequence after a move to a, ending at o, selects exactly what lies between, with the cursor at o |
| TextEditing.SelectAllSelectsEverything | crates/gpui/examples/input.rs:73-76 | the whole text is selected, cursor at its end, whatever the old reversed flag |
| TextEditing.LeftUndoesRight | crates/gpui/examples/input.rs:49-63 | moving right from a grapheme start and left again returns to it |
| TextEditing.BackspaceRemoves | crates/gpui/examples/input.rs:86-91 | removes the marked text, else the selection, else exactly back to the last grapheme start before the cursor |
| TextEditing.DeleteRemoves | crates/gpui/examples/input.rs:93-98 | removes the marked text, else the selection, else exactly up to the next grapheme start, or the end |
| TextLaws.ReplacePutsCursorAfter | crates/gpui/examples/input.rs:303-322 | an edit over any range, given or not, keeps what is before and after it and puts the cursor behind the new text |
| TextLaws.GivenRangeIsReplaced | crates/gpui/examples/input.rs:310-314 | a range given in UTF-16 units picks exactly the part of the text it counts, for edits and for marking |
| TextLaws.TypingInTwo | crates/gpui/examples/input.rs:303-322 | typing s and then t is typing s + t, over any range |
| TextLaws.MarkingMarksText | crates/gpui/examples/input.rs:324-353 | while text is composed exactly it is marked, with the cursor behind it |
| TextLaws.CommitReplacesComposition | crates/gpui/examples/input.rs:303-353 | composing and then committing is replacing: nothing of the composition stays |
| TextLaws.CompositionReplacesComposition | crates/gpui/examples/input.rs:324-353 | a new composition takes the place of the last |
| TextLaws.UnmarkKeepsComposition | crates/gpui/examples/input.rs:299-301 | unmarking keeps the composed text, and typing goes on behind it |
| TextLaws.ArrowsMoveOneGrapheme | crates/gpui/examples/input.rs:49-63 | left and right move the cursor to the next grapheme start on their side |
| TextLaws.ArrowsLeaveSelection | crates/gpui/examples/input.rs:49-63 | with a selection, made in either direction, left goes to its smaller and right to its larger end |
| TextLaws.SelectingMovesCursor | crates/gpui/examples/input.rs:65-71 | selecting left or right moves the cursor by one grapheme and keeps the anchor |
| TextLaws.HomeAndEnd | crates/gpui/examples/input.rs:78-84 | home puts the cursor before all text, end behind it |
| TextLaws.TypingAtTheEnds | crates/gpui/examples/input.rs:78-84 | typing there puts the typed text first or last |
| TextLaws.MouseDragSelects | crates/gpui/examples/input.rs:100-123 | pressing and dragging selects from the press to the mouse; after release moves do nothing |
| TextLaws.ShiftPressExtends | crates/gpui/examples/input.rs:100-113 | a shifted press keeps the anchor and drags on |
| TextLaws.CommandsLeaveAlone | crates/gpui/examples/input.rs:49-353 | which commands leave text, marking, direction and dragging as they are |
| TextLaws.PasteTypes | crates/gpui/examples/input.rs:134-138 | pasting types the clipboard, newlines made spaces, with the cursor behind it |
| TextLaws.ResetForgets | crates/gpui/examples/input.rs:253-261 | after a reset typing gives just the text typed, whatever was there |
| TextEditing.OrderedUtf16RangeIsLegal | crates/gpui/examples/input.rs:265-275 | an ordered UTF-16 range always names a legal slice |
| TextEditing.SelectionSurvivesUtf16 | crates/gpui/examples/input.rs:277-297 | the reported selection and marked range convert back to themselves |
| Marking.ExplicitSelectionSafe | crates/gpui/examples/input.rs:346-350 | marking is safe for every ordered explicit selection, within the new text or not, exactly when the replaced range is 0..0 |
| Marking.ExplicitSelectionAsRequested | crates/gpui/examples/input.rs:346-350 | every selection within the new text selects what it means exactly when nothing is replaced and the new content begins with characters as wide as the new text's |
| Marking.UniformSelectionAsRequested | crates/gpui/examples/input.rs:346-350 | in text of one character width a single such selection selects what it means exactly when nothing is replaced |
| Marking.UniformSelectionSafe | crates/gpui/examples/input.rs:346-350 | in such text a single such selection is safe exactly when its end, moved on by the length replaced, stays in the content |
| Marking.UniformAlwaysSafe | crates/gpui/examples/input.rs:346-350 | in such text all such selections are safe exactly when no more is replaced than follows |
| Marking.ExplicitSelectionOverruns | crates/gpui/examples/input.rs:346-350 | a concrete marking that leaves the selection outside the text |
| TextInputs.TextInput.SelectTo | crates/gpui/examples/input.rs:187-198 | the cursor goes to the offset, the other end stays, the range stays ordered, and the field stays valid on boundaries |
| TextInputs.TextInput.Left | crates/gpui/examples/input.rs:49-55 | moves to the previous grapheme start, or collapses to the selection's start, keeping the field valid |
| TextInputs.TextInput.Right | crates/gpui/examples/input.rs:57-63 | moves to the next grapheme start, or collapses to the selection's end, keeping the field valid |
| TextInputs.TextInput.Backspace | crates/gpui/examples/input.rs:86-91 | deletes backwards as specified, keeping the field valid |
| TextInputs.TextInput.Delete | crates/gpui/examples/input.rs:93-98 | deletes forwards as specified, keeping the field valid |
| TextInputs.TextInput.OnMouseDown | crates/gpui/examples/input.rs:100-113 | starts a selection at, or extends it to, the mouse |
| TextInputs.TextInput.OnMouseMove | crates/gpui/examples/input.rs:119-123 | extends the selection only while selecting |
| TextInputs.TextInput.Cut | crates/gpui/examples/input.rs:147-154 | copies the selection and removes it |
| TextInputs.TextInput.ReplaceTextInRange | crates/gpui/examples/input.rs:303-322 | replaces the given, marked or selected text as specified, keeping the field valid |
| TextInputs.TextInput.ReplaceAndMarkTextInRange | crates/gpui/examples/input.rs:324-353 | replaces and marks; valid without an explicit selection, or with an ordered one for the range 0..0 |
| TextInputs.TextInput.TextForRange | crates/gpui/examples/input.rs:265-275 | returns the slice exactly when it is legal, which it is for ordered ranges, and the range widened to boundaries |
| TextInputs.TextInput.SelectedTextRange | crates/gpui/examples/input.rs:277-287 | reports the selection in UTF-16 units, which converts back to it |
| TextInputs.TextInput.Reset | crates/gpui/examples/input.rs:253-261 | back to the initial state |
| LruCache.UsagesAreIdeal | crates/gpui/examples/image_gallery.rs:193-245 | the recency vector is the distinct hashes by most recent use, cut off at the capacity |
| LruCache.RecencyIsByLastUse | crates/gpui/examples/image_gallery.rs:204-214 | ideal recency is the order of last use in the trace, latest first |
| LruCache.SmallerIsIncluded | crates/gpui/examples/image_gallery.rs:193-245 | a smaller cache always holds part of what a larger one holds |
| LruCache.HitsGrowWithCapacity | crates/gpui/examples/image_gallery.rs:204-214 | capacity never costs a hit |
| LruCache.HitIffRecent | crates/gpui/examples/image_gallery.rs:204-214 | an item is found exactly when it is among the last distinct hashes used |
| LruCache.SimpleLruCache.Load | crates/gpui/examples/image_gallery.rs:193-245 | hit, miss with or without eviction, and the panic of capacity 0; vector and map stay in step |
| LruCache.FindPosition | crates/gpui/examples/image_gallery.rs:205-209 | finds the first position of a hash that is present |
| LruCache.LoadAll | crates/gpui/examples/image_gallery.rs:193-245 | a whole trace leaves the ideal vector, the map's keys equal to it, and the specified number of hits |
| HoldRepeat.HoldIsSafe | crates/counter_demo/src/main.rs:22-23 | with fewer than 2^64 presses and releases per frame exactly one callback acts while holding, none otherwise; the count stays 32-bit |
| HoldRepeat.FrameStepsAtMostOnce | crates/counter_demo/src/main.rs:55-79 | a frame applies at most one step, in the direction held, and none when nothing is held |
| HoldRepeat.NothingActsAfterRelease | crates/counter_demo/src/main.rs:49-79 | after a release, through any further presses, releases and frames, the state is as if the callbacks chained before had been withdrawn; until the next frame they match no generation |
| HoldRepeat.CountStandsAfterRelease | crates/counter_demo/src/main.rs:49-79 | from a release to the next press the count does not change, over any frames |
| HoldRepeat.HoldCount | crates/counter_demo/src/main.rs:69-90 | a hold moves the count once at the press and once per frame at least 320 milliseconds later, saturating |
| HoldRepeat.NoStepBeforeDelay | crates/counter_demo/src/main.rs:8-9 | frames less than 320 milliseconds after the press change nothing |
| HoldRepeat.EveryFrameStepsAfterDelay | crates/counter_demo/src/main.rs:69-75 | from then on every frame is a step |
| HoldRepeat.ClicksCount | crates/counter_demo/src/main.rs:42-53 | until frames come the count is the presses up less the presses down |
| HoldRepeat.SafeExactlyBelowWrapAround | crates/counter_demo/src/main.rs:52 | a bound on presses and releases per frame makes the protocol safe exactly when it is below 2^64 |
| HoldRepeat.WrapAroundBreaks | crates/counter_demo/src/main.rs:52 | after a full cycle of generations two callbacks act |
| CounterApps.CounterApp.BeginHold | crates/counter_demo/src/main.rs:81-89 | stops the old hold, steps once and chains one callback under the new generation; the object stays where the run of its history leads |
| CounterApps.CounterApp.StopHoldRepeat | crates/counter_demo/src/main.rs:49-53 | ends the hold and its generation, keeping the object on its run |
| CounterApps.CounterApp.FrameCallback | crates/counter_demo/src/main.rs:62-78 | a stale callback does nothing; a current one steps past the delay and chains itself again |
| CounterApps.CounterApp.OnFrame | crates/gpui/src/window.rs:4196-4203 | the queue is taken and run in order; within a cycle of generations the count changes by at most one step, in the direction held |
| NetworkSpec.RunConserves | crates/gpui/examples/testing.rs:441-464 | in every interleaving a peer's count, the other's unsent deltas and the queued ones make up all increments |
| NetworkSpec.QuietMeansEqual | crates/gpui/examples/testing.rs:520-529 | with nothing unsent or queued both counts are the 32-bit sum of all increments |
| NetworkSpec.SyncsConverge | crates/gpui/examples/testing.rs:520-529 | once all sends have run, syncing both peers in either order makes the counts agree |
| NetworkSpec.TasksDrain | crates/gpui/examples/testing.rs:520-521 | running the tasks in any order runs each once and leaves none |
| NetworkSpec.LogIsReordering | crates/gpui/examples/testing.rs:412-415 | logged and unsent deltas are, as a bag, exactly the increments made |
| NetworkOrder.MessagesKeepOrder | crates/gpui/examples/testing.rs:412-429 | in every interleaving the log lists deltas as sent, and a queue holds those sent since the last sync, in order |
| NetworkOverflow.NoOverflowExactlyWithin32 | crates/gpui/examples/testing.rs:446-464 | bounds on the totals of the positive and of the negative increments rule out overflow in every interleaving exactly when 32 bits hold both |
| NetworkOverflow.ModerateRunIsExact | crates/gpui/examples/testing.rs:446-464 | within those bounds no addition overflows, conservation is exact, and quiet counts are the exact sum |
| NetworkOverflow.TwoIncrementsOverflow | crates/gpui/examples/testing.rs:446-447 | two 32-bit increments of one peer whose sum is not one overflow |
| Networks.NetworkClient.Send | crates/gpui/examples/testing.rs:412-420 | a message is logged and queued for the other peer |
| Networks.NetworkClient.ReceiveAll | crates/gpui/examples/testing.rs:422-429 | takes everything queued for this peer and nothing else |
| Networks.NetworkedCounter.Increment | crates/gpui/examples/testing.rs:446-456 | counts at once and leaves the broadcast to the background |
| Networks.NetworkedCounter.Sync | crates/gpui/examples/testing.rs:459-463 | adds every received delta in turn and empties the queue |
| Networks.Peers.Settle | crates/gpui/examples/testing.rs:520-529 | run until parked in any order, then sync both: the counts are equal to the sum |

## Left out

- Rendering, layout, native widgets, windows, menus and event registration: no semantics to state here.
- Rounding of 32-bit floats in bounds and colours: the models compute over real numbers.
- Gradients, `pattern_slash` packing, Oklab, JSON schema and serde plumbing of `color.rs`.
- Raw-pointer undefined behaviour, allocator failure and panicking destructors or initialisers in the arena.
- Freeing of chunk memory when the arena is dropped: only validity and destructors are modelled.
- Image loading, `drop_image` and the executor: a load stores an opaque item; the evicted item is returned.
- Hash collisions between resources: the cache is modelled on hashes.
- Grapheme segmentation, text shaping and hit testing: mouse positions are assumed to be character boundaries.
- Marking.UniformSelectionSafe: in text of mixed character widths a single selection can be legal by coincidence of
  widths; there only `Marking.ExplicitSelectionSafe` and `Marking.ExplicitSelectionAsRequested` say when all are.
- `bounds_for_range` and `character_index_for_point` of the text field, which need the shaped line.
- Frames-per-second averaging and rendering of the counter demo.
- The single-window counter and its tests in `testing.rs`, which would only add easy members.
