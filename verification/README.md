# FLTK widgets: the data structures underneath

The widgets of FLTK keep their data in structures that are all updated in place: a gap buffer under
the text editor, doubly linked lists with a remembered position under the two browsers, a tree of
items with sibling links, a stream of 16-bit drawing instructions under file icons, a wrapping value
under the spinner, a bounded font stack under the help viewer, and vectors of row heights and row
flags with remembered scroll positions under the tables. This project models those structures as
Dafny classes with the fields of the source, gives every operation as a method with its loops, and
proves each method against a specification on plain values. The theorems are then stated about those
values: over every run of operations, for every tree, for every stream.

| files | component |
|---|---|
| Integers, Sequences, Marks, Vector | stored widths of integers, order and repetition in sequences, counting marks, the growable vector |
| TextSpec, Selections, TextModel | the text as a byte string, selections, and every edit as a function on the whole visible state |
| TextBuffer | the gap buffer, proved against TextModel method by method |
| TextHistory, TextSelections, TextUndo | what runs of edits promise to listeners, selections and undo |
| TextEffects | what each operation on a text does, piece by piece |
| TextBufferRun | runs on two gap buffers that share the undo record |
| Utf8, SelectionUtf8, TextUtf8 | UTF-8 text: characters, selections, and runs of edits |
| CheckBrowser, Browser | the linked lists with a remembered node |
| TreeFlags, TreeItem, TreeFamily | flags, walking and marking of tree items; the links of one family |
| Trees, TreeUpdates, LinkedTree, TreeEdit, TreeRun | trees as values; whole trees in memory, their edits and runs of edits |
| FileIcon, IconDrawing | the instruction stream and its interpreter; what each word draws |
| Spinner, HelpFontStack | the wrapping value and its decimals; the bounded stack |
| Table, TableRow | scroll positions, redraw areas, row selection |

`dafny verify dfyconfig.toml` checks the whole project.

## How a method and its theorems fit together

A method that changes state ensures that the abstract value after it (`View()`, `Value()`,
`Contents()`, `Words()`) is a function of the value before it, and names nothing else in its
`modifies` clause. That function is what the lemmas are about. Ghost fields record what the source
hands to the outside: `notices` every callback a text buffer makes, `drawn` what the font stack told
the drawing library. A method that walks or edits a tree takes the tree, as a value, as a
ghost argument; walking and marking take its items in drawing order and their places, which are
`Items(t)` and `Shape(t)` of a tree `t`. `hide` statements only keep definitions that a proof does not need away from
the solver.

## Where the code does not do what is said of it

The code is followed, with an input or an exact condition proved for each:

- `rewind_lines(p, 0)` is not the beginning of the line when the first byte is a newline and `p` is 1.
- A removal that starts inside a selection and runs past its end leaves the selection
  shorter than what is left of the selected bytes.
- Such a removal can also leave the end of the selection inside a character, though every argument is
  at a boundary. Removing the selection then leaves half a character.
- `select` stores a range outside the text as it is given, and `text()` may then leave it selected.
- Copying from a buffer tells no listener and is not recorded; exchanging the text leaves the undo
  record of the old text in force. Undo can then produce a text that never was, cut a character in
  two, or ask for a range that is out of order.
- `Fl_Check_Browser::checked(i, b)` and `add(s, b)` count wrong for marks other than 0 and 1.
- `Fl_Browser::find_line` remembers a miss, and `insert` remembers a number the line may not have;
  both can make later lookups wrong, or follow a null pointer. `clear` keeps the freed node.
- `undo` answers a place outside the text when the text was exchanged and nothing is left to remove.
- The two versions of tree flags differ on masks of two flags and on values whose low byte is zero.
- `Fl_Tree_Item::move` below an item of another parent moves above it. Its answer -1, documented for
  items without a parent, is given only for moving into no item; for a missing parent it looks for a
  child of nothing before it checks. An item moved below itself is lost to the tree.
- The outline of an icon polygon sets the colour of an inactive icon undimmed if no colour command came
  before it.
- An icon polygon left open at the end of its stream is ended with the wrong call.
- The spinner's Down does not undo its Up at the maximum unless the step divides the range.
- `Fl_Table::row_height` for the row just past the end writes outside its vector, which keeps the
  size it had.
- Table heights changed above the top row leave the total height wrong until the next resize, and
  scrolling past the end leaves a wrong start of the top row.
- Row flags other than 0, 1 and 2 are stored as given and then cannot be toggled off.

## Model

| member | source | states |
|---|---|---|
| TextSpec.NewlinesAdditive | contrib/fltk/src/Fl_Text_Buffer.cxx:903-925 | counting newlines over adjacent ranges adds up |
| TextSpec.NewlinesAreCounted | contrib/fltk/src/Fl_Text_Buffer.cxx:903-925 | the count is the number of newline bytes |
| TextSpec.SkipLinesMeaning | contrib/fltk/src/Fl_Text_Buffer.cxx:933-963 | going n lines ahead passes exactly n newlines and stops right after the last of them, or at the end when there are fewer |
| TextSpec.SkipLinesUnique | contrib/fltk/src/Fl_Text_Buffer.cxx:933-963 | that description has only one solution |
| TextSpec.RewindScanFinds | contrib/fltk/src/Fl_Text_Buffer.cxx:971-1000 | the backward scan finds a line start from any number of newlines after it |
| TextSpec.RewindMeaning | contrib/fltk/src/Fl_Text_Buffer.cxx:971-1000 | going n lines back answers the line start from which exactly n newlines lead to the position; the beginning of the text when n newlines or fewer come before it, or at most one byte; a negative n counts as 0 |
| TextSpec.RewindUnique | contrib/fltk/src/Fl_Text_Buffer.cxx:971-1000 | that description has only one solution |
| TextSpec.RewindUndoesSkip | contrib/fltk/src/Fl_Text_Buffer.cxx:933-1000 | n lines ahead and n lines back return to the line start, exactly except for the line at offset 1 with n = 0 |
| TextSpec.RewindZeroIsLineStart | contrib/fltk/src/Fl_Text_Buffer.cxx:971-1000 | rewinding 0 lines gives the beginning of the line, as documented, exactly except at position 1 after a leading newline |
| Selections.TextSelection.Set | contrib/fltk/src/Fl_Text_Buffer.cxx:1211-1216 | the range from the smaller to the larger position, selected unless empty |
| Selections.TextSelection.Position | contrib/fltk/src/Fl_Text_Buffer.cxx:1223-1230 | the range, if there is one |
| Selections.TextSelection.Update | contrib/fltk/src/Fl_Text_Buffer.cxx:1441-1460 | the four cases leave exactly the range of UpdateRange |
| Selections.UpdateKeepsRangeOk | contrib/fltk/src/Fl_Text_Buffer.cxx:1441-1460 | an edit inside the text keeps every selection ordered and inside the new text |
| Selections.UntouchedSelection | contrib/fltk/src/Fl_Text_Buffer.cxx:1441-1460 | a selection wholly before or after the replaced range stands for the same bytes, whatever replaces it |
| Selections.RemovalKeepsSurvivors | contrib/fltk/src/Fl_Text_Buffer.cxx:1441-1460 | after a removal the selection stands for exactly the selected bytes that are left, if and only if the removal does not start strictly inside the selection and run past its end |
| Selections.OverrunSelection | contrib/fltk/src/Fl_Text_Buffer.cxx:1441-1460 | after such a removal it stands for a beginning of its bytes, too short by the number of bytes removed behind it, or for none |
| Selections.EditedBytes | contrib/fltk/src/Fl_Text_Buffer.cxx:299-320 | after a replacement that does not run out of it, a selection stands for what is left of its bytes, with the new ones if they come in strictly inside |
| Selections.RemovedRangeIsEmpty | contrib/fltk/src/Fl_Text_Buffer.cxx:1450-1453 | a selection removed as a whole becomes the empty range there |
| Selections.InsertionIntoSelection | contrib/fltk/src/Fl_Text_Buffer.cxx:1441-1460 | an insertion strictly inside a selection is taken into it, at an edge it stays out |
| TextBuffers.TextBuffer.constructor | contrib/fltk/src/Fl_Text_Buffer.cxx:105-129 | an empty text, one gap, no selections, undo switched on |
| TextBuffers.TextBuffer.Address | contrib/fltk/FL/Fl_Text_Buffer.H:229-238 | reading through the address gives the byte of the text at that position and never a byte of the gap |
| TextBuffers.TextBuffer.AddressIsBijection | contrib/fltk/FL/Fl_Text_Buffer.H:229-238 | positions and array indices outside the gap correspond one to one |
| TextBuffers.TextBuffer.ByteAt | contrib/fltk/src/Fl_Text_Buffer.cxx:257-262 | the byte of the text, NUL outside it |
| TextBuffers.TextBuffer.GetText | contrib/fltk/src/Fl_Text_Buffer.cxx:153-159 | both pieces around the gap are the whole text |
| TextBuffers.TextBuffer.TextRange | contrib/fltk/src/Fl_Text_Buffer.cxx:200-236 | the bytes between two positions given in either order, clipped, wherever the gap lies |
| TextBuffers.TextBuffer.CopyOut | contrib/fltk/src/Fl_Text_Buffer.cxx:221-235 | the three-way copy gives the range whether it lies before, after or across the gap |
| TextBuffers.TextBuffer.MoveGap | contrib/fltk/src/Fl_Text_Buffer.cxx:1385-1395 | moving the gap changes no text; the gap keeps its size and starts where asked |
| TextBuffers.TextBuffer.ReallocateWithGap | contrib/fltk/src/Fl_Text_Buffer.cxx:1402-1424 | a new array holds the same text around a gap of the size asked for |
| TextBuffers.TextBuffer.OpenGap | contrib/fltk/src/Fl_Text_Buffer.cxx:1128-1131 | afterwards the gap starts at the position and is large enough, and the text is the same |
| TextBuffers.TextBuffer.GapToRange | contrib/fltk/src/Fl_Text_Buffer.cxx:1178-1193 | the saved bytes are the ones about to be removed, and the gap touches the range |
| TextBuffers.TextBuffer.InsertInternal | contrib/fltk/src/Fl_Text_Buffer.cxx:1116-1152 | the text, the selections and the undo record after an insertion; a NULL or empty string does nothing |
| TextBuffers.TextBuffer.RemoveInternal | contrib/fltk/src/Fl_Text_Buffer.cxx:1159-1204 | the same for a removal, and the gap ends at the place of the removal |
| TextBuffers.TextBuffer.Insert | contrib/fltk/src/Fl_Text_Buffer.cxx:269-292 | the whole new state, position clipped, both callbacks sent around the change |
| TextBuffers.TextBuffer.Append | contrib/fltk/FL/Fl_Text_Buffer.H:251-251 | an insertion at the end |
| TextBuffers.TextBuffer.Remove | contrib/fltk/src/Fl_Text_Buffer.cxx:327-357 | the whole new state for bounds in any order; nothing happens and nobody is told when the clipped range is empty |
| TextBuffers.TextBuffer.Replace | contrib/fltk/src/Fl_Text_Buffer.cxx:299-320 | the whole new state of a removal and an insertion announced as one change |
| TextBuffers.TextBuffer.SetText | contrib/fltk/src/Fl_Text_Buffer.cxx:165-194 | the text is exchanged and the selections told that the old text is gone; the undo record is left as it was |
| TextBuffers.TextBuffer.Copy | contrib/fltk/src/Fl_Text_Buffer.cxx:364-399 | bytes of a buffer, this one included, are spliced in; nobody is told and nothing is recorded |
| TextBuffers.TextBuffer.TabDistance | contrib/fltk/src/Fl_Text_Buffer.cxx:464-478 | announces the whole text as deleted and inserted again |
| TextBuffers.TextBuffer.RedisplaySelection | contrib/fltk/src/Fl_Text_Buffer.cxx:1329-1378 | which areas are announced for redrawing when a selection changes |
| TextBuffers.TextBuffer.Select | contrib/fltk/src/Fl_Text_Buffer.cxx:485-494 | the selection and the redraw notices, for each of the three selections |
| TextBuffers.TextBuffer.Unselect | contrib/fltk/src/Fl_Text_Buffer.cxx:500-506 | the same for dropping a selection |
| TextBuffers.TextBuffer.SelectionText | contrib/fltk/src/Fl_Text_Buffer.cxx:1246-1259 | the selected bytes of the text; of a stored range outside it what the range gives when clipped |
| TextBuffers.TextBuffer.RemoveSelection | contrib/fltk/src/Fl_Text_Buffer.cxx:1266-1274 | removes what is selected |
| TextBuffers.TextBuffer.ReplaceSelection | contrib/fltk/src/Fl_Text_Buffer.cxx:1281-1298 | replaces what is selected and drops the selection |
| TextBuffers.TextBuffer.CanUndo | contrib/fltk/src/Fl_Text_Buffer.cxx:448-454 | switching undo off drops the record of this buffer only |
| TextBuffers.TextBuffer.Undo | contrib/fltk/src/Fl_Text_Buffer.cxx:407-442 | the whole new state of taking the last group of edits back, and when nothing is done |
| TextBuffers.TextBuffer.CountLines | contrib/fltk/src/Fl_Text_Buffer.cxx:903-925 | the newlines between two positions, wherever the gap lies; an end never met counts to the end of the text |
| TextBuffers.TextBuffer.SkipLinesForward | contrib/fltk/src/Fl_Text_Buffer.cxx:933-963 | the position n lines ahead, wherever the gap lies; with a negative count it depends on the gap, and how |
| TextBuffers.TextBuffer.RewindLinesBack | contrib/fltk/src/Fl_Text_Buffer.cxx:971-1000 | the position n lines back, wherever the gap lies |
| TextBuffers.TextBuffer.CharAt | contrib/fltk/src/Fl_Text_Buffer.cxx:242-250 | decoding from the address, blind to the gap, gives the character of the text |
| TextBuffers.TextBuffer.PrevCharClippedAt | contrib/fltk/src/Fl_Text_Buffer.cxx:1735-1752 | agrees with the scan on the text |
| TextBuffers.TextBuffer.PrevCharAt | contrib/fltk/src/Fl_Text_Buffer.cxx:1759-1763 | the same, -1 at the beginning |
| TextBuffers.TextBuffer.NextCharAt | contrib/fltk/src/Fl_Text_Buffer.cxx:1770-1779 | agrees with the step on the text |
| TextBuffers.TextBuffer.Utf8Align | contrib/fltk/src/Fl_Text_Buffer.cxx:1794-1802 | agrees with the alignment on the text |
| TextBuffers.TextBuffer.FindcharForward | contrib/fltk/src/Fl_Text_Buffer.cxx:1467-1487 | the first character with that code at or after the start, or none |
| TextBuffers.TextBuffer.FindcharBackward | contrib/fltk/src/Fl_Text_Buffer.cxx:1494-1513 | the last one before the start, or none |
| TextBuffers.TextBuffer.LineStartAt | contrib/fltk/src/Fl_Text_Buffer.cxx:810-815 | the start of the line around a position |
| TextBuffers.TextBuffer.LineEndAt | contrib/fltk/src/Fl_Text_Buffer.cxx:821-825 | its end |
| TextBuffers.TextBuffer.LineText | contrib/fltk/src/Fl_Text_Buffer.cxx:802-804 | the bytes between them, with no newline in them |
| TextModel.InsertRaw | contrib/fltk/src/Fl_Text_Buffer.cxx:1116-1152 | after an insertion the undo record's counts stay within the bytes it stores |
| TextModel.RemoveRaw | contrib/fltk/src/Fl_Text_Buffer.cxx:1159-1204 | the same for a removal |
| TextHistory.StepFollows | contrib/fltk/src/Fl_Text_Buffer.cxx:269-399 | after every operation but copying, applying the notices sent to a replica of the old text gives the new text, the deleted texts in them lead back, and every change was announced before |
| TextHistory.ReplicaFollowsRun | contrib/fltk/src/Fl_Text_Buffer.cxx:1305-1322 | the same over every run of operations |
| TextHistory.CopyTellsNobody | contrib/fltk/src/Fl_Text_Buffer.cxx:364-399 | after copying a replica is right if and only if nothing was copied |
| TextSelections.SelectFits | contrib/fltk/src/Fl_Text_Buffer.cxx:485-494 | after selecting, all selections are in the text if and only if the range given is empty or in the text: the source stores any range |
| TextSelections.SelectPastTheEnd | contrib/fltk/src/Fl_Text_Buffer.cxx:485-494 | an input for which a selection reaches past the text |
| TextSelections.StepKeepsSelections | contrib/fltk/src/Fl_Text_Buffer.cxx:1431-1460 | every operation keeps all three selections ordered and inside the text if and only if it does not select a range outside it |
| TextSelections.SelectionsStayInText | contrib/fltk/src/Fl_Text_Buffer.cxx:1431-1460 | so they do over every run in which each range selected fits the text of that moment |
| TextSelections.SetTextDropsSelections | contrib/fltk/src/Fl_Text_Buffer.cxx:188-189 | exchanging the text drops a selection if and only if its stored range does not outlive the removal of the whole old text: one in the text is always dropped |
| TextSelections.SetTextKeepsASelection | contrib/fltk/src/Fl_Text_Buffer.cxx:165-194 | an input for which 997 bytes stay selected in an empty text |
| TextSelections.InsertBeside | contrib/fltk/src/Fl_Text_Buffer.cxx:269-292 | after an insertion not inside it, each of the three selections stands for the same bytes |
| TextSelections.RemoveBeside | contrib/fltk/src/Fl_Text_Buffer.cxx:327-357 | the same after a removal beside it, bounds in any order |
| TextSelections.ReplaceBeside | contrib/fltk/src/Fl_Text_Buffer.cxx:299-320 | the same after a replacement beside it, which updates the selections twice |
| TextSelections.CopyBeside | contrib/fltk/src/Fl_Text_Buffer.cxx:364-399 | the same after copying |
| TextSelections.StepBeside | contrib/fltk/src/Fl_Text_Buffer.cxx:269-506 | the same for every operation that edits beside a selection, undo and edits of other selections included |
| TextSelections.RedisplayIsExact | contrib/fltk/src/Fl_Text_Buffer.cxx:1329-1378 | a position is redrawn if and only if it enters or leaves the selection |
| TextUndo.InsertRawTarget | contrib/fltk/src/Fl_Text_Buffer.cxx:1139-1149 | an insertion that continues the last group leaves the text undo would bring back unchanged; any other makes it the text just before |
| TextUndo.RemoveRawTarget | contrib/fltk/src/Fl_Text_Buffer.cxx:1163-1176 | a removal continues the group exactly when it ends where the last removal left off |
| TextUndo.ReplaceTarget | contrib/fltk/src/Fl_Text_Buffer.cxx:299-320 | the same for a replacement |
| TextUndo.UndoText | contrib/fltk/src/Fl_Text_Buffer.cxx:407-442 | what undo makes of the text, also when the record is stale |
| TextUndo.UndoRenewsRecord | contrib/fltk/src/Fl_Text_Buffer.cxx:407-442 | however stale the record was, after an undo that edits it is about the text just before |
| TextUndo.UndoSwapsTextAndTarget | contrib/fltk/src/Fl_Text_Buffer.cxx:407-442 | undo brings back its target and then has the text it left on record |
| TextUndo.UndoTwiceIsIdentity | contrib/fltk/src/Fl_Text_Buffer.cxx:407-442 | undoing twice gives the text back |
| TextUndo.FirstInsertTarget | contrib/fltk/src/Fl_Text_Buffer.cxx:1140-1145 | the first insertion while another buffer owns the record can be taken back alone, if and only if it is not at the place of that buffer's last removal |
| TextUndo.StepKeepsRecordSound | contrib/fltk/src/Fl_Text_Buffer.cxx:165-454 | every operation leaves the record about a text the buffer has had, or unreliable, as told from the record and the arguments before the call |
| TextUndo.UndoReturnsToThePast | contrib/fltk/src/Fl_Text_Buffer.cxx:407-442 | after any run, exchanging the text, copying and switching undo off included, if the record is reliable at the end, undo is defined and brings back a text of that run |
| TextUndo.RecordedRunIsSound | contrib/fltk/src/Fl_Text_Buffer.cxx:269-442 | without exchanging, copying and switching off the record is reliable all along |
| TextUndo.UndoReturnsToOwnPast | contrib/fltk/src/Fl_Text_Buffer.cxx:72-77 | two buffers that share the record, their operations interleaved in any way: undo in either brings back a text of that very buffer |
| TextUndo.UndoDefinedAfterSetText | contrib/fltk/src/Fl_Text_Buffer.cxx:165-194 | after the text is exchanged undo is defined if and only if it puts nothing back or the new text reaches to where the bytes it calls inserted began |
| TextUndo.UndoAfterSetText | contrib/fltk/src/Fl_Text_Buffer.cxx:165-194 | undo then leaves the new text alone if and only if the left-over record is idle |
| TextUndo.UndoAfterSetTextCanFail | contrib/fltk/src/Fl_Text_Buffer.cxx:165-194 | an input for which undo then replaces a range from 2 to 0 |
| TextUndo.UndoAfterSetTextCanInvent | contrib/fltk/src/Fl_Text_Buffer.cxx:165-194 | an input for which undo then produces a text the buffer never had |
| TextUndo.UndoAfterCopy | contrib/fltk/src/Fl_Text_Buffer.cxx:364-399 | bytes copied in behind the record only move what is behind it: undo does what it would have done |
| TextUndo.UndoAfterCopyIff | contrib/fltk/src/Fl_Text_Buffer.cxx:364-399 | for given record numbers and a given place: whatever the text and the copied bytes, undo does what it would have done with those bytes in it, if and only if the place is at or behind the record, or the record says nothing |
| TextUndo.UndoAfterCopyCanInvent | contrib/fltk/src/Fl_Text_Buffer.cxx:364-399 | an input for which undo after copying into the record's range produces a text the buffer never had |
| TextEffects.InsertEffect | contrib/fltk/src/Fl_Text_Buffer.cxx:269-292 | the bytes come in at the nearest place of the text, the cursor hint is behind them, each selection follows, and exactly two notices are sent; with undo switched off the record stays |
| TextEffects.RemoveEffect | contrib/fltk/src/Fl_Text_Buffer.cxx:327-357 | the bytes between the two nearest places, in either order, go, and the hint is there; nothing at all happens if there are none |
| TextEffects.ReplaceEffect | contrib/fltk/src/Fl_Text_Buffer.cxx:299-320 | the range is exchanged, and the hint is behind the new bytes |
| TextEffects.NothingGiven | contrib/fltk/src/Fl_Text_Buffer.cxx:269-320 | a NULL string changes nothing, nor does an empty one inserted |
| TextEffects.SetTextEffect | contrib/fltk/src/Fl_Text_Buffer.cxx:165-194 | text, record, hint, switch and notices after the text is exchanged |
| TextEffects.CopyEffect | contrib/fltk/src/Fl_Text_Buffer.cxx:364-399 | bytes copied in, with record, hint and notices as they were |
| TextEffects.TabDistanceEffect | contrib/fltk/src/Fl_Text_Buffer.cxx:464-478 | nothing changes but what is announced |
| TextEffects.SelectEffect | contrib/fltk/src/Fl_Text_Buffer.cxx:485-494 | that selection is the range from the smaller to the larger position, selected unless empty; the other two, text and record stay; exactly what enters or leaves is asked to be redrawn |
| TextEffects.UnselectEffect | contrib/fltk/src/Fl_Text_Buffer.cxx:500-506 | that selection is not selected; everything else stays; exactly what was in it is asked to be redrawn |
| TextEffects.RemoveSelectionEffect | contrib/fltk/src/Fl_Text_Buffer.cxx:1266-1274 | a selection is removed like the range stored for it, and is gone if that was in the text |
| TextEffects.ReplaceSelectionEffect | contrib/fltk/src/Fl_Text_Buffer.cxx:1281-1298 | a selection is replaced like the range stored for it, is then not selected, and its old area is asked to be redrawn |
| TextEffects.SetCanUndoEffect | contrib/fltk/src/Fl_Text_Buffer.cxx:448-454 | only the switch and, switched off, the ownership of the record change |
| TextEffects.UndoEffect | contrib/fltk/src/Fl_Text_Buffer.cxx:407-442 | an undo that edits puts the stored bytes in the place of those it calls inserted, both ends brought into the text, and answers the place behind them |
| TextEffects.UndoEditsIff | contrib/fltk/src/Fl_Text_Buffer.cxx:407-442 | when it edits: the record is this buffer's, and there are bytes to put back or bytes in the text that it calls inserted; otherwise everything stays |
| TextEffects.UndoCursorInText | contrib/fltk/src/Fl_Text_Buffer.cxx:399-442 | the place answered lies in the text if and only if undo edits or the hint lay in it before |
| TextEffects.UndoCursorCanBeOutside | contrib/fltk/src/Fl_Text_Buffer.cxx:420-434 | an input for which undo answers the place 3 of an empty text |
| TextEffects.EditedSelection | contrib/fltk/src/Fl_Text_Buffer.cxx:1431-1460 | on whole states: the bytes a selection stands for after an edit that does not run out of it |
| TextBufferRuns.CopyIn | contrib/fltk/src/Fl_Text_Buffer.cxx:364-399 | bytes come in from another gap buffer that holds them |
| TextBufferRuns.Perform | contrib/fltk/src/Fl_Text_Buffer.cxx:165-506 | a gap buffer does with every operation what the value does, and the record keeps its owner, passes to this buffer or is dropped by it |
| TextBufferRuns.PerformAct | contrib/fltk/src/Fl_Text_Buffer.cxx:72-77 | with two gap buffers on one record: the other one keeps its text and sees the record change, as the values say |
| TextBufferRuns.PerformActs | contrib/fltk/src/Fl_Text_Buffer.cxx:72-77 | the same for every interleaved run |
| TextBufferRuns.UndoAfterActs | contrib/fltk/src/Fl_Text_Buffer.cxx:407-442 | after such a run with a reliable record, undo in a gap buffer brings back a text it has had |
| Utf8.CharLen | contrib/fltk/src/fl_utf8.cxx:141-160 | an announced length from 1 to 6 |
| Utf8.CharLenByBits | contrib/fltk/src/fl_utf8.cxx:141-160 | asking single bits, as the source does, gives the same length |
| Utf8.CharLenCountsOnes | contrib/fltk/src/fl_utf8.cxx:141-160 | the announced length is the number of ones the first byte begins with, if there are two at least |
| Utf8.DecodeEncode | contrib/fltk/src/fl_utf.c:137-209 | encoding and then decoding is the identity for every code from 0 to 0x10FFFF, whatever bytes follow |
| Utf8.EncodeDecode | contrib/fltk/src/fl_utf.c:309-335 | every valid character is the encoding of the code it decodes to |
| Utf8.DecodeIgnoresRest | contrib/fltk/src/fl_utf.c:137-209 | decoding looks at one character only |
| Utf8.CutAtBoundary | contrib/fltk/FL/Fl_Text_Buffer.H:149-151 | in well-formed text every boundary is a place where it can be cut into two well-formed texts |
| Utf8.SpliceWellFormed | contrib/fltk/FL/Fl_Text_Buffer.H:149-151 | an edit at boundaries with well-formed text leaves well-formed text |
| Utf8.SpliceWellFormedIff | contrib/fltk/FL/Fl_Text_Buffer.H:149-151 | any edit with well-formed text leaves well-formed text if and only if it cuts no character, or is a removal that cuts two whose halves make up a character |
| Utf8.CharAtBoundary | contrib/fltk/FL/Fl_Text_Buffer.H:149-151 | at a boundary stands one whole character of the announced length |
| Utf8.NextCharIsNextBoundary | contrib/fltk/src/Fl_Text_Buffer.cxx:1770-1779 | the nearest boundary after a boundary |
| Utf8.PrevCharIsPrevBoundary | contrib/fltk/src/Fl_Text_Buffer.cxx:1735-1763 | the nearest boundary before a position |
| Utf8.StepsAtTheEnds | contrib/fltk/src/Fl_Text_Buffer.cxx:1735-1802 | the answers at and outside the ends of the text |
| Utf8.StepsAreInverse | contrib/fltk/src/Fl_Text_Buffer.cxx:1735-1779 | on boundaries the two steps undo each other |
| Utf8.AlignIsGreatestBoundary | contrib/fltk/src/Fl_Text_Buffer.cxx:1794-1802 | the greatest boundary at or before a position |
| Utf8.AsciiCode | contrib/fltk/src/Fl_Text_Buffer.cxx:1467-1513 | an ASCII character is found exactly at its own byte |
| SelectionUtf8.RemovalKeepsEndsIff | contrib/fltk/src/Fl_Text_Buffer.cxx:1440-1460 | a removal at boundaries leaves both ends of a selection at boundaries, as documented, if and only if it does not start strictly inside the selection, run past its end and pull that end into a character |
| SelectionUtf8.InsertionKeepsEnds | contrib/fltk/src/Fl_Text_Buffer.cxx:1440-1460 | an insertion at a boundary always does |
| SelectionUtf8.ReplacementKeepsEndsIff | contrib/fltk/src/Fl_Text_Buffer.cxx:299-320 | the same condition for a replacement, which updates the selections twice |
| TextUtf8.StepKeepsUtf8 | contrib/fltk/src/Fl_Text_Buffer.cxx:269-442 | every operation at boundaries, on a selection that ends at boundaries where it uses one, keeps the text well formed and the gap between characters |
| TextUtf8.UndoKeepsUtf8 | contrib/fltk/src/Fl_Text_Buffer.cxx:407-442 | undo does too while its record is aligned with the text |
| TextUtf8.UndoKeepsUtf8Iff | contrib/fltk/src/Fl_Text_Buffer.cxx:407-442 | aligned or not, undo leaves the text well formed if and only if the place of its record can be replaced there |
| TextUtf8.UndoAfterSetTextUtf8 | contrib/fltk/src/Fl_Text_Buffer.cxx:165-194 | after the text is exchanged, in terms of the old record and the new text |
| TextUtf8.UndoCanCutACharacter | contrib/fltk/src/Fl_Text_Buffer.cxx:165-194 | an input for which undo then leaves half a character |
| TextUtf8.StepKeepsRecordUtf8 | contrib/fltk/src/Fl_Text_Buffer.cxx:269-454 | every such operation keeps whole characters on record, aligned with the text unless it is exchanged or copied into |
| TextUtf8.CursorAtBoundary | contrib/fltk/src/Fl_Text_Buffer.cxx:269-442 | the cursor hint after an insertion, removal, replacement or undo that edits is between two characters |
| TextUtf8.StepFirmIff | contrib/fltk/src/Fl_Text_Buffer.cxx:165-506 | every operation at boundaries leaves a selection between characters, if and only if it does not select otherwise and its removal does not pull the end into a character |
| TextUtf8.SelectionUseUtf8Iff | contrib/fltk/src/Fl_Text_Buffer.cxx:1266-1298 | removing or replacing a selection leaves the text well formed if and only if its range can be replaced there |
| TextUtf8.SelectionCanCutACharacter | contrib/fltk/src/Fl_Text_Buffer.cxx:1455-1459 | an input, every argument at a boundary, for which a removal leaves half a character selected and removing the selection then leaves half a character |
| TextUtf8.StepKeepsAll | contrib/fltk/src/Fl_Text_Buffer.cxx:165-506 | text, gap, record and the selections that are not loose, through one operation of either kind |
| TextUtf8.RunKeepsUtf8 | contrib/fltk/src/Fl_Text_Buffer.cxx:165-506 | over every run of operations with arguments at boundaries, text, gap and the selections that are not loose stay at characters; no selection that select or a removal has left loose is removed or replaced, and undo is called while the record is aligned |
| TextUtf8.EditsKeepUndosAligned | contrib/fltk/src/Fl_Text_Buffer.cxx:269-454 | without exchanging and copying under a record of its own, the record is always aligned |
| TextUtf8.RunWithoutUndoKeepsUtf8 | contrib/fltk/src/Fl_Text_Buffer.cxx:165-506 | without undo nothing is asked of the record |
| TextUtf8.CarefulRunIsAligned | contrib/fltk/src/Fl_Text_Buffer.cxx:1211-1460 | with every argument at a boundary, those of select included, and no removal that starts strictly inside a selection and runs past its end, no selection is ever loose |
| TextUtf8.CarefulRunKeepsUtf8 | contrib/fltk/src/Fl_Text_Buffer.cxx:165-506 | so over every such run that leaves the record alone, undo included, text, gap and all three selections stay at characters |
| CheckBrowsers.MarksAfter | contrib/fltk/src/Fl_Check_Browser.cxx:141-310 | the mark of every item after each operation: which marks change, and to what |
| CheckBrowsers.NoMarksAfter | contrib/fltk/src/Fl_Check_Browser.cxx:141-310 | which operations leave an empty list, and when a removal does nothing |
| CheckBrowsers.CountedStep | contrib/fltk/src/Fl_Check_Browser.cxx:141-310 | the counter stays the number of checked items if and only if the mark given is one the stored character keeps, and a set mark is not set again to another value |
| CheckBrowsers.CountedRun | contrib/fltk/src/Fl_Check_Browser.cxx:141-310 | with marks given as 0 or 1 it does over every run, and all marks stay 0 or 1 |
| CheckBrowsers.MarkTwoCountsTwice | contrib/fltk/src/Fl_Check_Browser.cxx:263-275 | an input for which one item is counted twice |
| CheckBrowsers.CheckBrowser.constructor | contrib/fltk/src/Fl_Check_Browser.cxx:78-86 | an empty list, nothing remembered |
| CheckBrowsers.CheckBrowser.FindItem | contrib/fltk/src/Fl_Check_Browser.cxx:28-57 | the n-th item counting from 1 and NULL outside, whatever is remembered; the remembered pair becomes that item and number |
| CheckBrowsers.CheckBrowser.Lineno | contrib/fltk/src/Fl_Check_Browser.cxx:59-76 | the number of an item, 0 exactly for what is not in the list |
| CheckBrowsers.CheckBrowser.Add | contrib/fltk/src/Fl_Check_Browser.cxx:172-194 | the item becomes the last, links and remembered pair stay right |
| CheckBrowsers.CheckBrowser.Remove | contrib/fltk/src/Fl_Check_Browser.cxx:200-230 | exactly that item goes, links stay inverse, nothing is remembered |
| CheckBrowsers.CheckBrowser.Clear | contrib/fltk/src/Fl_Check_Browser.cxx:233-252 | everything goes |
| CheckBrowsers.CheckBrowser.Checked | contrib/fltk/src/Fl_Check_Browser.cxx:255-260 | the mark as stored, 0 outside the list |
| CheckBrowsers.CheckBrowser.SetChecked | contrib/fltk/src/Fl_Check_Browser.cxx:263-275 | the new mark and counter |
| CheckBrowsers.CheckBrowser.ItemSelect | contrib/fltk/src/Fl_Check_Browser.cxx:141-153 | a click changes the mark |
| CheckBrowsers.CheckBrowser.CheckAll | contrib/fltk/src/Fl_Check_Browser.cxx:291-299 | every mark is 1 and all are counted |
| CheckBrowsers.CheckBrowser.CheckNone | contrib/fltk/src/Fl_Check_Browser.cxx:302-310 | every mark is 0 and none is counted |
| Browsers.LookupsRight | contrib/fltk/src/Fl_Browser.cxx:147-162 | every line number is looked up right if and only if the remembered pair is right or is a miss with no line near it |
| Browsers.NotFreedStep | contrib/fltk/src/Fl_Browser.cxx:147-342 | no run makes the browser follow a remembered node that is gone |
| Browsers.DependableIsUsable | contrib/fltk/src/Fl_Browser.cxx:147-342 | while every line is looked up right, every operation finds the lines it works on |
| Browsers.Remembers | contrib/fltk/src/Fl_Browser.cxx:71-342 | what is remembered after each careful operation: which number, with which line of the list as it then is |
| Browsers.PlaceIs | contrib/fltk/src/Fl_Browser.cxx:212-250 | insert puts a line where it is asked to, the ends being the nearest places |
| Browsers.HalfTruncates | contrib/fltk/src/Fl_Browser.cxx:71-110 | halving goes towards zero |
| Browsers.DependableStep | contrib/fltk/src/Fl_Browser.cxx:147-342 | an operation keeps every line looked up right if and only if the line numbers it is given are in range, or a missed one has no line near it; clearing always does |
| Browsers.LookupsStayRight | contrib/fltk/src/Fl_Browser.cxx:147-696 | after every run of such operations, clearing and refilling included, every line is looked up right, and numbers outside the list too as soon as there are lines |
| Browsers.ClearedAnswers | contrib/fltk/src/Fl_Browser.cxx:685-696 | a cleared browser answers with the freed node for the number it remembers, and for no other |
| Browsers.OneMissHidesALine | contrib/fltk/src/Fl_Browser.cxx:147-162 | an input for which one look past the end hides an existing line, so that removing it follows a null pointer |
| Browsers.InsertPastTheEndIsFoundThere | contrib/fltk/src/Fl_Browser.cxx:243-271 | an input for which a line is found under a number it does not have |
| Browsers.Browser.FindLine | contrib/fltk/src/Fl_Browser.cxx:147-162 | the node found from whatever is remembered, right or wrong; with a dependable pair it is the node at that line |
| Browsers.Browser.Lineno | contrib/fltk/src/Fl_Browser.cxx:171-196 | the number counted from both sides of the remembered node, from whatever number is remembered with it; with a right pair the number of the line |
| Browsers.Browser.TakeOut | contrib/fltk/src/Fl_Browser.cxx:206-220 | exactly the node found goes, and the one before it is remembered, with the number asked for |
| Browsers.Browser.Remove | contrib/fltk/src/Fl_Browser.cxx:229-232 | the same, and nothing for a line out of range |
| Browsers.Browser.Insert | contrib/fltk/src/Fl_Browser.cxx:243-271 | the node stands above the one found, or first or last, and the number asked for is remembered |
| Browsers.Browser.InsertText | contrib/fltk/src/Fl_Browser.cxx:286-296 | a new line with that text and data at that place |
| Browsers.Browser.Add | contrib/fltk/src/Fl_Browser.cxx:710-713 | a new last line |
| Browsers.Browser.Move | contrib/fltk/src/Fl_Browser.cxx:304-307 | the line found is taken out and put above the one found without it |
| Browsers.Browser.SwapNodes | contrib/fltk/src/Fl_Browser.cxx:836-873 | the two nodes exchange places, neighbours in either order or apart, and nothing is remembered |
| Browsers.Browser.Swap | contrib/fltk/src/Fl_Browser.cxx:881-886 | the same for the two nodes found, and nothing if one is not found |
| Browsers.Browser.SetText | contrib/fltk/src/Fl_Browser.cxx:320-342 | the line found alone gets the text; data and all other lines stay |
| Browsers.Browser.Clear | contrib/fltk/src/Fl_Browser.cxx:685-696 | the list is empty; what was remembered stays remembered |
| Browsers.Browser.LineToShow | contrib/fltk/FL/Fl_Browser.H:306-310 | what is found for the line, or for the first or last when out of range; with a dependable pair it is that line |
| TreeFlags.BitsRefine | contrib/fltk/FL/Fl_Tree_Item.H:509-520 | storage in bits behaves like four independent states |
| TreeFlags.CharsRefine | contrib/fltk/FL/Fl_Tree_Item.H:521-541 | storage in characters does if and only if the value is 0 or has a non-zero low byte |
| TreeFlags.TestsAgreeIff | contrib/fltk/FL/Fl_Tree_Item.H:509-541 | asked about a mask the two versions answer alike from all states that stand for the same flags if and only if it is a single flag or none |
| TreeFlags.SetsAgreeIff | contrib/fltk/FL/Fl_Tree_Item.H:509-541 | setting a mask leaves all such states standing for the same flags if and only if it is a single flag with a value 0 or with a non-zero low byte, or has no flag in it |
| TreeFlags.VersionsAgree | contrib/fltk/FL/Fl_Tree_Item.H:509-541 | over every run of settings they agree on, they stand for the same flags and answer alike about each |
| TreeFlags.VersionsDifferOnMasks | contrib/fltk/FL/Fl_Tree_Item.H:509-541 | asked about two flags at once they answer differently |
| TreeItems.Next | contrib/fltk/src/Fl_Tree_Item.cxx:1608-1630 | with sibling links: the next item in drawing order, NULL after the last |
| TreeItems.NextByIndex | contrib/fltk/src/Fl_Tree_Item.cxx:1608-1630 | without sibling links, which it does not need to be right: the same |
| TreeItems.Prev | contrib/fltk/src/Fl_Tree_Item.cxx:1640-1684 | with sibling links: the item before, NULL before the root |
| TreeItems.PrevByIndex | contrib/fltk/src/Fl_Tree_Item.cxx:1640-1684 | without sibling links: the same |
| TreeItems.StepsAreInverse | contrib/fltk/src/Fl_Tree_Item.cxx:1608-1684 | forward and back undo each other, across the two versions |
| TreeItems.SelectAll | contrib/fltk/FL/Fl_Tree_Item.H:359-369 | exactly the items of the subtree are selected, every other flag and every other item is as before, and the answer is the number that were not selected; only the child arrays have to be those of a tree |
| TreeItems.DeselectAll | contrib/fltk/FL/Fl_Tree_Item.H:378-388 | the mirror image |
| TreeItems.CountsAddUp | contrib/fltk/FL/Fl_Tree_Item.H:359-388 | on the same tree both answers add up to the number of items of the subtree |
| TreeItems.MarkingIsFinal | contrib/fltk/FL/Fl_Tree_Item.H:359-388 | an immediate second call answers 0, and the last of two calls decides alone |
| TreeItems.PaintOn | contrib/fltk/FL/Fl_Tree_Item.H:359-388 | marking one subtree after the other marks both, and the numbers add up |
| TreeFamilies.UpdatePrevNext | contrib/fltk/src/Fl_Tree_Item.cxx:1736-1761 | repairs the links on both sides of an item and breaks no others |
| TreeFamilies.Insert | contrib/fltk/src/Fl_Tree_Item_Array.cxx:127-146 | the child stands at its place, clipped, and all sibling links agree with the array |
| TreeFamilies.Remove | contrib/fltk/src/Fl_Tree_Item_Array.cxx:185-208 | one relinking of a neighbour is enough for all links to agree |
| TreeFamilies.Swap | contrib/fltk/src/Fl_Tree_Item_Array.cxx:226-238 | the two children exchange places, adjacent or not, and all links agree |
| TreeFamilies.Move | contrib/fltk/src/Fl_Tree_Item_Array.cxx:249-266 | the child ends at the place asked for, the others keep their order; -1 and nothing for places out of range |
| TreeFamilies.Deparent | contrib/fltk/src/Fl_Tree_Item_Array.cxx:275-291 | the child is an orphan and the others are linked without it |
| TreeFamilies.Reparent | contrib/fltk/src/Fl_Tree_Item_Array.cxx:298-310 | the item is a child at that place, or -1 and nothing |
| TreeFamilies.MoveItem | contrib/fltk/src/Fl_Tree_Item.cxx:533-578 | the new order of both families and the answer, for every operation, place and pair of parents; the answer -1, documented for items without a parent, comes exactly when moving into no item |
| TreeFamilies.SiblingMovesLand | contrib/fltk/src/Fl_Tree_Item.cxx:559-566 | among siblings a move above lands directly above and a move below directly below |
| TreeFamilies.ForeignMovesLandAbove | contrib/fltk/src/Fl_Tree_Item.cxx:567-576 | from another parent the item lands directly above and nowhere else, also when asked to move below |
| TreeFamilies.LinkedFamilies | contrib/fltk/src/Fl_Tree_Item.cxx:1736-1761 | in a linked tree every item and its children are such a family |
| Trees.ShapeIsOk | contrib/fltk/src/Fl_Tree_Item.cxx:1608-1684 | the places, sizes and neighbours read off any tree fit together as drawing order makes them |
| Trees.UpdateRows | contrib/fltk/src/Fl_Tree_Item.cxx:445-578 | giving one item other children exchanges one stretch of the drawing and leaves the lines above and below |
| LinkedTrees.RowsLinked | contrib/fltk/src/Fl_Tree_Item.cxx:1736-1761 | a tree without an item twice, each of whose items heads a family, is linked |
| LinkedTrees.LinkedRows | contrib/fltk/src/Fl_Tree_Item.cxx:1736-1761 | and the other way round |
| LinkedTrees.EveryFiniteTreeIsShaped | contrib/fltk/FL/Fl_Tree_Item.H:359-388 | any items whose children lead down and have one parent each make up a tree, whatever their links say: marking ends and marks it on every finite tree |
| LinkedTrees.MarkSubtree | contrib/fltk/FL/Fl_Tree_Item.H:359-389 | in a linked tree exactly the items of the subtree change, and the answer is 0 if and only if none does |
| LinkedTrees.EveryFiniteTreeIsLinked | contrib/fltk/src/Fl_Tree_Item.cxx:1608-1684 | any such items that are families under a root that stands alone make up a linked tree: walking works on every one |
| TreeUpdates.KidsSwapped | contrib/fltk/src/Fl_Tree_Item_Array.cxx:226-238 | after a swap each of the two children, with all below it, is where the other was, and every other child where it was |
| TreeUpdates.KidsMoved | contrib/fltk/src/Fl_Tree_Item_Array.cxx:249-266 | where every child is after a move |
| TreeUpdates.KidsWithout | contrib/fltk/src/Fl_Tree_Item_Array.cxx:185-208 | where every child is after a removal |
| TreeUpdates.KidsWith | contrib/fltk/src/Fl_Tree_Item_Array.cxx:127-146 | where every child is after an insertion |
| TreeUpdates.UpdateElsewhere | contrib/fltk/src/Fl_Tree_Item_Array.cxx:127-266 | away from the item whose children change, every subtree is as before |
| TreeEdits.InsertChild | contrib/fltk/src/Fl_Tree_Item.cxx:445-456 | a linked tree becomes the linked tree with the new item among those children, place clipped |
| TreeEdits.RemoveChild | contrib/fltk/src/Fl_Tree_Item.cxx:674-684 | a linked tree becomes the linked tree without that subtree |
| TreeEdits.SwapChildren | contrib/fltk/src/Fl_Tree_Item.cxx:712-714 | ... with the two subtrees exchanged |
| TreeEdits.MoveChild | contrib/fltk/src/Fl_Tree_Item.cxx:513-515 | ... with the subtree at the place asked for |
| TreeEdits.DeparentChild | contrib/fltk/src/Fl_Tree_Item.cxx:486-490 | ... without the subtree, which is a linked tree of its own that shares no item |
| TreeEdits.ReparentChild | contrib/fltk/src/Fl_Tree_Item.cxx:499-504 | ... with another linked tree grafted at that place, or -1 and nothing |
| TreeEdits.MoveAmong | contrib/fltk/src/Fl_Tree_Item.cxx:533-566 | moving among siblings gives the linked tree with the children in the new order, for every operation |
| TreeEdits.MoveAway | contrib/fltk/src/Fl_Tree_Item.cxx:533-578 | moving into a family that is not below the item gives the linked tree with the subtree there |
| TreeEdits.MoveInside | contrib/fltk/src/Fl_Tree_Item.cxx:533-578 | moving below itself gives the linked tree without the subtree, and leaves a loop of parents through the item |
| TreeEdits.LoopInNoTree | contrib/fltk/src/Fl_Tree_Item.cxx:533-578 | an item on such a loop is in no linked tree: so a moved item stays in the tree if and only if the new parent is not below it |
| TreeRuns.Find | contrib/fltk/FL/Fl_Tree_Item.H:236-238 | going down by child numbers finds the item of that path, or nothing |
| TreeRuns.SwapStep | contrib/fltk/src/Fl_Tree_Item.cxx:712-714 | what a swap in a run does to each child of the item it names; nothing for numbers out of range |
| TreeRuns.RemoveStep | contrib/fltk/src/Fl_Tree_Item.cxx:674-683 | what a removal does to each child |
| TreeRuns.MoveStep | contrib/fltk/src/Fl_Tree_Item.cxx:513-515 | what a move among siblings does to each child |
| TreeRuns.InsertStep | contrib/fltk/src/Fl_Tree_Item.cxx:445-456 | what an insertion does to each child: the new one has no children and was nowhere in the tree |
| TreeRuns.StepElsewhere | contrib/fltk/src/Fl_Tree_Item.cxx:445-714 | none of these changes anything away from that item |
| TreeRuns.SiblingStep | contrib/fltk/src/Fl_Tree_Item.cxx:533-578 | moved above or below a sibling, an item stands directly above or below it |
| TreeRuns.ForeignStep | contrib/fltk/src/Fl_Tree_Item.cxx:533-578 | moved into another family, an item stands at the place asked for, which is directly above the item named |
| TreeRuns.IntoOwnStep | contrib/fltk/src/Fl_Tree_Item.cxx:533-578 | moved into the parent it has, an item stands at the place asked for |
| TreeRuns.InsideStep | contrib/fltk/src/Fl_Tree_Item.cxx:533-578 | moved below itself, exactly the items of the subtree are no longer in the tree |
| TreeRuns.RunEdits | contrib/fltk/src/Fl_Tree_Item.cxx:445-578 | through every run of insertions, removals, swaps and moves, whatever items and places they name, the tree stays linked and each step is the change it says |
| FileIcons.HalvesGiveColor | contrib/fltk/FL/Fl_File_Icon.H:89-90 | every 32-bit colour comes back from its two truncated halves, and every pair of words is the halves of one colour |
| FileIcons.SignIsCarried | contrib/fltk/FL/Fl_File_Icon.H:98-99 | a word is read as two's complement |
| FileIcons.FitsIs | contrib/fltk/FL/Fl_File_Icon.H:98-99 | the coordinates that fit 16 bits are -32768 to 32767, in two's complement |
| FileIcons.ShortComesBack | contrib/fltk/FL/Fl_File_Icon.H:98-99 | a coordinate comes back if and only if it fits 16 bits |
| FileIcons.FileIcon.constructor | contrib/fltk/src/Fl_File_Icon.cxx:82-108 | the given words, or none |
| FileIcons.FileIcon.Add | contrib/fltk/src/Fl_File_Icon.cxx:144-171 | the stream grows by that word through reallocations, an END is kept behind it, and its place is returned |
| FileIcons.FileIcon.AddColor | contrib/fltk/FL/Fl_File_Icon.H:89-90 | the stream grows by the encoding of a colour command |
| FileIcons.FileIcon.AddVertex | contrib/fltk/FL/Fl_File_Icon.H:98-99 | the stream grows by the encoding of a vertex command |
| FileIcons.FileIcon.Clear | contrib/fltk/FL/Fl_File_Icon.H:112-112 | the stream is empty |
| FileIcons.EncodeConcat | contrib/fltk/FL/Fl_File_Icon.H:69-109 | encoding distributes over concatenation |
| FileIcons.DecodeAfter | contrib/fltk/FL/Fl_File_Icon.H:69-109 | decoding distributes over concatenation: operands equal to opcodes are never read as opcodes |
| FileIcons.DecodeEncode | contrib/fltk/FL/Fl_File_Icon.H:69-109 | encoding and decoding any storable commands is the identity |
| FileIcons.EncodeDecode | contrib/fltk/FL/Fl_File_Icon.H:69-109 | every stream that decodes is the encoding of what it decodes to |
| FileIcons.TruncatedIff | contrib/fltk/FL/Fl_File_Icon.H:69-109 | a stream fails to decode if and only if it stops inside the operands of a last command |
| FileIcons.FileIcon.Draw | contrib/fltk/src/Fl_File_Icon.cxx:247-443 | the interpreter's calls are those its commands mean, for every stream not cut off inside a command; the outline read a second time from the data is made of the leading vertices |
| FileIcons.FileIcon.DrawRun | contrib/fltk/src/Fl_File_Icon.cxx:325-334 | the second reading of an outline stays inside the data and reads exactly the leading vertices |
| FileIcons.DrawingBrackets | contrib/fltk/src/Fl_File_Icon.cxx:247-443 | every begin call is matched by its own end call if and only if no primitive starts inside another and the stream does not stop inside a polygon |
| IconDrawings.DrawnFirst | contrib/fltk/src/Fl_File_Icon.cxx:261-284 | drawing begins with the icon's colour, dimmed if the icon is inactive; without words nothing is drawn |
| IconDrawings.DrawnInOrder | contrib/fltk/src/Fl_File_Icon.cxx:286-389 | the calls of the commands come in their order |
| IconDrawings.DrawnVertex | contrib/fltk/src/Fl_File_Icon.cxx:381-385 | a vertex inside a primitive draws x from its first operand and y from its second, outside it draws nothing |
| IconDrawings.DrawnColor | contrib/fltk/src/Fl_File_Icon.cxx:343-355 | a colour command sets the colour of its two words, the icon's own for 0xffffffff, dimmed if and only if the icon is inactive |
| IconDrawings.DrawnBegin | contrib/fltk/src/Fl_File_Icon.cxx:357-388 | which call each of the four beginnings makes; any other word makes none |
| IconDrawings.DrawnEnd | contrib/fltk/src/Fl_File_Icon.cxx:289-341 | an end closes the primitive with the call for its kind; an outlined polygon is then outlined in its own colour through exactly the vertices that directly follow its command, in order, and the pen's colour is set again |
| IconDrawings.DrawnNoEnd | contrib/fltk/src/Fl_File_Icon.cxx:289-341 | an end outside all primitives draws nothing |
| IconDrawings.DrawnLast | contrib/fltk/src/Fl_File_Icon.cxx:391-439 | a stream that ends inside a primitive closes it with the other call, with the same outline |
| IconDrawings.DrawnAll | contrib/fltk/src/Fl_File_Icon.cxx:391-439 | one that ends outside adds nothing |
| IconDrawings.PenColor | contrib/fltk/src/Fl_File_Icon.cxx:279-355 | the pen's colour is the last one a command has set, before any the icon's colour undimmed |
| IconDrawings.OutlineBrightens | contrib/fltk/src/Fl_File_Icon.cxx:279-341 | so an outline before any colour command leaves an inactive icon in the undimmed colour; the colour it began with is the same if and only if the icon is active or dimming does nothing |
| Spinners.TypedIsNearest | contrib/fltk/FL/Fl_Spinner.H:63-97 | a typed value in range is stored as it is, any other becomes the nearest value of the range |
| Spinners.ButtonSteps | contrib/fltk/FL/Fl_Spinner.H:63-97 | a button makes one step if there is room, and otherwise goes to the other end |
| Spinners.StepInRange | contrib/fltk/FL/Fl_Spinner.H:63-97 | when one event leaves the range |
| Spinners.RunsStayInRange | contrib/fltk/FL/Fl_Spinner.H:63-97 | with minimum <= maximum and step >= 0 every run from a value in range, or with something typed anywhere in it, ends in range |
| Spinners.UpsFromMinimum | contrib/fltk/FL/Fl_Spinner.H:77-84 | n presses of Up from the minimum: minimum + (n mod P) * step |
| Spinners.DownsFromMaximum | contrib/fltk/FL/Fl_Spinner.H:85-93 | n presses of Down from the maximum: maximum - (n mod P) * step |
| Spinners.ButtonsUndo | contrib/fltk/FL/Fl_Spinner.H:77-93 | exactly for which values one button takes back the other |
| Spinners.ButtonsUndoOnGrid | contrib/fltk/FL/Fl_Spinner.H:77-93 | on the grid Up always takes back Down; Down takes back Up everywhere if and only if the step divides the range |
| Spinners.ButtonsGoAround | contrib/fltk/FL/Fl_Spinner.H:77-93 | when it does, any run of presses adds its net number of steps around the grid |
| Spinners.Spinner.Callback | contrib/fltk/FL/Fl_Spinner.H:63-97 | the new value for each event |
| Spinners.EndsInZeros | contrib/fltk/FL/Fl_Spinner.H:101-111 | a number is divisible by a power of ten if and only if its last digits are zeros |
| Spinners.NeededIsLeast | contrib/fltk/FL/Fl_Spinner.H:101-111 | the number found is the least number of decimals that gives the printed step exactly |
| Spinners.Decimals | contrib/fltk/FL/Fl_Spinner.H:101-111 | the scans stay inside the buffer and find that number |
| HelpFontStacks.BalancedKeeps | contrib/fltk/FL/Fl_Help_View.H:109-119 | balanced pushes and pops change no entry below and cut the stack to what fits beside them |
| HelpFontStacks.BalancedRestores | contrib/fltk/FL/Fl_Help_View.H:109-119 | they restore the stack if and only if all of them fit in 100 entries, or only one entry was there |
| HelpFontStacks.PushesThenPops | contrib/fltk/FL/Fl_Help_View.H:109-119 | m pushes and m pops from depth k end at depth max(0, min(99, k + m) - m), with the entries that were there |
| HelpFontStacks.HelpFontStack.Init | contrib/fltk/FL/Fl_Help_View.H:100-105 | one entry, which is what is drawn with |
| HelpFontStacks.HelpFontStack.Top | contrib/fltk/FL/Fl_Help_View.H:107-107 | the top, which is what is drawn with |
| HelpFontStacks.HelpFontStack.Push | contrib/fltk/FL/Fl_Help_View.H:109-113 | the new stack, in bounds, and the new style drawn with |
| HelpFontStacks.HelpFontStack.Pop | contrib/fltk/FL/Fl_Help_View.H:115-119 | the new stack, in bounds, and the style drawn with is its top |
| HelpFontStacks.HelpFontStack.Count | contrib/fltk/FL/Fl_Help_View.H:121-121 | one less than the number of entries |
| Vectors.Vector.Resize | contrib/fltk/FL/Fl_Table.H:246-251 | what fits is kept, the size is the one asked for |
| Vectors.Vector.PushBack | contrib/fltk/FL/Fl_Table.H:253-253 | one more element at the end |
| Vectors.Vector.PopBack | contrib/fltk/FL/Fl_Table.H:252-252 | the last element, and the rest stays |
| Vectors.Vector.Assign | contrib/fltk/FL/Fl_Table.H:238-242 | the other vector's elements; nothing when assigned to itself |
| Tables.ScrollPosIsRight | contrib/fltk/src/Fl_Table.cxx:61-92 | starting from the remembered position gives the plain sum of sizes if and only if it is not used or is itself right |
| Tables.Axis.ScrollPosition | contrib/fltk/src/Fl_Table.cxx:61-92 | the loop computes that position |
| Tables.Axis.Size | contrib/fltk/FL/Fl_Table.H:753-769 | the height of a row or width of a column, 0 for one that is not there |
| Tables.Axis.Rescan | contrib/fltk/src/Fl_Table.cxx:513-546 | first and last row and remembered position for a scroll offset, and likewise for columns |
| Tables.Axis.Rebound | contrib/fltk/src/Fl_Table.cxx:555-593 | the total size, the end of the scrollbar and the clamped scroll offset |
| Tables.Axis.SetCount | contrib/fltk/src/Fl_Table.cxx:610-644 | sizes cut off, or filled with the last one |
| Tables.HeightComesBack | contrib/fltk/src/Fl_Table.cxx:169-190 | a height set is got back if and only if the row exists (or the height is 0); no other row changes |
| Tables.WidthComesBack | contrib/fltk/src/Fl_Table.cxx:193-216 | a width set is always got back |
| Tables.Table.constructor | contrib/fltk/src/Fl_Table.cxx:95-155 | an empty table whose remembered numbers are right |
| Tables.Table.TableScrolled | contrib/fltk/src/Fl_Table.cxx:513-546 | both axes are scanned again |
| Tables.Table.TableResized | contrib/fltk/src/Fl_Table.cxx:555-599 | both axes are taken again and scanned |
| Tables.Table.SetRowHeight | contrib/fltk/src/Fl_Table.cxx:169-190 | the whole new state of both axes |
| Tables.Table.SetColWidth | contrib/fltk/src/Fl_Table.cxx:193-216 | the whole new state of both axes, new columns filled with the width |
| Tables.Table.SetRows | contrib/fltk/src/Fl_Table.cxx:610-630 | the whole new state, new rows as high as the last |
| Tables.Table.SetCols | contrib/fltk/src/Fl_Table.cxx:632-644 | the whole new state, new columns as wide as the last |
| Tables.Table.ScrollDownTo | contrib/fltk/src/Fl_Table.cxx:602-607 | the rows and columns for a moved vertical scrollbar |
| Tables.Table.ScrollAcrossTo | contrib/fltk/src/Fl_Table.cxx:602-607 | the same for the horizontal one |
| Tables.Table.SetRowPosition | contrib/fltk/src/Fl_Table.cxx:29-42 | the scroll offset and rows for a row brought to the top; the columns are scanned again too |
| Tables.Table.SetColPosition | contrib/fltk/src/Fl_Table.cxx:45-58 | the same for a column |
| Tables.HeightsAfter | contrib/fltk/src/Fl_Table.cxx:169-190 | the height of every row after row_height |
| Tables.WidthsAfter | contrib/fltk/src/Fl_Table.cxx:193-216 | the width of every column after col_width |
| Tables.SizesAfterCount | contrib/fltk/src/Fl_Table.cxx:610-644 | rows that stay keep their size, new ones get that of the last one or the default |
| Tables.StepSizes | contrib/fltk/src/Fl_Table.cxx:29-1084 | which sizes and counts each operation changes, and to what |
| Tables.ResizedScroll | contrib/fltk/src/Fl_Table.cxx:555-599 | after a resize the scroll offset is kept if the new scrollbar has it, and is otherwise the nearest it has; a table smaller than its window goes back to 0 |
| Tables.StepResizes | contrib/fltk/src/Fl_Table.cxx:169-1084 | every operation but scrolling resizes both axes so, unless the size set is already there |
| Tables.StepScrolls | contrib/fltk/src/Fl_Table.cxx:602-607 | a moved scrollbar gives its axis the new offset, the other keeps its own |
| Tables.ScrolledAsks | contrib/fltk/src/Fl_Table.cxx:513-553 | the first row in the window counts as the one asked for, and scanning changes no offset and no size |
| Tables.ScrolledPast | contrib/fltk/src/Fl_Table.cxx:513-528 | past the end the last row counts as first and last in the window |
| Tables.RowBrought | contrib/fltk/src/Fl_Table.cxx:29-42 | the offset and the row remembered after a row is brought to the top, and when nothing happens |
| Tables.ColBrought | contrib/fltk/src/Fl_Table.cxx:45-58 | the same for a column |
| Tables.ScrolledRows | contrib/fltk/src/Fl_Table.cxx:513-528 | the first row is the one at the offset, the last the last that begins inside the window |
| Tables.ScrolledPosition | contrib/fltk/src/Fl_Table.cxx:513-528 | the remembered position is the start of the first row if and only if there is a row at the offset or the last one has no height |
| Tables.ResizedIsAccurate | contrib/fltk/src/Fl_Table.cxx:555-599 | a resize leaves an axis right if and only if it computes the total right |
| Tables.PositionedIsAccurate | contrib/fltk/src/Fl_Table.cxx:29-58 | bringing a row to the top, or a column to the left, always leaves its axis right |
| Tables.StepAccurate | contrib/fltk/src/Fl_Table.cxx:29-1084 | an operation keeps both axes right if and only if a size changes only from the first row or column in the window on and a scrollbar stays before the end |
| Tables.RunsStayAccurate | contrib/fltk/src/Fl_Table.cxx:29-1084 | they stay right over every run of such operations, plain resizes included |
| Tables.TotalDrifts | contrib/fltk/src/Fl_Table.cxx:169-190 | after a height above the first row changes the total height is off by exactly the change |
| Tables.PositionedRow | contrib/fltk/src/Fl_Table.cxx:29-42 | a row comes to the top if and only if enough follows it to fill the window |
| Tables.RedrawnIsLeast | contrib/fltk/FL/Fl_Table.H:455-472 | after any non-empty sequence of requests the stored rectangle is the least that has them all |
| Tables.RedrawnIgnoresOrder | contrib/fltk/FL/Fl_Table.H:455-472 | neither their order nor repetition matters |
| Tables.MinusOneIsForgotten | contrib/fltk/FL/Fl_Table.H:455-472 | a request whose top row is -1 is forgotten by the next |
| Tables.ZoneCells | contrib/fltk/src/Fl_Table.cxx:654-678 | a cell is asked to be redrawn if and only if it is visible and between the given cells |
| Tables.Damage.RedrawRange | contrib/fltk/FL/Fl_Table.H:455-472 | the stored rectangle widens by the request |
| Tables.Damage.DamageZone | contrib/fltk/src/Fl_Table.cxx:654-678 | it widens by the visible zone, or not at all |
| TableRows.SelectedRow | contrib/fltk/src/Fl_Table_Row.cxx:78-116 | the flag of the selected row: the value given as a character, or flipped in its lowest bit for 2; nothing changes without such a row or in a table without selection |
| TableRows.SelectedAll | contrib/fltk/src/Fl_Table_Row.cxx:122-149 | every row so, in a table with multiple selection or when a single selection is dropped; otherwise nothing changes |
| TableRows.ModeSet | contrib/fltk/src/Fl_Table_Row.cxx:39-64 | a new mode drops all flags, all but the first set one, or none |
| TableRows.RowsKept | contrib/fltk/src/Fl_Table_Row.cxx:152-163 | rows that stay keep their flags, new rows are not selected |
| TableRows.StepKeepsMode | contrib/fltk/src/Fl_Table_Row.cxx:39-156 | every operation keeps the number of selected rows the mode allows |
| TableRows.RunsKeepMode | contrib/fltk/src/Fl_Table_Row.cxx:39-156 | no reachable state has two rows selected in SELECT_SINGLE or one in SELECT_NONE |
| TableRows.KeepFirstAt | contrib/fltk/src/Fl_Table_Row.cxx:49-60 | entering SELECT_SINGLE keeps the first selected row as it was and clears the others |
| TableRows.SelectKeepsBits | contrib/fltk/src/Fl_Table_Row.cxx:78-119 | flags stay 0 or 1, as documented, if and only if the argument is 2, or is 0 or 1 as a character |
| TableRows.RunsKeepBits | contrib/fltk/src/Fl_Table_Row.cxx:39-156 | with such arguments they do over every run |
| TableRows.ToggleFlips | contrib/fltk/src/Fl_Table_Row.cxx:78-119 | a toggle changes whether a row is selected if and only if its flag is 0 or 1 |
| TableRows.OthersAfterSelect | contrib/fltk/src/Fl_Table_Row.cxx:78-119 | no other row stays selected in SELECT_SINGLE, none changes in SELECT_MULTI |
| TableRows.TableRow.RowSelected | contrib/fltk/src/Fl_Table_Row.cxx:33-36 | the flag, -1 out of range |
| TableRows.TableRow.SetType | contrib/fltk/src/Fl_Table_Row.cxx:39-64 | the flags after a change of mode |
| TableRows.TableRow.SelectRow | contrib/fltk/src/Fl_Table_Row.cxx:78-119 | the flags, and whether the row changed, did not change or cannot be selected |
| TableRows.TableRow.SelectAllRows | contrib/fltk/src/Fl_Table_Row.cxx:122-149 | the flags, and whether anything has to be redrawn |
| TableRows.TableRow.SetRows | contrib/fltk/src/Fl_Table_Row.cxx:152-156 | rows are added unselected or cut off, one flag per row |

## Left out

- Text buffer: file input and output, transcoding, searching for strings, words, and
  displayed characters.
- Text buffer: listeners are one ghost log that sees every callback in order; adding and removing
  listeners, and listeners that call back into the buffer, are not modelled.
- Text buffer: the undo bytes are a sequence, so the growth of their storage is not modelled; bytes
  are 1 to 255, a NUL inside the text is not.
- TextBuffers.TextBuffer.Replace: asks for a range that is in order after clipping, because the
  source hands a reversed one to a copy of negative length.
- TextBuffers.TextBuffer.TextRange: asks for an end that is not negative when the start is inside the
  text, because the source then copies from before its array.
- TextBuffers.TextBuffer.Undo: asks that a stale record of an insertion still lies in order in the
  text, for the same reason; UndoDefinedAfterSetText tells when it does, and UndoReturnsToThePast
  proves it for every run that leaves a reliable record.
- TextBuffers.TextBuffer.CountLines: positions start at 0 or later, as the array index does.
- Browsers.Browser.Lineno: the node has to be in the list; for any other the source does not end.
- Browsers.Browser.Insert: the lookup on the way has to find a line that is not the first, and for
  Remove, Move and SetText any line; otherwise the source follows a null pointer.
- Browsers: item heights, hidden lines, icons, columns and the notifications of the base class.
- CheckBrowsers.CheckBrowser.ItemSelect: the event handling around a click.
- TreeItems.SelectAll: recalculation of the tree's geometry and callbacks are not modelled.
- TreeFamilies.MoveItem: the calls on a null pointer (CallsOnNull) are left out; the error branches -5
  and -6 cannot be reached.
- TreeFamilies.Insert: the array's growth in chunks is a sequence here, the items are the managed kind.
- FileIcons.FileIcon.Draw: asks for a stream that is not cut off inside a command, because the source
  reads past the end of any other; dimming of colours is a parameter, the transformation matrix and
  failed allocations are not modelled.
- FileIcons.FileIcon.AddVertex: the version for fractions, which multiplies by 10000 and truncates.
- Spinners: numbers are reals, not doubles; the text typed and the printed step are given, `atof` and
  `sprintf` are not modelled.
- Spinners.Decimals: the printed step has to fit its buffer of 64 characters.
- HelpFontStacks: the uninitialised entry of a stack popped before `init`.
- Vectors.Vector.Resize: elements that are new have any value, as after `realloc`.
- Tables: drawing, dragging and the dimensions of the window, whose visible height and width are
  parameters.
- Tables.Table.SetRowHeight: the write past the end of the vector is lost here instead of hitting
  other memory.
- Tables.RedrawnIsLeast: for requests with top rows from 0 up; MinusOneIsForgotten shows the other case.
- TableRows.TableRow.SetRows: negative row counts, for which the source runs below its vector.
- Everything else of the repository: drawing, events, windows, printing, menus, images and the
  preferences are declarations, platform calls or easy accessors.
