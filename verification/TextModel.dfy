/** The text buffer as a value: text, three selections, the undo record and the notifications
    sent so far. Every operation of the buffer is a function here; TextBuffer.dfy proves that
    the gap buffer computes exactly these, and TextHistory.dfy proves what they promise. */
module TextModel {
  import opened Integers
  import opened TextSpec
  import opened Selections

  /** A call made to a registered callback. `seen` is the text a modify callback finds in the
      buffer when it is called; a null deletedText is []. */
  datatype Notice =
    | Predelete(pos: int, nDeleted: int)
    | Modified(at: int, nInserted: int, nRemoved: int, nRestyled: int, deletedText: Text, seen: Text)

  /** The file-scope undo variables. `mine` says that undowidget is this buffer. `store` is the
      valid part of the undo bytes. */
  datatype UndoFields = UndoFields(mine: bool, at: int, cut: nat, inserted: nat, yankcut: nat, store: Text)

  ghost predicate UndoFieldsOk(u: UndoFields)
  {
    u.cut <= |u.store| && u.yankcut <= |u.store|
    && (u.inserted > 0 ==> u.cut == 0) && (u.inserted == 0 ==> u.yankcut == 0)
  }

  datatype Which = Primary | Secondary | Highlight

  datatype Doc = Doc(
    text: Text,
    primary: Range,
    secondary: Range,
    highlight: Range,
    undo: UndoFields,
    canUndo: bool,
    hint: int,
    notices: seq<Notice>)

  ghost predicate DocOk(d: Doc)
  {
    UndoFieldsOk(d.undo)
  }

  function Sel(d: Doc, w: Which): Range
  {
    match w
    case Primary => d.primary
    case Secondary => d.secondary
    case Highlight => d.highlight
  }

  function SetSel(d: Doc, w: Which, r: Range): Doc
  {
    match w
    case Primary => d.(primary := r)
    case Secondary => d.(secondary := r)
    case Highlight => d.(highlight := r)
  }

  function UpdateSelections(d: Doc, pos: int, nDeleted: int, nInserted: int): Doc
  {
    d.(primary := UpdateRange(d.primary, pos, nDeleted, nInserted),
    secondary := UpdateRange(d.secondary, pos, nDeleted, nInserted),
    highlight := UpdateRange(d.highlight, pos, nDeleted, nInserted))
  }

  function Tell(d: Doc, ns: seq<Notice>): Doc
  {
    d.(notices := d.notices + ns)
  }

  // ----- the internal edits

  function NoteInsert(u: UndoFields, pos: int, n: nat): UndoFields
  {
    if u.mine && u.at == pos && u.inserted > 0 then
      u.(inserted := u.inserted + n, at := pos + n, cut := 0)
    else
      UndoFields(true, pos + n, 0, n, if u.at == pos then u.cut else 0, u.store)
  }

  function NoteRemove(u: UndoFields, start: int, end: int, gone: Text): UndoFields
    requires u.cut <= |u.store| && |gone| == end - start
  {
    if u.mine && u.at == end && u.cut > 0 then
      UndoFields(true, start, u.cut + (end - start), 0, 0, gone + u.store[..u.cut])
    else
      UndoFields(true, start, end - start, 0, 0, gone)
  }

  function InsertRaw(d: Doc, pos: int, t: Text): (r: Doc)
    requires DocOk(d) && 0 <= pos <= |d.text|
    ensures DocOk(r)
  {
    if t == [] then d
    else
      var d1 := UpdateSelections(d.(text := Splice(d.text, pos, pos, t)), pos, 0, |t|);
      if d.canUndo then d1.(undo := NoteInsert(d.undo, pos, |t|)) else d1
  }

  function RemoveRaw(d: Doc, start: int, end: int): (r: Doc)
    requires DocOk(d) && 0 <= start <= end <= |d.text|
    ensures DocOk(r)
  {
    var d1 := UpdateSelections(d.(text := Splice(d.text, start, end, [])), start, end - start, 0);
    if d.canUndo then d1.(undo := NoteRemove(d.undo, start, end, d.text[start..end])) else d1
  }

  // ----- the public edits

  function InsertAt(d: Doc, pos: int, t: Text): (r: Doc)
    requires DocOk(d) && 0 <= pos <= |d.text|
    ensures DocOk(r)
  {
    var d1 := InsertRaw(Tell(d, [Predelete(pos, 0)]), pos, t).(hint := pos + |t|);
    Tell(d1, [Modified(pos, |t|, 0, 0, [], d1.text)])
  }

  function RemoveBetween(d: Doc, s: int, e: int): (r: Doc)
    requires DocOk(d) && 0 <= s <= e <= |d.text|
    ensures DocOk(r)
  {
    var d1 := RemoveRaw(Tell(d, [Predelete(s, e - s)]), s, e).(hint := s);
    Tell(d1, [Modified(s, 0, e - s, 0, d.text[s..e], d1.text)])
  }

  function ReplaceBetween(d: Doc, s: int, e: int, t: Text): (r: Doc)
    requires DocOk(d) && 0 <= s <= e <= |d.text|
    ensures DocOk(r)
  {
    var d1 := RemoveRaw(Tell(d, [Predelete(s, e - s)]), s, e);
    var d2 := InsertRaw(d1, s, t).(hint := s + |t|);
    Tell(d2, [Modified(s, |t|, e - s, 0, d.text[s..e], d2.text)])
  }

  lemma ReplaceSteps(d: Doc, s: int, e: int, t: Text)
    requires DocOk(d) && 0 <= s <= e <= |d.text|
    ensures var d0 := Tell(d, [Predelete(s, e - s)]);
            && DocOk(d0) && e <= |d0.text|
            && s <= |RemoveRaw(d0, s, e).text|
            && var d2 := InsertRaw(RemoveRaw(d0, s, e), s, t).(hint := s + |t|);
            ReplaceBetween(d, s, e, t) == Tell(d2, [Modified(s, |t|, e - s, 0, d.text[s..e], d2.text)])
  {
  }

  /** A position brought into the text. */
  function Clip(d: Doc, pos: int): (p: int)
    ensures 0 <= p <= |d.text|
  {
    Max(0, Min(pos, |d.text|))
  }

  function InsertDoc(d: Doc, pos: int, t: CString): (r: Doc)
    requires DocOk(d)
    ensures DocOk(r)
  {
    if t.NullString? || t.chars == [] then d else InsertAt(d, Clip(d, pos), t.chars)
  }

  function RemoveDoc(d: Doc, start: int, end: int): (r: Doc)
    requires DocOk(d)
    ensures DocOk(r)
  {
    var s, e := Clip(d, Min(start, end)), Clip(d, Max(start, end));
    if s == e then d else RemoveBetween(d, s, e)
  }

  /** replace clips only the outer ends of its range. */
  predicate ReplaceDefined(d: Doc, start: int, end: int)
  {
    Max(start, 0) <= Min(end, |d.text|)
  }

  function ReplaceDoc(d: Doc, start: int, end: int, t: CString): (r: Doc)
    requires DocOk(d)
    requires t.Chars? ==> ReplaceDefined(d, start, end)
    ensures DocOk(r)
  {
    if t.NullString? then d else ReplaceBetween(d, Max(start, 0), Min(end, |d.text|), t.chars)
  }

  /** The whole text is exchanged. The undo record is not touched. */
  function SetTextDoc(d: Doc, t: CString): (r: Doc)
    requires DocOk(d)
    ensures DocOk(r)
  {
    var s := if t.NullString? then [] else t.chars;
    var n := |d.text|;
    var d1 := UpdateSelections(Tell(d, [Predelete(0, n)]).(text := s), 0, n, 0);
    Tell(d1, [Modified(0, |s|, n, 0, d.text, s)])
  }

  /** Text copied in from a buffer: neither recorded for undo nor announced. */
  function CopyDoc(d: Doc, toPos: int, t: Text): (r: Doc)
    requires DocOk(d) && 0 <= toPos <= |d.text|
    ensures DocOk(r)
  {
    UpdateSelections(d.(text := Splice(d.text, toPos, toPos, t)), toPos, 0, |t|)
  }

  function TabDistanceDoc(d: Doc): (r: Doc)
    requires DocOk(d)
    ensures DocOk(r)
  {
    var n := |d.text|;
    Tell(d, [Predelete(0, n), Modified(0, n, n, 0, d.text, d.text)])
  }

  // ----- selections

  /** The areas whose look changes when a selection changes. */
  function Redisplay(old': Range, new': Range, seen: Text): seq<Notice>
  {
    if !old'.selected && !new'.selected then []
    else if !old'.selected then [Restyle(new'.start, new'.end, seen)]
    else if !new'.selected then [Restyle(old'.start, old'.end, seen)]
    else if old'.end < new'.start || new'.end < old'.start then
      [Restyle(old'.start, old'.end, seen), Restyle(new'.start, new'.end, seen)]
    else
      (if old'.start == new'.start then []
       else [Restyle(Min(old'.start, new'.start), Max(old'.start, new'.start), seen)])
      + (if old'.end == new'.end then []
         else [Restyle(Min(old'.end, new'.end), Max(old'.end, new'.end), seen)])
  }

  function Restyle(a: int, b: int, seen: Text): Notice
  {
    Modified(a, 0, 0, b - a, [], seen)
  }

  function SelectDoc(d: Doc, w: Which, start: int, end: int): (r: Doc)
  {
    var n := MakeRange(start, end);
    Tell(SetSel(d, w, n), Redisplay(Sel(d, w), n, d.text))
  }

  function UnselectDoc(d: Doc, w: Which): (r: Doc)
  {
    var n := Sel(d, w).(selected := false);
    Tell(SetSel(d, w, n), Redisplay(Sel(d, w), n, d.text))
  }

  function RemoveSelectionDoc(d: Doc, w: Which): (r: Doc)
    requires DocOk(d)
    ensures DocOk(r)
  {
    var s := Sel(d, w);
    if !s.selected then d else RemoveDoc(d, s.start, s.end)
  }

  function ReplaceSelectionDoc(d: Doc, w: Which, t: CString): (r: Doc)
    requires DocOk(d)
    requires Sel(d, w).selected && t.Chars? ==> ReplaceDefined(d, Sel(d, w).start, Sel(d, w).end)
    ensures DocOk(r)
  {
    var s := Sel(d, w);
    if !s.selected then d
    else
      var d1 := ReplaceDoc(d, s.start, s.end, t);
      var n := Sel(d1, w).(selected := false);
      Tell(SetSel(d1, w, n), Redisplay(s, n, d1.text))
  }

  // ----- undo

  function CanUndoDoc(d: Doc, flag: bool): Doc
  {
    d.(canUndo := flag, undo := if flag then d.undo else d.undo.(mine := false))
  }

  /** Number of stored bytes that undo puts back. */
  function PutBack(u: UndoFields): nat
  {
    if u.inserted > 0 && u.yankcut > 0 && u.cut == 0 then u.yankcut else u.cut
  }

  predicate UndoIgnored(d: Doc)
  {
    !d.undo.mine || (d.undo.cut == 0 && d.undo.inserted == 0 && !d.canUndo)
  }

  /** Where the code hands a range to replace, the range has to make sense there. */
  predicate UndoDefined(d: Doc)
  {
    !UndoIgnored(d) && d.undo.inserted > 0 && PutBack(d.undo) > 0
    ==> ReplaceDefined(d, d.undo.at - d.undo.inserted, d.undo.at)
  }

  function UndoDoc(d: Doc): (r: Doc)
    requires DocOk(d) && UndoDefined(d)
    ensures DocOk(r)
  {
    var u := d.undo;
    var ilen := PutBack(u);
    if UndoIgnored(d) then d
    else if u.inserted > 0 && ilen > 0 then
      ReplaceDoc(d, u.at - u.inserted, u.at, Chars(u.store[..ilen]))
    else if u.inserted > 0 then RemoveDoc(d, u.at - u.inserted, u.at)
    else if ilen > 0 then
      var d1 := InsertDoc(d, u.at, Chars(u.store[..ilen]));
      d1.(undo := d1.undo.(yankcut := 0))
    else d
  }

  // ----- where an edit leaves the gap

  function InsertGap(d: Doc, gap: int, pos: int, t: CString): int
  {
    if t.NullString? || t.chars == [] then gap else Clip(d, pos) + |t.chars|
  }

  function RemoveGap(d: Doc, gap: int, start: int, end: int): int
  {
    var s, e := Clip(d, Min(start, end)), Clip(d, Max(start, end));
    if s == e then gap else s
  }

  function ReplaceGap(d: Doc, gap: int, start: int, t: CString): int
  {
    if t.NullString? then gap else Max(start, 0) + |t.chars|
  }

  function UndoGap(d: Doc, gap: int): int
    requires DocOk(d)
  {
    var u := d.undo;
    var t := Chars(u.store[..PutBack(u)]);
    if UndoIgnored(d) then gap
    else if u.inserted > 0 && PutBack(u) > 0 then ReplaceGap(d, gap, u.at - u.inserted, t)
    else if u.inserted > 0 then RemoveGap(d, gap, u.at - u.inserted, u.at)
    else InsertGap(d, gap, u.at, t)
  }
}
