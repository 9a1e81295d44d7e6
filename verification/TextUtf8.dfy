/** Edits of UTF-8 text at character boundaries, over whole runs: the text stays well formed, the
    gap never cuts a character, and undo stays on boundaries too. */
module TextUtf8 {
  import opened Integers
  import opened TextSpec
  import opened Selections
  import opened TextModel
  import opened TextHistory
  import opened TextSelections
  import opened TextUndo
  import opened Utf8
  import opened SelectionUtf8

  /** The text is well formed and the gap stands between two characters. */
  ghost predicate TextUtf8Ok(d: Doc, gap: int)
  {
    WellFormed(d.text) && Boundary(d.text, gap)
  }

  /** The bytes on record are whole characters, whoever removed them. */
  ghost predicate RecordUtf8Ok(d: Doc)
  {
    DocOk(d) && (d.undo.mine ==> d.canUndo)
    && WellFormed(d.undo.store[..d.undo.cut]) && WellFormed(d.undo.store[..PutBack(d.undo)])
  }

  /** This buffer's record begins and ends between characters of the text. */
  ghost predicate RecordAligned(d: Doc)
  {
    d.undo.mine ==>
      RecordInRange(d) && Boundary(d.text, d.undo.at - d.undo.inserted) && Boundary(d.text, d.undo.at)
  }

  ghost predicate RangeAligned(d: Doc, s: int, e: int)
  {
    Boundary(d.text, Clip(d, s)) && Boundary(d.text, Clip(d, e))
  }

  /** The positions and texts handed to the buffer respect characters. */
  ghost predicate Aligned(d: Doc, op: Op)
  {
    match op
    case Insert(p, t) => t.Chars? ==> WellFormed(t.chars) && Boundary(d.text, Clip(d, p))
    case Remove(s, e) => RangeAligned(d, s, e)
    case Replace(s, e, t) => t.Chars? ==> WellFormed(t.chars) && RangeAligned(d, s, e)
    case SetText(t) => t.Chars? ==> WellFormed(t.chars)
    case Copy(p, t) => WellFormed(t) && Boundary(d.text, p)
    case ReplaceSelection(_, t) => t.Chars? ==> WellFormed(t.chars)
    case _ => true
  }

  /** A selection whose bytes are edited begins and ends between characters. */
  ghost predicate UseAligned(d: Doc, op: Op)
  {
    match op
    case RemoveSelection(w) => Sel(d, w).selected ==> RangeAligned(d, Sel(d, w).start, Sel(d, w).end)
    case ReplaceSelection(w, t) =>
      t.Chars? && Sel(d, w).selected ==> RangeAligned(d, Sel(d, w).start, Sel(d, w).end)
    case _ => true
  }

  /** Where the gap is after an operation. */
  ghost function GapAfter(d: Doc, gap: int, op: Op): int
    requires DocOk(d)
  {
    match op
    case Insert(p, t) => InsertGap(d, gap, p, t)
    case Remove(s, e) => RemoveGap(d, gap, s, e)
    case Replace(s, e, t) => ReplaceGap(d, gap, s, t)
    case SetText(t) => if t.NullString? then 0 else |t.chars|
    case Copy(p, t) => p + |t|
    case RemoveSelection(w) =>
      if Sel(d, w).selected then RemoveGap(d, gap, Sel(d, w).start, Sel(d, w).end) else gap
    case ReplaceSelection(w, t) =>
      if Sel(d, w).selected then ReplaceGap(d, gap, Sel(d, w).start, t) else gap
    case Undo => UndoGap(d, gap)
    case _ => gap
  }

  // ----- text and gap

  lemma RemoveKeepsUtf8(d: Doc, gap: int, s: int, e: int)
    requires DocOk(d) && TextUtf8Ok(d, gap) && Aligned(d, Remove(s, e))
    ensures TextUtf8Ok(RemoveDoc(d, s, e), RemoveGap(d, gap, s, e))
  {
    var a, b := Clip(d, Min(s, e)), Clip(d, Max(s, e));
    SpliceWellFormed(d.text, a, b, []);
  }

  lemma InsertKeepsUtf8(d: Doc, gap: int, p: int, t: CString)
    requires DocOk(d) && TextUtf8Ok(d, gap) && Aligned(d, Insert(p, t))
    ensures TextUtf8Ok(InsertDoc(d, p, t), InsertGap(d, gap, p, t))
  {
    if t.Chars? {
      SpliceWellFormed(d.text, Clip(d, p), Clip(d, p), t.chars);
    }
  }

  lemma ReplaceKeepsUtf8(d: Doc, gap: int, s: int, e: int, t: CString)
    requires DocOk(d) && TextUtf8Ok(d, gap) && Aligned(d, Replace(s, e, t))
    requires t.Chars? ==> ReplaceDefined(d, s, e)
    ensures TextUtf8Ok(ReplaceDoc(d, s, e, t), ReplaceGap(d, gap, s, t))
  {
    if t.Chars? {
      ReplaceBetweenKeepsUtf8(d, Max(s, 0), Min(e, |d.text|), t.chars);
    }
  }

  lemma ReplaceBetweenKeepsUtf8(d: Doc, a: int, b: int, t: Text)
    requires DocOk(d) && WellFormed(d.text) && WellFormed(t)
    requires a <= b && Boundary(d.text, a) && Boundary(d.text, b)
    ensures var r := ReplaceBetween(d, a, b, t);
            WellFormed(r.text) && Boundary(r.text, a + |t|)
  {
    SplicedTwice(d.text, a, b, t);
    assert ReplaceBetween(d, a, b, t).text == Splice(d.text, a, b, t);
    SpliceWellFormed(d.text, a, b, t);
  }

  lemma ReplaceSelectionKeepsUtf8(d: Doc, gap: int, w: Which, t: CString)
    requires DocOk(d) && TextUtf8Ok(d, gap)
    requires Aligned(d, ReplaceSelection(w, t)) && UseAligned(d, ReplaceSelection(w, t))
    requires Allowed(d, ReplaceSelection(w, t))
    ensures TextUtf8Ok(ReplaceSelectionDoc(d, w, t), GapAfter(d, gap, ReplaceSelection(w, t)))
  {
    var r := Sel(d, w);
    if r.selected {
      ReplaceKeepsUtf8(d, gap, r.start, r.end, t);
      assert ReplaceSelectionDoc(d, w, t).text == ReplaceDoc(d, r.start, r.end, t).text;
    }
  }

  /** Every operation at boundaries but undo, whatever is on record. */
  lemma StepKeepsUtf8(d: Doc, gap: int, op: Op)
    requires DocOk(d) && Allowed(d, op) && op != Undo
    requires TextUtf8Ok(d, gap) && Aligned(d, op) && UseAligned(d, op)
    ensures TextUtf8Ok(Step(d, op), GapAfter(d, gap, op))
  {
    match op
    case Insert(p, t) => InsertKeepsUtf8(d, gap, p, t);
    case Remove(s, e) => RemoveKeepsUtf8(d, gap, s, e);
    case Replace(s, e, t) => ReplaceKeepsUtf8(d, gap, s, e, t);
    case SetText(t) =>
    case Copy(p, t) => SpliceWellFormed(d.text, p, p, t);
    case RemoveSelection(w) =>
      if Sel(d, w).selected {
        RemoveKeepsUtf8(d, gap, Sel(d, w).start, Sel(d, w).end);
      }
    case ReplaceSelection(w, t) => ReplaceSelectionKeepsUtf8(d, gap, w, t);
    case TabDistance =>
    case Select(_, _, _) =>
    case Unselect(_) =>
    case SetCanUndo(_) =>
  }

  lemma UndoKeepsUtf8(d: Doc, gap: int)
    requires RecordUtf8Ok(d) && RecordAligned(d) && UndoDefined(d) && TextUtf8Ok(d, gap)
    ensures TextUtf8Ok(UndoDoc(d), UndoGap(d, gap))
  {
    hide InsertDoc, RemoveDoc, ReplaceDoc, WellFormed;
    var u := d.undo;
    if u.mine {
      var t := Chars(u.store[..PutBack(u)]);
      assert Clip(d, u.at) == u.at && Clip(d, u.at - u.inserted) == u.at - u.inserted;
      if u.inserted > 0 && t.chars != [] {
        ReplaceKeepsUtf8(d, gap, u.at - u.inserted, u.at, t);
      } else if u.inserted > 0 {
        RemoveKeepsUtf8(d, gap, u.at - u.inserted, u.at);
      } else if t.chars != [] {
        InsertKeepsUtf8(d, gap, u.at, t);
      }
    }
  }

  /** Aligned or not: exactly when undo leaves the text well formed. */
  lemma UndoKeepsUtf8Iff(d: Doc)
    requires RecordUtf8Ok(d) && UndoDefined(d) && WellFormed(d.text)
    ensures var u := d.undo;
            var a, b := Clip(d, u.at - u.inserted), Clip(d, u.at);
            WellFormed(UndoDoc(d).text)
            <==> UndoIgnored(d) || (a <= b && Replaceable(d.text, a, b, u.store[..PutBack(u)]))
  {
    hide UndoDoc, WellFormed, Replaceable, UndoDefined;
    if UndoIgnored(d) {
      UndoWithoutEdit(d);
    } else {
      UndoText(d);
      var u := d.undo;
      SpliceWellFormedIff(d.text, Clip(d, u.at - u.inserted), Clip(d, u.at), u.store[..PutBack(u)]);
    }
  }

  /** The text that text() puts under an old record, then undo: well formed only if the record's
      old place fits the characters of the new text. */
  lemma UndoAfterSetTextUtf8(d: Doc, t: Text)
    requires RecordUtf8Ok(d) && WellFormed(t) && d.undo.mine && UndoDefined(SetTextDoc(d, Chars(t)))
    ensures var u := d.undo;
            var a, b := Max(0, Min(u.at - u.inserted, |t|)), Max(0, Min(u.at, |t|));
            WellFormed(UndoDoc(SetTextDoc(d, Chars(t))).text)
            <==> a <= b && Replaceable(t, a, b, u.store[..PutBack(u)])
  {
    hide UndoDoc, WellFormed, Replaceable, UndoDefined;
    UndoKeepsUtf8Iff(SetTextDoc(d, Chars(t)));
  }

  /** Two bytes are typed, the text is set to "x" and a two-byte character, undo: half of the
      character is left. */
  lemma UndoCanCutACharacter(d: Doc)
    requires d == Doc([], NO_RANGE, NO_RANGE, NO_RANGE, UndoFields(false, 0, 0, 0, 0, []), true, 0, [])
    ensures var d1 := InsertDoc(d, 0, Chars([97, 98]));
            var d2 := SetTextDoc(d1, Chars([120, 0xC3, 0xA9]));
            WellFormed(d2.text) && UndoDefined(d2)
            && UndoDoc(d2).text == [0xA9] && !WellFormed(UndoDoc(d2).text)
  {
    hide InsertDoc, UndoDoc, UndoDefined;
    TypingAb(d);
    var t: Text := [120, 0xC3, 0xA9];
    assert t[..1] == [120] && t[1..] == [0xC3, 0xA9] && t[1..][..2] == [0xC3, 0xA9] && t[1..][2..] == [];
    var d2 := SetTextDoc(InsertDoc(d, 0, Chars([97, 98])), Chars(t));
    UndoingAb(d2);
    assert UndoDoc(d2).text[..1] == [0xA9];
  }

  // ----- the record

  lemma InsertRawKeepsRecordUtf8(d: Doc, pos: int, t: Text)
    requires RecordUtf8Ok(d) && WellFormed(d.text) && WellFormed(t) && Boundary(d.text, pos) && t != []
    ensures var r := InsertRaw(d, pos, t);
            RecordUtf8Ok(r) && WellFormed(r.text) && (RecordAligned(d) ==> RecordAligned(r))
  {
    hide WellFormed, UpdateRange;
    var r := InsertRaw(d, pos, t);
    SpliceWellFormed(d.text, pos, pos, t);
    EmptyWellFormed(d.undo.store);
    if d.canUndo && d.undo.mine && d.undo.at == pos && d.undo.inserted > 0 && RecordAligned(d) {
      var b := pos - d.undo.inserted;
      assert r.text[b] == d.text[b];
    }
  }

  lemma EmptyWellFormed(s: Text)
    ensures WellFormed(s[..0])
  {
  }

  lemma RemoveRawKeepsRecordUtf8(d: Doc, s: int, e: int)
    requires RecordUtf8Ok(d) && WellFormed(d.text) && Boundary(d.text, s) && Boundary(d.text, e) && s <= e
    ensures var r := RemoveRaw(d, s, e);
            RecordUtf8Ok(r) && WellFormed(r.text) && Boundary(r.text, s) && (RecordAligned(d) ==> RecordAligned(r))
  {
    hide WellFormed, UpdateRange, Splice;
    SpliceWellFormed(d.text, s, e, []);
    if d.canUndo {
      PieceWellFormed(d.text, s, e);
      NoteRemoveUtf8(d.undo, s, e, d.text[s..e]);
    }
  }

  lemma NoteRemoveUtf8(u: UndoFields, s: int, e: int, gone: Text)
    requires UndoFieldsOk(u) && |gone| == e - s && WellFormed(gone) && WellFormed(u.store[..u.cut])
    ensures var r := NoteRemove(u, s, e, gone);
            r.cut <= |r.store| && WellFormed(r.store[..r.cut]) && PutBack(r) == r.cut
  {
    hide WellFormed;
    var r := NoteRemove(u, s, e, gone);
    if u.mine && u.at == e && u.cut > 0 {
      WellFormedConcat(gone, u.store[..u.cut]);
      assert r.store[..r.cut] == gone + u.store[..u.cut];
    } else {
      assert r.store[..r.cut] == gone;
    }
  }

  lemma InsertKeepsRecordUtf8(d: Doc, p: int, t: CString)
    requires RecordUtf8Ok(d) && WellFormed(d.text) && Aligned(d, Insert(p, t))
    ensures var r := InsertDoc(d, p, t);
            RecordUtf8Ok(r) && (RecordAligned(d) ==> RecordAligned(r))
  {
    hide WellFormed, InsertRaw, Splice;
    if t.Chars? && t.chars != [] {
      InsertRawKeepsRecordUtf8(Tell(d, [Predelete(Clip(d, p), 0)]), Clip(d, p), t.chars);
    }
  }

  lemma RemoveKeepsRecordUtf8(d: Doc, s: int, e: int)
    requires RecordUtf8Ok(d) && WellFormed(d.text) && Aligned(d, Remove(s, e))
    ensures var r := RemoveDoc(d, s, e);
            RecordUtf8Ok(r) && (RecordAligned(d) ==> RecordAligned(r))
  {
    hide WellFormed, RemoveRaw, Splice;
    var a, b := Clip(d, Min(s, e)), Clip(d, Max(s, e));
    RemoveRawKeepsRecordUtf8(Tell(d, [Predelete(a, b - a)]), a, b);
  }

  lemma ReplaceKeepsRecordUtf8(d: Doc, s: int, e: int, t: CString)
    requires RecordUtf8Ok(d) && WellFormed(d.text) && Aligned(d, Replace(s, e, t))
    requires t.Chars? ==> ReplaceDefined(d, s, e)
    ensures var r := ReplaceDoc(d, s, e, t);
            RecordUtf8Ok(r) && (RecordAligned(d) ==> RecordAligned(r))
  {
    hide WellFormed, ReplaceBetween;
    if t.Chars? {
      ReplaceBetweenKeepsRecordUtf8(d, Max(s, 0), Min(e, |d.text|), t.chars);
    }
  }

  lemma RawReplaceKeepsRecordUtf8(d: Doc, a: int, b: int, t: Text)
    requires RecordUtf8Ok(d) && WellFormed(d.text) && WellFormed(t)
    requires a <= b && Boundary(d.text, a) && Boundary(d.text, b)
    ensures a <= |RemoveRaw(d, a, b).text|
    ensures var r := InsertRaw(RemoveRaw(d, a, b), a, t);
            RecordUtf8Ok(r) && (RecordAligned(d) ==> RecordAligned(r))
  {
    hide WellFormed, RemoveRaw, InsertRaw, RecordAligned;
    RemoveRawKeepsRecordUtf8(d, a, b);
    var d1 := RemoveRaw(d, a, b);
    if t != [] {
      InsertRawKeepsRecordUtf8(d1, a, t);
    } else {
      InsertNothing(d1, a);
    }
  }

  lemma ReplaceBetweenKeepsRecordUtf8(d: Doc, a: int, b: int, t: Text)
    requires RecordUtf8Ok(d) && WellFormed(d.text) && WellFormed(t)
    requires a <= b && Boundary(d.text, a) && Boundary(d.text, b)
    ensures var r := ReplaceBetween(d, a, b, t);
            RecordUtf8Ok(r) && (RecordAligned(d) ==> RecordAligned(r))
  {
    hide WellFormed, RemoveRaw, InsertRaw, RecordAligned;
    var d0 := Tell(d, [Predelete(a, b - a)]);
    SameRecordUtf8(d, d0);
    RawReplaceKeepsRecordUtf8(d0, a, b, t);
    SameRecordUtf8(InsertRaw(RemoveRaw(d0, a, b), a, t), ReplaceBetween(d, a, b, t));
  }

  lemma SameRecordUtf8(d: Doc, r: Doc)
    requires RecordUtf8Ok(d) && r.text == d.text && r.undo == d.undo && r.canUndo == d.canUndo
    ensures RecordUtf8Ok(r) && (RecordAligned(r) <==> RecordAligned(d))
  {
  }

  lemma InsertNothing(d: Doc, pos: int)
    requires DocOk(d) && 0 <= pos <= |d.text|
    ensures InsertRaw(d, pos, []) == d
  {
  }

  lemma UndoKeepsRecordUtf8(d: Doc)
    requires RecordUtf8Ok(d) && RecordAligned(d) && UndoDefined(d) && WellFormed(d.text)
    ensures RecordUtf8Ok(UndoDoc(d)) && RecordAligned(UndoDoc(d))
  {
    hide InsertDoc, RemoveDoc, ReplaceDoc, WellFormed;
    var u := d.undo;
    if u.mine {
      var t := Chars(u.store[..PutBack(u)]);
      assert Clip(d, u.at) == u.at && Clip(d, u.at - u.inserted) == u.at - u.inserted;
      if u.inserted > 0 && t.chars != [] {
        ReplaceKeepsRecordUtf8(d, u.at - u.inserted, u.at, t);
      } else if u.inserted > 0 {
        RemoveKeepsRecordUtf8(d, u.at - u.inserted, u.at);
      } else if t.chars != [] {
        InsertKeepsRecordUtf8(d, u.at, t);
        EmptyWellFormed(UndoDoc(d).undo.store);
      }
    }
  }

  lemma ReplaceSelectionKeepsRecordUtf8(d: Doc, w: Which, t: CString)
    requires RecordUtf8Ok(d) && WellFormed(d.text)
    requires Aligned(d, ReplaceSelection(w, t)) && UseAligned(d, ReplaceSelection(w, t))
    requires Allowed(d, ReplaceSelection(w, t))
    ensures var r := ReplaceSelectionDoc(d, w, t);
            RecordUtf8Ok(r) && (RecordAligned(d) ==> RecordAligned(r))
  {
    hide WellFormed, ReplaceDoc, Redisplay;
    var r := Sel(d, w);
    if r.selected {
      ReplaceKeepsRecordUtf8(d, r.start, r.end, t);
    }
  }

  /** Operations on whole characters keep whole characters on record, whatever is done. An undo
      wants the record aligned. */
  lemma StepKeepsRecordUtf8(d: Doc, op: Op)
    requires RecordUtf8Ok(d) && Allowed(d, op) && (op == Undo ==> RecordAligned(d))
    requires WellFormed(d.text) && Aligned(d, op) && UseAligned(d, op)
    ensures RecordUtf8Ok(Step(d, op))
    ensures RecordAligned(d) && (op.SetText? || op.Copy? ==> !d.undo.mine) ==> RecordAligned(Step(d, op))
  {
    hide WellFormed, InsertDoc, RemoveDoc, ReplaceDoc, UndoDoc, ReplaceSelectionDoc, Redisplay, Splice, UpdateRange;
    match op
    case Insert(p, t) => InsertKeepsRecordUtf8(d, p, t);
    case Remove(s, e) => RemoveKeepsRecordUtf8(d, s, e);
    case Replace(s, e, t) => ReplaceKeepsRecordUtf8(d, s, e, t);
    case RemoveSelection(w) =>
      if Sel(d, w).selected {
        RemoveKeepsRecordUtf8(d, Sel(d, w).start, Sel(d, w).end);
      }
    case ReplaceSelection(w, t) => ReplaceSelectionKeepsRecordUtf8(d, w, t);
    case Undo => UndoKeepsRecordUtf8(d);
    case _ =>
  }

  // ----- where the cursor is put

  /** The operation changes bytes and announces it: then it says where the cursor belongs. */
  predicate PlacesCursor(d: Doc, op: Op)
  {
    match op
    case Insert(_, t) => t.Chars? && t.chars != []
    case Remove(s, e) => Clip(d, s) != Clip(d, e)
    case Replace(_, _, t) => t.Chars?
    case RemoveSelection(w) => Sel(d, w).selected && Clip(d, Sel(d, w).start) != Clip(d, Sel(d, w).end)
    case ReplaceSelection(w, t) => Sel(d, w).selected && t.Chars?
    case Undo => UndoEdits(d)
    case _ => false
  }

  lemma CursorIsAtGap(d: Doc, gap: int, op: Op)
    requires DocOk(d) && Allowed(d, op) && PlacesCursor(d, op)
    ensures Step(d, op).hint == GapAfter(d, gap, op)
  {
    hide InsertRaw, RemoveRaw, Splice, UpdateRange;
  }

  /** The cursor is put between two characters, by undo too. */
  lemma CursorAtBoundary(d: Doc, gap: int, op: Op)
    requires DocOk(d) && Allowed(d, op) && PlacesCursor(d, op)
    requires TextUtf8Ok(d, gap) && Aligned(d, op) && UseAligned(d, op)
    requires op == Undo ==> RecordUtf8Ok(d) && RecordAligned(d)
    ensures Boundary(Step(d, op).text, Step(d, op).hint)
  {
    hide Step, GapAfter, Allowed, Aligned, UseAligned, WellFormed;
    CursorIsAtGap(d, gap, op);
    if op == Undo {
      UndoStepKeepsUtf8(d, gap);
    } else {
      StepKeepsUtf8(d, gap, op);
    }
  }

  // ----- the ends of the selections

  /** The bytes an operation removes. */
  function CutOut(d: Doc, op: Op): (int, int)
  {
    match op
    case Insert(p, _) => (Clip(d, p), Clip(d, p))
    case Remove(s, e) => (Clip(d, Min(s, e)), Clip(d, Max(s, e)))
    case Replace(s, e, t) => if t.Chars? then (Max(s, 0), Min(e, |d.text|)) else (0, 0)
    case Copy(p, _) => (p, p)
    case RemoveSelection(w) =>
      var r := Sel(d, w);
      if r.selected then (Clip(d, Min(r.start, r.end)), Clip(d, Max(r.start, r.end))) else (0, 0)
    case ReplaceSelection(w, t) =>
      var r := Sel(d, w);
      if r.selected && t.Chars? then (Max(r.start, 0), Min(r.end, |d.text|)) else (0, 0)
    case Undo => if UndoIgnored(d) then (0, 0) else (Clip(d, d.undo.at - d.undo.inserted), Clip(d, d.undo.at))
    case _ => (0, 0)
  }

  /** The operation leaves an end of selection w inside a character or outside the text: it selects
      so, or its removal pulls the end there. */
  ghost predicate Loosens(d: Doc, op: Op, w: Which)
  {
    match op
    case Select(v, s, e) => v == w && s != e && !(Boundary(d.text, s) && Boundary(d.text, e))
    case _ => Strays(d.text, Sel(d, w), CutOut(d, op).0, CutOut(d, op).1)
  }

  ghost predicate Firm(d: Doc, w: Which)
  {
    EndsOk(d.text, Sel(d, w))
  }

  lemma ReplacedFirmIff(d: Doc, r: Doc, w: Which, a: int, b: int, t: Text)
    requires Firm(d, w) && WellFormed(t) && a <= b && Boundary(d.text, a) && Boundary(d.text, b)
    requires r.text == Splice(d.text, a, b, t) && Sel(r, w) == ReplacedRange(Sel(d, w), a, b, |t|)
    ensures Firm(r, w) <==> !Strays(d.text, Sel(d, w), a, b)
  {
    ReplacementKeepsEndsIff(d.text, Sel(d, w), a, b, t);
  }

  lemma InsertKeepsFirm(d: Doc, p: int, t: CString, w: Which)
    requires DocOk(d) && Firm(d, w) && Aligned(d, Insert(p, t))
    ensures Firm(InsertDoc(d, p, t), w)
  {
    hide WellFormed, Boundary, Splice;
    if t.Chars? && t.chars != [] {
      InsertionKeepsEnds(d.text, Sel(d, w), Clip(d, p), t.chars);
    }
  }

  lemma RemoveFirmIff(d: Doc, s: int, e: int, w: Which)
    requires DocOk(d) && Firm(d, w) && Aligned(d, Remove(s, e))
    ensures Firm(RemoveDoc(d, s, e), w) <==> !Loosens(d, Remove(s, e), w)
  {
    hide WellFormed, Boundary, Splice, UpdateRange;
    var a, b := Clip(d, Min(s, e)), Clip(d, Max(s, e));
    RemovalKeepsEndsIff(d.text, Sel(d, w), a, b);
    assert a != b ==> Sel(RemoveDoc(d, s, e), w) == UpdateRange(Sel(d, w), a, b - a, 0);
  }

  lemma ReplaceFirmIff(d: Doc, s: int, e: int, t: CString, w: Which)
    requires DocOk(d) && Firm(d, w) && Aligned(d, Replace(s, e, t)) && (t.Chars? ==> ReplaceDefined(d, s, e))
    ensures Firm(ReplaceDoc(d, s, e, t), w) <==> !Loosens(d, Replace(s, e, t), w)
  {
    hide WellFormed, Splice;
    if t.Chars? {
      var a, b := Max(s, 0), Min(e, |d.text|);
      ReplaceIsSplice(d, a, b, t.chars, w);
      ReplacedFirmIff(d, ReplaceDoc(d, s, e, t), w, a, b, t.chars);
    }
  }

  lemma CopyKeepsFirm(d: Doc, p: int, t: Text, w: Which)
    requires DocOk(d) && Firm(d, w) && 0 <= p <= |d.text| && Aligned(d, Copy(p, t))
    ensures Firm(CopyDoc(d, p, t), w)
  {
    hide WellFormed, Boundary, Splice;
    InsertionKeepsEnds(d.text, Sel(d, w), p, t);
  }

  lemma SetTextKeepsFirm(d: Doc, t: CString, w: Which)
    requires DocOk(d) && Firm(d, w)
    ensures Firm(SetTextDoc(d, t), w)
  {
    hide SetTextDoc;
    SetTextDropsSelections(d, t, w);
  }

  lemma ReplaceSelectionFirmIff(d: Doc, v: Which, t: CString, w: Which)
    requires DocOk(d) && Firm(d, w) && Aligned(d, ReplaceSelection(v, t))
    requires UseAligned(d, ReplaceSelection(v, t)) && Allowed(d, ReplaceSelection(v, t))
    ensures Firm(ReplaceSelectionDoc(d, v, t), w) <==> !Loosens(d, ReplaceSelection(v, t), w)
  {
    hide WellFormed, Boundary, ReplaceDoc, Redisplay;
    var r := Sel(d, v);
    if r.selected {
      ReplaceFirmIff(d, r.start, r.end, t, w);
    }
  }

  lemma UndoFirmIff(d: Doc, w: Which)
    requires RecordUtf8Ok(d) && RecordAligned(d) && UndoDefined(d) && Firm(d, w)
    ensures Firm(UndoDoc(d), w) <==> !Loosens(d, Undo, w)
  {
    hide InsertDoc, RemoveDoc, ReplaceDoc, WellFormed, Boundary;
    var u := d.undo;
    if !UndoIgnored(d) {
      var t := Chars(u.store[..PutBack(u)]);
      if u.inserted > 0 && t.chars != [] {
        ReplaceFirmIff(d, u.at - u.inserted, u.at, t, w);
      } else if u.inserted > 0 {
        RemoveFirmIff(d, u.at - u.inserted, u.at, w);
      } else if t.chars != [] {
        InsertKeepsFirm(d, u.at, t, w);
      }
    }
  }

  lemma SelectFirmIff(d: Doc, v: Which, s: int, e: int, w: Which)
    requires DocOk(d) && (v == w || Firm(d, w))
    ensures Firm(SelectDoc(d, v, s, e), w) <==> !Loosens(d, Select(v, s, e), w)
  {
    hide Boundary, Redisplay;
  }

  /** Every operation keeps the ends of a selection between characters, but for exactly those that
      loosen it. */
  lemma StepFirmIff(d: Doc, op: Op, w: Which)
    requires DocOk(d) && Allowed(d, op) && Firm(d, w) && Aligned(d, op) && UseAligned(d, op)
    requires op == Undo ==> RecordUtf8Ok(d) && RecordAligned(d)
    ensures Firm(Step(d, op), w) <==> !Loosens(d, op, w)
  {
    hide InsertDoc, RemoveDoc, ReplaceDoc, UndoDoc, CopyDoc, SetTextDoc, SelectDoc, ReplaceSelectionDoc;
    hide WellFormed, Boundary, Redisplay;
    match op
    case Insert(p, t) => InsertKeepsFirm(d, p, t, w);
    case Remove(s, e) => RemoveFirmIff(d, s, e, w);
    case Replace(s, e, t) => ReplaceFirmIff(d, s, e, t, w);
    case SetText(t) => SetTextKeepsFirm(d, t, w);
    case Copy(p, t) => CopyKeepsFirm(d, p, t, w);
    case TabDistance =>
    case Select(v, s, e) => SelectFirmIff(d, v, s, e, w);
    case Unselect(_) =>
    case RemoveSelection(v) =>
      if Sel(d, v).selected {
        RemoveFirmIff(d, Sel(d, v).start, Sel(d, v).end, w);
      }
    case ReplaceSelection(v, t) => ReplaceSelectionFirmIff(d, v, t, w);
    case SetCanUndo(_) =>
    case Undo => UndoFirmIff(d, w);
  }

  /** Exactly when removing or replacing a selection leaves the text well formed, wherever it is. */
  lemma SelectionUseUtf8Iff(d: Doc, w: Which, t: Text)
    requires DocOk(d) && WellFormed(d.text) && WellFormed(t)
    requires RangeOk(Sel(d, w), |d.text|) && Sel(d, w).selected
    ensures var r := Sel(d, w);
            && (WellFormed(RemoveSelectionDoc(d, w).text) <==> Replaceable(d.text, r.start, r.end, []))
            && (WellFormed(ReplaceSelectionDoc(d, w, Chars(t)).text) <==> Replaceable(d.text, r.start, r.end, t))
  {
    hide WellFormed, Replaceable, Splice;
    var r := Sel(d, w);
    SpliceWellFormedIff(d.text, r.start, r.end, t);
    EmptyWellFormed(t);
    SpliceWellFormedIff(d.text, r.start, r.end, t[..0]);
    SplicedTwice(d.text, r.start, r.end, t);
  }

  /** In a two-byte character and "bc" all but the "c" is selected. Removing "bc" leaves one byte
      selected, half of the character. */
  lemma SelectionCanCutACharacter(d: Doc)
    requires d == Doc([0xC3, 0xA9, 98, 99], NO_RANGE, NO_RANGE, NO_RANGE,
                      UndoFields(false, 0, 0, 0, 0, []), true, 0, [])
    ensures var d1 := SelectDoc(d, Primary, 0, 3);
            var d2 := RemoveDoc(d1, 2, 4);
            var d3 := RemoveSelectionDoc(d2, Primary);
            && WellFormed(d1.text) && Firm(d1, Primary) && Aligned(d1, Remove(2, 4))
            && Loosens(d1, Remove(2, 4), Primary)
            && WellFormed(d2.text) && d2.primary == Range(0, 1, true)
            && d3.text == [0xA9] && !WellFormed(d3.text)
  {
    hide Redisplay, RemoveDoc, WellFormed;
    var d1 := SelectDoc(d, Primary, 0, 3);
    assert d1.text == d.text && Sel(d1, Primary) == Range(0, 3, true);
    RemovingBc(d1);
    var d2 := RemoveDoc(d1, 2, 4);
    RemovingHalf(d2);
    SampleUtf8();
  }

  lemma RemovingBc(d: Doc)
    requires DocOk(d) && d.text == [0xC3, 0xA9, 98, 99] && d.primary == Range(0, 3, true)
    ensures RemoveDoc(d, 2, 4).text == [0xC3, 0xA9] && RemoveDoc(d, 2, 4).primary == Range(0, 1, true)
  {
  }

  lemma RemovingHalf(d: Doc)
    requires DocOk(d) && d.text == [0xC3, 0xA9] && d.primary == Range(0, 1, true)
    ensures RemoveSelectionDoc(d, Primary).text == [0xA9]
  {
  }

  lemma SampleUtf8()
    ensures WellFormed([0xC3, 0xA9]) && WellFormed([0xC3, 0xA9, 98, 99]) && !WellFormed([0xA9])
  {
    var s: Text := [0xC3, 0xA9];
    var t: Text := [98, 99];
    assert s[..2] == s && t[..1] == [98] && t[1..] == [99] && t[1..][..1] == [99];
    assert WellFormed(t);
    WellFormedConcat(s, t);
    assert s + t == [0xC3, 0xA9, 98, 99];
    var h: Text := [0xA9];
    assert h[..1] == h;
  }

  // ----- runs

  /** The selections that may end inside characters after an operation. */
  ghost function LooseAfter(d: Doc, loose: set<Which>, op: Op): set<Which>
  {
    set w: Which | (w in loose && !(op.Select? && op.w == w)) || Loosens(d, op, w)
  }

  ghost predicate FirmBut(d: Doc, loose: set<Which>)
  {
    forall w: Which :: w !in loose ==> Firm(d, w)
  }

  /** No loose selection is removed or replaced. */
  predicate UseFirm(d: Doc, loose: set<Which>, op: Op)
  {
    match op
    case RemoveSelection(w) => Sel(d, w).selected ==> w !in loose
    case ReplaceSelection(w, t) => t.Chars? && Sel(d, w).selected ==> w !in loose
    case _ => true
  }

  lemma UseFirmIsAligned(d: Doc, loose: set<Which>, op: Op)
    requires FirmBut(d, loose) && UseFirm(d, loose, op)
    ensures UseAligned(d, op)
  {
    match op
    case RemoveSelection(w) => assert w !in loose ==> Firm(d, w);
    case ReplaceSelection(w, _) => assert w !in loose ==> Firm(d, w);
    case _ =>
  }

  lemma StepKeepsFirmBut(d: Doc, loose: set<Which>, op: Op)
    requires DocOk(d) && Allowed(d, op) && FirmBut(d, loose) && Aligned(d, op) && UseAligned(d, op)
    requires op == Undo ==> RecordUtf8Ok(d) && RecordAligned(d)
    ensures FirmBut(Step(d, op), LooseAfter(d, loose, op))
  {
    forall w: Which | w !in LooseAfter(d, loose, op) ensures Firm(Step(d, op), w) {
      if op.Select? && op.w == w {
        SelectFirmIff(d, w, op.start, op.end, w);
      } else {
        StepFirmIff(d, op, w);
      }
      hide Step, Allowed, Aligned, UseAligned, Firm, RecordAligned, RecordUtf8Ok;
    }
  }

  /** All that one operation keeps. */
  lemma StepKeepsAll(d: Doc, gap: int, loose: set<Which>, op: Op)
    requires DocOk(d) && TextUtf8Ok(d, gap) && FirmBut(d, loose)
    requires Allowed(d, op) && Aligned(d, op) && UseFirm(d, loose, op)
    requires op == Undo ==> RecordUtf8Ok(d) && RecordAligned(d)
    ensures TextUtf8Ok(Step(d, op), GapAfter(d, gap, op)) && FirmBut(Step(d, op), LooseAfter(d, loose, op))
    ensures RecordUtf8Ok(d) ==> RecordUtf8Ok(Step(d, op))
    ensures RecordUtf8Ok(d) && RecordAligned(d) && (op.SetText? || op.Copy? ==> !d.undo.mine) ==>
              RecordAligned(Step(d, op))
  {
    hide Step, GapAfter, Allowed, Aligned, UseAligned, RecordAligned, FirmBut, LooseAfter, WellFormed;
    UseFirmIsAligned(d, loose, op);
    StepKeepsFirmBut(d, loose, op);
    if op == Undo {
      UndoStepKeepsUtf8(d, gap);
    } else {
      StepKeepsUtf8(d, gap, op);
    }
    if RecordUtf8Ok(d) {
      StepKeepsRecordUtf8(d, op);
    }
  }

  lemma UndoStepKeepsUtf8(d: Doc, gap: int)
    requires RecordUtf8Ok(d) && RecordAligned(d) && Allowed(d, Undo) && TextUtf8Ok(d, gap)
    ensures TextUtf8Ok(Step(d, Undo), GapAfter(d, gap, Undo))
  {
    hide UndoDoc, UndoGap, WellFormed;
    UndoKeepsUtf8(d, gap);
  }

  /** The positions and texts of each operation respect characters, and no selection is removed or
      replaced that an operation has left loose since it was set. */
  ghost predicate RunAligned(d: Doc, loose: set<Which>, ops: seq<Op>)
    requires DocOk(d) && RunAllowed(d, ops)
    decreases |ops|
  {
    ops != [] ==>
      && Aligned(d, ops[0]) && UseFirm(d, loose, ops[0])
      && RunAligned(Step(d, ops[0]), LooseAfter(d, loose, ops[0]), ops[1..])
  }

  /** Undo is called only while the record is aligned with the text. */
  ghost predicate UndosAligned(d: Doc, ops: seq<Op>)
    requires DocOk(d) && RunAllowed(d, ops)
    decreases |ops|
  {
    ops != [] ==> (ops[0] == Undo ==> RecordAligned(d)) && UndosAligned(Step(d, ops[0]), ops[1..])
  }

  ghost function RunGap(d: Doc, gap: int, ops: seq<Op>): int
    requires DocOk(d) && RunAllowed(d, ops)
    decreases |ops|
  {
    if ops == [] then gap else RunGap(Step(d, ops[0]), GapAfter(d, gap, ops[0]), ops[1..])
  }

  ghost function RunLoose(d: Doc, loose: set<Which>, ops: seq<Op>): set<Which>
    requires DocOk(d) && RunAllowed(d, ops)
    decreases |ops|
  {
    if ops == [] then loose else RunLoose(Step(d, ops[0]), LooseAfter(d, loose, ops[0]), ops[1..])
  }

  /** Through every run of operations on whole characters, text() and copy included, the text stays
      well-formed UTF-8, no character comes to lie across the gap, and every selection that is not
      left loose ends between characters. */
  lemma {:induction false} RunKeepsUtf8(d: Doc, gap: int, loose: set<Which>, ops: seq<Op>)
    requires RecordUtf8Ok(d) && TextUtf8Ok(d, gap) && FirmBut(d, loose)
    requires RunAllowed(d, ops) && RunAligned(d, loose, ops) && UndosAligned(d, ops)
    ensures TextUtf8Ok(Run(d, ops), RunGap(d, gap, ops)) && FirmBut(Run(d, ops), RunLoose(d, loose, ops))
    decreases |ops|
  {
    hide Step, GapAfter, LooseAfter, UseFirm, Allowed, Aligned, RecordAligned, FirmBut, TextUtf8Ok, WellFormed;
    if ops != [] {
      StepKeepsAll(d, gap, loose, ops[0]);
      RunKeepsUtf8(Step(d, ops[0]), GapAfter(d, gap, ops[0]), LooseAfter(d, loose, ops[0]), ops[1..]);
    }
  }

  /** The text is not exchanged or copied into while this buffer owns the record. */
  ghost predicate RecordLeftAlone(d: Doc, ops: seq<Op>)
    requires DocOk(d) && RunAllowed(d, ops)
    decreases |ops|
  {
    ops != [] ==>
      (ops[0].SetText? || ops[0].Copy? ==> !d.undo.mine) && RecordLeftAlone(Step(d, ops[0]), ops[1..])
  }

  /** Then undo may be called at any time. */
  lemma {:induction false} EditsKeepUndosAligned(d: Doc, gap: int, loose: set<Which>, ops: seq<Op>)
    requires RecordUtf8Ok(d) && RecordAligned(d) && TextUtf8Ok(d, gap) && FirmBut(d, loose)
    requires RunAllowed(d, ops) && RunAligned(d, loose, ops) && RecordLeftAlone(d, ops)
    ensures UndosAligned(d, ops)
    decreases |ops|
  {
    hide Step, GapAfter, LooseAfter, UseFirm, Allowed, Aligned, RecordAligned, FirmBut, TextUtf8Ok, WellFormed;
    if ops != [] {
      StepKeepsAll(d, gap, loose, ops[0]);
      EditsKeepUndosAligned(Step(d, ops[0]), GapAfter(d, gap, ops[0]), LooseAfter(d, loose, ops[0]), ops[1..]);
    }
  }

  /** Without undo it does not matter what is on record. */
  lemma {:induction false} RunWithoutUndoKeepsUtf8(d: Doc, gap: int, loose: set<Which>, ops: seq<Op>)
    requires DocOk(d) && TextUtf8Ok(d, gap) && FirmBut(d, loose)
    requires RunAllowed(d, ops) && RunAligned(d, loose, ops) && Undo !in ops
    ensures TextUtf8Ok(Run(d, ops), RunGap(d, gap, ops)) && FirmBut(Run(d, ops), RunLoose(d, loose, ops))
    decreases |ops|
  {
    hide Step, GapAfter, LooseAfter, UseFirm, Allowed, Aligned, RecordAligned, FirmBut, TextUtf8Ok, WellFormed;
    if ops != [] {
      assert ops[0] in ops && forall op :: op in ops[1..] ==> op in ops;
      StepKeepsAll(d, gap, loose, ops[0]);
      RunWithoutUndoKeepsUtf8(Step(d, ops[0]), GapAfter(d, gap, ops[0]), LooseAfter(d, loose, ops[0]), ops[1..]);
    }
  }

  /** Every argument is at a boundary, those of select included, and no removal starts strictly
      inside a selection and runs past its end. */
  ghost predicate Careful(d: Doc, op: Op)
  {
    && Aligned(d, op)
    && (op.Select? && op.start != op.end ==> Boundary(d.text, op.start) && Boundary(d.text, op.end))
    && forall w: Which :: !Overruns(Sel(d, w), CutOut(d, op).0, CutOut(d, op).1)
  }

  ghost predicate AllCareful(d: Doc, ops: seq<Op>)
    requires DocOk(d) && RunAllowed(d, ops)
    decreases |ops|
  {
    ops != [] ==> Careful(d, ops[0]) && AllCareful(Step(d, ops[0]), ops[1..])
  }

  lemma CarefulLoosensNone(d: Doc, op: Op)
    requires Careful(d, op)
    ensures LooseAfter(d, {}, op) == {}
  {
    hide CutOut, Boundary, Aligned;
    forall w: Which ensures !Loosens(d, op, w) {
      assert !Overruns(Sel(d, w), CutOut(d, op).0, CutOut(d, op).1);
    }
  }

  /** Then no selection is ever loose. */
  lemma {:induction false} CarefulRunIsAligned(d: Doc, ops: seq<Op>)
    requires DocOk(d) && RunAllowed(d, ops) && AllCareful(d, ops)
    ensures RunAligned(d, {}, ops) && RunLoose(d, {}, ops) == {}
    decreases |ops|
  {
    hide Step, LooseAfter, Allowed, Aligned, CutOut, Overruns;
    if ops != [] {
      CarefulLoosensNone(d, ops[0]);
      CarefulRunIsAligned(Step(d, ops[0]), ops[1..]);
    }
  }

  /** Careful operations, undo among them, on a record nobody pulls the text from under: text, gap
      and all three selections stay at characters. */
  lemma CarefulRunKeepsUtf8(d: Doc, gap: int, ops: seq<Op>)
    requires RecordUtf8Ok(d) && RecordAligned(d) && TextUtf8Ok(d, gap) && FirmBut(d, {})
    requires RunAllowed(d, ops) && AllCareful(d, ops) && RecordLeftAlone(d, ops)
    ensures TextUtf8Ok(Run(d, ops), RunGap(d, gap, ops)) && FirmBut(Run(d, ops), {})
  {
    CarefulRunIsAligned(d, ops);
    EditsKeepUndosAligned(d, gap, {}, ops);
    RunKeepsUtf8(d, gap, {}, ops);
  }
}
