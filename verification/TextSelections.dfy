/** What operations and whole runs of them do to the three selections: they stay ordered and inside
    the text, they keep their bytes when an edit is beside them, and a changed one is redrawn. */
module TextSelections {
  import opened Integers
  import opened TextSpec
  import opened Selections
  import opened TextModel
  import opened TextHistory

  // ----- inside the text

  ghost predicate SelectionsOk(d: Doc)
  {
    RangeOk(d.primary, |d.text|) && RangeOk(d.secondary, |d.text|) && RangeOk(d.highlight, |d.text|)
  }

  lemma InsertRawKeepsSelections(d: Doc, pos: int, t: Text)
    requires DocOk(d) && 0 <= pos <= |d.text| && SelectionsOk(d)
    ensures SelectionsOk(InsertRaw(d, pos, t))
  {
    UpdateKeepsRangeOk(d.primary, |d.text|, pos, 0, |t|);
    UpdateKeepsRangeOk(d.secondary, |d.text|, pos, 0, |t|);
    UpdateKeepsRangeOk(d.highlight, |d.text|, pos, 0, |t|);
    hide UpdateRange, NoteInsert, RangeOk;
  }

  lemma RemoveRawKeepsSelections(d: Doc, s: int, e: int)
    requires DocOk(d) && 0 <= s <= e <= |d.text| && SelectionsOk(d)
    ensures SelectionsOk(RemoveRaw(d, s, e))
  {
    hide Splice, NoteRemove, UpdateRange, RangeOk;
    UpdateKeepsRangeOk(d.primary, |d.text|, s, e - s, 0);
    UpdateKeepsRangeOk(d.secondary, |d.text|, s, e - s, 0);
    UpdateKeepsRangeOk(d.highlight, |d.text|, s, e - s, 0);
  }

  lemma InsertKeepsSelections(d: Doc, pos: int, t: CString)
    requires DocOk(d) && SelectionsOk(d)
    ensures SelectionsOk(InsertDoc(d, pos, t))
  {
    hide InsertRaw, RangeOk;
    if t.Chars? {
      InsertRawKeepsSelections(Tell(d, [Predelete(Clip(d, pos), 0)]), Clip(d, pos), t.chars);
    }
  }

  lemma RemoveKeepsSelections(d: Doc, s: int, e: int)
    requires DocOk(d) && SelectionsOk(d)
    ensures SelectionsOk(RemoveDoc(d, s, e))
  {
    hide RemoveRaw, RangeOk;
    var a, b := Clip(d, Min(s, e)), Clip(d, Max(s, e));
    RemoveRawKeepsSelections(Tell(d, [Predelete(a, b - a)]), a, b);
  }

  lemma ReplaceKeepsSelections(d: Doc, s: int, e: int, t: CString)
    requires DocOk(d) && SelectionsOk(d) && (t.Chars? ==> ReplaceDefined(d, s, e))
    ensures SelectionsOk(ReplaceDoc(d, s, e, t))
  {
    if t.Chars? {
      var a, b := Max(s, 0), Min(e, |d.text|);
      var d0 := Tell(d, [Predelete(a, b - a)]);
      ReplaceSteps(d, a, b, t.chars);
      RemoveRawKeepsSelections(d0, a, b);
      InsertRawKeepsSelections(RemoveRaw(d0, a, b), a, t.chars);
      hide RemoveRaw, InsertRaw, RangeOk;
    }
  }

  lemma CopyKeepsSelections(d: Doc, toPos: int, t: Text)
    requires DocOk(d) && 0 <= toPos <= |d.text| && SelectionsOk(d)
    ensures SelectionsOk(CopyDoc(d, toPos, t))
  {
    UpdateKeepsRangeOk(d.primary, |d.text|, toPos, 0, |t|);
    UpdateKeepsRangeOk(d.secondary, |d.text|, toPos, 0, |t|);
    UpdateKeepsRangeOk(d.highlight, |d.text|, toPos, 0, |t|);
    hide UpdateRange, RangeOk;
  }

  /** text() tells the selections that the old text was removed. A range that reaches past the old
      text outlives that, and so may one that begins before it. */
  predicate Outlives(r: Range, n: nat)
  {
    r.selected
    && if r.start < 0 then r.end <= 0 || r.start < r.end - n else r.end < 0 || n <= r.start || n < r.end
  }

  /** The source means to drop all selections. */
  lemma SetTextDropsSelections(d: Doc, t: CString, w: Which)
    requires DocOk(d)
    ensures Sel(SetTextDoc(d, t), w).selected <==> Outlives(Sel(d, w), |d.text|)
  {
  }

  /** The first 1000 bytes of three are selected and the text is set to nothing: 997 bytes stay
      selected. */
  lemma SetTextKeepsASelection(d: Doc)
    requires d == Doc([65, 66, 67], NO_RANGE, NO_RANGE, NO_RANGE, UndoFields(false, 0, 0, 0, 0, []), true, 0, [])
    ensures var d1 := SelectDoc(d, Primary, 0, 1000);
            Sel(SetTextDoc(d1, Chars([])), Primary) == Range(0, 997, true)
  {
    hide Redisplay;
    assert SelectDoc(d, Primary, 0, 1000).primary == Range(0, 1000, true);
  }

  lemma UndoKeepsSelections(d: Doc)
    requires DocOk(d) && UndoDefined(d) && SelectionsOk(d)
    ensures SelectionsOk(UndoDoc(d))
  {
    hide InsertDoc, RemoveDoc, ReplaceDoc, RangeOk;
    var u := d.undo;
    var t := Chars(u.store[..PutBack(u)]);
    if !UndoIgnored(d) {
      if u.inserted > 0 && PutBack(u) > 0 {
        ReplaceKeepsSelections(d, u.at - u.inserted, u.at, t);
      } else if u.inserted > 0 {
        RemoveKeepsSelections(d, u.at - u.inserted, u.at);
      } else {
        InsertKeepsSelections(d, u.at, t);
      }
    }
  }

  /** A range that is empty or lies in the text. The source stores any other just as well. */
  predicate Fits(d: Doc, start: int, end: int)
  {
    start == end || (0 <= start <= |d.text| && 0 <= end <= |d.text|)
  }

  lemma SelectFits(d: Doc, w: Which, start: int, end: int)
    requires SelectionsOk(d)
    ensures SelectionsOk(SelectDoc(d, w, start, end)) <==> Fits(d, start, end)
  {
    hide Redisplay;
  }

  /** Selecting the first 1000 bytes of three gives a selection that is not in the text. */
  lemma SelectPastTheEnd()
    ensures var d := Doc([65, 66, 67], NO_RANGE, NO_RANGE, NO_RANGE, UndoFields(false, 0, 0, 0, 0, []), true, 0, []);
            SelectionsOk(d) && !SelectionsOk(Step(d, Select(Primary, 0, 1000)))
  {
    var d := Doc([65, 66, 67], NO_RANGE, NO_RANGE, NO_RANGE, UndoFields(false, 0, 0, 0, 0, []), true, 0, []);
    SelectFits(d, Primary, 0, 1000);
  }

  /** Every operation keeps all three selections ordered and inside the text, but for selecting a
      range that is not. */
  lemma StepKeepsSelections(d: Doc, op: Op)
    requires DocOk(d) && Allowed(d, op) && SelectionsOk(d)
    ensures SelectionsOk(Step(d, op)) <==> (op.Select? ==> Fits(d, op.start, op.end))
  {
    hide InsertDoc, RemoveDoc, ReplaceDoc, UndoDoc, CopyDoc, SetTextDoc, Redisplay, RangeOk;
    match op
    case Insert(p, t) => InsertKeepsSelections(d, p, t);
    case Remove(s, e) => RemoveKeepsSelections(d, s, e);
    case Replace(s, e, t) => ReplaceKeepsSelections(d, s, e, t);
    case SetText(t) => NoneSelectedIsOk(SetTextDoc(d, t), d, t);
    case Copy(p, t) => CopyKeepsSelections(d, p, t);
    case TabDistance =>
    case Select(w, s, e) => SelectFits(d, w, s, e);
    case Unselect(w) => DroppedIsOk(d, w);
    case RemoveSelection(w) => RemoveKeepsSelections(d, Sel(d, w).start, Sel(d, w).end);
    case ReplaceSelection(w, t) =>
      var r := Sel(d, w);
      if r.selected {
        ReplaceKeepsSelections(d, r.start, r.end, t);
        DroppedIsOk(ReplaceDoc(d, r.start, r.end, t), w);
      }
    case SetCanUndo(_) =>
    case Undo => UndoKeepsSelections(d);
  }

  lemma NoneSelectedIsOk(d': Doc, d: Doc, t: CString)
    requires DocOk(d) && SelectionsOk(d) && d' == SetTextDoc(d, t)
    ensures SelectionsOk(d')
  {
    SetTextDropsSelections(d, t, Primary);
    SetTextDropsSelections(d, t, Secondary);
    SetTextDropsSelections(d, t, Highlight);
    hide SetTextDoc;
  }

  lemma DroppedIsOk(d: Doc, w: Which)
    requires SelectionsOk(d)
    ensures SelectionsOk(SetSel(d, w, Sel(d, w).(selected := false)))
  {
  }

  /** The ranges given to select fit the text they are given for. */
  ghost predicate SelectsFit(d: Doc, ops: seq<Op>)
    requires DocOk(d) && RunAllowed(d, ops)
    decreases |ops|
  {
    ops != [] ==>
      (ops[0].Select? ==> Fits(d, ops[0].start, ops[0].end)) && SelectsFit(Step(d, ops[0]), ops[1..])
  }

  /** All three selections stay ordered and inside the text through every run. */
  lemma {:induction false} SelectionsStayInText(d: Doc, ops: seq<Op>)
    requires DocOk(d) && RunAllowed(d, ops) && SelectionsOk(d) && SelectsFit(d, ops)
    ensures SelectionsOk(Run(d, ops))
    decreases |ops|
  {
    if ops != [] {
      StepKeepsSelections(d, ops[0]);
      SelectionsStayInText(Step(d, ops[0]), ops[1..]);
    }
  }

  // ----- bytes that an edit does not touch

  /** The bytes a selection stands for. */
  ghost function Bytes(d: Doc, w: Which): Text
    requires RangeOk(Sel(d, w), |d.text|)
  {
    Selected(d.text, Sel(d, w))
  }

  /** Selection w is selected, in the text, and still is, for the same bytes. */
  ghost predicate SameBytes(d: Doc, d': Doc, w: Which)
  {
    && RangeOk(Sel(d, w), |d.text|) && RangeOk(Sel(d', w), |d'.text|)
    && Sel(d, w).selected == Sel(d', w).selected && Bytes(d', w) == Bytes(d, w)
  }

  /** An edit whose text is a splice and whose selections follow it keeps the bytes beside it. */
  lemma SplicedBeside(d: Doc, d': Doc, w: Which, a: int, b: int, t: Text)
    requires 0 <= a <= b <= |d.text| && RangeOk(Sel(d, w), |d.text|)
    requires d'.text == Splice(d.text, a, b, t) && Sel(d', w) == ReplacedRange(Sel(d, w), a, b, |t|)
    requires Sel(d, w).selected ==> Beside(Sel(d, w), a, b)
    ensures SameBytes(d, d', w)
  {
    if Sel(d, w).selected {
      UntouchedSelection(d.text, Sel(d, w), a, b, t);
    }
  }

  lemma InsertBeside(d: Doc, pos: int, t: CString, w: Which)
    requires DocOk(d) && RangeOk(Sel(d, w), |d.text|)
    requires Sel(d, w).selected ==> Beside(Sel(d, w), Clip(d, pos), Clip(d, pos))
    ensures SameBytes(d, InsertDoc(d, pos, t), w)
  {
    if t.Chars? && t.chars != [] {
      var p := Clip(d, pos);
      NothingReplaced(Sel(d, w), p, p, |t.chars|);
      SplicedBeside(d, InsertDoc(d, pos, t), w, p, p, t.chars);
    }
  }

  lemma RemoveBeside(d: Doc, start: int, end: int, w: Which)
    requires DocOk(d) && RangeOk(Sel(d, w), |d.text|)
    requires Sel(d, w).selected ==> Beside(Sel(d, w), Clip(d, Min(start, end)), Clip(d, Max(start, end)))
    ensures SameBytes(d, RemoveDoc(d, start, end), w)
  {
    var a, b := Clip(d, Min(start, end)), Clip(d, Max(start, end));
    if a != b {
      NothingReplaced(Sel(d, w), a, b, 0);
      SplicedBeside(d, RemoveDoc(d, start, end), w, a, b, []);
    }
  }

  lemma ReplaceBeside(d: Doc, start: int, end: int, t: CString, w: Which)
    requires DocOk(d) && RangeOk(Sel(d, w), |d.text|) && (t.Chars? ==> ReplaceDefined(d, start, end))
    requires Sel(d, w).selected ==> Beside(Sel(d, w), Max(start, 0), Min(end, |d.text|))
    ensures SameBytes(d, ReplaceDoc(d, start, end, t), w)
  {
    if t.Chars? {
      var a, b := Max(start, 0), Min(end, |d.text|);
      ReplaceIsSplice(d, a, b, t.chars, w);
      SplicedBeside(d, ReplaceDoc(d, start, end, t), w, a, b, t.chars);
    }
  }

  lemma ReplaceIsSplice(d: Doc, a: int, b: int, t: Text, w: Which)
    requires DocOk(d) && 0 <= a <= b <= |d.text| && RangeOk(Sel(d, w), |d.text|)
    ensures var r := ReplaceBetween(d, a, b, t);
            r.text == Splice(d.text, a, b, t) && Sel(r, w) == ReplacedRange(Sel(d, w), a, b, |t|)
  {
    SplicedTwice(d.text, a, b, t);
    if t == [] {
      UpdateKeepsRangeOk(Sel(d, w), |d.text|, a, b - a, 0);
      NothingReplaced(UpdateRange(Sel(d, w), a, b - a, 0), a, a, 0);
    }
  }

  lemma CopyBeside(d: Doc, toPos: int, t: Text, w: Which)
    requires DocOk(d) && 0 <= toPos <= |d.text| && RangeOk(Sel(d, w), |d.text|)
    requires Sel(d, w).selected ==> Beside(Sel(d, w), toPos, toPos)
    ensures SameBytes(d, CopyDoc(d, toPos, t), w)
  {
    NothingReplaced(Sel(d, w), toPos, toPos, |t|);
    SplicedBeside(d, CopyDoc(d, toPos, t), w, toPos, toPos, t);
  }

  /** The operation edits nothing inside selection w, and does not set it. */
  ghost predicate LeavesAlone(d: Doc, op: Op, w: Which)
    requires DocOk(d)
  {
    var r := Sel(d, w);
    match op
    case Insert(p, _) => Beside(r, Clip(d, p), Clip(d, p))
    case Remove(s, e) => Beside(r, Clip(d, Min(s, e)), Clip(d, Max(s, e)))
    case Replace(s, e, _) => Beside(r, Max(s, 0), Min(e, |d.text|))
    case SetText(_) => false
    case Copy(p, _) => Beside(r, p, p)
    case Select(v, _, _) => v != w
    case Unselect(v) => v != w
    case RemoveSelection(v) =>
      v != w && Beside(r, Clip(d, Min(Sel(d, v).start, Sel(d, v).end)), Clip(d, Max(Sel(d, v).start, Sel(d, v).end)))
    case ReplaceSelection(v, _) => v != w && Beside(r, Max(Sel(d, v).start, 0), Min(Sel(d, v).end, |d.text|))
    case Undo =>
      var u := d.undo;
      var a, b := Clip(d, u.at - u.inserted), Clip(d, u.at);
      Beside(r, a, b) && Beside(r, Max(u.at - u.inserted, 0), Min(u.at, |d.text|))
    case _ => true
  }

  /** Through every operation, a selection beside the edit stands for the same bytes. */
  lemma StepBeside(d: Doc, op: Op, w: Which)
    requires DocOk(d) && Allowed(d, op) && RangeOk(Sel(d, w), |d.text|)
    requires Sel(d, w).selected && LeavesAlone(d, op, w)
    ensures SameBytes(d, Step(d, op), w)
  {
    hide InsertDoc, RemoveDoc, ReplaceDoc, CopyDoc, SetTextDoc, Redisplay, RangeOk;
    match op
    case Insert(p, t) => InsertBeside(d, p, t, w);
    case Remove(s, e) => RemoveBeside(d, s, e, w);
    case Replace(s, e, t) => ReplaceBeside(d, s, e, t, w);
    case Copy(p, t) => CopyBeside(d, p, t, w);
    case RemoveSelection(v) =>
      if Sel(d, v).selected {
        RemoveBeside(d, Sel(d, v).start, Sel(d, v).end, w);
      }
    case ReplaceSelection(v, t) =>
      if Sel(d, v).selected {
        ReplaceBeside(d, Sel(d, v).start, Sel(d, v).end, t, w);
      }
    case Undo => UndoBeside(d, w);
    case _ =>
  }

  lemma UndoBeside(d: Doc, w: Which)
    requires DocOk(d) && UndoDefined(d) && RangeOk(Sel(d, w), |d.text|)
    requires Sel(d, w).selected && LeavesAlone(d, Undo, w)
    ensures SameBytes(d, UndoDoc(d), w)
  {
    hide InsertDoc, RemoveDoc, ReplaceDoc, RangeOk;
    var u := d.undo;
    var t := Chars(u.store[..PutBack(u)]);
    if !UndoIgnored(d) {
      if u.inserted > 0 && PutBack(u) > 0 {
        ReplaceBeside(d, u.at - u.inserted, u.at, t, w);
      } else if u.inserted > 0 {
        RemoveBeside(d, u.at - u.inserted, u.at, w);
      } else {
        InsertBeside(d, u.at, t, w);
      }
    }
  }

  // ----- what is redrawn

  /** Changing a selection redraws exactly the positions that enter or leave it. */
  lemma RedisplayIsExact(a: Range, b: Range, seen: Text, p: int)
    requires a.selected ==> a.start < a.end
    requires b.selected ==> b.start < b.end
    ensures (exists n :: n in Redisplay(a, b, seen) && n.at <= p < n.at + n.nRestyled)
            <==> (Within(p, a) != Within(p, b))
  {
    var ns := Redisplay(a, b, seen);
    if Within(p, a) != Within(p, b) {
      assert (|ns| > 0 && ns[0].at <= p < ns[0].at + ns[0].nRestyled)
             || (|ns| > 1 && ns[1].at <= p < ns[1].at + ns[1].nRestyled);
    }
  }
}
