/** Undo. There is one undo record for all buffers; it remembers one group of edits. */
module TextUndo {
  import opened Integers
  import opened TextSpec
  import opened Selections
  import opened TextModel
  import opened TextHistory

  /** The record points into the text. */
  ghost predicate RecordInRange(d: Doc)
  {
    0 <= d.undo.at - d.undo.inserted && d.undo.at <= |d.text|
  }

  /** The text undo would bring back. */
  ghost function UndoTarget(d: Doc): Text
    requires DocOk(d) && RecordInRange(d)
  {
    Splice(d.text, d.undo.at - d.undo.inserted, d.undo.at, d.undo.store[..PutBack(d.undo)])
  }

  // ----- what an edit does to the target

  /** An insertion at `p` makes use of what is on record. */
  predicate InsertUses(u: UndoFields, p: int)
  {
    u.at == p && (u.cut > 0 || (u.mine && u.inserted > 0))
  }

  /** A removal up to `e` joins the removals on record. */
  predicate RemoveJoins(u: UndoFields, e: int)
  {
    u.mine && u.at == e && u.cut > 0
  }

  lemma InsertExtends(d: Doc, pos: int, t: Text)
    requires DocOk(d) && d.canUndo && d.undo.mine && RecordInRange(d)
    requires pos == d.undo.at && t != []
    ensures var r := InsertRaw(d, pos, t);
            r.undo.mine && RecordInRange(r) && UndoTarget(r) == UndoTarget(d)
  {
    hide UpdateRange;
    var r := InsertRaw(d, pos, t);
    assert r.undo.at - r.undo.inserted == d.undo.at - d.undo.inserted;
    assert r.text[r.undo.at..] == d.text[pos..];
    assert r.text[..r.undo.at - r.undo.inserted] == d.text[..r.undo.at - r.undo.inserted];
  }

  lemma InsertStarts(d: Doc, pos: int, t: Text)
    requires DocOk(d) && d.canUndo && 0 <= pos <= |d.text| && t != []
    requires !InsertUses(d.undo, pos)
    ensures var r := InsertRaw(d, pos, t);
            r.undo.mine && RecordInRange(r) && UndoTarget(r) == d.text
  {
    hide UpdateRange;
    var r := InsertRaw(d, pos, t);
    assert r.text[pos + |t|..] == d.text[pos..] && r.text[..pos] == d.text[..pos];
    assert d.text == d.text[..pos] + [] + d.text[pos..];
    assert r.undo.store[..0] == [];
  }

  /** An insertion joins the group whose text it extends or starts a new one: the target stays,
      or becomes the text just before. */
  lemma InsertRawTarget(d: Doc, pos: int, t: Text)
    requires DocOk(d) && d.canUndo && d.undo.mine && RecordInRange(d)
    requires 0 <= pos <= |d.text| && t != []
    ensures var r := InsertRaw(d, pos, t);
            r.undo.mine && RecordInRange(r)
            && UndoTarget(r) == if pos == d.undo.at then UndoTarget(d) else d.text
  {
    if pos == d.undo.at {
      InsertExtends(d, pos, t);
    } else {
      InsertStarts(d, pos, t);
    }
  }

  lemma RemoveExtends(d: Doc, s: int, e: int)
    requires DocOk(d) && d.canUndo && 0 <= s <= e <= |d.text|
    requires RemoveJoins(d.undo, e)
    ensures var r := RemoveRaw(d, s, e);
            RecordInRange(d) && RecordInRange(r) && UndoTarget(r) == UndoTarget(d)
  {
    hide UpdateRange;
    var r := RemoveRaw(d, s, e);
    assert r.text[..s] == d.text[..s] && r.text[s..] == d.text[e..];
    assert r.undo.store == d.text[s..e] + d.undo.store[..d.undo.cut];
    assert d.text[..e] == d.text[..s] + d.text[s..e];
  }

  lemma RemoveStarts(d: Doc, s: int, e: int)
    requires DocOk(d) && d.canUndo && 0 <= s <= e <= |d.text|
    requires !RemoveJoins(d.undo, e)
    ensures var r := RemoveRaw(d, s, e);
            RecordInRange(r) && UndoTarget(r) == d.text
  {
    hide UpdateRange;
    var r := RemoveRaw(d, s, e);
    assert r.text[..s] == d.text[..s] && r.text[s..] == d.text[e..];
    assert d.text == d.text[..s] + d.text[s..e] + d.text[e..];
  }

  /** A removal joins the group only when it ends where the last removal left off. */
  lemma RemoveRawTarget(d: Doc, s: int, e: int)
    requires DocOk(d) && d.canUndo && 0 <= s <= e <= |d.text|
    ensures var r := RemoveRaw(d, s, e);
            r.undo.mine && RecordInRange(r) && r.undo.at == s && r.undo.inserted == 0
            && (RemoveJoins(d.undo, e) ==> RecordInRange(d))
            && UndoTarget(r) == if RemoveJoins(d.undo, e) then UndoTarget(d) else d.text
  {
    hide Splice, UpdateRange;
    if RemoveJoins(d.undo, e) {
      RemoveExtends(d, s, e);
    } else {
      RemoveStarts(d, s, e);
    }
  }

  /** Removing and inserting in one call: the target after both is the one after the removal. */
  lemma ReplaceTarget(d: Doc, s: int, e: int, t: Text)
    requires DocOk(d) && d.canUndo && 0 <= s <= e <= |d.text|
    ensures var r := ReplaceBetween(d, s, e, t);
            r.undo.mine && RecordInRange(r)
            && (RemoveJoins(d.undo, e) ==> RecordInRange(d))
            && UndoTarget(r) == if RemoveJoins(d.undo, e) then UndoTarget(d) else d.text
  {
    hide Splice, UpdateRange;
    var d0 := Tell(d, [Predelete(s, e - s)]);
    RemoveRawTarget(d0, s, e);
    if t != [] {
      InsertRawTarget(RemoveRaw(d0, s, e), s, t);
    }
  }

  /** The first insertion recorded for a buffer while the record is another's (or nobody's): undo
      takes just this insertion back, unless the insertion happens to be at the place where the
      other removed something. */
  lemma FirstInsertTarget(d: Doc, pos: int, t: Text)
    requires DocOk(d) && d.canUndo && !d.undo.mine && 0 <= pos <= |d.text| && t != []
    ensures var r := InsertAt(d, pos, t);
            r.undo.mine && RecordInRange(r)
            && (UndoTarget(r) == d.text <==> !(d.undo.at == pos && d.undo.cut > 0))
  {
    hide UpdateRange;
    if d.undo.at == pos && d.undo.cut > 0 {
      assert |UndoTarget(InsertAt(d, pos, t))| == |d.text| + d.undo.cut;
    } else {
      InsertStarts(Tell(d, [Predelete(pos, 0)]), pos, t);
    }
  }

  // ----- undo itself

  /** What undo makes of the text, record in range or not: the stored bytes take the place of the
      bytes it calls inserted, both ends brought into the text. */
  lemma UndoText(d: Doc)
    requires DocOk(d) && UndoDefined(d) && !UndoIgnored(d)
    ensures var u := d.undo;
            Clip(d, u.at - u.inserted) <= Clip(d, u.at)
            && UndoDoc(d).text
               == Splice(d.text, Clip(d, u.at - u.inserted), Clip(d, u.at), u.store[..PutBack(u)])
  {
    hide UpdateRange, Splice;
    var u := d.undo;
    var t := u.store[..PutBack(u)];
    var a, b := Clip(d, u.at - u.inserted), Clip(d, u.at);
    if u.inserted > 0 && t != [] {
      assert a == Max(u.at - u.inserted, 0) && b == Min(u.at, |d.text|);
      SplicedTwice(d.text, a, b, t);
    } else if t == [] && a == b {
      SpliceNothing(d.text, a);
    }
  }

  lemma SpliceNothing(s: Text, p: int)
    requires 0 <= p <= |s|
    ensures Splice(s, p, p, []) == s
  {
    assert s == s[..p] + [] + s[p..];
  }

  /** Undo makes an edit, so that it leaves a new record. */
  predicate UndoEdits(d: Doc)
  {
    var u := d.undo;
    !UndoIgnored(d)
    && (PutBack(u) > 0 || (u.inserted > 0 && Clip(d, u.at - u.inserted) != Clip(d, u.at)))
  }

  /** The record undo leaves behind when it puts removed bytes back. */
  lemma PutBackTarget(d: Doc)
    requires DocOk(d) && d.canUndo && d.undo.mine
    requires d.undo.inserted == 0 && d.undo.cut > 0
    ensures var r := UndoDoc(d); r.undo.mine && r.canUndo && RecordInRange(r) && UndoTarget(r) == d.text
  {
    hide UpdateRange, Splice;
    var u := d.undo;
    var t := u.store[..u.cut];
    var p := Clip(d, u.at);
    var r := UndoDoc(d);
    UndoText(d);
    assert r.undo.inserted == |t| && r.undo.at == p + |t| && PutBack(r.undo) == 0;
    SpliceBack(d.text, p, p, t);
    assert d.text[p..p] == [] == r.undo.store[..0];
  }

  /** Whatever the record was: after an undo that edits, it is about the text just before. */
  lemma UndoRenewsRecord(d: Doc)
    requires DocOk(d) && d.canUndo && UndoDefined(d) && UndoEdits(d)
    ensures var r := UndoDoc(d); r.canUndo && r.undo.mine && RecordInRange(r) && UndoTarget(r) == d.text
  {
    hide Splice, UpdateRange;
    var u := d.undo;
    var a, b := Clip(d, u.at - u.inserted), Clip(d, u.at);
    if u.inserted > 0 && PutBack(u) > 0 {
      ReplaceTarget(d, Max(u.at - u.inserted, 0), Min(u.at, |d.text|), u.store[..PutBack(u)]);
    } else if u.inserted > 0 {
      RemoveRawTarget(Tell(d, [Predelete(a, b - a)]), a, b);
    } else {
      PutBackTarget(d);
    }
  }

  /** An undo that edits nothing leaves text and record. */
  lemma UndoWithoutEdit(d: Doc)
    requires DocOk(d) && UndoDefined(d) && !UndoEdits(d)
    ensures var r := UndoDoc(d);
            r.text == d.text && r.canUndo == d.canUndo && r.undo == d.undo
  {
    hide Splice, UpdateRange;
  }

  /** Undo brings back its target, and what it then has on record is the text it left: undoing
      twice changes nothing. */
  lemma UndoSwapsTextAndTarget(d: Doc)
    requires DocOk(d) && d.canUndo && d.undo.mine && RecordInRange(d)
    ensures UndoDefined(d)
    ensures var r := UndoDoc(d);
            r.text == UndoTarget(d) && r.canUndo && r.undo.mine && RecordInRange(r) && UndoTarget(r) == d.text
  {
    hide Splice, UndoDoc;
    UndoText(d);
    if UndoEdits(d) {
      UndoRenewsRecord(d);
    } else {
      UndoWithoutEdit(d);
      SpliceNothing(d.text, d.undo.at);
    }
  }

  lemma UndoTwiceIsIdentity(d: Doc)
    requires DocOk(d) && d.canUndo && d.undo.mine && RecordInRange(d)
    ensures UndoDefined(d) && UndoDefined(UndoDoc(d))
    ensures UndoDoc(UndoDoc(d)).text == d.text
  {
    UndoSwapsTextAndTarget(d);
    UndoSwapsTextAndTarget(UndoDoc(d));
  }

  // ----- runs

  predicate SoundAfterRemove(d: Doc, sound: bool, start: int, end: int)
  {
    if Clip(d, start) == Clip(d, end) then sound
    else RemoveJoins(d.undo, Clip(d, Max(start, end))) ==> sound
  }

  predicate SoundAfterReplace(d: Doc, sound: bool, end: int, t: CString)
  {
    if t.NullString? then sound else RemoveJoins(d.undo, Min(end, |d.text|)) ==> sound
  }

  /** Whether the record can be relied on after an operation, given whether it could before (which
      matters only while the record is this buffer's). It can not once the text is exchanged or
      copied into under it, or when an insertion takes over what another buffer removed; a new
      group of edits makes it good again. */
  predicate SoundAfter(d: Doc, sound: bool, op: Op)
  {
    var u := d.undo;
    match op
    case Insert(p, t) =>
      if t.NullString? || t.chars == [] || !d.canUndo then sound
      else InsertUses(u, Clip(d, p)) ==> u.mine && sound
    case Remove(s, e) => SoundAfterRemove(d, sound, s, e)
    case Replace(_, e, t) => SoundAfterReplace(d, sound, e, t)
    case SetText(_) => !u.mine
    case Copy(_, t) => if t == [] then sound else !u.mine
    case RemoveSelection(w) =>
      if Sel(d, w).selected then SoundAfterRemove(d, sound, Sel(d, w).start, Sel(d, w).end) else sound
    case ReplaceSelection(w, t) =>
      if Sel(d, w).selected then SoundAfterReplace(d, sound, Sel(d, w).end, t) else sound
    case Undo => UndoEdits(d) || sound
    case _ => sound
  }

  /** `past` holds the texts the buffer has had. A buffer that owns the record has undo switched
      on, and a sound record is about one of those texts. */
  ghost predicate RecordSound(d: Doc, sound: bool, past: set<Text>)
  {
    DocOk(d) && d.text in past
    && (d.undo.mine ==> d.canUndo && (sound ==> RecordInRange(d) && UndoTarget(d) in past))
  }

  lemma InsertKeepsRecordSound(d: Doc, pos: int, t: CString, sound: bool, past: set<Text>)
    requires RecordSound(d, sound, past)
    ensures var r := InsertDoc(d, pos, t);
            RecordSound(r, SoundAfter(d, sound, Insert(pos, t)), past + {r.text})
  {
    hide Splice, UpdateRange;
    if t.Chars? && t.chars != [] && d.canUndo {
      var p := Clip(d, pos);
      var d0 := Tell(d, [Predelete(p, 0)]);
      if !InsertUses(d.undo, p) {
        InsertStarts(d0, p, t.chars);
      } else if d.undo.mine && sound {
        InsertExtends(d0, p, t.chars);
      }
    }
  }

  lemma RemoveKeepsRecordSound(d: Doc, start: int, end: int, sound: bool, past: set<Text>)
    requires RecordSound(d, sound, past)
    ensures var r := RemoveDoc(d, start, end);
            RecordSound(r, SoundAfter(d, sound, Remove(start, end)), past + {r.text})
  {
    hide Splice, UpdateRange;
    var s, e := Clip(d, Min(start, end)), Clip(d, Max(start, end));
    if s != e && d.canUndo {
      RemoveRawTarget(Tell(d, [Predelete(s, e - s)]), s, e);
    }
  }

  lemma ReplaceKeepsRecordSound(d: Doc, start: int, end: int, t: CString, sound: bool, past: set<Text>)
    requires RecordSound(d, sound, past) && (t.Chars? ==> ReplaceDefined(d, start, end))
    ensures var r := ReplaceDoc(d, start, end, t);
            RecordSound(r, SoundAfter(d, sound, Replace(start, end, t)), past + {r.text})
  {
    hide Splice, UpdateRange;
    if t.Chars? && d.canUndo {
      ReplaceTarget(d, Max(start, 0), Min(end, |d.text|), t.chars);
    }
  }

  lemma UndoKeepsRecordSound(d: Doc, sound: bool, past: set<Text>)
    requires RecordSound(d, sound, past) && UndoDefined(d)
    ensures var r := UndoDoc(d);
            RecordSound(r, SoundAfter(d, sound, Undo), past + {r.text})
  {
    hide UndoDoc;
    if UndoEdits(d) {
      UndoRenewsRecord(d);
    } else {
      UndoWithoutEdit(d);
    }
  }

  lemma ReplaceSelectionKeepsRecordSound(d: Doc, w: Which, t: CString, sound: bool, past: set<Text>)
    requires RecordSound(d, sound, past) && Allowed(d, ReplaceSelection(w, t))
    ensures var r := ReplaceSelectionDoc(d, w, t);
            RecordSound(r, SoundAfter(d, sound, ReplaceSelection(w, t)), past + {r.text})
  {
    hide ReplaceDoc, Redisplay;
    var s := Sel(d, w);
    if s.selected {
      ReplaceKeepsRecordSound(d, s.start, s.end, t, sound, past);
      SameTextSameRecord(ReplaceDoc(d, s.start, s.end, t), ReplaceSelectionDoc(d, w, t),
        SoundAfter(d, sound, ReplaceSelection(w, t)), past + {ReplaceDoc(d, s.start, s.end, t).text});
    }
  }

  lemma StepKeepsRecordSound(d: Doc, op: Op, sound: bool, past: set<Text>)
    requires RecordSound(d, sound, past) && Allowed(d, op)
    ensures var r := Step(d, op); RecordSound(r, SoundAfter(d, sound, op), past + {r.text})
  {
    hide InsertDoc, RemoveDoc, ReplaceDoc, UndoDoc, ReplaceSelectionDoc, UndoDefined, UndoTarget, Redisplay;
    match op
    case Insert(p, t) => InsertKeepsRecordSound(d, p, t, sound, past);
    case Remove(s, e) => RemoveKeepsRecordSound(d, s, e, sound, past);
    case Replace(s, e, t) => ReplaceKeepsRecordSound(d, s, e, t, sound, past);
    case RemoveSelection(w) =>
      RemoveKeepsRecordSound(d, Sel(d, w).start, Sel(d, w).end, sound, past);
      assert RecordSound(d, sound, past + {d.text});
    case ReplaceSelection(w, t) => ReplaceSelectionKeepsRecordSound(d, w, t, sound, past);
    case Undo => UndoKeepsRecordSound(d, sound, past);
    case SetText(_) =>
    case Copy(p, t) =>
      if t == [] {
        SpliceNothing(d.text, p);
        SameTextSameRecord(d, Step(d, op), sound, past);
      }
    case TabDistance => SameTextSameRecord(d, Step(d, op), sound, past);
    case Select(_, _, _) => SameTextSameRecord(d, Step(d, op), sound, past);
    case Unselect(_) => SameTextSameRecord(d, Step(d, op), sound, past);
    case SetCanUndo(f) =>
      if f {
        SameTextSameRecord(d, Step(d, op), sound, past);
      }
  }

  lemma SameTextSameRecord(d: Doc, r: Doc, sound: bool, past: set<Text>)
    requires RecordSound(d, sound, past) && r.text == d.text && r.undo == d.undo && (d.canUndo ==> r.canUndo)
    ensures RecordSound(r, sound, past + {r.text})
  {
  }

  /** Every text a run passes through. */
  ghost function TextsOf(d: Doc, ops: seq<Op>): set<Text>
    requires DocOk(d) && RunAllowed(d, ops)
    decreases |ops|
  {
    {d.text} + if ops == [] then {} else TextsOf(Step(d, ops[0]), ops[1..])
  }

  ghost predicate SoundRun(d: Doc, sound: bool, ops: seq<Op>)
    requires DocOk(d) && RunAllowed(d, ops)
    decreases |ops|
  {
    if ops == [] then sound else SoundRun(Step(d, ops[0]), SoundAfter(d, sound, ops[0]), ops[1..])
  }

  lemma {:induction false} RunKeepsRecordSound(d: Doc, ops: seq<Op>, sound: bool, past: set<Text>)
    requires RecordSound(d, sound, past) && RunAllowed(d, ops)
    ensures RecordSound(Run(d, ops), SoundRun(d, sound, ops), past + TextsOf(d, ops))
    decreases |ops|
  {
    hide Step, Allowed, SoundAfter;
    if ops == [] {
      assert past + TextsOf(d, ops) == past;
    } else {
      var d1 := Step(d, ops[0]);
      StepKeepsRecordSound(d, ops[0], sound, past);
      RunKeepsRecordSound(d1, ops[1..], SoundAfter(d, sound, ops[0]), past + {d1.text});
      assert past + {d1.text} + TextsOf(d1, ops[1..]) == past + TextsOf(d, ops);
    }
  }

  /** After any run of a buffer that starts without the record, as long as the record is sound at
      the end, undo is defined and brings back a text the buffer had during that run. */
  lemma UndoReturnsToThePast(d: Doc, ops: seq<Op>)
    requires DocOk(d) && !d.undo.mine && RunAllowed(d, ops) && SoundRun(d, true, ops)
    ensures UndoDefined(Run(d, ops))
    ensures UndoDoc(Run(d, ops)).text in TextsOf(d, ops)
  {
    hide UndoDoc;
    assert RecordSound(d, true, {d.text});
    RunKeepsRecordSound(d, ops, true, {d.text});
    assert {d.text} + TextsOf(d, ops) == TextsOf(d, ops);
    SoundUndo(Run(d, ops), TextsOf(d, ops));
  }

  lemma SoundUndo(d: Doc, past: set<Text>)
    requires RecordSound(d, true, past)
    ensures UndoDefined(d) && UndoDoc(d).text in past
  {
    if d.undo.mine {
      UndoSwapsTextAndTarget(d);
    }
  }

  /** Without text(), copy and foreign removals in the way, the record is sound all along. */
  lemma {:induction false} RecordedRunIsSound(d: Doc, ops: seq<Op>)
    requires DocOk(d) && RunAllowed(d, ops) && (d.undo.mine || d.undo.cut == 0)
    requires forall op :: op in ops ==> !op.SetText? && !op.Copy? && op != SetCanUndo(false)
    ensures SoundRun(d, true, ops)
    decreases |ops|
  {
    hide Step, Allowed;
    if ops != [] {
      assert ops[0] in ops && forall op :: op in ops[1..] ==> op in ops;
      StepTakesRecord(d, ops[0]);
      RecordedRunIsSound(Step(d, ops[0]), ops[1..]);
    }
  }

  /** An operation takes the record, or leaves it as it is, or gives it up. */
  lemma StepTakesRecord(d: Doc, op: Op)
    requires DocOk(d) && Allowed(d, op)
    ensures var r := Step(d, op);
            r.undo.mine || r.undo == d.undo || (op == SetCanUndo(false) && r.undo == d.undo.(mine := false))
  {
    hide InsertRaw, ReplaceBetween, RemoveRaw, Splice, UpdateRange, Redisplay, InsertDoc, RemoveDoc, ReplaceDoc;
    match op
    case Insert(p, t) => InsertTakesRecord(d, p, t);
    case Remove(s, e) => RemoveTakesRecord(d, s, e);
    case Replace(s, e, t) => ReplaceTakesRecord(d, s, e, t);
    case RemoveSelection(w) => RemoveTakesRecord(d, Sel(d, w).start, Sel(d, w).end);
    case ReplaceSelection(w, t) =>
      if Sel(d, w).selected {
        ReplaceTakesRecord(d, Sel(d, w).start, Sel(d, w).end, t);
      }
    case Undo => UndoTakesRecord(d);
    case _ =>
  }

  lemma InsertTakesRecord(d: Doc, pos: int, t: CString)
    requires DocOk(d)
    ensures var r := InsertDoc(d, pos, t); r.undo.mine || r.undo == d.undo
  {
    hide Splice, UpdateRange;
  }

  lemma RemoveTakesRecord(d: Doc, start: int, end: int)
    requires DocOk(d)
    ensures var r := RemoveDoc(d, start, end); r.undo.mine || r.undo == d.undo
  {
    hide Splice, UpdateRange;
  }

  lemma ReplaceTakesRecord(d: Doc, start: int, end: int, t: CString)
    requires DocOk(d) && (t.Chars? ==> ReplaceDefined(d, start, end))
    ensures var r := ReplaceDoc(d, start, end, t); r.undo.mine || r.undo == d.undo
  {
    hide Splice, UpdateRange;
  }

  lemma UndoTakesRecord(d: Doc)
    requires DocOk(d) && UndoDefined(d)
    ensures var r := UndoDoc(d); r.undo.mine || r.undo == d.undo
  {
    hide InsertDoc, RemoveDoc, ReplaceDoc;
    var u := d.undo;
    var t := Chars(u.store[..PutBack(u)]);
    if !UndoIgnored(d) {
      if u.inserted > 0 && PutBack(u) > 0 {
        ReplaceTakesRecord(d, u.at - u.inserted, u.at, t);
      } else if u.inserted > 0 {
        RemoveTakesRecord(d, u.at - u.inserted, u.at);
      } else {
        InsertTakesRecord(d, u.at, t);
      }
    }
  }

  // ----- two buffers

  /** Two buffers of one program. They have the undo record in common, and at most one owns it. */
  datatype Two = Two(a: Doc, b: Doc)

  ghost predicate Shared(p: Two)
  {
    DocOk(p.a) && DocOk(p.b)
    && p.a.undo.(mine := false) == p.b.undo.(mine := false)
    && !(p.a.undo.mine && p.b.undo.mine)
  }

  /** What buffer `other` sees of an operation on `d`: the record, and that it lost it. */
  function Sees(other: Doc, d: Doc): Doc
  {
    other.(undo := d.undo.(mine := !d.undo.mine && other.undo.mine))
  }

  /** An operation on one of the two. One that is not allowed there and then is left out. */
  datatype Act = OnA(op: Op) | OnB(op: Op)

  ghost predicate ActAllowed(p: Two, x: Act)
  {
    match x
    case OnA(op) => Allowed(p.a, op)
    case OnB(op) => Allowed(p.b, op)
  }

  ghost function ActOn(p: Two, x: Act): (r: Two)
    requires Shared(p)
    ensures Shared(r)
  {
    if !ActAllowed(p, x) then p
    else
      match x
      case OnA(op) => var a := Step(p.a, op); StepTakesRecord(p.a, op); Two(a, Sees(p.b, a))
      case OnB(op) => var b := Step(p.b, op); StepTakesRecord(p.b, op); Two(Sees(p.a, b), b)
  }

  ghost function Acts(p: Two, xs: seq<Act>): (r: Two)
    requires Shared(p)
    ensures Shared(r)
    decreases |xs|
  {
    if xs == [] then p else Acts(ActOn(p, xs[0]), xs[1..])
  }

  /** Whether the record can be relied on by its owner after an operation on either. */
  ghost predicate SoundAct(p: Two, sound: bool, x: Act)
    requires Shared(p)
  {
    if !ActAllowed(p, x) then sound
    else
      match x
      case OnA(op) => if Step(p.a, op).undo.mine then SoundAfter(p.a, sound, op) else sound
      case OnB(op) => if Step(p.b, op).undo.mine then SoundAfter(p.b, sound, op) else sound
  }

  ghost predicate SoundActs(p: Two, sound: bool, xs: seq<Act>)
    requires Shared(p)
    decreases |xs|
  {
    if xs == [] then sound else SoundActs(ActOn(p, xs[0]), SoundAct(p, sound, xs[0]), xs[1..])
  }

  /** The texts of the two buffers through a run. */
  ghost function TextsOfA(p: Two, xs: seq<Act>): set<Text>
    requires Shared(p)
    decreases |xs|
  {
    {p.a.text} + if xs == [] then {} else TextsOfA(ActOn(p, xs[0]), xs[1..])
  }

  ghost function TextsOfB(p: Two, xs: seq<Act>): set<Text>
    requires Shared(p)
    decreases |xs|
  {
    {p.b.text} + if xs == [] then {} else TextsOfB(ActOn(p, xs[0]), xs[1..])
  }

  /** One buffer acts, the other watches: the record stays sound for whoever owns it then. */
  lemma StepKeepsBothSound(d: Doc, other: Doc, op: Op, sound: bool, past: set<Text>, otherPast: set<Text>)
    requires Allowed(d, op) && Shared(Two(d, other))
    requires RecordSound(d, sound, past) && RecordSound(other, sound, otherPast)
    ensures var r := Step(d, op);
            var sound' := if r.undo.mine then SoundAfter(d, sound, op) else sound;
            RecordSound(r, sound', past + {r.text}) && RecordSound(Sees(other, r), sound', otherPast + {other.text})
  {
    hide SoundAfter, UndoTarget;
    StepKeepsRecordSound(d, op, sound, past);
    StepTakesRecord(d, op);
    hide Step, Allowed;
    var r := Step(d, op);
    if !r.undo.mine {
      assert Sees(other, r) == other;
    }
  }

  ghost predicate BothSound(p: Two, sound: bool, pastA: set<Text>, pastB: set<Text>)
  {
    Shared(p) && RecordSound(p.a, sound, pastA) && RecordSound(p.b, sound, pastB)
  }

  lemma ActKeepsBothSound(p: Two, x: Act, sound: bool, pastA: set<Text>, pastB: set<Text>)
    requires BothSound(p, sound, pastA, pastB)
    ensures var r := ActOn(p, x);
            BothSound(r, SoundAct(p, sound, x), pastA + {r.a.text}, pastB + {r.b.text})
  {
    hide UndoTarget, RecordInRange, SoundAfter, Step, Allowed;
    if ActAllowed(p, x) {
      match x
      case OnA(op) => StepKeepsBothSound(p.a, p.b, op, sound, pastA, pastB);
      case OnB(op) => StepKeepsBothSound(p.b, p.a, op, sound, pastB, pastA);
    } else {
      assert pastA + {p.a.text} == pastA && pastB + {p.b.text} == pastB;
    }
  }

  lemma {:induction false} ActsKeepBothSound(p: Two, xs: seq<Act>, sound: bool, pastA: set<Text>, pastB: set<Text>)
    requires BothSound(p, sound, pastA, pastB)
    ensures BothSound(Acts(p, xs), SoundActs(p, sound, xs), pastA + TextsOfA(p, xs), pastB + TextsOfB(p, xs))
    decreases |xs|
  {
    hide UndoTarget, RecordInRange, ActOn, ActAllowed, SoundAct;
    if xs == [] {
      assert pastA + TextsOfA(p, xs) == pastA;
      assert pastB + TextsOfB(p, xs) == pastB;
    } else {
      var q := ActOn(p, xs[0]);
      ActKeepsBothSound(p, xs[0], sound, pastA, pastB);
      ActsKeepBothSound(q, xs[1..], SoundAct(p, sound, xs[0]), pastA + {q.a.text}, pastB + {q.b.text});
      assert pastA + {q.a.text} + TextsOfA(q, xs[1..]) == pastA + TextsOfA(p, xs);
      assert pastB + {q.b.text} + TextsOfB(q, xs[1..]) == pastB + TextsOfB(p, xs);
    }
  }

  /** However the operations on the two buffers are interleaved: as long as the record is sound at
      the end, undo is defined in either and brings back a text that very buffer has had. */
  lemma UndoReturnsToOwnPast(p: Two, xs: seq<Act>)
    requires Shared(p) && !p.a.undo.mine && !p.b.undo.mine
    requires SoundActs(p, true, xs)
    ensures var r := Acts(p, xs);
            && UndoDefined(r.a) && UndoDoc(r.a).text in TextsOfA(p, xs)
            && UndoDefined(r.b) && UndoDoc(r.b).text in TextsOfB(p, xs)
  {
    hide UndoDoc, UndoDefined;
    ActsKeepBothSound(p, xs, true, {p.a.text}, {p.b.text});
    assert {p.a.text} + TextsOfA(p, xs) == TextsOfA(p, xs);
    assert {p.b.text} + TextsOfB(p, xs) == TextsOfB(p, xs);
    SoundUndo(Acts(p, xs).a, TextsOfA(p, xs));
    SoundUndo(Acts(p, xs).b, TextsOfB(p, xs));
  }

  // ----- where the record goes stale

  /** Undo has nothing to do, or would put there what is there. */
  predicate RecordIsIdle(d: Doc)
    requires UndoFieldsOk(d.undo)
  {
    var u := d.undo;
    var a, b := Clip(d, u.at - u.inserted), Clip(d, u.at);
    UndoIgnored(d) || (a <= b && d.text[a..b] == u.store[..PutBack(u)])
  }

  lemma UndoChangesTextUnlessIdle(d: Doc)
    requires DocOk(d) && UndoDefined(d)
    ensures UndoDoc(d).text == d.text <==> RecordIsIdle(d)
  {
    hide Splice, UpdateRange;
    var u := d.undo;
    if !UndoIgnored(d) {
      UndoText(d);
      SpliceIdle(d.text, Clip(d, u.at - u.inserted), Clip(d, u.at), u.store[..PutBack(u)]);
      hide UndoDoc;
    }
  }

  lemma SpliceIdle(s: Text, a: int, b: int, t: Text)
    requires 0 <= a <= b <= |s|
    ensures Splice(s, a, b, t) == s <==> s[a..b] == t
  {
    var r := Splice(s, a, b, t);
    assert s == s[..a] + s[a..b] + s[b..];
    if r == s {
      assert |t| == b - a;
      assert r[a..b] == t;
    }
  }

  /** text() exchanges the text under the record. Undo is then still defined only if it puts
      nothing back, or if the new text reaches to where the bytes it calls inserted began. */
  lemma UndoDefinedAfterSetText(d: Doc, t: CString)
    requires DocOk(d) && d.undo.mine && d.canUndo && RecordInRange(d)
    ensures UndoDefined(SetTextDoc(d, t))
            <==> d.undo.inserted == 0 || d.undo.yankcut == 0
                 || d.undo.at - d.undo.inserted <= if t.NullString? then 0 else |t.chars|
  {
  }

  /** ... and it leaves the new text alone only when the record is idle; otherwise it edits it at
      the old place. */
  lemma UndoAfterSetText(d: Doc, t: CString)
    requires DocOk(d) && UndoDefined(SetTextDoc(d, t))
    ensures var r := SetTextDoc(d, t);
            UndoDoc(r).text == r.text <==> RecordIsIdle(r)
  {
    UndoChangesTextUnlessIdle(SetTextDoc(d, t));
  }

  /** Bytes copied in behind the record move the text after it and nothing else: undo still does
      what it would have done. */
  lemma UndoAfterCopy(d: Doc, toPos: int, t: Text)
    requires DocOk(d) && d.canUndo && d.undo.mine && RecordInRange(d)
    requires 0 <= toPos <= |d.text|
    ensures var r := CopyDoc(d, toPos, t);
            UndoDefined(r) && RecordInRange(r) && UndoDoc(r).text == UndoTarget(r)
    ensures d.undo.at <= toPos ==>
              var p := toPos - d.undo.inserted + PutBack(d.undo);
              0 <= p <= |UndoTarget(d)|
              && UndoTarget(CopyDoc(d, toPos, t)) == Splice(UndoTarget(d), p, p, t)
  {
    hide UndoDoc, Splice, UpdateRange;
    UndoSwapsTextAndTarget(CopyDoc(d, toPos, t));
    if d.undo.at <= toPos {
      SpliceBehind(d.text, d.undo.at - d.undo.inserted, d.undo.at, d.undo.store[..PutBack(d.undo)], toPos, t);
    }
  }

  lemma SpliceBehind(s: Text, a: int, b: int, u: Text, p: int, t: Text)
    requires 0 <= a <= b <= p <= |s|
    ensures Splice(Splice(s, p, p, t), a, b, u) == Splice(Splice(s, a, b, u), p - (b - a) + |u|, p - (b - a) + |u|, t)
  {
    var x := Splice(s, p, p, t);
    var y := Splice(s, a, b, u);
    assert x[..a] == s[..a] && x[b..] == s[b..p] + (t + s[p..]);
    assert y == s[..a] + u + s[b..p] + s[p..];
    assert y[..p - (b - a) + |u|] == s[..a] + u + s[b..p] && y[p - (b - a) + |u|..] == s[p..];
  }

  /** Undo gives what it would have given, with the copied bytes in it somewhere. */
  ghost predicate CarriesOver(d: Doc, toPos: int, t: Text)
    requires DocOk(d) && RecordInRange(d) && 0 <= toPos <= |d.text|
  {
    exists p :: 0 <= p <= |UndoTarget(d)|
                && UndoTarget(CopyDoc(d, toPos, t)) == Splice(UndoTarget(d), p, p, t)
  }

  /** ... whatever the text and the copied bytes are. */
  ghost predicate AlwaysCarriesOver(u: UndoFields, toPos: int)
    requires UndoFieldsOk(u)
  {
    forall d: Doc, t: Text :: d.undo == u && RecordInRange(d) && 0 <= toPos <= |d.text| ==> CarriesOver(d, toPos, t)
  }

  /** Exactly for which records and places copying can be relied on to do so: at or behind the end
      of the record, or when the record says nothing. */
  lemma UndoAfterCopyIff(u: UndoFields, toPos: int)
    requires UndoFieldsOk(u) && u.inserted <= u.at && 0 <= toPos
    ensures AlwaysCarriesOver(u, toPos) <==> u.at <= toPos || (u.inserted == 0 && PutBack(u) == 0)
  {
    if u.at <= toPos {
      forall d: Doc, t: Text | d.undo == u && RecordInRange(d) && toPos <= |d.text|
        ensures CarriesOver(d, toPos, t)
      {
        CopiedBehind(d, toPos, t);
      }
    } else if u.inserted > 0 {
      CopiedIntoInserted(u, toPos);
    } else if PutBack(u) > 0 {
      CopiedBeforeRemoved(u, toPos);
    } else {
      forall d: Doc, t: Text | d.undo == u && RecordInRange(d) && toPos <= |d.text|
        ensures CarriesOver(d, toPos, t)
      {
        SpliceNothing(d.text, u.at);
        SpliceNothing(CopyDoc(d, toPos, t).text, u.at);
        assert u.store[..0] == [] && UndoTarget(d) == d.text;
      }
    }
  }

  lemma CopiedBehind(d: Doc, toPos: int, t: Text)
    requires DocOk(d) && RecordInRange(d) && d.undo.at <= toPos <= |d.text|
    ensures CarriesOver(d, toPos, t)
  {
    hide Splice, UpdateRange;
    SpliceBehind(d.text, d.undo.at - d.undo.inserted, d.undo.at, d.undo.store[..PutBack(d.undo)], toPos, t);
    var p := toPos - d.undo.inserted + PutBack(d.undo);
    assert UndoTarget(CopyDoc(d, toPos, t)) == Splice(UndoTarget(d), p, p, t);
  }

  function Sample(s: Text, u: UndoFields): Doc
  {
    Doc(s, NO_RANGE, NO_RANGE, NO_RANGE, u, true, 0, [])
  }

  /** A text with a "b" more than another is not that other with an "a" in it. */
  lemma NotWithAnA(x: Text, y: Text, p: int)
    requires y == x + [98] && 0 <= p <= |x|
    ensures y != Splice(x, p, p, [97])
  {
    var z := Splice(x, p, p, [97]);
    assert x == x[..p] + x[p..];
    assert multiset(z)[98] == multiset(x)[98];
    assert multiset(y)[98] == multiset(x)[98] + 1;
  }

  /** In "aa...ab", undo removes what is before `at` and puts `k` there. An "a" copied in before the
      "b" moves the "b" behind `at`. */
  lemma MovedBehind(at: nat, inserted: nat, toPos: nat, k: Text)
    requires 0 < inserted <= at && toPos < at
    ensures var s := seq(at - 1, _ => 97) + [98];
            Splice(Splice(s, toPos, toPos, [97]), at - inserted, at, k) == Splice(s, at - inserted, at, k) + [98]
  {
    var s: Text := seq(at - 1, _ => 97) + [98];
    var c := Splice(s, toPos, toPos, [97]);
    assert c == seq(at, _ => 97) + [98];
    assert c[..at - inserted] == s[..at - inserted] && c[at..] == [98] && s[at..] == [];
  }

  lemma CopiedIntoInserted(u: UndoFields, toPos: int)
    requires UndoFieldsOk(u) && 0 < u.inserted <= u.at && 0 <= toPos < u.at
    ensures !AlwaysCarriesOver(u, toPos)
  {
    hide Splice, UpdateRange;
    var d := Sample(seq(u.at - 1, _ => 97) + [98], u);
    MovedBehind(u.at, u.inserted, toPos, u.store[..PutBack(u)]);
    var x, y := UndoTarget(d), UndoTarget(CopyDoc(d, toPos, [97]));
    forall p | 0 <= p <= |x| ensures y != Splice(x, p, p, [97]) {
      NotWithAnA(x, y, p);
    }
    assert !CarriesOver(d, toPos, [97]);
  }

  /** All bytes the same, but not as the first removed one, and another copied in before it. */
  lemma CopiedBeforeRemoved(u: UndoFields, toPos: int)
    requires UndoFieldsOk(u) && u.inserted == 0 && PutBack(u) > 0 && 0 <= toPos < u.at
    ensures !AlwaysCarriesOver(u, toPos)
  {
    var k := u.store[..PutBack(u)];
    var v: Byte := if k[0] == 97 then 98 else 97;
    var w: Byte := 99;
    var d := Sample(seq(u.at, _ => v), u);
    var c := CopyDoc(d, toPos, [w]);
    forall p | 0 <= p <= |UndoTarget(d)| ensures UndoTarget(c) != Splice(UndoTarget(d), p, p, [w]) {
      var x, y := UndoTarget(c), Splice(UndoTarget(d), p, p, [w]);
      assert x[toPos] == w && (p < toPos ==> x[p] == v && y[p] == w);
      assert toPos < p ==> y[toPos] == v;
      assert p == toPos ==> x[u.at] == k[0] && y[u.at] == v;
    }
    assert !CarriesOver(d, toPos, [w]);
  }

  lemma TypingAb(d: Doc)
    requires d == Doc([], NO_RANGE, NO_RANGE, NO_RANGE, UndoFields(false, 0, 0, 0, 0, []), true, 0, [])
    ensures var d1 := InsertDoc(d, 0, Chars([97, 98]));
            d1.text == [97, 98] && d1.undo == UndoFields(true, 2, 0, 2, 0, []) && d1.canUndo
  {
  }

  lemma UndoingAb(d: Doc)
    requires DocOk(d) && |d.text| == 3 && d.undo == UndoFields(true, 2, 0, 2, 0, []) && d.canUndo
    ensures UndoDefined(d) && UndoDoc(d).text == [d.text[2]]
  {
    UndoText(d);
    assert Splice(d.text, 0, 2, []) == [d.text[2]];
  }

  /** "ab" is typed, the text is set to "xyz", undo: the buffer then holds "z", which it never
      held before. */
  lemma UndoAfterSetTextCanInvent()
    ensures var d := Doc([], NO_RANGE, NO_RANGE, NO_RANGE, UndoFields(false, 0, 0, 0, 0, []), true, 0, []);
            var ops := [Insert(0, Chars([97, 98])), SetText(Chars([120, 121, 122]))];
            RunAllowed(d, ops) && UndoDefined(Run(d, ops))
            && UndoDoc(Run(d, ops)).text == [122]
            && UndoDoc(Run(d, ops)).text !in TextsOf(d, ops)
  {
    hide InsertDoc, UndoDoc, UndoDefined;
    var d := Doc([], NO_RANGE, NO_RANGE, NO_RANGE, UndoFields(false, 0, 0, 0, 0, []), true, 0, []);
    var ops := [Insert(0, Chars([97, 98])), SetText(Chars([120, 121, 122]))];
    TypingAb(d);
    var d1 := Step(d, ops[0]);
    var d2 := Step(d1, ops[1]);
    assert d2.text == [120, 121, 122];
    UndoingAb(d2);
    assert ops[1..] == [ops[1]] && ops[1..][1..] == [];
    assert Run(d1, ops[1..]) == d2;
    assert TextsOf(d1, ops[1..]) == {d1.text} + TextsOf(d2, []);
  }

  /** In "abcdef" the bytes "cde" are removed and "x" is inserted in their place; then the text is
      set to nothing. Undo would replace the range from 2 to 0. */
  lemma UndoAfterSetTextCanFail(d: Doc)
    requires d == Doc([97, 98, 99, 100, 101, 102], NO_RANGE, NO_RANGE, NO_RANGE,
                      UndoFields(false, 0, 0, 0, 0, []), true, 0, [])
    ensures var d1 := RemoveDoc(d, 2, 5);
            var d2 := InsertDoc(d1, 2, Chars([120]));
            var d3 := SetTextDoc(d2, Chars([]));
            d2.undo == UndoFields(true, 3, 0, 1, 3, [99, 100, 101]) && !UndoDefined(d3)
  {
    assert d.text[2..5] == [99, 100, 101];
  }

  /** "ab" is typed, "x" is copied in between, undo: the buffer then holds "b", which it never
      held before. */
  lemma UndoAfterCopyCanInvent(d: Doc)
    requires d == Doc([], NO_RANGE, NO_RANGE, NO_RANGE, UndoFields(false, 0, 0, 0, 0, []), true, 0, [])
    ensures var ops := [Insert(0, Chars([97, 98])), Copy(1, [120])];
            RunAllowed(d, ops) && UndoDefined(Run(d, ops))
            && UndoDoc(Run(d, ops)).text == [98]
            && UndoDoc(Run(d, ops)).text !in TextsOf(d, ops)
  {
    hide InsertDoc, UndoDoc, UndoDefined;
    var ops := [Insert(0, Chars([97, 98])), Copy(1, [120])];
    TypingAb(d);
    var d1 := Step(d, ops[0]);
    var d2 := Step(d1, ops[1]);
    assert d2.text == [97, 120, 98];
    UndoingAb(d2);
    assert ops[1..] == [ops[1]] && ops[1..][1..] == [];
    assert Run(d1, ops[1..]) == d2;
    assert TextsOf(d1, ops[1..]) == {d1.text} + TextsOf(d2, []);
  }
}
