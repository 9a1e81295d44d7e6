/** What each operation does, piece by piece: to the text, the place a cursor is put, the selections,
    the switch for undo and the listeners. */
module TextEffects {
  import opened Integers
  import opened TextSpec
  import opened Selections
  import opened TextModel
  import opened TextHistory
  import opened TextSelections
  import opened TextUndo

  /** `y` is `x` with the bytes [a, b) exchanged for `t`. */
  ghost predicate Exchanged(x: Text, a: int, b: int, t: Text, y: Text)
  {
    && 0 <= a <= b <= |x| && |y| == |x| - (b - a) + |t|
    && y[..a] == x[..a] && y[a..a + |t|] == t && y[a + |t|..] == x[b..]
  }

  /** `q` is the place of a text of length `n` that is nearest to `p`. */
  predicate Near(p: int, n: int, q: int)
  {
    0 <= q <= n && (0 <= p <= n ==> q == p) && (p < 0 ==> q == 0) && (p > n ==> q == n)
  }

  /** Between the two states the bytes [a, b) were exchanged for `t`, all selections were told so, and
      nothing happened to the switch for undo. */
  ghost predicate Edited(d: Doc, r: Doc, a: int, b: int, t: Text)
  {
    && Exchanged(d.text, a, b, t, r.text) && r.canUndo == d.canUndo
    && forall w: Which :: RangeFollows(Sel(d, w), Sel(r, w), a, b, |t|)
  }

  /** A removal is followed and then an insertion; neither if there is none. */
  predicate RangeFollows(r: Range, q: Range, a: int, b: int, n: int)
  {
    var r1 := if a == b then r else UpdateRange(r, a, b - a, 0);
    q == if n == 0 then r1 else UpdateRange(r1, a, 0, n)
  }

  lemma SpliceExchanges(x: Text, a: int, b: int, t: Text)
    requires 0 <= a <= b <= |x|
    ensures Exchanged(x, a, b, t, Splice(x, a, b, t))
  {
    SpliceParts(x, a, b, t);
    assert Splice(x, a, b, t)[a..a + |t|] == t;
  }

  lemma InsertAtEffect(d: Doc, q: int, t: Text)
    requires DocOk(d) && 0 <= q <= |d.text| && t != []
    ensures var r := InsertAt(d, q, t);
            && Edited(d, r, q, q, t) && r.hint == q + |t| && (!d.canUndo ==> r.undo == d.undo)
            && r.notices == d.notices + [Predelete(q, 0), Modified(q, |t|, 0, 0, [], r.text)]
  {
    hide UpdateRange, Splice, NoteInsert, Exchanged;
    SpliceExchanges(d.text, q, q, t);
  }

  lemma RemoveBetweenEffect(d: Doc, a: int, b: int)
    requires DocOk(d) && 0 <= a < b <= |d.text|
    ensures var r := RemoveBetween(d, a, b);
            && Edited(d, r, a, b, []) && r.hint == a && (!d.canUndo ==> r.undo == d.undo)
            && r.notices == d.notices + [Predelete(a, b - a), Modified(a, 0, b - a, 0, d.text[a..b], r.text)]
  {
    hide UpdateRange, Splice, NoteRemove, Exchanged;
    SpliceExchanges(d.text, a, b, []);
  }

  lemma ReplacedFollows(r: Range, a: int, b: int, n: int)
    requires r.selected ==> r.start < r.end
    ensures RangeFollows(r, if n == 0 then UpdateRange(r, a, b - a, 0) else ReplacedRange(r, a, b, n), a, b, n)
  {
    NothingHappens(r, a);
  }

  lemma ReplaceBetweenEffect(d: Doc, a: int, b: int, t: Text)
    requires DocOk(d) && 0 <= a <= b <= |d.text| && SelectionsOrdered(d)
    ensures var r := ReplaceBetween(d, a, b, t);
            && Edited(d, r, a, b, t) && r.hint == a + |t| && (!d.canUndo ==> r.undo == d.undo)
            && r.notices == d.notices + [Predelete(a, b - a), Modified(a, |t|, b - a, 0, d.text[a..b], r.text)]
  {
    SpliceExchanges(d.text, a, b, t);
    SplicedTwice(d.text, a, b, t);
    hide UpdateRange, Splice, NoteRemove, NoteInsert, Exchanged, RangeFollows;
    forall w: Which ensures RangeFollows(Sel(d, w), Sel(ReplaceBetween(d, a, b, t), w), a, b, |t|) {
      ReplacedFollows(Sel(d, w), a, b, |t|);
    }
  }

  /** A stored range that is selected is not empty. */
  ghost predicate SelectionsOrdered(d: Doc)
  {
    forall w: Which :: Sel(d, w).selected ==> Sel(d, w).start < Sel(d, w).end
  }

  // ----- editing

  /** Bytes come in at the place nearest to the one asked for; the cursor belongs behind them. */
  lemma InsertEffect(d: Doc, pos: int, t: Text, q: int)
    requires DocOk(d) && t != [] && Near(pos, |d.text|, q)
    ensures var r := Step(d, Insert(pos, Chars(t)));
            && Edited(d, r, q, q, t) && r.hint == q + |t| && (!d.canUndo ==> r.undo == d.undo)
            && r.notices == d.notices + [Predelete(q, 0), Modified(q, |t|, 0, 0, [], r.text)]
  {
    hide InsertAt, Exchanged;
    InsertAtEffect(d, q, t);
  }

  /** The bytes between the two places, given in either order, go; the cursor belongs there. */
  lemma RemoveEffect(d: Doc, s: int, e: int, a: int, b: int)
    requires DocOk(d) && Near(if s <= e then s else e, |d.text|, a) && Near(if s <= e then e else s, |d.text|, b)
    ensures a == b ==> Step(d, Remove(s, e)) == d
    ensures a < b ==>
              var r := Step(d, Remove(s, e));
              && Edited(d, r, a, b, []) && r.hint == a && (!d.canUndo ==> r.undo == d.undo)
              && r.notices == d.notices + [Predelete(a, b - a), Modified(a, 0, b - a, 0, d.text[a..b], r.text)]
  {
    hide RemoveBetween, Exchanged;
    if a < b {
      RemoveBetweenEffect(d, a, b);
    }
  }

  /** One exchange, announced as one; the cursor belongs behind the new bytes. */
  lemma ReplaceEffect(d: Doc, s: int, e: int, t: Text, a: int, b: int)
    requires DocOk(d) && Allowed(d, Replace(s, e, Chars(t))) && SelectionsOrdered(d)
    requires Near(s, |d.text|, a) && Near(e, |d.text|, b)
    ensures var r := Step(d, Replace(s, e, Chars(t)));
            && Edited(d, r, a, b, t) && r.hint == a + |t| && (!d.canUndo ==> r.undo == d.undo)
            && r.notices == d.notices + [Predelete(a, b - a), Modified(a, |t|, b - a, 0, d.text[a..b], r.text)]
  {
    hide ReplaceBetween, Exchanged;
    ReplaceBetweenEffect(d, a, b, t);
  }

  /** A null pointer, and for insertions an empty string, does nothing. */
  lemma NothingGiven(d: Doc, s: int, e: int)
    requires DocOk(d)
    ensures Step(d, Insert(s, NullString)) == d && Step(d, Insert(s, Chars([]))) == d
    ensures Step(d, Replace(s, e, NullString)) == d
  {
  }

  /** The text is exchanged and everything else stays, but for what the selections make of it. */
  lemma SetTextEffect(d: Doc, t: CString)
    requires DocOk(d)
    ensures var r := Step(d, SetText(t));
            var n := |d.text|;
            && r.text == (if t.Chars? then t.chars else [])
            && r.undo == d.undo && r.canUndo == d.canUndo && r.hint == d.hint
            && r.notices == d.notices + [Predelete(0, n), Modified(0, |r.text|, n, 0, d.text, r.text)]
            && forall w: Which :: Sel(r, w) == UpdateRange(Sel(d, w), 0, n, 0)
  {
  }

  lemma CopyEffect(d: Doc, p: int, t: Text)
    requires DocOk(d) && 0 <= p <= |d.text| && SelectionsOrdered(d)
    ensures var r := Step(d, Copy(p, t));
            Edited(d, r, p, p, t) && r.undo == d.undo && r.hint == d.hint && r.notices == d.notices
  {
    SpliceExchanges(d.text, p, p, t);
    hide UpdateRange, Splice, Exchanged, RangeFollows;
    forall w: Which ensures RangeFollows(Sel(d, w), Sel(CopyDoc(d, p, t), w), p, p, |t|) {
      ReplacedFollows(Sel(d, w), p, p, |t|);
      NothingReplaced(Sel(d, w), p, p, |t|);
    }
  }

  lemma TabDistanceEffect(d: Doc)
    requires DocOk(d)
    ensures var r := Step(d, TabDistance);
            var n := |d.text|;
            && r.(notices := d.notices) == d
            && r.notices == d.notices + [Predelete(0, n), Modified(0, n, n, 0, d.text, d.text)]
  {
  }

  // ----- selecting

  /** The new notices tell of no bytes. */
  ghost predicate OnlyRedraws(d: Doc, r: Doc)
  {
    d.notices <= r.notices && OnlyLooks(r.notices[|d.notices|..])
  }

  /** They ask to redraw this position. */
  ghost predicate Asked(d: Doc, r: Doc, p: int)
    requires OnlyRedraws(d, r)
  {
    exists n :: n in r.notices[|d.notices|..] && n.at <= p < n.at + n.nRestyled
  }

  /** Nothing but selection w and the log differs. */
  ghost predicate OnlySelection(d: Doc, r: Doc, w: Which)
  {
    && r.text == d.text && r.undo == d.undo && r.canUndo == d.canUndo && r.hint == d.hint
    && forall v: Which :: v != w ==> Sel(r, v) == Sel(d, v)
  }

  lemma RedisplayLooks(a: Range, b: Range, seen: Text)
    ensures OnlyLooks(Redisplay(a, b, seen))
  {
  }

  lemma RedrawsChange(d: Doc, w: Which, n: Range, p: int)
    requires (Sel(d, w).selected ==> Sel(d, w).start < Sel(d, w).end) && (n.selected ==> n.start < n.end)
    ensures var r := Tell(SetSel(d, w, n), Redisplay(Sel(d, w), n, d.text));
            OnlyRedraws(d, r) && (Asked(d, r, p) <==> Within(p, Sel(d, w)) != Within(p, n))
  {
    hide Redisplay, OnlyLooks, Within;
    var ns := Redisplay(Sel(d, w), n, d.text);
    RedisplayLooks(Sel(d, w), n, d.text);
    assert (d.notices + ns)[|d.notices|..] == ns;
    RedisplayIsExact(Sel(d, w), n, d.text, p);
  }

  /** The range from the smaller to the larger place is selected, unless it is empty; what enters or
      leaves the selection is redrawn. */
  lemma SelectEffect(d: Doc, w: Which, s: int, e: int)
    requires DocOk(d) && SelectionsOrdered(d)
    ensures var r := Step(d, Select(w, s, e));
            && Sel(r, w) == Range(if s <= e then s else e, if s <= e then e else s, s != e)
            && OnlySelection(d, r, w) && OnlyRedraws(d, r)
            && forall p :: Asked(d, r, p) <==> Within(p, Sel(d, w)) != Within(p, Sel(r, w))
  {
    hide Redisplay, OnlyRedraws, Asked;
    forall p {
      RedrawsChange(d, w, MakeRange(s, e), p);
    }
    RedrawsChange(d, w, MakeRange(s, e), 0);
  }

  /** The selection is dropped, and what was in it redrawn. */
  lemma UnselectEffect(d: Doc, w: Which)
    requires DocOk(d) && SelectionsOrdered(d)
    ensures var r := Step(d, Unselect(w));
            && !Sel(r, w).selected && OnlySelection(d, r, w) && OnlyRedraws(d, r)
            && forall p :: Asked(d, r, p) <==> Within(p, Sel(d, w))
  {
    hide Redisplay, OnlyRedraws, Asked;
    var n := Sel(d, w).(selected := false);
    forall p {
      RedrawsChange(d, w, n, p);
    }
    RedrawsChange(d, w, n, 0);
  }

  /** A selection in the text is removed as such a range is, and with it the selection. */
  lemma RemoveSelectionEffect(d: Doc, w: Which)
    requires DocOk(d)
    ensures var v := Sel(d, w);
            Step(d, RemoveSelection(w)) == if v.selected then Step(d, Remove(v.start, v.end)) else d
    ensures RangeOk(Sel(d, w), |d.text|) ==> !Sel(Step(d, RemoveSelection(w)), w).selected
  {
    hide RemoveBetween;
    var v := Sel(d, w);
    if v.selected && RangeOk(v, |d.text|) {
      RemoveBetweenEffect(d, v.start, v.end);
      assert RangeFollows(v, Sel(RemoveBetween(d, v.start, v.end), w), v.start, v.end, 0);
    }
  }

  /** A selection whose ends are in order is replaced as such a range is, dropped, and redrawn. */
  lemma ReplaceSelectionEffect(d: Doc, w: Which, t: CString)
    requires DocOk(d) && Allowed(d, ReplaceSelection(w, t))
    ensures !Sel(d, w).selected ==> Step(d, ReplaceSelection(w, t)) == d
    ensures Sel(d, w).selected ==>
              var v := Sel(d, w);
              var q := Step(d, Replace(v.start, v.end, t));
              var r := Step(d, ReplaceSelection(w, t));
              && !Sel(r, w).selected && OnlySelection(q, r, w)
              && r.notices == q.notices + [Modified(v.start, 0, 0, v.end - v.start, [], r.text)]
  {
    hide ReplaceDoc;
  }

  lemma SetCanUndoEffect(d: Doc, flag: bool)
    requires DocOk(d)
    ensures var r := Step(d, SetCanUndo(flag));
            && r.(undo := d.undo, canUndo := d.canUndo) == d && r.canUndo == flag
            && r.undo.(mine := d.undo.mine) == d.undo && r.undo.mine == (d.undo.mine && flag)
  {
  }

  // ----- undo

  /** Number of bytes put back: removed ones, or those an insertion took over. */
  lemma PutBackIs(u: UndoFields)
    requires UndoFieldsOk(u)
    ensures PutBack(u) == u.cut + u.yankcut
  {
  }

  /** The three ways to take a group of edits back. */
  lemma UndoWays(d: Doc, a: int, b: int)
    requires DocOk(d) && Allowed(d, Undo) && UndoEdits(d)
    requires Near(d.undo.at - d.undo.inserted, |d.text|, a) && Near(d.undo.at, |d.text|, b)
    ensures a <= b
    ensures var u := d.undo;
            var back := u.store[..u.cut + u.yankcut];
            UndoDoc(d) == if u.inserted > 0 && |back| > 0 then ReplaceBetween(d, a, b, back)
                          else if u.inserted > 0 then RemoveBetween(d, a, b)
                          else InsertAt(d, a, back).(undo := InsertAt(d, a, back).undo.(yankcut := 0))
    ensures d.undo.inserted == 0 ==> a == b
    ensures d.undo.inserted > 0 && d.undo.cut + d.undo.yankcut == 0 ==> a < b
  {
    hide ReplaceBetween, RemoveBetween, InsertAt;
    PutBackIs(d.undo);
    var u := d.undo;
    assert a == Clip(d, u.at - u.inserted) && b == Clip(d, u.at);
    if u.inserted > 0 && PutBack(u) > 0 {
      assert a == Max(u.at - u.inserted, 0) && b == Min(u.at, |d.text|);
    }
  }

  lemma EditedRecord(d: Doc, q: Doc, r: Doc, a: int, b: int, t: Text)
    requires Edited(d, q, a, b, t) && r == q.(undo := r.undo)
    ensures Edited(d, r, a, b, t)
  {
    forall w: Which ensures Sel(r, w) == Sel(q, w) {
    }
  }

  lemma ExchangedAround(d: Doc, r: Doc, a: int, b: int, t: Text)
    requires Edited(d, r, a, b, t)
    ensures a + |t| <= |r.text| && r.text[..a + |t|] == d.text[..a] + t && r.text[a + |t|..] == d.text[b..]
  {
    assert r.text[..a + |t|] == r.text[..a] + r.text[a..a + |t|];
  }

  lemma UndoDocEffect(d: Doc, a: int, b: int)
    requires DocOk(d) && Allowed(d, Undo) && UndoEdits(d) && SelectionsOrdered(d)
    requires Near(d.undo.at - d.undo.inserted, |d.text|, a) && Near(d.undo.at, |d.text|, b)
    ensures var back := d.undo.store[..d.undo.cut + d.undo.yankcut];
            a <= b && Edited(d, UndoDoc(d), a, b, back) && UndoDoc(d).hint == a + |back|
  {
    var back := d.undo.store[..d.undo.cut + d.undo.yankcut];
    UndoWays(d, a, b);
    hide ReplaceBetween, RemoveBetween, InsertAt, UndoDoc, UndoEdits, UndoDefined, Edited;
    if d.undo.inserted > 0 && |back| > 0 {
      ReplaceBetweenEffect(d, a, b, back);
    } else if d.undo.inserted > 0 {
      RemoveBetweenEffect(d, a, b);
    } else {
      InsertAtEffect(d, a, back);
      EditedRecord(d, InsertAt(d, a, back), UndoDoc(d), a, b, back);
    }
  }

  /** An undo that edits: the stored bytes take the place of those it calls inserted, and the cursor
      belongs behind them. */
  lemma UndoEffect(d: Doc, a: int, b: int)
    requires DocOk(d) && Allowed(d, Undo) && UndoEdits(d) && SelectionsOrdered(d)
    requires Near(d.undo.at - d.undo.inserted, |d.text|, a) && Near(d.undo.at, |d.text|, b)
    ensures var back := d.undo.store[..d.undo.cut + d.undo.yankcut];
            var r := Step(d, Undo);
            && a <= b && Edited(d, r, a, b, back) && r.hint == a + |back|
            && 0 <= r.hint <= |r.text| && r.text[..r.hint] == d.text[..a] + back && r.text[r.hint..] == d.text[b..]
  {
    hide UndoDoc, UndoEdits, UndoDefined, Edited;
    UndoDocEffect(d, a, b);
    ExchangedAround(d, UndoDoc(d), a, b, d.undo.store[..d.undo.cut + d.undo.yankcut]);
  }

  /** When undo edits: there are bytes to put back, or bytes in the text that it calls inserted; and
      the record is this buffer's. */
  lemma UndoEditsIff(d: Doc, a: int, b: int)
    requires DocOk(d) && Near(d.undo.at - d.undo.inserted, |d.text|, a) && Near(d.undo.at, |d.text|, b)
    ensures UndoEdits(d) <==> d.undo.mine && (d.undo.cut + d.undo.yankcut > 0 || a != b)
    ensures Allowed(d, Undo) && !UndoEdits(d) ==> Step(d, Undo).(undo := d.undo) == d
  {
    PutBackIs(d.undo);
  }

  /** undo answers the cursor hint whenever the record holds something. That is a place of the text
      exactly if undo edits, or the hint was one before. */
  lemma UndoCursorInText(d: Doc)
    requires DocOk(d) && Allowed(d, Undo) && SelectionsOrdered(d)
    ensures var r := Step(d, Undo);
            0 <= r.hint <= |r.text| <==> UndoEdits(d) || 0 <= d.hint <= |d.text|
  {
    var u := d.undo;
    if UndoEdits(d) {
      UndoEffect(d, Clip(d, u.at - u.inserted), Clip(d, u.at));
    } else {
      UndoEditsIff(d, Clip(d, u.at - u.inserted), Clip(d, u.at));
    }
  }

  /** "abc" is typed, the text is set to nothing, undo: there is nothing left to remove, and the place
      answered is 3. */
  lemma UndoCursorCanBeOutside(d: Doc)
    requires d == Doc([], NO_RANGE, NO_RANGE, NO_RANGE, UndoFields(false, 0, 0, 0, 0, []), true, 0, [])
    ensures var d1 := Step(d, Insert(0, Chars([97, 98, 99])));
            var d2 := Step(d1, SetText(Chars([])));
            Allowed(d2, Undo) && !UndoIgnored(d2) && d2.undo.inserted > 0
            && Step(d2, Undo).text == [] && Step(d2, Undo).hint == 3
  {
    InsertEffect(d, 0, [97, 98, 99], 0);
    var d1 := Step(d, Insert(0, Chars([97, 98, 99])));
    assert d1.undo == UndoFields(true, 3, 0, 3, 0, []);
    SetTextEffect(d1, Chars([]));
  }

  // ----- the bytes selected after an edit

  /** A selection that an edit does not run out of stands for what is left of its bytes, and for the
      new bytes if they come in strictly inside. */
  lemma EditedSelection(d: Doc, r: Doc, a: int, b: int, t: Text, w: Which)
    requires Edited(d, r, a, b, t) && RangeOk(Sel(d, w), |d.text|) && Sel(d, w).selected
    requires !(Sel(d, w).start < a < Sel(d, w).end < b)
    ensures RangeOk(Sel(r, w), |r.text|)
    ensures var v, s := Sel(d, w), d.text;
            Selected(r.text, Sel(r, w))
            == s[v.start..if a < v.start then v.start else if a > v.end then v.end else a]
               + (if v.start < a && b < v.end then t else [])
               + s[if b < v.start then v.start else if b > v.end then v.end else b..v.end]
  {
    ExchangedIsSplice(d.text, a, b, t, r.text);
    EditedBytes(d.text, Sel(d, w), a, b, t);
    NothingHappens(Sel(d, w), a);
  }

  lemma ExchangedIsSplice(x: Text, a: int, b: int, t: Text, y: Text)
    requires Exchanged(x, a, b, t, y)
    ensures y == Splice(x, a, b, t)
  {
    assert y == y[..a] + y[a..a + |t|] + y[a + |t|..];
  }
}
