/** Two gap buffers in memory that share the undo record, through any run of operations on them. */
module TextBufferRuns {
  import opened Integers
  import opened TextSpec
  import opened Selections
  import opened TextModel
  import opened TextHistory
  import opened TextUndo
  import opened TextBuffers

  /** Two buffers that have nothing in common but the undo record. */
  ghost predicate Apart(a: TextBuffer, b: TextBuffer)
    reads a, a.Repr(), b, b.Repr()
  {
    && a.Valid() && b.Valid() && a != b && a.undo == b.undo
    && forall o :: o in a.Repr() && o in b.Repr() ==> o == a.undo
  }

  ghost function Both(a: TextBuffer, b: TextBuffer): (p: Two)
    requires Apart(a, b)
    reads a, a.Repr(), b, b.Repr()
    ensures Shared(p)
  {
    Two(a.View(), b.View())
  }

  /** The record keeps its owner, passes to this buffer, or is dropped by it. */
  twostate predicate OwnerAfter(d: TextBuffer)
    reads d.undo
  {
    || d.undo.widget == old(d.undo.widget)
    || d.undo.widget == d
    || (d.undo.widget == null && old(d.undo.widget) == d)
  }

  /** Bytes come in from a buffer that holds them. */
  method CopyIn(d: TextBuffer, toPos: int, bytes: Text)
    requires d.Valid() && 0 <= toPos <= d.Length()
    modifies d.Repr()
    ensures d.Valid() && d.View() == CopyDoc(old(d.View()), toPos, bytes)
    ensures fresh(d.Repr() - old(d.Repr())) && OwnerAfter(d)
  {
    var record := new UndoRecord();
    var from := new TextBuffer(0, 0, record);
    from.SetText(Chars(bytes));
    assert from.Text()[0..|bytes|] == bytes;
    d.Copy(from, 0, |bytes|, toPos);
  }

  method Perform(d: TextBuffer, op: Op)
    requires d.Valid() && Allowed(d.View(), op)
    modifies d.Repr()
    ensures d.Valid() && d.View() == Step(old(d.View()), op)
    ensures fresh(d.Repr() - old(d.Repr())) && OwnerAfter(d)
  {
    hide InsertDoc, RemoveDoc, ReplaceDoc, SetTextDoc, CopyDoc, TabDistanceDoc, SelectDoc, UnselectDoc;
    hide RemoveSelectionDoc, ReplaceSelectionDoc, CanUndoDoc, UndoDoc, UndoDefined, ReplaceDefined;
    match op
    case Insert(p, t) => d.Insert(p, t);
    case Remove(s, e) => d.Remove(s, e);
    case Replace(s, e, t) => d.Replace(s, e, t);
    case SetText(t) => d.SetText(t);
    case Copy(p, t) => CopyIn(d, p, t);
    case TabDistance => d.TabDistance(d.mTabDist);
    case Select(w, s, e) => d.Select(w, s, e);
    case Unselect(w) => d.Unselect(w);
    case RemoveSelection(w) => d.RemoveSelection(w);
    case ReplaceSelection(w, t) => d.ReplaceSelection(w, t);
    case SetCanUndo(f) => d.CanUndo(f);
    case Undo => var _, _ := d.Undo(0);
  }

  /** What the other buffer sees of it. */
  method PerformOne(d: TextBuffer, other: TextBuffer, op: Op)
    requires Apart(d, other) && Allowed(d.View(), op)
    modifies d.Repr()
    ensures Apart(d, other) && fresh(d.Repr() - old(d.Repr())) && other.Repr() == old(other.Repr())
    ensures d.View() == Step(old(d.View()), op) && other.View() == Sees(old(other.View()), d.View())
  {
    hide Step, Allowed;
    assert other.mBuf in other.Repr() && (other.mBuf as object) != d.undo;
    ghost var text := other.Text();
    Perform(d, op);
    assert other.Text() == text;
  }

  /** One operation on either of two buffers does to both what the values say. */
  method PerformAct(a: TextBuffer, b: TextBuffer, x: Act)
    requires Apart(a, b) && ActAllowed(Both(a, b), x)
    modifies a.Repr(), b.Repr()
    ensures Apart(a, b) && Both(a, b) == ActOn(old(Both(a, b)), x)
    ensures fresh(a.Repr() - old(a.Repr())) && fresh(b.Repr() - old(b.Repr()))
  {
    hide Step, Allowed, Sees;
    match x
    case OnA(op) => PerformOne(a, b, op);
    case OnB(op) => PerformOne(b, a, op);
  }

  ghost predicate ActsAllowed(p: Two, xs: seq<Act>)
    requires Shared(p)
    decreases |xs|
  {
    xs != [] ==> ActAllowed(p, xs[0]) && ActsAllowed(ActOn(p, xs[0]), xs[1..])
  }

  /** ... and so does any interleaved run. */
  method PerformActs(a: TextBuffer, b: TextBuffer, xs: seq<Act>)
    requires Apart(a, b) && ActsAllowed(Both(a, b), xs)
    modifies a.Repr(), b.Repr()
    ensures Apart(a, b) && Both(a, b) == Acts(old(Both(a, b)), xs)
    ensures fresh(a.Repr() - old(a.Repr())) && fresh(b.Repr() - old(b.Repr()))
  {
    hide ActOn, ActAllowed;
    var i := 0;
    assert xs[0..] == xs;
    while i < |xs|
      invariant 0 <= i <= |xs| && Apart(a, b)
      invariant fresh(a.Repr() - old(a.Repr())) && fresh(b.Repr() - old(b.Repr()))
      invariant ActsAllowed(Both(a, b), xs[i..]) && Acts(Both(a, b), xs[i..]) == Acts(old(Both(a, b)), xs)
    {
      assert xs[i..][0] == xs[i] && xs[i..][1..] == xs[i + 1..];
      PerformAct(a, b, xs[i]);
      i := i + 1;
    }
  }

  /** After a run on two buffers that did not own the record, with the record sound at the end, undo
      in the first brings back a text that it has had. */
  method UndoAfterActs(a: TextBuffer, b: TextBuffer, xs: seq<Act>, cursorPos: int)
      returns (done: bool, cursor: int)
    requires Apart(a, b) && ActsAllowed(Both(a, b), xs) && SoundActs(Both(a, b), true, xs)
    requires a.undo.widget != a && a.undo.widget != b
    modifies a.Repr(), b.Repr()
    ensures a.Valid() && a.Text() in TextsOfA(old(Both(a, b)), xs)
  {
    hide Acts, ActsAllowed, SoundActs, TextsOfA, UndoDoc, UndoDefined;
    UndoReturnsToOwnPast(Both(a, b), xs);
    PerformActs(a, b, xs);
    done, cursor := a.Undo(cursorPos);
  }
}
