/** The gap buffer: one array with an unused stretch in it, moved to wherever text is edited. */
module TextBuffers {
  import opened Integers
  import opened TextSpec
  import opened Selections
  import opened TextModel
  import opened Utf8

  /** The undo variables of the source file. There is one set for all buffers. */
  class UndoRecord {
    var widget: TextBuffer?
    var at: int
    var cut: nat
    var inserted: nat
    var yankcut: nat
    var store: Text

    constructor ()
      ensures widget == null && Fields(null) == UndoFields(true, 0, 0, 0, 0, [])
    {
      widget, at, cut, inserted, yankcut, store := null, 0, 0, 0, 0, [];
    }

    ghost function Fields(b: TextBuffer?): UndoFields
      reads this
    {
      UndoFields(widget == b, at, cut, inserted, yankcut, store)
    }
  }

  /** The bytes between two positions in either order; none when the first is outside the text. */
  function Between(s: Text, start: int, end: int): Text
    requires 0 <= start <= |s| ==> end >= 0
  {
    if start < 0 || start > |s| then [] else s[Min(start, end)..Min(Max(start, end), |s|)]
  }

  class TextBuffer {
    var mBuf: array<Byte>
    var mGapStart: int
    var mGapEnd: int
    var mLength: int
    const mPreferredGapSize: nat
    var mTabDist: int
    var mCanUndo: bool
    var mCursorPosHint: int
    const mPrimary: TextSelection
    const mSecondary: TextSelection
    const mHighlight: TextSelection
    const undo: UndoRecord
    /** Every callback made so far. */
    ghost var notices: seq<Notice>

    ghost function Repr(): set<object>
      reads this
    {
      {this, mBuf, mPrimary, mSecondary, mHighlight, undo}
    }

    /** The gap lies inside the array and everything else of the array is text. */
    predicate GapOk()
      reads `mBuf, `mGapStart, `mGapEnd, `mLength, mBuf
    {
      && 0 <= mGapStart <= mGapEnd
      && mGapStart <= mLength
      && mBuf.Length == mGapEnd - mGapStart + mLength
    }

    ghost predicate Valid()
      reads Repr()
    {
      && GapOk()
      && mPrimary != mSecondary && mPrimary != mHighlight && mSecondary != mHighlight
      && UndoFieldsOk(undo.Fields(this))
    }

    /** The text the array stands for: everything outside the gap. */
    ghost function Text(): (t: Text)
      requires GapOk()
      reads `mBuf, `mGapStart, `mGapEnd, `mLength, mBuf
      ensures |t| == mLength
    {
      mBuf[..mGapStart] + mBuf[mGapEnd..]
    }

    ghost function View(): Doc
      requires Valid()
      reads Repr()
    {
      Doc(Text(), mPrimary.Value(), mSecondary.Value(), mHighlight.Value(), undo.Fields(this),
          mCanUndo, mCursorPosHint, notices)
    }

    constructor (requestedSize: nat, preferredGapSize: nat, undo: UndoRecord)
      requires UndoFieldsOk(undo.Fields(null))
      ensures Valid() && fresh(Repr() - {undo}) && this.undo == undo
      ensures View() == Doc([], NO_RANGE, NO_RANGE, NO_RANGE, undo.Fields(null).(mine := false), true, 0, [])
    {
      mLength := 0;
      mPreferredGapSize := preferredGapSize;
      mBuf := new Byte[requestedSize + preferredGapSize];
      mGapStart := 0;
      mGapEnd := requestedSize + preferredGapSize;
      mTabDist := 8;
      mPrimary := new TextSelection();
      mSecondary := new TextSelection();
      mHighlight := new TextSelection();
      mCursorPosHint := 0;
      mCanUndo := true;
      this.undo := undo;
      notices := [];
    }

    // ----- reading

    function Length(): (n: int)
      requires Valid()
      reads Repr()
      ensures n == |Text()|
    {
      mLength
    }

    /** The array index of text position `pos`. */
    function Address(pos: int): (a: int)
      requires Valid()
      reads Repr()
      ensures 0 <= pos < mLength ==>
                0 <= a < mBuf.Length && !(mGapStart <= a < mGapEnd) && mBuf[a] == Text()[pos]
    {
      SkipGap(pos, mGapStart, mGapEnd)
    }

    /** The text position stored at array index `a`. */
    function PositionAt(a: int): int
      requires Valid()
      reads Repr()
    {
      if a < mGapStart then a else a - (mGapEnd - mGapStart)
    }

    /** The address map is a bijection from the text positions to the array outside the gap. */
    lemma AddressIsBijection(p: int, a: int)
      requires Valid()
      ensures 0 <= p < mLength ==> PositionAt(Address(p)) == p
      ensures 0 <= a < mBuf.Length && !(mGapStart <= a < mGapEnd) ==>
                0 <= PositionAt(a) < mLength && Address(PositionAt(a)) == a
    {
    }

    /** NUL outside the text. */
    function ByteAt(pos: int): (c: int)
      requires Valid()
      reads Repr()
      ensures c == if 0 <= pos < |Text()| then Text()[pos] else 0
    {
      if pos < 0 || pos >= mLength then 0 else mBuf[Address(pos)]
    }

    method GetText() returns (t: Text)
      requires Valid()
      ensures t == Text()
    {
      t := mBuf[..mGapStart] + mBuf[mGapEnd..mGapEnd + (mLength - mGapStart)];
    }

    method TextRange(start: int, end: int) returns (t: Text)
      requires Valid()
      requires 0 <= start <= Length() ==> end >= 0
      ensures t == Between(Text(), start, end)
      ensures start < 0 || start > |Text()| ==> t == []
      ensures 0 <= start <= |Text()| ==>
                t == if end < start then Text()[end..start]
                     else if end <= |Text()| then Text()[start..end] else Text()[start..]
    {
      if start < 0 || start > mLength {
        return [];
      }
      var lo, hi := start, end;
      if hi < lo {
        lo, hi := hi, lo;
      }
      if hi > mLength {
        hi := mLength;
      }
      t := CopyOut(lo, hi);
    }

    /** The three-way copy around the gap. */
    method CopyOut(lo: int, hi: int) returns (t: Text)
      requires GapOk() && 0 <= lo <= hi <= mLength
      ensures t == Text()[lo..hi]
    {
      RangeAroundGap(mBuf[..], mGapStart, mGapEnd, lo, hi);
      if hi <= mGapStart {
        t := mBuf[lo..hi];
      } else if lo >= mGapStart {
        var gap := mGapEnd - mGapStart;
        t := mBuf[lo + gap..hi + gap];
      } else {
        var part1Length := mGapStart - lo;
        t := mBuf[lo..mGapStart] + mBuf[mGapEnd..mGapEnd + (hi - lo - part1Length)];
      }
    }

    static lemma RangeAroundGap(m: Text, gapStart: int, gapEnd: int, lo: int, hi: int)
      requires 0 <= gapStart <= gapEnd <= |m|
      requires 0 <= lo <= hi <= |m| - (gapEnd - gapStart)
      ensures (m[..gapStart] + m[gapEnd..])[lo..hi] ==
              if hi <= gapStart then m[lo..hi]
              else if lo >= gapStart then m[lo + (gapEnd - gapStart)..hi + (gapEnd - gapStart)]
              else m[lo..gapStart] + m[gapEnd..gapEnd + (hi - gapStart)]
    {
      var t, gap := m[..gapStart] + m[gapEnd..], gapEnd - gapStart;
      assert forall k {:trigger t[k]} :: 0 <= k < |t| ==> t[k] == m[if k < gapStart then k else k + gap];
      var u := t[lo..hi];
      if hi <= gapStart {
        assert u == m[lo..hi];
      } else if lo >= gapStart {
        assert u == m[lo + gap..hi + gap];
      } else {
        var v := m[lo..gapStart] + m[gapEnd..gapEnd + (hi - gapStart)];
        forall k | 0 <= k < |u| ensures u[k] == v[k] {
          assert u[k] == t[lo + k];
        }
      }
    }

    // ----- the gap

    /** memmove inside the array. */
    method MoveBytes(to: int, from: int, n: int)
      requires 0 <= n && 0 <= to && to + n <= mBuf.Length && 0 <= from && from + n <= mBuf.Length
      modifies mBuf
      ensures forall k :: 0 <= k < mBuf.Length ==>
                mBuf[k] == if to <= k < to + n then old(mBuf[from + k - to]) else old(mBuf[k])
    {
      forall k | 0 <= k < n {
        mBuf[to + k] := mBuf[from + k];
      }
    }

    method MoveGap(pos: int)
      requires GapOk() && 0 <= pos <= mLength
      modifies this`mGapStart, this`mGapEnd, mBuf
      ensures GapOk() && Text() == old(Text())
      ensures mGapStart == pos && mGapEnd - mGapStart == old(mGapEnd - mGapStart)
    {
      ghost var m, gapStart, gapEnd := mBuf[..], mGapStart, mGapEnd;
      assert Text() == m[..gapStart] + m[gapEnd..];
      var gapLen := mGapEnd - mGapStart;
      if pos > mGapStart {
        MoveBytes(mGapStart, mGapEnd, pos - mGapStart);
      } else {
        MoveBytes(pos + gapLen, pos, mGapStart - pos);
      }
      mGapEnd := mGapEnd + (pos - mGapStart);
      mGapStart := mGapStart + (pos - mGapStart);
      forall k | 0 <= k < mLength
        ensures mBuf[SkipGap(k, mGapStart, mGapEnd)] == m[SkipGap(k, gapStart, gapEnd)]
      {
        assert mBuf[SkipGap(k, mGapStart, mGapEnd)] == old(mBuf[SkipGap(k, gapStart, gapEnd)]);
      }
      Regapped(m, mBuf[..], gapStart, gapEnd, mGapStart, mGapEnd);
      assert Text() == mBuf[..][..mGapStart] + mBuf[..][mGapEnd..];
    }

    method ReallocateWithGap(newGapStart: int, newGapLen: int)
      requires GapOk() && 0 <= newGapStart <= mLength && 0 <= newGapLen
      modifies this`mGapStart, this`mGapEnd, this`mBuf
      ensures GapOk() && Text() == old(Text()) && fresh(mBuf)
      ensures mGapStart == newGapStart && mGapEnd - mGapStart == newGapLen
    {
      var newBuf := new Byte[mLength + newGapLen];
      CopyAroundGap(newBuf, newGapStart, newGapStart + newGapLen);
      Regapped(mBuf[..], newBuf[..], mGapStart, mGapEnd, newGapStart, newGapStart + newGapLen);
      mBuf := newBuf;
      mGapStart := newGapStart;
      mGapEnd := newGapStart + newGapLen;
    }

    /** The two times three copies, depending on whether the gap moves back or forward. */
    method CopyAroundGap(newBuf: array<Byte>, newGapStart: int, newGapEnd: int)
      requires GapOk() && 0 <= newGapStart <= mLength && newGapStart <= newGapEnd
      requires newBuf != mBuf && newBuf.Length == mLength + newGapEnd - newGapStart
      modifies newBuf
      ensures forall k :: 0 <= k < mLength ==>
                newBuf[SkipGap(k, newGapStart, newGapEnd)] == mBuf[SkipGap(k, mGapStart, mGapEnd)]
    {
      if newGapStart <= mGapStart {
        CopyBytes(newBuf, 0, mBuf, 0, newGapStart);
        CopyBytes(newBuf, newGapEnd, mBuf, newGapStart, mGapStart - newGapStart);
        CopyBytes(newBuf, newGapEnd + mGapStart - newGapStart, mBuf, mGapEnd, mLength - mGapStart);
      } else {
        CopyBytes(newBuf, 0, mBuf, 0, mGapStart);
        CopyBytes(newBuf, mGapStart, mBuf, mGapEnd, newGapStart - mGapStart);
        CopyBytes(newBuf, newGapEnd, mBuf, mGapEnd + newGapStart - mGapStart, mLength - newGapStart);
      }
    }

    /** Two arrays that agree, text position by text position, hold the same text. */
    static lemma Regapped(a: Text, b: Text, aStart: int, aEnd: int, bStart: int, bEnd: int)
      requires 0 <= aStart <= aEnd <= |a| && 0 <= bStart <= bEnd <= |b|
      requires |a| - (aEnd - aStart) == |b| - (bEnd - bStart)
      requires forall k :: 0 <= k < |a| - (aEnd - aStart) ==>
                 b[SkipGap(k, bStart, bEnd)] == a[SkipGap(k, aStart, aEnd)]
      ensures b[..bStart] + b[bEnd..] == a[..aStart] + a[aEnd..]
    {
      var s, t := a[..aStart] + a[aEnd..], b[..bStart] + b[bEnd..];
      forall k | 0 <= k < |s|
        ensures t[k] == s[k]
      {
        assert t[k] == b[SkipGap(k, bStart, bEnd)] && s[k] == a[SkipGap(k, aStart, aEnd)];
      }
    }

    static function SkipGap(k: int, gapStart: int, gapEnd: int): int
    {
      if k < gapStart then k else k + gapEnd - gapStart
    }

    /** memcpy between two arrays. */
    static method CopyBytes(dst: array<Byte>, to: int, src: array<Byte>, from: int, n: int)
      requires dst != src && 0 <= n && 0 <= to && to + n <= dst.Length && 0 <= from && from + n <= src.Length
      modifies dst
      ensures forall k :: 0 <= k < dst.Length ==>
                dst[k] == if to <= k < to + n then src[from + k - to] else old(dst[k])
    {
      forall k | 0 <= k < n {
        dst[to + k] := src[from + k];
      }
    }

    /** Makes room for `n` bytes at `pos`. */
    method OpenGap(pos: int, n: int)
      requires GapOk() && 0 <= pos <= mLength && 0 <= n
      modifies this`mGapStart, this`mGapEnd, this`mBuf, mBuf
      ensures GapOk() && Text() == old(Text()) && (mBuf == old(mBuf) || fresh(mBuf))
      ensures mGapStart == pos && mGapEnd - mGapStart >= n
    {
      if n > mGapEnd - mGapStart {
        ReallocateWithGap(pos, n + mPreferredGapSize);
      } else if pos != mGapStart {
        MoveGap(pos);
      }
    }

    /** Fills the front of the gap. */
    method FillGap(t: Text)
      requires GapOk() && |t| <= mGapEnd - mGapStart
      modifies this`mGapStart, this`mLength, mBuf
      ensures GapOk()
      ensures mGapStart == old(mGapStart) + |t|
      ensures Text() == Splice(old(Text()), old(mGapStart), old(mGapStart), t)
    {
      ghost var was := Text();
      ghost var pos := mGapStart;
      forall k | 0 <= k < |t| {
        mBuf[mGapStart + k] := t[k];
      }
      mGapStart := mGapStart + |t|;
      mLength := mLength + |t|;
      assert mBuf[..mGapStart] == was[..pos] + t;
      assert mBuf[mGapEnd..] == was[pos..];
    }

    /** Lets the gap swallow the bytes in [start, end). */
    method WidenGap(start: int, end: int)
      requires GapOk() && 0 <= start <= mGapStart <= end <= mLength
      modifies this`mGapStart, this`mGapEnd, this`mLength
      ensures GapOk() && mGapStart == start
      ensures Text() == Splice(old(Text()), start, end, [])
    {
      ghost var was := Text();
      mGapEnd := mGapEnd + (end - mGapStart);
      mGapStart := mGapStart - (mGapStart - start);
      mLength := mLength - (end - start);
      assert mBuf[..mGapStart] == was[..start];
      assert mBuf[mGapEnd..] == was[end..];
    }

    /** The three cases that save the doomed bytes and bring the gap to them. */
    method GapToRange(start: int, end: int) returns (gone: Text)
      requires GapOk() && 0 <= start <= end <= mLength
      modifies this`mGapStart, this`mGapEnd, mBuf
      ensures GapOk() && Text() == old(Text())
      ensures gone == Text()[start..end]
      ensures start <= mGapStart <= end
    {
      RangeAroundGap(mBuf[..], mGapStart, mGapEnd, start, end);
      if start > mGapStart {
        gone := mBuf[mGapEnd - mGapStart + start..mGapEnd - mGapStart + end];
        MoveGap(start);
      } else if end < mGapStart {
        gone := mBuf[start..end];
        MoveGap(end);
      } else {
        var prelen := mGapStart - start;
        gone := mBuf[start..mGapStart] + mBuf[mGapEnd..mGapEnd + (end - start - prelen)];
      }
    }

    method UpdateAllSelections(pos: int, nDeleted: int, nInserted: int)
      requires Valid()
      modifies mPrimary, mSecondary, mHighlight
      ensures Valid() && View() == UpdateSelections(old(View()), pos, nDeleted, nInserted)
    {
      mPrimary.Update(pos, nDeleted, nInserted);
      mSecondary.Update(pos, nDeleted, nInserted);
      mHighlight.Update(pos, nDeleted, nInserted);
    }

    // ----- insert_ and remove_

    method InsertInternal(pos: int, text: CString) returns (n: int)
      requires Valid() && 0 <= pos <= Length()
      modifies Repr()
      ensures Valid() && (mBuf == old(mBuf) || fresh(mBuf))
      ensures text.NullString? ==> n == 0 && View() == old(View())
      ensures text.Chars? ==> n == |text.chars| && View() == InsertRaw(old(View()), pos, text.chars)
      ensures mGapStart == if text.NullString? || text.chars == [] then old(mGapStart) else pos + n
      ensures undo.widget == this || undo.widget == old(undo.widget)
    {
      if text.NullString? || text.chars == [] {
        return 0;
      }
      var insertedLength := |text.chars|;
      OpenGap(pos, insertedLength);
      FillGap(text.chars);
      UpdateAllSelections(pos, 0, insertedLength);
      NoteInsertion(pos, insertedLength);
      return insertedLength;
    }

    method NoteInsertion(pos: int, insertedLength: nat)
      requires Valid() && insertedLength > 0
      modifies undo
      ensures Valid()
      ensures View() == old(View()).(undo := if mCanUndo then NoteInsert(old(undo.Fields(this)), pos, insertedLength)
                                             else old(undo.Fields(this)))
      ensures undo.widget == this || undo.widget == old(undo.widget)
    {
      if mCanUndo {
        if undo.widget == this && undo.at == pos && undo.inserted > 0 {
          undo.inserted := undo.inserted + insertedLength;
        } else {
          undo.inserted := insertedLength;
          undo.yankcut := if undo.at == pos then undo.cut else 0;
        }
        undo.at := pos + insertedLength;
        undo.cut := 0;
        undo.widget := this;
      }
    }

    method NoteRemoval(start: int, end: int, gone: Text)
      requires Valid() && start <= end && |gone| == end - start
      modifies undo
      ensures Valid()
      ensures View() == old(View()).(undo := if mCanUndo then NoteRemove(old(undo.Fields(this)), start, end, gone)
                                             else old(undo.Fields(this)))
      ensures undo.widget == this || undo.widget == old(undo.widget)
    {
      if mCanUndo {
        if undo.widget == this && undo.at == end && undo.cut > 0 {
          undo.store := gone + undo.store[..undo.cut];
          undo.cut := undo.cut + (end - start);
        } else {
          undo.store := gone;
          undo.cut := end - start;
        }
        undo.at := start;
        undo.inserted := 0;
        undo.yankcut := 0;
        undo.widget := this;
      }
    }

    method RemoveInternal(start: int, end: int)
      requires Valid() && 0 <= start <= end <= Length()
      modifies Repr()
      ensures Valid() && mBuf == old(mBuf)
      ensures View() == RemoveRaw(old(View()), start, end)
      ensures mGapStart == start
      ensures undo.widget == this || undo.widget == old(undo.widget)
    {
      hide NoteRemove, UndoFieldsOk, UpdateRange;
      var gone := GapToRange(start, end);
      NoteRemoval(start, end, gone);
      WidenGap(start, end);
      UpdateAllSelections(start, end - start, 0);
    }

    // ----- callbacks

    ghost method CallPredeleteCallbacks(pos: int, nDeleted: int)
      requires Valid()
      modifies this`notices
      ensures Valid() && View() == Tell(old(View()), [Predelete(pos, nDeleted)])
    {
      notices := notices + [Predelete(pos, nDeleted)];
    }

    /** The callbacks take the two counts in the other order. */
    ghost method CallModifyCallbacks(pos: int, nDeleted: int, nInserted: int, nRestyled: int, deletedText: Text)
      requires Valid()
      modifies this`notices
      ensures Valid()
      ensures View() == Tell(old(View()), [Modified(pos, nInserted, nDeleted, nRestyled, deletedText, Text())])
    {
      notices := notices + [Modified(pos, nInserted, nDeleted, nRestyled, deletedText, Text())];
    }

    // ----- the public edits

    method Insert(pos: int, text: CString)
      requires Valid()
      modifies Repr()
      ensures Valid() && (mBuf == old(mBuf) || fresh(mBuf))
      ensures View() == InsertDoc(old(View()), pos, text)
      ensures mGapStart == InsertGap(old(View()), old(mGapStart), pos, text)
      ensures undo.widget == this || undo.widget == old(undo.widget)
    {
      if text.NullString? || text.chars == [] {
        return;
      }
      var p := pos;
      if p > mLength {
        p := mLength;
      }
      if p < 0 {
        p := 0;
      }
      InsertClipped(p, text);
    }

    lemma ViewText()
      requires Valid()
      ensures DocOk(View()) && View().text == Text()
    {
    }

    method HintCursor(pos: int)
      requires Valid()
      modifies `mCursorPosHint
      ensures Valid() && mCursorPosHint == pos && View() == old(View()).(hint := pos)
    {
      mCursorPosHint := pos;
    }

    method InsertClipped(pos: int, text: CString)
      requires Valid() && 0 <= pos <= Length() && text.Chars? && text.chars != []
      modifies Repr()
      ensures Valid() && (mBuf == old(mBuf) || fresh(mBuf))
      ensures View() == InsertAt(old(View()), pos, text.chars)
      ensures mGapStart == pos + |text.chars|
      ensures undo.widget == this || undo.widget == old(undo.widget)
    {
      CallPredeleteCallbacks(pos, 0);
      var nInserted := InsertInternal(pos, text);
      HintCursor(pos + nInserted);
      CallModifyCallbacks(pos, 0, nInserted, 0, []);
    }

    method Append(text: CString)
      requires Valid()
      modifies Repr()
      ensures Valid() && (mBuf == old(mBuf) || fresh(mBuf))
      ensures View() == InsertDoc(old(View()), |old(Text())|, text)
      ensures undo.widget == this || undo.widget == old(undo.widget)
    {
      Insert(mLength, text);
    }

    method Remove(start: int, end: int)
      requires Valid()
      modifies Repr()
      ensures Valid() && mBuf == old(mBuf)
      ensures View() == RemoveDoc(old(View()), start, end)
      ensures mGapStart == RemoveGap(old(View()), old(mGapStart), start, end)
      ensures undo.widget == this || undo.widget == old(undo.widget)
    {
      var s, e := start, end;
      if s > e {
        s, e := e, s;
      }
      if s > mLength {
        s := mLength;
      }
      if s < 0 {
        s := 0;
      }
      if e > mLength {
        e := mLength;
      }
      if e < 0 {
        e := 0;
      }
      if s == e {
        return;
      }
      RemoveClipped(s, e);
    }

    method RemoveClipped(start: int, end: int)
      requires Valid() && 0 <= start < end <= Length()
      modifies Repr()
      ensures Valid() && mBuf == old(mBuf)
      ensures View() == RemoveBetween(old(View()), start, end)
      ensures mGapStart == start
      ensures undo.widget == this || undo.widget == old(undo.widget)
    {
      hide RemoveRaw;
      CallPredeleteCallbacks(start, end - start);
      var deletedText := TextRange(start, end);
      RemoveInternal(start, end);
      HintCursor(start);
      CallModifyCallbacks(start, end - start, 0, 0, deletedText);
    }

    method Replace(start: int, end: int, text: CString)
      requires Valid()
      requires text.Chars? ==> ReplaceDefined(View(), start, end)
      modifies Repr()
      ensures Valid() && (mBuf == old(mBuf) || fresh(mBuf))
      ensures View() == ReplaceDoc(old(View()), start, end, text)
      ensures mGapStart == ReplaceGap(old(View()), old(mGapStart), start, text)
      ensures undo.widget == this || undo.widget == old(undo.widget)
    {
      if text.NullString? {
        return;
      }
      var s, e := start, end;
      if s < 0 {
        s := 0;
      }
      if e > mLength {
        e := mLength;
      }
      ReplaceClipped(s, e, text);
    }

    method ReplaceClipped(start: int, end: int, text: CString)
      requires Valid() && 0 <= start <= end <= Length() && text.Chars?
      modifies Repr()
      ensures Valid() && (mBuf == old(mBuf) || fresh(mBuf))
      ensures View() == ReplaceBetween(old(View()), start, end, text.chars)
      ensures mGapStart == start + |text.chars|
      ensures undo.widget == this || undo.widget == old(undo.widget)
    {
      hide View, RemoveRaw, InsertRaw, Tell, Text, UndoFieldsOk, ReplaceBetween, Splice;
      ViewText();
      ReplaceSteps(View(), start, end, text.chars);
      CallPredeleteCallbacks(start, end - start);
      var deletedText := TextRange(start, end);
      RemoveInternal(start, end);
      var nInserted := InsertInternal(start, text);
      HintCursor(start + nInserted);
      ViewText();
      CallModifyCallbacks(start, end - start, nInserted, 0, deletedText);
    }

    method SetText(t: CString)
      requires Valid()
      modifies Repr()
      ensures Valid() && fresh(mBuf)
      ensures View() == SetTextDoc(old(View()), t)
      ensures mGapStart == mLength
      ensures undo.widget == old(undo.widget)
    {
      hide UndoFieldsOk, UpdateRange;
      var s := if t.NullString? then [] else t.chars;
      CallPredeleteCallbacks(0, mLength);
      var deletedText := GetText();
      var deletedLength := mLength;
      var insertedLength := |s|;
      mBuf := new Byte[insertedLength + mPreferredGapSize];
      mLength := insertedLength;
      mGapStart := insertedLength;
      mGapEnd := mGapStart + mPreferredGapSize;
      forall k | 0 <= k < |s| {
        mBuf[k] := s[k];
      }
      assert Text() == s;
      UpdateAllSelections(0, deletedLength, 0);
      CallModifyCallbacks(0, deletedLength, insertedLength, 0, deletedText);
    }

    /** `fromBuf` may be this buffer: the bytes are read after the gap has been moved. */
    method Copy(fromBuf: TextBuffer, fromStart: int, fromEnd: int, toPos: int)
      requires Valid() && fromBuf.Valid()
      requires fromBuf != this ==> mBuf != fromBuf.mBuf
      requires 0 <= fromStart <= fromEnd <= fromBuf.Length() && 0 <= toPos <= Length()
      modifies this`mBuf, this`mGapStart, this`mGapEnd, this`mLength, mBuf, mPrimary, mSecondary, mHighlight
      ensures Valid() && (mBuf == old(mBuf) || fresh(mBuf))
      ensures View() == CopyDoc(old(View()), toPos, old(fromBuf.Text()[fromStart..fromEnd]))
      ensures mGapStart == toPos + (fromEnd - fromStart)
    {
      hide UndoFieldsOk, UpdateRange;
      var copiedLength := fromEnd - fromStart;
      OpenGap(toPos, copiedLength);
      var t := fromBuf.CopyOut(fromStart, fromEnd);
      FillGap(t);
      UpdateAllSelections(toPos, 0, copiedLength);
    }

    method TabDistance(tabDist: int)
      requires Valid()
      modifies this`mTabDist, this`notices
      ensures Valid() && mTabDist == tabDist
      ensures View() == TabDistanceDoc(old(View()))
    {
      CallPredeleteCallbacks(0, mLength);
      mTabDist := tabDist;
      var deletedText := GetText();
      CallModifyCallbacks(0, mLength, mLength, 0, deletedText);
    }

    // ----- selections

    function Selection(w: Which): (s: TextSelection)
      ensures s in {mPrimary, mSecondary, mHighlight}
    {
      match w
      case Primary => mPrimary
      case Secondary => mSecondary
      case Highlight => mHighlight
    }

    ghost method RedisplaySelection(oldSelection: Range, newSelection: Range)
      requires Valid()
      modifies this`notices
      ensures Valid() && View() == Tell(old(View()), Redisplay(oldSelection, newSelection, Text()))
    {
      hide UndoFieldsOk;
      var oldStart, oldEnd := oldSelection.start, oldSelection.end;
      var newStart, newEnd := newSelection.start, newSelection.end;
      if !oldSelection.selected && !newSelection.selected {
        return;
      }
      if !oldSelection.selected {
        CallModifyCallbacks(newStart, 0, 0, newEnd - newStart, []);
        return;
      }
      if !newSelection.selected {
        CallModifyCallbacks(oldStart, 0, 0, oldEnd - oldStart, []);
        return;
      }
      if oldEnd < newStart || newEnd < oldStart {
        CallModifyCallbacks(oldStart, 0, 0, oldEnd - oldStart, []);
        CallModifyCallbacks(newStart, 0, 0, newEnd - newStart, []);
        return;
      }
      var ch1Start, ch2End := Min(oldStart, newStart), Max(oldEnd, newEnd);
      var ch1End, ch2Start := Max(oldStart, newStart), Min(oldEnd, newEnd);
      if ch1Start != ch1End {
        CallModifyCallbacks(ch1Start, 0, 0, ch1End - ch1Start, []);
      }
      if ch2Start != ch2End {
        CallModifyCallbacks(ch2Start, 0, 0, ch2End - ch2Start, []);
      }
    }

    /** select, secondary_select and highlight. */
    method Select(w: Which, start: int, end: int)
      requires Valid()
      modifies Selection(w), this`notices
      ensures Valid() && View() == SelectDoc(old(View()), w, start, end)
    {
      ghost var oldSelection := Selection(w).Value();
      Selection(w).Set(start, end);
      RedisplaySelection(oldSelection, Selection(w).Value());
    }

    /** unselect, secondary_unselect and unhighlight. */
    method Unselect(w: Which)
      requires Valid()
      modifies Selection(w), this`notices
      ensures Valid() && View() == UnselectDoc(old(View()), w)
    {
      ghost var oldSelection := Selection(w).Value();
      Selection(w).mSelected := false;
      RedisplaySelection(oldSelection, Selection(w).Value());
    }

    method SelectionText(w: Which) returns (t: Text)
      requires Valid()
      requires Selection(w).mSelected && 0 <= Selection(w).mStart <= Length() ==> Selection(w).mEnd >= 0
      ensures t == if Selection(w).mSelected then Between(Text(), Selection(w).mStart, Selection(w).mEnd) else []
      ensures RangeOk(Selection(w).Value(), |Text()|) ==> t == Selected(Text(), Selection(w).Value())
    {
      var found, start, end := Selection(w).Position();
      if !found {
        return [];
      }
      t := TextRange(start, end);
    }

    method RemoveSelection(w: Which)
      requires Valid()
      modifies Repr()
      ensures Valid() && mBuf == old(mBuf)
      ensures View() == RemoveSelectionDoc(old(View()), w)
      ensures mGapStart == if old(Selection(w).mSelected)
                           then RemoveGap(old(View()), old(mGapStart), old(Selection(w).mStart), old(Selection(w).mEnd))
                           else old(mGapStart)
      ensures undo.widget == this || undo.widget == old(undo.widget)
    {
      var found, start, end := Selection(w).Position();
      if !found {
        return;
      }
      Remove(start, end);
    }

    method ReplaceSelection(w: Which, text: CString)
      requires Valid()
      requires Selection(w).mSelected && text.Chars? ==>
                 ReplaceDefined(View(), Selection(w).mStart, Selection(w).mEnd)
      modifies Repr()
      ensures Valid() && (mBuf == old(mBuf) || fresh(mBuf))
      ensures View() == ReplaceSelectionDoc(old(View()), w, text)
      ensures mGapStart == if old(Selection(w).mSelected)
                           then ReplaceGap(old(View()), old(mGapStart), old(Selection(w).mStart), text)
                           else old(mGapStart)
      ensures undo.widget == this || undo.widget == old(undo.widget)
    {
      hide ReplaceBetween, ReplaceDefined, Redisplay;
      ghost var oldSelection := Selection(w).Value();
      var found, start, end := Selection(w).Position();
      if !found {
        return;
      }
      Replace(start, end, text);
      Selection(w).mSelected := false;
      RedisplaySelection(oldSelection, Selection(w).Value());
    }

    // ----- undo

    method CanUndo(flag: bool)
      requires Valid()
      modifies this`mCanUndo, undo`widget
      ensures Valid() && View() == CanUndoDoc(old(View()), flag)
      ensures undo.widget == if flag || old(undo.widget) != this then old(undo.widget) else null
    {
      mCanUndo := flag;
      if !mCanUndo && undo.widget == this {
        undo.widget := null;
      }
    }

    /** Answers whether anything was done, and the cursor position to show. */
    method Undo(cursorPos: int) returns (done: bool, cursor: int)
      requires Valid() && UndoDefined(View())
      modifies Repr()
      ensures Valid() && (mBuf == old(mBuf) || fresh(mBuf))
      ensures View() == UndoDoc(old(View()))
      ensures mGapStart == UndoGap(old(View()), old(mGapStart))
      ensures done <==> old(undo.widget) == this && (old(undo.cut) > 0 || old(undo.inserted) > 0 || old(mCanUndo))
      ensures cursor == if done && (old(undo.inserted) > 0 || old(undo.cut) > 0) then mCursorPosHint else cursorPos
      ensures undo.widget == this || undo.widget == old(undo.widget)
    {
      cursor := cursorPos;
      if undo.widget != this || (undo.cut == 0 && undo.inserted == 0 && !mCanUndo) {
        return false, cursor;
      }
      if undo.inserted > 0 || undo.cut > 0 {
        TakeBack();
        cursor := mCursorPosHint;
      }
      return true, cursor;
    }

    /** The three ways of taking a change back. */
    method TakeBack()
      requires Valid() && UndoDefined(View()) && !UndoIgnored(View())
      requires undo.inserted > 0 || undo.cut > 0
      modifies Repr()
      ensures Valid() && (mBuf == old(mBuf) || fresh(mBuf))
      ensures View() == UndoDoc(old(View()))
      ensures mGapStart == UndoGap(old(View()), old(mGapStart))
      ensures undo.widget == this || undo.widget == old(undo.widget)
    {
      hide ReplaceBetween, RemoveBetween, InsertAt;
      var ilen, xlen := undo.cut, undo.inserted;
      var b := undo.at - xlen;
      if xlen > 0 && undo.yankcut > 0 && ilen == 0 {
        ilen := undo.yankcut;
      }
      var tmp := Chars(undo.store[..ilen]);
      if xlen > 0 && ilen > 0 {
        Replace(b, undo.at, tmp);
      } else if xlen > 0 {
        Remove(b, undo.at);
      } else {
        Insert(undo.at, tmp);
        undo.yankcut := 0;
      }
    }

    // ----- lines

    /** The end is recognised only by meeting it, so an end before the start counts to the end
        of the text. */
    method CountLines(startPos: int, endPos: int) returns (lineCount: int)
      requires Valid() && 0 <= startPos
      ensures lineCount == NewlinesFrom(Text(), startPos, if startPos <= endPos <= |Text()| then endPos else |Text()|)
    {
      hide NewlinesFrom, Text;
      var gapLen := mGapEnd - mGapStart;
      lineCount := 0;
      var pos := startPos;
      ghost var s := Text();
      ghost var stop := if startPos <= endPos <= |s| then endPos else |s|;
      NewlinesFromStep(s, startPos, startPos);
      while pos < mGapStart
        invariant startPos <= pos && (pos <= stop || pos == startPos) && lineCount == NewlinesFrom(s, startPos, pos)
      {
        if pos == endPos {
          return;
        }
        NewlinesFromStep(s, startPos, pos);
        TextAt(pos);
        if mBuf[pos] == NEWLINE {
          lineCount := lineCount + 1;
        }
        pos := pos + 1;
      }
      while pos < mLength
        invariant mGapStart <= pos && startPos <= pos && (pos <= stop || pos == startPos)
        invariant lineCount == NewlinesFrom(s, startPos, pos)
      {
        if pos == endPos {
          return;
        }
        NewlinesFromStep(s, startPos, pos);
        TextAt(pos);
        if mBuf[pos + gapLen] == NEWLINE {
          lineCount := lineCount + 1;
        }
        pos := pos + 1;
      }
      NewlinesFromStep(s, startPos, |s|);
    }

    lemma TextAt(k: int)
      requires GapOk() && 0 <= k < mLength
      ensures Text()[k] == mBuf[SkipGap(k, mGapStart, mGapEnd)]
    {
    }

    /** With a negative count only the part of the text after the gap is looked at, so the answer
        depends on where the gap lies. */
    method SkipLinesForward(startPos: int, nLines: int) returns (pos: int)
      requires Valid() && 0 <= startPos
      ensures nLines >= 0 ==> pos == SkipLines(Text(), startPos, nLines)
      ensures nLines < 0 ==> pos == SkipLines(Text(), Max(startPos, mGapStart), 1)
    {
      if nLines == 0 {
        return startPos;
      }
      var gapLen := mGapEnd - mGapStart;
      pos := startPos;
      var lineCount := 0;
      while pos < mGapStart
        invariant startPos <= pos && 0 <= lineCount
        invariant pos <= Max(startPos, mGapStart)
        invariant nLines > 0 ==> lineCount < nLines
        invariant nLines > 0 ==> SkipLines(Text(), startPos, nLines) == SkipLines(Text(), pos, nLines - lineCount)
      {
        assert mBuf[pos] == Text()[pos];
        if mBuf[pos] == NEWLINE {
          pos := pos + 1;
          lineCount := lineCount + 1;
          if lineCount == nLines {
            return;
          }
        } else {
          pos := pos + 1;
        }
      }
      ghost var from := pos;
      while pos < mLength
        invariant from <= pos && 0 <= lineCount
        invariant nLines > 0 ==> lineCount < nLines
        invariant nLines > 0 ==> SkipLines(Text(), startPos, nLines) == SkipLines(Text(), pos, nLines - lineCount)
        invariant nLines < 0 ==> SkipLines(Text(), from, 1) == SkipLines(Text(), pos, 1)
      {
        assert mBuf[pos + gapLen] == Text()[pos];
        if mBuf[pos + gapLen] == NEWLINE {
          pos := pos + 1;
          lineCount := lineCount + 1;
          if lineCount >= nLines {
            return;
          }
        } else {
          pos := pos + 1;
        }
      }
    }

    method RewindLinesBack(startPos: int, nLines: int) returns (r: int)
      requires Valid() && startPos <= Length()
      ensures r == RewindLines(Text(), startPos, nLines)
    {
      var pos := startPos - 1;
      if pos <= 0 {
        return 0;
      }
      var gapLen := mGapEnd - mGapStart;
      var lineCount := -1;
      ghost var want := Max(nLines, 0);
      while pos >= mGapStart
        invariant -1 <= pos < mLength && -1 <= lineCount < want
        invariant RewindLines(Text(), startPos, nLines) == RewindScan(Text(), pos, want - lineCount - 1)
      {
        assert mBuf[pos + gapLen] == Text()[pos];
        if mBuf[pos + gapLen] == NEWLINE {
          lineCount := lineCount + 1;
          if lineCount >= nLines {
            return pos + 1;
          }
        }
        pos := pos - 1;
      }
      while pos >= 0
        invariant -1 <= pos < mLength && pos < mGapStart && -1 <= lineCount < want
        invariant RewindLines(Text(), startPos, nLines) == RewindScan(Text(), pos, want - lineCount - 1)
      {
        assert mBuf[pos] == Text()[pos];
        if mBuf[pos] == NEWLINE {
          lineCount := lineCount + 1;
          if lineCount >= nLines {
            return pos + 1;
          }
        }
        pos := pos - 1;
      }
      return 0;
    }

    // ----- characters

    /** Well-formed text with no character cut by the gap. */
    ghost predicate Utf8Ok()
      reads Repr()
    {
      Valid() && WellFormed(Text()) && Boundary(Text(), mGapStart)
    }

    /** The decoder reads on from one address, knowing nothing of the gap. That is the character
        at `pos` because no character lies across the gap. */
    method CharAt(pos: int) returns (c: int)
      requires Utf8Ok()
      requires 0 <= pos < Length() ==> Boundary(Text(), pos)
      ensures c == if 0 <= pos < |Text()| then CodeAt(Text(), pos) else 0
    {
      if pos < 0 || pos >= mLength {
        return 0;
      }
      var src := Address(pos);
      c := Decode(mBuf[src..]);
      ReadsAcrossNoGap(mBuf[..], mGapStart, mGapEnd, pos);
      assert mBuf[..][src..] == mBuf[src..];
      assert mBuf[..][..mGapStart] + mBuf[..][mGapEnd..] == Text();
    }

    static lemma ReadsAcrossNoGap(m: Text, gapStart: int, gapEnd: int, pos: int)
      requires 0 <= gapStart <= gapEnd <= |m|
      requires var t := m[..gapStart] + m[gapEnd..];
               WellFormed(t) && Boundary(t, gapStart) && Boundary(t, pos) && pos < |t|
      ensures 0 <= SkipGap(pos, gapStart, gapEnd) <= |m|
      ensures Decode(m[SkipGap(pos, gapStart, gapEnd)..]) == CodeAt(m[..gapStart] + m[gapEnd..], pos)
    {
      hide Decode, WellFormed, CharLen, Boundary;
      var t := m[..gapStart] + m[gapEnd..];
      var a := SkipGap(pos, gapStart, gapEnd);
      var n := CharBeside(t, pos, gapStart);
      RangeAroundGap(m, gapStart, gapEnd, pos, pos + n);
      hide SkipGap;
      CutOff(m, a, n);
      CutOff(t, pos, n);
      DecodeIgnoresRest(t[pos..pos + n], m[a + n..], t[pos + n..]);
    }

    /** No character lies across a boundary: it has its n bytes on one side. */
    static lemma CharBeside(t: Text, pos: int, gapStart: int) returns (n: int)
      requires WellFormed(t) && Boundary(t, gapStart) && Boundary(t, pos) && pos < |t|
      ensures 0 <= pos && 0 < n && pos + n <= |t| && ValidChar(t[pos..pos + n])
              && (pos < gapStart ==> pos + n <= gapStart)
    {
      hide WellFormed, ValidChar, CharLen;
      CharAtBoundary(t, pos);
      n := CharLen(t[pos]);
    }

    static lemma CutOff(s: Text, a: int, n: int)
      requires 0 <= a && 0 <= n && a + n <= |s|
      ensures s[a..] == s[a..a + n] + s[a + n..]
    {
    }

    method PrevCharClippedAt(pos: int) returns (r: int)
      requires Valid()
      ensures r == PrevCharClipped(Text(), pos)
    {
      if pos <= 0 {
        return 0;
      }
      r := pos;
      while true
        invariant r > 0 && PrevScan(Text(), pos) == PrevScan(Text(), r)
        decreases r
      {
        r := r - 1;
        if r == 0 {
          return 0;
        }
        if !Continuation(ByteAt(r)) {
          return r;
        }
      }
    }

    method PrevCharAt(pos: int) returns (r: int)
      requires Valid()
      ensures r == PrevChar(Text(), pos)
    {
      if pos == 0 {
        return -1;
      }
      r := PrevCharClippedAt(pos);
    }

    method NextCharAt(pos: int) returns (r: int)
      requires Valid()
      ensures r == NextChar(Text(), pos)
    {
      var n := CharLen(ByteAt(pos));
      r := pos + n;
      if r >= mLength {
        return mLength;
      }
    }

    method Utf8Align(pos: int) returns (r: int)
      requires Valid()
      ensures r == Align(Text(), pos)
    {
      r := pos;
      while Continuation(ByteAt(r))
        invariant Align(Text(), pos) == Align(Text(), r)
        decreases r
      {
        r := r - 1;
      }
    }

    /** First character with the given code at or after `startPos`. */
    method FindcharForward(startPos: int, searchChar: int) returns (found: bool, foundPos: int)
      requires Utf8Ok()
      requires 0 <= startPos < Length() ==> Boundary(Text(), startPos)
      ensures foundPos <= |Text()|
      ensures forall k :: Max(startPos, 0) <= k < foundPos && Boundary(Text(), k) ==> CodeAt(Text(), k) != searchChar
      ensures found ==> Max(startPos, 0) <= foundPos < |Text()| && Boundary(Text(), foundPos)
      ensures found ==> CodeAt(Text(), foundPos) == searchChar
      ensures !found ==> foundPos == |Text()|
    {
      hide CodeAt, NextChar, WellFormed, Decode;
      if startPos >= mLength {
        return false, mLength;
      }
      var pos := startPos;
      if pos < 0 {
        pos := 0;
        StartIsBoundary(Text());
      }
      while pos < mLength
        invariant Max(startPos, 0) <= pos <= mLength && Boundary(Text(), pos)
        invariant forall k :: Max(startPos, 0) <= k < pos && Boundary(Text(), k) ==> CodeAt(Text(), k) != searchChar
      {
        var c := CharAt(pos);
        if searchChar == c {
          return true, pos;
        }
        NextCharIsNextBoundary(Text(), pos);
        pos := NextCharAt(pos);
      }
      return false, mLength;
    }

    /** Last character with the given code before `startPos`. */
    method FindcharBackward(startPos: int, searchChar: int) returns (found: bool, foundPos: int)
      requires Utf8Ok()
      requires 0 <= startPos < Length() ==> Boundary(Text(), startPos)
      ensures found ==> 0 <= foundPos < Min(startPos, |Text()|) && Boundary(Text(), foundPos)
      ensures found ==> CodeAt(Text(), foundPos) == searchChar
      ensures !found ==> foundPos == 0
      ensures forall k :: (if found then foundPos + 1 else 0) <= k < Min(startPos, |Text()|) && Boundary(Text(), k)
                          ==> CodeAt(Text(), k) != searchChar
    {
      hide CodeAt, PrevCharClipped, WellFormed, Decode;
      if startPos <= 0 {
        return false, 0;
      }
      var pos := startPos;
      if pos > mLength {
        pos := mLength;
      }
      ghost var from := pos;
      if pos > 0 {
        PrevCharIsPrevBoundary(Text(), pos);
      }
      pos := PrevCharAt(pos);
      while pos >= 0
        invariant -1 <= pos < Max(from, 0) || (pos == -1 && from == 0)
        invariant pos >= 0 ==> Boundary(Text(), pos)
        invariant forall k :: pos < k < from && Boundary(Text(), k) ==> CodeAt(Text(), k) != searchChar
        decreases pos
      {
        var c := CharAt(pos);
        if searchChar == c {
          return true, pos;
        }
        if pos > 0 {
          PrevCharIsPrevBoundary(Text(), pos);
        }
        pos := PrevCharAt(pos);
      }
      return false, 0;
    }

    method LineStartAt(pos: int) returns (r: int)
      requires Utf8Ok()
      requires 0 <= pos < Length() ==> Boundary(Text(), pos)
      ensures r == StartOfLine(Text(), Max(0, Min(pos, |Text()|)))
    {
      var found, at := FindcharBackward(pos, NEWLINE);
      ghost var p := Max(0, Min(pos, |Text()|));
      r := if found then at + 1 else 0;
      forall k | r < k <= p
        ensures !LineStart(Text(), k)
      {
        NewlineIsBoundary(Text(), k - 1);
      }
      if found {
        AsciiCode(Text(), at, NEWLINE);
      }
      StartOfLineUnique(Text(), p, r);
    }

    static lemma StartOfLineUnique(s: Text, p: nat, q: nat)
      requires q <= p <= |s| && LineStart(s, q)
      requires forall k :: q < k <= p ==> !LineStart(s, k)
      ensures StartOfLine(s, p) == q
    {
    }

    static lemma NewlineIsBoundary(s: Text, k: int)
      requires WellFormed(s) && 0 <= k < |s|
      ensures s[k] == NEWLINE <==> Boundary(s, k) && CodeAt(s, k) == NEWLINE
    {
      if Boundary(s, k) {
        AsciiCode(s, k, NEWLINE);
      }
    }

    method LineEndAt(pos: int) returns (r: int)
      requires Utf8Ok()
      requires 0 <= pos < Length() ==> Boundary(Text(), pos)
      ensures r == EndOfLine(Text(), Max(0, Min(pos, |Text()|)))
    {
      var found, at := FindcharForward(pos, NEWLINE);
      ghost var p := Max(0, Min(pos, |Text()|));
      r := if found then at else mLength;
      forall k | p <= k < r
        ensures Text()[k] != NEWLINE
      {
        NewlineIsBoundary(Text(), k);
      }
      if found {
        AsciiCode(Text(), at, NEWLINE);
      }
      EndOfLineUnique(Text(), p, r);
    }

    static lemma EndOfLineUnique(s: Text, p: nat, q: nat)
      requires p <= q <= |s| && (q == |s| || s[q] == NEWLINE)
      requires forall k :: p <= k < q ==> s[k] != NEWLINE
      ensures EndOfLine(s, p) == q
    {
    }

    /** The line around a position, without its newline. */
    method LineText(pos: int) returns (t: Text)
      requires Utf8Ok()
      requires 0 <= pos < Length() ==> Boundary(Text(), pos)
      ensures var p := Max(0, Min(pos, |Text()|));
              t == Text()[StartOfLine(Text(), p)..EndOfLine(Text(), p)] && NEWLINE !in t
    {
      var a := LineStartAt(pos);
      var b := LineEndAt(pos);
      t := TextRange(a, b);
      LineHasNoNewline(Text(), Max(0, Min(pos, |Text()|)));
    }

    static lemma LineHasNoNewline(s: Text, p: nat)
      requires p <= |s|
      ensures 0 <= StartOfLine(s, p) <= p <= EndOfLine(s, p) <= |s|
      ensures NEWLINE !in s[StartOfLine(s, p)..EndOfLine(s, p)]
    {
      var a, b := StartOfLine(s, p), EndOfLine(s, p);
      forall k | a <= k < b
        ensures s[k] != NEWLINE
      {
        assert k < p ==> !LineStart(s, k + 1);
      }
    }
  }
}
