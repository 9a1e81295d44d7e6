/** Text selections: a byte range with a flag, kept in step with edits of the text. */
module Selections {
  import opened Integers
  import opened TextSpec

  /** The three fields of a selection, as a value. */
  datatype Range = Range(start: int, end: int, selected: bool)

  const NO_RANGE := Range(0, 0, false)

  function MakeRange(a: int, b: int): Range
  {
    Range(Min(a, b), Max(a, b), a != b)
  }

  /** Follows a change of the text: at `pos`, nDeleted bytes went and nInserted came. */
  function UpdateRange(r: Range, pos: int, nDeleted: int, nInserted: int): Range
  {
    if !r.selected || pos > r.end then r
    else if pos + nDeleted <= r.start then
      r.(start := r.start + nInserted - nDeleted, end := r.end + nInserted - nDeleted)
    else if pos <= r.start && pos + nDeleted >= r.end then
      Range(pos, pos, false)
    else if pos <= r.start && pos + nDeleted < r.end then
      r.(start := pos, end := nInserted + r.end - nDeleted)
    else if pos < r.end then
      var e := r.end + nInserted - nDeleted;
      r.(end := e, selected := e > r.start)
    else r
  }

  /** The position is selected. */
  predicate Within(p: int, r: Range)
  {
    r.selected && r.start <= p < r.end
  }

  /** The selection object inside the buffer. */
  class TextSelection {
    var mStart: int
    var mEnd: int
    var mSelected: bool

    constructor ()
      ensures Value() == NO_RANGE
    {
      mStart, mEnd, mSelected := 0, 0, false;
    }

    function Value(): Range
      reads this
    {
      Range(mStart, mEnd, mSelected)
    }

    method Set(startpos: int, endpos: int)
      modifies this
      ensures Value() == MakeRange(startpos, endpos)
    {
      mSelected := startpos != endpos;
      mStart := Min(startpos, endpos);
      mEnd := Max(startpos, endpos);
    }

    /** The stored bounds are reported only while something is selected. */
    method Position() returns (found: bool, start: int, end: int)
      ensures found == mSelected
      ensures found ==> start == mStart && end == mEnd
    {
      start, end := 0, 0;
      if !mSelected {
        return false, start, end;
      }
      return true, mStart, mEnd;
    }

    method Update(pos: int, nDeleted: int, nInserted: int)
      modifies this
      ensures Value() == UpdateRange(old(Value()), pos, nDeleted, nInserted)
    {
      if !mSelected || pos > mEnd {
        return;
      }
      if pos + nDeleted <= mStart {
        mStart := mStart + (nInserted - nDeleted);
        mEnd := mEnd + (nInserted - nDeleted);
      } else if pos <= mStart && pos + nDeleted >= mEnd {
        mStart := pos;
        mEnd := pos;
        mSelected := false;
      } else if pos <= mStart && pos + nDeleted < mEnd {
        mStart := pos;
        mEnd := nInserted + mEnd - nDeleted;
      } else if pos < mEnd {
        mEnd := mEnd + (nInserted - nDeleted);
        if mEnd <= mStart {
          mSelected := false;
        }
      }
    }
  }

  // ----- what an update means for the selected bytes

  /** A selected range is ordered, not empty and inside a text of length `len`. */
  ghost predicate RangeOk(r: Range, len: int)
  {
    r.selected ==> 0 <= r.start < r.end <= len
  }

  /** The bytes a range stands for. */
  ghost function Selected(s: Text, r: Range): Text
    requires RangeOk(r, |s|)
  {
    if r.selected then s[r.start..r.end] else []
  }

  lemma UpdateKeepsRangeOk(r: Range, len: nat, pos: nat, nDeleted: nat, nInserted: nat)
    requires RangeOk(r, len) && pos + nDeleted <= len
    requires nDeleted == 0 || nInserted == 0
    ensures RangeOk(UpdateRange(r, pos, nDeleted, nInserted), len - nDeleted + nInserted)
  {
  }

  lemma UntouchedByStep(s: Text, r: Range, a: nat, b: nat, t: Text)
    requires RangeOk(r, |s|) && r.selected && a <= b <= |s| && (a == b || t == [])
    requires r.end <= a || b <= r.start
    ensures var r' := UpdateRange(r, a, b - a, |t|);
            RangeOk(r', |s| - (b - a) + |t|)
            && Selected(Splice(s, a, b, t), r') == Selected(s, r)
  {
    var s' := Splice(s, a, b, t);
    var r' := UpdateRange(r, a, b - a, |t|);
    assert r.end <= a ==> r' == r && s'[r.start..r.end] == s[r.start..r.end];
    if b <= r.start {
      var d := |t| - (b - a);
      assert r' == r.(start := r.start + d, end := r.end + d);
      assert s'[r.start + d..r.end + d] == s[r.start..r.end];
    }
  }

  /** A replacement updates a selection twice, for the removal and for the insertion. Insertions
      and removals alone are replacements of nothing and by nothing. */
  function ReplacedRange(r: Range, a: int, b: int, n: int): Range
  {
    UpdateRange(UpdateRange(r, a, b - a, 0), a, 0, n)
  }

  /** The range lies wholly on one side of [a, b). */
  predicate Beside(r: Range, a: int, b: int)
  {
    r.end <= a || b <= r.start
  }

  /** A selection that lies wholly on one side of the replaced bytes keeps standing for the
      same bytes. */
  lemma UntouchedSelection(s: Text, r: Range, a: nat, b: nat, t: Text)
    requires RangeOk(r, |s|) && r.selected && a <= b <= |s| && Beside(r, a, b)
    ensures var r' := ReplacedRange(r, a, b, |t|);
            r'.selected && RangeOk(r', |s| - (b - a) + |t|) && Selected(Splice(s, a, b, t), r') == Selected(s, r)
  {
    UntouchedByStep(s, r, a, b, []);
    UntouchedByStep(Splice(s, a, b, []), UpdateRange(r, a, b - a, 0), a, a, t);
    SplicedTwice(s, a, b, t);
  }

  lemma NothingHappens(r: Range, p: int)
    requires r.selected ==> r.start < r.end
    ensures UpdateRange(r, p, 0, 0) == r
  {
  }

  lemma NothingReplaced(r: Range, a: int, b: int, n: int)
    requires r.selected ==> r.start < r.end
    ensures ReplacedRange(r, a, b, 0) == UpdateRange(r, a, b - a, 0)
    ensures ReplacedRange(r, a, a, n) == UpdateRange(r, a, 0, n)
  {
  }

  /** The selected bytes that outlive the removal of [a, b). */
  ghost function Survivors(s: Text, r: Range, a: nat, b: nat): Text
    requires RangeOk(r, |s|) && a <= b <= |s|
  {
    if !r.selected then []
    else s[r.start..Max(r.start, Min(r.end, a))] + s[Min(r.end, Max(r.start, b))..r.end]
  }

  lemma RemovedInside(s: Text, p: nat, q: nat, a: nat, b: nat)
    requires p <= a <= b <= q <= |s|
    ensures Splice(s, a, b, [])[p..q - (b - a)] == s[p..a] + s[b..q]
  {
    var t := Splice(s, a, b, []);
    assert t == s[..a] + s[b..];
    var u, v := t[p..q - (b - a)], s[p..a] + s[b..q];
    forall k | 0 <= k < |u| ensures u[k] == v[k] {
      assert u[k] == t[p + k];
      if k < a - p {
        assert v[k] == s[p + k];
      } else {
        assert v[k] == s[b + k - (a - p)];
      }
    }
  }

  /** After a removal the selection stands for exactly the selected bytes that are left, unless
      the removal starts strictly inside the selection and runs past its end. */
  lemma RemovalKeepsSurvivors(s: Text, r: Range, a: nat, b: nat)
    requires RangeOk(r, |s|) && a <= b <= |s|
    ensures RangeOk(UpdateRange(r, a, b - a, 0), |s| - (b - a))
    ensures Selected(Splice(s, a, b, []), UpdateRange(r, a, b - a, 0)) == Survivors(s, r, a, b)
            <==> !(r.selected && r.start < a < r.end < b)
  {
    var s' := Splice(s, a, b, []);
    var r' := UpdateRange(r, a, b - a, 0);
    if r.selected {
      var left := s[r.start..Max(r.start, Min(r.end, a))];
      var right := s[Min(r.end, Max(r.start, b))..r.end];
      if r.start < a < r.end < b {
        assert |Selected(s', r')| < |left| + |right|;
      } else if b <= r.start || r.end <= a {
        UntouchedByStep(s, r, a, b, []);
      } else if r'.selected {
        assert b <= r.end;
        RemovedInside(s, r'.start, r.end, a, b);
        assert left == s[r'.start..a] && right == s[b..r.end];
      } else {
        assert left == [] && right == [];
      }
    }
  }

  /** An insertion strictly inside the selection is taken into it; at either edge it stays out. */
  lemma InsertionIntoSelection(s: Text, r: Range, pos: nat, t: Text)
    requires RangeOk(r, |s|) && r.selected && pos <= |s|
    ensures var r' := UpdateRange(r, pos, 0, |t|);
            RangeOk(r', |s| + |t|)
            && Selected(Splice(s, pos, pos, t), r')
               == if r.start < pos < r.end then s[r.start..pos] + t + s[pos..r.end]
                  else s[r.start..r.end]
  {
    var s' := Splice(s, pos, pos, t);
    var r' := UpdateRange(r, pos, 0, |t|);
    if r.start < pos < r.end {
      assert s'[r'.start..r'.end] == s[r.start..pos] + t + s[pos..r.end];
    } else {
      UntouchedByStep(s, r, pos, pos, t);
    }
  }

  /** Both updates of an edit that does not run out of the selection: what is left of its bytes, and
      the new ones if they come in strictly inside. */
  lemma EditedBytes(s: Text, r: Range, a: int, b: int, t: Text)
    requires RangeOk(r, |s|) && r.selected && 0 <= a <= b <= |s| && !(r.start < a < r.end < b)
    ensures var q := UpdateRange(r, a, b - a, 0);
            var q' := if t == [] then q else UpdateRange(q, a, 0, |t|);
            RangeOk(q', |s| - (b - a) + |t|)
            && Selected(Splice(s, a, b, t), q')
               == s[r.start..Max(r.start, Min(r.end, a))] + (if r.start < a && b < r.end then t else [])
                  + s[Min(r.end, Max(r.start, b))..r.end]
  {
    var q := UpdateRange(r, a, b - a, 0);
    var left, right := s[r.start..Max(r.start, Min(r.end, a))], s[Min(r.end, Max(r.start, b))..r.end];
    RemovalKeepsSurvivors(s, r, a, b);
    SplicedTwice(s, a, b, t);
    if q.selected {
      InsertionIntoSelection(Splice(s, a, b, []), q, a, t);
      SelectedAround(s, r, a, b);
      if t == [] {
        assert left + t + right == left + right;
      }
    } else {
      assert left == [] && right == [];
    }
  }

  /** The two sides of the selection, as they stand after the removal. */
  lemma SelectedAround(s: Text, r: Range, a: int, b: int)
    requires RangeOk(r, |s|) && r.selected && 0 <= a <= b <= |s| && !(r.start < a < r.end < b)
    ensures var z, q := Splice(s, a, b, []), UpdateRange(r, a, b - a, 0);
            && RangeOk(q, |z|)
            && (q.start < a < q.end <==> r.start < a && b < r.end)
            && (q.start < a < q.end ==> z[q.start..a] == s[r.start..a] && z[a..q.end] == s[b..r.end])
  {
  }

  /** A removal that does run out of it leaves a beginning: too short by the removed bytes behind
      its end. */
  lemma OverrunSelection(s: Text, r: Range, a: int, b: int)
    requires RangeOk(r, |s|) && r.selected && r.start < a < r.end < b <= |s|
    ensures var q, e := UpdateRange(r, a, b - a, 0), r.end - (b - a);
            && q.selected == (e > r.start)
            && Selected(Splice(s, a, b, []), q) == if e > r.start then s[r.start..e] else []
  {
    var z, e := Splice(s, a, b, []), r.end - (b - a);
    assert e > r.start ==> z[r.start..e] == s[r.start..e];
  }

  /** A selection that is removed as a whole becomes the empty range at the place of the removal. */
  lemma RemovedRangeIsEmpty(r: Range, a: int, b: int)
    requires r.selected && a <= r.start < r.end <= b
    ensures UpdateRange(r, a, b - a, 0) == Range(a, a, false)
  {
  }

  /** A range that is not selected is left alone. */
  lemma DroppedRangeStays(r: Range, a: int, nDeleted: int, nInserted: int)
    requires !r.selected
    ensures UpdateRange(r, a, nDeleted, nInserted) == r
  {
  }
}
