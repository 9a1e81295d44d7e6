/** Runs of text operations, and what they promise to listeners: a replica can follow the buffer
    and be led back. */
module TextHistory {
  import opened Integers
  import opened TextSpec
  import opened Selections
  import opened TextModel

  // ----- operations and runs

  datatype Op =
    | Insert(pos: int, t: CString)
    | Remove(start: int, end: int)
    | Replace(start: int, end: int, t: CString)
    | SetText(t: CString)
    | Copy(toPos: int, bytes: Text)
    | TabDistance
    | Select(w: Which, start: int, end: int)
    | Unselect(w: Which)
    | RemoveSelection(w: Which)
    | ReplaceSelection(w: Which, t: CString)
    | SetCanUndo(flag: bool)
    | Undo

  /** What the buffer's methods ask of their caller. */
  ghost predicate Allowed(d: Doc, op: Op)
  {
    match op
    case Replace(s, e, t) => t.Chars? ==> ReplaceDefined(d, s, e)
    case Copy(p, _) => 0 <= p <= |d.text|
    case ReplaceSelection(w, t) =>
      Sel(d, w).selected && t.Chars? ==> ReplaceDefined(d, Sel(d, w).start, Sel(d, w).end)
    case Undo => UndoDefined(d)
    case _ => true
  }

  ghost function Step(d: Doc, op: Op): (r: Doc)
    requires DocOk(d) && Allowed(d, op)
    ensures DocOk(r)
  {
    match op
    case Insert(p, t) => InsertDoc(d, p, t)
    case Remove(s, e) => RemoveDoc(d, s, e)
    case Replace(s, e, t) => ReplaceDoc(d, s, e, t)
    case SetText(t) => SetTextDoc(d, t)
    case Copy(p, t) => CopyDoc(d, p, t)
    case TabDistance => TabDistanceDoc(d)
    case Select(w, s, e) => SelectDoc(d, w, s, e)
    case Unselect(w) => UnselectDoc(d, w)
    case RemoveSelection(w) => RemoveSelectionDoc(d, w)
    case ReplaceSelection(w, t) => ReplaceSelectionDoc(d, w, t)
    case SetCanUndo(f) => CanUndoDoc(d, f)
    case Undo => UndoDoc(d)
  }

  ghost predicate RunAllowed(d: Doc, ops: seq<Op>)
    requires DocOk(d)
    decreases |ops|
  {
    ops != [] ==> Allowed(d, ops[0]) && RunAllowed(Step(d, ops[0]), ops[1..])
  }

  ghost function Run(d: Doc, ops: seq<Op>): (r: Doc)
    requires DocOk(d) && RunAllowed(d, ops)
    ensures DocOk(r)
    decreases |ops|
  {
    if ops == [] then d else Run(Step(d, ops[0]), ops[1..])
  }

  // ----- a listener with a replica

  /** What a listener does to its replica: it fetches the inserted bytes from the buffer. */
  function Listen(replica: Text, n: Notice): Text
  {
    match n
    case Predelete(_, _) => replica
    case Modified(at, ins, del, _, _, seen) =>
      if 0 <= at && 0 <= del && at + del <= |replica| && 0 <= ins && at + ins <= |seen|
      then Splice(replica, at, at + del, seen[at..at + ins]) else replica
  }

  /** The same notification used to go back. */
  function Unlisten(replica: Text, n: Notice): Text
  {
    match n
    case Predelete(_, _) => replica
    case Modified(at, ins, _, _, gone, _) =>
      if 0 <= at && 0 <= ins && at + ins <= |replica|
      then Splice(replica, at, at + ins, gone) else replica
  }

  function Replay(replica: Text, ns: seq<Notice>): Text
    decreases |ns|
  {
    if ns == [] then replica else Replay(Listen(replica, ns[0]), ns[1..])
  }

  function ReplayBack(replica: Text, ns: seq<Notice>): Text
  {
    if ns == [] then replica else Unlisten(ReplayBack(replica, ns[1..]), ns[0])
  }

  lemma {:induction false} ReplayConcat(r: Text, a: seq<Notice>, b: seq<Notice>)
    ensures Replay(r, a + b) == Replay(Replay(r, a), b)
    decreases |a|
  {
    if a == [] {
      assert a + b == b;
    } else {
      assert (a + b)[1..] == a[1..] + b;
      ReplayConcat(Listen(r, a[0]), a[1..], b);
    }
  }

  lemma {:induction false} ReplayBackConcat(r: Text, a: seq<Notice>, b: seq<Notice>)
    ensures ReplayBack(r, a + b) == ReplayBack(ReplayBack(r, b), a)
  {
    if a == [] {
      assert a + b == b;
    } else {
      assert (a + b)[1..] == a[1..] + b;
      ReplayBackConcat(r, a[1..], b);
    }
  }

  /** Every change of bytes was announced just before it was made, with the same position and
      number of deleted bytes. */
  ghost predicate Announced(ns: seq<Notice>)
  {
    forall i :: 0 <= i < |ns| && ns[i].Modified? && (ns[i].nInserted > 0 || ns[i].nRemoved > 0)
                ==> i > 0 && ns[i - 1] == Predelete(ns[i].at, ns[i].nRemoved)
  }

  /** The notifications sent between two states carry one text to the other, both ways. */
  ghost predicate Follows(d: Doc, d': Doc)
  {
    d.notices <= d'.notices
    && var ns := d'.notices[|d.notices|..];
    Replay(d.text, ns) == d'.text && ReplayBack(d'.text, ns) == d.text && Announced(ns)
  }

  lemma AnnouncedConcat(m: seq<Notice>, n: seq<Notice>)
    requires Announced(m) && Announced(n)
    ensures Announced(m + n)
  {
    forall i | 0 <= i < |m + n| && (m + n)[i].Modified? && ((m + n)[i].nInserted > 0 || (m + n)[i].nRemoved > 0)
      ensures i > 0 && (m + n)[i - 1] == Predelete((m + n)[i].at, (m + n)[i].nRemoved)
    {
      if i < |m| {
        assert (m + n)[i] == m[i] && (i > 0 ==> (m + n)[i - 1] == m[i - 1]);
      } else {
        assert (m + n)[i] == n[i - |m|] && (i > |m| ==> (m + n)[i - 1] == n[i - |m| - 1]);
      }
    }
  }

  lemma FollowsTransitive(a: Doc, b: Doc, c: Doc)
    requires Follows(a, b) && Follows(b, c)
    ensures Follows(a, c)
  {
    hide Replay, ReplayBack, Announced;
    var m, n := b.notices[|a.notices|..], c.notices[|b.notices|..];
    assert c.notices == b.notices + n && b.notices == a.notices + m;
    assert c.notices[|a.notices|..] == m + n;
    ReplayConcat(a.text, m, n);
    ReplayBackConcat(c.text, m, n);
    AnnouncedConcat(m, n);
  }

  /** Notifications about looks only. */
  ghost predicate OnlyLooks(ns: seq<Notice>)
  {
    forall n :: n in ns ==> n.Modified? && n.nInserted == 0 && n.nRemoved == 0 && n.deletedText == []
  }

  lemma LookChangesNothing(t: Text, n: Notice)
    requires OnlyLooks([n])
    ensures Listen(t, n) == t && Unlisten(t, n) == t
  {
    assert n in [n];
  }

  lemma {:induction false} LooksChangeNothing(t: Text, ns: seq<Notice>)
    requires OnlyLooks(ns)
    ensures Replay(t, ns) == t && ReplayBack(t, ns) == t
  {
    hide Listen, Unlisten;
    if ns != [] {
      assert ns[0] in ns && forall n :: n in ns[1..] ==> n in ns;
      LookChangesNothing(t, ns[0]);
      LooksChangeNothing(t, ns[1..]);
    }
  }

  lemma FollowsLooks(d: Doc, d': Doc, ns: seq<Notice>)
    requires d'.text == d.text && d'.notices == d.notices + ns && OnlyLooks(ns)
    ensures Follows(d, d')
  {
    assert d'.notices[|d.notices|..] == ns;
    LooksChangeNothing(d.text, ns);
    forall i | 0 <= i < |ns|
      ensures ns[i].Modified? ==> ns[i].nInserted == 0 && ns[i].nRemoved == 0
    {
      assert ns[i] in ns;
    }
  }

  lemma ReplayTwo(r: Text, n: Notice, m: Notice)
    ensures Replay(r, [n, m]) == Listen(Listen(r, n), m)
    ensures ReplayBack(r, [n, m]) == Unlisten(Unlisten(r, m), n)
  {
    assert [n, m][1..] == [m] && [m][1..] == [];
    assert Replay(Listen(r, n), [m]) == Listen(Listen(r, n), m);
    assert ReplayBack(r, [m]) == Unlisten(r, m);
  }

  /** Hearing of a splice makes it, and its deleted text takes it back. */
  lemma SpliceHeard(x: Text, s: int, e: int, t: Text)
    requires 0 <= s <= e <= |x|
    ensures var y := Splice(x, s, e, t);
            var m := Modified(s, |t|, e - s, 0, x[s..e], y);
            Listen(x, m) == y && Unlisten(y, m) == x
  {
    assert Splice(x, s, e, t)[s..s + |t|] == t;
    SpliceBack(x, s, e, t);
  }

  /** One announced splice. */
  lemma FollowsSplice(d: Doc, d': Doc, s: int, e: int, t: Text)
    requires 0 <= s <= e <= |d.text| && d'.text == Splice(d.text, s, e, t)
    requires d'.notices == d.notices
             + [Predelete(s, e - s), Modified(s, |t|, e - s, 0, d.text[s..e], d'.text)]
    ensures Follows(d, d')
  {
    var ns := d'.notices[|d.notices|..];
    var n, m := Predelete(s, e - s), Modified(s, |t|, e - s, 0, d.text[s..e], d'.text);
    assert ns == [n, m] && Announced([n, m]);
    ReplayTwo(d.text, n, m);
    ReplayTwo(d'.text, n, m);
    SpliceHeard(d.text, s, e, t);
    assert Listen(d.text, n) == d.text && Unlisten(d.text, n) == d.text;
    hide Replay, ReplayBack, Splice, Listen, Unlisten, Announced;
  }

  lemma FollowsInsert(d: Doc, pos: int, t: CString)
    requires DocOk(d)
    ensures Follows(d, InsertDoc(d, pos, t))
  {
    if t.Chars? && t.chars != [] {
      assert d.text[Clip(d, pos)..Clip(d, pos)] == [];
      FollowsSplice(d, InsertDoc(d, pos, t), Clip(d, pos), Clip(d, pos), t.chars);
    } else {
      FollowsLooks(d, d, []);
    }
  }

  lemma FollowsRemove(d: Doc, start: int, end: int)
    requires DocOk(d)
    ensures Follows(d, RemoveDoc(d, start, end))
  {
    var s, e := Clip(d, Min(start, end)), Clip(d, Max(start, end));
    if s == e {
      FollowsLooks(d, d, []);
    } else {
      FollowsSplice(d, RemoveDoc(d, start, end), s, e, []);
    }
  }

  lemma FollowsReplace(d: Doc, start: int, end: int, t: CString)
    requires DocOk(d) && (t.Chars? ==> ReplaceDefined(d, start, end))
    ensures Follows(d, ReplaceDoc(d, start, end, t))
  {
    if t.Chars? {
      var s, e := Max(start, 0), Min(end, |d.text|);
      SplicedTwice(d.text, s, e, t.chars);
      FollowsSplice(d, ReplaceDoc(d, start, end, t), s, e, t.chars);
    } else {
      FollowsLooks(d, d, []);
    }
  }

  lemma SpliceAll(x: Text, t: Text)
    ensures Splice(x, 0, |x|, t) == t && x[0..|x|] == x
  {
  }

  lemma FollowsSetText(d: Doc, t: CString)
    requires DocOk(d)
    ensures Follows(d, SetTextDoc(d, t))
  {
    hide Replay, ReplayBack, UpdateRange, Follows, Splice;
    var s := if t.NullString? then [] else t.chars;
    var d' := SetTextDoc(d, t);
    SpliceAll(d.text, s);
    assert d'.notices == d.notices
           + [Predelete(0, |d.text|), Modified(0, |s|, |d.text|, 0, d.text[0..|d.text|], d'.text)];
    FollowsSplice(d, d', 0, |d.text|, s);
  }

  lemma FollowsTabDistance(d: Doc)
    requires DocOk(d)
    ensures Follows(d, TabDistanceDoc(d))
  {
    SpliceAll(d.text, d.text);
    FollowsSplice(d, TabDistanceDoc(d), 0, |d.text|, d.text);
  }

  lemma FollowsSelection(d: Doc, w: Which, r: Range, n: Range)
    ensures Follows(d, Tell(SetSel(d, w, n), Redisplay(r, n, d.text)))
  {
    FollowsLooks(d, Tell(SetSel(d, w, n), Redisplay(r, n, d.text)), Redisplay(r, n, d.text));
  }

  lemma FollowsUndo(d: Doc)
    requires DocOk(d) && UndoDefined(d)
    ensures Follows(d, UndoDoc(d))
  {
    var u := d.undo;
    var t := Chars(u.store[..PutBack(u)]);
    if UndoIgnored(d) || (u.inserted == 0 && PutBack(u) == 0) {
      FollowsLooks(d, d, []);
    } else if u.inserted > 0 && PutBack(u) > 0 {
      FollowsReplace(d, u.at - u.inserted, u.at, t);
    } else if u.inserted > 0 {
      FollowsRemove(d, u.at - u.inserted, u.at);
    } else {
      FollowsInsert(d, u.at, t);
    }
  }

  /** Every operation but copy keeps its listeners informed. */
  lemma StepFollows(d: Doc, op: Op)
    requires DocOk(d) && Allowed(d, op)
    requires op.Copy? ==> op.bytes == []
    ensures Follows(d, Step(d, op))
  {
    match op
    case Insert(p, t) => FollowsInsert(d, p, t);
    case Remove(s, e) => FollowsRemove(d, s, e);
    case Replace(s, e, t) => FollowsReplace(d, s, e, t);
    case SetText(t) => FollowsSetText(d, t);
    case Copy(p, t) => CopyTellsNobody(d, p, t);
    case TabDistance => FollowsTabDistance(d);
    case Select(w, s, e) => FollowsSelection(d, w, Sel(d, w), MakeRange(s, e));
    case Unselect(w) => FollowsSelection(d, w, Sel(d, w), Sel(d, w).(selected := false));
    case RemoveSelection(w) =>
      FollowsLooks(d, d, []);
      FollowsRemove(d, Sel(d, w).start, Sel(d, w).end);
    case ReplaceSelection(w, t) =>
      FollowsLooks(d, d, []);
      var s := Sel(d, w);
      if s.selected {
        FollowsReplace(d, s.start, s.end, t);
        var d1 := ReplaceDoc(d, s.start, s.end, t);
        FollowsSelection(d1, w, s, Sel(d1, w).(selected := false));
        FollowsTransitive(d, d1, Step(d, op));
      }
    case SetCanUndo(f) => FollowsLooks(d, Step(d, op), []);
    case Undo => FollowsUndo(d);
  }

  /** After copy a replica is right only if nothing was copied. */
  lemma CopyTellsNobody(d: Doc, toPos: int, t: Text)
    requires DocOk(d) && 0 <= toPos <= |d.text|
    ensures Follows(d, CopyDoc(d, toPos, t)) <==> t == []
  {
    var d' := CopyDoc(d, toPos, t);
    assert d'.notices[|d.notices|..] == [];
    if t == [] {
      assert d'.text == d.text;
    } else {
      assert |d'.text| > |d.text|;
    }
  }

  /** A replica that hears every notification of a run ends equal to the buffer, and the deleted
      texts it was told lead it back to where it began. */
  lemma {:induction false} ReplicaFollowsRun(d: Doc, ops: seq<Op>)
    requires DocOk(d) && RunAllowed(d, ops)
    requires forall op :: op in ops && op.Copy? ==> op.bytes == []
    ensures Follows(d, Run(d, ops))
    decreases |ops|
  {
    if ops == [] {
      FollowsLooks(d, d, []);
    } else {
      assert ops[0] in ops && forall op :: op in ops[1..] ==> op in ops;
      StepFollows(d, ops[0]);
      ReplicaFollowsRun(Step(d, ops[0]), ops[1..]);
      FollowsTransitive(d, Step(d, ops[0]), Run(d, ops));
    }
  }
}
