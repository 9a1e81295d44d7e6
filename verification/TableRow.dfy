/** Row selection of a table: one flag a row, and a mode that limits how many may be set. */
module TableRows {
  import opened Integers
  import opened Marks
  import opened Vectors

  datatype Mode = SELECT_NONE | SELECT_SINGLE | SELECT_MULTI

  /** The flags of all rows, as characters, and the mode. */
  datatype Selection = Selection(flags: seq<int>, mode: Mode)

  /** The lowest bit of a character, flipped. */
  function FlipBit(c: int): int
  {
    if c % 2 == 0 then c + 1 else c - 1
  }

  function NewFlag(c: int, flag: int): int
  {
    if flag == 2 then FlipBit(c) else Char8(flag)
  }

  function Only(n: nat, row: int, c: int): (r: seq<int>)
    ensures |r| == n && forall t :: 0 <= t < n ==> r[t] == if t == row then c else 0
  {
    seq(n, t => if t == row then c else 0)
  }

  /** The flags, with all but the first that is set cleared. */
  function KeepFirst(flags: seq<int>): (r: seq<int>)
    ensures |r| == |flags|
  {
    if flags == [] then []
    else
      var front, last := flags[..|flags| - 1], flags[|flags| - 1];
      KeepFirst(front) + [if last != 0 && Count(front) > 0 then 0 else last]
  }

  datatype Op =
    | SetMode(mode: Mode)
    | SelectRow(row: int, flag: int)
    | SelectAllRows(flag: int)
    | SetRows(n: nat)

  function Step(s: Selection, op: Op): (t: Selection)
  {
    match op
    case SetMode(m) =>
      Selection(match m
                case SELECT_NONE => Only(|s.flags|, -1, 0)
                case SELECT_SINGLE => KeepFirst(s.flags)
                case SELECT_MULTI => s.flags, m)
    case SelectRow(row, flag) =>
      if 0 <= row < |s.flags| && s.mode != SELECT_NONE then
        var c := NewFlag(s.flags[row], flag);
        if s.mode == SELECT_SINGLE then s.(flags := Only(|s.flags|, row, c)) else s.(flags := s.flags[row := c])
      else s
    case SelectAllRows(flag) =>
      if s.mode == SELECT_NONE || (s.mode == SELECT_SINGLE && flag != 0) then s
      else s.(flags := seq(|s.flags|, t requires 0 <= t < |s.flags| => NewFlag(s.flags[t], flag)))
    case SetRows(n) =>
      s.(flags := if n <= |s.flags| then s.flags[..n] else s.flags + Only(n - |s.flags|, -1, 0))
  }

  function Run(s: Selection, ops: seq<Op>): Selection
  {
    if ops == [] then s else Step(Run(s, ops[..|ops| - 1]), ops[|ops| - 1])
  }

  // ----- how many rows can be selected

  ghost predicate ModeKept(s: Selection)
  {
    && (s.mode == SELECT_NONE ==> Count(s.flags) == 0)
    && (s.mode == SELECT_SINGLE ==> Count(s.flags) <= 1)
  }

  lemma {:induction false} CountOnly(n: nat, row: int, c: int)
    ensures Count(Only(n, row, c)) == if 0 <= row < n && c != 0 then 1 else 0
  {
    if n > 0 {
      assert Only(n, row, c)[..n - 1] == Only(n - 1, row, c);
      CountOnly(n - 1, row, c);
    }
  }

  /** Only the first flag stays, and it stays as it was. */
  lemma {:induction false} KeepFirstCount(flags: seq<int>)
    ensures Count(KeepFirst(flags)) == if Count(flags) > 0 then 1 else 0
  {
    if flags != [] {
      var front := flags[..|flags| - 1];
      KeepFirstCount(front);
      assert KeepFirst(flags)[..|flags| - 1] == KeepFirst(front);
    }
  }

  lemma {:induction false} KeepFirstAt(flags: seq<int>, t: int)
    requires 0 <= t < |flags|
    ensures KeepFirst(flags)[t] == if Count(flags[..t]) == 0 then flags[t] else 0
  {
    var front := flags[..|flags| - 1];
    if t < |front| {
      KeepFirstAt(front, t);
      assert front[..t] == flags[..t];
    }
  }

  lemma CountMore(flags: seq<int>, t: int)
    requires 0 <= t <= |flags|
    ensures Count(flags[..0]) == 0
    ensures t < |flags| ==> Count(flags[..t + 1]) == Count(flags[..t]) + if flags[t] != 0 then 1 else 0
  {
    if t < |flags| {
      assert flags[..t + 1][..t] == flags[..t];
    }
  }

  lemma StepKeepsMode(s: Selection, op: Op)
    requires ModeKept(s)
    ensures ModeKept(Step(s, op))
  {
    match op
    case SetMode(_) =>
      CountOnly(|s.flags|, -1, 0);
      KeepFirstCount(s.flags);
    case SelectRow(row, flag) =>
      if 0 <= row < |s.flags| {
        CountOnly(|s.flags|, row, NewFlag(s.flags[row], flag));
      }
    case SelectAllRows(flag) =>
      CountOnly(|s.flags|, -1, 0);
      assert s.mode == SELECT_SINGLE && flag == 0 ==> Step(s, op).flags == Only(|s.flags|, -1, 0);
    case SetRows(n) =>
      if n <= |s.flags| {
        CountConcat(s.flags[..n], s.flags[n..]);
        assert s.flags[..n] + s.flags[n..] == s.flags;
      } else {
        CountOnly(n - |s.flags|, -1, 0);
        CountConcat(s.flags, Only(n - |s.flags|, -1, 0));
      }
  }

  /** No reachable state has a row selected in SELECT_NONE, or two in SELECT_SINGLE. */
  lemma {:induction false} RunsKeepMode(ops: seq<Op>)
    ensures ModeKept(Run(Selection([], SELECT_MULTI), ops))
  {
    if ops != [] {
      RunsKeepMode(ops[..|ops| - 1]);
      StepKeepsMode(Run(Selection([], SELECT_MULTI), ops[..|ops| - 1]), ops[|ops| - 1]);
    }
  }

  // ----- the flag of every row

  /** What becomes of one flag. */
  predicate Sets(was: int, flag: int, now: int)
  {
    if flag == 2 then now == was + (if was % 2 == 0 then 1 else -1)
    else now == Char8(flag)
  }

  /** Selecting one row: its flag is set, or flipped for 2, wherever rows can be selected. */
  lemma SelectedRow(s: Selection, row: int, flag: int)
    ensures var r := Step(s, SelectRow(row, flag));
            && r.mode == s.mode && |r.flags| == |s.flags|
            && if 0 <= row < |s.flags| && s.mode != SELECT_NONE then Sets(s.flags[row], flag, r.flags[row]) else r == s
  {
  }

  /** Selecting all rows does so to every row, except where there can be no or one selected row and
      it is not the deselection of that one. */
  lemma SelectedAll(s: Selection, flag: int)
    ensures var r := Step(s, SelectAllRows(flag));
            && r.mode == s.mode && |r.flags| == |s.flags|
            && if s.mode == SELECT_MULTI || (s.mode == SELECT_SINGLE && flag == 0)
               then forall t :: 0 <= t < |s.flags| ==> Sets(s.flags[t], flag, r.flags[t])
               else r == s
  {
  }

  /** With another number of rows, the rows that stay keep their flags and new ones have none. */
  lemma RowsKept(s: Selection, n: nat)
    ensures var r := Step(s, SetRows(n));
            r.mode == s.mode && |r.flags| == n
            && forall t :: 0 <= t < n ==> r.flags[t] == if t < |s.flags| then s.flags[t] else 0
  {
  }

  /** A new mode drops all flags, all but the first that is set, or none. */
  lemma ModeSet(s: Selection, m: Mode)
    ensures var r := Step(s, SetMode(m));
            && r.mode == m && |r.flags| == |s.flags|
            && forall t :: 0 <= t < |s.flags| ==>
                 r.flags[t] == if m == SELECT_NONE || (m == SELECT_SINGLE && Count(s.flags[..t]) > 0) then 0
                               else s.flags[t]
  {
    if m == SELECT_SINGLE {
      forall t | 0 <= t < |s.flags| {
        KeepFirstAt(s.flags, t);
      }
    }
  }

  // ----- flags that are 0 or 1

  ghost predicate Bits(s: Selection)
  {
    forall t :: 0 <= t < |s.flags| ==> s.flags[t] == 0 || s.flags[t] == 1
  }

  /** The flag argument the documentation gives: 0, 1, or 2 to toggle. */
  predicate Documented(flag: int)
  {
    flag == 2 || Char8(flag) == 0 || Char8(flag) == 1
  }

  /** Selecting keeps the flags 0 or 1, as row_selected promises, exactly with such arguments. */
  lemma SelectKeepsBits(s: Selection, row: int, flag: int)
    requires Bits(s) && 0 <= row < |s.flags| && s.mode != SELECT_NONE
    ensures Bits(Step(s, SelectRow(row, flag))) <==> Documented(flag)
  {
    assert Step(s, SelectRow(row, flag)).flags[row] == NewFlag(s.flags[row], flag);
  }

  predicate DocumentedOp(op: Op)
  {
    match op
    case SelectRow(_, flag) => Documented(flag)
    case SelectAllRows(flag) => Documented(flag)
    case _ => true
  }

  lemma StepKeepsBits(s: Selection, op: Op)
    requires Bits(s) && DocumentedOp(op)
    ensures Bits(Step(s, op))
  {
    if op == SetMode(SELECT_SINGLE) {
      forall t | 0 <= t < |s.flags| ensures KeepFirst(s.flags)[t] == 0 || KeepFirst(s.flags)[t] == 1 {
        KeepFirstAt(s.flags, t);
      }
    }
  }

  lemma {:induction false} RunsKeepBits(ops: seq<Op>)
    requires forall op :: op in ops ==> DocumentedOp(op)
    ensures Bits(Run(Selection([], SELECT_MULTI), ops))
  {
    if ops != [] {
      var front := ops[..|ops| - 1];
      assert ops[|ops| - 1] in ops && forall op :: op in front ==> op in ops;
      RunsKeepBits(front);
      StepKeepsBits(Run(Selection([], SELECT_MULTI), front), ops[|ops| - 1]);
    }
  }

  /** A toggle flips a row exactly when its flag is 0 or 1: any other flag stays set. */
  lemma ToggleFlips(s: Selection, row: int)
    requires 0 <= row < |s.flags| && s.mode != SELECT_NONE
    ensures var c := s.flags[row];
            ((Step(s, SelectRow(row, 2)).flags[row] != 0) != (c != 0)) <==> c == 0 || c == 1
  {
  }

  /** In SELECT_SINGLE at most the named row is selected afterwards; in SELECT_MULTI no other row
      changes. */
  lemma OthersAfterSelect(s: Selection, row: int, flag: int, t: int)
    requires 0 <= row < |s.flags| && 0 <= t < |s.flags| && t != row && s.mode != SELECT_NONE
    ensures Step(s, SelectRow(row, flag)).flags[t] == if s.mode == SELECT_SINGLE then 0 else s.flags[t]
  {
  }

  // ----- the widget

  /** Some flag among the first n differs. */
  ghost predicate AnyOther(fs: seq<int>, n: int, flag: int)
    requires n <= |fs|
  {
    exists t :: 0 <= t < n && fs[t] != flag
  }

  lemma OneMore(fs: seq<int>, n: nat, flag: int)
    requires n < |fs|
    ensures AnyOther(fs, n + 1, flag) <==> AnyOther(fs, n, flag) || fs[n] != flag
  {
  }

  class TableRow {
    var rows: nat
    var mode: Mode
    const rowselect: Vector<int>

    ghost predicate Valid()
      reads this, rowselect
    {
      rowselect.Valid() && rowselect.len == rows
    }

    ghost function Value(): Selection
      requires Valid()
      reads this, rowselect, rowselect.arr
    {
      Selection(rowselect.Contents(), mode)
    }

    constructor ()
      ensures Valid() && fresh(rowselect) && fresh(rowselect.arr) && Value() == Selection([], SELECT_MULTI)
    {
      rows, mode := 0, SELECT_MULTI;
      rowselect := new Vector<int>();
    }

    method RowSelected(row: int) returns (r: int)
      requires Valid()
      ensures r == if 0 <= row < rows then Value().flags[row] else -1
    {
      if row < 0 || row >= rows {
        return -1;
      }
      r := rowselect.At(row);
    }

    method SetType(m: Mode)
      requires Valid()
      modifies `mode, rowselect.arr
      ensures Valid() && Value() == Step(old(Value()), SetMode(m))
    {
      mode := m;
      match mode
      case SELECT_NONE => ClearFlags();
      case SELECT_SINGLE => ClearButFirst();
      case SELECT_MULTI =>
    }

    method ClearFlags()
      requires Valid()
      modifies rowselect.arr
      ensures Valid() && rowselect.Contents() == Only(rows, -1, 0)
    {
      var row := 0;
      while row < rows
        invariant 0 <= row <= rows && Valid()
        invariant forall t :: 0 <= t < row ==> rowselect.Contents()[t] == 0
      {
        rowselect.Put(row, 0);
        row := row + 1;
      }
      assert rowselect.Contents() == Only(rows, -1, 0);
    }

    method ClearButFirst()
      requires Valid()
      modifies rowselect.arr
      ensures Valid() && rowselect.Contents() == KeepFirst(old(rowselect.Contents()))
    {
      hide KeepFirst, Count;
      ghost var was := rowselect.Contents();
      var count, row := 0, 0;
      CountMore(was, 0);
      while row < rows
        invariant 0 <= row <= rows && Valid()
        invariant count == Count(was[..row])
        invariant forall t :: 0 <= t < row ==> rowselect.Contents()[t] == KeepFirst(was)[t]
        invariant forall t :: row <= t < rows ==> rowselect.Contents()[t] == was[t]
      {
        KeepFirstAt(was, row);
        CountMore(was, row);
        if rowselect.At(row) != 0 {
          count := count + 1;
          if count > 1 {
            rowselect.Put(row, 0);
          }
        }
        row := row + 1;
      }
      assert rowselect.Contents() == KeepFirst(was);
    }

    /** 1 when the row's flag changed, 0 when not, -1 when there is no such row or no selection. */
    method SelectRow(row: int, flag: int) returns (ret: int)
      requires Valid()
      modifies rowselect.arr
      ensures Valid() && Value() == Step(old(Value()), Op.SelectRow(row, flag))
      ensures ret == if row < 0 || row >= rows || mode == SELECT_NONE then -1
                     else if Value().flags[row] != old(Value()).flags[row] then 1 else 0
    {
      ret := 0;
      if row < 0 || row >= rows {
        return -1;
      }
      match mode
      case SELECT_NONE =>
        return -1;
      case SELECT_SINGLE =>
        ret := SelectOnly(row, flag);
      case SELECT_MULTI =>
        var oldval := rowselect.At(row);
        if flag == 2 {
          rowselect.Put(row, FlipBit(oldval));
        } else {
          rowselect.Put(row, Char8(flag));
        }
        if rowselect.At(row) != oldval {
          ret := 1;
        }
    }

    method SelectOnly(row: int, flag: int) returns (ret: int)
      requires Valid() && 0 <= row < rows
      modifies rowselect.arr
      ensures Valid()
      ensures rowselect.Contents() == Only(rows, row, NewFlag(old(rowselect.Contents())[row], flag))
      ensures ret == if rowselect.Contents()[row] != old(rowselect.Contents())[row] then 1 else 0
    {
      ghost var was := rowselect.Contents();
      ret := 0;
      var t := 0;
      while t < rows
        invariant 0 <= t <= rows && Valid()
        invariant forall i :: 0 <= i < t ==> rowselect.Contents()[i] == if i == row then NewFlag(was[row], flag) else 0
        invariant forall i :: t <= i < rows ==> rowselect.Contents()[i] == was[i]
        invariant ret == if t > row && NewFlag(was[row], flag) != was[row] then 1 else 0
      {
        if t == row {
          var oldval := rowselect.At(row);
          if flag == 2 {
            rowselect.Put(row, FlipBit(oldval));
          } else {
            rowselect.Put(row, Char8(flag));
          }
          if oldval != rowselect.At(row) {
            ret := 1;
          }
        } else if rowselect.At(t) != 0 {
          rowselect.Put(t, 0);
        }
        t := t + 1;
      }
      assert rowselect.Contents() == Only(rows, row, NewFlag(was[row], flag));
    }

    /** `changed` is what decides on a redraw. */
    method SelectAllRows(flag: int) returns (changed: bool)
      requires Valid()
      modifies rowselect.arr
      ensures Valid() && Value() == Step(old(Value()), Op.SelectAllRows(flag))
      ensures changed <==> mode != SELECT_NONE && (mode == SELECT_SINGLE ==> flag == 0) &&
                           (flag == 2 || exists t :: 0 <= t < rows && old(Value()).flags[t] != flag)
    {
      changed := false;
      if mode == SELECT_NONE || (mode == SELECT_SINGLE && flag != 0) {
        return;
      }
      ghost var was := rowselect.Contents();
      changed := flag == 2;
      var row := 0;
      while row < rowselect.len
        invariant 0 <= row <= rows && Valid()
        invariant changed <==> flag == 2 || AnyOther(was, row, flag)
        invariant forall i :: 0 <= i < row ==> rowselect.Contents()[i] == NewFlag(was[i], flag)
        invariant forall i :: row <= i < rows ==> rowselect.Contents()[i] == was[i]
      {
        if flag == 2 {
          rowselect.Put(row, FlipBit(rowselect.At(row)));
        } else {
          changed := changed || rowselect.At(row) != flag;
          rowselect.Put(row, Char8(flag));
        }
        OneMore(was, row, flag);
        row := row + 1;
      }
      assert rowselect.Contents() == Step(Selection(was, mode), Op.SelectAllRows(flag)).flags;
    }

    method SetRows(val: nat)
      requires Valid()
      modifies `rows, rowselect, rowselect.arr
      ensures Valid() && Value() == Step(old(Value()), Op.SetRows(val))
      ensures rowselect.arr == old(rowselect.arr) || fresh(rowselect.arr)
    {
      ghost var was := rowselect.Contents();
      rows := val;
      while val > rowselect.len
        invariant rows == val && rowselect.Valid() && |was| <= rowselect.len
        invariant rowselect.len <= val || rowselect.len == |was|
        invariant rowselect.Contents() == was + Only(rowselect.len - |was|, -1, 0)
        invariant rowselect.arr == old(rowselect.arr) || fresh(rowselect.arr)
      {
        ghost var n := rowselect.len - |was|;
        rowselect.PushBack(0);
        assert Only(n + 1, -1, 0) == Only(n, -1, 0) + [0];
      }
      ghost var n := rowselect.len;
      ghost var grown := rowselect.Contents();
      while val < rowselect.len
        invariant rows == val && rowselect.Valid() && val <= rowselect.len <= n
        invariant rowselect.Contents() == grown[..rowselect.len]
        invariant rowselect.arr == old(rowselect.arr) || fresh(rowselect.arr)
      {
        var _ := rowselect.PopBack();
      }
    }
  }
}
