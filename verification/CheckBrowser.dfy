/** The check list: a doubly linked list with a remembered node and two counters. */
module CheckBrowsers {
  import opened Integers
  import opened Marks
  import opened Sequences

  // ----- the list as a value

  /** The check marks from first to last, and the counter nchecked_. */
  datatype State = State(marks: seq<int>, nchecked: int)

  ghost predicate Counted(s: State)
  {
    s.nchecked == Count(s.marks)
  }

  datatype Op =
    | Add(b: int)
    | Remove(item: int)
    | SetChecked(item: int, b: int)
    | ItemSelect(item: int, state: bool)
    | CheckAll
    | CheckNone
    | Clear

  function Step(s: State, op: Op): State
  {
    match op
    case Add(b) => State(s.marks + [Char8(b)], s.nchecked + if b != 0 then 1 else 0)
    case Remove(i) =>
      if 1 <= i <= |s.marks| then
        State(s.marks[..i - 1] + s.marks[i..], s.nchecked - if s.marks[i - 1] != 0 then 1 else 0)
      else s
    case SetChecked(i, b) =>
      if 1 <= i <= |s.marks| && s.marks[i - 1] != b then
        State(s.marks[i - 1 := Char8(b)], if b != 0 then s.nchecked + 1 else s.nchecked - 1)
      else s
    case ItemSelect(i, state) =>
      if 1 <= i <= |s.marks| && state then
        if s.marks[i - 1] != 0 then State(s.marks[i - 1 := 0], s.nchecked - 1)
        else State(s.marks[i - 1 := 1], s.nchecked + 1)
      else s
    case CheckAll => State(Repeat(|s.marks|, 1), |s.marks|)
    case CheckNone => State(Repeat(|s.marks|, 0), 0)
    case Clear => if s.marks == [] then s else State([], 0)
  }

  function Run(s: State, ops: seq<Op>): State
    decreases |ops|
  {
    if ops == [] then s else Run(Step(s, ops[0]), ops[1..])
  }

  lemma CountAround(marks: seq<int>, i: int)
    requires 1 <= i <= |marks|
    ensures Count(marks) == Count(marks[..i - 1]) + Count(marks[i..]) + if marks[i - 1] != 0 then 1 else 0
  {
    var m := [marks[i - 1]];
    assert m[..0] == [];
    assert marks == marks[..i - 1] + (m + marks[i..]);
    CountConcat(marks[..i - 1], m + marks[i..]);
    CountConcat(m, marks[i..]);
  }

  lemma CountUpdate(marks: seq<int>, i: int, c: int)
    requires 1 <= i <= |marks|
    ensures Count(marks[i - 1 := c]) ==
            Count(marks) - (if marks[i - 1] != 0 then 1 else 0) + (if c != 0 then 1 else 0)
  {
    var u := marks[i - 1 := c];
    CountAround(marks, i);
    CountAround(u, i);
    assert u[..i - 1] == marks[..i - 1] && u[i..] == marks[i..];
  }

  lemma {:induction false} CountConstant(n: nat, c: int)
    ensures Count(Repeat(n, c)) == if c != 0 then n else 0
  {
    if n > 0 {
      assert Repeat(n, c)[..n - 1] == Repeat(n - 1, c);
      CountConstant(n - 1, c);
    }
  }

  /** When an operation counts right. The value given for a mark has to be one that the eight-bit
      mark keeps apart from 0, and a mark that is set may only be set again to the same value. */
  predicate CountsRight(s: State, op: Op)
  {
    match op
    case Add(b) => b == 0 || b % 256 != 0
    case SetChecked(i, b) =>
      1 <= i <= |s.marks| ==> b == 0 || s.marks[i - 1] == b || (s.marks[i - 1] == 0 && b % 256 != 0)
    case _ => true
  }

  /** nchecked_ stays the number of checked items exactly when the operation counts right. */
  lemma CountedStep(s: State, op: Op)
    requires Counted(s)
    ensures Counted(Step(s, op)) <==> CountsRight(s, op)
  {
    match op
    case Add(b) =>
      CountConcat(s.marks, [Char8(b)]);
      assert [Char8(b)][..0] == [];
    case Remove(i) =>
      if 1 <= i <= |s.marks| {
        CountAround(s.marks, i);
        CountConcat(s.marks[..i - 1], s.marks[i..]);
      }
    case SetChecked(i, b) =>
      if 1 <= i <= |s.marks| {
        CountUpdate(s.marks, i, Char8(b));
      }
    case ItemSelect(i, state) =>
      if 1 <= i <= |s.marks| {
        CountUpdate(s.marks, i, 0);
        CountUpdate(s.marks, i, 1);
      }
    case CheckAll => CountConstant(|s.marks|, 1);
    case CheckNone => CountConstant(|s.marks|, 0);
    case Clear =>
  }

  /** Callers that give marks as 0 or 1. */
  predicate Boolean(op: Op)
  {
    match op
    case Add(b) => b == 0 || b == 1
    case SetChecked(_, b) => b == 0 || b == 1
    case _ => true
  }

  ghost predicate MarksBoolean(s: State)
  {
    forall k :: 0 <= k < |s.marks| ==> s.marks[k] == 0 || s.marks[k] == 1
  }

  /** With marks given as 0 or 1 every run of operations counts right. */
  lemma {:induction false} CountedRun(s: State, ops: seq<Op>)
    requires Counted(s) && MarksBoolean(s)
    requires forall op :: op in ops ==> Boolean(op)
    ensures Counted(Run(s, ops)) && MarksBoolean(Run(s, ops))
    decreases |ops|
  {
    if ops != [] {
      assert ops[0] in ops && forall op :: op in ops[1..] ==> op in ops;
      CountedStep(s, ops[0]);
      CountedRun(Step(s, ops[0]), ops[1..]);
    }
  }

  /** The mark of every item after an operation. */
  lemma MarksAfter(s: State, op: Op, k: nat)
    requires k < |Step(s, op).marks|
    ensures var m, n := s.marks, Step(s, op).marks;
            && (op.Add? ==> |n| == |m| + 1 && n[k] == if k < |m| then m[k] else Char8(op.b))
            && (op.Remove? && 1 <= op.item <= |m| ==> |n| == |m| - 1 && n[k] == m[if k < op.item - 1 then k else k + 1])
            && (op.SetChecked? ==> |n| == |m| && n[k] == if k == op.item - 1 && m[k] != op.b then Char8(op.b) else m[k])
            && (op.ItemSelect? ==>
                  |n| == |m| && n[k] == if k == op.item - 1 && op.state then (if m[k] != 0 then 0 else 1) else m[k])
            && (op.CheckAll? ==> |n| == |m| && n[k] == 1)
            && (op.CheckNone? ==> |n| == |m| && n[k] == 0)
  {
  }

  /** ... and which operations leave none. */
  lemma NoMarksAfter(s: State, op: Op)
    ensures Step(s, op).marks == [] <==>
            !op.Add? && (s.marks == [] || op.Clear? || (op == Remove(1) && |s.marks| == 1))
    ensures op.Remove? && !(1 <= op.item <= |s.marks|) ==> Step(s, op) == s
  {
  }

  /** One item, added checked and then set to 2, is counted twice. */
  lemma MarkTwoCountsTwice()
    ensures var s := Run(State([], 0), [Add(1), SetChecked(1, 2)]);
            s == State([2], 2) && Count(s.marks) == 1
  {
    var s1 := Step(State([], 0), Add(1));
    assert s1 == State([1], 1);
    assert [Add(1), SetChecked(1, 2)][1..] == [SetChecked(1, 2)];
    assert Run(s1, [SetChecked(1, 2)]) == Run(Step(s1, SetChecked(1, 2)), []);
    assert [2][..0] == [];
  }

  // ----- the list in memory

  class CbItem {
    var next: CbItem?
    var prev: CbItem?
    var checked: int
    var selected: bool
    var text: string

    constructor (text: string, checked: int)
      ensures next == null && prev == null && this.checked == checked && !selected && this.text == text
    {
      next, prev := null, null;
      this.checked, selected, this.text := checked, false, text;
    }
  }

  class CheckBrowser {
    var first: CbItem?
    var last: CbItem?
    var cache: CbItem?
    var cachedItem: int
    var nitems: int
    var nchecked: int
    /** The items from first to last, and their marks. */
    ghost var nodes: seq<CbItem>
    ghost var marks: seq<int>

    static function Nth(ns: seq<CbItem>, i: int): CbItem?
    {
      if 0 <= i < |ns| then ns[i] else null
    }

    /** Forward and backward links are each other's inverse and run through all items once. */
    ghost predicate LinksOk()
      reads `nodes, `first, `last, nodes`next, nodes`prev
    {
      && Distinct(nodes) && first == Nth(nodes, 0) && last == Nth(nodes, |nodes| - 1)
      && (forall i {:trigger nodes[i].next} :: 0 <= i < |nodes| ==> nodes[i].next == Nth(nodes, i + 1))
      && (forall i {:trigger nodes[i].prev} :: 0 <= i < |nodes| ==> nodes[i].prev == Nth(nodes, i - 1))
    }

    /** A remembered number is the place of the remembered node. */
    ghost predicate CacheOk()
      reads `cachedItem, `cache, `nodes
    {
      cachedItem == -1 || (1 <= cachedItem <= |nodes| && cache == nodes[cachedItem - 1])
    }

    ghost predicate MarksOk()
      reads `nodes, `marks, nodes`checked
    {
      |marks| == |nodes| && forall i :: 0 <= i < |nodes| ==> nodes[i].checked == marks[i]
    }

    lemma NextIs(i: int)
      requires LinksOk()
      ensures first == Nth(nodes, 0)
      ensures 0 <= i < |nodes| ==> nodes[i].next == Nth(nodes, i + 1)
    {
    }

    lemma OthersDiffer(i: int)
      requires LinksOk()
      ensures 1 <= i <= |nodes| ==> forall k :: 0 <= k < |nodes| && k != i - 1 ==> nodes[k] != nodes[i - 1]
    {
    }

    lemma MarkAt(i: int)
      requires MarksOk()
      ensures |marks| == |nodes| && (1 <= i <= |nodes| ==> nodes[i - 1].checked == marks[i - 1])
    {
    }

    ghost predicate Valid()
      reads this, nodes
    {
      LinksOk() && MarksOk() && nitems == |nodes| && CacheOk()
    }

    ghost function View(): State
      reads `marks, `nchecked
    {
      State(marks, nchecked)
    }

    constructor ()
      ensures Valid() && nodes == [] && View() == State([], 0)
    {
      first, last, cache := null, null, null;
      nitems, nchecked := 0, 0;
      cachedItem := -1;
      nodes, marks := [], [];
    }

    /** The n-th item, counting from 1; one step away from the remembered item it does not walk. */
    method FindItem(n: int) returns (p: CbItem?)
      requires Valid()
      modifies this`cache, this`cachedItem
      ensures Valid()
      ensures p == Nth(nodes, n - 1)
      ensures p != null ==> cachedItem == n && cache == p
    {
      p := first;
      if n <= 0 || n > nitems || p == null {
        return null;
      }
      var k := n;
      if n == cachedItem {
        p := cache;
        k := 1;
      } else if n == cachedItem + 1 {
        p := cache.next;
        k := 1;
      } else if n == cachedItem - 1 {
        p := cache.prev;
        k := 1;
      }
      k := k - 1;
      while k > 0
        invariant 0 <= k < n && p == nodes[n - 1 - k]
      {
        p := p.next;
        k := k - 1;
      }
      cache := p;
      cachedItem := n;
    }

    /** The number of an item, 0 for anything that is not in the list. */
    method Lineno(p0: CbItem?) returns (i: int)
      requires Valid()
      ensures 0 <= i <= |nodes|
      ensures i > 0 ==> nodes[i - 1] == p0
      ensures i == 0 ==> p0 == null || p0 !in nodes
    {
      var p := first;
      if p == null {
        return 0;
      }
      i := 1;
      while p != null
        invariant 1 <= i <= |nodes| + 1 && p == Nth(nodes, i - 1)
        invariant p0 != null ==> p0 !in nodes[..i - 1]
        decreases |nodes| + 1 - i
      {
        if p == p0 {
          return i;
        }
        i := i + 1;
        p := p.next;
      }
      assert nodes[..|nodes|] == nodes;
      return 0;
    }

    method Add(s: string, b: int) returns (n: int)
      requires Valid()
      modifies this, last
      ensures Valid() && n == nitems
      ensures exists p: CbItem :: fresh(p) && p.text == s && nodes == old(nodes) + [p]
      ensures View() == Step(old(View()), Op.Add(b))
    {
      var p := new CbItem(s, Char8(b));
      if b != 0 {
        nchecked := nchecked + 1;
      }
      LinkLast(p);
      nitems := nitems + 1;
      return nitems;
    }

    method LinkLast(p: CbItem)
      requires LinksOk() && MarksOk() && p !in nodes && p.next == null && p.prev == null
      modifies this`first, this`last, this`nodes, this`marks, if last == null then {p} else {last, p}
      ensures LinksOk() && MarksOk()
      ensures nodes == old(nodes) + [p] && marks == old(marks) + [p.checked]
      ensures p.checked == old(p.checked) && p.text == old(p.text)
    {
      if last == null {
        first, last := p, p;
      } else {
        last.next := p;
        p.prev := last;
        last := p;
      }
      nodes := nodes + [p];
      marks := marks + [p.checked];
    }

    method Remove(item: int) returns (n: int)
      requires Valid()
      modifies this, nodes
      ensures Valid() && n == nitems
      ensures nodes == if 1 <= item <= |old(nodes)| then old(nodes)[..item - 1] + old(nodes)[item..] else old(nodes)
      ensures View() == Step(old(View()), Op.Remove(item))
    {
      hide Count, LinksOk, MarksOk;
      MarkAt(item);
      var p := FindItem(item);
      if p != null {
        if p.checked != 0 {
          nchecked := nchecked - 1;
        }
        Unlink(p, item - 1);
        nitems := nitems - 1;
        cachedItem := -1;
      }
      return nitems;
    }

    method Unlink(p: CbItem, ghost k: int)
      requires LinksOk() && MarksOk() && 0 <= k < |nodes| && nodes[k] == p
      modifies this`first, this`last, this`nodes, this`marks, nodes
      ensures LinksOk() && MarksOk()
      ensures nodes == old(nodes)[..k] + old(nodes)[k + 1..]
      ensures marks == old(marks)[..k] + old(marks)[k + 1..]
    {
      UnlinkNode(p, k);
      marks := marks[..k] + marks[k + 1..];
      assert forall i :: 0 <= i < |nodes| ==> nodes[i] == old(nodes)[if i < k then i else i + 1];
    }

    method UnlinkNode(p: CbItem, ghost k: int)
      requires LinksOk() && 0 <= k < |nodes| && nodes[k] == p
      modifies this`first, this`last, this`nodes, nodes`next, nodes`prev
      ensures LinksOk()
      ensures nodes == old(nodes)[..k] + old(nodes)[k + 1..]
    {
      UnlinkForward(p, k);
      UnlinkBackward(p, k);
      nodes := nodes[..k] + nodes[k + 1..];
    }

    method UnlinkForward(p: CbItem, ghost k: int)
      requires LinksOk() && 0 <= k < |nodes| && nodes[k] == p
      modifies this`first, nodes`next
      ensures p.next == old(p.next)
      ensures var ns := nodes[..k] + nodes[k + 1..];
              first == Nth(ns, 0)
              && forall i {:trigger ns[i].next} :: 0 <= i < |ns| ==> ns[i].next == Nth(ns, i + 1)
    {
      if p.prev != null {
        p.prev.next := p.next;
      } else {
        first := p.next;
      }
    }

    method UnlinkBackward(p: CbItem, ghost k: int)
      requires Distinct(nodes) && 0 <= k < |nodes| && nodes[k] == p && last == Nth(nodes, |nodes| - 1)
      requires p.next == Nth(nodes, k + 1)
      requires forall i {:trigger nodes[i].prev} :: 0 <= i < |nodes| ==> nodes[i].prev == Nth(nodes, i - 1)
      modifies this`last, nodes`prev
      ensures var ns := nodes[..k] + nodes[k + 1..];
              last == Nth(ns, |ns| - 1)
              && forall i {:trigger ns[i].prev} :: 0 <= i < |ns| ==> ns[i].prev == Nth(ns, i - 1)
    {
      if p.next != null {
        p.next.prev := p.prev;
      } else {
        last := p.prev;
      }
    }

    method Clear()
      requires Valid()
      modifies this
      ensures Valid() && nodes == []
      ensures View() == Step(old(View()), Op.Clear)
    {
      if first == null {
        return;
      }
      first, last := null, null;
      nitems, nchecked := 0, 0;
      cachedItem := -1;
      nodes, marks := [], [];
    }

    method Checked(i: int) returns (c: int)
      requires Valid()
      modifies this`cache, this`cachedItem
      ensures Valid()
      ensures c == if 1 <= i <= |marks| then marks[i - 1] else 0
    {
      var p := FindItem(i);
      return if p != null then p.checked else 0;
    }

    method Mark(p: CbItem, ghost i: int, c: int)
      requires LinksOk() && MarksOk() && 1 <= i <= |nodes| && nodes[i - 1] == p
      modifies p`checked, `marks
      ensures MarksOk() && marks == old(marks)[i - 1 := c]
    {
      OthersDiffer(i);
      p.checked := c;
      marks := marks[i - 1 := c];
    }

    method SetChecked(i: int, b: int)
      requires Valid()
      modifies this, nodes
      ensures Valid() && nodes == old(nodes)
      ensures View() == Step(old(View()), Op.SetChecked(i, b))
    {
      MarkAt(i);
      hide Count, LinksOk, MarksOk;
      var p := FindItem(i);
      if p != null && p.checked != b {
        Mark(p, i, Char8(b));
        if b != 0 {
          nchecked := nchecked + 1;
        } else {
          nchecked := nchecked - 1;
        }
      }
    }

    /** A click: the mark of the clicked item, number i, changes sides. */
    method ItemSelect(p: CbItem, ghost i: int, state: bool)
      requires Valid() && 1 <= i <= |nodes| && nodes[i - 1] == p
      modifies this`nchecked, this`marks, p
      ensures Valid()
      ensures View() == Step(old(View()), Op.ItemSelect(i, state))
    {
      if state {
        if p.checked != 0 {
          p.checked := 0;
          nchecked := nchecked - 1;
        } else {
          p.checked := 1;
          nchecked := nchecked + 1;
        }
        marks := marks[i - 1 := p.checked];
      }
    }

    method CheckAll()
      requires Valid()
      modifies this`nchecked, this`marks, nodes
      ensures Valid()
      ensures View() == Step(old(View()), Op.CheckAll)
    {
      NextIs(-1);
      hide LinksOk;
      nchecked := nitems;
      ghost var counted := nchecked;
      var p := first;
      ghost var i := 0;
      while p != null
        invariant 0 <= i <= |nodes| && p == Nth(nodes, i)
        invariant LinksOk() && marks == old(marks) && nchecked == counted
        invariant forall k :: 0 <= k < i ==> nodes[k].checked == 1
        decreases |nodes| - i
      {
        p.checked := 1;
        NextIs(i);
        p := p.next;
        i := i + 1;
      }
      marks := Repeat(|nodes|, 1);
    }

    method CheckNone()
      requires Valid()
      modifies this`nchecked, this`marks, nodes
      ensures Valid()
      ensures View() == Step(old(View()), Op.CheckNone)
    {
      NextIs(-1);
      hide LinksOk;
      nchecked := 0;
      ghost var counted := nchecked;
      var p := first;
      ghost var i := 0;
      while p != null
        invariant 0 <= i <= |nodes| && p == Nth(nodes, i)
        invariant LinksOk() && marks == old(marks) && nchecked == counted
        invariant forall k :: 0 <= k < i ==> nodes[k].checked == 0
        decreases |nodes| - i
      {
        p.checked := 0;
        NextIs(i);
        p := p.next;
        i := i + 1;
      }
      marks := Repeat(|nodes|, 0);
    }
  }
}
