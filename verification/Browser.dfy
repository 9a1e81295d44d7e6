/** The line browser: a doubly linked list looked up by line number, with the last answer
    remembered as a pair (cacheline, cache). */
module Browsers {
  import opened Integers
  import opened Sequences

  // ----- the remembered pair as a value

  /** `line` is cacheline; `at` is the true line number of the cache node, 0 for a null pointer
      and -1 for a node that is no longer in the list. */
  datatype Memo = Memo(lines: nat, line: int, at: int)

  const FREED := -1

  /** The number a line lookup should find: the line itself, or nothing. */
  function Right(lines: nat, line: int): int
  {
    if 1 <= line <= lines then line else 0
  }

  /** Integer division by 2 as the source language does it, towards zero. */
  function Half(x: int): int
  {
    if x >= 0 then x / 2 else -(-x / 2)
  }

  lemma HalfTruncates(x: int)
    ensures x >= 0 ==> x - 1 <= 2 * Half(x) <= x
    ensures x <= 0 ==> x <= 2 * Half(x) <= x + 1
  {
  }

  /** The lookup starts at the remembered node when the line is in this window. */
  predicate NearMemo(m: Memo, line: int)
  {
    m.line != 0 && Half(m.line) < line < Half(m.line + m.lines)
  }

  /** Walking `d` lines from line number `from`; off either end there is nothing. */
  function Walk(m: Memo, from: int, d: int): int
  {
    if from == 0 then 0 else Right(m.lines, from + d)
  }

  /** What find_line answers, whatever is remembered. */
  function Found(m: Memo, line: int): int
  {
    if line == m.line then m.at
    else if NearMemo(m, line) then Walk(m, m.at, line - m.line)
    else if line <= Half(m.lines) then Walk(m, Right(m.lines, 1), line - 1)
    else Walk(m, Right(m.lines, m.lines), line - m.lines)
  }

  /** Nothing is remembered, or a line of the list with its own node. */
  predicate MemoOk(m: Memo)
  {
    (m.line == 0 && m.at == 0) || (1 <= m.line <= m.lines && m.at == m.line)
  }

  /** No line of the list lies in the window around this number. */
  predicate NoLineNear(lines: nat, line: int)
  {
    Max(Half(line) + 1, 1) > Min(Half(line + lines) - 1, lines)
  }

  /** A pair left by a lookup outside the list: the number of no line, with a null pointer. It
      does no harm only while no line is near it. */
  predicate MissHarmless(m: Memo)
  {
    (m.line < 0 || m.line > m.lines) && m.at == 0 && NoLineNear(m.lines, m.line)
  }

  predicate PairRight(m: Memo)
  {
    MemoOk(m) || MissHarmless(m)
  }

  lemma WindowEmpty(lines: nat, line: int)
    requires line < 0 || line > lines
    ensures NoLineNear(lines, line) <==> forall l :: 1 <= l <= lines ==> !NearMemo(Memo(lines, line, 0), l)
  {
    if !NoLineNear(lines, line) {
      assert NearMemo(Memo(lines, line, 0), Max(Half(line) + 1, 1));
    }
  }

  /** Every lookup is right exactly when the pair is right or a harmless miss. */
  lemma LookupsRight(m: Memo)
    requires -1 <= m.at <= m.lines
    ensures (forall l :: Found(m, l) == Right(m.lines, l)) <==> PairRight(m)
  {
    if m.line < 0 || m.line > m.lines {
      WindowEmpty(m.lines, m.line);
    }
    if PairRight(m) {
      forall l
        ensures Found(m, l) == Right(m.lines, l)
      {
        assert 1 <= l <= m.lines || !NearMemo(m, l) || MemoOk(m) || m.at == 0;
      }
    } else {
      if m.at == Right(m.lines, m.line) {
        var l :| 1 <= l <= m.lines && NearMemo(Memo(m.lines, m.line, 0), l);
        assert Found(m, l) == 0 != Right(m.lines, l);
      } else {
        assert Found(m, m.line) != Right(m.lines, m.line);
      }
    }
  }

  datatype Op =
    | Find(line: int)
    | Lineno(of: int)
    | Insert(line: int)
    | Remove(line: int)
    | Move(to: int, from: int)
    | Swap(a: int, b: int)
    | SetText(line: int)
    | Clear

  function AfterFind(m: Memo, line: int): Memo
  {
    Memo(m.lines, line, Found(m, line))
  }

  /** Where insert puts a line: above the one it finds. */
  function Place(m: Memo, line: int): int
  {
    if line <= 1 then 1 else if line > m.lines then m.lines + 1 else Found(m, line)
  }

  function AfterInsert(m: Memo, line: int): Memo
  {
    Memo(m.lines + 1, line, Place(m, line))
  }

  /** Line number `line` is taken out, or whatever is found for it. */
  function AfterRemove(m: Memo, line: int): Memo
    requires m.lines > 0
  {
    Memo(m.lines - 1, line - 1, Found(m, line) - 1)
  }

  /** The source follows no null pointer: a line that is removed or given a text is found, and a
      line that something is put above of is found and is not the first. It need not be the right
      line. */
  predicate Usable(m: Memo, op: Op)
  {
    match op
    case Insert(l) => 1 < l <= m.lines ==> Found(m, l) >= 2
    case Remove(l) => 1 <= l <= m.lines ==> Found(m, l) >= 1
    case Move(to, from) =>
      1 <= from <= m.lines ==>
        Found(m, from) >= 1 && (1 < to < m.lines ==> Found(AfterRemove(m, from), to) >= 2)
    case SetText(l) => 1 <= l <= m.lines ==> Found(m, l) >= 1
    case _ => true
  }

  /** A node that is gone is remembered only by an empty list. */
  predicate NotFreed(m: Memo)
  {
    -1 <= m.at <= m.lines && (m.at == FREED ==> m.lines == 0)
  }

  /** The pair after an operation. */
  function Step(m: Memo, op: Op): Memo
  {
    match op
    case Find(l) => AfterFind(m, l)
    case Lineno(t) => LinenoMemo(m, t)
    case Insert(l) => AfterInsert(m, l)
    case Remove(l) => if 1 <= l <= m.lines then AfterRemove(m, l) else m
    case Move(to, from) => if 1 <= from <= m.lines then AfterInsert(AfterRemove(m, from), to) else m
    case Swap(a, b) =>
      if 1 <= a <= m.lines && 1 <= b <= m.lines then
        AfterSwap(AfterFind(m, a), b)
      else m
    case SetText(l) => if 1 <= l <= m.lines then AfterFind(m, l) else m
    case Clear => Memo(0, m.line, if m.at == 0 then 0 else FREED)
  }

  /** swap, the first line having been looked up: if the two are one node, or one is not found, it
      leaves everything as it is; otherwise nothing is remembered. */
  function AfterSwap(m: Memo, b: int): Memo
  {
    var n := AfterFind(m, b);
    if m.at == n.at || m.at == 0 || n.at == 0 then n else Memo(m.lines, 0, 0)
  }

  /** What lineno answers for line number t of the list, counting from the remembered pair. */
  function LinenoAnswer(m: Memo, t: int): int
  {
    if t == 0 then 0
    else if t == m.at then m.line
    else if t == 1 then 1
    else if t == m.lines then m.lines
    else if m.at == 0 then t
    else m.line + (t - m.at)
  }

  /** lineno remembers its answer unless it knew it without searching. */
  function LinenoMemo(m: Memo, t: int): Memo
  {
    if !(1 <= t <= m.lines) || t == m.at || t == 1 || t == m.lines then m
    else Memo(m.lines, LinenoAnswer(m, t), t)
  }

  /** In every state that can be reached, a node that is gone is remembered only by an empty list:
      the source never follows it. */
  lemma NotFreedStep(m: Memo, op: Op)
    requires NotFreed(m) && Usable(m, op)
    ensures NotFreed(Step(m, op))
  {
    hide Found;
    match op
    case Find(l) => FoundInList(m, l);
    case Insert(l) => FoundInList(m, l);
    case Remove(l) => FoundInList(m, l);
    case Move(to, from) =>
      FoundInList(m, from);
      if 1 <= from <= m.lines {
        FoundInList(AfterRemove(m, from), to);
      }
    case Swap(a, b) =>
      FoundInList(m, a);
      FoundInList(AfterFind(m, a), b);
    case SetText(l) => FoundInList(m, l);
    case _ =>
  }

  lemma FoundInList(m: Memo, l: int)
    requires NotFreed(m)
    ensures NotFreed(AfterFind(m, l))
  {
    hide Half;
  }

  /** What a caller has to check. */
  predicate Careful(m: Memo, op: Op)
  {
    match op
    case Find(l) => 0 <= l <= m.lines || l == m.line || NoLineNear(m.lines, l)
    case Insert(l) => 1 <= l <= m.lines + 1
    case Move(to, from) => 1 <= from <= m.lines ==> 1 <= to <= m.lines
    case _ => true
  }

  /** The pair is right, or there is no line that could be looked up wrong: clear() leaves the pair
      as it was. */
  predicate Dependable(m: Memo)
  {
    PairRight(m) || m.lines == 0
  }

  /** With a dependable pair every operation finds the lines it needs. */
  lemma DependableIsUsable(m: Memo, op: Op)
    requires Dependable(m) && NotFreed(m)
    ensures Usable(m, op)
    ensures forall l :: 1 <= l <= m.lines ==> Found(m, l) == l
  {
    if m.lines > 0 {
      LookupsRight(m);
      forall l | 1 <= l <= m.lines
        ensures Found(m, l) == l
      {
        assert Found(m, l) == Right(m.lines, l);
      }
      if op.Move? && 1 <= op.from <= m.lines {
        var r := AfterRemove(m, op.from);
        assert MemoOk(r);
        LookupsRight(r);
        assert Found(r, op.to) == Right(r.lines, op.to);
      }
    }
  }

  /** The pair stays dependable exactly through careful operations. */
  lemma DependableStep(m: Memo, op: Op)
    requires Dependable(m) && NotFreed(m)
    ensures Dependable(Step(m, op)) <==> Careful(m, op)
  {
    DependableIsUsable(m, op);
    match op
    case Find(l) => FindDependable(m, l);
    case Swap(a, b) => SwapDependable(m, a, b);
    case Move(to, from) => MoveDependable(m, to, from);
    case _ => hide Half, Found, NearMemo;
  }

  /** What is remembered after a careful operation, in line numbers of the list as it then is. */
  lemma Remembers(m: Memo, op: Op)
    requires Dependable(m) && NotFreed(m) && Careful(m, op)
    ensures var n, r := m.lines, Step(m, op);
            match op
            case Find(l) => 1 <= l <= n ==> r == Memo(n, l, l)
            case Lineno(t) => r == if 1 < t < n && t != m.at then Memo(n, t, t) else m
            case Insert(l) => r == Memo(n + 1, l, l)
            case Remove(l) => r == if 1 <= l <= n then Memo(n - 1, l - 1, l - 1) else m
            case Move(to, from) => r == if 1 <= from <= n then Memo(n, to, to) else m
            case Swap(a, b) =>
              r == if !(1 <= a <= n && 1 <= b <= n) then m else if a == b then Memo(n, a, a) else Memo(n, 0, 0)
            case SetText(l) => r == if 1 <= l <= n then Memo(n, l, l) else m
            case Clear => r == Memo(0, m.line, if m.at == 0 then 0 else FREED)
  {
    DependableIsUsable(m, op);
    match op
    case Swap(a, b) =>
      if 1 <= a <= m.lines && 1 <= b <= m.lines {
        FindDependable(m, a);
        DependableIsUsable(AfterFind(m, a), Find(b));
        hide Found;
      }
    case Move(to, from) =>
      if 1 <= from <= m.lines {
        var r := AfterRemove(m, from);
        assert MemoOk(r);
        DependableIsUsable(r, Insert(to));
        hide Found;
      }
    case Lineno(t) => hide Found; LinenoIs(m, t);
    case _ => hide Found, NearMemo, Half;
  }

  lemma LinenoIs(m: Memo, t: int)
    requires Dependable(m) && NotFreed(m)
    ensures 1 <= t <= m.lines ==> LinenoAnswer(m, t) == t
  {
  }

  /** Insert puts a line where it is asked to, the ends being the nearest places. */
  lemma PlaceIs(m: Memo, line: int)
    requires Dependable(m) && NotFreed(m)
    ensures Place(m, line) == if line <= 1 then 1 else if line > m.lines then m.lines + 1 else line
  {
    DependableIsUsable(m, Find(line));
  }

  lemma FindDependable(m: Memo, l: int)
    requires Dependable(m) && NotFreed(m)
    ensures Dependable(AfterFind(m, l)) <==> Careful(m, Find(l))
  {
    if m.lines > 0 {
      LookupsRight(m);
      assert Found(m, l) == Right(m.lines, l);
    }
  }

  lemma SwapDependable(m: Memo, a: int, b: int)
    requires Dependable(m) && NotFreed(m)
    ensures Dependable(Step(m, Swap(a, b)))
  {
    if 1 <= a <= m.lines && 1 <= b <= m.lines {
      DependableIsUsable(m, Find(a));
      FindDependable(m, a);
      DependableIsUsable(AfterFind(m, a), Find(b));
      FindDependable(AfterFind(m, a), b);
      hide Found;
    }
  }

  lemma MoveDependable(m: Memo, to: int, from: int)
    requires Dependable(m) && NotFreed(m)
    ensures Dependable(Step(m, Move(to, from))) <==> Careful(m, Move(to, from))
  {
    DependableIsUsable(m, Remove(from));
    if 1 <= from <= m.lines {
      var r := AfterRemove(m, from);
      assert MemoOk(r);
      DependableIsUsable(r, Insert(to));
      hide Half, Found, NearMemo;
    }
  }

  function Run(m: Memo, ops: seq<Op>): Memo
    decreases |ops|
  {
    if ops == [] then m else Run(Step(m, ops[0]), ops[1..])
  }

  ghost predicate AllCareful(m: Memo, ops: seq<Op>)
    decreases |ops|
  {
    ops != [] ==> Careful(m, ops[0]) && AllCareful(Step(m, ops[0]), ops[1..])
  }

  /** After any run of careful operations, clear() included, every line is looked up right; and as
      soon as there are lines, so is every number outside the list. */
  lemma {:induction false} LookupsStayRight(m: Memo, ops: seq<Op>)
    requires Dependable(m) && NotFreed(m) && AllCareful(m, ops)
    ensures var r := Run(m, ops);
            && Dependable(r)
            && (forall l :: 1 <= l <= r.lines ==> Found(r, l) == l)
            && (r.lines > 0 ==> forall l :: Found(r, l) == Right(r.lines, l))
    decreases |ops|
  {
    if ops == [] {
      DependableIsUsable(m, Clear);
      LookupsRight(m);
    } else {
      DependableIsUsable(m, ops[0]);
      DependableStep(m, ops[0]);
      NotFreedStep(m, ops[0]);
      LookupsStayRight(Step(m, ops[0]), ops[1..]);
    }
  }

  /** What is looked up in a cleared browser is the remembered node, which is gone, for the
      remembered number, and nothing for any other. */
  lemma ClearedAnswers(m: Memo, l: int)
    requires NotFreed(m)
    ensures var r := Step(m, Clear);
            Found(r, l) == if l == m.line && m.at != 0 then FREED else 0
    ensures l != m.line ==> PairRight(AfterFind(Step(m, Clear), l))
  {
  }

  /** A browser with four lines is asked for line 5, then for line 3: it answers "no such line",
      and keeps answering so; removing line 3 would follow a null pointer. */
  lemma OneMissHidesALine()
    ensures var m := Run(Memo(0, 0, 0), [Insert(1), Insert(2), Insert(3), Insert(4), Find(5)]);
            Found(m, 3) == 0 && Found(AfterFind(m, 3), 3) == 0 && !Usable(m, Remove(3))
  {
    var m0 := Memo(0, 0, 0);
    var m1, m2, m3, m4 := Memo(1, 1, 1), Memo(2, 2, 2), Memo(3, 3, 3), Memo(4, 4, 4);
    assert Step(m0, Insert(1)) == m1 && Step(m1, Insert(2)) == m2;
    assert Step(m2, Insert(3)) == m3 && Step(m3, Insert(4)) == m4;
    assert Step(m4, Find(5)) == Memo(4, 5, 0);
    var ops := [Insert(1), Insert(2), Insert(3), Insert(4), Find(5)];
    assert ops[1..] == [Insert(2), Insert(3), Insert(4), Find(5)];
    assert ops[1..][1..] == [Insert(3), Insert(4), Find(5)];
    assert ops[1..][1..][1..] == [Insert(4), Find(5)];
    assert ops[1..][1..][1..][1..] == [Find(5)];
    assert Run(m4, [Find(5)]) == Run(Step(m4, Find(5)), []);
    assert Run(m0, ops) == Run(m1, ops[1..]) == Run(m2, ops[1..][1..]);
    assert Run(m2, ops[1..][1..]) == Run(m3, ops[1..][1..][1..]) == Run(m4, [Find(5)]);
  }

  /** insert(2, ...) into an empty browser: line 2 is then found although there is one line. */
  lemma InsertPastTheEndIsFoundThere()
    ensures var m := Step(Memo(0, 0, 0), Insert(2));
            m.lines == 1 && Found(m, 2) == 1
  {
  }

  // ----- the list in memory

  class BLine {
    var prev: BLine?
    var next: BLine?
    var data: int
    var length: int
    var txt: string

    constructor (txt: string, data: int)
      ensures prev == null && next == null && this.txt == txt && this.data == data
      ensures length == Short16(|txt|)
    {
      prev, next := null, null;
      this.txt, this.data, length := txt, data, Short16(|txt|);
    }
  }

  class Browser {
    var first: BLine?
    var last: BLine?
    var cache: BLine?
    var cacheline: int
    var lines: nat
    /** The lines from first to last. */
    ghost var nodes: seq<BLine>

    static function Nth(ns: seq<BLine>, i: int): BLine?
    {
      if 0 <= i < |ns| then ns[i] else null
    }

    /** The links in both directions run through all lines once. */
    ghost predicate LinksOk()
      reads `nodes, `first, `last, nodes
    {
      && Distinct(nodes) && first == Nth(nodes, 0) && last == Nth(nodes, |nodes| - 1)
      && (forall i {:trigger nodes[i].next} :: 0 <= i < |nodes| ==> nodes[i].next == Nth(nodes, i + 1))
      && (forall i {:trigger nodes[i].prev} :: 0 <= i < |nodes| ==> nodes[i].prev == Nth(nodes, i - 1))
    }

    ghost predicate Valid()
      reads `nodes, `first, `last, `lines, nodes
    {
      LinksOk() && lines == |nodes|
    }

    /** The line number of a node: 0 for null, FREED for a node that is not in the list. */
    static ghost function LineOf(ns: seq<BLine>, p: BLine?): (n: int)
      ensures -1 <= n <= |ns|
      ensures n == 0 <==> p == null
      ensures n > 0 ==> ns[n - 1] == p
      ensures n == FREED ==> p !in ns
    {
      if p == null then 0
      else if i :| 0 <= i < |ns| && ns[i] == p then i + 1
      else FREED
    }

    static lemma LineOfNth(ns: seq<BLine>, i: int)
      requires Distinct(ns)
      ensures LineOf(ns, Nth(ns, i)) == Right(|ns|, i + 1)
    {
    }

    ghost function View(): Memo
      reads `nodes, `lines, `cacheline, `cache
    {
      Memo(lines, cacheline, LineOf(nodes, cache))
    }

    constructor ()
      ensures Valid() && nodes == [] && View() == Memo(0, 0, 0)
    {
      first, last, cache := null, null, null;
      cacheline, lines := 0, 0;
      nodes := [];
    }

    /** The node looked up, whatever is remembered. A remembered node that is not in the list is
        only ever returned, never followed; that happens when the list is empty. */
    method FindLine(line: int) returns (l: BLine?)
      requires Valid() && NotFreed(View())
      modifies this`cache, this`cacheline
      ensures LineOf(nodes, l) == Found(old(View()), line)
      ensures View() == AfterFind(old(View()), line)
      ensures Dependable(old(View())) && 1 <= line <= lines ==> l == nodes[line - 1]
      ensures l == cache
    {
      hide LineOf, Half;
      ghost var m := View();
      LineOfNth(nodes, 0);
      LineOfNth(nodes, lines - 1);
      if Dependable(m) && 1 <= line <= lines {
        DependableIsUsable(m, Find(line));
      }
      if line == cacheline {
        return cache;
      }
      var n;
      if cacheline != 0 && line > Half(cacheline) && line < Half(cacheline + lines) {
        n, l := cacheline, cache;
      } else if line <= Half(lines) {
        n, l := 1, first;
      } else {
        n, l := lines, last;
      }
      assert Found(m, line) == Walk(m, LineOf(nodes, l), line - n);
      l := WalkTo(n, l, line);
      cacheline := line;
      cache := l;
    }

    /** The two loops of the lookup, from line number n at node `from`. */
    method WalkTo(from: int, start: BLine?, line: int) returns (l: BLine?)
      requires Valid() && LineOf(nodes, start) != FREED
      ensures LineOf(nodes, l) == Walk(View(), LineOf(nodes, start), line - from)
    {
      var n := from;
      l := start;
      ghost var at := LineOf(nodes, start);
      while n < line && l != null
        invariant from <= n && (n <= line || n == from)
        invariant l == if at == 0 then null else Nth(nodes, at + (n - from) - 1)
        decreases line - n
      {
        l := l.next;
        n := n + 1;
      }
      ghost var stop := n;
      while n > line && l != null
        invariant n <= stop && (n >= line || n == stop)
        invariant stop > line ==> stop == from
        invariant l == if at == 0 then null else Nth(nodes, at + (n - from) - 1)
        decreases n - line
      {
        l := l.prev;
        n := n - 1;
      }
      LineOfNth(nodes, at + (n - from) - 1);
    }

    /** The number of a line, counted outwards from the remembered one, which is only as good as
        the number remembered with it. The search has no end for a node that is not in the list. */
    method Lineno(item: BLine?) returns (n: int)
      requires Valid() && NotFreed(View())
      requires item != null ==> item in nodes
      modifies this`cache, this`cacheline
      ensures n == LinenoAnswer(old(View()), LineOf(nodes, item))
      ensures View() == LinenoMemo(old(View()), LineOf(nodes, item))
      ensures PairRight(old(View())) ==> n == LineOf(nodes, item)
    {
      var l := item;
      if l == null {
        return 0;
      }
      ghost var t := LineOf(nodes, l);
      LineOfNth(nodes, 0);
      LineOfNth(nodes, |nodes| - 1);
      if l == cache {
        return cacheline;
      }
      if l == first {
        return 1;
      }
      if l == last {
        return lines;
      }
      if cache == null {
        cache := first;
        cacheline := 1;
      }
      n := SearchBothWays(l, t, LineOf(nodes, cache));
      cache := l;
      cacheline := n;
    }

    method SearchBothWays(l: BLine, ghost t: int, ghost at: int) returns (n: int)
      requires Valid() && cache != null && 1 <= at <= |nodes| && nodes[at - 1] == cache
      requires 1 <= t <= |nodes| && nodes[t - 1] == l && t != at
      ensures n == cacheline + (t - at)
    {
      ghost var off := cacheline - at;
      var b, bnum := cache.prev, cacheline - 1;
      var f, fnum := cache.next, cacheline + 1;
      while true
        invariant 0 <= bnum - off < fnum - off <= |nodes| + 1
        invariant b == Nth(nodes, bnum - off - 1) && f == Nth(nodes, fnum - off - 1)
        invariant t <= bnum - off || fnum - off <= t
        decreases bnum - fnum + |nodes| + 1
      {
        if b == l {
          return bnum;
        }
        if f == l {
          return fnum;
        }
        if b != null {
          b := b.prev;
          bnum := bnum - 1;
        }
        if f != null {
          f := f.next;
          fnum := fnum + 1;
        }
      }
    }

    /** Takes the line found for `line` out of the list and remembers the one before it. */
    method TakeOut(line: int) returns (ttt: BLine)
      requires Valid() && NotFreed(View()) && 1 <= line <= lines && Found(View(), line) >= 1
      modifies this, nodes
      ensures Valid() && View() == AfterRemove(old(View()), line)
      ensures var k := Found(old(View()), line);
              1 <= k <= |old(nodes)| && ttt == old(nodes)[k - 1]
              && nodes == old(nodes)[..k - 1] + old(nodes)[k..]
    {
      hide LineOf, Found, Walk, Half;
      ghost var k := Found(View(), line);
      ttt := FindLine(line);
      cacheline := line - 1;
      cache := ttt.prev;
      lines := lines - 1;
      Unlink(ttt, k - 1);
      LineOfNth(nodes, k - 2);
    }

    method Unlink(ttt: BLine, ghost k: int)
      requires LinksOk() && 0 <= k < |nodes| && nodes[k] == ttt
      modifies this`first, this`last, this`nodes, nodes
      ensures LinksOk() && nodes == old(nodes)[..k] + old(nodes)[k + 1..]
    {
      DistinctWithout(nodes, k);
      hide Distinct;
      UnlinkForward(ttt, k);
      UnlinkBackward(ttt, k);
      nodes := nodes[..k] + nodes[k + 1..];
    }

    method UnlinkForward(ttt: BLine, ghost k: int)
      requires LinksOk() && 0 <= k < |nodes| && nodes[k] == ttt
      modifies this`first, nodes`next
      ensures ttt.next == old(ttt.next)
      ensures var ns := nodes[..k] + nodes[k + 1..];
              first == Nth(ns, 0)
              && forall i {:trigger ns[i].next} :: 0 <= i < |ns| ==> ns[i].next == Nth(ns, i + 1)
    {
      if ttt.prev != null {
        ttt.prev.next := ttt.next;
      } else {
        first := ttt.next;
      }
    }

    method UnlinkBackward(ttt: BLine, ghost k: int)
      requires Distinct(nodes) && 0 <= k < |nodes| && nodes[k] == ttt && last == Nth(nodes, |nodes| - 1)
      requires ttt.next == Nth(nodes, k + 1)
      requires forall i {:trigger nodes[i].prev} :: 0 <= i < |nodes| ==> nodes[i].prev == Nth(nodes, i - 1)
      modifies this`last, nodes`prev
      ensures var ns := nodes[..k] + nodes[k + 1..];
              last == Nth(ns, |ns| - 1)
              && forall i {:trigger ns[i].prev} :: 0 <= i < |ns| ==> ns[i].prev == Nth(ns, i - 1)
    {
      if ttt.next != null {
        ttt.next.prev := ttt.prev;
      } else {
        last := ttt.prev;
      }
    }

    method Remove(line: int)
      requires Valid() && NotFreed(View()) && Usable(View(), Op.Remove(line))
      modifies this, nodes
      ensures Valid() && View() == Step(old(View()), Op.Remove(line))
      ensures 1 <= line <= |old(nodes)| ==>
                var k := Found(old(View()), line);
                1 <= k <= |old(nodes)| && nodes == old(nodes)[..k - 1] + old(nodes)[k..]
      ensures !(1 <= line <= |old(nodes)|) ==> nodes == old(nodes)
    {
      if line < 1 || line > lines {
        return;
      }
      var ttt := TakeOut(line);
    }

    /** Puts a node above the line found for `line`; below 1 it becomes the first, past the end the last.
        The remembered number is the one asked for, not the one it got. */
    method Insert(line: int, item: BLine)
      requires Valid() && NotFreed(View()) && Usable(View(), Op.Insert(line)) && item !in nodes
      modifies this, nodes, item
      ensures Valid() && View() == AfterInsert(old(View()), line)
      ensures var k := Place(old(View()), line) - 1;
              0 <= k <= |old(nodes)| && nodes == old(nodes)[..k] + [item] + old(nodes)[k..]
      ensures item.txt == old(item.txt) && item.data == old(item.data)
    {
      hide Found, LinksOk;
      ghost var k := Place(View(), line) - 1;
      Link(line, item);
      cacheline := line;
      cache := item;
      lines := lines + 1;
      LineOfNth(nodes, k);
    }

    /** The four ways of linking a new node. The line count is not touched yet. */
    method Link(line: int, item: BLine)
      requires Valid() && NotFreed(View()) && Usable(View(), Op.Insert(line)) && item !in nodes
      modifies this`first, this`last, this`cache, this`cacheline, this`nodes, nodes, item`prev, item`next
      ensures var k := Place(old(View()), line) - 1;
              0 <= k <= |old(nodes)| && nodes == old(nodes)[..k] + [item] + old(nodes)[k..]
      ensures LinksOk() && Distinct(nodes)
    {
      hide LineOf, AfterFind, Found, Walk, Half, LinksOk, Distinct;
      ghost var was, k := nodes, Place(View(), line) - 1;
      EmptyIs();
      if first == null {
        LinkOnly(item);
        AtEnds(was, item);
      } else if line <= 1 {
        LinkFirst(item);
        AtEnds(was, item);
      } else if line > lines {
        LinkLast(item);
        AtEnds(was, item);
      } else {
        var n := FindLine(line);
        LinkBefore(n, item, k);
      }
      LinkedIsDistinct();
    }

    lemma LinkedIsDistinct()
      requires LinksOk()
      ensures Distinct(nodes)
    {
    }

    static lemma AtEnds(ns: seq<BLine>, x: BLine)
      ensures ns[..0] + [x] + ns[0..] == [x] + ns
      ensures ns[..|ns|] + [x] + ns[|ns|..] == ns + [x]
    {
    }

    lemma EmptyIs()
      requires LinksOk()
      ensures first == null <==> nodes == []
    {
    }

    method LinkOnly(item: BLine)
      requires nodes == []
      modifies this`first, this`last, this`nodes, item`prev, item`next
      ensures LinksOk() && nodes == [item]
    {
      item.prev, item.next := null, null;
      first, last := item, item;
      nodes := [item];
    }

    method LinkFirst(item: BLine)
      requires LinksOk() && nodes != [] && item !in nodes
      modifies this`first, this`nodes, nodes, item`prev, item`next
      ensures LinksOk() && nodes == [item] + old(nodes)
    {
      item.prev := null;
      item.next := first;
      item.next.prev := item;
      first := item;
      nodes := [item] + nodes;
    }

    method LinkLast(item: BLine)
      requires LinksOk() && nodes != [] && item !in nodes
      modifies this`last, this`nodes, nodes, item`prev, item`next
      ensures LinksOk() && nodes == old(nodes) + [item]
    {
      item.prev := last;
      item.prev.next := item;
      item.next := null;
      last := item;
      nodes := nodes + [item];
    }

    method LinkBefore(n: BLine, item: BLine, ghost k: int)
      requires LinksOk() && 0 < k < |nodes| && nodes[k] == n && item !in nodes
      modifies this`nodes, nodes, item`prev, item`next
      ensures LinksOk() && nodes == old(nodes)[..k] + [item] + old(nodes)[k..]
    {
      ghost var ns := nodes[..k] + [item] + nodes[k..];
      DistinctWith(nodes, k, item);
      hide Distinct;
      LinkForward(n, n.prev, item, k);
      LinkBackward(n, item, k);
      nodes := ns;
    }

    method LinkForward(n: BLine, p: BLine, item: BLine, ghost k: int)
      requires LinksOk() && 0 < k < |nodes| && nodes[k] == n && n.prev == p && item !in nodes
      modifies nodes`next, item`next
      ensures var ns := nodes[..k] + [item] + nodes[k..];
              forall i {:trigger ns[i].next} :: 0 <= i < |ns| ==> ns[i].next == Nth(ns, i + 1)
    {
      item.next := n;
      p.next := item;
    }

    method LinkBackward(n: BLine, item: BLine, ghost k: int)
      requires Distinct(nodes) && 0 < k < |nodes| && nodes[k] == n && item !in nodes
      requires forall i {:trigger nodes[i].prev} :: 0 <= i < |nodes| ==> nodes[i].prev == Nth(nodes, i - 1)
      modifies nodes`prev, item`prev
      ensures var ns := nodes[..k] + [item] + nodes[k..];
              forall i {:trigger ns[i].prev} :: 0 <= i < |ns| ==> ns[i].prev == Nth(ns, i - 1)
    {
      item.prev := n.prev;
      n.prev := item;
    }

    /** The new line is `t`. */
    method InsertText(line: int, newtext: string, d: int) returns (ghost t: BLine)
      requires Valid() && NotFreed(View()) && Usable(View(), Op.Insert(line))
      modifies this, nodes
      ensures Valid() && View() == Step(old(View()), Op.Insert(line))
      ensures fresh(t) && t.txt == newtext && t.data == d
      ensures var k := Place(old(View()), line) - 1;
              0 <= k <= |old(nodes)| && nodes == old(nodes)[..k] + [t] + old(nodes)[k..]
    {
      var item := new BLine(newtext, d);
      Insert(line, item);
      t := item;
    }

    method Add(newtext: string, d: int) returns (ghost t: BLine)
      requires Valid() && NotFreed(View())
      modifies this, nodes
      ensures Valid() && View() == Memo(|nodes|, |nodes|, |nodes|)
      ensures fresh(t) && t.txt == newtext && t.data == d && nodes == old(nodes) + [t]
    {
      hide Found, LinksOk, LineOf;
      assert Place(View(), lines + 1) == lines + 1;
      t := InsertText(lines + 1, newtext, d);
    }

    /** `to` counts in the list without the moved line. */
    method Move(to: int, from: int)
      requires Valid() && NotFreed(View()) && Usable(View(), Op.Move(to, from))
      modifies this, nodes
      ensures Valid() && View() == Step(old(View()), Op.Move(to, from))
      ensures 1 <= from <= |old(nodes)| ==>
                var i := Found(old(View()), from);
                1 <= i <= |old(nodes)|
                && var rest := old(nodes)[..i - 1] + old(nodes)[i..];
                   var k := Place(AfterRemove(old(View()), from), to) - 1;
                   0 <= k <= |rest| && nodes == rest[..k] + [old(nodes)[i - 1]] + rest[k..]
      ensures !(1 <= from <= |old(nodes)|) ==> nodes == old(nodes)
    {
      if from < 1 || from > lines {
        return;
      }
      var item := TakeOut(from);
      Insert(to, item);
    }

    /** Exchanges the places of two nodes. */
    method SwapNodes(a: BLine?, b: BLine?, ghost i: int, ghost j: int)
      requires Valid()
      requires a == Nth(nodes, i) && b == Nth(nodes, j)
      modifies this, nodes
      ensures Valid()
      ensures a == b || a == null || b == null ==> nodes == old(nodes) && View() == old(View())
      ensures a != b && a != null && b != null ==>
                nodes == old(nodes)[i := b][j := a] && View() == Memo(lines, 0, 0)
    {
      if a == b || a == null || b == null {
        return;
      }
      if b.prev == a {
        SwapNeighbours(a, b, i);
      } else if a.prev == b {
        SwapNeighbours(b, a, j);
      } else {
        SwapApart(a, b, i, j);
      }
      cacheline := 0;
      cache := null;
    }

    /** `b` stands right after `a`. */
    method SwapNeighbours(a: BLine, b: BLine, ghost i: int)
      requires LinksOk() && 0 <= i && i + 1 < |nodes| && nodes[i] == a && nodes[i + 1] == b
      modifies this`first, this`last, this`nodes, nodes
      ensures LinksOk() && nodes == old(nodes)[i := b][i + 1 := a]
    {
      var aprev, bnext := a.prev, b.next;
      DistinctSwapped(nodes, i, i + 1);
      hide Distinct;
      NeighboursForward(a, b, aprev, bnext, i);
      NeighboursBackward(a, b, aprev, bnext, i);
      nodes := nodes[i := b][i + 1 := a];
    }

    method NeighboursForward(a: BLine, b: BLine, aprev: BLine?, bnext: BLine?, ghost i: int)
      requires LinksOk() && 0 <= i && i + 1 < |nodes| && nodes[i] == a && nodes[i + 1] == b
      requires aprev == a.prev && bnext == b.next
      modifies this`first, nodes`next
      ensures var ns := nodes[i := b][i + 1 := a];
              first == Nth(ns, 0)
              && forall k {:trigger ns[k].next} :: 0 <= k < |ns| ==> ns[k].next == Nth(ns, k + 1)
    {
      if aprev != null {
        aprev.next := b;
      } else {
        first := b;
      }
      b.next := a;
      a.next := bnext;
    }

    method NeighboursBackward(a: BLine, b: BLine, aprev: BLine?, bnext: BLine?, ghost i: int)
      requires Distinct(nodes) && 0 <= i && i + 1 < |nodes| && nodes[i] == a && nodes[i + 1] == b
      requires last == Nth(nodes, |nodes| - 1) && aprev == Nth(nodes, i - 1) && bnext == Nth(nodes, i + 2)
      requires forall k {:trigger nodes[k].prev} :: 0 <= k < |nodes| ==> nodes[k].prev == Nth(nodes, k - 1)
      modifies this`last, nodes`prev
      ensures var ns := nodes[i := b][i + 1 := a];
              last == Nth(ns, |ns| - 1)
              && forall k {:trigger ns[k].prev} :: 0 <= k < |ns| ==> ns[k].prev == Nth(ns, k - 1)
    {
      b.prev := aprev;
      a.prev := b;
      if bnext != null {
        bnext.prev := a;
      } else {
        last := a;
      }
    }

    method SwapApart(a: BLine, b: BLine, ghost i: int, ghost j: int)
      requires LinksOk() && 0 <= i < |nodes| && 0 <= j < |nodes| && nodes[i] == a && nodes[j] == b
      requires i != j && i + 1 != j && j + 1 != i
      modifies this`first, this`last, this`nodes, nodes
      ensures LinksOk() && nodes == old(nodes)[i := b][j := a]
    {
      var aprev, anext, bprev, bnext := a.prev, a.next, b.prev, b.next;
      DistinctSwapped(nodes, i, j);
      hide Distinct;
      SwapPrevs(a, b, aprev, anext, bprev, bnext, i, j);
      SwapNexts(a, b, aprev, anext, bprev, bnext, i, j);
      nodes := nodes[i := b][j := a];
    }

    /** The second half: every forward link as it has to be after the exchange. */
    method SwapNexts(a: BLine, b: BLine, aprev: BLine?, anext: BLine?, bprev: BLine?, bnext: BLine?,
                     ghost i: int, ghost j: int)
      requires Distinct(nodes) && 0 <= i < |nodes| && 0 <= j < |nodes| && nodes[i] == a && nodes[j] == b
      requires i != j && i + 1 != j && j + 1 != i
      requires first == Nth(nodes, 0)
      requires forall k {:trigger nodes[k].next} :: 0 <= k < |nodes| ==> nodes[k].next == Nth(nodes, k + 1)
      requires aprev == Nth(nodes, i - 1) && anext == Nth(nodes, i + 1)
      requires bprev == Nth(nodes, j - 1) && bnext == Nth(nodes, j + 1)
      modifies this`first, nodes`next
      ensures var ns := nodes[i := b][j := a];
              first == Nth(ns, 0)
              && forall k {:trigger ns[k].next} :: 0 <= k < |ns| ==> ns[k].next == Nth(ns, k + 1)
    {
      if aprev != null {
        aprev.next := b;
      } else {
        first := b;
      }
      b.next := anext;
      if bprev != null {
        bprev.next := a;
      } else {
        first := a;
      }
      a.next := bnext;
    }

    /** The first half: every backward link. */
    method SwapPrevs(a: BLine, b: BLine, aprev: BLine?, anext: BLine?, bprev: BLine?, bnext: BLine?,
                     ghost i: int, ghost j: int)
      requires LinksOk() && 0 <= i < |nodes| && 0 <= j < |nodes| && nodes[i] == a && nodes[j] == b
      requires i != j && i + 1 != j && j + 1 != i
      requires aprev == a.prev && anext == a.next && bprev == b.prev && bnext == b.next
      modifies this`last, nodes`prev
      ensures var ns := nodes[i := b][j := a];
              last == Nth(ns, |ns| - 1)
              && forall k {:trigger ns[k].prev} :: 0 <= k < |ns| ==> ns[k].prev == Nth(ns, k - 1)
    {
      b.prev := aprev;
      if anext != null {
        anext.prev := b;
      } else {
        last := b;
      }
      a.prev := bprev;
      if bnext != null {
        bnext.prev := a;
      } else {
        last := a;
      }
    }

    method Swap(a: int, b: int)
      requires Valid() && NotFreed(View())
      modifies this, nodes
      ensures Valid() && View() == Step(old(View()), Op.Swap(a, b))
      ensures var i := Found(old(View()), a);
              var j := Found(AfterFind(old(View()), a), b);
              if 1 <= a <= |old(nodes)| && 1 <= b <= |old(nodes)| && i != 0 && j != 0
              then && 1 <= i <= |old(nodes)| && 1 <= j <= |old(nodes)|
                   && nodes == old(nodes)[i - 1 := old(nodes)[j - 1]][j - 1 := old(nodes)[i - 1]]
              else nodes == old(nodes)
    {
      hide LineOf, Found, Half, Walk, NearMemo, LinksOk;
      if a < 1 || a > lines || b < 1 || b > lines {
        return;
      }
      FoundInList(View(), a);
      FoundInList(AfterFind(View(), a), b);
      ghost var i := Found(View(), a);
      var ai := FindLine(a);
      ghost var j := Found(View(), b);
      var bi := FindLine(b);
      SwapNodes(ai, bi, i - 1, j - 1);
    }

    /** A longer text needs a new node in the place of the old one. */
    method SetText(line: int, newtext: string)
      requires Valid() && NotFreed(View()) && Usable(View(), Op.SetText(line))
      modifies this, nodes
      ensures Valid() && View() == Step(old(View()), Op.SetText(line))
      ensures |nodes| == |old(nodes)|
      ensures var i := if 1 <= line <= |nodes| then Found(old(View()), line) else 0;
              && 0 <= i <= |nodes|
              && (forall k :: 0 <= k < |nodes| && k != i - 1 ==>
                    nodes[k] == old(nodes)[k] && nodes[k].txt == old(nodes[k].txt))
              && (i > 0 ==> nodes[i - 1].txt == newtext && nodes[i - 1].data == old(nodes[i - 1].data))
    {
      hide Half, Walk, Found, NearMemo, LinksOk, LineOf;
      if line < 1 || line > lines {
        return;
      }
      FoundInList(View(), line);
      ghost var i := Found(View(), line);
      var t := FindLine(line);
      PutText(t, newtext, i - 1);
    }

    method PutText(t: BLine, newtext: string, ghost k: int)
      requires LinksOk() && 0 <= k < |nodes| && nodes[k] == t && cache == t
      modifies this`first, this`last, this`cache, this`nodes, nodes
      ensures LinksOk() && |nodes| == |old(nodes)| && LineOf(nodes, cache) == k + 1
      ensures nodes[k].txt == newtext && nodes[k].data == old(nodes[k].data)
      ensures forall i :: 0 <= i < |nodes| && i != k ==>
                nodes[i] == old(nodes)[i] && nodes[i].txt == old(nodes[i].txt)
    {
      LineOfNth(nodes, k);
      if |newtext| <= t.length {
        t.txt := newtext;
      } else {
        var n := new BLine(newtext, t.data);
        cache := n;
        PutInPlace(t, n, k);
        LineOfNth(nodes, k);
      }
    }

    method PutInPlace(t: BLine, n: BLine, ghost k: int)
      requires LinksOk() && 0 <= k < |nodes| && nodes[k] == t && n !in nodes
      modifies this`first, this`last, this`nodes, nodes`prev, nodes`next, n`prev, n`next
      ensures LinksOk() && nodes == old(nodes)[k := n]
    {
      ReplaceForward(t, n, k);
      ReplaceBackward(t, n, k);
      nodes := nodes[k := n];
    }

    method ReplaceForward(t: BLine, n: BLine, ghost k: int)
      requires LinksOk() && 0 <= k < |nodes| && nodes[k] == t && n !in nodes
      modifies this`first, nodes`next, n`next
      ensures t.next == old(t.next)
      ensures var ns := nodes[k := n];
              first == Nth(ns, 0)
              && forall i {:trigger ns[i].next} :: 0 <= i < |ns| ==> ns[i].next == Nth(ns, i + 1)
    {
      if t.prev != null {
        t.prev.next := n;
      } else {
        first := n;
      }
      n.next := t.next;
    }

    method ReplaceBackward(t: BLine, n: BLine, ghost k: int)
      requires Distinct(nodes) && 0 <= k < |nodes| && nodes[k] == t && n !in nodes
      requires last == Nth(nodes, |nodes| - 1) && t.next == Nth(nodes, k + 1)
      requires forall i {:trigger nodes[i].prev} :: 0 <= i < |nodes| ==> nodes[i].prev == Nth(nodes, i - 1)
      modifies this`last, nodes`prev, n`prev
      ensures var ns := nodes[k := n];
              last == Nth(ns, |ns| - 1)
              && forall i {:trigger ns[i].prev} :: 0 <= i < |ns| ==> ns[i].prev == Nth(ns, i - 1)
    {
      n.prev := t.prev;
      if t.next != null {
        t.next.prev := n;
      } else {
        last := n;
      }
    }

    /** Everything is freed; what was remembered stays remembered. */
    method Clear()
      requires Valid()
      modifies this`first, this`last, this`lines, this`nodes
      ensures Valid() && nodes == []
      ensures View() == Step(old(View()), Op.Clear)
    {
      first, last := null, null;
      lines := 0;
      nodes := [];
    }

    /** make_visible: the line to show, brought into the list. */
    method LineToShow(line: int) returns (l: BLine?)
      requires Valid() && NotFreed(View())
      modifies this`cache, this`cacheline
      ensures var shown := if line < 1 then 1 else if line > |nodes| then |nodes| else line;
              && LineOf(nodes, l) == Found(old(View()), shown)
              && View() == AfterFind(old(View()), shown)
              && (Dependable(old(View())) && nodes != [] ==> l == nodes[shown - 1] && Dependable(View()))
    {
      if Dependable(View()) {
        FindDependable(View(), if line < 1 then 1 else if line > lines then lines else line);
      }
      if line < 1 {
        l := FindLine(1);
      } else if line > lines {
        l := FindLine(lines);
      } else {
        l := FindLine(line);
      }
    }
  }
}
