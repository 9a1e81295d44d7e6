/** Tree items: walking the tree in both directions, and marking a whole subtree. */
module TreeItems {
  import opened TreeFlags
  import opened Trees

  // ----- the items in memory

  class TreeItem {
    var flags: Flags
    var children: seq<TreeItem>
    var parent: TreeItem?
    var prevSibling: TreeItem?
    var nextSibling: TreeItem?

    constructor ()
      ensures children == [] && parent == prevSibling == nextSibling == null
    {
      flags, children := Flags(true, true, true, false), [];
      parent, prevSibling, nextSibling := null, null, null;
    }
  }

  function Nth(ns: seq<TreeItem>, i: int): TreeItem?
  {
    if 0 <= i < |ns| then ns[i] else null
  }

  ghost predicate ChildrenOk(o: seq<TreeItem>, s: seq<Node>, k: int)
    requires 0 <= k < |o| == |s|
    reads o`children
  {
    |o[k].children| == |s[k].kids|
    && forall t :: 0 <= t < |s[k].kids| ==> o[k].children[t] == Nth(o, s[k].kids[t])
  }

  ghost predicate ParentOk(o: seq<TreeItem>, s: seq<Node>, k: int)
    requires 0 <= k < |o| == |s|
    reads o`parent
  {
    o[k].parent == Nth(o, s[k].par)
  }

  ghost predicate SiblingsOk(o: seq<TreeItem>, s: seq<Node>, k: int)
    requires 0 <= k < |o| == |s|
    reads o`prevSibling, o`nextSibling
  {
    o[k].prevSibling == Nth(o, s[k].prev) && o[k].nextSibling == Nth(o, s[k].next)
  }

  ghost predicate Apart(o: seq<TreeItem>, i: int, j: int)
    requires 0 <= i < j < |o|
  {
    o[i] != o[j]
  }

  /** The items `o`, in drawing order, have the children the shape says, and no item stands in two
      places. */
  ghost predicate Shaped(o: seq<TreeItem>, s: seq<Node>)
    reads o`children
  {
    && |o| == |s| && ShapeOk(s)
    && (forall i, j {:trigger Apart(o, i, j)} :: 0 <= i < j < |o| ==> Apart(o, i, j))
    && (forall k {:trigger ChildrenOk(o, s, k)} :: 0 <= k < |o| ==> ChildrenOk(o, s, k))
  }

  /** ... and the parents. This is all the version without sibling links keeps up. */
  ghost predicate Parented(o: seq<TreeItem>, s: seq<Node>)
    reads o`children, o`parent
  {
    Shaped(o, s) && (forall k {:trigger ParentOk(o, s, k)} :: 0 <= k < |o| ==> ParentOk(o, s, k))
  }

  /** ... and the siblings. */
  ghost predicate Linked(o: seq<TreeItem>, s: seq<Node>)
    reads o`children, o`parent, o`prevSibling, o`nextSibling
  {
    Parented(o, s) && (forall k {:trigger SiblingsOk(o, s, k)} :: 0 <= k < |o| ==> SiblingsOk(o, s, k))
  }

  lemma DifferentPlaces(o: seq<TreeItem>, s: seq<Node>, i: int, j: int)
    requires Shaped(o, s) && 0 <= i < |o| && 0 <= j < |o| && i != j
    ensures o[i] != o[j]
  {
    if i < j {
      assert Apart(o, i, j);
    } else {
      assert Apart(o, j, i);
    }
  }

  // ----- walking

  /** The next item in drawing order, found by climbing until there is a next sibling. */
  method Next(item: TreeItem, ghost o: seq<TreeItem>, ghost s: seq<Node>, ghost k: int) returns (r: TreeItem?)
    requires Linked(o, s) && 0 <= k < |o| && o[k] == item
    ensures r == Nth(o, k + 1)
  {
    assert ChildrenOk(o, s, k) && ParentOk(o, s, k) && SiblingsOk(o, s, k) && NodeOk(s, k);
    if item.children != [] {
      return item.children[0];
    }
    var c := item;
    ghost var i := k;
    while true
      invariant 0 <= i < |o| && o[i] == c && i + s[i].size == k + 1
      decreases i
    {
      assert ChildrenOk(o, s, i) && ParentOk(o, s, i) && SiblingsOk(o, s, i) && NodeOk(s, i);
      var p := c.parent;
      if p == null {
        return null;
      }
      if c.nextSibling != null {
        return c.nextSibling;
      }
      c := p;
      i := s[i].par;
    }
  }

  /** The same without sibling links: the place among the children is searched for. */
  method NextByIndex(item: TreeItem, ghost o: seq<TreeItem>, ghost s: seq<Node>, ghost k: int) returns (r: TreeItem?)
    requires Parented(o, s) && 0 <= k < |o| && o[k] == item
    ensures r == Nth(o, k + 1)
  {
    assert ChildrenOk(o, s, k) && ParentOk(o, s, k) && NodeOk(s, k);
    if item.children != [] {
      return item.children[0];
    }
    var c := item;
    ghost var i := k;
    while true
      invariant 0 <= i < |o| && o[i] == c && i + s[i].size == k + 1
      decreases i
    {
      assert ChildrenOk(o, s, i) && ParentOk(o, s, i) && NodeOk(s, i);
      var p := c.parent;
      if p == null {
        return null;
      }
      ChildSlot(o, s, i);
      var t := FindChild(p, c);
      t := t + 1;
      assert ChildrenOk(o, s, s[i].par) && ParentOk(o, s, s[i].par);
      if t < |p.children| {
        return p.children[t];
      }
      c := p;
      i := s[i].par;
    }
  }

  /** The number of an item among another's children, -1 if it is not one of them. */
  method FindChild(p: TreeItem, item: TreeItem) returns (t: int)
    ensures -1 <= t < |p.children|
    ensures if t >= 0 then p.children[t] == item else item !in p.children
  {
    t := 0;
    while t < |p.children|
      invariant 0 <= t <= |p.children| && item !in p.children[..t]
    {
      if p.children[t] == item {
        return t;
      }
      t := t + 1;
    }
    return -1;
  }

  /** An item is a child of its parent at the place the shape says, and at no other. */
  lemma ChildSlot(o: seq<TreeItem>, s: seq<Node>, k: int)
    requires Parented(o, s) && 0 < k < |o|
    ensures 0 <= s[k].par < |o|
    ensures var p := o[s[k].par];
            o[k].parent == p && |p.children| == |s[s[k].par].kids|
            && forall t :: 0 <= t < |p.children| && p.children[t] == o[k] ==> t == s[k].slot
    ensures 0 <= s[k].slot < |o[s[k].par].children| && o[s[k].par].children[s[k].slot] == o[k]
  {
    assert NodeOk(s, k) && ParentOk(o, s, k);
    var par := s[k].par;
    assert NodeOk(s, par) && ChildrenOk(o, s, par);
    forall t | 0 <= t < |s[par].kids| && o[par].children[t] == o[k]
      ensures t == s[k].slot
    {
      if s[par].kids[t] != k {
        DifferentPlaces(o, s, s[par].kids[t], k);
      }
    }
  }

  /** The item before in drawing order: the parent of a first child, or the last item below the
      previous sibling. */
  method Prev(item: TreeItem, ghost o: seq<TreeItem>, ghost s: seq<Node>, ghost k: int) returns (r: TreeItem?)
    requires Linked(o, s) && 0 <= k < |o| && o[k] == item
    ensures r == Nth(o, k - 1)
  {
    assert ChildrenOk(o, s, k) && ParentOk(o, s, k) && SiblingsOk(o, s, k) && NodeOk(s, k);
    if item.parent == null {
      return null;
    }
    if item.prevSibling == null {
      return item.parent;
    }
    r := LastBelow(item.prevSibling, o, s, s[k].prev);
  }

  method PrevByIndex(item: TreeItem, ghost o: seq<TreeItem>, ghost s: seq<Node>, ghost k: int) returns (r: TreeItem?)
    requires Parented(o, s) && 0 <= k < |o| && o[k] == item
    ensures r == Nth(o, k - 1)
  {
    assert ChildrenOk(o, s, k) && ParentOk(o, s, k) && NodeOk(s, k);
    var p := item.parent;
    if p == null {
      return null;
    }
    ChildSlot(o, s, k);
    var t := FindChild(p, item);
    t := t - 1;
    if t == -1 {
      return p;
    }
    assert ChildrenOk(o, s, s[k].par) && ParentOk(o, s, s[k].par);
    r := LastBelow(p.children[t], o, s, s[k].prev);
  }

  /** Descends through last children. */
  method LastBelow(item: TreeItem, ghost o: seq<TreeItem>, ghost s: seq<Node>, ghost k: int) returns (p: TreeItem)
    requires Shaped(o, s) && 0 <= k < |o| && o[k] == item
    ensures p == Nth(o, k + s[k].size - 1)
  {
    p := item;
    ghost var i := k;
    assert ChildrenOk(o, s, i) && NodeOk(s, i);
    while p.children != []
      invariant 0 <= i < |o| && o[i] == p && i + s[i].size == k + s[k].size
      invariant ChildrenOk(o, s, i) && NodeOk(s, i)
      decreases s[i].size
    {
      i := s[i].kids[|s[i].kids| - 1];
      p := p.children[|p.children| - 1];
      assert ChildrenOk(o, s, i) && NodeOk(s, i);
    }
  }

  /** Going forward and going back are inverse, in either version of the code. */
  method StepsAreInverse(item: TreeItem, ghost o: seq<TreeItem>, ghost s: seq<Node>, ghost k: int)
    returns (a: TreeItem?, b: TreeItem?)
    requires Linked(o, s) && 0 <= k < |o| && o[k] == item
    ensures k + 1 < |o| ==> a == item
    ensures k > 0 ==> b == item
  {
    a, b := null, null;
    var n := Next(item, o, s, k);
    if n != null {
      a := Prev(n, o, s, k + 1);
    }
    var p := PrevByIndex(item, o, s, k);
    if p != null {
      b := NextByIndex(p, o, s, k - 1);
    }
  }

  // ----- marking a subtree

  /** The flags of all items, in drawing order. */
  ghost predicate FlagsAre(o: seq<TreeItem>, fs: seq<Flags>)
    reads o`flags
  {
    |fs| == |o| && forall k :: 0 <= k < |o| ==> o[k].flags == fs[k]
  }

  /** How many of the items at places a to b - 1 are selected, or are not. */
  function Count(fs: seq<Flags>, a: int, b: int, selected: bool): nat
    requires 0 <= a <= b <= |fs|
    decreases b - a
  {
    if a == b then 0 else Count(fs, a, b - 1, selected) + (if fs[b - 1].selected == selected then 1 else 0)
  }

  /** `fs` with the selection of the items in [a, b) set to `on`, everything else as it was. */
  function Painted(fs: seq<Flags>, a: int, b: int, on: bool): (r: seq<Flags>)
    ensures |r| == |fs|
    ensures forall k :: 0 <= k < |fs| ==> r[k] == if a <= k < b then fs[k].(selected := on) else fs[k]
  {
    seq(|fs|, k requires 0 <= k < |fs| => if a <= k < b then fs[k].(selected := on) else fs[k])
  }

  lemma {:induction false} CountSplit(fs: seq<Flags>, a: int, b: int, c: int, selected: bool)
    requires 0 <= a <= b <= c <= |fs|
    ensures Count(fs, a, c, selected) == Count(fs, a, b, selected) + Count(fs, b, c, selected)
    decreases c - b
  {
    if b < c {
      CountSplit(fs, a, b, c - 1, selected);
    }
  }

  lemma {:induction false} CountSame(fs: seq<Flags>, gs: seq<Flags>, a: int, b: int, selected: bool)
    requires 0 <= a <= b <= |fs| == |gs| && fs[a..b] == gs[a..b]
    ensures Count(fs, a, b, selected) == Count(gs, a, b, selected)
    decreases b - a
  {
    if a < b {
      assert fs[b - 1] == fs[a..b][b - 1 - a] && gs[b - 1] == gs[a..b][b - 1 - a];
      assert fs[a..b - 1] == fs[a..b][..b - 1 - a] && gs[a..b - 1] == gs[a..b][..b - 1 - a];
      CountSame(fs, gs, a, b - 1, selected);
    }
  }

  /** A marked stretch grows by the next one, and the counts with it. */
  lemma PaintOn(fs: seq<Flags>, a: int, b: int, c: int, on: bool)
    requires 0 <= a <= b <= c <= |fs|
    ensures Painted(Painted(fs, a, b, on), b, c, on) == Painted(fs, a, c, on)
    ensures Count(fs, a, c, !on) == Count(fs, a, b, !on) + Count(Painted(fs, a, b, on), b, c, !on)
  {
    CountSplit(fs, a, b, c, !on);
    CountSame(fs, Painted(fs, a, b, on), b, c, !on);
    assert Painted(Painted(fs, a, b, on), b, c, on) == Painted(fs, a, c, on);
  }

  /** The place after the last item below place k. */
  ghost function Below(s: seq<Node>, k: int): (e: int)
    requires ShapeOk(s) && 0 <= k < |s|
    ensures k < e <= |s|
  {
    assert NodeOk(s, k);
    k + s[k].size
  }

  ghost function ChildAt(s: seq<Node>, k: int, t: int): (e: int)
    requires ShapeOk(s) && 0 <= k < |s| && 0 <= t <= |s[k].kids|
    ensures k < e <= Below(s, k)
  {
    assert NodeOk(s, k);
    if t < |s[k].kids| then
      assert NodeOk(s, s[k].kids[t]);
      s[k].kids[t]
    else Below(s, k)
  }

  /** The next child, or the end of the parent, is where the subtree of a child ends. */
  lemma ChildPlace(s: seq<Node>, k: int, t: int)
    requires ShapeOk(s) && 0 <= k < |s| && 0 <= t < |s[k].kids|
    ensures var e := ChildAt(s, k, t);
            k < e < |s| && Below(s, e) == ChildAt(s, k, t + 1)
  {
    assert NodeOk(s, k);
    assert NodeOk(s, s[k].kids[t]);
  }

  lemma CountOne(fs: seq<Flags>, k: int, selected: bool)
    requires 0 <= k < |fs|
    ensures Count(fs, k, k + 1, selected) == if fs[k].selected == selected then 1 else 0
    ensures fs[k].selected != selected ==> Painted(fs, k, k + 1, !selected) == fs
  {
    assert Count(fs, k, k, selected) == 0;
  }

  /** Sets one item's selection. */
  method Select(item: TreeItem, on: bool, ghost o: seq<TreeItem>, ghost s: seq<Node>, ghost k: int,
                ghost fs: seq<Flags>)
    requires Shaped(o, s) && 0 <= k < |o| && o[k] == item && FlagsAre(o, fs)
    modifies item`flags
    ensures FlagsAre(o, Painted(fs, k, k + 1, on))
  {
    forall j | 0 <= j < |o| && j != k ensures o[j] != item {
      DifferentPlaces(o, s, j, k);
    }
    item.flags := SetFlag(item.flags, SELECTED, on);
  }

  lemma FirstChildPlace(item: TreeItem, o: seq<TreeItem>, s: seq<Node>, k: int)
    requires Shaped(o, s) && 0 <= k < |o| && o[k] == item
    ensures ChildAt(s, k, 0) == k + 1 && |item.children| == |s[k].kids|
  {
    assert NodeOk(s, k) && ChildrenOk(o, s, k);
  }

  lemma ChildItem(item: TreeItem, o: seq<TreeItem>, s: seq<Node>, k: int, t: int)
    requires Shaped(o, s) && 0 <= k < |o| && o[k] == item && 0 <= t < |s[k].kids|
    ensures var e := ChildAt(s, k, t);
            && k < e < |s| && Below(s, e) == ChildAt(s, k, t + 1)
            && |item.children| == |s[k].kids| && item.children[t] == o[e]
  {
    ChildPlace(s, k, t);
    assert ChildrenOk(o, s, k);
  }

  /** Selects an item and everything below; answers how many were not selected. */
  method SelectAll(item: TreeItem, ghost o: seq<TreeItem>, ghost s: seq<Node>, ghost k: int, ghost fs: seq<Flags>)
    returns (count: int)
    requires Shaped(o, s) && 0 <= k < |o| && o[k] == item && FlagsAre(o, fs)
    modifies o`flags
    ensures FlagsAre(o, Painted(fs, k, Below(s, k), true))
    ensures count == Count(fs, k, Below(s, k), false)
    decreases Below(s, k) - k
  {
    hide NodeOk, ChildrenOk, Count;
    FirstChildPlace(item, o, s, k);
    ghost var end := Below(s, k);
    count := 0;
    if !item.flags.selected {
      Select(item, true, o, s, k, fs);
      count := count + 1;
    }
    ghost var e := k + 1;
    ghost var now := Painted(fs, k, e, true);
    CountOne(fs, k, false);
    var t := 0;
    while t < |item.children|
      invariant 0 <= t <= |item.children|
      invariant |item.children| == |s[k].kids|
      invariant e == ChildAt(s, k, t) && k < e <= end
      invariant now == Painted(fs, k, e, true) && FlagsAre(o, now)
      invariant count == Count(fs, k, e, false)
    {
      ChildItem(item, o, s, k, t);
      ghost var e' := Below(s, e);
      var n := SelectAll(item.children[t], o, s, e, now);
      PaintOn(fs, k, e, e', true);
      count := count + n;
      now := Painted(now, e, e', true);
      e := e';
      t := t + 1;
    }
    assert e == end;
  }

  /** Deselects an item and everything below; answers how many were selected. */
  method DeselectAll(item: TreeItem, ghost o: seq<TreeItem>, ghost s: seq<Node>, ghost k: int, ghost fs: seq<Flags>)
    returns (count: int)
    requires Shaped(o, s) && 0 <= k < |o| && o[k] == item && FlagsAre(o, fs)
    modifies o`flags
    ensures FlagsAre(o, Painted(fs, k, Below(s, k), false))
    ensures count == Count(fs, k, Below(s, k), true)
    decreases Below(s, k) - k
  {
    hide NodeOk, ChildrenOk, Count;
    FirstChildPlace(item, o, s, k);
    ghost var end := Below(s, k);
    count := 0;
    if item.flags.selected {
      Select(item, false, o, s, k, fs);
      count := count + 1;
    }
    ghost var e := k + 1;
    ghost var now := Painted(fs, k, e, false);
    CountOne(fs, k, true);
    var t := 0;
    while t < |item.children|
      invariant 0 <= t <= |item.children|
      invariant |item.children| == |s[k].kids|
      invariant e == ChildAt(s, k, t) && k < e <= end
      invariant now == Painted(fs, k, e, false) && FlagsAre(o, now)
      invariant count == Count(fs, k, e, true)
    {
      ChildItem(item, o, s, k, t);
      ghost var e' := Below(s, e);
      var n := DeselectAll(item.children[t], o, s, e, now);
      PaintOn(fs, k, e, e', false);
      count := count + n;
      now := Painted(now, e, e', false);
      e := e';
      t := t + 1;
    }
    assert e == end;
  }

  /** On the same tree the two counts add up to the number of items. */
  lemma {:induction false} CountsAddUp(fs: seq<Flags>, a: int, b: int)
    requires 0 <= a <= b <= |fs|
    ensures Count(fs, a, b, true) + Count(fs, a, b, false) == b - a
    decreases b - a
  {
    if a < b {
      CountsAddUp(fs, a, b - 1);
    }
  }

  lemma {:induction false} CountZeroIff(fs: seq<Flags>, a: int, b: int, selected: bool)
    requires 0 <= a <= b <= |fs|
    ensures Count(fs, a, b, selected) == 0 <==> forall k :: a <= k < b ==> fs[k].selected != selected
    decreases b - a
  {
    if a < b {
      CountZeroIff(fs, a, b - 1, selected);
    }
  }

  /** A second call finds nothing to do, and marking one way after the other leaves what the last
      call alone would have left. */
  lemma MarkingIsFinal(fs: seq<Flags>, a: int, b: int, on: bool, before: bool)
    requires 0 <= a <= b <= |fs|
    ensures Count(Painted(fs, a, b, on), a, b, !on) == 0
    ensures Count(Painted(fs, a, b, on), a, b, on) == b - a
    ensures Painted(Painted(fs, a, b, before), a, b, on) == Painted(fs, a, b, on)
  {
    var p := Painted(fs, a, b, on);
    CountZeroIff(p, a, b, !on);
    CountsAddUp(p, a, b);
    assert Painted(Painted(fs, a, b, before), a, b, on) == p;
  }
}
