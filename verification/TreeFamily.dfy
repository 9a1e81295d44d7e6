/** The children of a tree item: an array in order, and sibling links that have to agree with it
    after every insertion, removal and move. */
module TreeFamilies {
  import opened Sequences
  import opened TreeItems
  import opened Trees

  // ----- the order of children

  datatype Where = Above | Below | Into(pos: int) | BadOp

  /** The place handed on when both items have the same parent. */
  function Adjusted(op: Where, n: nat, from: int, to: int): int
  {
    if op.Above? && from < to && to > 0 then to - 1
    else if op.Below? && from > to && to < n then to + 1
    else to
  }

  /** Among siblings, above is above and below is below. */
  lemma SiblingMovesLand<T>(s: seq<T>, op: Where, from: int, to: int)
    requires 0 <= from < |s| && 0 <= to < |s| && from != to
    ensures var p := Adjusted(op, |s|, from, to);
            && 0 <= p < |s|
            && var r := Moved(s, p, from);
            && |r| == |s| && r[p] == s[from]
            && (op.Above? ==> p + 1 < |r| && r[p + 1] == s[to])
            && (op.Below? ==> p > 0 && r[p - 1] == s[to])
  {
  }

  /** From another parent the item lands above, whichever of the two was asked for. */
  lemma ForeignMovesLandAbove<T>(s: seq<T>, to: int, x: T, k: int)
    requires 0 <= to < |s| && x !in s && forall i, j :: 0 <= i < j < |s| ==> s[i] != s[j]
    requires 0 <= k <= |s|
    ensures With(s, to, x)[k] == x <==> k == to
    ensures With(s, to, x)[k] == s[to] <==> k == to + 1
  {
    var r := With(s, to, x);
    assert r[k] == if k < to then s[k] else if k == to then x else s[k - 1];
  }

  // ----- families

  /** Child i and the one after it point to each other; at both ends there is nothing to point to. */
  ghost predicate PairOk(cs: seq<TreeItem>, i: int)
    reads cs`prevSibling, cs`nextSibling
  {
    && (0 <= i < |cs| ==> cs[i].nextSibling == Nth(cs, i + 1))
    && (0 <= i + 1 < |cs| ==> cs[i + 1].prevSibling == Nth(cs, i))
  }

  /** All pairs are right but perhaps those at the broken places. */
  ghost predicate PairsOkBut(cs: seq<TreeItem>, broken: set<int>)
    reads cs`prevSibling, cs`nextSibling
  {
    forall i {:trigger PairOk(cs, i)} :: i !in broken ==> PairOk(cs, i)
  }

  ghost predicate ParentIs(cs: seq<TreeItem>, p: TreeItem)
    reads cs`parent
  {
    forall c :: c in cs ==> c.parent == p
  }

  /** The children of p are linked as they stand in the array. */
  ghost predicate Family(p: TreeItem)
    reads p`children, p.children`prevSibling, p.children`nextSibling, p.children`parent
  {
    Distinct(p.children) && PairsOkBut(p.children, {}) && ParentIs(p.children, p)
  }

  /** Sets an item's sibling links and its neighbours' links to it, which repairs the pairs on both
      its sides and breaks no other. */
  method UpdatePrevNext(item: TreeItem, index: int, p: TreeItem, ghost broken: set<int>)
    requires item.parent == p && 0 <= index < |p.children| && p.children[index] == item && Distinct(p.children)
    requires PairsOkBut(p.children, broken)
    modifies p.children`prevSibling, p.children`nextSibling
    ensures PairsOkBut(p.children, broken - {index - 1, index})
  {
    var pchildren := |p.children|;
    var indexPrev, indexNext := index - 1, index + 1;
    var itemPrev := if indexPrev >= 0 && indexPrev < pchildren then p.children[indexPrev] else null;
    var itemNext := if indexNext >= 0 && indexNext < pchildren then p.children[indexNext] else null;
    item.prevSibling := itemPrev;
    item.nextSibling := itemNext;
    if itemPrev != null {
      itemPrev.nextSibling := item;
    }
    if itemNext != null {
      itemNext.prevSibling := item;
    }
    forall i | i !in broken - {index - 1, index} ensures PairOk(p.children, i) {
      assert i != index - 1 && i != index ==> old(PairOk(p.children, i));
    }
  }

  /** An item without family. */
  method Orphan(item: TreeItem)
    modifies item`parent, item`prevSibling, item`nextSibling
    ensures item.parent == null && item.prevSibling == null && item.nextSibling == null
  {
    item.parent, item.prevSibling, item.nextSibling := null, null, null;
  }

  // ----- which pairs a new order breaks

  lemma PairsAfterWith(cs: seq<TreeItem>, k: int, x: TreeItem)
    requires 0 <= k <= |cs| && PairsOkBut(cs, {}) && Distinct(cs) && x !in cs
    ensures PairsOkBut(With(cs, k, x), {k - 1, k}) && Distinct(With(cs, k, x))
    ensures |With(cs, k, x)| == |cs| + 1 && With(cs, k, x)[k] == x
    ensures forall j :: 0 <= j < |With(cs, k, x)| ==> With(cs, k, x)[j] == x || With(cs, k, x)[j] in cs
  {
    var r := With(cs, k, x);
    forall i | i !in {k - 1, k} ensures PairOk(r, i) {
      assert PairOk(cs, if i < k then i else i - 1);
    }
  }

  lemma PairsAfterWithout(cs: seq<TreeItem>, k: int)
    requires 0 <= k < |cs| && PairsOkBut(cs, {}) && Distinct(cs)
    ensures PairsOkBut(Without(cs, k), {k - 1}) && Distinct(Without(cs, k))
    ensures |Without(cs, k)| == |cs| - 1
    ensures forall j :: 0 <= j < |Without(cs, k)| ==> Without(cs, k)[j] in cs && Without(cs, k)[j] != cs[k]
  {
    var r := Without(cs, k);
    forall i | i !in {k - 1} ensures PairOk(r, i) {
      assert PairOk(cs, if i < k then i else i + 1);
    }
  }

  /** What stood around the removed child. */
  lemma NeighboursOf(cs: seq<TreeItem>, k: int)
    requires 0 <= k < |cs| && PairsOkBut(cs, {})
    ensures cs[k].prevSibling == Nth(cs, k - 1) && cs[k].nextSibling == Nth(cs, k + 1)
    ensures k > 0 ==> Without(cs, k)[k - 1] == cs[k - 1]
    ensures k + 1 < |cs| ==> Without(cs, k)[k] == cs[k + 1]
  {
    assert PairOk(cs, k - 1) && PairOk(cs, k);
  }

  lemma PairsAfterSwap(cs: seq<TreeItem>, a: int, b: int)
    requires 0 <= a < |cs| && 0 <= b < |cs| && PairsOkBut(cs, {}) && Distinct(cs)
    ensures PairsOkBut(Swapped(cs, a, b), {a - 1, a, b - 1, b}) && Distinct(Swapped(cs, a, b))
    ensures forall j :: 0 <= j < |cs| ==> Swapped(cs, a, b)[j] in cs
  {
    forall i | i !in {a - 1, a, b - 1, b} ensures PairOk(Swapped(cs, a, b), i) {
      assert PairOk(cs, i);
    }
  }

  function Places(a: int, b: int): (s: set<int>)
    ensures forall i :: i in s <==> a <= i < b
    decreases b - a
  {
    if a >= b then {} else Places(a, b - 1) + {b - 1}
  }

  /** Pairs that are not there cannot be broken. */
  lemma PairsAnyhow(cs: seq<TreeItem>)
    ensures PairsOkBut(cs, Places(-1, |cs|))
  {
  }

  lemma MovedDistinct(cs: seq<TreeItem>, to: int, from: int)
    requires 0 <= to < |cs| && 0 <= from < |cs| && Distinct(cs)
    ensures |Moved(cs, to, from)| == |cs|
    ensures Distinct(Moved(cs, to, from)) && forall j :: 0 <= j < |cs| ==> Moved(cs, to, from)[j] in cs
  {
    var r := Moved(cs, to, from);
    assert forall j :: 0 <= j < |cs| ==>
             r[j] == cs[if j == to then from
                          else if from <= j < to then j + 1
                          else if to < j <= from then j - 1 else j];
  }

  // ----- the operations of the array

  /** A place below 0 is the first, one past the end the last. */
  method Insert(p: TreeItem, pos: int, item: TreeItem)
    requires Family(p) && item.parent == p && item !in p.children
    modifies p`children, p.children`prevSibling, p.children`nextSibling, item`prevSibling, item`nextSibling
    ensures Family(p)
    ensures var k := if pos < 0 then 0 else if pos > |old(p.children)| then |old(p.children)| else pos;
            p.children == With(old(p.children), k, item)
  {
    hide With, Distinct, PairsOkBut;
    var k := pos;
    if k < 0 {
      k := 0;
    } else if k > |p.children| {
      k := |p.children|;
    }
    PairsAfterWith(p.children, k, item);
    p.children := With(p.children, k, item);
    UpdatePrevNext(item, k, p, {k - 1, k});
    assert {k - 1, k} - {k - 1, k} == {};
  }

  /** The items behind move up by one. */
  method Shuffle(items: seq<TreeItem>, index: int) returns (r: seq<TreeItem>)
    requires 0 <= index < |items|
    ensures r == Without(items, index)
  {
    var total := |items| - 1;
    r := items;
    var i := index;
    while i < total
      invariant index <= i <= total && |r| == |items|
      invariant forall j :: 0 <= j < i ==> r[j] == items[if j < index then j else j + 1]
      invariant forall j :: i <= j < |items| ==> r[j] == items[j]
    {
      r := r[i := r[i + 1]];
      i := i + 1;
    }
    r := r[..total];
  }

  /** Only the neighbours of the removed child have to be linked anew. */
  method Remove(p: TreeItem, index: int)
    requires Family(p) && 0 <= index < |p.children|
    modifies p`children, p.children`prevSibling, p.children`nextSibling
    ensures Family(p) && p.children == Without(old(p.children), index)
  {
    hide Distinct, PairOk;
    PairsAfterWithout(p.children, index);
    p.children := Shuffle(p.children, index);
    if index < |p.children| {
      UpdatePrevNext(p.children[index], index, p, {index - 1});
      assert {index - 1} - {index - 1, index} == {};
    } else if index - 1 >= 0 && index - 1 < |p.children| {
      UpdatePrevNext(p.children[index - 1], index - 1, p, {index - 1});
      assert {index - 1} - {index - 2, index - 1} == {};
    } else {
      NoChildren(p.children);
    }
  }

  lemma NoChildren(cs: seq<TreeItem>)
    requires cs == []
    ensures PairsOkBut(cs, {})
  {
  }

  method Swap(p: TreeItem, ax: int, bx: int)
    requires Family(p) && 0 <= ax < |p.children| && 0 <= bx < |p.children|
    modifies p`children, p.children`prevSibling, p.children`nextSibling
    ensures Family(p) && p.children == Swapped(old(p.children), ax, bx)
    ensures Exchanged(old(p.children), ax, bx, p.children)
  {
    hide Distinct, PairsOkBut, Exchanged;
    SwappedAt(p.children, ax, bx);
    PairsAfterSwap(p.children, ax, bx);
    var asave := p.children[ax];
    p.children := p.children[ax := p.children[bx]];
    p.children := p.children[bx := asave];
    UpdatePrevNext(p.children[ax], ax, p, {ax - 1, ax, bx - 1, bx});
    ghost var broken := {ax - 1, ax, bx - 1, bx} - {ax - 1, ax};
    UpdatePrevNext(p.children[bx], bx, p, broken);
    assert broken - {bx - 1, bx} == {};
  }

  /** The items between the two places move by one towards `from`. */
  method Shift(items: seq<TreeItem>, to: int, from: int) returns (r: seq<TreeItem>)
    requires 0 <= to < |items| && 0 <= from < |items|
    ensures r == Moved(items, to, from)
  {
    var item := items[from];
    r := items;
    var t := from;
    if from < to {
      while t < to
        invariant from <= t <= to && |r| == |items|
        invariant forall j :: 0 <= j < |items| ==> r[j] == items[if from <= j < t then j + 1 else j]
      {
        r := r[t := r[t + 1]];
        t := t + 1;
      }
    } else {
      while t > to && t > 0
        invariant to <= t <= from && |r| == |items|
        invariant forall j :: 0 <= j < |items| ==> r[j] == items[if t < j <= from then j - 1 else j]
      {
        r := r[t := r[t - 1]];
        t := t - 1;
      }
    }
    r := r[to := item];
    assert forall j :: 0 <= j < |items| ==> r[j] == Moved(items, to, from)[j];
  }

  /** All siblings are linked anew. */
  method Move(p: TreeItem, to: int, from: int) returns (ret: int)
    requires Family(p)
    modifies p`children, p.children`prevSibling, p.children`nextSibling
    ensures Family(p)
    ensures var n := |old(p.children)|;
            if from == to then ret == 0 && p.children == old(p.children)
            else if 0 <= to < n && 0 <= from < n then ret == 0 && p.children == Moved(old(p.children), to, from)
            else ret == -1 && p.children == old(p.children)
  {
    hide Distinct, PairsOkBut, Moved;
    if from == to {
      return 0;
    }
    if to < 0 || to >= |p.children| || from < 0 || from >= |p.children| {
      return -1;
    }
    MovedDistinct(p.children, to, from);
    p.children := Shift(p.children, to, from);
    ghost var cs := p.children;
    PairsAnyhow(cs);
    ghost var broken := Places(-1, |cs|);
    var r := 0;
    while r < |p.children|
      invariant 0 <= r <= |cs| && p.children == cs
      invariant PairsOkBut(cs, broken) && forall i :: i in broken ==> -1 <= i < |cs| && (r == 0 || i >= r)
    {
      UpdatePrevNext(p.children[r], r, p, broken);
      broken := broken - {r - 1, r};
      r := r + 1;
    }
    assert forall i :: i !in broken;
    assert broken == {};
    return 0;
  }

  /** Takes a child out of its family. */
  method Deparent(p: TreeItem, pos: int) returns (ret: int)
    requires Family(p)
    modifies p`children, p.children`prevSibling, p.children`nextSibling, p.children`parent
    ensures Family(p)
    ensures if 0 <= pos < |old(p.children)|
            then ret == 0 && p.children == Without(old(p.children), pos)
                 && (var x := old(p.children)[pos]; x.parent == x.prevSibling == x.nextSibling == null)
            else ret == -1 && p.children == old(p.children)
  {
    hide Distinct, PairsOkBut, Without;
    if pos >= |p.children| || pos < 0 {
      return -1;
    }
    PairsAfterWithout(p.children, pos);
    NeighboursOf(p.children, pos);
    var item := p.children[pos];
    var prev, next := item.prevSibling, item.nextSibling;
    p.children := Shuffle(p.children, pos);
    Orphan(item);
    ghost var broken := {pos - 1};
    if prev != null {
      UpdatePrevNext(prev, pos - 1, p, broken);
      broken := broken - {pos - 2, pos - 1};
    }
    if next != null {
      UpdatePrevNext(next, pos, p, broken);
      broken := broken - {pos - 1, pos};
    }
    if prev == null && next == null {
      NoChildren(p.children);
    } else {
      assert broken == {};
    }
    return 0;
  }

  /** Makes an item a child at a place that exists. */
  method Reparent(p: TreeItem, item: TreeItem, pos: int) returns (ret: int)
    requires Family(p) && item !in p.children
    modifies p`children, p.children`prevSibling, p.children`nextSibling
    modifies item`parent, item`prevSibling, item`nextSibling
    ensures Family(p)
    ensures if 0 <= pos <= |old(p.children)|
            then ret == 0 && p.children == With(old(p.children), pos, item) && item.parent == p
            else ret == -1 && p.children == old(p.children) && item.parent == old(item.parent)
                 && item.prevSibling == old(item.prevSibling) && item.nextSibling == old(item.nextSibling)
  {
    hide With, Distinct, PairsOkBut;
    if pos < 0 || pos > |p.children| {
      return -1;
    }
    PairsAfterWith(p.children, pos, item);
    p.children := With(p.children, pos, item);
    item.parent := p;
    UpdatePrevNext(item, pos, p, {pos - 1, pos});
    assert {pos - 1, pos} - {pos - 1, pos} == {};
    return 0;
  }

  // ----- moving an item above, below or into another

  lemma OnePlace(cs: seq<TreeItem>, i: int, j: int)
    requires Distinct(cs) && 0 <= i < |cs| && 0 <= j < |cs| && cs[i] == cs[j]
    ensures i == j
  {
  }

  lemma FamiliesApart(p: TreeItem, q: TreeItem)
    requires p != q && ParentIs(p.children, p) && ParentIs(q.children, q)
    ensures forall c :: c in p.children ==> c !in q.children
  {
  }

  /** The source asks me's parent, and item's parent unless it moves into item, for a child, without
      asking first whether there is a parent or an item. */
  predicate CallsOnNull(me: TreeItem, item: TreeItem?, op: Where)
    reads me, item
  {
    !op.BadOp? && (me.parent == null || (!op.Into? && (item == null || item.parent == null)))
  }

  /** `me` stands at place `from` of its parent's children, and `item` at place `to` of its
      parent's, or `to` is the place asked for. */
  ghost predicate CanMove(me: TreeItem, item: TreeItem?, op: Where, fp: TreeItem, tp: TreeItem, from: int, to: int)
    reads me, item, fp, tp, fp.children, tp.children
  {
    && Family(fp) && Family(tp) && me.parent == fp
    && 0 <= from < |fp.children| && fp.children[from] == me
    && match op
       case Into(pos) => tp == item && to == pos
       case _ => item != null && item.parent == tp && 0 <= to < |tp.children| && tp.children[to] == item
  }

  /** The answer -1, for an item without a parent, is given only for moving into nothing: everything
      else that lacks a parent is a call on a null pointer. */
  method MoveItem(me: TreeItem, item: TreeItem?, op: Where,
                  ghost fp: TreeItem, ghost tp: TreeItem, ghost from: int, ghost to: int)
    returns (ret: int)
    requires !CallsOnNull(me, item, op)
    requires op.BadOp? || (op.Into? && item == null) || CanMove(me, item, op, fp, tp, from, to)
    modifies fp`children, fp.children`prevSibling, fp.children`nextSibling, fp.children`parent
    modifies tp`children, tp.children`prevSibling, tp.children`nextSibling
    ensures op.BadOp? <==> ret == -3
    ensures op.Into? && item == null <==> ret == -1
    ensures ret < 0 ==> fp.children == old(fp.children) && tp.children == old(tp.children)
    ensures ret != -3 && ret != -1 ==> Family(fp) && Family(tp)
    ensures ret != -3 && ret != -1 && fp == tp ==>
              var fc, p := old(fp.children), Adjusted(op, |old(fp.children)|, from, to);
              if to < 0 then ret == -2
              else if p == from then ret == 0 && fp.children == fc
              else if p < |fc| then ret == 0 && fp.children == Moved(fc, p, from)
              else ret == -4
    ensures ret != -3 && ret != -1 && fp != tp ==>
              var fc, tc := old(fp.children), old(tp.children);
              if to < 0 then ret == -2
              else if to > |tc| then ret == -4
              else ret == 0 && fp.children == Without(fc, from) && tp.children == With(tc, to, me)
  {
    if op.BadOp? {
      return -3;
    }
    var fromParent := me.parent;
    var toParent := if op.Into? then item else item.parent;
    var f := FindChild(fromParent, me);
    var t;
    if op.Into? {
      t := op.pos;
    } else {
      t := FindChild(toParent, item);
    }
    if toParent == null {
      return -1;
    }
    OnePlace(fp.children, f, from);
    if !op.Into? {
      OnePlace(tp.children, t, to);
    }
    if f < 0 || t < 0 {
      return -2;
    }
    if fromParent == toParent {
      t := Adjusted(op, |toParent.children|, f, t);
      ret := Move(fromParent, t, f);
      return if ret < 0 then -4 else 0;
    }
    ret := MoveAcross(me, fromParent, toParent, f, t);
  }

  /** Out of one family and into another. */
  method MoveAcross(me: TreeItem, fp: TreeItem, tp: TreeItem, from: int, to: int) returns (ret: int)
    requires fp != tp && Family(fp) && Family(tp) && 0 <= from < |fp.children| && fp.children[from] == me && 0 <= to
    modifies fp`children, fp.children`prevSibling, fp.children`nextSibling, fp.children`parent
    modifies tp`children, tp.children`prevSibling, tp.children`nextSibling
    ensures Family(fp) && Family(tp)
    ensures var fc, tc := old(fp.children), old(tp.children);
            if to > |tc| then ret == -4 && fp.children == fc && tp.children == tc
            else ret == 0 && fp.children == Without(fc, from) && tp.children == With(tc, to, me)
  {
    hide PairsOkBut, Distinct, With;
    if to > |tp.children| {
      return -4;
    }
    FamiliesApart(fp, tp);
    PairsAfterWithout(fp.children, from);
    ghost var fc, tc := fp.children, tp.children;
    assert forall j :: 0 <= j < |tc| ==> tc[j] in tc && tc[j] !in fc;
    var d := Deparent(fp, from);
    assert forall j :: 0 <= j < |fp.children| ==> fp.children[j] !in tc && fp.children[j] != me;
    var r := Reparent(tp, me, to);
    return 0;
  }

  // ----- families in a tree

  /** In a linked tree every item and its children are a family. */
  lemma LinkedFamilies(o: seq<TreeItem>, s: seq<Node>, k: int)
    requires Linked(o, s) && 0 <= k < |o|
    ensures Family(o[k])
  {
    hide Linked, Parented, Shaped, NodeOk, ChildrenOk, ParentOk, SiblingsOk;
    var cs := o[k].children;
    forall i | 0 <= i < |cs|
      ensures KidOk(o, s, k, i) && cs[i].parent == o[k]
      ensures cs[i].prevSibling == Nth(cs, i - 1) && cs[i].nextSibling == Nth(cs, i + 1)
    {
      KidLinks(o, s, k, i);
    }
    forall i, j | 0 <= i < j < |cs| ensures cs[i] != cs[j] {
      KidsApart(o, s, k, i, j);
    }
    assert PairsOkBut(cs, {});
  }

  ghost predicate KidOk(o: seq<TreeItem>, s: seq<Node>, k: int, i: int)
    reads o`children
  {
    0 <= k < |o| == |s| && |o[k].children| == |s[k].kids| && 0 <= i < |s[k].kids|
    && 0 <= s[k].kids[i] < |o| && o[k].children[i] == o[s[k].kids[i]]
  }

  lemma KidLinks(o: seq<TreeItem>, s: seq<Node>, k: int, i: int)
    requires Linked(o, s) && 0 <= k < |o| && 0 <= i < |o[k].children|
    ensures KidOk(o, s, k, i) && o[k].children[i].parent == o[k]
    ensures o[k].children[i].prevSibling == Nth(o[k].children, i - 1)
    ensures o[k].children[i].nextSibling == Nth(o[k].children, i + 1)
  {
    assert ChildrenOk(o, s, k) && NodeOk(s, k);
    var c := s[k].kids[i];
    assert ParentOk(o, s, c) && SiblingsOk(o, s, c) && NodeOk(s, c);
    assert i > 0 ==> o[k].children[i - 1] == Nth(o, s[k].kids[i - 1]);
    assert i + 1 < |s[k].kids| ==> o[k].children[i + 1] == Nth(o, s[k].kids[i + 1]);
  }

  /** Different children stand at different places, because each knows its number. */
  lemma KidsApart(o: seq<TreeItem>, s: seq<Node>, k: int, i: int, j: int)
    requires Linked(o, s) && 0 <= k < |o| && 0 <= i < j < |o[k].children|
    requires KidOk(o, s, k, i) && KidOk(o, s, k, j)
    ensures o[k].children[i] != o[k].children[j]
  {
    assert NodeOk(s, k);
    assert s[s[k].kids[i]].slot == i && s[s[k].kids[j]].slot == j;
    DifferentPlaces(o, s, s[k].kids[i], s[k].kids[j]);
  }
}
