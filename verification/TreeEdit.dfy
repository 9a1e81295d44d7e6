/** Editing whole trees: every operation on the children of an item leaves a linked tree, the one
    with those children changed. */
module TreeEdits {
  import opened Sequences
  import opened Trees
  import opened TreeUpdates
  import opened TreeItems
  import opened TreeFamilies
  import opened LinkedTrees

  // ----- the new tree

  lemma RootsWith(ks: seq<Tree<TreeItem>>, k: int, u: Tree<TreeItem>)
    requires 0 <= k <= |ks|
    ensures Roots(With(ks, k, u)) == With(Roots(ks), k, u.item)
  {
  }

  lemma RootsWithout(ks: seq<Tree<TreeItem>>, k: int)
    requires 0 <= k < |ks|
    ensures Roots(Without(ks, k)) == Without(Roots(ks), k)
  {
  }

  lemma RootsMoved(ks: seq<Tree<TreeItem>>, to: int, from: int)
    requires 0 <= to < |ks| && 0 <= from < |ks|
    ensures Roots(Moved(ks, to, from)) == Moved(Roots(ks), to, from)
  {
    RootsWithout(ks, from);
    RootsWith(Without(ks, from), to, ks[from]);
  }

  lemma RootsSwapped(ks: seq<Tree<TreeItem>>, a: int, b: int)
    requires 0 <= a < |ks| && 0 <= b < |ks|
    ensures Roots(Swapped(ks, a, b)) == Swapped(Roots(ks), a, b)
  {
  }

  /** Grafting a tree of other items. */
  lemma Graft(t: Tree<TreeItem>, q: seq<nat>, k: int, u: Tree<TreeItem>)
    requires IsPath(t, q) && 0 <= k <= |At(t, q).kids|
    requires Distinct(Items(t)) && Distinct(Items(u)) && forall x :: x in Items(u) ==> x !in Items(t)
    ensures var ks := With(At(t, q).kids, k, u);
            var n := Update(t, q, ks);
            && Distinct(Items(n)) && n.item == t.item
            && (forall x :: x in Items(n) ==> x in Items(t) || x in Items(u))
            && forall r :: r in Rows(n) ==>
                 r == Row(At(t, q).item, Roots(ks)) || r in Rows(u) || (r in Rows(t) && r.item != At(t, q).item)
  {
    hide Update, At, IsPath, Items, Rows, Bag;
    var ks := With(At(t, q).kids, k, u);
    BagWith(At(t, q).kids, k, u);
    DistinctIffOnce(Items(u));
    UpdateDistinct(t, q, ks, multiset(Items(u)));
    UpdateKeepsRoot(t, q, ks);
    SameKids(At(t, q).kids, k, u);
    forall r | r in Rows(Update(t, q, ks))
      ensures r == Row(At(t, q).item, Roots(ks)) || r in Rows(u) || (r in Rows(t) && r.item != At(t, q).item)
    {
      LinesFromKids(t, q, ks, u, r);
    }
  }

  lemma SameKids<T>(s: seq<T>, k: int, x: T)
    requires 0 <= k <= |s|
    ensures var r := With(s, k, x); forall i :: 0 <= i < |r| ==> r[i] == x || r[i] in s
  {
  }

  /** Taking children out, or putting them in another order. */
  lemma Reorder(t: Tree<TreeItem>, q: seq<nat>, ks: seq<Tree<TreeItem>>)
    requires IsPath(t, q) && Distinct(Items(t))
    requires Bag(ks) <= Bag(At(t, q).kids) && forall i :: 0 <= i < |ks| ==> ks[i] in At(t, q).kids
    ensures var n := Update(t, q, ks);
            && Distinct(Items(n)) && n.item == t.item
            && (forall x :: x in Items(n) ==> x in Items(t))
            && forall r :: r in Rows(n) ==>
                 r == Row(At(t, q).item, Roots(ks)) || (r in Rows(t) && r.item != At(t, q).item)
  {
    hide Update, At, IsPath, Items, Rows, RowsOf, Bag;
    UpdateDistinct(t, q, ks, multiset{});
    UpdateKeepsRoot(t, q, ks);
    forall r | r in Rows(Update(t, q, ks))
      ensures r == Row(At(t, q).item, Roots(ks)) || (r in Rows(t) && r.item != At(t, q).item)
    {
      if |ks| > 0 {
        LinesFromKids(t, q, ks, ks[0], r);
        if r in Rows(ks[0]) {
          var j :| 0 <= j < |At(t, q).kids| && At(t, q).kids[j] == ks[0];
          KidRow(t, q, j, r);
        }
      } else {
        UpdatedRow(t, q, ks, r);
        NoRows<TreeItem>();
      }
    }
  }

  // ----- what an operation on one family leaves alone

  lemma RowItems(t: Tree<TreeItem>, r: Row<TreeItem>)
    requires r in Rows(t)
    ensures r.item in Items(t) && forall c: TreeItem :: c in r.kids ==> c in Items(t)
  {
    RowInTree(t, r);
  }

  /** The family of one item; the children of others are not its children. */
  lemma FamilyAt(t: Tree<TreeItem>, q: seq<nat>)
    requires LinkedTree(t) && IsPath(t, q)
    ensures var p := At(t, q).item;
            && Family(p) && p.children == Roots(At(t, q).kids) && p in Items(t)
            && (forall c :: c in p.children ==> c in Items(t)) && t.item in Items(t) && t.item !in p.children
            && (forall r, c :: r in Rows(t) && r.item != p && c in r.item.children ==>
                  c !in p.children && c in Items(t))
    ensures var cs := At(t, q).item.children; forall i :: 0 <= i < |cs| ==> cs[i] in Items(t)
    ensures Distinct(Items(t)) && Alone(t.item) && forall r :: r in Rows(t) ==> RowOk(r)
  {
    hide Rows, At, IsPath, Place, LinkedTree;
    LinkedRows(t);
    PlaceItem(t, q);
    ItemAt(t, q);
    assert Rows(t)[0] in Rows(t);
    RowItems(t, Rows(t)[0]);
    var p := At(t, q).item;
    var own := Row(p, Roots(At(t, q).kids));
    assert RowOk(own);
    RowItems(t, own);
    forall r, c | r in Rows(t) && r.item != p && c in r.item.children
      ensures c !in p.children && c in Items(t)
    {
      assert RowOk(r);
      RowItems(t, r);
      assert c.parent == r.item;
    }
  }

  /** A line none of whose links was touched. */
  twostate lemma RowKept(r: Row<TreeItem>)
    requires old(RowOk(r)) && r.item.children == old(r.item.children)
    requires forall c :: c in r.item.children ==>
               c.parent == old(c.parent) && c.prevSibling == old(c.prevSibling) && c.nextSibling == old(c.nextSibling)
    ensures RowOk(r)
  {
  }

  lemma ChildlessRow(x: TreeItem)
    requires x.children == []
    ensures forall r :: r in Rows(Tree(x, [])) ==> RowOk(r)
    ensures Items(Tree(x, [])) == [x] && Distinct([x])
  {
    assert Rows(Tree(x, [])) == [Row(x, [])];
  }

  lemma OwnRow(p: TreeItem, cs: seq<TreeItem>)
    requires Family(p) && p.children == cs
    ensures RowOk(Row(p, cs))
  {
  }

  // ----- the operations

  /** A new item, put among the children of another at a place; below 0 it is the first, past the
      end the last. */
  method InsertChild(p: TreeItem, pos: int, ghost t: Tree<TreeItem>, ghost q: seq<nat>)
    returns (item: TreeItem, ghost n: Tree<TreeItem>)
    requires LinkedTree(t) && IsPath(t, q) && At(t, q).item == p
    modifies p`children, p.children`prevSibling, p.children`nextSibling
    ensures fresh(item)
    ensures var ks := At(t, q).kids;
            var k := if pos < 0 then 0 else if pos > |ks| then |ks| else pos;
            n == Update(t, q, With(ks, k, Tree(item, []))) && LinkedTree(n)
    ensures forall x :: x in Items(n) ==> x == item || x in Items(t)
  {
    hide Rows, At, IsPath, Update, Items, Family, LinkedTree, RowOk, Distinct, Bag, With, Without, Moved, Swapped;
    assert allocated(Items(t)) && allocated(Rows(t));
    ghost var ks := At(t, q).kids;
    ghost var k := if pos < 0 then 0 else if pos > |ks| then |ks| else pos;
    FamilyAt(t, q);
    item := new TreeItem();
    ghost var u := Tree(item, []);
    ChildlessRow(item);
    Graft(t, q, k, u);
    RootsWith(ks, k, u);
    item.parent := p;
    Insert(p, pos, item);
    n := Update(t, q, With(ks, k, u));
    ChildlessRow(item);
    OwnRow(p, Roots(With(ks, k, u)));
    forall r | r in Rows(t) && r.item != p
      ensures RowOk(r)
    {
      RowItems(t, r);
      assert forall c :: c in r.item.children ==> c != item && c !in old(p.children);
      RowKept(r);
    }
    assert Alone(t.item);
    RowsLinked(n);
  }

  /** The child is freed, with all that is below it. */
  method RemoveChild(p: TreeItem, index: int, ghost t: Tree<TreeItem>, ghost q: seq<nat>)
    returns (ghost n: Tree<TreeItem>)
    requires LinkedTree(t) && IsPath(t, q) && At(t, q).item == p
    requires 0 <= index < |At(t, q).kids|
    modifies p`children, p.children`prevSibling, p.children`nextSibling
    ensures n == Update(t, q, Without(At(t, q).kids, index)) && LinkedTree(n)
    ensures forall x :: x in Items(n) ==> x in Items(t)
  {
    hide Rows, At, IsPath, Update, Items, Family, LinkedTree, RowOk, Distinct, Bag, With, Without, Moved, Swapped;
    assert allocated(Items(t)) && allocated(Rows(t));
    ghost var ks := Without(At(t, q).kids, index);
    FamilyAt(t, q);
    BagWithout(At(t, q).kids, index);
    RootsWithout(At(t, q).kids, index);
    WithoutFrom(At(t, q).kids, index);
    Reorder(t, q, ks);
    Remove(p, index);
    n := Update(t, q, ks);
    OwnRow(p, Roots(ks));
    forall r | r in Rows(t) && r.item != p
      ensures RowOk(r)
    {
      RowItems(t, r);
      assert forall c :: c in r.item.children ==> c !in old(p.children);
      RowKept(r);
    }
    assert Alone(t.item);
    RowsLinked(n);
  }

  /** The tree after two children have changed places. */
  method SwapInLines(p: TreeItem, ax: int, bx: int, ghost t: Tree<TreeItem>, ghost q: seq<nat>)
    returns (ghost n: Tree<TreeItem>)
    requires LinkedTree(t) && IsPath(t, q) && At(t, q).item == p
    requires 0 <= ax < |At(t, q).kids| && 0 <= bx < |At(t, q).kids|
    modifies p`children, p.children`prevSibling, p.children`nextSibling
    ensures n == Update(t, q, Swapped(At(t, q).kids, ax, bx)) && LinkedTree(n)
    ensures forall x :: x in Items(n) ==> x in Items(t)
  {
    hide Rows, At, IsPath, Update, Items, Family, LinkedTree, RowOk, Distinct, Bag, With, Without, Moved, Swapped;
    hide Exchanged;
    assert allocated(Items(t)) && allocated(Rows(t));
    ghost var ks := Swapped(At(t, q).kids, ax, bx);
    FamilyAt(t, q);
    BagSwapped(At(t, q).kids, ax, bx);
    RootsSwapped(At(t, q).kids, ax, bx);
    SwappedFrom(At(t, q).kids, ax, bx);
    Reorder(t, q, ks);
    Swap(p, ax, bx);
    n := Update(t, q, ks);
    OwnRow(p, Roots(ks));
    forall r | r in Rows(t) && r.item != p
      ensures RowOk(r)
    {
      RowItems(t, r);
      assert forall c :: c in r.item.children ==> c !in old(p.children);
      RowKept(r);
    }
    assert Alone(t.item);
    RowsLinked(n);
  }

  /** Two children change places, with all that is below them. */
  method SwapChildren(p: TreeItem, ax: int, bx: int, ghost t: Tree<TreeItem>, ghost q: seq<nat>)
    returns (ghost n: Tree<TreeItem>)
    requires LinkedTree(t) && IsPath(t, q) && At(t, q).item == p
    requires 0 <= ax < |At(t, q).kids| && 0 <= bx < |At(t, q).kids|
    modifies p`children, p.children`prevSibling, p.children`nextSibling
    ensures n == Update(t, q, Swapped(At(t, q).kids, ax, bx)) && LinkedTree(n)
    ensures Stands(n, q, ax, t, bx) && Stands(n, q, bx, t, ax)
    ensures forall c :: 0 <= c < |At(t, q).kids| && c != ax && c != bx ==> Stands(n, q, c, t, c)
    ensures forall x :: x in Items(n) ==> x in Items(t)
  {
    hide At, IsPath, Update, Items, LinkedTree, Swapped, Stands;
    KidsSwapped(t, q, ax, bx);
    n := SwapInLines(p, ax, bx, t, q);
  }

  /** One child is put at another's place; the answer is -1 if there is no such place. */
  method MoveChild(p: TreeItem, to: int, from: int, ghost t: Tree<TreeItem>, ghost q: seq<nat>)
    returns (ret: int, ghost n: Tree<TreeItem>)
    requires LinkedTree(t) && IsPath(t, q) && At(t, q).item == p
    modifies p`children, p.children`prevSibling, p.children`nextSibling
    ensures forall x :: x in Items(n) ==> x in Items(t)
    ensures LinkedTree(n)
    ensures var ks := At(t, q).kids;
            if from == to then ret == 0 && n == t
            else if 0 <= to < |ks| && 0 <= from < |ks| then ret == 0 && n == Update(t, q, Moved(ks, to, from))
            else ret == -1 && n == t
  {
    hide Rows, At, IsPath, Update, Items, Family, LinkedTree, RowOk, Distinct, Bag, With, Without, Moved, Swapped;
    assert allocated(Items(t)) && allocated(Rows(t));
    ghost var ks := At(t, q).kids;
    FamilyAt(t, q);
    UpdateSame(t, q);
    if from != to && 0 <= to < |ks| && 0 <= from < |ks| {
      BagMoved(ks, to, from);
      RootsMoved(ks, to, from);
      MovedFrom(ks, to, from);
      ks := Moved(ks, to, from);
    }
    Reorder(t, q, ks);
    ret := Move(p, to, from);
    n := Update(t, q, ks);
    OwnRow(p, Roots(ks));
    forall r | r in Rows(t) && r.item != p
      ensures RowOk(r)
    {
      RowItems(t, r);
      assert forall c :: c in r.item.children ==> c !in old(p.children);
      RowKept(r);
    }
    assert Alone(t.item);
    RowsLinked(n);
  }

  /** The lines of a child's subtree are untouched by what happens to the children of its parent. */
  lemma SubRows(t: Tree<TreeItem>, q: seq<nat>, k: nat)
    requires IsPath(t, q) && k < |At(t, q).kids| && Distinct(Items(t))
    ensures forall r :: r in Rows(At(t, q).kids[k]) ==> r in Rows(t) && r.item != At(t, q).item
    ensures Distinct(Items(At(t, q).kids[k]))
  {
    hide At, IsPath, Rows, Items;
    PathDown(t, q, k);
    SubDistinct(t, q + [k]);
    forall r | r in Rows(At(t, q).kids[k])
      ensures r in Rows(t) && r.item != At(t, q).item
    {
      KidRow(t, q, k, r);
    }
  }

  /** A child with all that is below it is taken out: two linked trees without a common item. */
  method DeparentChild(p: TreeItem, pos: int, ghost t: Tree<TreeItem>, ghost q: seq<nat>)
    returns (ret: int, ghost n: Tree<TreeItem>)
    requires LinkedTree(t) && IsPath(t, q) && At(t, q).item == p
    modifies p`children, p.children`prevSibling, p.children`nextSibling, p.children`parent
    ensures LinkedTree(n)
    ensures var ks := At(t, q).kids;
            if 0 <= pos < |ks|
            then && ret == 0 && n == Update(t, q, Without(ks, pos)) && LinkedTree(ks[pos])
                 && forall x :: x in Items(ks[pos]) ==> x !in Items(n)
            else ret == -1 && n == t
  {
    hide Rows, At, IsPath, Update, Items, Family, LinkedTree, RowOk, Distinct, Bag, With, Without, Moved, Swapped;
    assert allocated(Items(t)) && allocated(Rows(t));
    ghost var ks := At(t, q).kids;
    ghost var there := 0 <= pos < |ks|;
    FamilyAt(t, q);
    UpdateSame(t, q);
    if there {
      BagWithout(ks, pos);
      RootsWithout(ks, pos);
      WithoutFrom(ks, pos);
      PruneApart(t, q, pos);
      SubRows(t, q, pos);
      ks := Without(ks, pos);
    }
    Reorder(t, q, ks);
    ret := Deparent(p, pos);
    n := Update(t, q, ks);
    OwnRow(p, Roots(ks));
    forall r | r in Rows(t) && r.item != p
      ensures RowOk(r)
    {
      RowItems(t, r);
      assert forall c :: c in r.item.children ==> c !in old(p.children);
      RowKept(r);
    }
    assert Alone(t.item);
    RowsLinked(n);
    if there {
      assert Alone(At(t, q).kids[pos].item);
      RowsLinked(At(t, q).kids[pos]);
    }
  }

  /** A tree of other items becomes a child; the answer is -1 if there is no such place. */
  method ReparentChild(p: TreeItem, item: TreeItem, pos: int,
                       ghost t: Tree<TreeItem>, ghost q: seq<nat>, ghost u: Tree<TreeItem>)
    returns (ret: int, ghost n: Tree<TreeItem>)
    requires LinkedTree(t) && IsPath(t, q) && At(t, q).item == p
    requires LinkedTree(u) && u.item == item && forall x :: x in Items(u) ==> x !in Items(t)
    modifies p`children, p.children`prevSibling, p.children`nextSibling
    modifies item`parent, item`prevSibling, item`nextSibling
    ensures LinkedTree(n)
    ensures var ks := At(t, q).kids;
            if 0 <= pos <= |ks| then ret == 0 && n == Update(t, q, With(ks, pos, u))
            else ret == -1 && n == t && LinkedTree(u)
  {
    hide Rows, At, IsPath, Update, Items, Family, LinkedTree, RowOk, Distinct, Bag, With, Without, Moved, Swapped;
    assert allocated(Items(t)) && allocated(Rows(t));
    assert allocated(Items(u)) && allocated(Rows(u));
    ghost var ks := At(t, q).kids;
    FamilyAt(t, q);
    RootIsAll(u);
    FamilyAt(u, []);
    LinkedRows(u);
    AllKept(u);
    assert item in Items(u) && item !in p.children;
    ghost var there := 0 <= pos <= |ks|;
    UpdateSame(t, q);
    if there {
      Graft(t, q, pos, u);
      RootsWith(ks, pos, u);
      ks := With(ks, pos, u);
    } else {
      Reorder(t, q, ks);
    }
    ret := Reparent(p, item, pos);
    n := Update(t, q, ks);
    OwnRow(p, Roots(ks));
    forall r | r in Rows(t) && r.item != p
      ensures RowOk(r)
    {
      RowItems(t, r);
      assert forall c :: c in r.item.children ==> c != item && c !in old(p.children);
      RowKept(r);
    }
    forall r | r in Rows(u)
      ensures RowOk(r)
    {
      RowItems(u, r);
      assert forall c :: c in r.item.children ==> c != item && c !in old(p.children);
      RowKept(r);
    }
    assert Alone(t.item);
    RowsLinked(n);
    if !there {
      RowsLinked(u);
    }
  }

  /** Nobody's child is the root. */
  lemma AllKept(t: Tree<TreeItem>)
    requires LinkedTree(t)
    ensures forall r, c :: r in Rows(t) && c in r.item.children ==> c in Items(t) && c != t.item
  {
    hide Rows, LinkedTree;
    LinkedRows(t);
    forall r, c | r in Rows(t) && c in r.item.children
      ensures c in Items(t) && c != t.item
    {
      assert RowOk(r);
      RowItems(t, r);
      assert c.parent == r.item;
    }
  }

  // ----- moving an item anywhere in the tree

  /** The path to the parent. */
  function Up(p: seq<nat>): seq<nat>
    requires p != []
  {
    p[..|p| - 1]
  }

  function Last(p: seq<nat>): nat
    requires p != []
  {
    p[|p| - 1]
  }

  /** The path of the new parent, and the place asked for there. */
  function Target(b: seq<nat>, op: Where): seq<nat>
    requires op.Into? || b != []
  {
    if op.Into? then b else Up(b)
  }

  function PlaceAsked(b: seq<nat>, op: Where): int
    requires op.Into? || b != []
  {
    if op.Into? then op.pos else Last(b)
  }

  /** `me` stands at path `a` and is not the root, `item` at path `b`, and there is an above and a
      below it. */
  ghost predicate MoveArgs(me: TreeItem, item: TreeItem, op: Where, t: Tree<TreeItem>, a: seq<nat>, b: seq<nat>)
  {
    && IsPath(t, a) && a != [] && At(t, a).item == me && IsPath(t, b) && At(t, b).item == item
    && !op.BadOp? && (op.Into? || b != [])
  }

  /** What the move is about: two families and two places. */
  lemma MoveReady(me: TreeItem, item: TreeItem, op: Where, t: Tree<TreeItem>, a: seq<nat>, b: seq<nat>)
    requires LinkedTree(t) && MoveArgs(me, item, op, t, a, b)
    ensures IsPath(t, Up(a)) && IsPath(t, Target(b, op)) && Last(a) < |At(t, Up(a)).kids|
    ensures At(t, Up(a)).kids[Last(a)] == At(t, a)
    ensures !CallsOnNull(me, item, op)
    ensures CanMove(me, item, op, At(t, Up(a)).item, At(t, Target(b, op)).item, Last(a), PlaceAsked(b, op))
  {
    hide Rows, LinkedTree, Items;
    PathUp(t, a);
    if !op.Into? {
      PathUp(t, b);
    }
    FamilyAt(t, Up(a));
    FamilyAt(t, Target(b, op));
    hide At, IsPath;
    assert me in At(t, Up(a)).item.children;
  }

  /** Two families of a tree, which may be the same: where the links of a move lie. */
  lemma TwoFamilies(t: Tree<TreeItem>, q: seq<nat>, g: seq<nat>)
    requires LinkedTree(t) && IsPath(t, q) && IsPath(t, g)
    ensures var p, tp := At(t, q).item, At(t, g).item;
            && p in Items(t) && tp in Items(t) && t.item in Items(t) && t.item !in p.children && t.item !in tp.children
            && (forall i :: 0 <= i < |p.children| ==> p.children[i] in Items(t))
            && (forall i :: 0 <= i < |tp.children| ==> tp.children[i] in Items(t))
            && p.children == Roots(At(t, q).kids) && tp.children == Roots(At(t, g).kids)
            && (forall c :: c in p.children ==> c.parent == p)
    ensures Distinct(Items(t)) && Alone(t.item)
    ensures forall r :: r in Rows(t) ==> RowOk(r) && r.item in Items(t)
    ensures forall r, c :: r in Rows(t) && r.item != At(t, q).item && r.item != At(t, g).item
                              && c in r.item.children ==>
              c in Items(t) && c !in At(t, q).item.children && c !in At(t, g).item.children
  {
    hide Rows, At, IsPath, Items, LinkedTree, RowOk;
    FamilyAt(t, q);
    FamilyAt(t, g);
    forall r | r in Rows(t)
      ensures r.item in Items(t)
    {
      RowItems(t, r);
    }
  }

  /** A move, seen from the tree: the lines of the two families are the only ones touched, and not
      even those when the answer is an error. */
  method MoveInLines(me: TreeItem, item: TreeItem, op: Where, ghost t: Tree<TreeItem>,
                     ghost q: seq<nat>, ghost g: seq<nat>, ghost from: int, ghost to: int)
    returns (ret: int)
    requires LinkedTree(t) && IsPath(t, q) && IsPath(t, g)
    requires !op.BadOp? && !CallsOnNull(me, item, op)
    requires CanMove(me, item, op, At(t, q).item, At(t, g).item, from, to)
    modifies Items(t)`children, Items(t)`prevSibling, Items(t)`nextSibling, Items(t)`parent
    ensures Alone(t.item) && Family(At(t, q).item) && Family(At(t, g).item)
    ensures forall r :: r in Rows(t) && r.item != At(t, q).item && r.item != At(t, g).item ==> RowOk(r)
    ensures ret < 0 ==> forall r :: r in Rows(t) ==> RowOk(r)
    ensures var p, tp := At(t, q).item, At(t, g).item;
            var ps, ts := Roots(At(t, q).kids), Roots(At(t, g).kids);
            && 0 <= from < |ps|
            && if to < 0 then ret == -2
               else if p == tp then
                 var k := Adjusted(op, |ps|, from, to);
                 if k == from then ret == 0 && p.children == ps
                 else if k < |ps| then 0 <= k && ret == 0 && p.children == Moved(ps, k, from)
                 else ret == -4
               else if to > |ts| then ret == -4
               else ret == 0 && p.children == Without(ps, from) && tp.children == With(ts, to, me)
  {
    hide Rows, At, IsPath, Items, Family, LinkedTree, RowOk, Distinct, With, Without, Moved;
    assert allocated(Items(t)) && allocated(Rows(t));
    TwoFamilies(t, q, g);
    ghost var p, tp := At(t, q).item, At(t, g).item;
    ret := MoveItem(me, item, op, p, tp, from, to);
    forall r | r in Rows(t) && r.item != p && r.item != tp
      ensures RowOk(r)
    {
      assert forall c :: c in r.item.children ==> c !in old(p.children) && c !in old(tp.children);
      RowKept(r);
    }
    if ret < 0 {
      forall r | r in Rows(t) && (r.item == p || r.item == tp)
        ensures RowOk(r)
      {
        OwnRowKept(r);
      }
    }
  }

  twostate lemma OwnRowKept(r: Row<TreeItem>)
    requires old(RowOk(r)) && r.item.children == old(r.item.children) && Family(r.item)
    ensures RowOk(r)
  {
  }

  /** To a place among its own siblings. */
  method MoveAmong(me: TreeItem, item: TreeItem, op: Where, ghost t: Tree<TreeItem>, ghost a: seq<nat>,
                   ghost b: seq<nat>)
    returns (ret: int, ghost n: Tree<TreeItem>)
    requires LinkedTree(t) && MoveArgs(me, item, op, t, a, b) && Up(a) == Target(b, op)
    modifies Items(t)`children, Items(t)`prevSibling, Items(t)`nextSibling, Items(t)`parent
    ensures forall x :: x in Items(n) ==> x in Items(t)
    ensures LinkedTree(n) && IsPath(t, Up(a))
    ensures var ks, from, to := At(t, Up(a)).kids, Last(a), PlaceAsked(b, op);
            var k := Adjusted(op, |ks|, from, to);
            && 0 <= from < |ks|
            && if to < 0 then ret == -2 && n == t
               else if k == from then ret == 0 && n == t
               else if k < |ks| then 0 <= k && ret == 0 && n == Update(t, Up(a), Moved(ks, k, from))
               else ret == -4 && n == t
  {
    hide Rows, At, IsPath, Update, Items, Family, LinkedTree, RowOk, Distinct, Bag, Moved;
    MoveReady(me, item, op, t, a, b);
    ghost var q, from, to := Up(a), Last(a), PlaceAsked(b, op);
    ghost var ks := At(t, q).kids;
    ghost var k := Adjusted(op, |ks|, from, to);
    LinkedRoot(t);
    UpdateSame(t, q);
    if to >= 0 && k != from && k < |ks| {
      BagMoved(ks, k, from);
      RootsMoved(ks, k, from);
      MovedFrom(ks, k, from);
      ks := Moved(ks, k, from);
    }
    Reorder(t, q, ks);
    ret := MoveInLines(me, item, op, t, q, q, from, to);
    n := Update(t, q, ks);
    if ret == 0 {
      OwnRow(At(t, q).item, Roots(ks));
    }
    RowsLinked(n);
  }

  /** The tree without the moved subtree, and with it somewhere else. */
  lemma AwayTree(t: Tree<TreeItem>, a: seq<nat>, g: seq<nat>)
    requires IsPath(t, a) && a != [] && IsPath(t, g) && Distinct(Items(t)) && !(a <= g) && g != Up(a)
    requires IsPath(t, Up(a)) && Last(a) < |At(t, Up(a)).kids| && At(t, Up(a)).kids[Last(a)] == At(t, a)
    ensures var p, tp := At(t, Up(a)).item, At(t, g).item;
            var ks := Without(At(t, Up(a)).kids, Last(a));
            var m := Update(t, Up(a), ks);
            && p != tp && tp in Items(m) && Distinct(Items(m)) && m.item == t.item
            && (forall x :: x in Items(m) ==> x in Items(t)) && (forall x :: x in Items(At(t, a)) ==> x in Items(t))
            && (forall x :: x in Items(At(t, a)) ==> x !in Items(m))
            && Distinct(Items(At(t, a)))
            && (forall r :: r in Rows(At(t, a)) ==> r in Rows(t) && r.item != p && r.item != tp)
            && forall r :: r in Rows(m) ==> r == Row(p, Roots(ks)) || (r in Rows(t) && r.item != p)
  {
    hide At, IsPath, Items, Rows, Update, Without, Distinct, Bag;
    var q, k := Up(a), Last(a);
    PruneApart(t, q, k);
    BagWithout(At(t, q).kids, k);
    WithoutFrom(At(t, q).kids, k);
    Reorder(t, q, Without(At(t, q).kids, k));
    SubRows(t, q, k);
    Through(t, a, g);
    ItemAt(t, g);
    if At(t, q).item == At(t, g).item {
      OnePath(t, q, g);
    }
    forall r | r in Rows(At(t, a))
      ensures r.item != At(t, g).item
    {
      RowItems(At(t, a), r);
    }
  }

  lemma AwayGraft(t: Tree<TreeItem>, a: seq<nat>, g: seq<nat>, way: seq<nat>, to: int)
    requires IsPath(t, a) && a != [] && IsPath(t, g) && Distinct(Items(t)) && !(a <= g) && g != Up(a)
    requires IsPath(t, Up(a)) && Last(a) < |At(t, Up(a)).kids| && At(t, Up(a)).kids[Last(a)] == At(t, a)
    requires var m := Update(t, Up(a), Without(At(t, Up(a)).kids, Last(a)));
             IsPath(m, way) && At(m, way).item == At(t, g).item && 0 <= to <= |At(m, way).kids|
    ensures var p, tp := At(t, Up(a)).item, At(t, g).item;
            var ks := Without(At(t, Up(a)).kids, Last(a));
            var m := Update(t, Up(a), ks);
            var ts := With(At(m, way).kids, to, At(t, a));
            var n := Update(m, way, ts);
            && Distinct(Items(n)) && n.item == t.item && (forall x :: x in Items(n) ==> x in Items(t))
            && Roots(ts) == With(Roots(At(m, way).kids), to, At(t, a).item)
            && forall r :: r in Rows(n) ==>
                 r == Row(p, Roots(ks)) || r == Row(tp, Roots(ts)) || (r in Rows(t) && r.item != p && r.item != tp)
  {
    hide At, IsPath, Items, Rows, Update, Without, With, Distinct;
    AwayTree(t, a, g);
    var m := Update(t, Up(a), Without(At(t, Up(a)).kids, Last(a)));
    Graft(m, way, to, At(t, a));
    RootsWith(At(m, way).kids, to, At(t, a));
  }

  /** The new parent has the children it had. */
  lemma AwayKids(t: Tree<TreeItem>, a: seq<nat>, g: seq<nat>, way: seq<nat>)
    requires IsPath(t, a) && a != [] && IsPath(t, g) && Distinct(Items(t)) && !(a <= g) && g != Up(a)
    requires IsPath(t, Up(a)) && Last(a) < |At(t, Up(a)).kids| && At(t, Up(a)).kids[Last(a)] == At(t, a)
    requires var m := Update(t, Up(a), Without(At(t, Up(a)).kids, Last(a)));
             IsPath(m, way) && At(m, way).item == At(t, g).item
    requires forall r :: r in Rows(t) ==> RowOk(r)
    ensures var m := Update(t, Up(a), Without(At(t, Up(a)).kids, Last(a)));
            At(t, g).item.children == Roots(At(m, way).kids)
  {
    hide At, IsPath, Items, Rows, Update, Without, Distinct;
    AwayTree(t, a, g);
    var m := Update(t, Up(a), Without(At(t, Up(a)).kids, Last(a)));
    PlaceItem(m, way);
    assert RowOk(Row(At(t, g).item, Roots(At(m, way).kids)));
  }

  /** To a place in a family that is not below the item. The new parent is found at `way` in the
      tree without the item. */
  method MoveAway(me: TreeItem, item: TreeItem, op: Where, ghost t: Tree<TreeItem>, ghost a: seq<nat>,
                  ghost b: seq<nat>)
    returns (ret: int, ghost n: Tree<TreeItem>, ghost way: seq<nat>)
    requires LinkedTree(t) && MoveArgs(me, item, op, t, a, b) && Up(a) != Target(b, op) && !(a <= Target(b, op))
    modifies Items(t)`children, Items(t)`prevSibling, Items(t)`nextSibling, Items(t)`parent
    ensures forall x :: x in Items(n) ==> x in Items(t)
    ensures LinkedTree(n) && IsPath(t, Up(a)) && Last(a) < |At(t, Up(a)).kids| && IsPath(t, Target(b, op))
    ensures var m := Update(t, Up(a), Without(At(t, Up(a)).kids, Last(a)));
            var to := PlaceAsked(b, op);
            && IsPath(m, way) && At(m, way).item == At(t, Target(b, op)).item
            && if to < 0 then ret == -2 && n == t
               else if to > |At(m, way).kids| then ret == -4 && n == t
               else ret == 0 && n == Update(m, way, With(At(m, way).kids, to, At(t, a)))
  {
    hide Rows, At, IsPath, Update, Items, Family, LinkedTree, RowOk, Distinct, With, Without;
    MoveReady(me, item, op, t, a, b);
    ghost var q, g, from, to := Up(a), Target(b, op), Last(a), PlaceAsked(b, op);
    ghost var ks := Without(At(t, q).kids, from);
    ghost var m := Update(t, q, ks);
    LinkedRows(t);
    AwayTree(t, a, g);
    way := PathOf(m, At(t, g).item);
    AwayKids(t, a, g, way);
    FamilyAt(t, g);
    RootsWithout(At(t, q).kids, from);
    ret := MoveInLines(me, item, op, t, q, g, from, to);
    if ret < 0 {
      n := t;
    } else {
      AwayGraft(t, a, g, way, to);
      n := Update(m, way, With(At(m, way).kids, to, At(t, a)));
      OwnRow(At(t, q).item, Roots(ks));
      OwnRow(At(t, g).item, Roots(With(At(m, way).kids, to, At(t, a))));
    }
    RowsLinked(n);
  }

  // ----- moving an item below itself

  /** Going up from each leads to the one before, and from the first to the last. */
  ghost predicate IsLoop(ring: seq<TreeItem>)
    reads ring`parent
  {
    ring != [] && ring[0].parent == ring[|ring| - 1]
    && forall i :: 0 < i < |ring| ==> ring[i].parent == ring[i - 1]
  }

  lemma ParentOf(t: Tree<TreeItem>, p: seq<nat>)
    requires LinkedTree(t) && IsPath(t, p)
    ensures if p == [] then At(t, p).item.parent == null
            else IsPath(t, Up(p)) && At(t, p).item.parent == At(t, Up(p)).item
  {
    hide LinkedTree, Rows, Items;
    if p == [] {
      LinkedRoot(t);
    } else {
      PathUp(t, p);
      FamilyAt(t, Up(p));
      assert At(t, p).item in At(t, Up(p)).item.children;
    }
  }

  lemma {:induction false} LoopPath(t: Tree<TreeItem>, ring: seq<TreeItem>, c: seq<nat>, j: nat) returns (p: seq<nat>)
    requires LinkedTree(t) && IsLoop(ring) && j < |ring|
    requires IsPath(t, c) && At(t, c).item == ring[|ring| - 1]
    ensures IsPath(t, p) && At(t, p).item == ring[j] && |p| + (|ring| - 1 - j) == |c|
    decreases |ring| - j
  {
    hide LinkedTree;
    if j == |ring| - 1 {
      p := c;
    } else {
      var r := LoopPath(t, ring, c, j + 1);
      assert ring[j + 1].parent == ring[j];
      ParentOf(t, r);
      p := Up(r);
    }
  }

  /** Items that go up in a loop are in no linked tree. */
  lemma LoopInNoTree(t: Tree<TreeItem>, ring: seq<TreeItem>)
    requires LinkedTree(t) && IsLoop(ring)
    ensures ring[0] !in Items(t)
  {
    hide LinkedTree, Rows;
    if ring[0] in Items(t) {
      LinkedRoot(t);
      var x := ring[0];
      var p := PathOf(t, x);
      assert At(t, p).item == x && x.parent == ring[|ring| - 1];
      ParentOf(t, p);
      var r := LoopPath(t, ring, Up(p), 0);
      OnePath(t, p, r);
    }
  }

  /** The items from one on the way down to another, which is below it. */
  ghost function Chain(t: Tree<TreeItem>, a: seq<nat>, g: seq<nat>): (ring: seq<TreeItem>)
    requires IsPath(t, g) && a <= g
    ensures |ring| == |g| - |a| + 1
  {
    seq(|g| - |a| + 1, i requires 0 <= i <= |g| - |a| => ChainPath(t, a, g, i); At(t, g[..|a| + i]).item)
  }

  lemma ChainPath(t: Tree<TreeItem>, a: seq<nat>, g: seq<nat>, i: nat)
    requires IsPath(t, g) && a <= g && i <= |g| - |a|
    ensures IsPath(t, g[..|a| + i]) && (i == 0 ==> g[..|a| + i] == a) && (i == |g| - |a| ==> g[..|a| + i] == g)
  {
    assert g == g[..|a| + i] + g[|a| + i..];
    PathPrefix(t, g[..|a| + i], g[|a| + i..]);
  }

  lemma LongerPath(t: Tree<TreeItem>, p: seq<nat>, q: seq<nat>)
    requires Distinct(Items(t)) && IsPath(t, p) && IsPath(t, q) && |q| < |p|
    ensures At(t, p).item != At(t, q).item
  {
    if At(t, p).item == At(t, q).item {
      OnePath(t, p, q);
    }
  }

  /** In a line the move does not touch, a child has its parent. */
  lemma ParentKept(t: Tree<TreeItem>, p: seq<nat>, a: seq<nat>, g: seq<nat>)
    requires IsPath(t, p) && IsPath(t, a) && IsPath(t, g) && Distinct(Items(t)) && |a| + 1 < |p| <= |g|
    requires forall r :: r in Rows(t) && r.item != At(t, a).item && r.item != At(t, g).item ==> RowOk(r)
    ensures IsPath(t, Up(p)) && At(t, p).item.parent == At(t, Up(p)).item
  {
    hide Rows, Items, At, IsPath, Place, Distinct, Family;
    PathUp(t, p);
    LongerPath(t, Up(p), a);
    LongerPath(t, g, Up(p));
    PlaceItem(t, Up(p));
    var y := At(t, Up(p)).item;
    assert RowOk(Row(y, Roots(At(t, Up(p)).kids)));
    ChildOf(y, At(t, p).item, Last(p));
  }

  /** Along the way each item is the parent of the next. */
  lemma ChainStep(t: Tree<TreeItem>, a: seq<nat>, g: seq<nat>, i: nat)
    requires IsPath(t, g) && a <= g && a != [] && IsPath(t, Up(a)) && Distinct(Items(t)) && 0 < i <= |g| - |a|
    requires forall r :: r in Rows(t) && r.item != At(t, Up(a)).item && r.item != At(t, g).item ==> RowOk(r)
    ensures Chain(t, a, g)[i].parent == Chain(t, a, g)[i - 1]
  {
    hide Rows, Items, At, IsPath, Place, Distinct, RowOk, Chain;
    var p, q := g[..|a| + i], g[..|a| + i - 1];
    ChainAt(t, a, g, i);
    ChainAt(t, a, g, i - 1);
    UpOfPrefix(g, |a| + i);
    ParentKept(t, p, Up(a), g);
  }

  lemma UpOfPrefix(g: seq<nat>, k: nat)
    requires 0 < k <= |g|
    ensures g[..k] != [] && Up(g[..k]) == g[..k - 1]
  {
  }

  lemma ChainAt(t: Tree<TreeItem>, a: seq<nat>, g: seq<nat>, i: nat)
    requires IsPath(t, g) && a <= g && i <= |g| - |a|
    ensures IsPath(t, g[..|a| + i]) && Chain(t, a, g)[i] == At(t, g[..|a| + i]).item
  {
    ChainPath(t, a, g, i);
  }

  lemma ChildOf(p: TreeItem, x: TreeItem, i: nat)
    requires Family(p) && i < |p.children| && p.children[i] == x
    ensures x.parent == p
  {
    assert x in p.children;
  }

  lemma ChainEnds(t: Tree<TreeItem>, a: seq<nat>, g: seq<nat>)
    requires IsPath(t, g) && a <= g
    ensures IsPath(t, a)
    ensures var ring := Chain(t, a, g); ring[0] == At(t, a).item && ring[|ring| - 1] == At(t, g).item
  {
    ChainPath(t, a, g, 0);
    ChainPath(t, a, g, |g| - |a|);
  }

  lemma InsideTree(t: Tree<TreeItem>, a: seq<nat>, g: seq<nat>)
    requires IsPath(t, a) && a != [] && IsPath(t, g) && Distinct(Items(t)) && a <= g
    requires IsPath(t, Up(a)) && Last(a) < |At(t, Up(a)).kids| && At(t, Up(a)).kids[Last(a)] == At(t, a)
    ensures var p, tp := At(t, Up(a)).item, At(t, g).item;
            var ks := Without(At(t, Up(a)).kids, Last(a));
            var m := Update(t, Up(a), ks);
            && p != tp && Distinct(Items(m)) && m.item == t.item && (forall x :: x in Items(m) ==> x in Items(t))
            && (forall x :: x in Items(At(t, a)) ==> x !in Items(m))
            && forall r :: r in Rows(m) ==> r == Row(p, Roots(ks)) || (r in Rows(t) && r.item != p && r.item != tp)
  {
    hide At, IsPath, Items, Rows, Update, Without, Distinct, Bag;
    var q, k := Up(a), Last(a);
    var m := Update(t, q, Without(At(t, q).kids, k));
    PruneApart(t, q, k);
    BagWithout(At(t, q).kids, k);
    WithoutFrom(At(t, q).kids, k);
    Reorder(t, q, Without(At(t, q).kids, k));
    Through(t, a, g);
    if At(t, q).item == At(t, g).item {
      OnePath(t, q, g);
    }
    forall r | r in Rows(m)
      ensures r.item != At(t, g).item
    {
      RowItems(m, r);
    }
  }

  /** To a place below itself, which nothing forbids: the item and what is below it drop out of the
      tree and, going up, lead back to the item. */
  method MoveInside(me: TreeItem, item: TreeItem, op: Where, ghost t: Tree<TreeItem>, ghost a: seq<nat>,
                    ghost b: seq<nat>)
    returns (ret: int, ghost n: Tree<TreeItem>, ghost ring: seq<TreeItem>)
    requires LinkedTree(t) && MoveArgs(me, item, op, t, a, b) && a <= Target(b, op)
    modifies Items(t)`children, Items(t)`prevSibling, Items(t)`nextSibling, Items(t)`parent
    ensures forall x :: x in Items(n) ==> x in Items(t)
    ensures LinkedTree(n) && IsPath(t, Up(a)) && Last(a) < |At(t, Up(a)).kids| && IsPath(t, Target(b, op))
    ensures var to := PlaceAsked(b, op);
            if to < 0 then ret == -2 && n == t
            else if to > |At(t, Target(b, op)).kids| then ret == -4 && n == t
            else && ret == 0 && n == Update(t, Up(a), Without(At(t, Up(a)).kids, Last(a)))
                 && (forall x :: x in Items(At(t, a)) ==> x !in Items(n))
                 && IsLoop(ring) && ring[0] == me
  {
    hide Rows, At, IsPath, Update, Items, Family, LinkedTree, RowOk, Distinct, With, Without, IsLoop, Chain;
    MoveReady(me, item, op, t, a, b);
    ghost var q, g, from, to := Up(a), Target(b, op), Last(a), PlaceAsked(b, op);
    ghost var ks := Without(At(t, q).kids, from);
    LinkedRoot(t);
    InsideTree(t, a, g);
    ChainEnds(t, a, g);
    ring := Chain(t, a, g);
    RootsWithout(At(t, q).kids, from);
    ret := MoveInLines(me, item, op, t, q, g, from, to);
    if ret < 0 {
      n := t;
    } else {
      n := Update(t, q, ks);
      OwnRow(At(t, q).item, Roots(ks));
      NewParent(At(t, g).item, me, to, Roots(At(t, g).kids));
      ChainKept(t, a, g);
      LoopClosed(ring);
    }
    RowsLinked(n);
  }

  lemma ChainKept(t: Tree<TreeItem>, a: seq<nat>, g: seq<nat>)
    requires IsPath(t, g) && a <= g && a != [] && IsPath(t, Up(a)) && Distinct(Items(t))
    requires forall r :: r in Rows(t) && r.item != At(t, Up(a)).item && r.item != At(t, g).item ==> RowOk(r)
    ensures var ring := Chain(t, a, g); forall i :: 0 < i < |ring| ==> ring[i].parent == ring[i - 1]
  {
    hide Rows, Items, At, IsPath, Chain, Distinct, RowOk;
    var ring := Chain(t, a, g);
    forall i | 0 < i < |ring|
      ensures ring[i].parent == ring[i - 1]
    {
      ChainStep(t, a, g, i);
    }
  }

  lemma NewParent(p: TreeItem, x: TreeItem, k: int, cs: seq<TreeItem>)
    requires Family(p) && 0 <= k <= |cs| && p.children == With(cs, k, x)
    ensures x.parent == p
  {
    ChildOf(p, x, k);
  }

  lemma LoopClosed(ring: seq<TreeItem>)
    requires ring != [] && ring[0].parent == ring[|ring| - 1]
    requires forall i :: 0 < i < |ring| ==> ring[i].parent == ring[i - 1]
    ensures IsLoop(ring)
  {
  }
}
