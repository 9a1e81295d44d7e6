/** Whole trees in memory: every finite tree has a shape, line by line its items are families. */
module LinkedTrees {
  import opened Sequences
  import opened TreeFlags
  import opened Trees
  import opened TreeItems
  import opened TreeFamilies

  /** The items of `t` are linked in all directions as `t` says, and the root is alone. */
  ghost predicate LinkedTree(t: Tree<TreeItem>)
    reads Items(t)`children, Items(t)`parent, Items(t)`prevSibling, Items(t)`nextSibling
  {
    Linked(Items(t), Shape(t))
  }

  // ----- line by line

  ghost predicate RowShaped(r: Row<TreeItem>)
    reads r.item`children
  {
    r.item.children == r.kids
  }

  ghost predicate RowOk(r: Row<TreeItem>)
    reads r.item`children
    reads r.item.children`parent, r.item.children`prevSibling, r.item.children`nextSibling
  {
    RowShaped(r) && Family(r.item)
  }

  ghost predicate Alone(x: TreeItem)
    reads x`parent, x`prevSibling, x`nextSibling
  {
    x.parent == null && x.prevSibling == null && x.nextSibling == null
  }

  /** What stands at the place of a path. */
  lemma PlaceItem(t: Tree<TreeItem>, p: seq<nat>)
    requires IsPath(t, p)
    ensures Place(t, p) < |Items(t)| == |Shape(t)| && Items(t)[Place(t, p)] == At(t, p).item
    ensures Row(At(t, p).item, Roots(At(t, p).kids)) in Rows(t)
  {
    ItemAt(t, p);
  }

  /** The i-th child stands at the place the shape has for it. */
  lemma KidItem(t: Tree<TreeItem>, p: seq<nat>, i: nat)
    requires IsPath(t, p) && i < |At(t, p).kids|
    ensures Nth(Items(t), KidPlaces(t, p)[i]) == At(t, p).kids[i].item
  {
    KidPlace(t, p, i);
    ItemAt(t, p + [i]);
  }

  lemma ChildrenAt(t: Tree<TreeItem>, p: seq<nat>)
    requires IsPath(t, p) && forall r :: r in Rows(t) ==> RowShaped(r)
    ensures Place(t, p) < |Items(t)| == |Shape(t)| && ChildrenOk(Items(t), Shape(t), Place(t, p))
  {
    hide Rows, At, Place, IsPath, Items, Shape, KidPlaces, DownOk;
    PlaceItem(t, p);
    NodeOkBelow(t, p);
    assert RowShaped(Row(At(t, p).item, Roots(At(t, p).kids)));
    forall i | 0 <= i < |At(t, p).kids|
      ensures At(t, p).item.children[i] == Nth(Items(t), KidPlaces(t, p)[i])
    {
      KidItem(t, p, i);
    }
  }

  /** The lines are as in memory and no item comes twice: then the items have the shape. */
  lemma RowsShaped(t: Tree<TreeItem>)
    requires Distinct(Items(t)) && forall r :: r in Rows(t) ==> RowShaped(r)
    ensures Shaped(Items(t), Shape(t))
  {
    hide Items, Shape, ChildrenOk, ShapeOk;
    ShapeIsOk(t);
    forall k | 0 <= k < |Rows(t)|
      ensures |Items(t)| == |Shape(t)| == |Rows(t)| && ChildrenOk(Items(t), Shape(t), k)
    {
      ChildrenAt(t, Path(t, k));
    }
  }

  lemma LinksAt(t: Tree<TreeItem>, p: seq<nat>)
    requires IsPath(t, p) && Alone(t.item) && forall r :: r in Rows(t) ==> RowOk(r)
    ensures Place(t, p) < |Items(t)| == |Shape(t)|
    ensures ParentOk(Items(t), Shape(t), Place(t, p)) && SiblingsOk(Items(t), Shape(t), Place(t, p))
  {
    hide Rows, At, Place, IsPath, Items, Shape, KidPlaces, UpOk;
    PlaceItem(t, p);
    if p == [] {
      RootIsAll(t);
      RootOk(t);
      RootLinks(t);
    } else {
      PathUp(t, p);
      var q, i := p[..|p| - 1], p[|p| - 1];
      KidPlace(t, q, i);
      KidLinksAt(t, q, i);
    }
  }

  lemma RootLinks(t: Tree<TreeItem>)
    requires Alone(t.item)
    ensures |Items(t)| == |Shape(t)| > 0 && ParentOk(Items(t), Shape(t), 0) && SiblingsOk(Items(t), Shape(t), 0)
  {
    RootOk(t);
  }

  lemma KidLinksAt(t: Tree<TreeItem>, q: seq<nat>, i: nat)
    requires IsPath(t, q) && i < |At(t, q).kids| && forall r :: r in Rows(t) ==> RowOk(r)
    ensures var k := KidPlaces(t, q)[i];
            && 0 <= k < |Items(t)| == |Shape(t)|
            && ParentOk(Items(t), Shape(t), k) && SiblingsOk(Items(t), Shape(t), k)
  {
    hide Rows, At, Place, IsPath, Items, Shape, KidPlaces;
    PlaceItem(t, q);
    var x, ts := At(t, q).item, At(t, q).kids;
    assert RowOk(Row(x, Roots(ts)));
    KidNode(t, q, i);
    KidItem(t, q, i);
    assert x.children[i] == ts[i].item;
    assert PairOk(x.children, i) && PairOk(x.children, i - 1);
    if i > 0 {
      KidItem(t, q, i - 1);
    }
    if i + 1 < |ts| {
      KidItem(t, q, i + 1);
    }
  }

  /** Every line is a family and no item comes twice: then the tree is linked. */
  lemma RowsLinked(t: Tree<TreeItem>)
    requires Distinct(Items(t)) && Alone(t.item) && forall r :: r in Rows(t) ==> RowOk(r)
    ensures LinkedTree(t)
  {
    hide Items, Shape, Shaped, ParentOk, SiblingsOk;
    assert forall r :: r in Rows(t) ==> RowOk(r) ==> RowShaped(r);
    RowsShaped(t);
    forall k | 0 <= k < |Rows(t)|
      ensures |Items(t)| == |Shape(t)| == |Rows(t)|
      ensures ParentOk(Items(t), Shape(t), k) && SiblingsOk(Items(t), Shape(t), k)
    {
      LinksAt(t, Path(t, k));
    }
  }

  /** ... and the other way round. */
  lemma LinkedRows(t: Tree<TreeItem>)
    requires LinkedTree(t)
    ensures Distinct(Items(t)) && Alone(t.item)
    ensures forall r :: r in Rows(t) ==> RowOk(r)
  {
    hide Rows, Shape, Linked, Parented, Shaped;
    LinkedRoot(t);
    forall r | r in Rows(t)
      ensures RowOk(r)
    {
      var k :| 0 <= k < |Rows(t)| && Rows(t)[k] == r;
      LinkedRow(t, Path(t, k));
      ItemAt(t, Path(t, k));
    }
  }

  lemma LinkedRoot(t: Tree<TreeItem>)
    requires LinkedTree(t)
    ensures Distinct(Items(t)) && Alone(t.item)
  {
    var o, s := Items(t), Shape(t);
    RootOk(t);
    assert ParentOk(o, s, 0) && SiblingsOk(o, s, 0);
    forall i, j | 0 <= i < j < |o|
      ensures o[i] != o[j]
    {
      assert Apart(o, i, j);
    }
  }

  lemma LinkedRow(t: Tree<TreeItem>, p: seq<nat>)
    requires LinkedTree(t) && IsPath(t, p)
    ensures RowOk(Row(At(t, p).item, Roots(At(t, p).kids)))
  {
    hide Rows, At, Place, IsPath, Items, KidPlaces, DownOk, Family, Shape;
    PlaceItem(t, p);
    NodeOkBelow(t, p);
    var k := Place(t, p);
    LinkedFamilies(Items(t), Shape(t), k);
    assert ChildrenOk(Items(t), Shape(t), k);
    forall i | 0 <= i < |At(t, p).kids|
      ensures At(t, p).kids[i].item == Nth(Items(t), KidPlaces(t, p)[i])
    {
      KidItem(t, p, i);
    }
  }

  // ----- every finite tree

  /** Items with children of lower rank, each child having one parent: what `up` says. */
  ghost predicate Finite(rank: map<TreeItem, nat>, up: map<TreeItem, TreeItem>)
    reads rank.Keys`children
  {
    forall x, c :: x in rank && c in x.children ==> c in rank && rank[c] < rank[x] && c in up && up[c] == x
  }

  ghost function TreeOf(x: TreeItem, rank: map<TreeItem, nat>, up: map<TreeItem, TreeItem>): (t: Tree<TreeItem>)
    requires x in rank && Finite(rank, up)
    reads rank.Keys`children
    ensures t.item == x
    decreases rank[x]
  {
    Tree(x, TreesOf(x.children, rank, up, rank[x]))
  }

  ghost function TreesOf(cs: seq<TreeItem>, rank: map<TreeItem, nat>, up: map<TreeItem, TreeItem>, n: nat)
    : (ts: seq<Tree<TreeItem>>)
    requires Finite(rank, up) && forall c :: c in cs ==> c in rank && rank[c] < n
    reads rank.Keys`children
    ensures |ts| == |cs| && forall i :: 0 <= i < |cs| ==> ts[i] == TreeOf(cs[i], rank, up)
    decreases n, |cs|
  {
    if cs == [] then [] else [TreeOf(cs[0], rank, up)] + TreesOf(cs[1..], rank, up, n)
  }

  /** Whatever stands in that tree is the tree of its item. */
  lemma {:induction false} TreeOfAt(x: TreeItem, rank: map<TreeItem, nat>, up: map<TreeItem, TreeItem>, p: seq<nat>)
    requires x in rank && Finite(rank, up) && IsPath(TreeOf(x, rank, up), p)
    ensures var y := At(TreeOf(x, rank, up), p).item;
            && y in rank && At(TreeOf(x, rank, up), p) == TreeOf(y, rank, up)
            && (p == [] || rank[y] < rank[x])
    decreases |p|
  {
    if p != [] {
      TreeOfAt(x.children[p[0]], rank, up, p[1..]);
    }
  }

  /** Going up from the item of a path leads to the item of the path without its last step. */
  lemma UpFrom(root: TreeItem, rank: map<TreeItem, nat>, up: map<TreeItem, TreeItem>, p: seq<nat>)
    requires root in rank && Finite(rank, up) && IsPath(TreeOf(root, rank, up), p) && p != []
    ensures var t, q, i := TreeOf(root, rank, up), p[..|p| - 1], p[|p| - 1];
            && p == q + [i] && IsPath(t, q)
            && var x, y := At(t, q).item, At(t, p).item;
               x in rank && i < |x.children| && x.children[i] == y && y in up && up[y] == x && rank[y] < rank[root]
  {
    hide Rows;
    var t := TreeOf(root, rank, up);
    PathUp(t, p);
    TreeOfAt(root, rank, up, p);
    TreeOfAt(root, rank, up, p[..|p| - 1]);
  }

  /** An item stands in one place, because going up from it leads one way. */
  lemma {:induction false} OneWayUp(root: TreeItem, rank: map<TreeItem, nat>, up: map<TreeItem, TreeItem>,
                                    p: seq<nat>, q: seq<nat>)
    requires root in rank && Finite(rank, up) && forall x :: x in rank ==> Distinct(x.children)
    requires var t := TreeOf(root, rank, up);
             IsPath(t, p) && IsPath(t, q) && At(t, p).item == At(t, q).item
    ensures p == q
    decreases |p|
  {
    var t := TreeOf(root, rank, up);
    RootIsAll(t);
    hide At, IsPath, TreeOf, Finite;
    if p != [] {
      UpFrom(root, rank, up, p);
    }
    if q != [] {
      UpFrom(root, rank, up, q);
    }
    if p != [] && q != [] {
      OneWayUp(root, rank, up, p[..|p| - 1], q[..|q| - 1]);
    }
  }

  lemma TreeOfRows(root: TreeItem, rank: map<TreeItem, nat>, up: map<TreeItem, TreeItem>)
    requires root in rank && Finite(rank, up) && forall x :: x in rank ==> Distinct(x.children)
    ensures var t := TreeOf(root, rank, up);
            Distinct(Items(t)) && forall r :: r in Rows(t) ==> r.item in rank && RowShaped(r)
  {
    var t := TreeOf(root, rank, up);
    forall r | r in Rows(t)
      ensures r.item in rank && RowShaped(r)
    {
      var k :| 0 <= k < |Rows(t)| && Rows(t)[k] == r;
      ItemAt(t, Path(t, k));
      TreeOfAt(root, rank, up, Path(t, k));
    }
    forall i, j | 0 <= i < j < |Items(t)|
      ensures Items(t)[i] != Items(t)[j]
    {
      ItemAt(t, Path(t, i));
      ItemAt(t, Path(t, j));
      if Items(t)[i] == Items(t)[j] {
        OneWayUp(root, rank, up, Path(t, i), Path(t, j));
      }
    }
  }

  /** Any finite tree of items, whatever their parent and sibling links say, has a shape. */
  lemma EveryFiniteTreeIsShaped(root: TreeItem, rank: map<TreeItem, nat>, up: map<TreeItem, TreeItem>)
    requires root in rank && Finite(rank, up) && forall x :: x in rank ==> Distinct(x.children)
    ensures var t := TreeOf(root, rank, up); t.item == root && Shaped(Items(t), Shape(t))
  {
    hide TreeOf, Finite, Rows;
    TreeOfRows(root, rank, up);
    RowsShaped(TreeOf(root, rank, up));
  }

  /** Any finite tree of families under a root that is alone is linked. */
  lemma EveryFiniteTreeIsLinked(root: TreeItem, rank: map<TreeItem, nat>)
    requires root in rank && Alone(root)
    requires forall x :: x in rank ==> Family(x)
    requires forall x, c :: x in rank && c in x.children ==> c in rank && rank[c] < rank[x]
    ensures var up := map c: TreeItem | c in rank && c.parent != null :: c.parent;
            && Finite(rank, up)
            && var t := TreeOf(root, rank, up); t.item == root && LinkedTree(t)
  {
    hide TreeOf, Rows, Linked, LinkedTree;
    var up := map c: TreeItem | c in rank && c.parent != null :: c.parent;
    assert Finite(rank, up);
    hide Finite;
    TreeOfRows(root, rank, up);
    var t := TreeOf(root, rank, up);
    assert forall r :: r in Rows(t) ==> RowShaped(r) && Family(r.item);
    RowsLinked(t);
  }

  // ----- marking in a tree

  /** The stretch below the place of an item is its subtree. */
  lemma SubtreeStretch(t: Tree<TreeItem>, q: seq<nat>)
    requires IsPath(t, q)
    ensures var k, n := Place(t, q), |Items(At(t, q))|;
            && k + n <= |Items(t)| == |Shape(t)| && ShapeOk(Shape(t)) && TreeItems.Below(Shape(t), k) == k + n
            && Items(t)[k..k + n] == Items(At(t, q))
  {
    hide Rows, At, IsPath, Place, Shape, NodeOk, KidPlaces;
    ShapeIsOk(t);
    ShapeAt(t, q);
    RowsAt(t, q);
    var k, rs := Place(t, q), Rows(At(t, q));
    ItemsStretch(Rows(t), k, rs);
  }

  lemma ItemsStretch(all: seq<Row<TreeItem>>, k: nat, rs: seq<Row<TreeItem>>)
    requires k + |rs| <= |all| && all[k..k + |rs|] == rs
    ensures ItemsIn(all)[k..k + |rs|] == ItemsIn(rs)
  {
    forall i | 0 <= i < |rs| ensures ItemsIn(all)[k + i] == ItemsIn(rs)[i] {
      assert all[k..k + |rs|][i] == all[k + i];
    }
  }

  /** In a linked tree an item is one of the subtree exactly if it stands in its stretch. */
  lemma InSubtree(o: seq<TreeItem>, s: seq<Node>, sub: seq<TreeItem>, k: nat, i: nat)
    requires Shaped(o, s) && k + |sub| <= |o| && o[k..k + |sub|] == sub && i < |o|
    ensures o[i] in sub <==> k <= i < k + |sub|
  {
    if k <= i < k + |sub| {
      assert sub[i - k] == o[i];
    }
    forall j | 0 <= j < |sub| && k + j != i ensures sub[j] != o[i] {
      DifferentPlaces(o, s, k + j, i);
      assert o[k..k + |sub|][j] == o[k + j];
    }
  }

  /** What marking that stretch means for the items. */
  lemma StretchMarked(o: seq<TreeItem>, s: seq<Node>, sub: seq<TreeItem>, k: nat, fs: seq<Flags>, on: bool)
    requires Shaped(o, s) && k + |sub| <= |o| == |fs| && o[k..k + |sub|] == sub
    ensures forall i :: 0 <= i < |o| ==>
              Painted(fs, k, k + |sub|, on)[i] == if o[i] in sub then fs[i].(selected := on) else fs[i]
    ensures 0 <= Count(fs, k, k + |sub|, !on) <= |sub|
    ensures Count(fs, k, k + |sub|, !on) == 0
            <==> forall i :: 0 <= i < |o| && o[i] in sub ==> fs[i].selected == on
  {
    hide Shaped, Count;
    CountZeroIff(fs, k, k + |sub|, !on);
    CountsAddUp(fs, k, k + |sub|);
    forall i | 0 <= i < |o| ensures o[i] in sub <==> k <= i < k + |sub| {
      InSubtree(o, s, sub, k, i);
    }
  }

  /** Selecting or deselecting all, in a linked tree: exactly the items of the subtree change, and the
      answer is 0 only if none does. */
  method MarkSubtree(item: TreeItem, on: bool, ghost t: Tree<TreeItem>, ghost q: seq<nat>, ghost fs: seq<Flags>)
    returns (count: int)
    requires LinkedTree(t) && IsPath(t, q) && At(t, q).item == item && FlagsAre(Items(t), fs)
    modifies Items(t)`flags
    ensures |fs| == |Items(t)|
    ensures forall i :: 0 <= i < |fs| ==>
              Items(t)[i].flags == if Items(t)[i] in Items(At(t, q)) then fs[i].(selected := on) else fs[i]
    ensures 0 <= count <= |Items(At(t, q))|
    ensures count == 0 <==> forall i :: 0 <= i < |fs| && Items(t)[i] in Items(At(t, q)) ==> fs[i].selected == on
  {
    hide Rows, At, IsPath, Place, Items, Shape, Shaped, LinkedTree, Count, Painted, TreeItems.Below;
    hide ShapeOk, ChildrenOk, NodeOk, Roots, RowsOf;
    PlaceItem(t, q);
    SubtreeStretch(t, q);
    LinkedIsShaped(t);
    StretchMarked(Items(t), Shape(t), Items(At(t, q)), Place(t, q), fs, on);
    if on {
      count := SelectAll(item, Items(t), Shape(t), Place(t, q), fs);
    } else {
      count := DeselectAll(item, Items(t), Shape(t), Place(t, q), fs);
    }
  }

  lemma LinkedIsShaped(t: Tree<TreeItem>)
    requires LinkedTree(t)
    ensures Shaped(Items(t), Shape(t))
  {
  }
}
