/** Runs of edits on a tree: through all of them the tree stays linked, and each does what it says. */
module TreeRuns {
  import opened Sequences
  import opened Trees
  import opened TreeUpdates
  import opened TreeItems
  import opened TreeFamilies
  import opened LinkedTrees
  import opened TreeEdits

  /** An edit names items by the numbers of the children that lead to them. */
  datatype TreeOp =
    | InsertAt(at: seq<nat>, pos: int)
    | RemoveAt(at: seq<nat>, index: int)
    | SwapAt(at: seq<nat>, ax: int, bx: int)
    | MoveAt(at: seq<nat>, to: int, from: int)
    | MoveTo(me: seq<nat>, item: seq<nat>, op: Where)

  /** There are two items and a parent of each, as far as the move asks for one. */
  predicate CanMoveTo(t: Tree<TreeItem>, a: seq<nat>, b: seq<nat>, op: Where)
  {
    IsPath(t, a) && IsPath(t, b) && a != [] && !op.BadOp? && (op.Into? || b != [])
  }

  /** The tree after moving the subtree at `a`: among its siblings, below itself (where it is lost),
      or into the family found at `way` in the tree without it. */
  ghost predicate MovedTree(t: Tree<TreeItem>, a: seq<nat>, b: seq<nat>, op: Where, n: Tree<TreeItem>)
    requires CanMoveTo(t, a, b, op)
  {
    PathUp(t, a);
    var ks, from, to := At(t, Up(a)).kids, Last(a), PlaceAsked(b, op);
    var m := Update(t, Up(a), Without(ks, from));
    if Up(a) == Target(b, op) then
      var k := Adjusted(op, |ks|, from, to);
      n == if 0 <= to && 0 <= k < |ks| && k != from then Update(t, Up(a), Moved(ks, k, from)) else t
    else
      IsPath(t, Target(b, op))
      && if a <= Target(b, op) then n == if 0 <= to <= |At(t, Target(b, op)).kids| then m else t
         else
           exists way :: IsPath(m, way) && At(m, way).item == At(t, Target(b, op)).item
                         && n == if 0 <= to <= |At(m, way).kids|
                                 then Update(m, way, With(At(m, way).kids, to, At(t, a)))
                                 else t
  }

  /** What one edit makes of the tree; one that names no item leaves it as it is. */
  ghost predicate StepTo(t: Tree<TreeItem>, op: TreeOp, n: Tree<TreeItem>)
  {
    match op
    case InsertAt(at, pos) =>
      if IsPath(t, at) then
        var ks := At(t, at).kids;
        var k := if pos < 0 then 0 else if pos > |ks| then |ks| else pos;
        IsPath(n, at) && k < |At(n, at).kids|
        && var x := At(n, at).kids[k].item;
           x !in Items(t) && n == Update(t, at, With(ks, k, Tree(x, [])))
      else n == t
    case RemoveAt(at, i) =>
      n == if IsPath(t, at) && 0 <= i < |At(t, at).kids| then Update(t, at, Without(At(t, at).kids, i)) else t
    case SwapAt(at, i, j) =>
      n == if IsPath(t, at) && 0 <= i < |At(t, at).kids| && 0 <= j < |At(t, at).kids|
           then Update(t, at, Swapped(At(t, at).kids, i, j)) else t
    case MoveAt(at, to, from) =>
      n == if IsPath(t, at) && from != to && 0 <= to < |At(t, at).kids| && 0 <= from < |At(t, at).kids|
           then Update(t, at, Moved(At(t, at).kids, to, from)) else t
    case MoveTo(a, b, where) =>
      if CanMoveTo(t, a, b, where) then MovedTree(t, a, b, where, n) else n == t
  }

  /** What each edit does to the children of the item it names. */
  lemma SwapStep(t: Tree<TreeItem>, at: seq<nat>, i: int, j: int, n: Tree<TreeItem>)
    requires StepTo(t, SwapAt(at, i, j), n) && IsPath(t, at)
    ensures if 0 <= i < |At(t, at).kids| && 0 <= j < |At(t, at).kids| then
              && Stands(n, at, i, t, j) && Stands(n, at, j, t, i)
              && forall c :: 0 <= c < |At(t, at).kids| && c != i && c != j ==> Stands(n, at, c, t, c)
            else n == t
  {
    if 0 <= i < |At(t, at).kids| && 0 <= j < |At(t, at).kids| {
      KidsSwapped(t, at, i, j);
    }
  }

  lemma RemoveStep(t: Tree<TreeItem>, at: seq<nat>, k: int, n: Tree<TreeItem>)
    requires StepTo(t, RemoveAt(at, k), n) && IsPath(t, at)
    ensures if 0 <= k < |At(t, at).kids| then
              && IsPath(n, at) && |At(n, at).kids| == |At(t, at).kids| - 1
              && forall c, i :: 0 <= c < |At(t, at).kids| - 1 && i == (if c < k then c else c + 1) ==>
                   Stands(n, at, c, t, i)
            else n == t
  {
    if 0 <= k < |At(t, at).kids| {
      KidsWithout(t, at, k);
    }
  }

  lemma MoveStep(t: Tree<TreeItem>, at: seq<nat>, to: int, from: int, n: Tree<TreeItem>)
    requires StepTo(t, MoveAt(at, to, from), n) && IsPath(t, at)
    ensures if 0 <= to < |At(t, at).kids| && 0 <= from < |At(t, at).kids| && to != from then
              && Stands(n, at, to, t, from)
              && forall c, i :: 0 <= c < |At(t, at).kids| && c != to && i == Shifted(c, to, from) ==>
                   Stands(n, at, c, t, i)
            else n == t
  {
    if 0 <= to < |At(t, at).kids| && 0 <= from < |At(t, at).kids| {
      KidsMoved(t, at, to, from);
    }
  }

  lemma InsertStep(t: Tree<TreeItem>, at: seq<nat>, pos: int, n: Tree<TreeItem>)
    requires StepTo(t, InsertAt(at, pos), n) && IsPath(t, at)
    ensures var ks := At(t, at).kids;
            var k := if pos < 0 then 0 else if pos > |ks| then |ks| else pos;
            && IsPath(n, at) && |At(n, at).kids| == |ks| + 1
            && At(n, at).kids[k].kids == [] && At(n, at).kids[k].item !in Items(t)
            && forall c, i :: 0 <= i < |ks| && c == (if i < k then i else i + 1) ==> Stands(n, at, c, t, i)
  {
    var ks := At(t, at).kids;
    var k := if pos < 0 then 0 else if pos > |ks| then |ks| else pos;
    KidsWith(t, at, k, Tree(At(n, at).kids[k].item, []));
  }

  /** ... and nothing else: away from that item every subtree is as before. */
  lemma StepElsewhere(t: Tree<TreeItem>, op: TreeOp, n: Tree<TreeItem>, p: seq<nat>)
    requires StepTo(t, op, n) && !op.MoveTo? && !(op.at <= p)
    ensures IsPath(n, p) <==> IsPath(t, p)
    ensures IsPath(t, p) ==> At(n, p).item == At(t, p).item && (!(p <= op.at) ==> At(n, p) == At(t, p))
  {
    if IsPath(t, op.at) && n != t {
      var ks := At(t, op.at).kids;
      match op
      case InsertAt(at, pos) =>
        var k := if pos < 0 then 0 else if pos > |ks| then |ks| else pos;
        UpdateElsewhere(t, at, With(ks, k, Tree(At(n, at).kids[k].item, [])), p);
      case RemoveAt(at, i) => UpdateElsewhere(t, at, Without(ks, i), p);
      case SwapAt(at, i, j) => UpdateElsewhere(t, at, Swapped(ks, i, j), p);
      case MoveAt(at, to, from) => UpdateElsewhere(t, at, Moved(ks, to, from), p);
    }
  }

  /** x stands at place p, directly above or below y. */
  predicate Beside<T(==)>(s: seq<T>, p: int, x: T, y: T, op: Where)
  {
    && 0 <= p < |s| && s[p] == x
    && if op.Above? then p + 1 < |s| && s[p + 1] == y else p > 0 && s[p - 1] == y
  }

  /** Moved above or below a sibling, an item comes to stand directly above or below it. */
  lemma SiblingStep(t: Tree<TreeItem>, a: seq<nat>, b: seq<nat>, op: Where, n: Tree<TreeItem>)
    requires CanMoveTo(t, a, b, op) && StepTo(t, MoveTo(a, b, op), n) && b != [] && Up(a) == Up(b) && a != b
    requires op.Above? || op.Below?
    ensures IsPath(n, Up(a)) && exists p :: Beside(At(n, Up(a)).kids, p, At(t, a), At(t, b), op)
  {
    hide At, IsPath, Update, Moved;
    PathUp(t, a);
    PathUp(t, b);
    var ks, from, to := At(t, Up(a)).kids, Last(a), Last(b);
    assert a == Up(a) + [from] && b == Up(b) + [to];
    var p := Adjusted(op, |ks|, from, to);
    SiblingMovesLand(ks, op, from, to);
    MovedHere(ks, from);
    UpdateAt(t, Up(a), Moved(ks, p, from));
    assert At(n, Up(a)).kids == Moved(ks, p, from);
    assert Beside(Moved(ks, p, from), p, At(t, a), At(t, b), op);
  }

  lemma MovedHere<T>(s: seq<T>, k: int)
    requires 0 <= k < |s|
    ensures Moved(s, k, k) == s
  {
  }

  /** A family that the moved subtree does not come from, and is not in, keeps its children. */
  lemma FamilyStays(t: Tree<TreeItem>, a: seq<nat>, g: seq<nat>, way: seq<nat>)
    requires IsPath(t, a) && a != [] && IsPath(t, g) && g != Up(a) && Distinct(Items(t))
    requires IsPath(t, Up(a)) && Last(a) < |At(t, Up(a)).kids|
    requires var m := Update(t, Up(a), Without(At(t, Up(a)).kids, Last(a)));
             IsPath(m, way) && At(m, way).item == At(t, g).item
    ensures var m := Update(t, Up(a), Without(At(t, Up(a)).kids, Last(a)));
            Roots(At(m, way).kids) == Roots(At(t, g).kids)
  {
    hide At, IsPath, Update, Rows, Place;
    var ks := Without(At(t, Up(a)).kids, Last(a));
    var m := Update(t, Up(a), ks);
    ItemAt(m, way);
    ItemAt(t, g);
    ItemAt(t, Up(a));
    var r := Row(At(m, way).item, Roots(At(m, way).kids));
    WithoutFrom(At(t, Up(a)).kids, Last(a));
    if At(t, g).item == At(t, Up(a)).item {
      OnePath(t, g, Up(a));
    }
    LinesFromKids(t, Up(a), ks, t, r);
    var i :| 0 <= i < |Rows(t)| && Rows(t)[i] == r;
    assert Items(t)[i] == Items(t)[Place(t, g)];
  }

  /** Moved into another family, an item stands where it was asked to: for above and for below alike,
      directly above the item named. */
  lemma ForeignStep(t: Tree<TreeItem>, a: seq<nat>, b: seq<nat>, op: Where, n: Tree<TreeItem>)
    requires CanMoveTo(t, a, b, op) && StepTo(t, MoveTo(a, b, op), n) && Distinct(Items(t))
    requires Up(a) != Target(b, op) && !(a <= Target(b, op))
    ensures IsPath(t, Target(b, op))
    ensures var was, to := At(t, Target(b, op)), PlaceAsked(b, op);
            if !(0 <= to <= |was.kids|) then n == t
            else
              exists way :: IsPath(n, way) && At(n, way).item == was.item && |At(n, way).kids| == |was.kids| + 1
                            && At(n, way).kids[to] == At(t, a)
                            && (!op.Into? ==> to < |was.kids| && At(n, way).kids[to + 1].item == At(t, b).item)
  {
    hide At, IsPath, Update, With, Without;
    PathUp(t, a);
    var g, to := Target(b, op), PlaceAsked(b, op);
    if !op.Into? {
      PathUp(t, b);
    }
    var m := Update(t, Up(a), Without(At(t, Up(a)).kids, Last(a)));
    var way :| IsPath(m, way) && At(m, way).item == At(t, g).item
               && n == if 0 <= to <= |At(m, way).kids|
                       then Update(m, way, With(At(m, way).kids, to, At(t, a)))
                       else t;
    FamilyStays(t, a, g, way);
    assert |At(m, way).kids| == |Roots(At(m, way).kids)|;
    if 0 <= to <= |At(t, g).kids| {
      var ks := At(m, way).kids;
      WithAt(ks, to, At(t, a));
      UpdateAt(m, way, With(ks, to, At(t, a)));
      if !op.Into? {
        assert Roots(ks)[to] == Roots(At(t, g).kids)[to];
        assert With(ks, to, At(t, a))[to + 1] == ks[to];
      }
    }
  }

  /** Moved into the parent it has, an item comes to stand at the place asked for. */
  lemma IntoOwnStep(t: Tree<TreeItem>, a: seq<nat>, b: seq<nat>, pos: int, n: Tree<TreeItem>)
    requires CanMoveTo(t, a, b, Into(pos)) && StepTo(t, MoveTo(a, b, Into(pos)), n) && Up(a) == b
    ensures if 0 <= pos < |At(t, b).kids| then IsPath(n, b) && pos < |At(n, b).kids| && At(n, b).kids[pos] == At(t, a)
            else n == t
  {
    hide At, IsPath, Update, Moved;
    PathUp(t, a);
    var ks, from := At(t, b).kids, Last(a);
    if 0 <= pos < |ks| {
      MovedHere(ks, from);
      MovedAt(ks, pos, from);
      UpdateAt(t, b, Moved(ks, pos, from));
    }
  }

  /** Moved below itself, a subtree is lost: exactly its items are no longer in the tree. */
  lemma InsideStep(t: Tree<TreeItem>, a: seq<nat>, b: seq<nat>, op: Where, n: Tree<TreeItem>)
    requires CanMoveTo(t, a, b, op) && StepTo(t, MoveTo(a, b, op), n) && Distinct(Items(t)) && a <= Target(b, op)
    ensures IsPath(t, Target(b, op))
    ensures if 0 <= PlaceAsked(b, op) <= |At(t, Target(b, op)).kids|
            then forall x :: x in Items(n) <==> x in Items(t) && x !in Items(At(t, a))
            else n == t
  {
    hide At, IsPath, Update, Items;
    PathUp(t, a);
    PruneApart(t, Up(a), Last(a));
  }

  /** Goes down from the root; null if there is no such item. */
  method Find(root: TreeItem, p: seq<nat>, ghost t: Tree<TreeItem>) returns (x: TreeItem?)
    requires LinkedTree(t) && t.item == root
    ensures x == if IsPath(t, p) then At(t, p).item else null
  {
    hide Rows, At, IsPath, Items, LinkedTree;
    assert allocated(Items(t));
    var cur := root;
    var i := 0;
    RootIsAll(t);
    assert p[..0] == [];
    while i < |p|
      invariant 0 <= i <= |p| && LinkedTree(t) && IsPath(t, p[..i]) && At(t, p[..i]).item == cur
    {
      FamilyAt(t, p[..i]);
      StepDown(t, p, i);
      if p[i] >= |cur.children| {
        return null;
      }
      cur := cur.children[p[i]];
      i := i + 1;
    }
    assert p[..i] == p;
    return cur;
  }

  lemma StepDown(t: Tree<TreeItem>, p: seq<nat>, i: nat)
    requires i < |p| && IsPath(t, p[..i])
    ensures if p[i] < |At(t, p[..i]).kids|
            then IsPath(t, p[..i + 1]) && At(t, p[..i + 1]) == At(t, p[..i]).kids[p[i]]
            else !IsPath(t, p)
  {
    if p[i] < |At(t, p[..i]).kids| {
      PathDown(t, p[..i], p[i]);
      assert p[..i + 1] == p[..i] + [p[i]];
    } else if IsPath(t, p) {
      assert p == p[..i] + p[i..];
      PathPrefix(t, p[..i], p[i..]);
    }
  }

  method PerformInsert(root: TreeItem, at: seq<nat>, pos: int, ghost t: Tree<TreeItem>)
    returns (ghost n: Tree<TreeItem>)
    requires LinkedTree(t) && t.item == root
    modifies Items(t)`children, Items(t)`prevSibling, Items(t)`nextSibling, Items(t)`parent
    ensures LinkedTree(n) && StepTo(t, InsertAt(at, pos), n)
    ensures forall x :: x in Items(n) ==> x in Items(t) || fresh(x)
  {
    hide Rows, At, IsPath, Items, LinkedTree, Update;
    assert allocated(Items(t));
    n := t;
    var p := Find(root, at, t);
    if p != null {
      FamilyAt(t, at);
      var item;
      item, n := InsertChild(p, pos, t, at);
      ghost var ks := At(t, at).kids;
      ghost var k := if pos < 0 then 0 else if pos > |ks| then |ks| else pos;
      UpdateAt(t, at, With(ks, k, Tree(item, [])));
    }
  }

  method PerformRemove(root: TreeItem, at: seq<nat>, index: int, ghost t: Tree<TreeItem>)
    returns (ghost n: Tree<TreeItem>)
    requires LinkedTree(t) && t.item == root
    modifies Items(t)`children, Items(t)`prevSibling, Items(t)`nextSibling, Items(t)`parent
    ensures LinkedTree(n) && StepTo(t, RemoveAt(at, index), n)
    ensures forall x :: x in Items(n) ==> x in Items(t)
  {
    hide Rows, At, IsPath, Items, LinkedTree, Update;
    assert allocated(Items(t));
    n := t;
    var p := Find(root, at, t);
    if p != null {
      FamilyAt(t, at);
      if 0 <= index < |p.children| {
        n := RemoveChild(p, index, t, at);
      }
    }
  }

  method PerformSwap(root: TreeItem, at: seq<nat>, ax: int, bx: int, ghost t: Tree<TreeItem>)
    returns (ghost n: Tree<TreeItem>)
    requires LinkedTree(t) && t.item == root
    modifies Items(t)`children, Items(t)`prevSibling, Items(t)`nextSibling, Items(t)`parent
    ensures LinkedTree(n) && StepTo(t, SwapAt(at, ax, bx), n)
    ensures forall x :: x in Items(n) ==> x in Items(t)
  {
    hide Rows, At, IsPath, Items, LinkedTree, Update;
    assert allocated(Items(t));
    n := t;
    var p := Find(root, at, t);
    if p != null {
      FamilyAt(t, at);
      if 0 <= ax < |p.children| && 0 <= bx < |p.children| {
        n := SwapChildren(p, ax, bx, t, at);
      }
    }
  }

  method PerformMove(root: TreeItem, at: seq<nat>, to: int, from: int, ghost t: Tree<TreeItem>)
    returns (ghost n: Tree<TreeItem>)
    requires LinkedTree(t) && t.item == root
    modifies Items(t)`children, Items(t)`prevSibling, Items(t)`nextSibling, Items(t)`parent
    ensures LinkedTree(n) && StepTo(t, MoveAt(at, to, from), n)
    ensures forall x :: x in Items(n) ==> x in Items(t)
  {
    hide Rows, At, IsPath, Items, LinkedTree, Update;
    assert allocated(Items(t));
    n := t;
    var p := Find(root, at, t);
    if p != null {
      FamilyAt(t, at);
      var ret;
      ret, n := MoveChild(p, to, from, t, at);
    }
  }

  method PerformMoveTo(root: TreeItem, a: seq<nat>, b: seq<nat>, op: Where, ghost t: Tree<TreeItem>)
    returns (ghost n: Tree<TreeItem>)
    requires LinkedTree(t) && t.item == root
    modifies Items(t)`children, Items(t)`prevSibling, Items(t)`nextSibling, Items(t)`parent
    ensures LinkedTree(n) && StepTo(t, MoveTo(a, b, op), n)
    ensures forall x :: x in Items(n) ==> x in Items(t)
  {
    hide Rows, At, IsPath, Items, LinkedTree, Update;
    assert allocated(Items(t));
    n := t;
    var me := Find(root, a, t);
    var item := Find(root, b, t);
    if me != null && item != null && a != [] && !op.BadOp? && (op.Into? || b != []) {
      var ret;
      if Up(a) == Target(b, op) {
        ret, n := MoveAmong(me, item, op, t, a, b);
      } else if a <= Target(b, op) {
        ghost var ring;
        ret, n, ring := MoveInside(me, item, op, t, a, b);
      } else {
        ghost var way;
        ret, n, way := MoveAway(me, item, op, t, a, b);
      }
    }
  }

  method Perform(root: TreeItem, op: TreeOp, ghost t: Tree<TreeItem>) returns (ghost n: Tree<TreeItem>)
    requires LinkedTree(t) && t.item == root
    modifies Items(t)`children, Items(t)`prevSibling, Items(t)`nextSibling, Items(t)`parent
    ensures LinkedTree(n) && n.item == root && StepTo(t, op, n)
    ensures forall x :: x in Items(n) ==> x in Items(t) || fresh(x)
  {
    hide LinkedTree, Items, StepTo;
    match op {
      case InsertAt(at, pos) => n := PerformInsert(root, at, pos, t);
      case RemoveAt(at, i) => n := PerformRemove(root, at, i, t);
      case SwapAt(at, i, j) => n := PerformSwap(root, at, i, j, t);
      case MoveAt(at, to, from) => n := PerformMove(root, at, to, from, t);
      case MoveTo(a, b, where) => n := PerformMoveTo(root, a, b, where, t);
    }
    StepKeepsRoot(t, op, n);
  }

  lemma StepKeepsRoot(t: Tree<TreeItem>, op: TreeOp, n: Tree<TreeItem>)
    requires StepTo(t, op, n)
    ensures n.item == t.item
  {
    hide At, IsPath, Rows, Items;
    match op
    case MoveTo(a, b, where) =>
      if CanMoveTo(t, a, b, where) {
        PathUp(t, a);
        var m := Update(t, Up(a), Without(At(t, Up(a)).kids, Last(a)));
        if Up(a) != Target(b, where) && !(a <= Target(b, where)) {
          var way :| IsPath(m, way) && At(m, way).item == At(t, Target(b, where)).item
                     && n == if 0 <= PlaceAsked(b, where) <= |At(m, way).kids|
                             then Update(m, way, With(At(m, way).kids, PlaceAsked(b, where), At(t, a)))
                             else t;
        }
      }
    case _ =>
  }

  /** Through every run of edits, whatever paths and places they name, the tree stays linked. The
      trees in between are `ts`. */
  method RunEdits(root: TreeItem, ops: seq<TreeOp>, ghost t: Tree<TreeItem>) returns (ghost ts: seq<Tree<TreeItem>>)
    requires LinkedTree(t) && t.item == root
    modifies Items(t)`children, Items(t)`prevSibling, Items(t)`nextSibling, Items(t)`parent
    ensures |ts| == |ops| + 1 && ts[0] == t && LinkedTree(ts[|ops|])
    ensures forall i :: 0 <= i < |ops| ==> StepTo(ts[i], ops[i], ts[i + 1])
  {
    hide LinkedTree, Items, StepTo;
    ghost var cur := t;
    ts := [t];
    var i := 0;
    while i < |ops|
      invariant 0 <= i <= |ops| && |ts| == i + 1 && ts[0] == t && ts[i] == cur
      invariant LinkedTree(cur) && cur.item == root
      invariant forall x :: x in Items(cur) ==> x in Items(t) || fresh(x)
      invariant forall j :: 0 <= j < i ==> StepTo(ts[j], ops[j], ts[j + 1])
    {
      assert forall k :: 0 <= k < |Items(cur)| ==> Items(cur)[k] in Items(t) || fresh(Items(cur)[k]);
      ghost var n := Perform(root, ops[i], cur);
      ts := ts + [n];
      cur := n;
      i := i + 1;
    }
  }
}
