/** Trees as values: their items in drawing order, paths from the root, and what changing the
    children of one item does to the drawing order. */
module Trees {
  import opened Sequences

  datatype Tree<T> = Tree(item: T, kids: seq<Tree<T>>)

  /** One line of the drawing: an item and its children. */
  datatype Row<T> = Row(item: T, kids: seq<T>)

  function Roots<T>(ts: seq<Tree<T>>): (r: seq<T>)
    ensures |r| == |ts| && forall i :: 0 <= i < |ts| ==> r[i] == ts[i].item
  {
    seq(|ts|, i requires 0 <= i < |ts| => ts[i].item)
  }

  /** All lines, each item directly above its children. */
  function Rows<T>(t: Tree<T>): (r: seq<Row<T>>)
    ensures r != [] && r[0] == Row(t.item, Roots(t.kids))
  {
    [Row(t.item, Roots(t.kids))] + RowsOf(t.kids)
  }

  function RowsOf<T>(ts: seq<Tree<T>>): seq<Row<T>>
  {
    if ts == [] then [] else Rows(ts[0]) + RowsOf(ts[1..])
  }

  function ItemsIn<T>(rs: seq<Row<T>>): (o: seq<T>)
    ensures |o| == |rs| && forall k :: 0 <= k < |rs| ==> o[k] == rs[k].item
  {
    seq(|rs|, k requires 0 <= k < |rs| => rs[k].item)
  }

  function Items<T>(t: Tree<T>): (o: seq<T>)
    ensures |o| == |Rows(t)| && forall k :: 0 <= k < |o| ==> o[k] == Rows(t)[k].item
  {
    ItemsIn(Rows(t))
  }

  lemma {:induction false} RowsOfConcat<T>(a: seq<Tree<T>>, b: seq<Tree<T>>)
    ensures RowsOf(a + b) == RowsOf(a) + RowsOf(b)
    decreases |a|
  {
    if a == [] {
      assert a + b == b;
    } else {
      assert (a + b)[1..] == a[1..] + b;
      RowsOfConcat(a[1..], b);
    }
  }

  lemma RowsOfOne<T>(t: Tree<T>)
    ensures RowsOf([t]) == Rows(t)
  {
    assert [t][1..] == [];
    assert RowsOf([t]) == Rows(t) + RowsOf([]);
  }

  lemma RowsOfThree<T>(a: seq<Tree<T>>, t: Tree<T>, c: seq<Tree<T>>)
    ensures RowsOf(a + [t] + c) == RowsOf(a) + Rows(t) + RowsOf(c)
  {
    RowsOfConcat(a + [t], c);
    RowsOfConcat(a, [t]);
    RowsOfOne(t);
  }

  lemma Around<A>(s: seq<A>, i: int)
    requires 0 <= i < |s|
    ensures s[..i] + [s[i]] + s[i + 1..] == s
  {
  }

  lemma RowsOfSplit<T>(ts: seq<Tree<T>>, i: int)
    requires 0 <= i < |ts|
    ensures RowsOf(ts) == RowsOf(ts[..i]) + Rows(ts[i]) + RowsOf(ts[i + 1..])
  {
    hide Rows, RowsOf;
    Around(ts, i);
    RowsOfThree(ts[..i], ts[i], ts[i + 1..]);
  }

  lemma RowsAround<T>(t: Tree<T>, i: int)
    requires 0 <= i < |t.kids|
    ensures Rows(t)
            == [Row(t.item, Roots(t.kids))] + RowsOf(t.kids[..i]) + Rows(t.kids[i]) + RowsOf(t.kids[i + 1..])
  {
    hide RowsOf;
    RowsOfSplit(t.kids, i);
  }

  // ----- paths

  /** The numbers of the children to go down to. */
  predicate IsPath<T>(t: Tree<T>, p: seq<nat>)
    decreases |p|
  {
    p == [] || (p[0] < |t.kids| && IsPath(t.kids[p[0]], p[1..]))
  }

  function At<T>(t: Tree<T>, p: seq<nat>): Tree<T>
    requires IsPath(t, p)
    decreases |p|
  {
    if p == [] then t else At(t.kids[p[0]], p[1..])
  }

  /** The number of lines above. */
  function Place<T>(t: Tree<T>, p: seq<nat>): nat
    requires IsPath(t, p)
    decreases |p|
  {
    if p == [] then 0 else 1 + |RowsOf(t.kids[..p[0]])| + Place(t.kids[p[0]], p[1..])
  }

  /** The lines of a subtree stand together, at its place. */
  lemma {:induction false} RowsAt<T>(t: Tree<T>, p: seq<nat>)
    requires IsPath(t, p)
    ensures var k, rs := Place(t, p), Rows(At(t, p));
            k + |rs| <= |Rows(t)| && Rows(t)[k..k + |rs|] == rs
    decreases |p|
  {
    if p == [] {
    } else {
      hide Rows, RowsOf;
      var i := p[0];
      RowsAt(t.kids[i], p[1..]);
      RowsAround(t, i);
      Within([Row(t.item, Roots(t.kids))] + RowsOf(t.kids[..i]), Rows(t.kids[i]), RowsOf(t.kids[i + 1..]),
        Place(t.kids[i], p[1..]), |Rows(At(t, p))|);
    }
  }

  lemma Within<A>(a: seq<A>, b: seq<A>, c: seq<A>, k: int, n: int)
    requires 0 <= k && 0 <= n && k + n <= |b|
    ensures (a + b + c)[|a| + k..|a| + k + n] == b[k..k + n]
  {
  }

  lemma ItemAt<T>(t: Tree<T>, p: seq<nat>)
    requires IsPath(t, p)
    ensures Place(t, p) < |Rows(t)| && Rows(t)[Place(t, p)] == Row(At(t, p).item, Roots(At(t, p).kids))
    ensures Items(t)[Place(t, p)] == At(t, p).item && At(t, p).item in Items(t)
  {
    RowsAt(t, p);
    var k, rs := Place(t, p), Rows(At(t, p));
    assert Rows(t)[k..k + |rs|][0] == rs[0];
  }

  /** One step further down. */
  lemma {:induction false} PathDown<T>(t: Tree<T>, q: seq<nat>, i: nat)
    requires IsPath(t, q) && i < |At(t, q).kids|
    ensures IsPath(t, q + [i]) && At(t, q + [i]) == At(t, q).kids[i]
    ensures Place(t, q + [i]) == Place(t, q) + 1 + |RowsOf(At(t, q).kids[..i])|
    decreases |q|
  {
    if q == [] {
      assert [i][1..] == [];
      assert q + [i] == [i];
    } else {
      assert (q + [i])[1..] == q[1..] + [i];
      PathDown(t.kids[q[0]], q[1..], i);
    }
  }

  /** One step back up. */
  lemma {:induction false} PathUp<T>(t: Tree<T>, p: seq<nat>)
    requires IsPath(t, p) && p != []
    ensures var q, i := p[..|p| - 1], p[|p| - 1];
            && p == q + [i] && IsPath(t, q) && i < |At(t, q).kids| && At(t, q).kids[i] == At(t, p)
    decreases |p|
  {
    if |p| == 1 {
      assert p[1..] == [];
    } else {
      var r := p[1..];
      PathUp(t.kids[p[0]], r);
      assert p[..|p| - 1][1..] == r[..|r| - 1];
    }
  }

  /** After a child comes the next child, or what comes after the parent's last. */
  lemma AfterChild<T>(t: Tree<T>, q: seq<nat>, i: nat)
    requires IsPath(t, q) && i < |At(t, q).kids|
    ensures IsPath(t, q + [i]) && At(t, q + [i]) == At(t, q).kids[i]
    ensures var n := Place(t, q + [i]) + |Rows(At(t, q).kids[i])|;
            if i + 1 < |At(t, q).kids| then IsPath(t, q + [i + 1]) && Place(t, q + [i + 1]) == n
            else Place(t, q) + |Rows(At(t, q))| == n
  {
    hide RowsOf;
    var ts := At(t, q).kids;
    PathDown(t, q, i);
    RowsOfSplit(ts, i);
    if i + 1 < |ts| {
      PathDown(t, q, i + 1);
      assert ts[..i + 1] == ts[..i] + [ts[i]];
      RowsOfConcat(ts[..i], [ts[i]]);
      RowsOfOne(ts[i]);
    } else {
      assert ts[i + 1..] == [];
      NoRows<T>();
    }
  }

  lemma NoRows<T>()
    ensures RowsOf<T>([]) == []
  {
  }

  /** Every line is that of some path. */
  lemma {:induction false} PathTo<T>(t: Tree<T>, k: nat) returns (p: seq<nat>)
    requires k < |Rows(t)|
    ensures IsPath(t, p) && Place(t, p) == k
    decreases t, 0
  {
    p := [];
    if k > 0 {
      var i, r := PathInto(t.kids, k - 1);
      p := [i] + r;
      assert p[1..] == r;
    }
  }

  lemma {:induction false} PathInto<T>(ts: seq<Tree<T>>, k: nat) returns (i: nat, p: seq<nat>)
    requires k < |RowsOf(ts)|
    ensures i < |ts| && IsPath(ts[i], p) && |RowsOf(ts[..i])| + Place(ts[i], p) == k
    decreases ts, 0
  {
    if k < |Rows(ts[0])| {
      i := 0;
      p := PathTo(ts[0], k);
      assert ts[..0] == [];
    } else {
      var j;
      j, p := PathInto(ts[1..], k - |Rows(ts[0])|);
      i := j + 1;
      assert ts[..i][1..] == ts[1..][..j];
    }
  }

  lemma PathOf<T>(t: Tree<T>, x: T) returns (p: seq<nat>)
    requires x in Items(t)
    ensures IsPath(t, p) && At(t, p).item == x
  {
    var k :| 0 <= k < |Items(t)| && Items(t)[k] == x;
    p := PathTo(t, k);
    ItemAt(t, p);
  }

  /** Where items are distinct, an item has one path. */
  lemma {:induction false} OnePlaceOnePath<T>(t: Tree<T>, p: seq<nat>, q: seq<nat>)
    requires IsPath(t, p) && IsPath(t, q) && Place(t, p) == Place(t, q)
    ensures p == q
    decreases |p|
  {
    if p != [] && q != [] {
      if p[0] < q[0] {
        EarlierChild(t, p, q);
      } else if q[0] < p[0] {
        EarlierChild(t, q, p);
      } else {
        OnePlaceOnePath(t.kids[p[0]], p[1..], q[1..]);
        assert p == [p[0]] + p[1..] && q == [q[0]] + q[1..];
      }
    }
  }

  lemma EarlierChild<T>(t: Tree<T>, p: seq<nat>, q: seq<nat>)
    requires IsPath(t, p) && IsPath(t, q) && p != [] && q != [] && p[0] < q[0]
    ensures Place(t, p) < Place(t, q)
  {
    var a, b := p[0], q[0];
    RowsAt(t.kids[a], p[1..]);
    assert t.kids[..b] == t.kids[..a] + ([t.kids[a]] + t.kids[a + 1..b]);
    RowsOfConcat(t.kids[..a], [t.kids[a]] + t.kids[a + 1..b]);
    RowsOfConcat([t.kids[a]], t.kids[a + 1..b]);
    RowsOfOne(t.kids[a]);
  }

  lemma OnePath<T>(t: Tree<T>, p: seq<nat>, q: seq<nat>)
    requires Distinct(Items(t)) && IsPath(t, p) && IsPath(t, q) && At(t, p).item == At(t, q).item
    ensures p == q
  {
    ItemAt(t, p);
    ItemAt(t, q);
    OnePlaceOnePath(t, p, q);
  }

  /** Children are items. */
  lemma KidsAreItems<T>(t: Tree<T>, k: nat)
    requires k < |Rows(t)|
    ensures forall c :: c in Rows(t)[k].kids ==> c in Items(t)
  {
    var p := PathTo(t, k);
    ItemAt(t, p);
    forall c | c in Rows(t)[k].kids
      ensures c in Items(t)
    {
      var i :| 0 <= i < |At(t, p).kids| && At(t, p).kids[i].item == c;
      PathDown(t, p, i);
      ItemAt(t, p + [i]);
    }
  }

  lemma RowInTree<T>(t: Tree<T>, r: Row<T>)
    requires r in Rows(t)
    ensures r.item in Items(t)
    ensures forall c :: c in r.kids ==> c in Items(t)
  {
    var k :| 0 <= k < |Rows(t)| && Rows(t)[k] == r;
    assert Items(t)[k] == r.item;
    KidsAreItems(t, k);
  }

  // ----- other children for one item

  function Update<T>(t: Tree<T>, p: seq<nat>, ks: seq<Tree<T>>): Tree<T>
    requires IsPath(t, p)
    decreases |p|
  {
    if p == [] then Tree(t.item, ks)
    else Tree(t.item, t.kids[p[0] := Update(t.kids[p[0]], p[1..], ks)])
  }

  /** In the drawing, the lines below the item are exchanged and its own line changes. */
  lemma {:induction false} UpdateRows<T>(t: Tree<T>, p: seq<nat>, ks: seq<Tree<T>>)
    requires IsPath(t, p)
    ensures var k, n := Place(t, p), |Rows(At(t, p))|;
            && k + n <= |Rows(t)|
            && Rows(Update(t, p, ks))
               == Rows(t)[..k] + Rows(Tree(At(t, p).item, ks)) + Rows(t)[k + n..]
    decreases |p|
  {
    hide Rows, RowsOf;
    RowsAt(t, p);
    var k, n := Place(t, p), |Rows(At(t, p))|;
    if p == [] {
      assert Rows(t)[..0] == [] && Rows(t)[n..] == [];
    } else {
      var i := p[0];
      var c := t.kids[i];
      UpdateRows(c, p[1..], ks);
      RowsAt(c, p[1..]);
      RowsAround(t, i);
      OtherKid(t, i, Update(c, p[1..], ks));
      var a := [Row(t.item, Roots(t.kids))] + RowsOf(t.kids[..i]);
      Middle(a, Rows(c), RowsOf(t.kids[i + 1..]), k - |a|, n, Rows(Tree(At(t, p).item, ks)));
    }
  }

  lemma OtherKid<T>(t: Tree<T>, i: int, u: Tree<T>)
    requires 0 <= i < |t.kids| && u.item == t.kids[i].item
    ensures Rows(Tree(t.item, t.kids[i := u]))
            == [Row(t.item, Roots(t.kids))] + RowsOf(t.kids[..i]) + Rows(u) + RowsOf(t.kids[i + 1..])
  {
    hide Rows, RowsOf;
    var us := t.kids[i := u];
    RowsAround(Tree(t.item, us), i);
    assert us[..i] == t.kids[..i] && us[i + 1..] == t.kids[i + 1..];
    assert Roots(us) == Roots(t.kids);
  }

  lemma {:induction false} UpdateKeepsRoot<T>(t: Tree<T>, p: seq<nat>, ks: seq<Tree<T>>)
    requires IsPath(t, p)
    ensures Update(t, p, ks).item == t.item
  {
  }

  lemma Middle<A>(a: seq<A>, b: seq<A>, c: seq<A>, k: int, n: int, m: seq<A>)
    requires 0 <= k && 0 <= n && k + n <= |b|
    ensures var s := a + b + c;
            s[..|a| + k] + m + s[|a| + k + n..] == a + (b[..k] + m + b[k + n..]) + c
  {
    var s := a + b + c;
    assert s[..|a| + k] == a + b[..k];
    assert s[|a| + k + n..] == b[k + n..] + c;
  }

  // ----- the shape of a tree, by places in drawing order

  /** One item, by its place: the places of its parent and neighbours (-1 for none), its number
      among the parent's children, the number of items from here down, and its children. */
  datatype Node = Node(par: int, slot: int, prev: int, next: int, size: int, kids: seq<int>)

  /** A first child comes right after its parent, and the last ends where the parent ends. */
  ghost predicate DownOk(s: seq<Node>, k: int)
    requires 0 <= k < |s|
  {
    var n := s[k];
    && 1 <= n.size && k + n.size <= |s|
    && (n.kids == [] <==> n.size == 1)
    && (n.kids != [] ==>
          var l := n.kids[|n.kids| - 1];
          n.kids[0] == k + 1 && k < l < |s| && l + s[l].size == k + n.size)
    && (forall t :: 0 <= t < |n.kids| ==>
          k < n.kids[t] < |s| && s[n.kids[t]].par == k && s[n.kids[t]].slot == t)
  }

  /** The subtree at k ends inside the parent's; the next sibling starts where it ends, the previous
      one ends where it starts. */
  ghost predicate UpOk(s: seq<Node>, k: int)
    requires 0 <= k < |s|
  {
    var n := s[k];
    if k == 0 then n.par == n.prev == n.next == -1 && n.size == |s|
    else
      && 0 <= n.par < k
      && var p := s[n.par];
      && k + n.size <= n.par + p.size
      && 0 <= n.slot < |p.kids| && p.kids[n.slot] == k
      && n.prev == (if n.slot > 0 then p.kids[n.slot - 1] else -1)
      && n.next == (if n.slot + 1 < |p.kids| then p.kids[n.slot + 1] else -1)
      && (if n.next == -1 then k + n.size == n.par + p.size else n.next == k + n.size < |s|)
      && (if n.prev == -1 then k == n.par + 1 else 0 <= n.prev < k && n.prev + s[n.prev].size == k)
  }

  ghost predicate NodeOk(s: seq<Node>, k: int)
    requires 0 <= k < |s|
  {
    DownOk(s, k) && UpOk(s, k)
  }

  ghost predicate ShapeOk(s: seq<Node>)
  {
    s != [] && forall k {:trigger NodeOk(s, k)} :: 0 <= k < |s| ==> NodeOk(s, k)
  }

  ghost function KidPlaces<T>(t: Tree<T>, p: seq<nat>): (ks: seq<int>)
    requires IsPath(t, p)
    ensures |ks| == |At(t, p).kids|
  {
    seq(|At(t, p).kids|, (i: nat) requires i < |At(t, p).kids| => PathDown(t, p, i); Place(t, p + [i]))
  }

  /** The node of a path. */
  ghost function NodeAt<T>(t: Tree<T>, p: seq<nat>): Node
    requires IsPath(t, p)
  {
    var size, kids := |Rows(At(t, p))|, KidPlaces(t, p);
    if p == [] then Node(-1, 0, -1, -1, size, kids)
    else
      PathUp(t, p);
      var q, i := p[..|p| - 1], p[|p| - 1];
      var sibs := KidPlaces(t, q);
      Node(Place(t, q), i, if i > 0 then sibs[i - 1] else -1, if i + 1 < |sibs| then sibs[i + 1] else -1, size, kids)
  }

  lemma PathExists<T>(t: Tree<T>, k: nat)
    requires k < |Rows(t)|
    ensures exists p :: IsPath(t, p) && Place(t, p) == k
  {
    var p := PathTo(t, k);
  }

  ghost function Path<T>(t: Tree<T>, k: nat): (p: seq<nat>)
    requires k < |Rows(t)|
    ensures IsPath(t, p) && Place(t, p) == k
  {
    PathExists(t, k);
    var p :| IsPath(t, p) && Place(t, p) == k;
    p
  }

  ghost function Shape<T>(t: Tree<T>): (s: seq<Node>)
    ensures |s| == |Rows(t)|
  {
    seq(|Rows(t)|, k requires 0 <= k < |Rows(t)| => NodeAt(t, Path(t, k)))
  }

  lemma ShapeAt<T>(t: Tree<T>, p: seq<nat>)
    requires IsPath(t, p)
    ensures Place(t, p) < |Shape(t)| && Shape(t)[Place(t, p)] == NodeAt(t, p)
  {
    RowsAt(t, p);
    OnePlaceOnePath(t, p, Path(t, Place(t, p)));
  }

  lemma KidPlace<T>(t: Tree<T>, p: seq<nat>, i: nat)
    requires IsPath(t, p) && i < |At(t, p).kids|
    ensures IsPath(t, p + [i]) && At(t, p + [i]) == At(t, p).kids[i]
    ensures KidPlaces(t, p)[i] == Place(t, p + [i])
  {
    PathDown(t, p, i);
  }

  /** The node of a child, seen from its parent. */
  lemma KidNode<T>(t: Tree<T>, p: seq<nat>, i: nat)
    requires IsPath(t, p) && i < |At(t, p).kids|
    ensures var s, k, ks := Shape(t), Place(t, p), KidPlaces(t, p);
            && k < ks[i] < |s|
            && var n := s[ks[i]];
               && n.par == k && n.slot == i && n.size == |Rows(At(t, p).kids[i])|
               && n.prev == (if i > 0 then ks[i - 1] else -1)
               && n.next == (if i + 1 < |ks| then ks[i + 1] else -1)
               && (i == 0 ==> ks[i] == k + 1)
               && ks[i] + n.size <= k + |Rows(At(t, p))|
               && ks[i] + n.size == if i + 1 < |ks| then ks[i + 1] else k + |Rows(At(t, p))|
  {
    hide Rows, RowsOf, At, Place, IsPath, Shape;
    RowsAround(At(t, p), i);
    KidPlace(t, p, i);
    ShapeAt(t, p + [i]);
    AfterChild(t, p, i);
    PathDown(t, p, i);
    assert (p + [i])[..|p|] == p;
    if i + 1 < |At(t, p).kids| {
      KidPlace(t, p, i + 1);
    }
    if i == 0 {
      assert At(t, p).kids[..0] == [];
      NoRows<T>();
    }
  }

  /** The nodes of any tree are as drawing it makes them. */
  lemma ShapeIsOk<T>(t: Tree<T>)
    ensures ShapeOk(Shape(t))
  {
    hide NodeOk;
    forall k | 0 <= k < |Rows(t)|
      ensures NodeOk(Shape(t), k)
    {
      NodeIsOk(t, Path(t, k));
    }
  }

  lemma NodeOkBelow<T>(t: Tree<T>, p: seq<nat>)
    requires IsPath(t, p)
    ensures var s, k := Shape(t), Place(t, p);
            k < |s| && DownOk(s, k) && s[k].kids == KidPlaces(t, p) && s[k].size == |Rows(At(t, p))|
  {
    hide Rows, RowsOf, At, Place, IsPath, Shape, KidPlaces;
    ShapeAt(t, p);
    RowsAt(t, p);
    var n := |At(t, p).kids|;
    forall i | 0 <= i < n
      ensures var s, k, ks := Shape(t), Place(t, p), KidPlaces(t, p);
              k < ks[i] < |s| && s[ks[i]].par == k && s[ks[i]].slot == i
    {
      KidNode(t, p, i);
    }
    if n > 0 {
      KidNode(t, p, 0);
      KidNode(t, p, n - 1);
    } else {
      AloneInRows(At(t, p));
    }
  }

  lemma AloneInRows<T>(t: Tree<T>)
    requires t.kids == []
    ensures |Rows(t)| == 1
  {
  }

  lemma NodeOkAbove<T>(t: Tree<T>, q: seq<nat>, i: nat)
    requires IsPath(t, q) && i < |At(t, q).kids|
    ensures var k := KidPlaces(t, q)[i]; 0 <= k < |Shape(t)| && UpOk(Shape(t), k)
  {
    hide Rows, RowsOf, Shape, KidPlaces, At, Place, IsPath, NodeAt, Path, DownOk;
    NodeOkBelow(t, q);
    KidNode(t, q, i);
    if i > 0 {
      KidNode(t, q, i - 1);
    }
    if i + 1 < |At(t, q).kids| {
      KidNode(t, q, i + 1);
    }
  }

  lemma RootIsAll<T>(t: Tree<T>)
    ensures IsPath(t, []) && At(t, []) == t && Place(t, []) == 0
  {
  }

  lemma RootOk<T>(t: Tree<T>)
    ensures IsPath(t, []) && Place(t, []) == 0 && UpOk(Shape(t), 0)
  {
    RootIsAll(t);
    ShapeAt(t, []);
  }

  lemma NodeIsOk<T>(t: Tree<T>, p: seq<nat>)
    requires IsPath(t, p)
    ensures Place(t, p) < |Shape(t)| && NodeOk(Shape(t), Place(t, p))
  {
    hide Rows, RowsOf, Shape, KidPlaces, At, Place, IsPath, NodeAt, Path, UpOk, DownOk;
    NodeOkBelow(t, p);
    if p != [] {
      PathUp(t, p);
      var q, i := p[..|p| - 1], p[|p| - 1];
      KidPlace(t, q, i);
      NodeOkAbove(t, q, i);
    } else {
      RootOk(t);
    }
  }
}
