/** What giving one item other children does to the lines and items of a tree. */
module TreeUpdates {
  import opened Sequences
  import opened Trees

  // ----- distinct items, by counting

  ghost predicate Once<T>(m: multiset<T>)
  {
    forall x | x in m :: m[x] == 1
  }

  lemma {:induction false} DistinctIffOnce<T>(o: seq<T>)
    ensures Distinct(o) <==> Once(multiset(o))
  {
    if o != [] {
      var n := |o| - 1;
      var rest := o[..n];
      assert o == rest + [o[n]];
      DistinctIffOnce(rest);
      if Distinct(o) {
        assert Distinct(rest) && o[n] !in rest;
      } else if Distinct(rest) {
        var i, j :| 0 <= i < j < |o| && o[i] == o[j];
        assert o[n] in rest;
        assert multiset(o)[o[n]] == multiset(rest)[o[n]] + 1;
      } else {
        var x :| x in multiset(rest) && multiset(rest)[x] != 1;
        assert x in multiset(o) && multiset(o)[x] != 1;
      }
    }
  }

  /** The items of some trees, counted. */
  ghost function Bag<T>(ts: seq<Tree<T>>): multiset<T>
  {
    multiset(ItemsIn(RowsOf(ts)))
  }

  lemma ItemsInConcat<T>(a: seq<Row<T>>, b: seq<Row<T>>)
    ensures ItemsIn(a + b) == ItemsIn(a) + ItemsIn(b)
  {
  }

  lemma BagConcat<T>(a: seq<Tree<T>>, b: seq<Tree<T>>)
    ensures Bag(a + b) == Bag(a) + Bag(b)
  {
    RowsOfConcat(a, b);
    ItemsInConcat(RowsOf(a), RowsOf(b));
  }

  lemma BagOne<T>(t: Tree<T>)
    ensures Bag([t]) == multiset(Items(t))
  {
    RowsOfOne(t);
  }

  lemma BagWith<T>(ts: seq<Tree<T>>, k: int, t: Tree<T>)
    requires 0 <= k <= |ts|
    ensures Bag(With(ts, k, t)) == Bag(ts) + multiset(Items(t))
  {
    hide Bag, Items;
    assert ts == ts[..k] + ts[k..];
    BagConcat(ts[..k], ts[k..]);
    BagConcat(ts[..k] + [t], ts[k..]);
    BagConcat(ts[..k], [t]);
    BagOne(t);
  }

  lemma BagWithout<T>(ts: seq<Tree<T>>, k: int)
    requires 0 <= k < |ts|
    ensures Bag(ts) == Bag(Without(ts, k)) + multiset(Items(ts[k]))
  {
    hide Bag, Items;
    assert With(Without(ts, k), k, ts[k]) == ts;
    BagWith(Without(ts, k), k, ts[k]);
  }

  lemma BagMoved<T>(ts: seq<Tree<T>>, to: int, from: int)
    requires 0 <= from < |ts| && 0 <= to < |ts|
    ensures Bag(Moved(ts, to, from)) == Bag(ts)
  {
    hide Bag, Items;
    BagWithout(ts, from);
    BagWith(Without(ts, from), to, ts[from]);
  }

  lemma BagUpdated<T>(ts: seq<Tree<T>>, a: int, t: Tree<T>)
    requires 0 <= a < |ts|
    ensures Bag(ts[a := t]) + multiset(Items(ts[a])) == Bag(ts) + multiset(Items(t))
  {
    hide Bag, Items;
    assert ts[a := t] == With(Without(ts, a), a, t);
    BagWithout(ts, a);
    BagWith(Without(ts, a), a, t);
  }

  lemma BagSwapped<T>(ts: seq<Tree<T>>, a: int, b: int)
    requires 0 <= a < |ts| && 0 <= b < |ts|
    ensures Bag(Swapped(ts, a, b)) == Bag(ts)
  {
    hide Bag, Items;
    var us := ts[a := ts[b]];
    BagUpdated(ts, a, ts[b]);
    BagUpdated(us, b, ts[a]);
    assert us[b] == ts[b];
    var i := multiset(Items(ts[b]));
    assert Bag(Swapped(ts, a, b)) + i == Bag(ts) + i;
    assert Bag(ts) == Bag(ts) + i - i == Bag(Swapped(ts, a, b)) + i - i;
  }

  /** The items of the tree, with those below the item exchanged. */
  lemma BagOfUpdate<T>(t: Tree<T>, q: seq<nat>, ks: seq<Tree<T>>)
    requires IsPath(t, q)
    ensures multiset(Items(Update(t, q, ks))) + Bag(At(t, q).kids) == multiset(Items(t)) + Bag(ks)
  {
    hide Update, At, Place, RowsOf;
    var c := At(t, q);
    var k, n := Place(t, q), |Rows(c)|;
    RowsAt(t, q);
    UpdateRows(t, q, ks);
    var a, b := Rows(t)[..k], Rows(t)[k + n..];
    assert Rows(t) == a + Rows(t)[k..k + n] + b;
    assert Tree(c.item, c.kids) == c;
    hide Rows, Bag;
    ItemsOfThree(a, c.item, c.kids, b);
    ItemsOfThree(a, c.item, ks, b);
    assert Rows(t) == a + Rows(Tree(c.item, c.kids)) + b;
    assert Rows(Update(t, q, ks)) == a + Rows(Tree(c.item, ks)) + b;
  }

  lemma ItemsOfThree<T>(a: seq<Row<T>>, x: T, ks: seq<Tree<T>>, b: seq<Row<T>>)
    ensures multiset(ItemsIn(a + Rows(Tree(x, ks)) + b))
            == multiset(ItemsIn(a)) + multiset{x} + Bag(ks) + multiset(ItemsIn(b))
  {
    var r := Row(x, Roots(ks));
    ItemsInConcat(a + Rows(Tree(x, ks)), b);
    ItemsInConcat(a, Rows(Tree(x, ks)));
    ItemsInConcat([r], RowsOf(ks));
    assert ItemsIn([r]) == [x];
  }

  /** Items stay distinct if they do in the bags. */
  lemma UpdateDistinct<T>(t: Tree<T>, q: seq<nat>, ks: seq<Tree<T>>, more: multiset<T>)
    requires IsPath(t, q) && Distinct(Items(t))
    requires Bag(ks) <= Bag(At(t, q).kids) + more
    requires Once(more) && forall x :: x in more ==> x !in Items(t)
    ensures Distinct(Items(Update(t, q, ks)))
    ensures forall x :: x in Items(Update(t, q, ks)) ==> x in Items(t) || x in more
  {
    hide Update, At, IsPath, Items, Bag;
    BagOfUpdate(t, q, ks);
    DistinctIffOnce(Items(t));
    DistinctIffOnce(Items(Update(t, q, ks)));
    var m := multiset(Items(Update(t, q, ks)));
    forall x | x in m
      ensures m[x] == 1 && (x in Items(t) || x in more)
    {
      assert (m + Bag(At(t, q).kids))[x] == (multiset(Items(t)) + Bag(ks))[x];
      assert Bag(ks)[x] <= (Bag(At(t, q).kids) + more)[x];
      assert x in more ==> x !in multiset(Items(t));
    }
  }

  // ----- lines

  /** A line of the new tree is the item's own, one of its new children's, or an old one. */
  lemma UpdatedRow<T>(t: Tree<T>, q: seq<nat>, ks: seq<Tree<T>>, r: Row<T>)
    requires IsPath(t, q) && Distinct(Items(t)) && r in Rows(Update(t, q, ks))
    ensures r == Row(At(t, q).item, Roots(ks)) || r in RowsOf(ks) || (r in Rows(t) && r.item != At(t, q).item)
  {
    hide Update, At, Place, RowsOf;
    var k, n := Place(t, q), |Rows(At(t, q))|;
    ItemAt(t, q);
    RowsAt(t, q);
    UpdateRows(t, q, ks);
    var i :| 0 <= i < |Rows(Update(t, q, ks))| && Rows(Update(t, q, ks))[i] == r;
    var below := Rows(Tree(At(t, q).item, ks));
    assert below == [Row(At(t, q).item, Roots(ks))] + RowsOf(ks);
    if i < k {
      assert r == Rows(t)[i] && Items(t)[i] != Items(t)[k];
    } else if i < k + |below| {
      assert r == below[i - k];
    } else {
      var j := i - |below| + n;
      assert r == Rows(t)[j] && Items(t)[j] != Items(t)[k];
    }
  }

  lemma {:induction false} RowFrom<T>(ts: seq<Tree<T>>, r: Row<T>) returns (i: nat)
    requires r in RowsOf(ts)
    ensures i < |ts| && r in Rows(ts[i])
  {
    if r in Rows(ts[0]) {
      i := 0;
    } else {
      var j := RowFrom(ts[1..], r);
      i := j + 1;
    }
  }

  /** The lines below an item are lines of the tree, and not its own. */
  lemma KidRow<T>(t: Tree<T>, q: seq<nat>, i: nat, r: Row<T>)
    requires IsPath(t, q) && Distinct(Items(t)) && i < |At(t, q).kids| && r in Rows(At(t, q).kids[i])
    ensures r in Rows(t) && r.item != At(t, q).item
  {
    hide At, Place, IsPath, Rows;
    PathDown(t, q, i);
    RowsAt(t, q + [i]);
    ItemAt(t, q);
    var c := At(t, q + [i]);
    var k := Place(t, q + [i]);
    var j :| 0 <= j < |Rows(c)| && Rows(c)[j] == r;
    assert Rows(t)[k..k + |Rows(c)|][j] == Rows(t)[k + j];
    assert Items(t)[Place(t, q)] != Items(t)[k + j];
  }

  /** Children that were there before, or that the tree `u` stands for, bring no other lines. */
  lemma LinesFromKids<T>(t: Tree<T>, q: seq<nat>, ks: seq<Tree<T>>, u: Tree<T>, r: Row<T>)
    requires IsPath(t, q) && Distinct(Items(t))
    requires forall i :: 0 <= i < |ks| ==> ks[i] == u || ks[i] in At(t, q).kids
    requires r in Rows(Update(t, q, ks))
    ensures r == Row(At(t, q).item, Roots(ks)) || r in Rows(u) || (r in Rows(t) && r.item != At(t, q).item)
  {
    hide Update, At, IsPath, Rows, RowsOf;
    UpdatedRow(t, q, ks, r);
    if r in RowsOf(ks) {
      var i := RowFrom(ks, r);
      if ks[i] != u {
        var j :| 0 <= j < |At(t, q).kids| && At(t, q).kids[j] == ks[i];
        KidRow(t, q, j, r);
      }
    }
  }

  // ----- taking a subtree out

  lemma {:induction false} PathCompose<T>(t: Tree<T>, p: seq<nat>, r: seq<nat>)
    requires IsPath(t, p) && IsPath(At(t, p), r)
    ensures IsPath(t, p + r) && At(t, p + r) == At(At(t, p), r)
    decreases |p|
  {
    if p == [] {
      assert p + r == r;
    } else {
      assert (p + r)[1..] == p[1..] + r;
      PathCompose(t.kids[p[0]], p[1..], r);
    }
  }

  lemma {:induction false} PathPrefix<T>(t: Tree<T>, p: seq<nat>, r: seq<nat>)
    requires IsPath(t, p + r)
    ensures IsPath(t, p) && IsPath(At(t, p), r) && At(At(t, p), r) == At(t, p + r)
    decreases |p|
  {
    if p == [] {
      assert p + r == r;
    } else {
      assert (p + r)[1..] == p[1..] + r;
      PathPrefix(t.kids[p[0]], p[1..], r);
    }
  }

  lemma {:induction false} UpdateSame<T>(t: Tree<T>, q: seq<nat>)
    requires IsPath(t, q)
    ensures Update(t, q, At(t, q).kids) == t
    decreases |q|
  {
    if q != [] {
      UpdateSame(t.kids[q[0]], q[1..]);
    }
  }

  /** The items of a subtree are distinct too. */
  lemma SubDistinct<T>(t: Tree<T>, p: seq<nat>)
    requires IsPath(t, p) && Distinct(Items(t))
    ensures Distinct(Items(At(t, p)))
  {
    hide At, IsPath, Place, Rows;
    RowsAt(t, p);
    var k, o := Place(t, p), Items(At(t, p));
    forall i, j | 0 <= i < j < |o|
      ensures o[i] != o[j]
    {
      var rs := Rows(t)[k..k + |o|];
      assert rs[i] == Rows(t)[k + i] && rs[j] == Rows(t)[k + j];
      assert Items(t)[k + i] != Items(t)[k + j];
    }
  }

  /** A subtree and the tree without it share no item, and have all items between them. */
  lemma PruneApart<T>(t: Tree<T>, q: seq<nat>, k: nat)
    requires IsPath(t, q) && Distinct(Items(t)) && k < |At(t, q).kids|
    ensures var n, u := Update(t, q, Without(At(t, q).kids, k)), At(t, q).kids[k];
            && (forall x :: x in Items(u) ==> x !in Items(n) && x in Items(t))
            && (forall x :: x in Items(t) ==> x in Items(n) || x in Items(u))
            && (forall x :: x in Items(n) ==> x in Items(t))
  {
    hide Update, At, IsPath, Items, Rows, Bag;
    var ks := At(t, q).kids;
    var n, u := Update(t, q, Without(ks, k)), ks[k];
    BagOfUpdate(t, q, Without(ks, k));
    BagWithout(ks, k);
    DistinctIffOnce(Items(t));
    var a, b, c, d := multiset(Items(n)), multiset(Items(u)), multiset(Items(t)), Bag(Without(ks, k));
    assert a + (d + b) == c + d;
    assert a + b == a + (d + b) - d == c + d - d == c;
    forall x | x in Items(u)
      ensures x !in Items(n) && x in Items(t)
    {
      assert x in b && c[x] == a[x] + b[x];
    }
    forall x | x in Items(n)
      ensures x in Items(t)
    {
      assert x in a && c[x] == a[x] + b[x];
    }
    forall x | x in Items(t)
      ensures x in Items(n) || x in Items(u)
    {
      assert x in c && c[x] == a[x] + b[x];
    }
  }

  /** An item of a subtree has a path through it. */
  lemma Through<T>(t: Tree<T>, a: seq<nat>, b: seq<nat>)
    requires IsPath(t, a) && IsPath(t, b) && Distinct(Items(t))
    ensures At(t, b).item in Items(At(t, a)) <==> a <= b
  {
    hide At, IsPath, Items, Rows;
    if a <= b {
      var r := b[|a|..];
      assert b == a + r;
      PathPrefix(t, a, r);
      ItemAt(At(t, a), r);
    }
    if At(t, b).item in Items(At(t, a)) {
      var r := PathOf(At(t, a), At(t, b).item);
      PathCompose(t, a, r);
      OnePath(t, a + r, b);
    }
  }

  // ----- where everything stands afterwards

  lemma {:induction false} UpdateAt<T>(t: Tree<T>, q: seq<nat>, ks: seq<Tree<T>>)
    requires IsPath(t, q)
    ensures IsPath(Update(t, q, ks), q) && At(Update(t, q, ks), q) == Tree(At(t, q).item, ks)
    decreases |q|
  {
    if q != [] {
      UpdateAt(t.kids[q[0]], q[1..], ks);
    }
  }

  /** Away from the item nothing changes: subtrees beside it are as before, and items above it stay
      where they are. */
  lemma {:induction false} UpdateElsewhere<T>(t: Tree<T>, q: seq<nat>, ks: seq<Tree<T>>, p: seq<nat>)
    requires IsPath(t, q) && !(q <= p)
    ensures var n := Update(t, q, ks);
            && (IsPath(n, p) <==> IsPath(t, p))
            && (IsPath(t, p) ==> At(n, p).item == At(t, p).item && |At(n, p).kids| == |At(t, p).kids|)
            && (IsPath(t, p) && !(p <= q) ==> At(n, p) == At(t, p))
    decreases |q|
  {
    if p != [] && p[0] == q[0] {
      assert q[1..] <= p[1..] ==> q <= p by {
        assert q == [q[0]] + q[1..] && p == [p[0]] + p[1..];
      }
      assert p[1..] <= q[1..] ==> p <= q by {
        assert q == [q[0]] + q[1..] && p == [p[0]] + p[1..];
      }
      UpdateElsewhere(t.kids[q[0]], q[1..], ks, p[1..]);
    }
  }

  /** Child c of the item at q in the tree n is what child i of the item at q was in the tree t. */
  ghost predicate Stands<T>(n: Tree<T>, q: seq<nat>, c: int, t: Tree<T>, i: int)
  {
    0 <= c && 0 <= i && IsPath(n, q + [c]) && IsPath(t, q + [i]) && At(n, q + [c]) == At(t, q + [i])
  }

  lemma ChildStands<T>(t: Tree<T>, q: seq<nat>, ks: seq<Tree<T>>, c: int, i: int)
    requires IsPath(t, q) && 0 <= c < |ks| && 0 <= i < |At(t, q).kids| && ks[c] == At(t, q).kids[i]
    ensures Stands(Update(t, q, ks), q, c, t, i)
  {
    hide At, IsPath, Update;
    UpdateAt(t, q, ks);
    PathDown(Update(t, q, ks), q, c);
    PathDown(t, q, i);
  }

  lemma KidsSwapped<T>(t: Tree<T>, q: seq<nat>, a: int, b: int)
    requires IsPath(t, q) && 0 <= a < |At(t, q).kids| && 0 <= b < |At(t, q).kids|
    ensures var n := Update(t, q, Swapped(At(t, q).kids, a, b));
            && Stands(n, q, a, t, b) && Stands(n, q, b, t, a)
            && forall c :: 0 <= c < |At(t, q).kids| && c != a && c != b ==> Stands(n, q, c, t, c)
  {
    hide At, IsPath, Update, Swapped, Stands;
    var ks := At(t, q).kids;
    SwappedAt(ks, a, b);
    ChildStands(t, q, Swapped(ks, a, b), a, b);
    ChildStands(t, q, Swapped(ks, a, b), b, a);
    forall c | 0 <= c < |ks| && c != a && c != b ensures Stands(Update(t, q, Swapped(ks, a, b)), q, c, t, c) {
      ChildStands(t, q, Swapped(ks, a, b), c, c);
    }
  }

  /** Where the child now at c came from when another was moved from `from` to `to`. */
  function Shifted(c: int, to: int, from: int): int
  {
    if from <= c < to then c + 1 else if to < c <= from then c - 1 else c
  }

  lemma KidsMoved<T>(t: Tree<T>, q: seq<nat>, to: int, from: int)
    requires IsPath(t, q) && 0 <= to < |At(t, q).kids| && 0 <= from < |At(t, q).kids|
    ensures var n := Update(t, q, Moved(At(t, q).kids, to, from));
            && Stands(n, q, to, t, from)
            && forall c, i :: 0 <= c < |At(t, q).kids| && c != to && i == Shifted(c, to, from) ==> Stands(n, q, c, t, i)
  {
    hide At, IsPath, Update, Moved, Stands;
    var ks := At(t, q).kids;
    var r := Moved(ks, to, from);
    MovedAt(ks, to, from);
    ChildStands(t, q, r, to, from);
    forall c, i | 0 <= c < |ks| && c != to && i == Shifted(c, to, from) ensures Stands(Update(t, q, r), q, c, t, i) {
      ChildStands(t, q, r, c, i);
    }
  }

  lemma KidsWithout<T>(t: Tree<T>, q: seq<nat>, k: int)
    requires IsPath(t, q) && 0 <= k < |At(t, q).kids|
    ensures var n := Update(t, q, Without(At(t, q).kids, k));
            && IsPath(n, q) && |At(n, q).kids| == |At(t, q).kids| - 1
            && forall c, i :: 0 <= c < |At(t, q).kids| - 1 && i == (if c < k then c else c + 1) ==>
                 Stands(n, q, c, t, i)
  {
    hide At, IsPath, Update, Without, Stands;
    var ks := At(t, q).kids;
    WithoutAt(ks, k);
    UpdateAt(t, q, Without(ks, k));
    forall c, i | 0 <= c < |ks| - 1 && i == (if c < k then c else c + 1)
      ensures Stands(Update(t, q, Without(ks, k)), q, c, t, i)
    {
      ChildStands(t, q, Without(ks, k), c, i);
    }
  }

  lemma KidsWith<T>(t: Tree<T>, q: seq<nat>, k: int, u: Tree<T>)
    requires IsPath(t, q) && 0 <= k <= |At(t, q).kids|
    ensures var n := Update(t, q, With(At(t, q).kids, k, u));
            && IsPath(n, q) && |At(n, q).kids| == |At(t, q).kids| + 1 && At(n, q).kids[k] == u
            && forall c, i :: 0 <= i < |At(t, q).kids| && c == (if i < k then i else i + 1) ==> Stands(n, q, c, t, i)
  {
    hide At, IsPath, Update, With, Stands;
    var ks := At(t, q).kids;
    WithAt(ks, k, u);
    UpdateAt(t, q, With(ks, k, u));
    forall c, i | 0 <= i < |ks| && c == (if i < k then i else i + 1)
      ensures Stands(Update(t, q, With(ks, k, u)), q, c, t, i)
    {
      ChildStands(t, q, With(ks, k, u), c, i);
    }
  }
}
