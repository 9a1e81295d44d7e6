/** Selections of UTF-8 text: when an edit leaves the ends of a selection between characters. */
module SelectionUtf8 {
  import opened Integers
  import opened TextSpec
  import opened Selections
  import opened Utf8

  /** A selection that is not empty and begins and ends between characters of the text. */
  ghost predicate EndsOk(s: Text, r: Range)
  {
    r.selected ==> r.start < r.end && Boundary(s, r.start) && Boundary(s, r.end)
  }

  /** Removing [a, b) starts strictly inside the selection and runs past its end. */
  predicate Overruns(r: Range, a: int, b: int)
  {
    r.selected && r.start < a < r.end < b
  }

  /** ... and the end, moved back by the number of removed bytes, comes to lie inside a character. */
  ghost predicate Strays(s: Text, r: Range, a: int, b: int)
  {
    Overruns(r, a, b) && r.start < r.end - (b - a) && !Boundary(s, r.end - (b - a))
  }

  lemma RemovalKeepsEndsIff(s: Text, r: Range, a: int, b: int)
    requires EndsOk(s, r) && a <= b && Boundary(s, a) && Boundary(s, b)
    ensures EndsOk(Splice(s, a, b, []), UpdateRange(r, a, b - a, 0)) <==> !Strays(s, r, a, b)
  {
    var z := Splice(s, a, b, []);
    assert forall k :: 0 <= k < a ==> z[k] == s[k];
    assert forall k :: a <= k < |z| ==> z[k] == s[k + (b - a)];
  }

  lemma BoundaryThroughInsertion(s: Text, p: int, t: Text, k: int)
    requires Boundary(s, k) && Boundary(s, p) && Boundary(t, 0)
    ensures k <= p ==> Boundary(Splice(s, p, p, t), k)
    ensures p <= k ==> Boundary(Splice(s, p, p, t), k + |t|)
  {
    var z := Splice(s, p, p, t);
    assert k < p ==> z[k] == s[k];
    assert k == p && t != [] ==> z[k] == t[0];
    assert p <= k < |s| ==> z[k + |t|] == s[k];
  }

  lemma InsertionKeepsEnds(s: Text, r: Range, p: int, t: Text)
    requires EndsOk(s, r) && Boundary(s, p) && WellFormed(t)
    ensures EndsOk(Splice(s, p, p, t), UpdateRange(r, p, 0, |t|))
  {
    hide WellFormed, Splice, Boundary;
    StartIsBoundary(t);
    if r.selected {
      BoundaryThroughInsertion(s, p, t, r.start);
      BoundaryThroughInsertion(s, p, t, r.end);
    }
  }

  /** Exactly when a replacement at boundaries keeps the ends of a selection at boundaries. Removals
      and insertions are replacements by nothing and of nothing. */
  lemma ReplacementKeepsEndsIff(s: Text, r: Range, a: int, b: int, t: Text)
    requires EndsOk(s, r) && WellFormed(t) && a <= b && Boundary(s, a) && Boundary(s, b)
    ensures EndsOk(Splice(s, a, b, t), ReplacedRange(r, a, b, |t|)) <==> !Strays(s, r, a, b)
  {
    var z := Splice(s, a, b, []);
    var q := UpdateRange(r, a, b - a, 0);
    RemovalKeepsEndsIff(s, r, a, b);
    SplicedTwice(s, a, b, t);
    if Strays(s, r, a, b) {
      assert q.selected && q.end < a && UpdateRange(q, a, 0, |t|) == q;
      assert Splice(s, a, b, t)[q.end] == s[q.end];
    } else {
      assert Boundary(z, a) by { assert a < |z| ==> z[a] == s[b]; }
      InsertionKeepsEnds(z, q, a, t);
    }
  }
}
