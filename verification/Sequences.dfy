/** Sequences: shared notions of order and repetition. */
module Sequences {

  function Repeat<T>(n: nat, x: T): (r: seq<T>)
    ensures |r| == n && forall k :: 0 <= k < n ==> r[k] == x
  {
    seq(n, _ => x)
  }

  ghost predicate Distinct<T>(s: seq<T>)
  {
    forall i, j :: 0 <= i < j < |s| ==> s[i] != s[j]
  }

  function Without<T>(s: seq<T>, k: int): seq<T>
    requires 0 <= k < |s|
  {
    s[..k] + s[k + 1..]
  }

  function With<T>(s: seq<T>, k: int, x: T): seq<T>
    requires 0 <= k <= |s|
  {
    s[..k] + [x] + s[k..]
  }

  /** Element `from` taken out and put back so that it ends up at place `to`. */
  function Moved<T>(s: seq<T>, to: int, from: int): seq<T>
    requires 0 <= from < |s| && 0 <= to < |s|
  {
    With(Without(s, from), to, s[from])
  }

  function Swapped<T>(s: seq<T>, a: int, b: int): seq<T>
    requires 0 <= a < |s| && 0 <= b < |s|
  {
    s[a := s[b]][b := s[a]]
  }

  lemma DistinctWith<T>(s: seq<T>, k: int, x: T)
    requires 0 <= k <= |s| && Distinct(s) && x !in s
    ensures Distinct(With(s, k, x))
  {
  }

  lemma DistinctWithout<T>(s: seq<T>, k: int)
    requires 0 <= k < |s| && Distinct(s)
    ensures Distinct(Without(s, k))
  {
  }

  lemma DistinctSwapped<T>(s: seq<T>, a: int, b: int)
    requires 0 <= a < |s| && 0 <= b < |s| && Distinct(s)
    ensures Distinct(Swapped(s, a, b))
  {
  }

  lemma WithoutFrom<T>(s: seq<T>, k: int)
    requires 0 <= k < |s|
    ensures forall i :: 0 <= i < |Without(s, k)| ==> Without(s, k)[i] in s
  {
  }

  lemma MovedFrom<T>(s: seq<T>, to: int, from: int)
    requires 0 <= to < |s| && 0 <= from < |s|
    ensures forall i :: 0 <= i < |Moved(s, to, from)| ==> Moved(s, to, from)[i] in s
  {
    WithoutFrom(s, from);
  }

  lemma SwappedFrom<T>(s: seq<T>, a: int, b: int)
    requires 0 <= a < |s| && 0 <= b < |s|
    ensures forall i :: 0 <= i < |Swapped(s, a, b)| ==> Swapped(s, a, b)[i] in s
  {
  }

  // ----- element by element

  lemma WithAt<T>(s: seq<T>, k: int, x: T)
    requires 0 <= k <= |s|
    ensures var r := With(s, k, x);
            |r| == |s| + 1 && r[k] == x && forall i :: 0 <= i < |s| ==> r[if i < k then i else i + 1] == s[i]
  {
  }

  lemma WithoutAt<T>(s: seq<T>, k: int)
    requires 0 <= k < |s|
    ensures var r := Without(s, k);
            |r| == |s| - 1 && forall i :: 0 <= i < |r| ==> r[i] == s[if i < k then i else i + 1]
  {
  }

  lemma MovedAt<T>(s: seq<T>, to: int, from: int)
    requires 0 <= to < |s| && 0 <= from < |s|
    ensures var r := Moved(s, to, from);
            |r| == |s| && r[to] == s[from]
            && forall i :: 0 <= i < |s| && i != to ==>
                 r[i] == s[if from <= i < to then i + 1 else if to < i <= from then i - 1 else i]
  {
  }

  /** The elements at a and b have changed places, and all others stand where they stood. */
  ghost predicate Exchanged<T>(s: seq<T>, a: int, b: int, r: seq<T>)
  {
    && 0 <= a < |s| && 0 <= b < |s| && |r| == |s| && r[a] == s[b] && r[b] == s[a]
    && forall i :: 0 <= i < |s| && i != a && i != b ==> r[i] == s[i]
  }

  lemma SwappedAt<T>(s: seq<T>, a: int, b: int)
    requires 0 <= a < |s| && 0 <= b < |s|
    ensures Exchanged(s, a, b, Swapped(s, a, b))
  {
  }
}
