/** Plain byte strings: splicing, newline counting and line navigation.

    These are the reference definitions the gap buffer of TextBuffer.dfy is
    proved against; nothing here knows about a gap. */
module TextSpec {
  import opened Integers

  /** One byte of a C string. The terminating NUL is not part of the string. */
  type Byte = b: int | 0 < b < 256 witness 10
  type Text = seq<Byte>

  /** A `const char*` argument. */
  datatype CString = NullString | Chars(chars: Text)

  const NEWLINE: Byte := 10

  /** `s` with the bytes [a, b) replaced by `t`. */
  function Splice(s: Text, a: int, b: int, t: Text): (r: Text)
    requires 0 <= a <= b <= |s|
    ensures |r| == |s| - (b - a) + |t|
  {
    s[..a] + t + s[b..]
  }

  lemma SpliceParts(s: Text, a: int, b: int, t: Text)
    requires 0 <= a <= b <= |s|
    ensures var r := Splice(s, a, b, t);
            r == s[..a] + (t + s[b..]) && r[..a] == s[..a] && r[a..] == t + s[b..] && r[a + |t|..] == s[b..]
  {
    assert Splice(s, a, b, t) == s[..a] + (t + s[b..]);
  }

  /** Putting the removed bytes back undoes a splice. */
  lemma SpliceBack(s: Text, a: int, b: int, t: Text)
    requires 0 <= a <= b <= |s|
    ensures Splice(Splice(s, a, b, t), a, a + |t|, s[a..b]) == s
  {
    var r := Splice(s, a, b, t);
    assert r[..a] == s[..a];
    assert r[a + |t|..] == s[b..];
    assert s == s[..a] + s[a..b] + s[b..];
  }

  lemma SplicedTwice(x: Text, s: int, e: int, t: Text)
    requires 0 <= s <= e <= |x|
    ensures Splice(Splice(x, s, e, []), s, s, t) == Splice(x, s, e, t)
  {
    var y := Splice(x, s, e, []);
    assert y[..s] == x[..s] && y[s..] == x[e..];
  }

  // ----- counting newlines

  function Newlines(s: Text): nat
  {
    if s == [] then 0
    else Newlines(s[..|s| - 1]) + (if s[|s| - 1] == NEWLINE then 1 else 0)
  }

  lemma {:induction false} NewlinesAreCounted(s: Text)
    ensures Newlines(s) == multiset(s)[NEWLINE]
  {
    if s != [] {
      NewlinesAreCounted(s[..|s| - 1]);
      assert s == s[..|s| - 1] + [s[|s| - 1]];
    }
  }

  lemma {:induction false} NewlinesConcat(a: Text, b: Text)
    ensures Newlines(a + b) == Newlines(a) + Newlines(b)
  {
    if b == [] {
      assert a + b == a;
    } else {
      assert (a + b)[..|a + b| - 1] == a + b[..|b| - 1];
      NewlinesConcat(a, b[..|b| - 1]);
    }
  }

  /** count_lines is additive over adjacent ranges. */
  lemma NewlinesAdditive(s: Text, a: nat, b: nat, c: nat)
    requires a <= b <= c <= |s|
    ensures Newlines(s[a..c]) == Newlines(s[a..b]) + Newlines(s[b..c])
  {
    assert s[a..c] == s[a..b] + s[b..c];
    NewlinesConcat(s[a..b], s[b..c]);
  }

  // ----- moving by lines

  ghost predicate LineStart(s: Text, p: int)
  {
    0 <= p <= |s| && (p == 0 || s[p - 1] == NEWLINE)
  }

  /** Forward scan: the position just after the n-th newline at or after `p`,
      or the end of the text when there are fewer. */
  function SkipLines(s: Text, p: nat, n: nat): (q: nat)
    ensures p <= |s| ==> p <= q <= |s|
    decreases |s| - p
  {
    if n == 0 || p >= |s| then p
    else SkipLines(s, p + 1, if s[p] == NEWLINE then n - 1 else n)
  }

  /** Backward scan from the byte at `p`: the position just after the
      (n+1)-th newline met, or 0. */
  function RewindScan(s: Text, p: int, n: nat): (q: int)
    requires p < |s|
    ensures 0 <= q && (p >= -1 ==> q <= p + 1)
    decreases p
  {
    if p < 0 then 0
    else if s[p] == NEWLINE then (if n == 0 then p + 1 else RewindScan(s, p - 1, n - 1))
    else RewindScan(s, p - 1, n)
  }

  /** rewind_lines as coded: it answers 0 without looking when at most one byte precedes `p`. */
  function RewindLines(s: Text, p: int, n: int): int
    requires p <= |s|
  {
    if p <= 1 then 0 else RewindScan(s, p - 1, Max(n, 0))
  }

  /** What SkipLines finds, without the scan: exactly n newlines are passed and the last byte
      passed is one of them; with fewer newlines ahead it stops at the end. */
  lemma {:induction false} SkipLinesMeaning(s: Text, p: nat, n: nat)
    requires p <= |s|
    ensures Newlines(s[p..]) >= n ==>
              var q := SkipLines(s, p, n);
              Newlines(s[p..q]) == n && (n > 0 ==> q > p && s[q - 1] == NEWLINE)
    ensures Newlines(s[p..]) < n ==> SkipLines(s, p, n) == |s|
    ensures n == 0 ==> SkipLines(s, p, n) == p
    decreases |s| - p
  {
    var q := SkipLines(s, p, n);
    if n == 0 {
      assert s[p..q] == [];
    } else if p == |s| {
      assert s[p..] == [];
    } else {
      var m := if s[p] == NEWLINE then n - 1 else n;
      SkipLinesMeaning(s, p + 1, m);
      NewlinesAdditive(s, p, p + 1, |s|);
      NewlinesAdditive(s, p, p + 1, q);
      assert s[p..p + 1] == [s[p]];
      assert s[p..p + 1][..0] == [];
      assert s[p..|s|] == s[p..] && s[p + 1..|s|] == s[p + 1..];
    }
  }

  /** ... and that description has only one solution. */
  lemma SkipLinesUnique(s: Text, p: nat, n: nat, q: nat)
    requires n > 0 && p < q <= |s|
    requires Newlines(s[p..q]) == n && s[q - 1] == NEWLINE
    ensures SkipLines(s, p, n) == q
  {
    SkipLinesMeaning(s, p, n);
    NewlinesAdditive(s, p, q, |s|);
    assert s[p..|s|] == s[p..];
    var r := SkipLines(s, p, n);
    if r < q {
      NewlinesAdditive(s, p, r, q);
      NewlinesEndsInOne(s, r, q);
    } else if q < r {
      NewlinesAdditive(s, p, q, r);
      NewlinesEndsInOne(s, q, r);
    }
  }

  lemma NewlinesEndsInOne(s: Text, a: nat, b: nat)
    requires a < b <= |s| && s[b - 1] == NEWLINE
    ensures Newlines(s[a..b]) > 0
  {
    var t := s[a..b];
    assert t[|t| - 1] == NEWLINE;
  }

  /** The backward scan finds the start of a line from any number of newlines after it. */
  lemma {:induction false} RewindScanFinds(s: Text, ls: nat, e: nat, n: nat)
    requires LineStart(s, ls) && ls <= e <= |s|
    requires Newlines(s[ls..e]) == n
    ensures RewindScan(s, e - 1, n) == ls
    decreases e
  {
    if e == ls {
      assert s[ls..e] == [];
    } else {
      var t := s[ls..e];
      assert t[..|t| - 1] == s[ls..e - 1];
      assert t[|t| - 1] == s[e - 1];
      RewindScanFinds(s, ls, e - 1, Newlines(s[ls..e - 1]));
    }
  }

  /** A place before which fewer than n newlines, or exactly n, stand. */
  lemma {:induction false} RewindScanFails(s: Text, p: int, n: nat)
    requires 0 <= p <= |s| && Newlines(s[..p]) <= n
    ensures RewindScan(s, p - 1, n) == 0
    decreases p
  {
    if p > 0 {
      assert s[..p][..p - 1] == s[..p - 1];
      RewindScanFails(s, p - 1, if s[p - 1] == NEWLINE then n - 1 else n);
    }
  }

  /** The line start from which n newlines lead to p. */
  lemma {:induction false} LineStartBefore(s: Text, p: nat, n: nat) returns (q: nat)
    requires p <= |s| && n < Newlines(s[..p])
    ensures 0 < q <= p && LineStart(s, q) && Newlines(s[q..p]) == n
    decreases p
  {
    assert s[..p][..p - 1] == s[..p - 1];
    if s[p - 1] == NEWLINE && n == 0 {
      q := p;
      assert s[q..p] == [];
    } else {
      q := LineStartBefore(s, p - 1, if s[p - 1] == NEWLINE then n - 1 else n);
      assert s[q..p][..p - 1 - q] == s[q..p - 1] && s[q..p][p - 1 - q] == s[p - 1];
    }
  }

  /** What rewind_lines finds, without the scan: the place from which exactly n newlines lead to p and
      before which there is one more; if there is no such place, the beginning of the text. It does
      not look when at most one byte is before p, and takes a negative n for 0. */
  lemma RewindMeaning(s: Text, p: int, n: int)
    requires p <= |s|
    ensures var q, m := RewindLines(s, p, n), if n < 0 then 0 else n;
            if p <= 1 || Newlines(s[..p]) <= m then q == 0
            else 0 < q <= p && LineStart(s, q) && Newlines(s[q..p]) == m
  {
    var m := if n < 0 then 0 else n;
    if p > 1 {
      if Newlines(s[..p]) <= m {
        RewindScanFails(s, p, m);
      } else {
        var q := LineStartBefore(s, p, m);
        RewindScanFinds(s, q, p, m);
      }
    }
  }

  /** ... and that description has only one solution. */
  lemma RewindUnique(s: Text, p: nat, n: nat, q: nat)
    requires 1 < p <= |s| && 0 < q <= p && LineStart(s, q) && Newlines(s[q..p]) == n
    ensures RewindLines(s, p, n) == q && Newlines(s[..p]) > n
  {
    RewindScanFinds(s, q, p, n);
    NewlinesAdditive(s, 0, q, p);
    NewlinesEndsInOne(s, 0, q);
    assert s[0..p] == s[..p];
  }

  /** Going n lines forward and n lines back returns to the line start, except for the one
      place where the code answers before looking: a second line that starts at offset 1,
      asked for with n = 0. */
  lemma RewindUndoesSkip(s: Text, ls: nat, n: nat)
    requires LineStart(s, ls)
    requires Newlines(s[ls..]) >= n
    ensures RewindLines(s, SkipLines(s, ls, n), n) == ls <==> !(ls == 1 && n == 0)
  {
    var e := SkipLines(s, ls, n);
    SkipLinesMeaning(s, ls, n);
    if e > 1 {
      RewindScanFinds(s, ls, e, n);
    } else if n > 0 {
      assert e > ls;
    }
  }

  /** The start of the line holding position `p`: the greatest line start at or before it. */
  function StartOfLine(s: Text, p: nat): (q: nat)
    requires p <= |s|
    ensures q <= p && LineStart(s, q)
    ensures forall k :: q < k <= p ==> !LineStart(s, k)
  {
    if p == 0 || s[p - 1] == NEWLINE then p else StartOfLine(s, p - 1)
  }

  /** The first newline at or after `p`, or the end of the text. */
  function EndOfLine(s: Text, p: nat): (q: nat)
    requires p <= |s|
    ensures p <= q <= |s| && (q == |s| || s[q] == NEWLINE)
    ensures forall k :: p <= k < q ==> s[k] != NEWLINE
    decreases |s| - p
  {
    if p == |s| || s[p] == NEWLINE then p else EndOfLine(s, p + 1)
  }

  lemma {:induction false} RewindScanZero(s: Text, p: nat)
    requires p <= |s|
    ensures RewindScan(s, p - 1, 0) == StartOfLine(s, p)
  {
    if p > 0 && s[p - 1] != NEWLINE {
      RewindScanZero(s, p - 1);
    }
  }

  /** rewind_lines(p, 0) is documented as the beginning of the line. It is, unless the first
      byte is a newline and `p` is 1. */
  lemma RewindZeroIsLineStart(s: Text, p: nat)
    requires p <= |s|
    ensures RewindLines(s, p, 0) == StartOfLine(s, p) <==> !(p == 1 && s[0] == NEWLINE)
  {
    if p > 1 {
      RewindScanZero(s, p);
    }
  }

  /** Newlines between two positions, none if they do not bound a stretch of the text. */
  function NewlinesFrom(s: Text, a: int, b: int): nat
  {
    if 0 <= a <= b <= |s| then Newlines(s[a..b]) else 0
  }

  lemma NewlinesFromIs(s: Text, a: int, b: int)
    ensures NewlinesFrom(s, a, b) == if 0 <= a <= b <= |s| then multiset(s[a..b])[NEWLINE] else 0
  {
    if 0 <= a <= b <= |s| {
      NewlinesAreCounted(s[a..b]);
    }
  }

  lemma NewlinesFromStep(s: Text, a: int, p: int)
    ensures 0 <= a <= p < |s| ==>
              NewlinesFrom(s, a, p + 1) == NewlinesFrom(s, a, p) + if s[p] == NEWLINE then 1 else 0
    ensures NewlinesFrom(s, a, a) == 0
    ensures a > |s| ==> NewlinesFrom(s, a, p) == 0
  {
    if 0 <= a <= |s| {
      assert s[a..a] == [];
    }
    if 0 <= a <= p < |s| {
      var t := s[a..p + 1];
      assert t[..|t| - 1] == s[a..p];
    }
  }
}
