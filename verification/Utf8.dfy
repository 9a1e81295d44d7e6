/** UTF-8 as the toolkit reads it: the byte syntax of RFC 3629, section 4, with encoded
    surrogates let through as well. */
module Utf8 {
  import opened TextSpec

  // ----- one character

  /** A byte of the form 10xxxxxx. */
  predicate Continuation(c: int)
  {
    0x80 <= c < 0xC0
  }

  /** fl_utf8len1: the length announced by a first byte, 1 for bytes that cannot be first. */
  function CharLen(c: int): (n: int)
    ensures 1 <= n <= 6
  {
    if c < 0x80 then 1
    else if c < 0xC0 then 1
    else if c < 0xE0 then 2
    else if c < 0xF0 then 3
    else if c < 0xF8 then 4
    else if c < 0xFC then 5
    else 6
  }

  /** The source tests single bits of the byte. */
  function CharLenByBits(c: bv8): (n: int)
    ensures n == CharLen(c as int)
  {
    if c & 0x80 == 0 then 1
    else if c & 0x40 != 0 then
      if c & 0x20 != 0 then
        if c & 0x10 != 0 then
          if c & 0x08 != 0 then
            if c & 0x04 != 0 then 6 else 5
          else 4
        else 3
      else 2
    else 1
  }

  /** The length is the number of ones the byte begins with, if it begins with two at least. */
  lemma CharLenCountsOnes(c: bv8)
    ensures (c & 0xC0 == 0xC0 <==> CharLen(c as int) >= 2) && (c & 0xE0 == 0xE0 <==> CharLen(c as int) >= 3)
    ensures (c & 0xF0 == 0xF0 <==> CharLen(c as int) >= 4) && (c & 0xF8 == 0xF8 <==> CharLen(c as int) >= 5)
    ensures c & 0xFC == 0xFC <==> CharLen(c as int) >= 6
  {
  }

  predicate ValidChar(s: seq<int>)
  {
    match |s|
    case 1 => 0 <= s[0] < 0x80
    case 2 => 0xC2 <= s[0] < 0xE0 && Continuation(s[1])
    case 3 =>
      && 0xE0 <= s[0] < 0xF0 && Continuation(s[1]) && Continuation(s[2])
      && (s[0] == 0xE0 ==> 0xA0 <= s[1])
    case 4 =>
      && 0xF0 <= s[0] <= 0xF4 && Continuation(s[1]) && Continuation(s[2]) && Continuation(s[3])
      && (s[0] == 0xF0 ==> 0x90 <= s[1]) && (s[0] == 0xF4 ==> s[1] <= 0x8F)
    case _ => false
  }

  const CP1252: seq<int> := [
    0x20ac, 0x0081, 0x201a, 0x0192, 0x201e, 0x2026, 0x2020, 0x2021,
    0x02c6, 0x2030, 0x0160, 0x2039, 0x0152, 0x008d, 0x017d, 0x008f,
    0x0090, 0x2018, 0x2019, 0x201c, 0x201d, 0x2022, 0x2013, 0x2014,
    0x02dc, 0x2122, 0x0161, 0x203a, 0x0153, 0x009d, 0x017e, 0x0178]

  /** The k-th byte at a pointer; past the readable bytes there is a NUL. */
  function At(p: seq<int>, k: nat): int
  {
    if k < |p| then p[k] else 0
  }

  /** fl_utf8decode without an end pointer. Bytes that do not start a character stand for
      themselves, or for a code of Windows code page 1252. */
  function Decode(p: seq<int>): int
  {
    var c, c1, c2, c3 := At(p, 0), At(p, 1), At(p, 2), At(p, 3);
    if c < 0x80 then c
    else if c < 0xA0 then CP1252[c - 0x80]
    else if c < 0xC2 || !Continuation(c1) then c
    else if c < 0xE0 then (c % 32) * 64 + c1 % 64
    else if c < 0xF0 then
      if (c == 0xE0 && c1 < 0xA0) || !Continuation(c2) then c
      else (c % 16) * 4096 + (c1 % 64) * 64 + c2 % 64
    else if c <= 0xF4 then
      if (c == 0xF0 && c1 < 0x90) || (c == 0xF4 && c1 > 0x8F) || !Continuation(c2) || !Continuation(c3) then c
      else (c % 8) * 262144 + (c1 % 64) * 4096 + (c2 % 64) * 64 + c3 % 64
    else c
  }

  /** fl_utf8encode. */
  function Encode(u: nat): (s: seq<int>)
  {
    if u < 0x80 then [u]
    else if u < 0x800 then [0xC0 + u / 64, 0x80 + u % 64]
    else if u < 0x10000 then [0xE0 + u / 4096, 0x80 + u / 64 % 64, 0x80 + u % 64]
    else if u <= 0x10FFFF then
      [0xF0 + u / 262144, 0x80 + u / 4096 % 64, 0x80 + u / 64 % 64, 0x80 + u % 64]
    else [0xEF, 0xBF, 0xBD]
  }

  /** The base-64 digits of a code. */
  lemma Digits(u: nat)
    ensures u == u / 64 * 64 + u % 64
    ensures u / 64 == u / 4096 * 64 + u / 64 % 64
    ensures u / 4096 == u / 262144 * 64 + u / 4096 % 64
  {
    assert u / 64 / 64 == u / 4096;
    assert u / 4096 / 64 == u / 262144;
  }

  lemma DecodeEncodeShort(u: nat, rest: seq<int>)
    requires u < 0x800
    ensures ValidChar(Encode(u)) && Decode(Encode(u) + rest) == u
  {
    Digits(u);
    var p := Encode(u) + rest;
    assert u >= 0x80 ==> At(p, 0) % 32 == u / 64 && At(p, 1) % 64 == u % 64;
  }

  lemma DecodeEncode3(u: nat, rest: seq<int>)
    requires 0x800 <= u < 0x10000
    ensures ValidChar(Encode(u)) && Decode(Encode(u) + rest) == u
  {
    Digits(u);
    var p := Encode(u) + rest;
    assert At(p, 0) % 16 == u / 4096 && At(p, 1) % 64 == u / 64 % 64 && At(p, 2) % 64 == u % 64;
  }

  lemma DecodeEncode4(u: nat, rest: seq<int>)
    requires 0x10000 <= u <= 0x10FFFF
    ensures ValidChar(Encode(u)) && Decode(Encode(u) + rest) == u
  {
    Digits(u);
    var p := Encode(u) + rest;
    assert At(p, 0) % 8 == u / 262144 && At(p, 1) % 64 == u / 4096 % 64;
    assert At(p, 2) % 64 == u / 64 % 64 && At(p, 3) % 64 == u % 64;
  }

  /** Encoding and decoding are the identity for every code from 0 to 0x10FFFF, and what is
      encoded is one valid character. Bytes that follow do not matter. */
  lemma DecodeEncode(u: nat, rest: seq<int>)
    requires u <= 0x10FFFF
    ensures ValidChar(Encode(u))
    ensures Decode(Encode(u) + rest) == u
  {
    hide ValidChar, Encode, Decode;
    if u < 0x800 {
      DecodeEncodeShort(u, rest);
    } else if u < 0x10000 {
      DecodeEncode3(u, rest);
    } else {
      DecodeEncode4(u, rest);
    }
  }

  /** Every valid character is the encoding of the code it decodes to. */
  lemma EncodeDecode(s: seq<int>, rest: seq<int>)
    requires ValidChar(s)
    ensures 0 <= Decode(s + rest) <= 0x10FFFF && Encode(Decode(s + rest)) == s
  {
    var p := s + rest;
    match |s|
    case 1 =>
    case 2 => EncodeDecode2(p, s[0] - 0xC0, s[1] - 0x80);
    case 3 => EncodeDecode3(p, s[0] - 0xE0, s[1] - 0x80, s[2] - 0x80);
    case 4 => EncodeDecode4(p, s[0] - 0xF0, s[1] - 0x80, s[2] - 0x80, s[3] - 0x80);
  }

  lemma EncodeDecode2(p: seq<int>, c: nat, d: nat)
    requires 2 <= c < 32 && d < 64 && |p| >= 2 && p[0] == 0xC0 + c && p[1] == 0x80 + d
    ensures Decode(p) <= 0x10FFFF && Encode(Decode(p)) == [0xC0 + c, 0x80 + d]
  {
    Decode2(p, c, d);
    LastDigit(c, d);
  }

  lemma Decode2(p: seq<int>, c: nat, d: nat)
    requires 2 <= c < 32 && d < 64 && |p| >= 2 && p[0] == 0xC0 + c && p[1] == 0x80 + d
    ensures Decode(p) == c * 64 + d
  {
    assert (0xC0 + c) % 32 == c && (0x80 + d) % 64 == d;
  }

  lemma EncodeDecode3(p: seq<int>, b: nat, c: nat, d: nat)
    requires b < 16 && c < 64 && d < 64 && (b == 0 ==> c >= 32)
    requires |p| >= 3 && p[0] == 0xE0 + b && p[1] == 0x80 + c && p[2] == 0x80 + d
    ensures Decode(p) <= 0x10FFFF && Encode(Decode(p)) == [0xE0 + b, 0x80 + c, 0x80 + d]
  {
    Decode3(p, b, c, d);
    Encode3(b, c, d);
  }

  lemma Decode3(p: seq<int>, b: nat, c: nat, d: nat)
    requires b < 16 && c < 64 && d < 64 && (b == 0 ==> c >= 32)
    requires |p| >= 3 && p[0] == 0xE0 + b && p[1] == 0x80 + c && p[2] == 0x80 + d
    ensures Decode(p) == b * 4096 + c * 64 + d
  {
    assert (0xE0 + b) % 16 == b && (0x80 + c) % 64 == c && (0x80 + d) % 64 == d;
  }

  lemma Encode3(b: nat, c: nat, d: nat)
    requires b < 16 && c < 64 && d < 64 && (b == 0 ==> c >= 32)
    ensures Encode(b * 4096 + c * 64 + d) == [0xE0 + b, 0x80 + c, 0x80 + d]
  {
    FromDigits(0, b, c, d);
  }

  lemma EncodeDecode4(p: seq<int>, a: nat, b: nat, c: nat, d: nat)
    requires a < 5 && b < 64 && c < 64 && d < 64 && (a == 0 ==> b >= 16) && (a == 4 ==> b < 16)
    requires |p| >= 4 && p[0] == 0xF0 + a && p[1] == 0x80 + b && p[2] == 0x80 + c && p[3] == 0x80 + d
    ensures Decode(p) <= 0x10FFFF && Encode(Decode(p)) == [0xF0 + a, 0x80 + b, 0x80 + c, 0x80 + d]
  {
    Decode4(p, a, b, c, d);
    Encode4(a, b, c, d);
  }

  lemma Decode4(p: seq<int>, a: nat, b: nat, c: nat, d: nat)
    requires a < 5 && b < 64 && c < 64 && d < 64 && (a == 0 ==> b >= 16) && (a == 4 ==> b < 16)
    requires |p| >= 4 && p[0] == 0xF0 + a && p[1] == 0x80 + b && p[2] == 0x80 + c && p[3] == 0x80 + d
    ensures Decode(p) == a * 262144 + b * 4096 + c * 64 + d
  {
    assert (0xF0 + a) % 8 == a && (0x80 + b) % 64 == b && (0x80 + c) % 64 == c && (0x80 + d) % 64 == d;
  }

  lemma Encode4(a: nat, b: nat, c: nat, d: nat)
    requires a < 5 && b < 64 && c < 64 && d < 64 && (a == 0 ==> b >= 16) && (a == 4 ==> b < 16)
    ensures a * 262144 + b * 4096 + c * 64 + d <= 0x10FFFF
    ensures Encode(a * 262144 + b * 4096 + c * 64 + d) == [0xF0 + a, 0x80 + b, 0x80 + c, 0x80 + d]
  {
    FromDigits(a, b, c, d);
  }

  lemma FromDigits(a: nat, b: nat, c: nat, d: nat)
    requires b < 64 && c < 64 && d < 64
    ensures var u := a * 262144 + b * 4096 + c * 64 + d;
            u / 262144 == a && u / 4096 % 64 == b && u / 64 % 64 == c && u % 64 == d
            && u / 4096 == a * 64 + b && u / 64 == a * 4096 + b * 64 + c
  {
    var u := a * 262144 + b * 4096 + c * 64 + d;
    LastDigit(a * 4096 + b * 64 + c, d);
    LastDigit(a * 64 + b, c);
    LastDigit(a, b);
    NestedQuotients(u);
  }

  lemma LastDigit(q: nat, r: nat)
    requires r < 64
    ensures (q * 64 + r) / 64 == q && (q * 64 + r) % 64 == r
  {
  }

  lemma NestedQuotients(u: nat)
    ensures u / 64 / 64 == u / 4096 && u / 4096 / 64 == u / 262144
  {
  }

  /** Decoding looks at one character only. */
  lemma DecodeIgnoresRest(c: seq<int>, r1: seq<int>, r2: seq<int>)
    requires ValidChar(c)
    ensures Decode(c + r1) == Decode(c + r2)
  {
    EncodeDecode(c, r1);
    DecodeEncode(Decode(c + r1), r2);
  }

  /** A valid character has the announced length, and only its first byte can start one. */
  lemma CharShape(c: seq<int>)
    requires ValidChar(c)
    ensures |c| == CharLen(c[0]) && !Continuation(c[0])
    ensures forall k :: 0 < k < |c| ==> Continuation(c[k])
  {
  }

  // ----- well-formed text

  ghost predicate WellFormed(s: Text)
  {
    s != [] ==>
      var n := CharLen(s[0]);
      n <= |s| && ValidChar(s[..n]) && WellFormed(s[n..])
  }

  /** A place where a character may start: the end, or a byte that is not a continuation. */
  ghost predicate Boundary(s: Text, i: int)
  {
    0 <= i <= |s| && (i < |s| ==> !Continuation(s[i]))
  }

  lemma {:induction false} WellFormedConcat(a: Text, b: Text)
    requires WellFormed(a) && WellFormed(b)
    ensures WellFormed(a + b)
    decreases |a|
  {
    if a == [] {
      assert a + b == b;
    } else {
      var n := CharLen(a[0]);
      assert (a + b)[..n] == a[..n] && (a + b)[n..] == a[n..] + b;
      WellFormedConcat(a[n..], b);
    }
  }

  lemma FirstCharBefore(a: Text, b: Text)
    requires WellFormed(a + b) && Boundary(a + b, |a|) && a != []
    ensures var n := CharLen(a[0]);
            n <= |a| && ValidChar(a[..n]) && WellFormed(a[n..] + b)
  {
    hide ValidChar;
    var s := a + b;
    var n := CharLen(s[0]);
    assert s[0..n] == s[..n];
    ContinuesInside(s, 0, n);
    assert n <= |a|;
    assert s[..n] == a[..n];
    assert s[n..] == a[n..] + b;
  }

  lemma {:induction false} CutBetween(a: Text, b: Text)
    requires WellFormed(a + b) && Boundary(a + b, |a|)
    ensures WellFormed(a) && WellFormed(b)
    decreases |a|
  {
    hide ValidChar;
    if a == [] {
      assert a + b == b;
    } else {
      var n := CharLen(a[0]);
      FirstCharBefore(a, b);
      assert b != [] ==> (a[n..] + b)[|a| - n] == b[0] && (a + b)[|a|] == b[0];
      CutBetween(a[n..], b);
    }
  }

  /** In well-formed text the boundaries are exactly the places where it can be cut in two. */
  lemma CutAtBoundary(s: Text, i: int)
    requires WellFormed(s) && Boundary(s, i)
    ensures WellFormed(s[..i]) && WellFormed(s[i..])
  {
    assert s == s[..i] + s[i..];
    CutBetween(s[..i], s[i..]);
  }

  lemma CutsAreBoundaries(s: Text, i: nat)
    requires i <= |s| && WellFormed(s[i..])
    ensures Boundary(s, i)
  {
    if i < |s| {
      assert s[i..][0] == s[i];
      assert s[i..][..CharLen(s[i])][0] == s[i];
    }
  }

  lemma StartIsBoundary(s: Text)
    requires WellFormed(s)
    ensures Boundary(s, 0)
  {
    assert s[0..] == s;
    CutsAreBoundaries(s, 0);
  }

  lemma PieceWellFormed(s: Text, a: int, b: int)
    requires WellFormed(s) && Boundary(s, a) && Boundary(s, b) && a <= b
    ensures WellFormed(s[a..b])
  {
    CutAtBoundary(s, b);
    var t := s[..b];
    assert a < b ==> t[a] == s[a];
    CutAtBoundary(t, a);
    assert t[a..] == s[a..b];
  }

  /** An edit with well-formed text at boundaries leaves well-formed text, and both ends of the
      new piece are boundaries. */
  lemma SpliceWellFormed(s: Text, a: int, b: int, t: Text)
    requires WellFormed(s) && WellFormed(t) && a <= b && Boundary(s, a) && Boundary(s, b)
    ensures var r := Splice(s, a, b, t);
            WellFormed(r) && Boundary(r, a) && Boundary(r, a + |t|)
  {
    var r := Splice(s, a, b, t);
    CutAtBoundary(s, a);
    CutAtBoundary(s, b);
    WellFormedConcat(t, s[b..]);
    WellFormedConcat(s[..a], t + s[b..]);
    SpliceParts(s, a, b, t);
    CutsAreBoundaries(r, a);
    CutsAreBoundaries(r, a + |t|);
  }

  /** The character that starts at a boundary. */
  lemma CharAtBoundary(s: Text, i: int)
    requires WellFormed(s) && Boundary(s, i) && i < |s|
    ensures var n := CharLen(s[i]);
            i + n <= |s| && ValidChar(s[i..i + n]) && Boundary(s, i + n)
            && forall k :: i < k < i + n ==> Continuation(s[k])
  {
    hide WellFormed, ValidChar;
    CutAtBoundary(s, i);
    var n := CharLen(s[i]);
    var tail := s[i..];
    assert tail[0] == s[i] && tail[..n] == s[i..i + n] && tail[n..] == s[i + n..];
    CutsAreBoundaries(s, i + n);
    ContinuesInside(s, i, n);
  }

  lemma ContinuesInside(s: Text, i: int, n: int)
    requires 0 <= i && i + n <= |s| && 0 < n && ValidChar(s[i..i + n])
    ensures forall k :: i < k < i + n ==> Continuation(s[k])
  {
    var c := s[i..i + n];
    CharShape(c);
    forall k | i < k < i + n
      ensures Continuation(s[k])
    {
      assert s[k] == c[k - i];
    }
  }

  // ----- stepping

  function ByteOf(s: Text, p: int): int
  {
    if 0 <= p < |s| then s[p] else 0
  }

  function NextChar(s: Text, p: int): int
  {
    var q := p + CharLen(ByteOf(s, p));
    if q >= |s| then |s| else q
  }

  /** Back over continuation bytes; position 0 ends the search whatever is there. */
  function PrevScan(s: Text, p: int): int
    requires p > 0
  {
    if p == 1 then 0
    else if Continuation(ByteOf(s, p - 1)) then PrevScan(s, p - 1)
    else p - 1
  }

  function PrevCharClipped(s: Text, p: int): int
  {
    if p <= 0 then 0 else PrevScan(s, p)
  }

  function PrevChar(s: Text, p: int): int
  {
    if p == 0 then -1 else PrevCharClipped(s, p)
  }

  function Align(s: Text, p: int): int
    decreases p
  {
    if Continuation(ByteOf(s, p)) then Align(s, p - 1) else p
  }

  /** next_char goes to the nearest boundary after a boundary. */
  lemma NextCharIsNextBoundary(s: Text, i: int)
    requires WellFormed(s) && Boundary(s, i) && i < |s|
    ensures var q := NextChar(s, i);
            i < q && Boundary(s, q) && forall k :: i < k < q ==> !Boundary(s, k)
  {
    hide WellFormed, ValidChar;
    CharAtBoundary(s, i);
  }

  lemma {:induction false} PrevScanStops(s: Text, p: int)
    requires WellFormed(s) && 0 < p <= |s|
    ensures var q := PrevScan(s, p);
            0 <= q < p && Boundary(s, q) && forall k :: q < k < p ==> !Boundary(s, k)
  {
    if p == 1 {
      StartIsBoundary(s);
    } else if Continuation(s[p - 1]) {
      PrevScanStops(s, p - 1);
    }
  }

  /** prev_char goes to the nearest boundary before. */
  lemma PrevCharIsPrevBoundary(s: Text, p: int)
    requires WellFormed(s) && 0 < p <= |s|
    ensures var q := PrevChar(s, p);
            0 <= q < p && Boundary(s, q) && forall k :: q < k < p ==> !Boundary(s, k)
  {
    PrevScanStops(s, p);
  }

  /** At and outside the ends of the text. */
  lemma StepsAtTheEnds(s: Text, p: int)
    ensures PrevChar(s, 0) == -1 && (p < 0 ==> PrevChar(s, p) == 0)
    ensures p >= |s| ==> NextChar(s, p) == |s|
    ensures p < 0 || p >= |s| ==> Align(s, p) == p
  {
  }

  /** On the boundaries of well-formed text the two steps undo each other. */
  lemma StepsAreInverse(s: Text, i: int)
    requires WellFormed(s) && Boundary(s, i)
    ensures i < |s| ==> PrevChar(s, NextChar(s, i)) == i
    ensures i > 0 ==> NextChar(s, PrevChar(s, i)) == i
  {
    if i < |s| {
      NextCharIsNextBoundary(s, i);
      PrevCharIsPrevBoundary(s, NextChar(s, i));
    }
    if i > 0 {
      PrevCharIsPrevBoundary(s, i);
      NextCharIsNextBoundary(s, PrevChar(s, i));
    }
  }

  /** utf8_align finds the greatest boundary at or before a position of the text. */
  lemma {:induction false} AlignIsGreatestBoundary(s: Text, p: int)
    requires WellFormed(s) && 0 <= p <= |s|
    ensures var q := Align(s, p);
            q <= p && Boundary(s, q) && forall k :: q < k <= p ==> !Boundary(s, k)
  {
    if Continuation(ByteOf(s, p)) {
      StartIsBoundary(s);
      AlignIsGreatestBoundary(s, p - 1);
    }
  }

  // ----- searching for a character

  /** The code of the character at a boundary. */
  ghost function CodeAt(s: Text, i: int): int
    requires 0 <= i < |s|
  {
    Decode(s[i..])
  }

  lemma EncodeAscii(u: nat)
    ensures u < 0x80 <==> Encode(u)[0] < 0x80
    ensures u < 0x80 ==> Encode(u) == [u]
  {
  }

  /** ASCII codes are their own bytes. */
  lemma AsciiCode(s: Text, i: int, c: int)
    requires WellFormed(s) && Boundary(s, i) && i < |s| && 0 <= c < 0x80
    ensures CodeAt(s, i) == c <==> s[i] == c
  {
    hide WellFormed, ValidChar, Encode, Decode;
    CharAtBoundary(s, i);
    var n := CharLen(s[i]);
    var one, rest := s[i..i + n], s[i + n..];
    assert s[i..] == one + rest && one[0] == s[i];
    EncodeDecode(one, rest);
    EncodeAscii(Decode(one + rest));
  }

  // ----- edits anywhere

  lemma {:induction false} WellFormedCancel(a: Text, b: Text)
    requires WellFormed(a) && WellFormed(a + b)
    ensures WellFormed(b)
    decreases |a|
  {
    if a == [] {
      assert a + b == b;
    } else {
      var n := CharLen(a[0]);
      assert (a + b)[..n] == a[..n] && (a + b)[n..] == a[n..] + b;
      WellFormedCancel(a[n..], b);
    }
  }

  /** Where the character around a place starts and ends. */
  ghost function CharStart(s: Text, p: int): (q: int)
    requires WellFormed(s) && 0 <= p <= |s|
    ensures 0 <= q <= p && Boundary(s, q) && forall k :: q < k <= p ==> !Boundary(s, k)
  {
    AlignIsGreatestBoundary(s, p);
    Align(s, p)
  }

  ghost function CharEnd(s: Text, p: int): (q: int)
    requires 0 <= p <= |s|
    ensures p <= q <= |s| && Boundary(s, q) && forall k :: p <= k < q ==> !Boundary(s, k)
    decreases |s| - p
  {
    if p < |s| && Continuation(s[p]) then CharEnd(s, p + 1) else p
  }

  /** Replacing [a, b) by `t` cuts no character, or cuts two, without putting anything between, so
      that their halves make up a character again. */
  ghost predicate Replaceable(s: Text, a: int, b: int, t: Text)
    requires WellFormed(s) && 0 <= a <= b <= |s|
  {
    (Boundary(s, a) && Boundary(s, b))
    || (t == [] && !Boundary(s, a) && !Boundary(s, b)
        && ValidChar(s[CharStart(s, a)..a] + s[b..CharEnd(s, b)]))
  }

  lemma TornChar(y: Text, n: int)
    requires WellFormed(y) && 0 < n && Boundary(y, n) && forall k :: 0 < k < n ==> Continuation(y[k])
    ensures CharLen(y[0]) == n && ValidChar(y[..n])
  {
    hide WellFormed, ValidChar;
    StartIsBoundary(y);
    CharAtBoundary(y, 0);
    assert y[0..CharLen(y[0])] == y[..CharLen(y[0])];
  }

  /** Half a character is not completed by something that starts a new one. */
  lemma TornFront(s: Text, a: int, z: Text)
    requires WellFormed(s) && 0 <= a <= |s| && !Boundary(s, a)
    requires z != [] ==> !Continuation(z[0])
    ensures !WellFormed(s[..a] + z)
  {
    hide WellFormed, ValidChar;
    var p := CharStart(s, a);
    CutAtBoundary(s, p);
    CharAtBoundary(s, p);
    assert s[..a] + z == s[..p] + (s[p..a] + z);
    if WellFormed(s[..a] + z) {
      WellFormedCancel(s[..p], s[p..a] + z);
      FirstHalf(s, p, a, z);
    }
  }

  lemma FirstHalf(s: Text, p: int, a: int, z: Text)
    requires 0 <= p < a < |s| && forall k :: p < k <= a ==> !Boundary(s, k)
    requires WellFormed(s[p..a] + z) && (z != [] ==> !Continuation(z[0]))
    ensures CharLen(s[p]) == a - p
  {
    hide WellFormed, ValidChar;
    var y := s[p..a] + z;
    forall k | 0 < k < a - p
      ensures Continuation(y[k])
    {
      assert y[k] == s[p + k] && !Boundary(s, p + k);
    }
    assert z != [] ==> y[a - p] == z[0];
    TornChar(y, a - p);
  }

  lemma OneChar(c: Text)
    requires ValidChar(c)
    ensures WellFormed(c)
  {
    CharShape(c);
    assert c[..|c|] == c && c[|c|..] == [];
  }

  /** Text with the middle of two characters, and all between, taken out. */
  lemma TornBoth(s: Text, a: int, b: int)
    requires WellFormed(s) && 0 <= a <= b <= |s| && !Boundary(s, a) && !Boundary(s, b)
    ensures WellFormed(s[..a] + s[b..]) <==> ValidChar(s[CharStart(s, a)..a] + s[b..CharEnd(s, b)])
  {
    hide ValidChar, WellFormed;
    var p, q := CharStart(s, a), CharEnd(s, b);
    var c := s[p..a] + s[b..q];
    CutAtBoundary(s, p);
    CutAtBoundary(s, q);
    Halves(s, p, a, b, q);
    HalvesContinue(s, p, a, b, q);
    TornMiddle(s[..p], c, s[q..]);
  }

  lemma Halves(s: Text, p: int, a: int, b: int, q: int)
    requires 0 <= p <= a <= b <= q <= |s|
    ensures s[..a] + s[b..] == s[..p] + ((s[p..a] + s[b..q]) + s[q..])
  {
    assert s[..a] == s[..p] + s[p..a];
    assert s[b..] == s[b..q] + s[q..];
  }

  lemma HalvesContinue(s: Text, p: int, a: int, b: int, q: int)
    requires 0 <= p < a <= b < q <= |s|
    requires forall k :: p < k < a || b <= k < q ==> !Boundary(s, k)
    ensures forall k :: 0 < k < a - p + q - b ==> Continuation((s[p..a] + s[b..q])[k])
  {
    var c := s[p..a] + s[b..q];
    forall k | 0 < k < |c|
      ensures Continuation(c[k])
    {
      var j := if k < a - p then p + k else b + (k - (a - p));
      assert c[k] == s[j] && !Boundary(s, j);
    }
  }

  lemma TornMiddle(x: Text, c: Text, w: Text)
    requires WellFormed(x) && WellFormed(w) && c != []
    requires forall k :: 0 < k < |c| ==> Continuation(c[k])
    ensures WellFormed(x + (c + w)) <==> ValidChar(c)
  {
    hide ValidChar, WellFormed;
    var y := c + w;
    if ValidChar(c) {
      OneChar(c);
      WellFormedConcat(c, w);
      WellFormedConcat(x, y);
    }
    if WellFormed(x + y) {
      WellFormedCancel(x, y);
      StartIsBoundary(w);
      assert w != [] ==> y[|c|] == w[0];
      assert forall k :: 0 < k < |c| ==> y[k] == c[k];
      TornChar(y, |c|);
      assert y[..|c|] == c;
    }
  }

  /** Exactly which edits of well-formed text with well-formed text leave it well formed. */
  lemma SpliceWellFormedIff(s: Text, a: int, b: int, t: Text)
    requires WellFormed(s) && WellFormed(t) && 0 <= a <= b <= |s|
    ensures WellFormed(Splice(s, a, b, t)) <==> Replaceable(s, a, b, t)
  {
    hide WellFormed, ValidChar;
    var z := t + s[b..];
    assert Splice(s, a, b, t) == s[..a] + z;
    if Boundary(s, a) && Boundary(s, b) {
      SpliceWellFormed(s, a, b, t);
    } else if Boundary(s, a) {
      CutAtBoundary(s, a);
      WellFormedConcat(s[..a], t);
      assert s[..a] + z == s[..a] + t + s[b..];
      if WellFormed(s[..a] + z) {
        WellFormedCancel(s[..a] + t, s[b..]);
        CutsAreBoundaries(s, b);
      }
    } else if t == [] && !Boundary(s, b) {
      assert z == s[b..];
      TornBoth(s, a, b);
    } else {
      StartIsBoundary(t);
      TornFront(s, a, z);
    }
  }
}
