/** What the words of an icon stream draw: which call each word makes, with which coordinates and in
    which colour. */
module IconDrawings {
  import opened FileIcons

  // ----- what is open, read off the commands

  /** Command j is the primitive that is open before command i. */
  ghost predicate OpenAt(cs: seq<Command>, i: int, j: int)
  {
    0 <= j < i <= |cs| && Starts(cs[j]) && forall k :: j < k < i ==> !Starts(cs[k]) && !cs[k].End?
  }

  /** Every primitive begun before command i has been ended. */
  ghost predicate NoneOpen(cs: seq<Command>, i: int)
  {
    0 <= i <= |cs| && forall j :: 0 <= j < i && Starts(cs[j]) ==> exists k :: j < k < i && cs[k].End?
  }

  lemma {:induction false} OpenOrNot(cs: seq<Command>, i: int) returns (j: int)
    requires 0 <= i <= |cs|
    ensures if j < 0 then NoneOpen(cs, i) else OpenAt(cs, i, j)
    decreases i
  {
    if i == 0 || cs[i - 1].End? {
      j := -1;
    } else if Starts(cs[i - 1]) {
      j := i - 1;
    } else {
      j := OpenOrNot(cs, i - 1);
    }
  }

  lemma PenBefore(st: Style, cs: seq<Command>, i: int)
    requires 0 <= i < |cs|
    ensures PenAt(st, cs[..i + 1]) == PenAfter(st, PenAt(st, cs[..i]), cs[i])
    ensures Calls(st, cs[..i + 1]) == Calls(st, cs[..i]) + CallsOf(st, PenAt(st, cs[..i]), cs[i])
  {
    assert cs[..i + 1][..i] == cs[..i];
  }

  /** The open primitive is command j, and its leading vertices are those that follow it directly. */
  lemma {:induction false} PenOpen(st: Style, cs: seq<Command>, i: int, j: int)
    requires OpenAt(cs, i, j)
    ensures var o := PenAt(st, cs[..i]).open;
            o.Primitive? && o.start == cs[j] && Leading(cs, i, j, o.lead, o.over)
    decreases i
  {
    hide CallsOf, Calls, PenAt, Leading, Shade;
    PenBefore(st, cs, i - 1);
    if j < i - 1 {
      PenOpen(st, cs, i - 1, j);
      var o := PenAt(st, cs[..i - 1]).open;
      LeadingGrows(cs, i, j, o.lead, o.over);
    } else {
      LeadingStarts(cs, j);
    }
  }

  lemma LeadingStarts(cs: seq<Command>, j: int)
    requires 0 <= j < |cs|
    ensures Leading(cs, j + 1, j, [], false)
  {
  }

  lemma LeadingGrows(cs: seq<Command>, i: int, j: int, lead: seq<Command>, over: bool)
    requires i >= 1 && i <= |cs| && Leading(cs, i - 1, j, lead, over)
    ensures over || !cs[i - 1].Vertex? ==> Leading(cs, i, j, lead, true)
    ensures !over && cs[i - 1].Vertex? ==> Leading(cs, i, j, lead + [cs[i - 1]], false)
  {
    if !over && cs[i - 1].Vertex? {
      assert lead + [cs[i - 1]] == cs[j + 1..i];
    }
  }

  predicate Leading(cs: seq<Command>, i: int, j: int, lead: seq<Command>, over: bool)
  {
    var e := j + 1 + |lead|;
    && 0 <= j < e <= i <= |cs| && lead == cs[j + 1..e] && (forall v :: v in lead ==> v.Vertex?)
    && if over then e < i && !cs[e].Vertex? else e == i
  }

  lemma {:induction false} PenClosed(st: Style, cs: seq<Command>, i: int)
    requires NoneOpen(cs, i)
    ensures PenAt(st, cs[..i]).open.Nothing?
    decreases i
  {
    hide CallsOf, Calls;
    if i > 0 {
      PenBefore(st, cs, i - 1);
      if !cs[i - 1].End? {
        forall j | 0 <= j < i - 1 && Starts(cs[j]) ensures exists k :: j < k < i - 1 && cs[k].End? {
          var k :| j < k < i && cs[k].End?;
          assert k < i - 1;
        }
        PenClosed(st, cs, i - 1);
      }
    }
  }

  // ----- words

  /** The colour in the two words at d, as it is shown: 0xffffffff stands for the icon's own, and an
      inactive icon is dimmed. */
  function ShownColor(st: Style, w: seq<Word>, d: int): bv32
    requires 0 <= d && d + 1 < |w|
  {
    var c := (w[d] as bv32 << 16) | w[d + 1] as bv32;
    var e := if c == 0xffff_ffff then st.ic else c;
    if st.active then e else st.dim(e)
  }

  /** Command i of the stream w stands at place d. */
  ghost predicate CommandAt(w: seq<Word>, cs: seq<Command>, i: int, d: int)
  {
    Decode(w) == Commands(cs) && 0 <= i < |cs| && d == Place(cs, i)
  }

  lemma WordsOf(w: seq<Word>, cs: seq<Command>, i: int, d: int)
    requires CommandAt(w, cs, i, d)
    ensures Shows(w, d, cs[i]) && d < |w| && Place(cs, i + 1) == d + Size(cs[i])
  {
    hide Encode, Decode, Shows;
    EncodeDecode(w);
    WordsOfCommand(cs, i);
    SizeIs(cs[i]);
    assert cs[i] in cs;
    ReadCommand(w, d, cs[i]);
    hide EncodeAll;
    assert Size(cs[i]) > 0;
  }

  /** The first word says which command it is. */
  lemma OpcodeOf(w: seq<Word>, cs: seq<Command>, i: int, d: int)
    requires CommandAt(w, cs, i, d)
    ensures d < |w| && d + Size(cs[i]) <= |w| && Place(cs, i + 1) == d + Size(cs[i])
    ensures (w[d] == VERTEX <==> cs[i].Vertex?) && (w[d] == END <==> cs[i].End?)
    ensures (w[d] == LINE <==> cs[i].Line?) && (w[d] == CLOSEDLINE <==> cs[i].ClosedLine?)
    ensures (w[d] == POLYGON <==> cs[i].Polygon?) && (w[d] == OUTLINEPOLYGON <==> cs[i].OutlinePolygon?)
  {
    hide Decode, FromShort, ColorOf, Place;
    WordsOf(w, cs, i, d);
  }

  // ----- what each word draws

  /** Drawing begins with the icon's colour, and nothing is drawn without words. */
  lemma DrawnFirst(st: Style)
    ensures Drawing(st, []) == []
    ensures Calls(st, []) == [SetColor(if st.active then st.ic else st.dim(st.ic))]
  {
  }

  /** What is drawn up to a command comes before what that command draws. */
  lemma {:induction false} DrawnInOrder(st: Style, cs: seq<Command>, i: int)
    requires cs != [] && 0 <= i <= |cs|
    ensures Calls(st, cs[..i]) <= Drawing(st, cs)
    decreases |cs| - i
  {
    hide CallsOf, Close;
    if i < |cs| {
      PenBefore(st, cs, i);
      DrawnInOrder(st, cs, i + 1);
    } else {
      assert cs[..i] == cs;
    }
  }

  /** A vertex is drawn inside a primitive, x from its first operand and y from its second; outside
      it is not. */
  lemma DrawnVertex(st: Style, w: seq<Word>, cs: seq<Command>, i: int, d: int, j: int)
    requires CommandAt(w, cs, i, d) && d < |w| && w[d] == VERTEX
    ensures d + 2 < |w|
    ensures OpenAt(cs, i, j) ==>
              Calls(st, cs[..i + 1]) == Calls(st, cs[..i]) + [Point(FromShort(w[d + 1]), FromShort(w[d + 2]))]
    ensures NoneOpen(cs, i) ==> Calls(st, cs[..i + 1]) == Calls(st, cs[..i])
  {
    hide Calls, FromShort, Decode, PenAfter;
    WordsOf(w, cs, i, d);
    PenBefore(st, cs, i);
    if OpenAt(cs, i, j) {
      PenOpen(st, cs, i, j);
    } else if NoneOpen(cs, i) {
      PenClosed(st, cs, i);
    }
  }

  lemma DrawnColor(st: Style, w: seq<Word>, cs: seq<Command>, i: int, d: int)
    requires CommandAt(w, cs, i, d) && d < |w| && w[d] == COLOR
    ensures d + 2 < |w|
    ensures Calls(st, cs[..i + 1]) == Calls(st, cs[..i]) + [SetColor(ShownColor(st, w, d + 1))]
    ensures PenAt(st, cs[..i + 1]).color == ShownColor(st, w, d + 1)
  {
    hide Calls, Decode;
    WordsOf(w, cs, i, d);
    PenBefore(st, cs, i);
  }

  /** The four beginnings; a word that is no opcode draws nothing. */
  lemma DrawnBegin(st: Style, w: seq<Word>, cs: seq<Command>, i: int, d: int)
    requires CommandAt(w, cs, i, d) && d < |w| && w[d] != END && w[d] != COLOR && w[d] != VERTEX
    ensures Calls(st, cs[..i + 1]) == Calls(st, cs[..i])
            + (if w[d] == LINE then [BeginLine]
               else if w[d] == CLOSEDLINE then [BeginLoop]
               else if w[d] == POLYGON || w[d] == OUTLINEPOLYGON then [BeginComplexPolygon]
               else [])
    ensures PenAt(st, cs[..i + 1]).color == PenAt(st, cs[..i]).color
  {
    hide Calls, Decode;
    WordsOf(w, cs, i, d);
    PenBefore(st, cs, i);
  }

  /** An end outside every primitive draws nothing. */
  lemma DrawnNoEnd(st: Style, w: seq<Word>, cs: seq<Command>, i: int, d: int)
    requires CommandAt(w, cs, i, d) && d < |w| && w[d] == END && NoneOpen(cs, i)
    ensures Calls(st, cs[..i + 1]) == Calls(st, cs[..i])
  {
    hide Calls, Decode;
    WordsOf(w, cs, i, d);
    PenBefore(st, cs, i);
    PenClosed(st, cs, i);
  }

  /** How the primitive whose command stands at p is closed, but for the outline. */
  function ClosingCalls(w: seq<Word>, p: int, last: bool): seq<Call>
    requires 0 <= p < |w|
  {
    if w[p] == LINE then [EndLine]
    else if w[p] == CLOSEDLINE then [EndLoop]
    else [if last then EndPolygon else EndComplexPolygon]
  }

  /** The outline of the polygon at p: in its own colour, through the vertices that directly follow
      its command, in order; afterwards the colour `now` is set. */
  ghost predicate OutlineCalls(st: Style, w: seq<Word>, p: int, now: bv32, calls: seq<Call>)
  {
    var m := |calls| - 4;
    && 0 <= m && 0 <= p && p + 3 + 3 * m <= |w|
    && calls[0] == SetColor(ShownColor(st, w, p + 1)) && calls[1] == BeginLoop
    && (forall k :: 0 <= k < m ==> VertexDrawn(w, p + 3 + 3 * k, calls[k + 2]))
    && (p + 3 + 3 * m < |w| ==> w[p + 3 + 3 * m] != VERTEX)
    && calls[m + 2] == EndLoop && calls[m + 3] == SetColor(now)
  }

  predicate VertexDrawn(w: seq<Word>, d: int, call: Call)
  {
    0 <= d && d + 2 < |w| && w[d] == VERTEX && call == Point(FromShort(w[d + 1]), FromShort(w[d + 2]))
  }

  lemma {:induction false} PointsAt(vs: seq<Command>, k: int)
    requires (forall v :: v in vs ==> v.Vertex?) && 0 <= k < |vs|
    ensures |Points(vs)| == |vs| && Points(vs)[k] == Point(vs[k].x, vs[k].y)
  {
    var n := |vs| - 1;
    assert forall v :: v in vs[..n] ==> v in vs;
    if k < n {
      PointsAt(vs[..n], k);
    } else if n > 0 {
      PointsAt(vs[..n], 0);
    }
  }

  /** Where the leading vertices stand. */
  lemma {:induction false} LeadingWords(w: seq<Word>, cs: seq<Command>, i: int, j: int, lead: seq<Command>, over: bool,
                                        k: int)
    requires Decode(w) == Commands(cs) && Leading(cs, i, j, lead, over) && Starts(cs[j]) && 0 <= k <= |lead|
    ensures Place(cs, j + 1 + k) == Place(cs, j) + Size(cs[j]) + 3 * k
    decreases k
  {
    hide Decode, Place;
    if k == 0 {
      OpcodeOf(w, cs, j, Place(cs, j));
    } else {
      LeadingWords(w, cs, i, j, lead, over, k - 1);
      assert lead[k - 1] in lead && cs[j + k] == lead[k - 1];
      OpcodeOf(w, cs, j + k, Place(cs, j + k));
    }
  }

  lemma LeadingVertex(w: seq<Word>, cs: seq<Command>, i: int, j: int, lead: seq<Command>, over: bool, k: int)
    requires Decode(w) == Commands(cs) && Leading(cs, i, j, lead, over) && Starts(cs[j]) && 0 <= k < |lead|
    ensures (forall v :: v in lead ==> v.Vertex?) && |Points(lead)| == |lead|
    ensures VertexDrawn(w, Place(cs, j) + Size(cs[j]) + 3 * k, Points(lead)[k])
  {
    hide Decode, FromShort, ColorOf, Points, Place;
    LeadingWords(w, cs, i, j, lead, over, k);
    PointsAt(lead, k);
    assert lead[k] in lead && cs[j + 1 + k] == lead[k];
    WordsOf(w, cs, j + 1 + k, Place(cs, j + 1 + k));
  }

  lemma OutlineColor(st: Style, w: seq<Word>, cs: seq<Command>, j: int)
    requires Decode(w) == Commands(cs) && 0 <= j < |cs| && cs[j].OutlinePolygon?
    ensures var p := Place(cs, j); p + 2 < |w| && Shade(st, cs[j].color) == ShownColor(st, w, p + 1)
  {
    hide Decode, Place;
    WordsOf(w, cs, j, Place(cs, j));
  }

  lemma NoPoints(vs: seq<Command>)
    requires vs == []
    ensures Points(vs) == []
  {
  }

  /** The run of vertices ends before something that is none, or with the words. */
  lemma RunStops(w: seq<Word>, cs: seq<Command>, i: int, j: int, lead: seq<Command>, over: bool)
    requires Decode(w) == Commands(cs) && Leading(cs, i, j, lead, over) && cs[j].OutlinePolygon?
    requires i < |cs| ==> !cs[i].Vertex?
    ensures var e := Place(cs, j) + 3 + 3 * |lead|; e <= |w| && (e < |w| ==> w[e] != VERTEX)
  {
    hide Decode, Place, EncodeAll, Encode;
    EncodeDecode(w);
    LeadingWords(w, cs, i, j, lead, over, |lead|);
    var c := j + 1 + |lead|;
    PlaceEnd(cs, c);
    if c < |cs| {
      OpcodeOf(w, cs, c, Place(cs, c));
    }
  }

  /** The calls of an outline, when its vertices stand in the words. */
  lemma OutlineAssembled(st: Style, w: seq<Word>, p: int, pen: Pen, c: bv32)
    requires PenOk(pen) && pen.open.Primitive? && 0 <= p && p + 2 < |w| && Shade(st, c) == ShownColor(st, w, p + 1)
    requires |Points(pen.open.lead)| == |pen.open.lead|
    requires forall k :: 0 <= k < |pen.open.lead| ==> VertexDrawn(w, p + 3 + 3 * k, Points(pen.open.lead)[k])
    requires var e := p + 3 + 3 * |pen.open.lead|; e <= |w| && (e < |w| ==> w[e] != VERTEX)
    ensures OutlineCalls(st, w, p, pen.color, Outline(st, pen, c))
  {
    hide VertexDrawn, ShownColor, Shade, Points;
  }

  /** The outline's calls, for an outlined polygon that is open before command i, or at the end. */
  lemma OutlineIs(st: Style, w: seq<Word>, cs: seq<Command>, i: int, j: int)
    requires Decode(w) == Commands(cs) && OpenAt(cs, i, j) && cs[j].OutlinePolygon?
    requires i < |cs| ==> !cs[i].Vertex?
    ensures var p := PenAt(st, cs[..i]);
            && p.open.Primitive? && p.open.start == cs[j]
            && OutlineCalls(st, w, Place(cs, j), p.color, Outline(st, p, cs[j].color))
  {
    hide Decode, FromShort, ColorOf, Points, Place, PenAt, VertexDrawn, Leading, Outline, OutlineCalls, ShownColor;
    PenOpen(st, cs, i, j);
    var p := PenAt(st, cs[..i]);
    var lead := p.open.lead;
    OutlineColor(st, w, cs, j);
    RunStops(w, cs, i, j, lead, p.open.over);
    if lead == [] {
      NoPoints(lead);
    } else {
      LeadingVertex(w, cs, i, j, lead, p.open.over, 0);
    }
    forall k | 0 <= k < |lead| ensures VertexDrawn(w, Place(cs, j) + 3 + 3 * k, Points(lead)[k]) {
      LeadingVertex(w, cs, i, j, lead, p.open.over, k);
    }
    OutlineAssembled(st, w, Place(cs, j), p, cs[j].color);
  }

  /** An end closes the open primitive, whose command stands at p, and draws its outline if it has one;
      then the colour that is set is the pen's. */
  lemma DrawnEnd(st: Style, w: seq<Word>, cs: seq<Command>, i: int, d: int, j: int, p: int)
    requires CommandAt(w, cs, i, d) && d < |w| && w[d] == END && OpenAt(cs, i, j) && p == Place(cs, j)
    ensures 0 <= p < |w|
    ensures var before, closing := Calls(st, cs[..i]), ClosingCalls(w, p, false);
            var after := Calls(st, cs[..i + 1]);
            if w[p] == OUTLINEPOLYGON then
              && before + closing <= after
              && OutlineCalls(st, w, p, PenAt(st, cs[..i]).color, after[|before + closing|..])
            else after == before + closing
  {
    hide Calls, Decode, FromShort, ColorOf, Place, PenAt, Shade, Points, PenAfter, Outline, OutlineCalls;
    OpcodeOf(w, cs, i, d);
    OpcodeOf(w, cs, j, p);
    PenBefore(st, cs, i);
    PenOpen(st, cs, i, j);
    if w[p] == OUTLINEPOLYGON {
      OutlineIs(st, w, cs, i, j);
      var before, closing := Calls(st, cs[..i]), ClosingCalls(w, p, false);
      var o := Outline(st, PenAt(st, cs[..i]), cs[j].color);
      assert Calls(st, cs[..i + 1]) == (before + closing) + o;
    }
  }

  /** After a stream that ends outside all primitives nothing is added. */
  lemma DrawnAll(st: Style, cs: seq<Command>)
    requires cs != [] && NoneOpen(cs, |cs|)
    ensures Drawing(st, cs) == Calls(st, cs)
  {
    hide Calls, PenAt;
    assert cs[..|cs|] == cs;
    PenClosed(st, cs, |cs|);
  }

  /** A stream that ends inside a primitive closes it with the other call. */
  lemma DrawnLast(st: Style, w: seq<Word>, cs: seq<Command>, j: int, p: int)
    requires Decode(w) == Commands(cs) && OpenAt(cs, |cs|, j) && p == Place(cs, j)
    ensures 0 <= p < |w|
    ensures var before, closing := Calls(st, cs), ClosingCalls(w, p, true);
            var after := Drawing(st, cs);
            if w[p] == OUTLINEPOLYGON then
              && before + closing <= after
              && OutlineCalls(st, w, p, PenAt(st, cs).color, after[|before + closing|..])
            else after == before + closing
  {
    hide Calls, Decode, FromShort, ColorOf, Place, Shade, Points, PenAfter, PenAt, Outline, OutlineCalls;
    assert cs[..|cs|] == cs;
    OpcodeOf(w, cs, j, p);
    PenOpen(st, cs, |cs|, j);
    if w[p] == OUTLINEPOLYGON {
      OutlineIs(st, w, cs, |cs|, j);
      var before, closing := Calls(st, cs), ClosingCalls(w, p, true);
      var o := Outline(st, PenAt(st, cs), cs[j].color);
      assert Drawing(st, cs) == (before + closing) + o;
    }
  }

  // ----- the pen's colour

  /** The pen's colour is the last one set by a command. Before any, it is the icon's colour as it is
      given, though an inactive icon is begun in the dimmed one. */
  lemma {:induction false} PenColor(st: Style, w: seq<Word>, cs: seq<Command>, i: int, k: int)
    requires Decode(w) == Commands(cs) && -1 <= k < i <= |cs|
    requires k >= 0 ==> cs[k].Color?
    requires forall l :: k < l < i ==> !cs[l].Color?
    ensures if k < 0 then PenAt(st, cs[..i]).color == st.ic
            else var d := Place(cs, k); d + 2 < |w| && PenAt(st, cs[..i]).color == ShownColor(st, w, d + 1)
    decreases i
  {
    hide Decode, Calls, CallsOf;
    if k == i - 1 && k >= 0 {
      WordsOf(w, cs, k, Place(cs, k));
      DrawnColor(st, w, cs, k, Place(cs, k));
    } else if i > 0 {
      PenBefore(st, cs, i - 1);
      PenColor(st, w, cs, i - 1, k);
    }
  }

  /** So the outline of a polygon drawn before any colour command leaves an inactive icon in a brighter
      colour, unless dimming changes nothing. */
  lemma OutlineBrightens(st: Style, w: seq<Word>, cs: seq<Command>, i: int, d: int, j: int)
    requires CommandAt(w, cs, i, d) && d < |w| && w[d] == END && OpenAt(cs, i, j) && cs[j].OutlinePolygon?
    requires forall l :: 0 <= l < i ==> !cs[l].Color?
    ensures var after := Calls(st, cs[..i + 1]);
            after != [] && after[|after| - 1] == SetColor(st.ic)
    ensures Calls(st, [])[0] == SetColor(st.ic) <==> st.active || st.dim(st.ic) == st.ic
  {
    hide Decode, Calls, CallsOf, PenAt;
    WordsOf(w, cs, j, Place(cs, j));
    DrawnEnd(st, w, cs, i, d, j, Place(cs, j));
    PenColor(st, w, cs, i, -1);
    DrawnFirst(st);
  }
}
