/** The icon instruction stream: commands kept as 16-bit words, and the interpreter that draws them. */
module FileIcons {

  /** A `short` is 16 bits, an `int` or a colour 32. */
  type Word = bv16

  const END: Word := 0
  const COLOR: Word := 1
  const LINE: Word := 2
  const CLOSEDLINE: Word := 3
  const POLYGON: Word := 4
  const OUTLINEPOLYGON: Word := 5
  const VERTEX: Word := 6

  /** Stands for "the colour the icon is drawn with". */
  const ICON_COLOR: bv32 := 0xffff_ffff

  /** What 32 bits become when they are stored in a `short`. */
  function ToShort(v: bv32): Word
  {
    (v & 0xffff) as bv16
  }

  function HighHalf(c: bv32): Word
  {
    ToShort(c >> 16)
  }

  /** The halves are read as `unsigned short`. */
  function ColorOf(high: Word, low: Word): bv32
  {
    (high as bv32 << 16) | low as bv32
  }

  /** The two halves give the colour back, and every pair of words is the halves of one colour. */
  lemma HalvesGiveColor(c: bv32, high: Word, low: Word)
    ensures ColorOf(HighHalf(c), ToShort(c)) == c
    ensures HighHalf(ColorOf(high, low)) == high && ToShort(ColorOf(high, low)) == low
  {
  }

  /** Sixteen copies of the sign bit. */
  function Sign(w: Word): Word
  {
    if w & 0x8000 == 0 then 0 else 0xffff
  }

  /** A word read again as an `int`: its sign is carried on. */
  function FromShort(w: Word): bv32
  {
    ColorOf(Sign(w), w)
  }

  /** An `int` from -32768 to 32767, as two's complement: the high half only repeats the sign. */
  predicate Fits(v: bv32)
  {
    HighHalf(v) == Sign(ToShort(v))
  }

  lemma ShortComesBack(v: bv32)
    ensures FromShort(ToShort(v)) == v <==> Fits(v)
  {
    HalvesGiveColor(v, Sign(ToShort(v)), ToShort(v));
  }

  /** Two's complement: a word with its highest bit set has all of the higher half set, any other has
      none of it. */
  lemma SignIsCarried(w: Word)
    ensures w & 0x8000 == 0 ==> FromShort(w) == w as bv32
    ensures w & 0x8000 != 0 ==> FromShort(w) == 0xffff_0000 | w as bv32
  {
    assert (0 as bv16) as bv32 << 16 == 0;
    assert (0xffff as bv16) as bv32 << 16 == 0xffff_0000;
  }

  /** So the numbers that fit are -32768 to 32767. */
  lemma FitsIs(v: bv32)
    ensures Fits(v) <==> v < 0x8000 || v >= 0xffff_8000
  {
  }

  lemma WordComesBack(w: Word)
    ensures ToShort(FromShort(w)) == w && Fits(FromShort(w))
  {
    HalvesGiveColor(0, Sign(w), w);
  }

  // ----- commands and words

  datatype Command =
    | End
    | Color(color: bv32)
    | Line
    | ClosedLine
    | Polygon
    | OutlinePolygon(color: bv32)
    | Vertex(x: bv32, y: bv32)
    | Other(word: Word)

  /** Coordinates have to fit 16 bits; a word that is no opcode is a command that does nothing. */
  predicate Storable(c: Command)
  {
    match c
    case Vertex(x, y) => Fits(x) && Fits(y)
    case Other(w) => w > VERTEX
    case _ => true
  }

  predicate AllStorable(cs: seq<Command>)
  {
    forall c :: c in cs ==> Storable(c)
  }

  function Encode(c: Command): (w: seq<Word>)
    ensures 1 <= |w| <= 3
  {
    match c
    case End => [END]
    case Color(v) => [COLOR, HighHalf(v), ToShort(v)]
    case Line => [LINE]
    case ClosedLine => [CLOSEDLINE]
    case Polygon => [POLYGON]
    case OutlinePolygon(v) => [OUTLINEPOLYGON, HighHalf(v), ToShort(v)]
    case Vertex(x, y) => [VERTEX, ToShort(x), ToShort(y)]
    case Other(w) => [w]
  }

  function EncodeAll(cs: seq<Command>): seq<Word>
  {
    if cs == [] then [] else EncodeAll(cs[..|cs| - 1]) + Encode(cs[|cs| - 1])
  }

  /** How many words the command that starts with this word takes. */
  function Arity(w: Word): nat
  {
    if w == COLOR || w == OUTLINEPOLYGON || w == VERTEX then 3 else 1
  }

  function First(w: seq<Word>): Command
    requires w != [] && Arity(w[0]) <= |w|
  {
    if w[0] == END then End
    else if w[0] == COLOR then Color(ColorOf(w[1], w[2]))
    else if w[0] == LINE then Line
    else if w[0] == CLOSEDLINE then ClosedLine
    else if w[0] == POLYGON then Polygon
    else if w[0] == OUTLINEPOLYGON then OutlinePolygon(ColorOf(w[1], w[2]))
    else if w[0] == VERTEX then Vertex(FromShort(w[1]), FromShort(w[2]))
    else Other(w[0])
  }

  datatype Decoded = Commands(cs: seq<Command>) | Truncated

  function Decode(w: seq<Word>): Decoded
  {
    if w == [] then Commands([])
    else if |w| < Arity(w[0]) then Truncated
    else match Decode(w[Arity(w[0])..])
         case Commands(cs) => Commands([First(w)] + cs)
         case Truncated => Truncated
  }

  function Size(c: Command): nat
  {
    if c.Color? || c.OutlinePolygon? || c.Vertex? then 3 else 1
  }

  lemma SizeIs(c: Command)
    ensures |Encode(c)| == Size(c)
  {
  }

  lemma WordsOfColor(a: Word, b: Word)
    ensures Encode(Color(ColorOf(a, b))) == [COLOR, a, b]
    ensures Encode(OutlinePolygon(ColorOf(a, b))) == [OUTLINEPOLYGON, a, b]
  {
    HalvesGiveColor(0, a, b);
  }

  lemma ColorOfWords(v: bv32)
    ensures First(Encode(Color(v))) == Color(v)
    ensures First(Encode(OutlinePolygon(v))) == OutlinePolygon(v)
  {
    HalvesGiveColor(v, 0, 0);
  }

  lemma WordsOfVertex(x: Word, y: Word)
    ensures Encode(Vertex(FromShort(x), FromShort(y))) == [VERTEX, x, y]
  {
    WordComesBack(x);
    WordComesBack(y);
  }

  lemma VertexOfWords(x: bv32, y: bv32)
    requires Fits(x) && Fits(y)
    ensures First(Encode(Vertex(x, y))) == Vertex(x, y)
  {
    ShortComesBack(x);
    ShortComesBack(y);
  }

  lemma EncodeFirst(c: Command)
    requires Storable(c)
    ensures Arity(Encode(c)[0]) == |Encode(c)| && First(Encode(c)) == c
  {
    match c {
      case Color(v) => ColorOfWords(v);
      case OutlinePolygon(v) => ColorOfWords(v);
      case Vertex(x, y) => VertexOfWords(x, y);
      case _ =>
    }
  }

  lemma DecodeCons(w: seq<Word>, rest: seq<Word>)
    requires w != [] && |w| == Arity(w[0])
    ensures Decode(w + rest) ==
            if Decode(rest).Commands? then Commands([First(w)] + Decode(rest).cs) else Truncated
  {
    assert (w + rest)[|w|..] == rest;
  }

  lemma FirstEncode(w: seq<Word>)
    requires w != [] && Arity(w[0]) <= |w|
    ensures Storable(First(w)) && Encode(First(w)) == w[..Arity(w[0])]
  {
    if Arity(w[0]) == 1 {
      assert w[..1] == [w[0]];
    } else {
      assert w[..3] == [w[0], w[1], w[2]];
      if w[0] == VERTEX {
        WordsOfVertex(w[1], w[2]);
        WordComesBack(w[1]);
        WordComesBack(w[2]);
      } else {
        WordsOfColor(w[1], w[2]);
      }
    }
  }

  lemma {:induction false} EncodeConcat(a: seq<Command>, b: seq<Command>)
    ensures EncodeAll(a + b) == EncodeAll(a) + EncodeAll(b)
  {
    hide Encode;
    if b == [] {
      assert a + b == a;
    } else {
      assert (a + b)[..|a + b| - 1] == a + b[..|b| - 1];
      EncodeConcat(a, b[..|b| - 1]);
    }
  }

  lemma EncodeCons(c: Command, cs: seq<Command>)
    ensures EncodeAll([c] + cs) == Encode(c) + EncodeAll(cs)
  {
    hide Encode;
    EncodeConcat([c], cs);
    assert [c][..0] == [];
  }

  lemma DecodeEncodedCons(c: Command, cs: seq<Command>, rest: seq<Word>)
    requires Storable(c)
    ensures var d := Decode(EncodeAll(cs) + rest);
            Decode(EncodeAll([c] + cs) + rest) == if d.Commands? then Commands([c] + d.cs) else Truncated
  {
    hide Encode, First;
    EncodeCons(c, cs);
    assert EncodeAll([c] + cs) + rest == Encode(c) + (EncodeAll(cs) + rest);
    EncodeFirst(c);
    DecodeCons(Encode(c), EncodeAll(cs) + rest);
  }

  /** The stream of any storable commands, followed by anything, decodes to the commands followed
      by what that decodes to: operands are never read as opcodes. */
  lemma {:induction false} DecodeAfter(cs: seq<Command>, rest: seq<Word>)
    requires AllStorable(cs)
    ensures Decode(EncodeAll(cs) + rest) ==
            if Decode(rest).Commands? then Commands(cs + Decode(rest).cs) else Truncated
  {
    hide Encode, First;
    if cs == [] {
      assert EncodeAll(cs) + rest == rest;
      assert Decode(rest).Commands? ==> cs + Decode(rest).cs == Decode(rest).cs;
    } else {
      var tail := cs[1..];
      assert cs == [cs[0]] + tail;
      DecodeEncodedCons(cs[0], tail, rest);
      DecodeAfter(tail, rest);
      if Decode(rest).Commands? {
        assert [cs[0]] + (tail + Decode(rest).cs) == cs + Decode(rest).cs;
      }
    }
  }

  lemma DecodeEncode(cs: seq<Command>)
    requires AllStorable(cs)
    ensures Decode(EncodeAll(cs)) == Commands(cs)
  {
    DecodeAfter(cs, []);
    assert EncodeAll(cs) + [] == EncodeAll(cs) && cs + [] == cs;
  }

  /** Every stream that decodes is the encoding of what it decodes to, so no two streams mean the
      same commands. */
  lemma {:induction false} EncodeDecode(w: seq<Word>)
    requires Decode(w).Commands?
    ensures AllStorable(Decode(w).cs) && EncodeAll(Decode(w).cs) == w
    decreases |w|
  {
    hide Encode, First, Storable;
    if w != [] {
      var n := Arity(w[0]);
      EncodeDecode(w[n..]);
      FirstEncode(w);
      EncodeCons(First(w), Decode(w[n..]).cs);
      assert w == w[..n] + w[n..];
    }
  }

  /** The words up to k decode, and those from k on are too few for a command. */
  ghost predicate StopsIn(w: seq<Word>, k: int)
  {
    0 <= k < |w| && Decode(w[..k]).Commands? && |w| < k + Arity(w[k])
  }

  lemma StopsLater(w: seq<Word>, k: int)
    requires w != [] && Arity(w[0]) <= |w|
    ensures StopsIn(w, Arity(w[0]) + k) <== StopsIn(w[Arity(w[0])..], k)
    ensures StopsIn(w, Arity(w[0]) + k) ==> k < 0 || StopsIn(w[Arity(w[0])..], k)
  {
    var n := Arity(w[0]);
    if 0 <= k < |w| - n {
      assert w[..n + k][n..] == w[n..][..k] && w[n + k] == w[n..][k];
    }
  }

  /** A stream does not decode exactly when it stops inside the operands of a last command. */
  lemma {:induction false} TruncatedIff(w: seq<Word>)
    ensures Decode(w) == Truncated <==> exists k :: StopsIn(w, k)
    decreases |w|
  {
    if w != [] {
      var n := Arity(w[0]);
      if |w| < n {
        assert StopsIn(w, 0);
      } else {
        TruncatedIff(w[n..]);
        if k :| StopsIn(w, k) {
          StopsLater(w, k - n);
        }
        if k :| StopsIn(w[n..], k) {
          StopsLater(w, k);
        }
      }
    }
  }

  // ----- what a stream draws

  /** Calls to the drawing library. */
  datatype Call =
    | SetColor(color: bv32)
    | BeginLine | EndLine
    | BeginLoop | EndLoop
    | BeginComplexPolygon | EndComplexPolygon | EndPolygon
    | Point(x: bv32, y: bv32)

  /** How the icon is drawn: its own colour, whether it is active, and how colours are dimmed. */
  datatype Style = Style(ic: bv32, active: bool, dim: bv32 -> bv32)

  /** The primitive being drawn: its first command, the vertices that directly follow that command,
      and whether any other command has come since. */
  datatype Open = Nothing | Primitive(start: Command, lead: seq<Command>, over: bool)

  datatype Pen = Pen(color: bv32, open: Open)

  function Shade(st: Style, c: bv32): bv32
  {
    var c := if c == ICON_COLOR then st.ic else c;
    if st.active then c else st.dim(c)
  }

  function Points(vs: seq<Command>): seq<Call>
    requires forall v :: v in vs ==> v.Vertex?
  {
    if vs == [] then [] else Points(vs[..|vs| - 1]) + [Point(vs[|vs| - 1].x, vs[|vs| - 1].y)]
  }

  predicate PenOk(p: Pen)
  {
    p.open.Primitive? ==>
      (p.open.start.Line? || p.open.start.ClosedLine? || p.open.start.Polygon? || p.open.start.OutlinePolygon?)
      && forall v :: v in p.open.lead ==> v.Vertex?
  }

  function Outline(st: Style, p: Pen, c: bv32): seq<Call>
    requires PenOk(p) && p.open.Primitive?
  {
    [SetColor(Shade(st, c)), BeginLoop] + Points(p.open.lead) + [EndLoop, SetColor(p.color)]
  }

  /** Closing a primitive; the outline of an outlined polygon is drawn from its leading vertices.
      `last` says that the stream ended without a closing command. */
  function Close(st: Style, p: Pen, last: bool): seq<Call>
    requires PenOk(p) && p.open.Primitive?
  {
    match p.open.start
    case Line => [EndLine]
    case ClosedLine => [EndLoop]
    case Polygon => [if last then EndPolygon else EndComplexPolygon]
    case OutlinePolygon(c) =>
      [if last then EndPolygon else EndComplexPolygon] + Outline(st, p, c)
    case _ => []
  }

  function Begin(c: Command): seq<Call>
  {
    match c
    case Line => [BeginLine]
    case ClosedLine => [BeginLoop]
    case Polygon => [BeginComplexPolygon]
    case OutlinePolygon(_) => [BeginComplexPolygon]
    case _ => []
  }

  /** Something other than a vertex ends the leading run. */
  function Interrupt(o: Open): Open
  {
    if o.Primitive? then o.(over := true) else o
  }

  function PenAfter(st: Style, p: Pen, c: Command): (q: Pen)
    requires PenOk(p)
    ensures PenOk(q)
  {
    match c
    case End => p.(open := Nothing)
    case Color(v) => Pen(Shade(st, v), Interrupt(p.open))
    case Vertex(_, _) =>
      if p.open.Primitive? && !p.open.over then p.(open := p.open.(lead := p.open.lead + [c])) else p
    case Other(_) => p.(open := Interrupt(p.open))
    case _ => p.(open := Primitive(c, [], false))
  }

  function CallsOf(st: Style, p: Pen, c: Command): seq<Call>
    requires PenOk(p)
  {
    match c
    case End => if p.open.Primitive? then Close(st, p, false) else []
    case Color(v) => [SetColor(Shade(st, v))]
    case Vertex(x, y) => if p.open.Primitive? then [Point(x, y)] else []
    case _ => Begin(c)
  }

  function PenAt(st: Style, cs: seq<Command>): (p: Pen)
    ensures PenOk(p)
  {
    if cs == [] then Pen(st.ic, Nothing) else PenAfter(st, PenAt(st, cs[..|cs| - 1]), cs[|cs| - 1])
  }

  function Calls(st: Style, cs: seq<Command>): seq<Call>
  {
    if cs == [] then [SetColor(if st.active then st.ic else st.dim(st.ic))]
    else Calls(st, cs[..|cs| - 1]) + CallsOf(st, PenAt(st, cs[..|cs| - 1]), cs[|cs| - 1])
  }

  /** Everything an icon draws. */
  function Drawing(st: Style, cs: seq<Command>): seq<Call>
  {
    if cs == [] then []
    else Calls(st, cs) + (if PenAt(st, cs).open.Primitive? then Close(st, PenAt(st, cs), true) else [])
  }

  // ----- brackets

  /** What is being drawn, as the drawing library sees it. */
  datatype Bracket = Closed | LineOpen | LoopOpen | ComplexOpen | Broken

  function Sees(b: Bracket, c: Call): Bracket
  {
    match c
    case SetColor(_) => b
    case BeginLine => if b == Closed then LineOpen else Broken
    case EndLine => if b == LineOpen then Closed else Broken
    case BeginLoop => if b == Closed then LoopOpen else Broken
    case EndLoop => if b == LoopOpen then Closed else Broken
    case BeginComplexPolygon => if b == Closed then ComplexOpen else Broken
    case EndComplexPolygon => if b == ComplexOpen then Closed else Broken
    case EndPolygon => Broken
    case Point(_, _) => if b == Closed then Broken else b
  }

  function SeesAll(calls: seq<Call>): Bracket
  {
    if calls == [] then Closed else Sees(SeesAll(calls[..|calls| - 1]), calls[|calls| - 1])
  }

  predicate Starts(c: Command)
  {
    c.Line? || c.ClosedLine? || c.Polygon? || c.OutlinePolygon?
  }

  /** Is a primitive open after these commands, and which? */
  function OpenAfter(cs: seq<Command>): Command
  {
    if cs == [] then End
    else if Starts(cs[|cs| - 1]) || cs[|cs| - 1].End? then cs[|cs| - 1]
    else OpenAfter(cs[..|cs| - 1])
  }

  /** No primitive starts inside another. */
  ghost predicate Flat(cs: seq<Command>)
  {
    forall k :: 0 <= k < |cs| && Starts(cs[k]) ==> OpenAfter(cs[..k]) == End
  }

  function BracketOf(c: Command): Bracket
  {
    match c
    case Line => LineOpen
    case ClosedLine => LoopOpen
    case Polygon => ComplexOpen
    case OutlinePolygon(_) => ComplexOpen
    case _ => Closed
  }

  lemma {:induction false} SeesConcat(a: seq<Call>, b: seq<Call>)
    ensures SeesAll(a + b) == if b == [] then SeesAll(a)
                              else Sees(SeesAll(a + b[..|b| - 1]), b[|b| - 1])
  {
    if b == [] {
      assert a + b == a;
    } else {
      assert (a + b)[..|a + b| - 1] == a + b[..|b| - 1];
    }
  }

  lemma SeesOne(a: seq<Call>, c: Call)
    ensures SeesAll(a + [c]) == Sees(SeesAll(a), c)
  {
    hide Sees;
    assert (a + [c])[..|a|] == a;
  }

  lemma {:induction false} SeesPoints(a: seq<Call>, vs: seq<Command>)
    requires forall v :: v in vs ==> v.Vertex?
    requires SeesAll(a) != Closed
    ensures SeesAll(a + Points(vs)) == SeesAll(a)
  {
    if vs == [] {
      assert a + Points(vs) == a;
    } else {
      var v := vs[|vs| - 1];
      SeesPoints(a, vs[..|vs| - 1]);
      assert a + Points(vs) == (a + Points(vs[..|vs| - 1])) + [Point(v.x, v.y)];
      SeesOne(a + Points(vs[..|vs| - 1]), Point(v.x, v.y));
    }
  }

  lemma {:induction false} BrokenStays(a: seq<Call>, b: seq<Call>)
    requires SeesAll(a) == Broken
    ensures SeesAll(a + b) == Broken
  {
    if b == [] {
      assert a + b == a;
    } else {
      BrokenStays(a, b[..|b| - 1]);
      SeesConcat(a, b);
    }
  }

  lemma SeesLoop(a: seq<Call>, vs: seq<Command>)
    requires SeesAll(a) == Closed && forall v :: v in vs ==> v.Vertex?
    ensures SeesAll(a + [BeginLoop] + Points(vs) + [EndLoop]) == Closed
  {
    SeesOne(a, BeginLoop);
    SeesPoints(a + [BeginLoop], vs);
    SeesOne(a + [BeginLoop] + Points(vs), EndLoop);
  }

  lemma SeesOutline(a: seq<Call>, st: Style, p: Pen, c: bv32)
    requires PenOk(p) && p.open.Primitive? && SeesAll(a) == Closed
    ensures SeesAll(a + Outline(st, p, c)) == Closed
  {
    hide Points, Shade;
    var a1, a2 := a + [SetColor(Shade(st, c))], [BeginLoop] + Points(p.open.lead) + [EndLoop];
    SeesOne(a, SetColor(Shade(st, c)));
    SeesLoop(a1, p.open.lead);
    SeesOne(a1 + [BeginLoop] + Points(p.open.lead) + [EndLoop], SetColor(p.color));
    assert a + Outline(st, p, c) == a1 + [BeginLoop] + Points(p.open.lead) + [EndLoop] + [SetColor(p.color)];
  }

  lemma SeesCloseOutlined(a: seq<Call>, st: Style, p: Pen, last: bool)
    requires PenOk(p) && p.open.Primitive? && p.open.start.OutlinePolygon? && SeesAll(a) == ComplexOpen
    ensures SeesAll(a + Close(st, p, last)) == if last then Broken else Closed
  {
    hide Outline, SeesAll;
    var e, rest := if last then EndPolygon else EndComplexPolygon, Outline(st, p, p.open.start.color);
    SeesOne(a, e);
    assert a + Close(st, p, last) == (a + [e]) + rest;
    if last {
      BrokenStays(a + [e], rest);
    } else {
      SeesOutline(a + [e], st, p, p.open.start.color);
    }
  }

  /** What closing a primitive does to the bracket. */
  lemma SeesClose(a: seq<Call>, st: Style, p: Pen, last: bool)
    requires PenOk(p) && p.open.Primitive? && SeesAll(a) == BracketOf(p.open.start)
    ensures SeesAll(a + Close(st, p, last)) == if last && BracketOf(p.open.start) == ComplexOpen then Broken else Closed
  {
    hide Outline, SeesAll;
    match p.open.start
    case Line => SeesOne(a, EndLine);
    case ClosedLine => SeesOne(a, EndLoop);
    case Polygon => SeesOne(a, if last then EndPolygon else EndComplexPolygon);
    case OutlinePolygon(_) => SeesCloseOutlined(a, st, p, last);
  }

  /** The pen agrees with the commands about what is open. */
  lemma {:induction false} PenKnowsOpen(st: Style, cs: seq<Command>)
    ensures var o := PenAt(st, cs).open;
            if o.Primitive? then OpenAfter(cs) == o.start && Starts(o.start) else OpenAfter(cs) == End
  {
    if cs != [] {
      PenKnowsOpen(st, cs[..|cs| - 1]);
    }
  }

  lemma FlatPrefix(cs: seq<Command>)
    requires cs != []
    ensures Flat(cs) <==> Flat(cs[..|cs| - 1]) && (Starts(cs[|cs| - 1]) ==> OpenAfter(cs[..|cs| - 1]) == End)
  {
    var p := cs[..|cs| - 1];
    assert forall k {:trigger p[..k]} :: 0 <= k < |p| ==> p[..k] == cs[..k];
    if Flat(cs) {
      forall k | 0 <= k < |p| && Starts(p[k]) ensures OpenAfter(p[..k]) == End {
        assert p[..k] == cs[..k] && cs[k] == p[k];
      }
    }
    if Flat(p) && (Starts(cs[|cs| - 1]) ==> OpenAfter(p) == End) {
      forall k | 0 <= k < |cs| && Starts(cs[k]) ensures OpenAfter(cs[..k]) == End {
        if k < |p| {
          assert p[..k] == cs[..k] && cs[k] == p[k];
        }
      }
    }
  }

  function OpenCommand(p: Pen): Command
  {
    if p.open.Primitive? then p.open.start else End
  }

  lemma SeesCommand(a: seq<Call>, st: Style, p: Pen, c: Command)
    requires PenOk(p) && SeesAll(a) == BracketOf(OpenCommand(p))
    ensures SeesAll(a + CallsOf(st, p, c)) ==
            if Starts(c) then (if p.open.Primitive? then Broken else BracketOf(c))
            else if c.End? then Closed
            else BracketOf(OpenCommand(p))
  {
    hide Close, Shade, SeesAll;
    if c.End? && p.open.Primitive? {
      SeesClose(a, st, p, false);
    } else if CallsOf(st, p, c) == [] {
      assert a + [] == a;
    } else {
      SeesOne(a, CallsOf(st, p, c)[0]);
    }
  }

  lemma {:induction false} BracketsFollow(st: Style, cs: seq<Command>)
    ensures SeesAll(Calls(st, cs)) == if Flat(cs) then BracketOf(OpenAfter(cs)) else Broken
  {
    if cs == [] {
      var first := SetColor(if st.active then st.ic else st.dim(st.ic));
      SeesOne([], first);
      assert [] + [first] == [first];
    } else {
      var front, c := cs[..|cs| - 1], cs[|cs| - 1];
      BracketsFollow(st, front);
      FlatPrefix(cs);
      PenKnowsOpen(st, front);
      if Flat(front) {
        SeesCommand(Calls(st, front), st, PenAt(st, front), c);
      } else {
        BrokenStays(Calls(st, front), CallsOf(st, PenAt(st, front), c));
      }
    }
  }

  /** The drawing library sees every begin matched by its own end exactly when no primitive starts
      inside another and the stream does not stop inside a polygon. */
  lemma DrawingBrackets(st: Style, cs: seq<Command>)
    ensures SeesAll(Drawing(st, cs)) == Closed
            <==> Flat(cs) && !OpenAfter(cs).Polygon? && !OpenAfter(cs).OutlinePolygon?
  {
    if cs != [] {
      BracketsFollow(st, cs);
      PenKnowsOpen(st, cs);
      var p := PenAt(st, cs);
      if p.open.Primitive? {
        if Flat(cs) {
          SeesClose(Calls(st, cs), st, p, true);
        } else {
          BrokenStays(Calls(st, cs), Close(st, p, true));
        }
      } else {
        assert Calls(st, cs) + [] == Calls(st, cs);
      }
    }
  }

  // ----- the icon

  /** Where the words of command i stand. */
  lemma {:induction false} WordsOfCommand(cs: seq<Command>, i: int)
    requires 0 <= i < |cs|
    ensures var d, e := Place(cs, i), Place(cs, i + 1);
            && e == d + |Encode(cs[i])| && e <= |EncodeAll(cs)| && EncodeAll(cs)[d..e] == Encode(cs[i])
  {
    var a, b := cs[..i], cs[i + 1..];
    assert cs[..i + 1][..i] == a && cs == cs[..i + 1] + b;
    EncodeConcat(cs[..i + 1], b);
  }

  function Place(cs: seq<Command>, i: int): nat
    requires 0 <= i <= |cs|
  {
    |EncodeAll(cs[..i])|
  }

  /** The word `w[at..]` starts with these words. */
  predicate Stands(w: seq<Word>, at: int, words: seq<Word>)
  {
    0 <= at && at + |words| <= |w| && w[at..at + |words|] == words
  }

  /** The vertices stand one after the other. */
  ghost predicate RunStands(w: seq<Word>, at: int, vs: seq<Command>)
  {
    && 0 <= at && at + 3 * |vs| <= |w|
    && forall j {:trigger vs[j]} :: 0 <= j < |vs| ==> vs[j].Vertex? && Stands(w, at + 3 * j, Encode(vs[j]))
  }

  /** The run ends at e, either because place d is reached or by something that is no vertex. */
  predicate RunEnds(w: seq<Word>, e: int, d: int, over: bool)
  {
    0 <= e <= d <= |w| && if over then e < d && w[e] != VERTEX else e == d
  }

  function RunStart(prim: int, o: Open): int
    requires o.Primitive?
  {
    prim + |Encode(o.start)|
  }

  /** The place of the open primitive tells all that is known about it: its command stands there,
      its leading vertices follow, and no vertex follows them before place d if the run is over. */
  ghost predicate PrimAt(w: seq<Word>, prim: int, d: int, o: Open)
  {
    if o.Nothing? then prim == -1
    else
      && 0 <= prim && Starts(o.start) && Stands(w, prim, Encode(o.start))
      && RunStands(w, RunStart(prim, o), o.lead)
      && RunEnds(w, RunStart(prim, o) + 3 * |o.lead|, d, o.over)
  }

  /** The word at d and its operands, as the interpreter reads them, show this command. */
  predicate Shows(w: seq<Word>, d: int, c: Command)
  {
    && 0 <= d && d + Size(c) <= |w|
    && match c
       case End => w[d] == END
       case Color(v) => w[d] == COLOR && v == ColorOf(w[d + 1], w[d + 2])
       case Line => w[d] == LINE
       case ClosedLine => w[d] == CLOSEDLINE
       case Polygon => w[d] == POLYGON
       case OutlinePolygon(v) => w[d] == OUTLINEPOLYGON && v == ColorOf(w[d + 1], w[d + 2])
       case Vertex(x, y) => w[d] == VERTEX && x == FromShort(w[d + 1]) && y == FromShort(w[d + 2])
       case Other(_) => w[d] > VERTEX
  }

  lemma ReadCommand(w: seq<Word>, d: int, c: Command)
    requires Stands(w, d, Encode(c)) && Storable(c)
    ensures Shows(w, d, c)
  {
    var v := w[d..d + |Encode(c)|];
    assert v[0] == w[d];
    if Size(c) == 3 {
      assert v[1] == w[d + 1] && v[2] == w[d + 2];
    }
    EncodeFirst(c);
  }

  /** Where the open primitive is after one more command. */
  function PrimAfter(prim: int, d: int, c: Command): int
  {
    if c.End? then -1 else if Starts(c) then d else prim
  }

  lemma RunGrows(w: seq<Word>, at: int, vs: seq<Command>, v: Command)
    requires RunStands(w, at, vs) && v.Vertex? && Stands(w, at + 3 * |vs|, Encode(v))
    ensures RunStands(w, at, vs + [v])
  {
    hide Encode;
    SizeIs(v);
  }

  lemma RunVertex(w: seq<Word>, at: int, vs: seq<Command>, j: int)
    requires RunStands(w, at, vs) && AllStorable(vs) && 0 <= j < |vs|
    ensures w[at + 3 * j] == VERTEX && vs[j] == Vertex(FromShort(w[at + 3 * j + 1]), FromShort(w[at + 3 * j + 2]))
  {
    assert vs[j] in vs && Stands(w, at + 3 * j, Encode(vs[j]));
    ReadCommand(w, at + 3 * j, vs[j]);
  }

  lemma PrimStarts(w: seq<Word>, d: int, c: Command)
    requires Stands(w, d, Encode(c)) && Starts(c)
    ensures PrimAt(w, d, d + |Encode(c)|, Primitive(c, [], false))
  {
  }

  lemma RunInterrupted(w: seq<Word>, e: int, d: int, over: bool, n: int)
    requires RunEnds(w, e, d, over) && d < |w| && w[d] != VERTEX && 1 <= n && d + n <= |w|
    ensures RunEnds(w, e, d + n, true)
  {
  }

  /** Any command but a vertex ends the run. */
  lemma PrimInterrupted(w: seq<Word>, prim: int, d: int, o: Open, n: int)
    requires PrimAt(w, prim, d, o) && 0 <= d < |w| && w[d] != VERTEX && 1 <= n && d + n <= |w|
    ensures PrimAt(w, prim, d + n, Interrupt(o))
  {
    if o.Primitive? {
      RunInterrupted(w, RunStart(prim, o) + 3 * |o.lead|, d, o.over, n);
      assert RunStart(prim, Interrupt(o)) == RunStart(prim, o);
    }
  }

  lemma PrimVertex(w: seq<Word>, prim: int, d: int, o: Open, c: Command)
    requires PrimAt(w, prim, d, o) && c.Vertex? && Stands(w, d, Encode(c)) && o.Primitive?
    ensures o.over ==> PrimAt(w, prim, d + 3, o)
    ensures !o.over ==> PrimAt(w, prim, d + 3, o.(lead := o.lead + [c]))
  {
    hide Encode;
    SizeIs(c);
    if !o.over {
      RunGrows(w, RunStart(prim, o), o.lead, c);
    }
  }

  lemma PrimStep(w: seq<Word>, prim: int, d: int, st: Style, p: Pen, c: Command)
    requires PenOk(p) && PrimAt(w, prim, d, p.open) && 0 <= d
    requires Stands(w, d, Encode(c)) && Storable(c)
    ensures PrimAt(w, PrimAfter(prim, d, c), d + |Encode(c)|, PenAfter(st, p, c).open)
  {
    ReadCommand(w, d, c);
    if Starts(c) {
      PrimStarts(w, d, c);
    } else if c.Vertex? {
      if p.open.Primitive? {
        PrimVertex(w, prim, d, p.open, c);
      }
    } else {
      PrimInterrupted(w, prim, d, p.open, |Encode(c)|);
    }
  }

  lemma {:induction false} PenIsFromCommands(st: Style, cs: seq<Command>)
    ensures var o := PenAt(st, cs).open;
            o.Primitive? ==> o.start in cs && forall v :: v in o.lead ==> v in cs
  {
    if cs != [] {
      var front := cs[..|cs| - 1];
      PenIsFromCommands(st, front);
      assert forall v :: v in front ==> v in cs;
      assert cs[|cs| - 1] in cs;
    }
  }

  /** The next command's words stand at its place. */
  lemma NextCommand(w: seq<Word>, cs: seq<Command>, i: int)
    requires 0 <= i < |cs| && |EncodeAll(cs)| < |w| && w[..|EncodeAll(cs)|] == EncodeAll(cs)
    ensures var d := Place(cs, i);
            && Stands(w, d, Encode(cs[i])) && Place(cs, i + 1) == d + Size(cs[i]) && d + Size(cs[i]) < |w|
  {
    hide Encode, EncodeAll;
    SizeIs(cs[i]);
    WordsOfCommand(cs, i);
    var d, e := Place(cs, i), Place(cs, i + 1);
    assert w[d..e] == w[..|EncodeAll(cs)|][d..e];
  }

  lemma PlaceEnd(cs: seq<Command>, i: int)
    requires 0 <= i <= |cs|
    ensures Place(cs, i) == |EncodeAll(cs)| <==> i == |cs|
    ensures Place(cs, i) <= |EncodeAll(cs)|
  {
    assert cs[..|cs|] == cs;
    if i < |cs| {
      WordsOfCommand(cs, i);
    }
  }

  predicate PenStorable(p: Pen)
  {
    p.open.Primitive? ==> Storable(p.open.start) && AllStorable(p.open.lead)
  }

  /** One more command: the calls, the colour and the open primitive. */
  lemma CallsStep(st: Style, cs: seq<Command>, i: int)
    requires 0 <= i < |cs|
    ensures var p := PenAt(st, cs[..i]);
            && Calls(st, cs[..i + 1]) == Calls(st, cs[..i]) + CallsOf(st, p, cs[i])
            && PenAt(st, cs[..i + 1]) == PenAfter(st, p, cs[i])
  {
    assert cs[..i + 1][..i] == cs[..i];
  }

  lemma PenIsStorable(st: Style, cs: seq<Command>)
    requires AllStorable(cs)
    ensures PenStorable(PenAt(st, cs))
  {
    PenIsFromCommands(st, cs);
  }

  /** The interpreter has come to command i: its place, its pen and the calls so far. */
  ghost predicate Reached(st: Style, cs: seq<Command>, i: int, d: int, p: Pen, calls: seq<Call>)
  {
    0 <= i <= |cs| && d == Place(cs, i) && p == PenAt(st, cs[..i]) && calls == Calls(st, cs[..i])
  }

  lemma ReachNext(st: Style, cs: seq<Command>, i: int, d: int, p: Pen, calls: seq<Call>)
    requires Reached(st, cs, i, d, p, calls) && i < |cs| && AllStorable(cs)
    ensures Reached(st, cs, i + 1, d + Size(cs[i]), PenAfter(st, p, cs[i]), calls + CallsOf(st, p, cs[i]))
    ensures PenStorable(p)
  {
    hide Encode, PenAfter, CallsOf;
    SizeIs(cs[i]);
    CallsStep(st, cs, i);
    WordsOfCommand(cs, i);
    assert forall c :: c in cs[..i] ==> c in cs;
    PenIsStorable(st, cs[..i]);
  }

  /** The interpreter is done exactly when it has used up the words. */
  lemma ReachedEnd(st: Style, cs: seq<Command>, i: int, d: int, p: Pen, calls: seq<Call>)
    requires Reached(st, cs, i, d, p, calls) && AllStorable(cs)
    ensures d <= |EncodeAll(cs)| && (d < |EncodeAll(cs)| <==> i < |cs|)
    ensures i == |cs| ==> p == PenAt(st, cs) && calls == Calls(st, cs)
  {
    PlaceEnd(cs, i);
    if i == |cs| {
      assert cs[..i] == cs;
    }
  }

  lemma WordsReached(w: seq<Word>, cs: seq<Command>, i: int, d: int)
    requires 0 <= i < |cs| && d == Place(cs, i) && AllStorable(cs)
    requires |EncodeAll(cs)| < |w| && w[..|EncodeAll(cs)|] == EncodeAll(cs)
    ensures Stands(w, d, Encode(cs[i])) && Storable(cs[i])
  {
    assert cs[i] in cs;
    NextCommand(w, cs, i);
  }

  /** Before the words are used up there is a command to interpret, and everything is as needed
      before it and after it. */
  lemma OneMore(w: seq<Word>, prim: int, st: Style, cs: seq<Command>, i: int, d: int, p: Pen, calls: seq<Call>)
    requires Reached(st, cs, i, d, p, calls) && AllStorable(cs) && d < |EncodeAll(cs)| < |w|
    requires w[..|EncodeAll(cs)|] == EncodeAll(cs) && PrimAt(w, prim, d, p.open)
    ensures i < |cs| && Stands(w, d, Encode(cs[i])) && Storable(cs[i]) && PenStorable(p)
    ensures Reached(st, cs, i + 1, d + Size(cs[i]), PenAfter(st, p, cs[i]), calls + CallsOf(st, p, cs[i]))
    ensures PrimAt(w, PrimAfter(prim, d, cs[i]), d + Size(cs[i]), PenAfter(st, p, cs[i]).open)
    ensures d + Size(cs[i]) <= |EncodeAll(cs)|
  {
    ReachedEnd(st, cs, i, d, p, calls);
    WordsReached(w, cs, i, d);
    PrimStep(w, prim, d, st, p, cs[i]);
    ReachNext(st, cs, i, d, p, calls);
    ReachedEnd(st, cs, i + 1, d + Size(cs[i]), PenAfter(st, p, cs[i]), calls + CallsOf(st, p, cs[i]));
  }

  class FileIcon {
    var numData: nat
    var allocData: nat
    var data: array<Word>

    ghost predicate Valid()
      reads this, data
    {
      && data.Length == allocData && numData <= allocData
      && (numData > 0 ==> numData < allocData && data[numData] == END)
    }

    ghost function Words(): seq<Word>
      requires Valid()
      reads this, data
    {
      data[..numData]
    }

    constructor (d: seq<Word>)
      ensures Valid() && fresh(data) && Words() == d
    {
      numData := |d|;
      allocData := if |d| > 0 then |d| + 1 else 0;
      data := new Word[if |d| > 0 then |d| + 1 else 0](i => if 0 <= i < |d| then d[i] else END);
      new;
      assert data[..numData] == d;
    }

    /** Appends one word, behind which an END is kept; answers its place. */
    method Add(w: Word) returns (at: nat)
      requires Valid()
      modifies this, data
      ensures Valid() && (data == old(data) || fresh(data))
      ensures Words() == old(Words()) + [w] && at == |old(Words())|
    {
      if numData + 1 >= allocData {
        allocData := allocData + 128;
        var bigger := new Word[allocData](_ => END);
        forall i | 0 <= i < numData {
          bigger[i] := data[i];
        }
        data := bigger;
      }
      data[numData] := w;
      numData := numData + 1;
      data[numData] := END;
      at := numData - 1;
    }

    method AddColor(c: bv32) returns (at: nat)
      requires Valid()
      modifies this, data
      ensures Valid() && (data == old(data) || fresh(data))
      ensures Words() == old(Words()) + [COLOR, HighHalf(c), ToShort(c)] && at == |old(Words())|
      ensures Words() == old(Words()) + Encode(Color(c))
    {
      hide ToShort, HighHalf;
      at := Add(COLOR);
      var _ := Add(HighHalf(c));
      var _ := Add(ToShort(c));
    }

    method AddVertex(x: bv32, y: bv32) returns (at: nat)
      requires Valid()
      modifies this, data
      ensures Valid() && (data == old(data) || fresh(data))
      ensures Words() == old(Words()) + [VERTEX, ToShort(x), ToShort(y)] && at == |old(Words())|
      ensures Words() == old(Words()) + Encode(Vertex(x, y))
    {
      hide ToShort;
      at := Add(VERTEX);
      var _ := Add(ToShort(x));
      var _ := Add(ToShort(y));
    }

    method Clear()
      requires Valid()
      modifies `numData
      ensures Valid() && Words() == []
    {
      numData := 0;
    }

    /** Reads the leading vertices of a primitive once more. */
    method DrawRun(at: int, ghost vs: seq<Command>) returns (calls: seq<Call>)
      requires Valid() && numData < allocData && AllStorable(vs)
      requires RunStands(data[..numData + 1], at, vs)
      requires at + 3 * |vs| <= numData && data[at + 3 * |vs|] != VERTEX
      ensures (forall v :: v in vs ==> v.Vertex?) && calls == Points(vs)
    {
      hide FromShort, Encode;
      var prim := at;
      calls := [];
      ghost var j := 0;
      ghost var w := data[..numData + 1];
      assert vs[..0] == [];
      while data[prim] == VERTEX
        invariant 0 <= j <= |vs| && prim == at + 3 * j
        invariant calls == Points(vs[..j])
        decreases |vs| - j
      {
        assert w[prim] == data[prim];
        RunVertex(w, at, vs, j);
        calls := calls + [Point(FromShort(data[prim + 1]), FromShort(data[prim + 2]))];
        assert vs[..j + 1][..j] == vs[..j];
        prim := prim + 3;
        j := j + 1;
      }
      if j < |vs| {
        RunVertex(w, at, vs, j);
      }
      assert vs[..j] == vs;
    }

    /** Closes the primitive that stands at `prim`. */
    method DrawClose(st: Style, prim: int, c: bv32, last: bool, ghost p: Pen, ghost d: int)
      returns (calls: seq<Call>)
      requires Valid() && numData < allocData && PenOk(p) && p.open.Primitive? && p.color == c
      requires 0 <= d <= numData && data[d] != VERTEX && PrimAt(data[..numData + 1], prim, d, p.open)
      requires Storable(p.open.start) && AllStorable(p.open.lead)
      ensures calls == Close(st, p, last)
    {
      hide Outline, RunStands, RunEnds, ColorOf, FromShort;
      ReadCommand(data[..numData + 1], prim, p.open.start);
      if data[prim] == LINE {
        calls := [EndLine];
      } else if data[prim] == CLOSEDLINE {
        calls := [EndLoop];
      } else if data[prim] == POLYGON {
        calls := [if last then EndPolygon else EndComplexPolygon];
      } else {
        calls := DrawOutline(st, prim, c, p, d);
        calls := [if last then EndPolygon else EndComplexPolygon] + calls;
      }
    }

    method DrawOutline(st: Style, prim: int, c: bv32, ghost p: Pen, ghost d: int) returns (calls: seq<Call>)
      requires Valid() && numData < allocData && PenOk(p) && p.open.Primitive? && p.color == c
      requires 0 <= d <= numData && data[d] != VERTEX && PrimAt(data[..numData + 1], prim, d, p.open)
      requires Storable(p.open.start) && AllStorable(p.open.lead) && p.open.start.OutlinePolygon?
      ensures calls == Outline(st, p, p.open.start.color)
    {
      hide ColorOf, FromShort, Encode, Points;
      SizeIs(p.open.start);
      ReadCommand(data[..numData + 1], prim, p.open.start);
      var oc := ColorOf(data[prim + 1], data[prim + 2]);
      if oc == ICON_COLOR {
        oc := st.ic;
      }
      if !st.active {
        oc := st.dim(oc);
      }
      assert oc == Shade(st, p.open.start.color);
      calls := DrawRun(prim + 3, p.open.lead);
      calls := [SetColor(oc), BeginLoop] + calls + [EndLoop, SetColor(c)];
    }

    /** Interprets the stream. Every stream that is not cut off inside a command is drawn as its
        commands say. */
    method Draw(st: Style) returns (calls: seq<Call>)
      requires Valid() && Decode(Words()).Commands?
      ensures calls == Drawing(st, Decode(Words()).cs)
    {
      ghost var cs := Decode(Words()).cs;
      EncodeDecode(Words());
      if numData == 0 {
        return [];
      }
      var c, prim;
      c, prim, calls := DrawCommands(st, cs);
      if prim != -1 {
        PenIsStorable(st, cs);
        var more := DrawClose(st, prim, c, true, PenAt(st, cs), numData);
        calls := calls + more;
      }
    }

    /** The loop over the commands. */
    method DrawCommands(st: Style, ghost cs: seq<Command>) returns (c: bv32, prim: int, calls: seq<Call>)
      requires Valid() && numData > 0 && AllStorable(cs) && EncodeAll(cs) == Words()
      ensures c == PenAt(st, cs).color && calls == Calls(st, cs)
      ensures PrimAt(data[..numData + 1], prim, numData, PenAt(st, cs).open)
    {
      hide PenAfter, CallsOf, Encode;
      ghost var w := data[..numData + 1];
      assert w[..numData] == Words();
      c, prim := st.ic, -1;
      var d := 0;
      calls := [SetColor(if st.active then c else st.dim(c))];
      ghost var i, p := 0, PenAt(st, cs[..0]);
      while d < numData
        invariant Reached(st, cs, i, d, p, calls) && d <= numData && c == p.color
        invariant PrimAt(w, prim, d, p.open)
        decreases |cs| - i
      {
        ReachedEnd(st, cs, i, d, p, calls);
        c, d, prim, calls, p := DrawNext(st, c, d, prim, calls, cs, i, p);
        i := i + 1;
      }
      ReachedEnd(st, cs, i, d, p, calls);
    }

    /** One turn of the loop. */
    method DrawNext(st: Style, color: bv32, at: int, primitive: int, before: seq<Call>,
                    ghost cs: seq<Command>, ghost i: int, ghost p: Pen)
      returns (c: bv32, d: int, prim: int, calls: seq<Call>, ghost q: Pen)
      requires Valid() && AllStorable(cs) && EncodeAll(cs) == Words() && at < numData
      requires Reached(st, cs, i, at, p, before) && color == p.color
      requires PrimAt(data[..numData + 1], primitive, at, p.open)
      ensures Reached(st, cs, i + 1, d, q, calls) && c == q.color && d <= numData
      ensures PrimAt(data[..numData + 1], prim, d, q.open)
    {
      hide CallsOf, PenAfter, Calls, PenAt, ColorOf, FromShort, Encode;
      assert data[..numData + 1][..numData] == Words();
      OneMore(data[..numData + 1], primitive, st, cs, i, at, p, before);
      c, d, prim, calls := DrawCommand(st, color, at, primitive, p, cs[i]);
      calls := before + calls;
      q := PenAfter(st, p, cs[i]);
    }

    /** Interprets the command at place d. */
    method DrawCommand(st: Style, color: bv32, at: int, primitive: int, ghost p: Pen, ghost cmd: Command)
      returns (c: bv32, d: int, prim: int, calls: seq<Call>)
      requires Valid() && PenOk(p) && color == p.color
      requires 0 <= at < numData && PrimAt(data[..numData + 1], primitive, at, p.open)
      requires Stands(data[..numData + 1], at, Encode(cmd)) && Storable(cmd)
      requires PenStorable(p)
      ensures d == at + Size(cmd) && prim == PrimAfter(primitive, at, cmd)
      ensures c == PenAfter(st, p, cmd).color && calls == CallsOf(st, p, cmd)
    {
      hide ColorOf, FromShort, ToShort, HighHalf, Close, RunStands, RunEnds;
      ReadCommand(data[..numData + 1], at, cmd);
      c, d, prim, calls := color, at, primitive, [];
      if data[d] == END {
        if prim != -1 {
          calls := DrawClose(st, prim, c, false, p, d);
        }
        prim := -1;
        d := d + 1;
      } else if data[d] == COLOR {
        c := ColorOf(data[d + 1], data[d + 2]);
        if c == ICON_COLOR {
          c := st.ic;
        }
        if !st.active {
          c := st.dim(c);
        }
        calls := [SetColor(c)];
        d := d + 3;
      } else if data[d] == LINE {
        prim := d;
        d := d + 1;
        calls := [BeginLine];
      } else if data[d] == CLOSEDLINE {
        prim := d;
        d := d + 1;
        calls := [BeginLoop];
      } else if data[d] == POLYGON {
        prim := d;
        d := d + 1;
        calls := [BeginComplexPolygon];
      } else if data[d] == OUTLINEPOLYGON {
        prim := d;
        d := d + 3;
        calls := [BeginComplexPolygon];
      } else if data[d] == VERTEX {
        if prim != -1 {
          calls := [Point(FromShort(data[d + 1]), FromShort(data[d + 2]))];
        }
        d := d + 3;
      } else {
        d := d + 1;
      }
    }
  }
}
