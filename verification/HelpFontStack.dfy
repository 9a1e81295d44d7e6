/** The font stack of the help viewer: a fixed array that neither overflows nor runs empty. */
module HelpFontStacks {
  import opened Integers

  const MAX_ELTS := 100

  /** A font, its size and a colour. */
  datatype Style = Style(font: int, size: int, color: int)

  // ----- the stack as a value, lowest entry first

  /** There is always a lowest entry, and never more than MAX_ELTS. */
  predicate StackOk(s: seq<Style>)
  {
    1 <= |s| <= MAX_ELTS
  }

  /** A push on a full stack overwrites the top. */
  function Pushed(s: seq<Style>, x: Style): (t: seq<Style>)
    requires StackOk(s)
    ensures StackOk(t) && t[|t| - 1] == x
  {
    if |s| < MAX_ELTS then s + [x] else s[|s| - 1 := x]
  }

  /** A pop of the lowest entry leaves it. */
  function Popped(s: seq<Style>): (t: seq<Style>)
    requires StackOk(s)
    ensures StackOk(t)
  {
    if |s| > 1 then s[..|s| - 1] else s
  }

  datatype Op = Push(style: Style) | Pop

  function Run(s: seq<Style>, ops: seq<Op>): (t: seq<Style>)
    requires StackOk(s)
    ensures StackOk(t)
  {
    if ops == [] then s
    else
      var u := Run(s, ops[..|ops| - 1]);
      match ops[|ops| - 1]
      case Push(x) => Pushed(u, x)
      case Pop => Popped(u)
  }

  lemma {:induction false} RunConcat(s: seq<Style>, a: seq<Op>, b: seq<Op>)
    requires StackOk(s)
    ensures Run(s, a + b) == Run(Run(s, a), b)
  {
    if b == [] {
      assert a + b == a;
    } else {
      assert (a + b)[..|a + b| - 1] == a + b[..|b| - 1];
      RunConcat(s, a, b[..|b| - 1]);
    }
  }

  lemma RunOne(s: seq<Style>, op: Op)
    requires StackOk(s)
    ensures Run(s, [op]) == if op.Push? then Pushed(s, op.style) else Popped(s)
  {
    assert [op][..0] == [];
  }

  // ----- balanced pushes and pops

  /** Balanced pushes and pops: a push, balanced operations, its pop, and balanced operations. */
  datatype Nest = Empty | Bracket(style: Style, inner: Nest, after: Nest)

  function Ops(n: Nest): seq<Op>
  {
    match n
    case Empty => []
    case Bracket(x, inner, after) => [Push(x)] + Ops(inner) + [Pop] + Ops(after)
  }

  /** How many pushes are open at once, at most. */
  function Peak(n: Nest): nat
  {
    match n
    case Empty => 0
    case Bracket(_, inner, after) => Max(1 + Peak(inner), Peak(after))
  }

  /** The lowest entries that survive when n further ones are needed at once. */
  function Kept(s: seq<Style>, n: nat): (k: int)
    requires StackOk(s)
    ensures 1 <= k <= |s|
  {
    Max(1, Min(|s|, MAX_ELTS - n))
  }

  lemma RunBracket(s: seq<Style>, x: Style, inner: seq<Op>, after: seq<Op>)
    requires StackOk(s)
    ensures Run(s, [Push(x)] + inner + [Pop] + after) == Run(Popped(Run(Pushed(s, x), inner)), after)
  {
    hide Run, Pushed, Popped;
    RunOne(s, Push(x));
    RunConcat(s, [Push(x)], inner);
    RunOne(Run(Pushed(s, x), inner), Pop);
    RunConcat(s, [Push(x)] + inner, [Pop]);
    RunConcat(s, [Push(x)] + inner + [Pop], after);
  }

  lemma BracketKept(s: seq<Style>, x: Style, n: nat)
    requires StackOk(s)
    ensures Popped(Pushed(s, x)[..Kept(Pushed(s, x), n)]) == s[..Kept(s, 1 + n)]
  {
  }

  /** Balanced operations never change an entry below; they cut the stack to what fits beside them. */
  lemma {:induction false} BalancedKeeps(s: seq<Style>, n: Nest)
    requires StackOk(s)
    ensures Run(s, Ops(n)) == s[..Kept(s, Peak(n))]
    decreases n
  {
    hide Popped, Pushed;
    match n
    case Empty =>
    case Bracket(x, inner, after) =>
      BalancedKeeps(Pushed(s, x), inner);
      BracketKept(s, x, Peak(inner));
      var t := s[..Kept(s, 1 + Peak(inner))];
      BalancedKeeps(t, after);
      RunBracket(s, x, Ops(inner), Ops(after));
      assert t[..Kept(t, Peak(after))] == s[..Kept(t, Peak(after))];
  }

  /** They restore the stack exactly when all of them fit, or nothing is on it to lose. */
  lemma BalancedRestores(s: seq<Style>, n: Nest)
    requires StackOk(s)
    ensures Run(s, Ops(n)) == s <==> |s| + Peak(n) <= MAX_ELTS || |s| == 1
  {
    BalancedKeeps(s, n);
    assert s[..|s|] == s;
    assert |s[..Kept(s, Peak(n))]| == Kept(s, Peak(n));
  }

  function Nested(xs: seq<Style>): (n: Nest)
    ensures Peak(n) == |xs|
  {
    if xs == [] then Empty else Bracket(xs[0], Nested(xs[1..]), Empty)
  }

  function Pushes(xs: seq<Style>): seq<Op>
  {
    if xs == [] then [] else [Push(xs[0])] + Pushes(xs[1..])
  }

  function Pops(m: nat): seq<Op>
  {
    seq(m, _ => Pop)
  }

  lemma {:induction false} NestedOps(xs: seq<Style>)
    ensures Ops(Nested(xs)) == Pushes(xs) + Pops(|xs|)
  {
    if xs != [] {
      NestedOps(xs[1..]);
      assert Pops(|xs|) == Pops(|xs| - 1) + [Pop];
      assert Ops(Nested(xs)) == [Push(xs[0])] + Ops(Nested(xs[1..])) + [Pop];
    }
  }

  /** m pushes and then m pops, from depth k: the depth afterwards, and what is left. */
  lemma PushesThenPops(s: seq<Style>, xs: seq<Style>)
    requires StackOk(s)
    ensures var k, m := |s| - 1, |xs|;
            var t := Run(s, Pushes(xs) + Pops(m));
            t <= s && |t| - 1 == Max(0, Min(99, k + m) - m)
  {
    NestedOps(xs);
    BalancedKeeps(s, Nested(xs));
  }

  // ----- the stack in its array

  class HelpFontStack {
    var nfonts: nat
    var elts: array<Style>
    /** The style the drawing library was last told. */
    ghost var drawn: Style

    ghost predicate InBounds()
      reads this
    {
      elts.Length == MAX_ELTS && nfonts < MAX_ELTS
    }

    /** What is drawn is the top. */
    ghost predicate Valid()
      reads this, elts
    {
      InBounds() && drawn == elts[nfonts]
    }

    ghost function Contents(): (s: seq<Style>)
      requires InBounds()
      reads this, elts
      ensures StackOk(s)
    {
      elts[..nfonts + 1]
    }

    constructor ()
      ensures InBounds() && fresh(elts) && nfonts == 0
    {
      nfonts := 0;
      elts := new Style[MAX_ELTS];
    }

    method Init(x: Style)
      requires InBounds()
      modifies this, elts
      ensures Valid() && elts == old(elts) && Contents() == [x]
    {
      nfonts := 0;
      elts[nfonts] := x;
      drawn := x;
    }

    method Top() returns (x: Style)
      requires InBounds()
      ensures x == Contents()[|Contents()| - 1]
      ensures Valid() ==> x == drawn
    {
      x := elts[nfonts];
    }

    method Push(x: Style)
      requires InBounds()
      modifies this, elts
      ensures Valid() && elts == old(elts) && Contents() == Pushed(old(Contents()), x) && drawn == x
    {
      if nfonts < MAX_ELTS - 1 {
        nfonts := nfonts + 1;
      }
      elts[nfonts] := x;
      drawn := x;
    }

    method Pop() returns (x: Style)
      requires InBounds()
      modifies this
      ensures Valid() && elts == old(elts) && Contents() == Popped(old(Contents())) && drawn == x
    {
      if nfonts > 0 {
        nfonts := nfonts - 1;
      }
      x := Top();
      drawn := x;
    }

    method Count() returns (n: nat)
      requires InBounds()
      ensures n == |Contents()| - 1
    {
      n := nfonts;
    }
  }
}
