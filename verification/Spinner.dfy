/** The spinner: stepping a value around a range, and how many decimals its step needs. */
module Spinners {
  import opened Sequences

  // ----- the value as the events change it

  datatype Range = Range(minimum: real, maximum: real, step: real)

  predicate InRange(r: Range, v: real)
  {
    r.minimum <= v <= r.maximum
  }

  function Up(r: Range, v: real): real
  {
    if v + r.step > r.maximum then r.minimum else v + r.step
  }

  function Down(r: Range, v: real): real
  {
    if v - r.step < r.minimum then r.maximum else v - r.step
  }

  function Typed(r: Range, v: real): real
  {
    if v < r.minimum then r.minimum else if v > r.maximum then r.maximum else v
  }

  datatype Event = Input(v: real) | UpButton | DownButton

  function Step(r: Range, value: real, e: Event): real
  {
    match e
    case Input(v) => Typed(r, v)
    case UpButton => Up(r, value)
    case DownButton => Down(r, value)
  }

  function Run(r: Range, value: real, es: seq<Event>): real
  {
    if es == [] then value else Step(r, Run(r, value, es[..|es| - 1]), es[|es| - 1])
  }

  /** What one event keeps, and what it takes to lose it. */
  lemma StepInRange(r: Range, value: real, e: Event)
    requires InRange(r, value)
    ensures InRange(r, Step(r, value, e)) <==>
            (e.UpButton? ==> value + r.step >= r.minimum) && (e.DownButton? ==> value - r.step <= r.maximum)
  {
  }

  /** From a value in range, or once something has been typed, every run ends in range. */
  lemma {:induction false} RunsStayInRange(r: Range, value: real, es: seq<Event>)
    requires r.minimum <= r.maximum && 0.0 <= r.step
    requires InRange(r, value) || exists e :: e in es && e.Input?
    ensures InRange(r, Run(r, value, es))
  {
    if es != [] {
      var front, e := es[..|es| - 1], es[|es| - 1];
      if !e.Input? {
        if !InRange(r, value) {
          var i :| i in es && i.Input?;
          assert i in front;
        }
        RunsStayInRange(r, value, front);
        StepInRange(r, Run(r, value, front), e);
      }
    }
  }

  /** How far two values are apart. */
  function Distance(a: real, b: real): real
  {
    if a <= b then b - a else a - b
  }

  /** A value in range is stored as typed, any other becomes the nearest value of the range. */
  lemma TypedIsNearest(r: Range, value: real, v: real)
    ensures var t := Step(r, value, Input(v));
            && (InRange(r, v) ==> t == v)
            && (r.minimum <= r.maximum ==> InRange(r, t))
            && forall x :: InRange(r, x) ==> Distance(t, v) <= Distance(x, v)
  {
  }

  /** A button makes one step if there is room for it, and otherwise goes to the other end. */
  lemma ButtonSteps(r: Range, v: real)
    ensures Step(r, v, UpButton) == v + r.step <==> v + r.step <= r.maximum || v + r.step == r.minimum
    ensures v + r.step > r.maximum ==> Step(r, v, UpButton) == r.minimum
    ensures Step(r, v, DownButton) == v - r.step <==> v - r.step >= r.minimum || v - r.step == r.maximum
    ensures v - r.step < r.minimum ==> Step(r, v, DownButton) == r.maximum
  {
  }

  // ----- going around

  predicate Proper(r: Range)
  {
    r.minimum <= r.maximum && 0.0 < r.step
  }

  /** The number of the last grid point that is not above the maximum. */
  function Last(r: Range): int
    requires Proper(r)
  {
    ((r.maximum - r.minimum) / r.step).Floor
  }

  function GridAt(r: Range, k: int): real
  {
    r.minimum + k as real * r.step
  }

  lemma MulLess(a: real, b: real, c: real)
    requires 0.0 < c
    ensures a <= b <==> a * c <= b * c
  {
  }

  lemma LastIsLast(r: Range)
    requires Proper(r)
    ensures 0 <= Last(r) && GridAt(r, Last(r)) <= r.maximum < GridAt(r, Last(r) + 1)
  {
    var q := (r.maximum - r.minimum) / r.step;
    assert q * r.step == r.maximum - r.minimum;
    MulLess(0.0, q, r.step);
    MulLess(q.Floor as real, q, r.step);
    MulLess(q.Floor as real + 1.0, q, r.step);
  }

  lemma GridUp(r: Range, j: int, k: int)
    requires Proper(r) && j <= k
    ensures GridAt(r, k + 1) == GridAt(r, k) + r.step
    ensures GridAt(r, j) <= GridAt(r, k)
  {
    MulLess(j as real, k as real, r.step);
  }

  /** Up goes to the next grid point, and from the last one to the first. */
  lemma UpOnGrid(r: Range, k: int)
    requires Proper(r) && 0 <= k <= Last(r)
    ensures Up(r, GridAt(r, k)) == GridAt(r, if k == Last(r) then 0 else k + 1)
  {
    assert GridAt(r, 0) == r.minimum;
    hide GridAt;
    LastIsLast(r);
    GridUp(r, k, k);
    if k < Last(r) {
      GridUp(r, k + 1, Last(r));
    }
  }

  lemma DownOnGrid(r: Range, k: int)
    requires Proper(r) && 0 <= k <= Last(r)
    ensures Down(r, GridAt(r, k)) == if k == 0 then r.maximum else GridAt(r, k - 1)
  {
    assert GridAt(r, 0) == r.minimum;
    hide GridAt;
    if k > 0 {
      GridUp(r, k - 1, k - 1);
      GridUp(r, 0, k - 1);
    }
  }

  lemma RepeatMore(e: Event, n: nat)
    requires n > 0
    ensures Repeat(n, e)[..n - 1] == Repeat(n - 1, e) && Repeat(n, e)[n - 1] == e
  {
  }

  lemma NextMod(n: int, p: int)
    requires p > 0
    ensures (n + 1) % p == if n % p == p - 1 then 0 else n % p + 1
  {
    var q, m := n / p, n % p;
    assert n == p * q + m;
    if m == p - 1 {
      assert n + 1 == p * (q + 1);
      ModOf(p, q + 1, 0);
    } else {
      ModOf(p, q, m + 1);
    }
  }

  lemma ModOf(p: int, q: int, m: int)
    requires 0 <= m < p
    ensures (p * q + m) % p == m
  {
    var d, e := (p * q + m) / p, (p * q + m) % p;
    assert p * (q - d) == e - m;
    SmallMultiples(p, q - d);
  }

  lemma SmallMultiples(p: int, n: int)
    requires p > 0
    ensures n >= 1 ==> p * n >= p
    ensures n <= -1 ==> p * n <= -p
  {
  }

  /** n presses of Up, from the minimum. */
  lemma {:induction false} UpsFromMinimum(r: Range, n: nat)
    requires Proper(r)
    ensures Run(r, r.minimum, Repeat(n, UpButton)) == GridAt(r, n % (Last(r) + 1))
  {
    LastIsLast(r);
    if n == 0 {
      assert Repeat(n, UpButton) == [];
      ModOf(Last(r) + 1, 0, 0);
    } else {
      hide GridAt, Repeat;
      UpsFromMinimum(r, n - 1);
      RepeatMore(UpButton, n);
      UpOnGrid(r, (n - 1) % (Last(r) + 1));
      NextMod(n - 1, Last(r) + 1);
    }
  }

  function FromTop(r: Range, k: int): real
  {
    r.maximum - k as real * r.step
  }

  lemma FromTopDown(r: Range, j: int, k: int)
    requires Proper(r) && j <= k
    ensures FromTop(r, k + 1) == FromTop(r, k) - r.step
    ensures FromTop(r, k) <= FromTop(r, j)
  {
    MulLess(j as real, k as real, r.step);
  }

  lemma LastFromTop(r: Range)
    requires Proper(r)
    ensures FromTop(r, Last(r) + 1) < r.minimum <= FromTop(r, Last(r))
  {
    LastIsLast(r);
  }

  lemma DownFromTop(r: Range, k: int)
    requires Proper(r) && 0 <= k <= Last(r)
    ensures Down(r, FromTop(r, k)) == FromTop(r, if k == Last(r) then 0 else k + 1)
  {
    assert FromTop(r, 0) == r.maximum;
    hide FromTop;
    LastFromTop(r);
    FromTopDown(r, k, k);
    if k < Last(r) {
      FromTopDown(r, k + 1, Last(r));
    }
  }

  /** n presses of Down, from the maximum. */
  lemma {:induction false} DownsFromMaximum(r: Range, n: nat)
    requires Proper(r)
    ensures Run(r, r.maximum, Repeat(n, DownButton)) == FromTop(r, n % (Last(r) + 1))
  {
    LastIsLast(r);
    if n == 0 {
      assert Repeat(n, DownButton) == [];
      ModOf(Last(r) + 1, 0, 0);
    } else {
      hide FromTop, Repeat;
      DownsFromMaximum(r, n - 1);
      RepeatMore(DownButton, n);
      DownFromTop(r, (n - 1) % (Last(r) + 1));
      NextMod(n - 1, Last(r) + 1);
    }
  }

  /** When one button takes back the other, value by value. */
  lemma ButtonsUndo(r: Range, v: real)
    requires Proper(r) && InRange(r, v)
    ensures Down(r, Up(r, v)) == v <==> v + r.step <= r.maximum || v == r.maximum
    ensures Up(r, Down(r, v)) == v <==> v - r.step >= r.minimum || v == r.minimum
  {
  }

  /** On the grid Up always takes back Down; Down takes back Up at every point exactly when the
      step divides the range. */
  lemma ButtonsUndoOnGrid(r: Range)
    requires Proper(r)
    ensures forall k :: 0 <= k <= Last(r) ==> Up(r, Down(r, GridAt(r, k))) == GridAt(r, k)
    ensures (forall k :: 0 <= k <= Last(r) ==> Down(r, Up(r, GridAt(r, k))) == GridAt(r, k))
            <==> GridAt(r, Last(r)) == r.maximum
  {
    assert GridAt(r, 0) == r.minimum;
    hide GridAt;
    LastIsLast(r);
    forall k | 0 <= k <= Last(r)
      ensures Up(r, Down(r, GridAt(r, k))) == GridAt(r, k)
      ensures Down(r, Up(r, GridAt(r, k))) == GridAt(r, k) <==> k < Last(r) || GridAt(r, k) == r.maximum
    {
      GridUp(r, 0, k);
      GridUp(r, k, Last(r));
      ButtonsUndo(r, GridAt(r, k));
      if k > 0 {
        GridUp(r, k - 1, k - 1);
        GridUp(r, 0, k - 1);
      }
      if k < Last(r) {
        GridUp(r, k + 1, Last(r));
      }
    }
    assert GridAt(r, Last(r)) != r.maximum ==> Down(r, Up(r, GridAt(r, Last(r)))) != GridAt(r, Last(r));
  }

  /** How much further up than down a run of button presses goes. */
  function Net(es: seq<Event>): int
  {
    if es == [] then 0
    else Net(es[..|es| - 1]) + if es[|es| - 1].UpButton? then 1 else if es[|es| - 1].DownButton? then -1 else 0
  }

  /** When the step divides the range, any run of button presses adds its net number of steps,
      around and around. */
  lemma {:induction false} ButtonsGoAround(r: Range, k: int, es: seq<Event>)
    requires Proper(r) && GridAt(r, Last(r)) == r.maximum && 0 <= k <= Last(r)
    requires forall e :: e in es ==> !e.Input?
    ensures Run(r, GridAt(r, k), es) == GridAt(r, (k + Net(es)) % (Last(r) + 1))
  {
    LastIsLast(r);
    var p := Last(r) + 1;
    if es == [] {
      ModOf(p, 0, k);
    } else {
      var front, e := es[..|es| - 1], es[|es| - 1];
      assert forall x :: x in front ==> x in es;
      assert e in es;
      ButtonsGoAround(r, k, front);
      var n := k + Net(front);
      if e.UpButton? {
        UpOnGrid(r, n % p);
        NextMod(n, p);
      } else {
        DownOnGrid(r, n % p);
        NextMod(n - 1, p);
      }
    }
  }

  // ----- the widget

  class Spinner {
    var value: real
    var minimum: real
    var maximum: real
    var step: real

    function Limits(): Range
      reads this
    {
      Range(minimum, maximum, step)
    }

    constructor ()
      ensures value == minimum == step == 1.0 && maximum == 100.0
    {
      value, minimum, maximum, step := 1.0, 1.0, 100.0, 1.0;
    }

    /** Something changed in the input field, or a button was pressed. */
    method Callback(e: Event)
      modifies `value
      ensures value == Step(Limits(), old(value), e)
    {
      match e
      case Input(v) =>
        if v < minimum {
          value := minimum;
        } else if v > maximum {
          value := maximum;
        } else {
          value := v;
        }
      case UpButton =>
        var v := value + step;
        if v > maximum {
          value := minimum;
        } else {
          value := v;
        }
      case DownButton =>
        var v := value - step;
        if v < minimum {
          value := maximum;
        } else {
          value := v;
        }
    }
  }

  // ----- the decimals of a printed step

  predicate IsDigit(c: char)
  {
    '0' <= c <= '9'
  }

  predicate Digits(s: string)
  {
    forall c :: c in s ==> IsDigit(c)
  }

  function Number(s: string): int
  {
    if s == [] then 0 else 10 * Number(s[..|s| - 1]) + (s[|s| - 1] as int - '0' as int)
  }

  function Pow10(n: nat): (p: int)
    ensures p >= 1
  {
    if n == 0 then 1 else 10 * Pow10(n - 1)
  }

  /** What is left of a fraction without its zeros at the end. */
  function Needed(fraction: string): (c: nat)
    ensures c <= |fraction| && forall i :: c <= i < |fraction| ==> fraction[i] == '0'
    ensures c > 0 ==> fraction[c - 1] != '0'
  {
    if fraction == [] || fraction[|fraction| - 1] != '0' then |fraction|
    else Needed(fraction[..|fraction| - 1])
  }

  lemma NeededIs(fraction: string, c: nat)
    requires c <= |fraction| && (forall i :: c <= i < |fraction| ==> fraction[i] == '0')
    requires c > 0 ==> fraction[c - 1] != '0'
    ensures c == Needed(fraction)
  {
  }

  lemma DividesTen(v: int, x: int, p: int)
    requires p >= 1 && 0 <= x < 10
    ensures (10 * v + x) % (10 * p) == 0 <==> x == 0 && v % p == 0
  {
    var a := 10 * v + x;
    if a % (10 * p) == 0 {
      var q := a / (10 * p);
      assert a == 10 * p * q;
      assert x == 10 * (p * q - v);
      assert v == p * q;
      ModOf(p, q, 0);
    }
    if x == 0 && v % p == 0 {
      assert v == p * (v / p);
      assert a == (10 * p) * (v / p);
      ModOf(10 * p, v / p, 0);
    }
  }

  /** A number ends in n zeros exactly when its digits do. */
  lemma {:induction false} EndsInZeros(s: string, n: nat)
    requires Digits(s) && n <= |s|
    ensures Number(s) % Pow10(n) == 0 <==> forall i :: |s| - n <= i < |s| ==> s[i] == '0'
  {
    if n > 0 {
      var front, c := s[..|s| - 1], s[|s| - 1];
      assert c in s && forall x :: x in front ==> x in s;
      EndsInZeros(front, n - 1);
      DividesTen(Number(front), c as int - '0' as int, Pow10(n - 1));
      assert (forall i :: |s| - n <= i < |s| ==> s[i] == '0') <==>
             c == '0' && forall i :: |front| - (n - 1) <= i < |front| ==> front[i] == '0';
    }
  }

  /** With d decimals the printed step can be given exactly exactly when d is at least what is
      needed: the step is Number / Pow10(|fraction|), and has to be a whole number of Pow10(-d). */
  lemma NeededIsLeast(whole: string, fraction: string, d: nat)
    requires Digits(whole) && Digits(fraction) && d <= |fraction|
    ensures Number(whole + fraction) % Pow10(|fraction| - d) == 0 <==> Needed(fraction) <= d
  {
    var s := whole + fraction;
    EndsInZeros(s, |fraction| - d);
    assert forall i :: |whole| <= i < |s| ==> s[i] == fraction[i - |whole|];
    var c := Needed(fraction);
    if c <= d {
      assert forall i :: |s| - (|fraction| - d) <= i < |s| ==> s[i] == '0';
    } else {
      assert s[|whole| + c - 1] != '0';
    }
  }

  /** The step as printed with 12 decimals: a sign or none, digits, a point and 12 digits. */
  ghost predicate Printed(temp: array<char>, sign: string, whole: string, fraction: string)
    reads temp
  {
    var s := sign + whole + "." + fraction;
    && (sign == "" || sign == "-") && whole != "" && Digits(whole) && Digits(fraction) && |fraction| == 12
    && |s| < temp.Length && temp[..|s|] == s && temp[|s|] == '\0'
  }

  /** What stands at each place of the printed step. */
  lemma PrintedAt(sign: string, whole: string, fraction: string, i: int)
    requires (sign == "" || sign == "-") && Digits(whole) && Digits(fraction)
    requires 0 <= i < |sign + whole + "." + fraction|
    ensures var s, point := sign + whole + "." + fraction, |sign| + |whole|;
            && s[i] != '\0'
            && (i == point ==> s[i] == '.')
            && (i > point ==> s[i] == fraction[i - point - 1] && IsDigit(s[i]))
  {
    var s, point := sign + whole + "." + fraction, |sign| + |whole|;
    if |sign| <= i < point {
      assert s[i] == whole[i - |sign|] && whole[i - |sign|] in whole;
    } else if i > point {
      assert s[i] == fraction[i - point - 1] && fraction[i - point - 1] in fraction;
    }
  }

  /** The two scans backwards over the printed step. */
  method Decimals(temp: array<char>, ghost sign: string, ghost whole: string, ghost fraction: string)
    returns (c: nat)
    requires Printed(temp, sign, whole, fraction)
    ensures c == Needed(fraction)
  {
    c := 0;
    ghost var s := sign + whole + "." + fraction;
    ghost var point := |sign| + |whole|;
    forall i | 0 <= i < |s|
      ensures temp[i] == s[i] && s[i] != '\0' && (i == point ==> s[i] == '.')
      ensures i > point ==> s[i] == fraction[i - point - 1] && IsDigit(s[i])
    {
      assert temp[..|s|][i] == s[i];
      PrintedAt(sign, whole, fraction, i);
    }
    var sp := 0;
    while temp[sp] != '\0'
      invariant 0 <= sp <= |s|
      decreases |s| - sp
    {
      sp := sp + 1;
    }
    sp := sp - 1;
    while sp > 0 && temp[sp] == '0'
      invariant point <= sp < |s|
      invariant forall i :: sp < i < |s| ==> temp[i] == '0'
    {
      sp := sp - 1;
    }
    ghost var top := sp;
    while sp > 0 && '0' <= temp[sp] <= '9'
      invariant point <= sp <= top && c == top - sp
    {
      sp := sp - 1;
      c := c + 1;
    }
    forall i | c <= i < |fraction| ensures fraction[i] == '0' {
      assert temp[point + 1 + i] == '0';
    }
    assert c > 0 ==> fraction[c - 1] == temp[top];
    NeededIs(fraction, c);
  }
}
