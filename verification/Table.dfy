/** A table: row heights and column widths, the remembered scroll positions, and what to redraw. */
module Tables {
  import opened Integers
  import opened Sequences
  import opened Vectors

  // ----- sizes of rows or columns

  /** A row that has no height, or a column that has no width, counts as 0. */
  function SizeAt(h: seq<int>, r: int): int
  {
    if 0 <= r < |h| then h[r] else 0
  }

  /** The sizes of all rows before n: where row n starts. */
  function Sum(h: seq<int>, n: int): int
  {
    if n <= 0 then 0 else Sum(h, n - 1) + SizeAt(h, n - 1)
  }

  predicate NonNegative(h: seq<int>)
  {
    forall r :: 0 <= r < |h| ==> h[r] >= 0
  }

  lemma {:induction false} SumGrows(h: seq<int>, m: int, n: int)
    requires NonNegative(h) && m <= n
    ensures 0 <= Sum(h, m) <= Sum(h, n)
    decreases n, n - m
  {
    if n > 0 {
      SumGrows(h, if m < n then m else n - 1, n - 1);
    }
  }

  /** A changed size moves every later row by the difference. */
  lemma {:induction false} SumUpdate(h: seq<int>, r: int, v: int, n: int)
    requires 0 <= r < |h|
    ensures Sum(h[r := v], n) == Sum(h, n) + if r < n then v - h[r] else 0
  {
    if n > 0 {
      SumUpdate(h, r, v, n - 1);
    }
  }

  lemma {:induction false} SumPrefix(h: seq<int>, g: seq<int>, n: int)
    requires n <= |h| && n <= |g| && forall r :: 0 <= r < n ==> h[r] == g[r]
    ensures Sum(h, n) == Sum(g, n)
  {
    if n > 0 {
      SumPrefix(h, g, n - 1);
    }
  }

  // ----- one axis as a value

  /** The rows: heights, their number, first and last row in the window, the remembered start of the
      first (-1 for none), the total height, the scrollbar and its maximum, the visible height, and
      the row asked for. The columns: the same with widths. */
  datatype View = View(sizes: seq<int>, count: nat, first: int, last: int, pos: int,
                       total: int, scroll: int, most: int, inner: int, position: int)

  /** Where row n starts, going by the remembered position when it can be used. */
  function ScrollPos(v: View, n: int): int
  {
    if v.pos != -1 && n >= v.first then v.pos + Sum(v.sizes, n) - Sum(v.sizes, v.first) else Sum(v.sizes, n)
  }

  /** The remembered position gives the right answer exactly when it is not used, or right itself. */
  lemma ScrollPosIsRight(v: View, n: int)
    ensures ScrollPos(v, n) == Sum(v.sizes, n)
            <==> v.pos == -1 || n < v.first || v.pos == Sum(v.sizes, v.first)
  {
  }

  /** The first row at or after `from` whose end is past `bound`, or `count`. */
  function FirstPast(h: seq<int>, from: nat, count: nat, bound: int): (f: nat)
    requires from <= count
    ensures from <= f <= count && (f < count ==> Sum(h, f + 1) > bound)
    ensures forall n :: from < n <= f ==> Sum(h, n) <= bound
    decreases count - from
  {
    if from == count || Sum(h, from + 1) > bound then from else FirstPast(h, from + 1, count, bound)
  }

  lemma FirstNext(h: seq<int>, from: nat, count: nat, bound: int)
    requires from <= count
    ensures FirstPast(h, from, count, bound) ==
            if from == count || Sum(h, from + 1) > bound then from else FirstPast(h, from + 1, count, bound)
  {
  }

  lemma SumNext(h: seq<int>, n: nat)
    ensures Sum(h, n + 1) == Sum(h, n) + SizeAt(h, n) && Sum(h, 0) == 0
  {
  }

  /** The last row stands in for a row that was not found. */
  function OrLast(f: int, count: int): int
  {
    if f >= count then count - 1 else f
  }

  function Scrolled(v: View): View
  {
    var f := FirstPast(v.sizes, 0, v.count, v.scroll);
    var b := FirstPast(v.sizes, f, v.count, v.scroll + v.inner - 1);
    v.(first := OrLast(f, v.count), position := OrLast(f, v.count), pos := Sum(v.sizes, f), last := OrLast(b, v.count))
  }

  function Clamp(min: int, max: int, v: int): int
  {
    if (v < min) == (min <= max) then min
    else if (v > max) == (min <= max) then max
    else v
  }

  /** The total size is taken again; `inner` is the visible size that the new dimensions leave. */
  function Rebounded(v: View, inner: int): View
  {
    var total := ScrollPos(v, v.count);
    v.(total := total, inner := inner, most := total - inner, scroll := Clamp(0, total - inner, v.scroll))
  }

  function Resized(v: View, inner: int): View
  {
    Scrolled(Rebounded(v, inner))
  }

  /** The heights after row_height(r, height). For a row past the end the vector grows only up to
      that row, and what is then written behind its end is not part of it. */
  function WithHeight(h: seq<int>, r: nat, height: int): seq<int>
  {
    if r < |h| then h[r := height] else h + Repeat(r - |h|, height)
  }

  /** The widths after col_width(c, width). The vector grows up to and with the column. */
  function WithWidth(w: seq<int>, c: nat, width: int): seq<int>
  {
    if c < |w| then w[c := width] else w + Repeat(c + 1 - |w|, width)
  }

  /** New rows get the size of the last one, or a default. */
  function WithCount(h: seq<int>, n: nat, default: int): seq<int>
  {
    if n <= |h| then h[..n] else h + Repeat(n - |h|, if |h| > 0 then h[|h| - 1] else default)
  }

  const ROW_HEIGHT := 25
  const COLUMN_WIDTH := 80

  // ----- the table as a value

  datatype Grid = Grid(rows: View, cols: View)

  /** An operation, with the visible height and width found when the dimensions are taken again. */
  datatype Op =
    | SetHeight(row: int, height: int, tih: int, tiw: int)
    | SetWidth(col: int, width: int, tih: int, tiw: int)
    | SetRows(n: nat, tih: int, tiw: int)
    | SetCols(n: nat, tih: int, tiw: int)
    | Resize(tih: int, tiw: int)
    | ScrollDown(y: int, tih: int, tiw: int)
    | ScrollAcross(x: int, tih: int, tiw: int)
    | RowPosition(row: int)
    | ColPosition(col: int)

  /** Setting the size that is there already does nothing. */
  predicate Changes(h: seq<int>, r: int, size: int)
  {
    r >= 0 && !(r < |h| && h[r] == size)
  }

  /** Both axes are resized and scrolled, whichever the operation is about. */
  function BothResized(g: Grid, tih: int, tiw: int): Grid
  {
    Grid(Resized(g.rows, tih), Resized(g.cols, tiw))
  }

  function Step(g: Grid, op: Op): Grid
  {
    match op
    case SetHeight(r, height, tih, tiw) =>
      if !Changes(g.rows.sizes, r, height) then g
      else BothResized(g.(rows := g.rows.(sizes := WithHeight(g.rows.sizes, r, height))), tih, tiw)
    case SetWidth(c, width, tih, tiw) =>
      if !Changes(g.cols.sizes, c, width) then g
      else BothResized(g.(cols := g.cols.(sizes := WithWidth(g.cols.sizes, c, width))), tih, tiw)
    case SetRows(n, tih, tiw) =>
      BothResized(g.(rows := g.rows.(sizes := WithCount(g.rows.sizes, n, ROW_HEIGHT), count := n)), tih, tiw)
    case SetCols(n, tih, tiw) =>
      BothResized(g.(cols := g.cols.(sizes := WithCount(g.cols.sizes, n, COLUMN_WIDTH), count := n)), tih, tiw)
    case Resize(tih, tiw) => BothResized(g, tih, tiw)
    case ScrollDown(y, tih, tiw) =>
      Grid(Scrolled(g.rows.(scroll := y, inner := tih)), Scrolled(g.cols.(inner := tiw)))
    case ScrollAcross(x, tih, tiw) =>
      Grid(Scrolled(g.rows.(inner := tih)), Scrolled(g.cols.(scroll := x, inner := tiw)))
    case RowPosition(r) => if Moves(g.rows, r) then Grid(Positioned(g.rows, r), Scrolled(g.cols)) else g
    case ColPosition(c) => if Moves(g.cols, c) then Grid(Scrolled(g.rows), Positioned(g.cols, c)) else g
  }

  // ----- bringing a row to the top

  /** Nothing moves for the row asked for before, or when the whole table is visible. */
  predicate Moves(v: View, row: int)
  {
    v.position != row && v.total > v.inner
  }

  /** A row number brought among the rows. */
  function Among(v: View, row: int): int
  {
    if row < 0 then 0 else if row >= v.count then v.count - 1 else row
  }

  function Positioned(v: View, row: int): View
  {
    Scrolled(v.(scroll := Min(ScrollPos(v, Among(v, row)), v.most))).(position := Among(v, row))
  }

  // ----- getting back what was set

  /** row_height(r) gives back what row_height(r, height) set exactly when r is one of the rows. */
  lemma HeightComesBack(h: seq<int>, r: nat, height: int)
    ensures SizeAt(WithHeight(h, r, height), r) == height <==> r < |h| || height == 0
    ensures forall i :: 0 <= i < |h| && i != r ==> SizeAt(WithHeight(h, r, height), i) == h[i]
  {
  }

  /** Unlike row_height, col_width gives back what was set for every column. */
  lemma WidthComesBack(w: seq<int>, c: nat, width: int)
    ensures SizeAt(WithWidth(w, c, width), c) == width
    ensures forall i :: 0 <= i < |w| && i != c ==> SizeAt(WithWidth(w, c, width), i) == w[i]
  {
  }

  // ----- what each operation leaves

  /** The size of every row after row_height(r, height), and of every column after col_width. */
  lemma HeightsAfter(h: seq<int>, r: nat, height: int)
    ensures var w := WithHeight(h, r, height);
            |w| == (if r < |h| then |h| else r)
            && forall i :: 0 <= i < |w| ==> w[i] == if i < |h| && i != r then h[i] else height
  {
  }

  lemma WidthsAfter(h: seq<int>, c: nat, width: int)
    ensures var w := WithWidth(h, c, width);
            |w| == (if c < |h| then |h| else c + 1)
            && forall i :: 0 <= i < |w| ==> w[i] == if i < |h| && i != c then h[i] else width
  {
  }

  /** Rows that stay keep their size, new ones get that of the last one, or the default. */
  lemma SizesAfterCount(h: seq<int>, n: nat, default: int)
    ensures var w := WithCount(h, n, default);
            |w| == n && forall i :: 0 <= i < n ==>
              w[i] == if i < |h| then h[i] else if h == [] then default else h[|h| - 1]
  {
  }

  /** Which sizes and counts an operation changes. */
  lemma StepSizes(g: Grid, op: Op)
    ensures var r := Step(g, op);
            && r.rows.sizes == (if op.SetHeight? && op.row >= 0 then WithHeight(g.rows.sizes, op.row, op.height)
                                else if op.SetRows? then WithCount(g.rows.sizes, op.n, 25) else g.rows.sizes)
            && r.cols.sizes == (if op.SetWidth? && op.col >= 0 then WithWidth(g.cols.sizes, op.col, op.width)
                                else if op.SetCols? then WithCount(g.cols.sizes, op.n, 80) else g.cols.sizes)
            && r.rows.count == (if op.SetRows? then op.n else g.rows.count)
            && r.cols.count == (if op.SetCols? then op.n else g.cols.count)
  {
    hide FirstPast, ScrollPos, Clamp;
  }

  /** After a resize: the window has the size given, the scrollbar ends with the table, and the offset
      is kept where it can be, and otherwise the nearest. A table smaller than its window, which has
      no such offset, goes back to 0. */
  ghost predicate Rescrolled(v: View, inner: int, w: View)
  {
    && w.inner == inner && w.most == w.total - inner
    && (w.most >= 0 ==> 0 <= w.scroll <= w.most)
    && (0 <= v.scroll <= w.most ==> w.scroll == v.scroll)
    && (w.most >= 0 && v.scroll > w.most ==> w.scroll == w.most)
    && (w.most >= 0 && v.scroll < 0 ==> w.scroll == 0)
    && (w.most < 0 && v.scroll >= 0 ==> w.scroll == 0)
  }

  lemma ResizedScroll(v: View, inner: int)
    ensures Rescrolled(v, inner, Resized(v, inner))
  {
    hide FirstPast, ScrollPos, Sum;
  }

  /** Every operation but scrolling resizes both axes, unless there is nothing to do. */
  lemma StepResizes(g: Grid, op: Op)
    requires !op.ScrollDown? && !op.ScrollAcross? && !op.RowPosition? && !op.ColPosition?
    ensures var r := Step(g, op);
            || (Rescrolled(g.rows, op.tih, r.rows) && Rescrolled(g.cols, op.tiw, r.cols))
            || (r == g && op.SetHeight?
                && (op.row < 0 || (op.row < |g.rows.sizes| && g.rows.sizes[op.row] == op.height)))
            || (r == g && op.SetWidth? && (op.col < 0 || (op.col < |g.cols.sizes| && g.cols.sizes[op.col] == op.width)))
  {
    hide Resized, Rescrolled;
    var rows := if op.SetHeight? && op.row >= 0 then g.rows.(sizes := WithHeight(g.rows.sizes, op.row, op.height))
                else if op.SetRows? then g.rows.(sizes := WithCount(g.rows.sizes, op.n, ROW_HEIGHT), count := op.n)
                else g.rows;
    var cols := if op.SetWidth? && op.col >= 0 then g.cols.(sizes := WithWidth(g.cols.sizes, op.col, op.width))
                else if op.SetCols? then g.cols.(sizes := WithCount(g.cols.sizes, op.n, COLUMN_WIDTH), count := op.n)
                else g.cols;
    ResizedScroll(rows, op.tih);
    ResizedScroll(cols, op.tiw);
    SameScroll(g.rows, rows, op.tih, Resized(rows, op.tih));
    SameScroll(g.cols, cols, op.tiw, Resized(cols, op.tiw));
  }

  lemma SameScroll(v: View, u: View, inner: int, w: View)
    requires v.scroll == u.scroll && Rescrolled(u, inner, w)
    ensures Rescrolled(v, inner, w)
  {
  }

  /** A scrollbar that is moved gives its axis the new offset; the other axis keeps its own. */
  lemma StepScrolls(g: Grid, op: Op)
    requires op.ScrollDown? || op.ScrollAcross?
    ensures var r := Step(g, op);
            && r.rows.scroll == (if op.ScrollDown? then op.y else g.rows.scroll) && r.rows.inner == op.tih
            && r.cols.scroll == (if op.ScrollAcross? then op.x else g.cols.scroll) && r.cols.inner == op.tiw
            && r.rows.total == g.rows.total && r.rows.most == g.rows.most
            && r.cols.total == g.cols.total && r.cols.most == g.cols.most
  {
    hide FirstPast, Sum;
  }

  /** The first row in the window counts as the one asked for. */
  lemma ScrolledAsks(v: View)
    ensures var w := Scrolled(v);
            w.position == w.first && w.scroll == v.scroll && w.sizes == v.sizes && w.count == v.count
            && w.total == v.total && w.most == v.most && w.inner == v.inner
  {
  }

  /** Past the end of the table the last row stands for the first in the window. */
  lemma ScrolledPast(v: View)
    requires NonNegative(v.sizes) && Sum(v.sizes, v.count) <= v.scroll && v.inner > 0
    ensures var w := Scrolled(v); w.first == w.last == v.count - 1
  {
    FoundBefore(v.sizes, v.count, v.scroll);
  }

  /** Bringing a row to the top: the offset is where the row nearest to the one asked for starts, or
      the end of the scrollbar; nothing happens for the row asked for before, or when the whole table
      is visible. The columns are found again at their offset. */
  lemma RowBrought(g: Grid, row: int, a: int)
    requires Accurate(g.rows) && g.rows.count > 0
    requires 0 <= a < g.rows.count && (0 <= row < g.rows.count ==> a == row)
    requires (row < 0 ==> a == 0) && (row >= g.rows.count ==> a == g.rows.count - 1)
    ensures var r := Step(g, RowPosition(row));
            if row == g.rows.position || g.rows.total <= g.rows.inner then r == g
            else
              && r.rows.position == a && r.rows.sizes == g.rows.sizes && r.cols.scroll == g.cols.scroll
              && r.rows.scroll == if Sum(g.rows.sizes, a) <= g.rows.most then Sum(g.rows.sizes, a) else g.rows.most
  {
    ScrollPosIsRight(g.rows, a);
    hide FirstPast, Sum;
  }

  lemma ColBrought(g: Grid, col: int, a: int)
    requires Accurate(g.cols) && g.cols.count > 0
    requires 0 <= a < g.cols.count && (0 <= col < g.cols.count ==> a == col)
    requires (col < 0 ==> a == 0) && (col >= g.cols.count ==> a == g.cols.count - 1)
    ensures var r := Step(g, ColPosition(col));
            if col == g.cols.position || g.cols.total <= g.cols.inner then r == g
            else
              && r.cols.position == a && r.cols.sizes == g.cols.sizes && r.rows.scroll == g.rows.scroll
              && r.cols.scroll == if Sum(g.cols.sizes, a) <= g.cols.most then Sum(g.cols.sizes, a) else g.cols.most
  {
    ScrollPosIsRight(g.cols, a);
    hide FirstPast, Sum;
  }

  // ----- when the remembered numbers are right

  /** There is a row at the scroll offset, or the last row has no height. */
  predicate InView(v: View)
  {
    v.count == 0 || v.scroll < Sum(v.sizes, v.count) || SizeAt(v.sizes, v.count - 1) == 0
  }

  ghost predicate Accurate(v: View)
  {
    && NonNegative(v.sizes) && |v.sizes| >= v.count
    && v.pos == Sum(v.sizes, v.first) && v.total == Sum(v.sizes, v.count) && v.first <= v.count
    && v.inner > 0 && v.most < v.total && InView(v)
  }

  ghost predicate GridAccurate(g: Grid)
  {
    Accurate(g.rows) && Accurate(g.cols)
  }

  /** After scrolling, the remembered position is the start of the first row exactly when there is a
      row at the scroll offset (or the last row has no height). */
  lemma ScrolledPosition(v: View)
    ensures var w := Scrolled(v);
            w.pos == Sum(v.sizes, w.first) <==>
            FirstPast(v.sizes, 0, v.count, v.scroll) < v.count || SizeAt(v.sizes, v.count - 1) == 0
  {
  }

  lemma FoundBefore(h: seq<int>, count: nat, y: int)
    requires NonNegative(h)
    ensures FirstPast(h, 0, count, y) < count <==> count > 0 && y < Sum(h, count)
  {
    var f := FirstPast(h, 0, count, y);
    if f < count {
      SumGrows(h, f + 1, count);
    }
  }

  /** Inside the table, the first row is the one at the scroll offset, and the last row the last one
      that begins inside the window. */
  lemma ScrolledRows(v: View)
    requires NonNegative(v.sizes) && 0 <= v.scroll < Sum(v.sizes, v.count) && v.inner > 0
    ensures var w := Scrolled(v);
            && 0 <= w.first <= w.last < v.count
            && Sum(v.sizes, w.first) <= v.scroll < Sum(v.sizes, w.first + 1)
            && Sum(v.sizes, w.last) < v.scroll + v.inner
            && (w.last < v.count - 1 ==> v.scroll + v.inner <= Sum(v.sizes, w.last + 1))
  {
    FoundBefore(v.sizes, v.count, v.scroll);
    var f := FirstPast(v.sizes, 0, v.count, v.scroll);
    var b := FirstPast(v.sizes, f, v.count, v.scroll + v.inner - 1);
    assert f == 0 ==> Sum(v.sizes, f) == 0;
  }

  /** Scrolling leaves an axis with the right total accurate exactly when it ends up inside. */
  lemma ScrolledIsAccurate(v: View)
    requires NonNegative(v.sizes) && |v.sizes| >= v.count && v.inner > 0
    requires v.total == Sum(v.sizes, v.count) && v.most < v.total
    ensures Accurate(Scrolled(v)) <==> InView(v)
  {
    ScrolledPosition(v);
    FoundBefore(v.sizes, v.count, v.scroll);
  }

  /** The clamped scroll offset is inside. */
  lemma ReboundedInside(v: View, inner: int)
    requires NonNegative(v.sizes) && inner > 0 && ScrollPos(v, v.count) == Sum(v.sizes, v.count)
    ensures InView(Rebounded(v, inner))
  {
    SumGrows(v.sizes, 0, v.count);
    if v.count > 0 {
      SumGrows(v.sizes, 0, v.count - 1);
      SumGrows(v.sizes, v.count - 1, v.count);
    }
  }

  /** A resize leaves an axis accurate exactly when it gets the total right. */
  lemma ResizedIsAccurate(v: View, inner: int)
    requires NonNegative(v.sizes) && |v.sizes| >= v.count && inner > 0
    ensures Accurate(Resized(v, inner)) <==> ScrollPos(v, v.count) == Sum(v.sizes, v.count)
  {
    hide Clamp, InView;
    if ScrollPos(v, v.count) == Sum(v.sizes, v.count) {
      ReboundedInside(v, inner);
      ScrolledIsAccurate(Rebounded(v, inner));
    }
  }

  /** An accurate axis stays so through a resize or a rescan that does not concern it. */
  lemma OtherAxis(v: View, inner: int)
    requires Accurate(v) && inner > 0
    ensures Accurate(Resized(v, inner)) && Accurate(Scrolled(v.(inner := inner))) && Accurate(Scrolled(v))
  {
    hide Scrolled;
    ScrollPosIsRight(v, v.count);
    ResizedIsAccurate(v, inner);
    ScrolledIsAccurate(v);
    ScrolledIsAccurate(v.(inner := inner));
  }

  /** What each operation asks so that the numbers stay right: a size may change only from the first
      row in the window on, and a scrollbar has to stay before the end. */
  predicate Careful(g: Grid, op: Op)
  {
    match op
    case SetHeight(r, height, _, _) => CarefulSize(g.rows, r, height)
    case SetWidth(c, width, _, _) => CarefulSize(g.cols, c, width)
    case ScrollDown(y, _, _) => InView(g.rows.(scroll := y))
    case ScrollAcross(x, _, _) => InView(g.cols.(scroll := x))
    case _ => true
  }

  predicate CarefulSize(v: View, r: int, size: int)
  {
    r < 0 || r >= v.first || r >= |v.sizes| || v.sizes[r] == size
  }

  predicate Sensible(op: Op)
  {
    match op
    case SetHeight(_, height, tih, tiw) => height >= 0 && tih > 0 && tiw > 0
    case SetWidth(_, width, tih, tiw) => width >= 0 && tih > 0 && tiw > 0
    case SetRows(_, tih, tiw) => tih > 0 && tiw > 0
    case SetCols(_, tih, tiw) => tih > 0 && tiw > 0
    case Resize(tih, tiw) => tih > 0 && tiw > 0
    case ScrollDown(_, tih, tiw) => tih > 0 && tiw > 0
    case ScrollAcross(_, tih, tiw) => tih > 0 && tiw > 0
    case _ => true
  }

  /** A new size for row r, and new rows of that size up to it. */
  lemma SizeAccurate(v: View, h: seq<int>, r: nat, size: int, inner: int)
    requires Accurate(v) && size >= 0 && inner > 0 && Changes(v.sizes, r, size)
    requires if r < |v.sizes| then h == v.sizes[r := size]
             else |h| >= |v.sizes| && h[..|v.sizes|] == v.sizes && NonNegative(h)
    ensures Accurate(Resized(v.(sizes := h), inner)) <==> CarefulSize(v, r, size)
  {
    hide Resized;
    var u := v.(sizes := h);
    ScrollPosIsRight(u, u.count);
    ResizedIsAccurate(u, inner);
    SumGrows(v.sizes, v.first, v.first);
    if r < |v.sizes| {
      SumUpdate(v.sizes, r, size, v.first);
    } else {
      assert forall i :: 0 <= i < |v.sizes| ==> h[i] == h[..|v.sizes|][i];
      SumPrefix(v.sizes, h, v.first);
    }
  }

  lemma HeightAccurate(v: View, r: nat, height: int, inner: int)
    requires Accurate(v) && height >= 0 && inner > 0 && Changes(v.sizes, r, height)
    ensures Accurate(Resized(v.(sizes := WithHeight(v.sizes, r, height)), inner)) <==> CarefulSize(v, r, height)
  {
    hide Resized;
    if r >= |v.sizes| {
      assert WithHeight(v.sizes, r, height)[..|v.sizes|] == v.sizes;
    }
    SizeAccurate(v, WithHeight(v.sizes, r, height), r, height, inner);
  }

  lemma WidthAccurate(v: View, c: nat, width: int, inner: int)
    requires Accurate(v) && width >= 0 && inner > 0 && Changes(v.sizes, c, width)
    ensures Accurate(Resized(v.(sizes := WithWidth(v.sizes, c, width)), inner)) <==> CarefulSize(v, c, width)
  {
    hide Resized;
    if c >= |v.sizes| {
      assert WithWidth(v.sizes, c, width)[..|v.sizes|] == v.sizes;
    }
    SizeAccurate(v, WithWidth(v.sizes, c, width), c, width, inner);
  }

  lemma CountAccurate(v: View, n: nat, default: int, inner: int)
    requires Accurate(v) && inner > 0 && default >= 0
    ensures Accurate(Resized(v.(sizes := WithCount(v.sizes, n, default), count := n), inner))
  {
    hide Resized;
    var u := v.(sizes := WithCount(v.sizes, n, default), count := n);
    if v.first <= n {
      SumPrefix(v.sizes, u.sizes, v.first);
    }
    ScrollPosIsRight(u, n);
    ResizedIsAccurate(u, inner);
  }

  /** The scrollbar ends before the table does, so that no row brought to the top is out of sight. */
  lemma PositionedIsAccurate(v: View, row: int)
    requires Accurate(v)
    ensures Accurate(Positioned(v, row))
  {
    hide Scrolled, ScrollPos;
    ScrolledIsAccurate(v.(scroll := Min(ScrollPos(v, Among(v, row)), v.most)));
  }

  /** The remembered positions and the total sizes stay right exactly through careful operations. */
  lemma StepAccurate(g: Grid, op: Op)
    requires GridAccurate(g) && Sensible(op)
    ensures GridAccurate(Step(g, op)) <==> Careful(g, op)
  {
    hide Resized, Scrolled, Positioned, Accurate, InView;
    match op
    case SetHeight(r, height, tih, tiw) =>
      if Changes(g.rows.sizes, r, height) {
        HeightAccurate(g.rows, r, height, tih);
        OtherAxis(g.cols, tiw);
      }
    case SetWidth(c, width, tih, tiw) =>
      if Changes(g.cols.sizes, c, width) {
        WidthAccurate(g.cols, c, width, tiw);
        OtherAxis(g.rows, tih);
      }
    case SetRows(n, tih, tiw) =>
      CountAccurate(g.rows, n, ROW_HEIGHT, tih);
      OtherAxis(g.cols, tiw);
    case SetCols(n, tih, tiw) =>
      CountAccurate(g.cols, n, COLUMN_WIDTH, tiw);
      OtherAxis(g.rows, tih);
    case Resize(tih, tiw) =>
      OtherAxis(g.rows, tih);
      OtherAxis(g.cols, tiw);
    case ScrollDown(y, tih, tiw) =>
      ScrollAccurate(g.rows, y, tih);
      OtherAxis(g.cols, tiw);
    case ScrollAcross(x, tih, tiw) =>
      ScrollAccurate(g.cols, x, tiw);
      OtherAxis(g.rows, tih);
    case RowPosition(r) =>
      PositionedIsAccurate(g.rows, r);
      OtherAxis(g.cols, 1);
    case ColPosition(c) =>
      PositionedIsAccurate(g.cols, c);
      OtherAxis(g.rows, 1);
  }

  lemma ScrollAccurate(v: View, y: int, inner: int)
    requires Accurate(v) && inner > 0
    ensures Accurate(Scrolled(v.(scroll := y, inner := inner))) <==> InView(v.(scroll := y))
  {
    hide Scrolled;
    ScrolledIsAccurate(v.(scroll := y, inner := inner));
  }

  /** How far the total height is off after a height above the first row changed: by the change. */
  lemma TotalDrifts(g: Grid, r: int, height: int, tih: int, tiw: int)
    requires Accurate(g.rows) && 0 <= r < |g.rows.sizes| && r < g.rows.first && height >= 0
    ensures var v, w := g.rows, Step(g, SetHeight(r, height, tih, tiw)).rows;
            w.total == Sum(w.sizes, w.count) + if v.sizes[r] == height then 0 else v.sizes[r] - height
  {
    var v := g.rows;
    SumUpdate(v.sizes, r, height, v.first);
    SumUpdate(v.sizes, r, height, v.count);
    SumGrows(v.sizes, v.first, v.first);
  }

  predicate AllCareful(g: Grid, ops: seq<Op>)
    decreases |ops|
  {
    ops != [] ==> Sensible(ops[0]) && Careful(g, ops[0]) && AllCareful(Step(g, ops[0]), ops[1..])
  }

  function Run(g: Grid, ops: seq<Op>): Grid
    decreases |ops|
  {
    if ops == [] then g else Run(Step(g, ops[0]), ops[1..])
  }

  lemma {:induction false} RunsStayAccurate(g: Grid, ops: seq<Op>)
    requires GridAccurate(g) && AllCareful(g, ops)
    ensures GridAccurate(Run(g, ops))
    decreases |ops|
  {
    if ops != [] {
      StepAccurate(g, ops[0]);
      RunsStayAccurate(Step(g, ops[0]), ops[1..]);
    }
  }

  /** A row with a height comes to the top exactly when there is enough below it to fill the window. */
  lemma PositionedRow(v: View, row: int)
    requires Accurate(v) && v.most > 0 && Moves(v, row)
    requires 0 <= row < v.count && v.sizes[row] > 0
    ensures Positioned(v, row).first == row <==> Sum(v.sizes, row) <= v.most
  {
    ScrollPosIsRight(v, row);
    var y := Min(Sum(v.sizes, row), v.most);
    var f := FirstPast(v.sizes, 0, v.count, y);
    assert Sum(v.sizes, row + 1) == Sum(v.sizes, row) + v.sizes[row];
    if f < row {
      SumGrows(v.sizes, f + 1, row);
    }
    if Sum(v.sizes, row) > v.most {
      assert f >= row ==> row > 0 && Sum(v.sizes, row) <= y;
    }
  }

  // ----- the vectors of heights and widths

  /** Appends `value` up to but not at place n. */
  method Grow(v: Vector<int>, nowSize: nat, n: nat, value: int)
    requires v.Valid() && nowSize <= n <= v.len
    modifies v.arr
    ensures v.Contents() == old(v.Contents())[..nowSize] + Repeat(n - nowSize, value) + old(v.Contents())[n..]
  {
    ghost var was := v.Contents();
    var i := nowSize;
    while i < n
      invariant nowSize <= i <= n
      invariant v.Contents() == was[..nowSize] + Repeat(i - nowSize, value) + was[i..]
    {
      v.Put(i, value);
      i := i + 1;
    }
  }

  // ----- the widget

  /** The numbers the table keeps for its rows, or for its columns. */
  class Axis {
    var count: nat
    const sizes: Vector<int>
    var first: int
    var last: int
    var position: int
    var firstScrollpos: int
    var total: int
    var scroll: int
    var maximum: int
    var inner: int

    ghost predicate Valid()
      reads this, sizes
    {
      sizes.Valid()
    }

    ghost function Value(): View
      requires Valid()
      reads this, sizes, sizes.arr
    {
      View(sizes.Contents(), count, first, last, firstScrollpos, total, scroll, maximum, inner, position)
    }

    constructor ()
      ensures Valid() && fresh(sizes) && fresh(sizes.arr)
      ensures Value() == View([], 0, 0, 0, -1, 0, 0, 0, 0, 0)
    {
      count, first, last, position := 0, 0, 0, 0;
      firstScrollpos := -1;
      total, scroll, maximum, inner := 0, 0, 0, 0;
      sizes := new Vector<int>();
    }

    function Size(row: int): (size: int)
      requires Valid()
      reads this, sizes, sizes.arr
      ensures size == SizeAt(Value().sizes, row)
    {
      if row < 0 || row >= sizes.len then 0 else sizes.At(row)
    }

    method ScrollPosition(row: int) returns (y: int)
      requires Valid()
      ensures y == ScrollPos(Value(), row)
    {
      var startrow := 0;
      y := 0;
      if firstScrollpos != -1 && row >= first {
        y := firstScrollpos;
        startrow := first;
      }
      ghost var h, from := sizes.Contents(), y;
      var t := startrow;
      while t < row
        invariant startrow <= t && (t <= row || t == startrow)
        invariant y == from + Sum(h, t) - Sum(h, startrow)
      {
        y := y + Size(t);
        t := t + 1;
      }
    }

    /** The first row that ends past the offset (or the number of rows), and where it starts. */
    method FindFirst(voff: int) returns (row: nat, y: int)
      requires Valid()
      ensures row == FirstPast(sizes.Contents(), 0, count, voff) && y == Sum(sizes.Contents(), row)
    {
      hide FirstPast, Sum;
      ghost var h := sizes.Contents();
      SumNext(h, 0);
      row, y := 0, 0;
      while row < count
        invariant 0 <= row <= count && y == Sum(h, row)
        invariant FirstPast(h, 0, count, voff) == FirstPast(h, row, count, voff)
      {
        FirstNext(h, row, count, voff);
        SumNext(h, row);
        y := y + Size(row);
        if y > voff {
          y := y - Size(row);
          break;
        }
        row := row + 1;
      }
      FirstNext(h, row, count, voff);
    }

    method FindLast(from: nat, start: int, voff: int) returns (row: nat)
      requires Valid() && from <= count && start == Sum(sizes.Contents(), from)
      ensures row == FirstPast(sizes.Contents(), from, count, voff - 1)
    {
      hide FirstPast, Sum;
      ghost var h := sizes.Contents();
      row := from;
      var y := start;
      while row < count
        invariant from <= row <= count && y == Sum(h, row)
        invariant FirstPast(h, from, count, voff - 1) == FirstPast(h, row, count, voff - 1)
      {
        FirstNext(h, row, count, voff - 1);
        SumNext(h, row);
        y := y + Size(row);
        if y >= voff {
          break;
        }
        row := row + 1;
      }
      FirstNext(h, row, count, voff - 1);
    }

    /** Finds the first and last row for the scroll offset. */
    method Rescan()
      requires Valid()
      modifies `first, `last, `position, `firstScrollpos
      ensures Valid() && Value() == Scrolled(old(Value()))
    {
      hide Sum, FirstPast;
      var row, y := FindFirst(scroll);
      first := if row >= count then row - 1 else row;
      position := first;
      firstScrollpos := y;
      row := FindLast(row, y, scroll + inner);
      last := if row >= count then row - 1 else row;
    }

    /** `newInner` is the visible size that recalculating the dimensions gives. */
    method Rebound(newInner: int)
      requires Valid()
      modifies `total, `scroll, `maximum, `inner
      ensures Valid() && Value() == Rebounded(old(Value()), newInner)
    {
      hide ScrollPos;
      total := ScrollPosition(count);
      inner := newInner;
      maximum := total - inner;
      scroll := Clamp(0, maximum, scroll);
    }

    /** Enlarges or shrinks the vector; new rows are filled. */
    method SetCount(val: nat, default: int)
      requires Valid()
      modifies `count, sizes, sizes.arr
      ensures Valid() && (sizes.arr == old(sizes.arr) || fresh(sizes.arr))
      ensures Value() == old(Value()).(sizes := WithCount(old(Value()).sizes, val, default), count := val)
    {
      ghost var was := sizes.Contents();
      count := val;
      var fill := if sizes.len > 0 then sizes.Back() else default;
      var nowSize := sizes.len;
      sizes.Resize(val);
      if nowSize < val {
        Grow(sizes, nowSize, val, fill);
      }
      assert sizes.Contents() == WithCount(was, val, default);
    }
  }

  class Table {
    const rows: Axis
    const cols: Axis

    ghost predicate Valid()
      reads this, rows, cols, rows.sizes, cols.sizes
    {
      && rows != cols && rows.sizes != cols.sizes && rows.sizes.arr != cols.sizes.arr
      && rows.Valid() && cols.Valid()
    }

    ghost function Value(): Grid
      requires Valid()
      reads this, rows, cols, rows.sizes, cols.sizes, rows.sizes.arr, cols.sizes.arr
    {
      Grid(rows.Value(), cols.Value())
    }

    constructor (tih: int, tiw: int)
      ensures Valid() && fresh(rows) && fresh(cols)
      ensures tih > 0 && tiw > 0 ==> GridAccurate(Value())
    {
      rows := new Axis();
      cols := new Axis();
      new;
      ghost var v := rows.Value();
      TableResized(tih, tiw);
      if tih > 0 && tiw > 0 {
        ScrollPosIsRight(v, 0);
        ResizedIsAccurate(v, tih);
        ResizedIsAccurate(v, tiw);
      }
    }

    method TableScrolled()
      requires Valid()
      modifies rows`first, rows`last, rows`position, rows`firstScrollpos
      modifies cols`first, cols`last, cols`position, cols`firstScrollpos
      ensures Valid() && Value() == Grid(Scrolled(old(Value()).rows), Scrolled(old(Value()).cols))
    {
      hide Scrolled;
      rows.Rescan();
      cols.Rescan();
    }

    method TableResized(tih: int, tiw: int)
      requires Valid()
      modifies rows`total, rows`scroll, rows`maximum, rows`inner
      modifies cols`total, cols`scroll, cols`maximum, cols`inner
      modifies rows`first, rows`last, rows`position, rows`firstScrollpos
      modifies cols`first, cols`last, cols`position, cols`firstScrollpos
      ensures Valid() && Value() == Step(old(Value()), Resize(tih, tiw))
    {
      hide Scrolled, Rebounded;
      rows.Rebound(tih);
      cols.Rebound(tiw);
      TableScrolled();
    }

    method SetRowHeight(row: int, height: int, tih: int, tiw: int)
      requires Valid()
      modifies rows, cols, rows.sizes, rows.sizes.arr
      ensures Valid() && Value() == Step(old(Value()), SetHeight(row, height, tih, tiw))
    {
      hide Resized;
      if row < 0 {
        return;
      }
      if row < rows.sizes.len && rows.sizes.At(row) == height {
        return;
      }
      ghost var was := rows.sizes.Contents();
      var nowSize := rows.sizes.len;
      if row >= nowSize {
        rows.sizes.Resize(row);
        Grow(rows.sizes, nowSize, row, height);
      }
      if row < rows.sizes.len {
        rows.sizes.Put(row, height);
      }
      assert rows.sizes.Contents() == WithHeight(was, row, height);
      TableResized(tih, tiw);
    }

    method SetColWidth(col: int, width: int, tih: int, tiw: int)
      requires Valid()
      modifies rows, cols, cols.sizes, cols.sizes.arr
      ensures Valid() && Value() == Step(old(Value()), SetWidth(col, width, tih, tiw))
    {
      hide Resized;
      if col < 0 {
        return;
      }
      if col < cols.sizes.len && cols.sizes.At(col) == width {
        return;
      }
      ghost var was := cols.sizes.Contents();
      var nowSize := cols.sizes.len;
      if col >= nowSize {
        cols.sizes.Resize(col + 1);
        Grow(cols.sizes, nowSize, col, width);
      }
      cols.sizes.Put(col, width);
      assert cols.sizes.Contents() == WithWidth(was, col, width);
      TableResized(tih, tiw);
    }

    method SetRows(val: nat, tih: int, tiw: int)
      requires Valid()
      modifies rows, cols, rows.sizes, rows.sizes.arr
      ensures Valid() && Value() == Step(old(Value()), Op.SetRows(val, tih, tiw))
    {
      hide Resized, WithCount;
      rows.SetCount(val, ROW_HEIGHT);
      TableResized(tih, tiw);
    }

    method SetCols(val: nat, tih: int, tiw: int)
      requires Valid()
      modifies rows, cols, cols.sizes, cols.sizes.arr
      ensures Valid() && Value() == Step(old(Value()), Op.SetCols(val, tih, tiw))
    {
      hide Resized, WithCount;
      cols.SetCount(val, COLUMN_WIDTH);
      TableResized(tih, tiw);
    }

    /** The vertical scrollbar was moved to y. */
    method ScrollDownTo(y: int, tih: int, tiw: int)
      requires Valid()
      modifies rows, cols
      ensures Valid() && Value() == Step(old(Value()), ScrollDown(y, tih, tiw))
    {
      hide Scrolled;
      rows.scroll, rows.inner, cols.inner := y, tih, tiw;
      TableScrolled();
    }

    /** The horizontal scrollbar was moved to x. */
    method ScrollAcrossTo(x: int, tih: int, tiw: int)
      requires Valid()
      modifies rows, cols
      ensures Valid() && Value() == Step(old(Value()), ScrollAcross(x, tih, tiw))
    {
      hide Scrolled;
      cols.scroll, rows.inner, cols.inner := x, tih, tiw;
      TableScrolled();
    }

    method SetRowPosition(row: int)
      requires Valid()
      modifies rows, cols
      ensures Valid() && Value() == Step(old(Value()), RowPosition(row))
    {
      hide Scrolled, ScrollPos;
      var row := row;
      if rows.position == row {
        return;
      }
      if row < 0 {
        row := 0;
      } else if row >= rows.count {
        row := rows.count - 1;
      }
      if rows.total <= rows.inner {
        return;
      }
      var newtop := rows.ScrollPosition(row);
      if newtop > rows.maximum {
        newtop := rows.maximum;
      }
      rows.scroll := newtop;
      TableScrolled();
      rows.position := row;
    }

    method SetColPosition(col: int)
      requires Valid()
      modifies rows, cols
      ensures Valid() && Value() == Step(old(Value()), ColPosition(col))
    {
      hide Scrolled, ScrollPos;
      var col := col;
      if cols.position == col {
        return;
      }
      if col < 0 {
        col := 0;
      } else if col >= cols.count {
        col := cols.count - 1;
      }
      if cols.total <= cols.inner {
        return;
      }
      var newleft := cols.ScrollPosition(col);
      if newleft > cols.maximum {
        newleft := cols.maximum;
      }
      cols.scroll := newleft;
      TableScrolled();
      cols.position := col;
    }
  }

  // ----- what to redraw

  datatype Rect = Rect(top: int, bot: int, left: int, right: int)

  /** -1 for the top row says that nothing is to be redrawn yet. */
  const NOTHING := Rect(-1, -1, -1, -1)

  function Extended(r: Rect, q: Rect): Rect
  {
    if r.top == -1 then q
    else Rect(Min(q.top, r.top), Max(q.bot, r.bot), Min(q.left, r.left), Max(q.right, r.right))
  }

  function Redrawn(qs: seq<Rect>): Rect
  {
    if qs == [] then NOTHING else Extended(Redrawn(qs[..|qs| - 1]), qs[|qs| - 1])
  }

  predicate Inside(q: Rect, r: Rect)
  {
    r.top <= q.top && q.bot <= r.bot && r.left <= q.left && q.right <= r.right
  }

  ghost predicate AllInside(qs: seq<Rect>, r: Rect)
  {
    forall q :: q in qs ==> Inside(q, r)
  }

  /** What is redrawn is the least rectangle that has everything asked for. */
  lemma {:induction false} RedrawnIsLeast(qs: seq<Rect>, r: Rect)
    requires qs != [] && forall q :: q in qs ==> q.top >= 0
    ensures Redrawn(qs).top >= 0
    ensures Inside(Redrawn(qs), r) <==> AllInside(qs, r)
  {
    var front, q := qs[..|qs| - 1], qs[|qs| - 1];
    assert qs == front + [q];
    assert q in qs && forall p :: p in front ==> p in qs;
    if front != [] {
      RedrawnIsLeast(front, r);
      assert AllInside(qs, r) <==> AllInside(front, r) && Inside(q, r);
    } else {
      assert AllInside(qs, r) <==> Inside(q, r);
    }
  }

  /** So neither order nor repetition of the requests matters. */
  lemma RedrawnIgnoresOrder(a: seq<Rect>, b: seq<Rect>)
    requires a != [] && (forall q :: q in a ==> q.top >= 0) && forall q :: q in a <==> q in b
    ensures Redrawn(a) == Redrawn(b)
  {
    assert a[0] in b;
    var r, s := Redrawn(a), Redrawn(b);
    RedrawnIsLeast(a, r);
    RedrawnIsLeast(b, r);
    RedrawnIsLeast(a, s);
    RedrawnIsLeast(b, s);
  }

  /** A request whose top row is -1 is forgotten by the next one. */
  lemma MinusOneIsForgotten(q: Rect, p: Rect)
    ensures Redrawn([q, p]) == p <==> q.top == -1 || Inside(q, p)
  {
    assert [q, p][..1] == [q] && [q][..0] == [];
    assert Redrawn([q]) == q;
  }

  /** The least and greatest of three. */
  function Least(a: int, b: int, c: int): int
  {
    Min(a, Min(b, c))
  }

  function Greatest(a: int, b: int, c: int): int
  {
    Max(a, Max(b, c))
  }

  /** What is asked to be redrawn for three cells: the visible part of the rectangle around them. */
  function Zone(view: Rect, r1: int, c1: int, r2: int, c2: int, r3: int, c3: int): Rect
  {
    Rect(Max(Max(0, Least(r1, r2, r3)), view.top), Min(Greatest(r1, r2, r3), view.bot),
         Max(Max(0, Least(c1, c2, c3)), view.left), Min(Greatest(c1, c2, c3), view.right))
  }

  /** A cell is in the zone exactly when it is visible and lies in the rectangle around the three,
      and no zone is ever mistaken for "nothing yet". */
  lemma ZoneCells(view: Rect, r1: int, c1: int, r2: int, c2: int, r3: int, c3: int, r: nat, c: nat)
    ensures Inside(Rect(r, r, c, c), Zone(view, r1, c1, r2, c2, r3, c3)) <==>
            && Inside(Rect(r, r, c, c), view)
            && Least(r1, r2, r3) <= r <= Greatest(r1, r2, r3) && Least(c1, c2, c3) <= c <= Greatest(c1, c2, c3)
    ensures Zone(view, r1, c1, r2, c2, r3, c3).top >= 0
  {
    hide Least, Greatest;
  }

  method Span(a: int, b: int, c: int) returns (lo: int, hi: int)
    ensures lo == Least(a, b, c) && hi == Greatest(a, b, c) && lo <= hi
  {
    lo, hi := a, b;
    if a > hi {
      hi := a;
    }
    if b < lo {
      lo := b;
    }
    if c > hi {
      hi := c;
    }
    if c < lo {
      lo := c;
    }
  }

  class Damage {
    var area: Rect

    constructor ()
      ensures area == NOTHING
    {
      area := NOTHING;
    }

    method RedrawRange(topRow: int, botRow: int, leftCol: int, rightCol: int)
      modifies this
      ensures area == Extended(old(area), Rect(topRow, botRow, leftCol, rightCol))
    {
      if area.top == -1 {
        area := Rect(topRow, botRow, leftCol, rightCol);
      } else {
        if topRow < area.top {
          area := area.(top := topRow);
        }
        if botRow > area.bot {
          area := area.(bot := botRow);
        }
        if leftCol < area.left {
          area := area.(left := leftCol);
        }
        if rightCol > area.right {
          area := area.(right := rightCol);
        }
      }
    }

    /** A zone left of or above all cells asks for nothing. */
    method DamageZone(view: Rect, r1: int, c1: int, r2: int, c2: int, r3: int, c3: int)
      modifies this
      ensures area == if Greatest(r1, r2, r3) < 0 || Greatest(c1, c2, c3) < 0 then old(area)
                      else Extended(old(area), Zone(view, r1, c1, r2, c2, r3, c3))
    {
      hide Least, Greatest, Extended;
      var R1, R2 := Span(r1, r2, r3);
      var C1, C2 := Span(c1, c2, c3);
      if R1 < 0 {
        if R2 < 0 {
          return;
        }
        R1 := 0;
      }
      if C1 < 0 {
        if C2 < 0 {
          return;
        }
        C1 := 0;
      }
      if R1 < view.top {
        R1 := view.top;
      }
      if R2 > view.bot {
        R2 := view.bot;
      }
      if C1 < view.left {
        C1 := view.left;
      }
      if C2 > view.right {
        C2 := view.right;
      }
      RedrawRange(R1, R2, C1, C2);
    }
  }
}
