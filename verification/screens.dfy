/** The whole terminal (`screen.py`): one column per terminal column, advanced
    together once per frame and painted cell by cell.

    The terminal size is a constructor parameter. Everything the program
    writes to standard output is returned as the sequence of strings it
    writes, in order; flushing writes nothing and is not modelled.
 */
module Screens {
  import opened Results
  import opened Terminal
  import Columns

  /** `Screen`: the terminal size read at construction and its columns, indexed by position. */
  datatype Screen = Screen(rowNum: int, colNum: int, columns: seq<Columns.Column>)

  /** The three `randint` results `Column.__init__` combines into its first delay. */
  datatype DelayDraw = DelayDraw(rows: int, tens: int, jitter: int)

  /** The screens the constructor and the frame operations produce. */
  predicate ValidScreen(s: Screen) {
    && s.rowNum >= Columns.ColorsNum
    && s.colNum == |s.columns|
    && forall i :: 0 <= i < |s.columns| ==>
         s.columns[i].index == i && s.columns[i].rowNum == s.rowNum && Columns.Valid(s.columns[i])
  }

  function BuildColumns(rowNum: int, delays: seq<DelayDraw>): (cols: seq<Columns.Column>)
    requires forall i :: 0 <= i < |delays| ==>
               0 <= delays[i].rows <= rowNum && 0 <= delays[i].tens <= 10 && 0 <= delays[i].jitter <= 100
    ensures |cols| == |delays|
    ensures forall i :: 0 <= i < |delays| ==>
              cols[i] == Columns.Init(rowNum, i, delays[i].rows, delays[i].tens, delays[i].jitter)
    decreases |delays|
  {
    if |delays| == 0 then []
    else
      var d := delays[|delays| - 1];
      BuildColumns(rowNum, delays[..|delays| - 1]) + [Columns.Init(rowNum, |delays| - 1, d.rows, d.tens, d.jitter)]
  }

  /** `Screen.__init__` (`screen.py:17-26`): one idle column per terminal column,
      the column at position `i` with index `i` and the screen's row count. */
  function Init(rowNum: int, colNum: int, delays: seq<DelayDraw>): (s: Screen)
    requires |delays| == (if colNum > 0 then colNum else 0)
    requires forall i :: 0 <= i < |delays| ==>
               0 <= delays[i].rows <= rowNum && 0 <= delays[i].tens <= 10 && 0 <= delays[i].jitter <= 100
    ensures s.rowNum == rowNum && s.colNum == colNum
    ensures |s.columns| == (if colNum > 0 then colNum else 0)
    ensures forall i :: 0 <= i < |s.columns| ==>
              && s.columns[i].index == i
              && s.columns[i].rowNum == rowNum
              && !s.columns[i].started
              && s.columns[i].col == []
              && 0 <= s.columns[i].runDelay <= rowNum * 10 + 100
    ensures rowNum >= Columns.ColorsNum && colNum >= 0 ==> ValidScreen(s)
  {
    Screen(rowNum, colNum, BuildColumns(rowNum, delays))
  }

  /** `move` (`screen.py:55-69`): the cursor-position sequence, or an `IndexError` when the
      row is past the row count or the column past the column count. Both counts
      themselves are accepted, and nothing bounds the position from below. */
  function Move(s: Screen, row: int, col: int): (r: Result<string>)
    ensures r.Fail? <==> row > s.rowNum || col > s.colNum
    ensures r.Fail? ==> r.error == OutsideTerminal(row, col)
    ensures r.Ok? && row >= 0 && col >= 0 ==> CursorTarget(r.value) == Some((row, col))
    ensures r.Ok? ==> (CursorTarget(r.value).Some? <==> row >= -1 && col >= -1)
  {
    if row > s.rowNum || col > s.colNum then Fail(OutsideTerminal(row, col))
    else Ok(CursorTo(row, col))
  }

  /** `n` rows of the loop in `stdout_write_column` (`screen.py:75-77`) when nothing fails:
      for each row `k`, a cursor move to row `top + k` of column `index`, then coloured
      cell `k`. */
  function RowPaint(top: int, index: int, cells: seq<string>, n: nat): (r: seq<string>)
    requires n <= |cells|
    ensures |r| == 2 * n
  {
    seq(2 * n, w requires 0 <= w < 2 * n => if w % 2 == 0 then CursorTo(top + w / 2, index) else cells[w / 2])
  }

  /** Row `row`, the `k`-th one painted, is a cursor move to it followed by cell `k`. */
  lemma RowPaintRow(top: int, index: int, cells: seq<string>, n: nat, k: int, row: int)
    requires n <= |cells| && 0 <= k < n && row == top + k
    ensures RowPaint(top, index, cells, n)[2 * k] == CursorTo(row, index)
    ensures RowPaint(top, index, cells, n)[2 * k + 1] == cells[k]
  {
    assert (2 * k) % 2 == 0 && (2 * k) / 2 == k;
    assert (2 * k + 1) % 2 == 1 && (2 * k + 1) / 2 == k;
  }

  /** Painting one more row appends its cursor move `m` and its cell. */
  lemma RowPaintStep(top: int, index: int, cells: seq<string>, n: nat, m: string)
    requires 0 < n <= |cells| && m == CursorTo(top + (n - 1), index)
    ensures RowPaint(top, index, cells, n) == RowPaint(top, index, cells, n - 1) + [m, cells[n - 1]]
  {
    var prefix := RowPaint(top, index, cells, n - 1);
    RowPaintPrefix(top, index, cells, n);
    RowPaintRow(top, index, cells, n, n - 1, top + (n - 1));
    assert RowPaint(top, index, cells, n) == prefix + [m, cells[n - 1]];
  }

  lemma RowPaintPrefix(top: int, index: int, cells: seq<string>, n: nat)
    requires 0 < n <= |cells|
    ensures RowPaint(top, index, cells, n)[..2 * (n - 1)] == RowPaint(top, index, cells, n - 1)
  {
  }

  /** The writes of the loop in `stdout_write_column` (`screen.py:75-77`) for its first `n`
      rows. It stops at the first row `move` refuses or whose coloured cell is missing. */
  function WriteRows(s: Screen, top: int, index: int, cells: seq<string>, n: nat): (r: Result<seq<string>>)
    ensures r.Ok? <==> n == 0 || (top + n - 1 <= s.rowNum && index <= s.colNum && n <= |cells|)
    ensures r.Ok? ==> n <= |cells| && r.value == RowPaint(top, index, cells, n)
    decreases n
  {
    if n == 0 then Ok([])
    else
      match WriteRows(s, top, index, cells, n - 1)
      case Fail(e) => Fail(e)
      case Ok(prefix) =>
        match Move(s, top + (n - 1), index)
        case Fail(e) => Fail(e)
        case Ok(m) =>
          if n - 1 < |cells| then
            RowPaintStep(top, index, cells, n, m);
            Ok(prefix + [m, cells[n - 1]])
          else Fail(MissingColoredCell(n - 1))
  }

  /** The number of rows `stdout_write_column` writes: `range(0, line_end - line_start)`. */
  function Rows(c: Columns.Column): nat {
    if c.lineEnd - c.lineStart > 0 then c.lineEnd - c.lineStart else 0
  }

  /** Every cursor move in `writes` lands on a visible cell of column `c`. */
  predicate PaintsColumn(writes: seq<string>, c: Columns.Column) {
    forall w :: 0 <= w < |writes| && CursorTarget(writes[w]).Some? ==>
      && CursorTarget(writes[w]).value.1 == c.index
      && c.lineStart <= CursorTarget(writes[w]).value.0 < c.lineEnd
  }

  /** What `stdout_write_column` writes, and the column after its read of `colored`. */
  datatype Written = Written(writes: seq<string>, column: Columns.Column)

  /** `writes` paints the visible rows of column `c` top to bottom: at even positions
      the cursor moves one row down at a time from `line_start`, at odd positions a
      cell shows the buffer's character of that row; nothing is written outside
      `[line_start, line_end)` of this column. */
  predicate PaintedColumn(writes: seq<string>, c: Columns.Column) {
    && |writes| == 2 * Rows(c)
    && Rows(c) <= |c.col|
    && (forall w :: 0 <= w < |writes| && w % 2 == 0 ==>
          CursorTarget(writes[w]) == Some((c.lineStart + w / 2, c.index)))
    && (forall w :: 0 <= w < |writes| && w % 2 == 1 ==> Plain(writes[w]) == [c.col[w / 2]])
    && PaintsColumn(writes, c)
  }

  /** The painting of column `c` whose coloured cells are `cells`, row by row from
      `line_start`: a cursor move to the row, then the cell of that row. */
  function ColumnPaint(c: Columns.Column, cells: seq<string>): (r: seq<string>)
    requires Rows(c) <= |cells|
    ensures |r| == 2 * Rows(c)
  {
    RowPaint(c.lineStart, c.index, cells, Rows(c))
  }

  /** Row `row`, the `k`-th visible one, of a column's painting: a cursor move to it, then
      cell `k`. */
  lemma ColumnPaintRow(c: Columns.Column, cells: seq<string>, k: int, row: int, col: int)
    requires Rows(c) <= |cells| && 0 <= k < Rows(c) && row == c.lineStart + k && col == c.index
    ensures ColumnPaint(c, cells)[2 * k] == CursorTo(row, col)
    ensures ColumnPaint(c, cells)[2 * k + 1] == cells[k]
  {
    RowPaintRow(c.lineStart, c.index, cells, Rows(c), k, row);
  }

  /** Cells that are no cursor move keep a column's painting on its own visible cells. */
  lemma ColumnPaintMoves(c: Columns.Column, cells: seq<string>)
    requires Rows(c) <= |cells| && c.lineStart >= 0 && c.index >= 0
    requires forall k :: 0 <= k < |cells| ==> CursorTarget(cells[k]) == None
    ensures forall w :: 0 <= w < |ColumnPaint(c, cells)| && w % 2 == 0 ==>
              CursorTarget(ColumnPaint(c, cells)[w]) == Some((c.lineStart + w / 2, c.index))
    ensures PaintsColumn(ColumnPaint(c, cells), c)
  {
    var writes := ColumnPaint(c, cells);
    forall w | 0 <= w < |writes|
      ensures w % 2 == 0 ==> CursorTarget(writes[w]) == Some((c.lineStart + w / 2, c.index))
      ensures w % 2 == 1 ==> CursorTarget(writes[w]) == None
    {
      var k := w / 2;
      var row := c.lineStart + k;
      ColumnPaintRow(c, cells, k, row, c.index);
      assert w == 2 * k || w == 2 * k + 1;
    }
  }

  /** A column painted at a non-negative position moves the cursor down its visible rows,
      shows its buffer there, and touches no other cell. */
  lemma ColumnPaintPainted(c: Columns.Column)
    requires Columns.CountersInRange(c) && Rows(c) <= |c.col|
    requires c.lineStart >= 0 && c.index >= 0
    ensures PaintedColumn(ColumnPaint(c, Columns.Cells(c)), c)
  {
    var cells := Columns.Cells(c);
    var writes := ColumnPaint(c, cells);
    Columns.CellsShowBuffer(c);
    CellsMoveNothing(c);
    ColumnPaintMoves(c, cells);
    forall w | 0 <= w < |writes| && w % 2 == 1
      ensures Plain(writes[w]) == [c.col[w / 2]]
    {
      var k := w / 2;
      ColumnPaintRow(c, cells, k, c.lineStart + k, c.index);
      assert w == 2 * k + 1;
    }
  }

  /** No coloured cell is a cursor move. */
  lemma CellsMoveNothing(c: Columns.Column)
    requires Columns.CountersInRange(c)
    ensures forall k :: 0 <= k < |Columns.Cells(c)| ==> CursorTarget(Columns.Cells(c)[k]) == None
  {
    var cells := Columns.Cells(c);
    forall k | 0 <= k < |cells|
      ensures CursorTarget(cells[k]) == None
    {
      NotACursorMove(cells[k]);
    }
  }

  /** `stdout_write_column` (`screen.py:72-77`): read `colored` once, then for each visible
      row move the cursor there and write that row's coloured character. */
  function WriteColumn(s: Screen, c: Columns.Column): (r: Result<Written>)
    requires Columns.CountersInRange(c)
    ensures r.Ok? ==> r.value.column == Columns.WrapColor(c).column
    ensures r.Ok? ==> Rows(c) <= |c.col| && r.value.writes == ColumnPaint(c, Columns.WrapColor(c).cells)
    ensures r.Ok? ==> forall k :: 0 <= k < Rows(c) ==> r.value.writes[2 * k + 1] == Columns.WrapColor(c).cells[k]
    ensures r.Ok? && c.lineStart >= 0 && c.index >= 0 ==> PaintedColumn(r.value.writes, c)
    // in a valid column every row written is above the last row, so `move` never raises
    ensures Columns.Valid(c) && c.rowNum == s.rowNum && c.index <= s.colNum ==> r.Ok?
  {
    var colored := Columns.WrapColor(c);
    match WriteRows(s, c.lineStart, c.index, colored.cells, Rows(c))
    case Fail(e) => Fail(e)
    case Ok(writes) =>
      ColumnWrites(c);
      Ok(Written(writes, colored.column))
  }

  /** What the painting of a column says row by row: cell `k` is written second in row
      `k`, and at a non-negative position the column's own visible cells are painted. */
  lemma ColumnWrites(c: Columns.Column)
    requires Columns.CountersInRange(c) && Rows(c) <= |c.col|
    ensures forall k :: 0 <= k < Rows(c) ==>
              ColumnPaint(c, Columns.Cells(c))[2 * k + 1] == Columns.Cells(c)[k]
    ensures c.lineStart >= 0 && c.index >= 0 ==> PaintedColumn(ColumnPaint(c, Columns.Cells(c)), c)
  {
    var cells := Columns.Cells(c);
    forall k | 0 <= k < Rows(c)
      ensures ColumnPaint(c, cells)[2 * k + 1] == cells[k]
    {
      ColumnPaintRow(c, cells, k, c.lineStart + k, c.index);
    }
    if c.lineStart >= 0 && c.index >= 0 {
      ColumnPaintPainted(c);
    }
  }

  /** The number of cells `image_render` paints for the started columns among `cols`. */
  function Visible(cols: seq<Columns.Column>): nat {
    if |cols| == 0 then 0
    else Visible(cols[..|cols| - 1]) + (if cols[|cols| - 1].started then Rows(cols[|cols| - 1]) else 0)
  }

  /** Every cursor move in `writes` lands on a visible cell of a started column of `cols`,
      the column at position `i` being terminal column `i`. */
  predicate Paints(writes: seq<string>, cols: seq<Columns.Column>) {
    forall w :: 0 <= w < |writes| && CursorTarget(writes[w]).Some? ==>
      && 0 <= CursorTarget(writes[w]).value.1 < |cols|
      && cols[CursorTarget(writes[w]).value.1].started
      && cols[CursorTarget(writes[w]).value.1].lineStart <= CursorTarget(writes[w]).value.0
      && CursorTarget(writes[w]).value.0 < cols[CursorTarget(writes[w]).value.1].lineEnd
  }

  /** `paints[i]` holds two writes per visible row of each started column `i`. */
  predicate Paintable(cols: seq<Columns.Column>, paints: seq<seq<string>>) {
    && |paints| == |cols|
    && forall i :: 0 <= i < |cols| && cols[i].started ==> |paints[i]| == 2 * Rows(cols[i])
  }

  lemma PaintablePrefix(cols: seq<Columns.Column>, paints: seq<seq<string>>, n: int)
    requires Paintable(cols, paints) && 0 <= n <= |cols|
    ensures Paintable(cols[..n], paints[..n])
  {
    assert forall i :: 0 <= i < n ==> cols[..n][i] == cols[i] && paints[..n][i] == paints[i];
  }

  /** What the painting loop of `image_render` writes when started column `i` is painted
      by `paints[i]`: those paintings, in column order. */
  function FrameWrites(cols: seq<Columns.Column>, paints: seq<seq<string>>): (r: seq<string>)
    requires Paintable(cols, paints)
    ensures |r| == 2 * Visible(cols)
    decreases |cols|
  {
    if |cols| == 0 then []
    else
      var n := |cols| - 1;
      PaintablePrefix(cols, paints, n);
      FrameWrites(cols[..n], paints[..n]) + (if cols[n].started then paints[n] else [])
  }

  /** What `stdout_write_column` writes for each started column of `cols` that has a
      buffer character for every visible row: its painting with the cells `colored`
      returns (`Columns.Cells`, as `Columns.WrapColor` ensures). Nothing for the other
      columns. */
  function Paintings(cols: seq<Columns.Column>): (r: seq<seq<string>>)
    requires forall i :: 0 <= i < |cols| ==> Columns.CountersInRange(cols[i])
    ensures |r| == |cols|
  {
    seq(|cols|, i requires 0 <= i < |cols| =>
      if cols[i].started && Rows(cols[i]) <= |cols[i].col| then ColumnPaint(cols[i], Columns.Cells(cols[i])) else [])
  }

  lemma PaintingsAt(cols: seq<Columns.Column>, i: int)
    requires forall i :: 0 <= i < |cols| ==> Columns.CountersInRange(cols[i])
    requires 0 <= i < |cols|
    ensures Paintings(cols)[i]
            == if cols[i].started && Rows(cols[i]) <= |cols[i].col| then ColumnPaint(cols[i], Columns.Cells(cols[i])) else []
  {
  }

  /** With a buffer character for every visible row of each started column, every started
      column gets two writes per visible row. */
  lemma PaintingsPaintable(cols: seq<Columns.Column>)
    requires forall i :: 0 <= i < |cols| ==> Columns.CountersInRange(cols[i])
    requires forall i :: 0 <= i < |cols| && cols[i].started ==> Rows(cols[i]) <= |cols[i].col|
    ensures Paintable(cols, Paintings(cols))
  {
    forall i | 0 <= i < |cols| && cols[i].started
      ensures |Paintings(cols)[i]| == 2 * Rows(cols[i])
    {
      PaintingsAt(cols, i);
    }
  }

  /** At non-negative positions, each started column's painting moves down its visible
      rows, shows its buffer there and touches no other cell. */
  lemma PaintingsPaint(cols: seq<Columns.Column>)
    requires forall i :: 0 <= i < |cols| ==> Columns.CountersInRange(cols[i])
    requires forall i :: 0 <= i < |cols| ==> cols[i].lineStart >= 0 && cols[i].index >= 0
    requires forall i :: 0 <= i < |cols| && cols[i].started ==> Rows(cols[i]) <= |cols[i].col|
    ensures forall i :: 0 <= i < |cols| && cols[i].started ==> PaintedColumn(Paintings(cols)[i], cols[i])
  {
    forall i | 0 <= i < |cols| && cols[i].started
      ensures PaintedColumn(Paintings(cols)[i], cols[i])
    {
      PaintingsAt(cols, i);
      ColumnPaintPainted(cols[i]);
    }
  }

  /** The painting of started column `i` sits in the frame's writes right after those of
      the started columns before it. */
  lemma {:induction false} FrameWritesSegment(cols: seq<Columns.Column>, paints: seq<seq<string>>, i: int)
    requires Paintable(cols, paints) && 0 <= i < |cols| && cols[i].started
    ensures 2 * Visible(cols[..i]) + 2 * Rows(cols[i]) <= |FrameWrites(cols, paints)|
    ensures FrameWrites(cols, paints)[2 * Visible(cols[..i])..2 * Visible(cols[..i]) + 2 * Rows(cols[i])] == paints[i]
    decreases |cols|
  {
    var n := |cols| - 1;
    var init := cols[..n];
    PaintablePrefix(cols, paints, n);
    var before := FrameWrites(init, paints[..n]);
    var last := if cols[n].started then paints[n] else [];
    assert FrameWrites(cols, paints) == before + last;
    if i == n {
      assert cols[..i] == init;
      SliceOfConcat(before, last, |before|, |before| + |last|);
    } else {
      assert init[..i] == cols[..i] && init[i] == cols[i] && paints[..n][i] == paints[i];
      FrameWritesSegment(init, paints[..n], i);
      SliceOfConcat(before, last, 2 * Visible(cols[..i]), 2 * Visible(cols[..i]) + 2 * Rows(cols[i]));
    }
  }

  lemma SliceOfConcat(a: seq<string>, b: seq<string>, lo: int, hi: int)
    requires 0 <= lo <= hi <= |a| + |b|
    requires hi <= |a| || lo == |a|
    ensures hi <= |a| ==> (a + b)[lo..hi] == a[lo..hi]
    ensures lo == |a| && hi == |a| + |b| ==> (a + b)[lo..hi] == b
  {
  }

  /** When each started column's painting moves the cursor only onto its own visible cells,
      the column at position `i` being terminal column `i`, the frame moves the cursor only
      onto visible cells of started columns. */
  lemma {:induction false} FrameWritesPaints(cols: seq<Columns.Column>, paints: seq<seq<string>>)
    requires Paintable(cols, paints)
    requires forall i :: 0 <= i < |cols| ==> cols[i].index == i
    requires forall i :: 0 <= i < |cols| && cols[i].started ==> PaintsColumn(paints[i], cols[i])
    ensures Paints(FrameWrites(cols, paints), cols)
    decreases |cols|
  {
    if |cols| > 0 {
      var n := |cols| - 1;
      var init := cols[..n];
      assert forall j :: 0 <= j < n ==> init[j] == cols[j] && paints[..n][j] == paints[j];
      PaintablePrefix(cols, paints, n);
      FrameWritesPaints(init, paints[..n]);
      if cols[n].started {
        PaintsExtend(FrameWrites(init, paints[..n]), paints[n], cols);
      } else {
        PaintsWiden(FrameWrites(init, paints[..n]), cols);
      }
    }
  }

  /** Columns as the frame has coloured them, and everything it wrote. */
  datatype Frame = Frame(columns: seq<Columns.Column>, writes: seq<string>)

  /** `frame` is what painting `cols` in order produces: each started column has had
      `colored` read once and idle ones are untouched, and the writes are the painting of
      every started column, in order. */
  predicate FrameOf(cols: seq<Columns.Column>, frame: Frame)
    requires forall i :: 0 <= i < |cols| ==> Columns.CountersInRange(cols[i])
  {
    && ColumnsRead(cols, frame.columns)
    && Paintable(cols, Paintings(cols))
    && frame.writes == FrameWrites(cols, Paintings(cols))
  }

  /** `read` is `cols` after the painting loop: started columns have had `colored` read
      once, and idle ones are untouched. */
  predicate ColumnsRead(cols: seq<Columns.Column>, read: seq<Columns.Column>)
    requires forall i :: 0 <= i < |cols| ==> Columns.CountersInRange(cols[i])
  {
    && |read| == |cols|
    && forall i :: 0 <= i < |cols| ==>
         read[i] == (if cols[i].started then Columns.WrapColor(cols[i]).column else cols[i])
  }

  /** The painting loop of `image_render` (`screen.py:98-100`): write every started column,
      in order; idle columns are left alone. */
  function RenderColumns(s: Screen, cols: seq<Columns.Column>): (r: Result<Frame>)
    requires forall i :: 0 <= i < |cols| ==> Columns.CountersInRange(cols[i])
    ensures r.Ok? ==> FrameOf(cols, r.value)
    ensures (forall i :: 0 <= i < |cols| ==>
               Columns.Valid(cols[i]) && cols[i].rowNum == s.rowNum && 0 <= cols[i].index <= s.colNum)
            ==> r.Ok?
    decreases |cols|
  {
    if |cols| == 0 then Ok(Frame([], []))
    else
      var n := |cols| - 1;
      match RenderColumns(s, cols[..n])
      case Fail(e) => Fail(e)
      case Ok(done) =>
        if !cols[n].started then
          RenderIdle(cols, done);
          Ok(Frame(done.columns + [cols[n]], done.writes))
        else
          match WriteColumn(s, cols[n])
          case Fail(e) => Fail(e)
          case Ok(written) =>
            RenderStarted(cols, done, written);
            Ok(Frame(done.columns + [written.column], done.writes + written.writes))
  }

  lemma RenderIdle(cols: seq<Columns.Column>, done: Frame)
    requires |cols| > 0 && forall i :: 0 <= i < |cols| ==> Columns.CountersInRange(cols[i])
    requires FrameOf(cols[..|cols| - 1], done) && !cols[|cols| - 1].started
    ensures FrameOf(cols, Frame(done.columns + [cols[|cols| - 1]], done.writes))
  {
    ColumnsReadLast(cols, done.columns, cols[|cols| - 1]);
    WritesLast(cols, done.writes, []);
  }

  lemma RenderStarted(cols: seq<Columns.Column>, done: Frame, written: Written)
    requires |cols| > 0 && forall i :: 0 <= i < |cols| ==> Columns.CountersInRange(cols[i])
    requires FrameOf(cols[..|cols| - 1], done) && cols[|cols| - 1].started
    requires written.column == Columns.WrapColor(cols[|cols| - 1]).column
    requires Rows(cols[|cols| - 1]) <= |cols[|cols| - 1].col|
    requires written.writes == ColumnPaint(cols[|cols| - 1], Columns.WrapColor(cols[|cols| - 1]).cells)
    ensures FrameOf(cols, Frame(done.columns + [written.column], done.writes + written.writes))
  {
    ColumnsReadLast(cols, done.columns, written.column);
    WritesLast(cols, done.writes, written.writes);
  }

  lemma ColumnsReadLast(cols: seq<Columns.Column>, read: seq<Columns.Column>, last: Columns.Column)
    requires |cols| > 0 && forall i :: 0 <= i < |cols| ==> Columns.CountersInRange(cols[i])
    requires ColumnsRead(cols[..|cols| - 1], read)
    requires last == if cols[|cols| - 1].started then Columns.WrapColor(cols[|cols| - 1]).column else cols[|cols| - 1]
    ensures ColumnsRead(cols, read + [last])
  {
    assert forall i :: 0 <= i < |cols| - 1 ==> cols[..|cols| - 1][i] == cols[i];
  }

  /** The frame's writes for all columns extend those for all but the last by the last
      column's painting, if it is started. */
  lemma WritesLast(cols: seq<Columns.Column>, before: seq<string>, last: seq<string>)
    requires |cols| > 0 && forall i :: 0 <= i < |cols| ==> Columns.CountersInRange(cols[i])
    requires Paintable(cols[..|cols| - 1], Paintings(cols[..|cols| - 1]))
    requires before == FrameWrites(cols[..|cols| - 1], Paintings(cols[..|cols| - 1]))
    requires cols[|cols| - 1].started ==> Rows(cols[|cols| - 1]) <= |cols[|cols| - 1].col|
    requires last == if cols[|cols| - 1].started then ColumnPaint(cols[|cols| - 1], Columns.Cells(cols[|cols| - 1])) else []
    ensures Paintable(cols, Paintings(cols))
    ensures before + last == FrameWrites(cols, Paintings(cols))
  {
    PaintingsLast(cols);
    PaintableLast(cols, Paintings(cols));
    FrameWritesLast(cols, Paintings(cols));
  }

  /** The paintings of all columns extend those of all but the last. */
  lemma PaintingsLast(cols: seq<Columns.Column>)
    requires |cols| > 0 && forall i :: 0 <= i < |cols| ==> Columns.CountersInRange(cols[i])
    ensures Paintings(cols)[..|cols| - 1] == Paintings(cols[..|cols| - 1])
    ensures Paintings(cols)[|cols| - 1]
            == if cols[|cols| - 1].started && Rows(cols[|cols| - 1]) <= |cols[|cols| - 1].col|
               then ColumnPaint(cols[|cols| - 1], Columns.Cells(cols[|cols| - 1])) else []
  {
  }

  lemma PaintableLast(cols: seq<Columns.Column>, paints: seq<seq<string>>)
    requires |cols| > 0 && |paints| == |cols|
    requires Paintable(cols[..|cols| - 1], paints[..|cols| - 1])
    requires cols[|cols| - 1].started ==> |paints[|cols| - 1]| == 2 * Rows(cols[|cols| - 1])
    ensures Paintable(cols, paints)
  {
    var n := |cols| - 1;
    forall i | 0 <= i < n && cols[i].started
      ensures |paints[i]| == 2 * Rows(cols[i])
    {
      assert cols[..n][i] == cols[i] && paints[..n][i] == paints[i];
    }
  }

  lemma FrameWritesLast(cols: seq<Columns.Column>, paints: seq<seq<string>>)
    requires |cols| > 0 && Paintable(cols, paints)
    ensures Paintable(cols[..|cols| - 1], paints[..|cols| - 1])
    ensures FrameWrites(cols, paints)
            == FrameWrites(cols[..|cols| - 1], paints[..|cols| - 1]) + (if cols[|cols| - 1].started then paints[|cols| - 1] else [])
  {
    PaintablePrefix(cols, paints, |cols| - 1);
  }

  /** Painting only cells of the first columns paints only cells of all of them. */
  lemma PaintsWiden(writes: seq<string>, cols: seq<Columns.Column>)
    requires |cols| > 0 && Paints(writes, cols[..|cols| - 1])
    ensures Paints(writes, cols)
  {
    var init := cols[..|cols| - 1];
    forall w | 0 <= w < |writes| && CursorTarget(writes[w]).Some?
      ensures 0 <= CursorTarget(writes[w]).value.1 < |cols|
      ensures cols[CursorTarget(writes[w]).value.1].started
      ensures cols[CursorTarget(writes[w]).value.1].lineStart <= CursorTarget(writes[w]).value.0
      ensures CursorTarget(writes[w]).value.0 < cols[CursorTarget(writes[w]).value.1].lineEnd
    {
      assert init[CursorTarget(writes[w]).value.1] == cols[CursorTarget(writes[w]).value.1];
    }
  }

  lemma PaintsExtend(before: seq<string>, last: seq<string>, cols: seq<Columns.Column>)
    requires |cols| > 0 && cols[|cols| - 1].index == |cols| - 1 && cols[|cols| - 1].started
    requires Paints(before, cols[..|cols| - 1])
    requires PaintsColumn(last, cols[|cols| - 1])
    ensures Paints(before + last, cols)
  {
    PaintsWiden(before, cols);
    var all := before + last;
    forall w | 0 <= w < |all| && CursorTarget(all[w]).Some?
      ensures 0 <= CursorTarget(all[w]).value.1 < |cols|
      ensures cols[CursorTarget(all[w]).value.1].started
      ensures cols[CursorTarget(all[w]).value.1].lineStart <= CursorTarget(all[w]).value.0
      ensures CursorTarget(all[w]).value.0 < cols[CursorTarget(all[w]).value.1].lineEnd
    {
      if w < |before| {
        assert all[w] == before[w];
      } else {
        assert all[w] == last[w - |before|];
      }
    }
  }

  function IterAll(cols: seq<Columns.Column>, draws: seq<Columns.Draw>): (r: seq<Columns.Column>)
    requires |draws| == |cols|
    requires forall i :: 0 <= i < |cols| ==>
               Columns.Valid(cols[i]) && Columns.ValidDraw(cols[i].rowNum, draws[i])
    ensures |r| == |cols|
    ensures forall i :: 0 <= i < |cols| ==> r[i] == Columns.Iter(cols[i], draws[i]).column
    decreases |cols|
  {
    if |cols| == 0 then []
    else
      var n := |cols| - 1;
      IterAll(cols[..n], draws[..n]) + [Columns.Iter(cols[n], draws[n]).column]
  }

  predicate ValidDraws(s: Screen, draws: seq<Columns.Draw>) {
    |draws| == |s.columns| && forall i :: 0 <= i < |draws| ==> Columns.ValidDraw(s.rowNum, draws[i])
  }

  /** `next_iteration` (`screen.py:87-92`): one `iter` call on every column, started or not. */
  function NextIteration(s: Screen, draws: seq<Columns.Draw>): (r: Screen)
    requires ValidScreen(s) && ValidDraws(s, draws)
    ensures ValidScreen(r) && Paintable(r.columns, Paintings(r.columns))
    ensures r.rowNum == s.rowNum && r.colNum == s.colNum && |r.columns| == |s.columns|
    ensures forall i :: 0 <= i < |s.columns| ==> r.columns[i] == Columns.Iter(s.columns[i], draws[i]).column
  {
    var r := s.(columns := IterAll(s.columns, draws));
    assert ValidScreen(r);
    PaintingsPaintable(r.columns);
    r
  }

  /** The screen a frame leaves and what the frame wrote. */
  datatype Rendered = Rendered(screen: Screen, writes: seq<string>)

  /** `image_render` (`screen.py:94-101`): clear the screen, advance every column one tick,
      then paint the columns that are started after that tick. */
  function ImageRender(s: Screen, draws: seq<Columns.Draw>): (r: Result<Rendered>)
    requires ValidScreen(s) && ValidDraws(s, draws)
    // no `move` of the frame raises, and the screen stays valid
    ensures r.Ok?
    ensures ValidScreen(r.value.screen)
    ensures r.value.screen.rowNum == s.rowNum && r.value.screen.colNum == s.colNum
    // every column is advanced once; those started afterwards have had `colored` read once
    ensures forall i :: 0 <= i < |s.columns| ==>
              r.value.screen.columns[i] == Painted(Columns.Iter(s.columns[i], draws[i]).column)
    // the screen is cleared first, then two writes per visible cell
    ensures |r.value.writes| == 1 + 2 * Visible(NextIteration(s, draws).columns)
    ensures r.value.writes[0] == ClearScreen
    // after the clear, the painting of every column started after the tick, in order
    ensures r.value.writes == [ClearScreen] + FrameWrites(NextIteration(s, draws).columns, Paintings(NextIteration(s, draws).columns))
    // only visible cells of started columns are painted, all inside the terminal
    ensures Paints(r.value.writes, r.value.screen.columns)
    ensures forall w :: 0 <= w < |r.value.writes| && CursorTarget(r.value.writes[w]).Some? ==>
              0 <= CursorTarget(r.value.writes[w]).value.0 < s.rowNum
              && 0 <= CursorTarget(r.value.writes[w]).value.1 < s.colNum
  {
    var advanced := NextIteration(s, draws);
    var frame := RenderColumns(advanced, advanced.columns);
    RenderedFrame(s, draws, advanced, frame.value);
    Ok(Rendered(advanced.(columns := frame.value.columns), [ClearScreen] + frame.value.writes))
  }

  /** Where the cursor move onto `row` of column `i` sits in a frame's writes: after two
      writes per visible cell of the started columns before it, and two per row above it. */
  function CellOffset(cols: seq<Columns.Column>, i: int, row: int): int
    requires 0 <= i < |cols|
  {
    2 * Visible(cols[..i]) + 2 * (row - cols[i].lineStart)
  }

  /** Row `row` of started column `i` in a frame's writes: that row of the column's
      painting. */
  lemma FrameShowsCell(cols: seq<Columns.Column>, paints: seq<seq<string>>, i: int, row: int)
    requires Paintable(cols, paints) && 0 <= i < |cols| && cols[i].started
    requires cols[i].lineStart <= row < cols[i].lineEnd
    ensures 0 <= CellOffset(cols, i, row) && CellOffset(cols, i, row) + 1 < |FrameWrites(cols, paints)|
    ensures FrameWrites(cols, paints)[CellOffset(cols, i, row)] == paints[i][2 * (row - cols[i].lineStart)]
    ensures FrameWrites(cols, paints)[CellOffset(cols, i, row) + 1] == paints[i][2 * (row - cols[i].lineStart) + 1]
  {
    var k := row - cols[i].lineStart;
    FrameWritesSegment(cols, paints, i);
    SegmentRow(FrameWrites(cols, paints), 2 * Visible(cols[..i]), 2 * Visible(cols[..i]) + 2 * Rows(cols[i]),
               paints[i], k, CellOffset(cols, i, row));
  }

  lemma SegmentRow(frame: seq<string>, base: int, hi: int, paint: seq<string>, k: int, j: int)
    requires 0 <= base <= hi <= |frame| && frame[base..hi] == paint
    requires 0 <= 2 * k && 2 * k + 1 < |paint| && j == base + 2 * k
    ensures 0 <= j && j + 1 < |frame| && frame[j] == paint[2 * k] && frame[j + 1] == paint[2 * k + 1]
  {
    assert frame[base..hi][2 * k] == frame[base + 2 * k];
    assert frame[base..hi][2 * k + 1] == frame[base + 2 * k + 1];
  }

  /** Every visible cell of every started column is painted in a frame such as the one
      `image_render` writes (the clear sequence, then `FrameWrites` of the ticked columns
      with their `Paintings`): the cursor is moved onto the cell, and the next write is the
      cell `colored` returns for that row, which shows the buffer's character there. The
      writes for column `i` follow those of the columns before it. */
  lemma EveryVisibleCellPainted(cols: seq<Columns.Column>, writes: seq<string>, i: int, row: int)
    requires forall j :: 0 <= j < |cols| ==> Columns.Valid(cols[j]) && Columns.CountersInRange(cols[j]) && cols[j].index == j
    requires Paintable(cols, Paintings(cols)) && writes == [ClearScreen] + FrameWrites(cols, Paintings(cols))
    requires 0 <= i < |cols| && cols[i].started && cols[i].lineStart <= row < cols[i].lineEnd
    ensures var w := 1 + CellOffset(cols, i, row);
            && 0 < w && w + 1 < |writes| && row - cols[i].lineStart < |cols[i].col|
            && CursorTarget(writes[w]) == Some((row, i))
            && writes[w + 1] == Columns.Cells(cols[i])[row - cols[i].lineStart]
            && Plain(writes[w + 1]) == [cols[i].col[row - cols[i].lineStart]]
  {
    ClearedFrameShowsCell(cols, Paintings(cols), writes, i, row);
    PaintingsCell(cols, i, row);
  }

  /** The painting of started column `i` of a frame moves the cursor onto visible row
      `row`, then writes the coloured cell of that row. */
  lemma PaintingsCell(cols: seq<Columns.Column>, i: int, row: int)
    requires forall j :: 0 <= j < |cols| ==> Columns.Valid(cols[j]) && Columns.CountersInRange(cols[j])
    requires 0 <= i < |cols| && cols[i].started && cols[i].index >= 0
    requires cols[i].lineStart <= row < cols[i].lineEnd
    ensures 2 * (row - cols[i].lineStart) + 1 < |Paintings(cols)[i]| && row - cols[i].lineStart < |cols[i].col|
    ensures CursorTarget(Paintings(cols)[i][2 * (row - cols[i].lineStart)]) == Some((row, cols[i].index))
    ensures Paintings(cols)[i][2 * (row - cols[i].lineStart) + 1] == Columns.Cells(cols[i])[row - cols[i].lineStart]
    ensures Plain(Columns.Cells(cols[i])[row - cols[i].lineStart]) == [cols[i].col[row - cols[i].lineStart]]
  {
    PaintingsAt(cols, i);
    CellPainted(cols[i], row - cols[i].lineStart, row);
  }

  /** The same cell after the clear sequence. */
  lemma ClearedFrameShowsCell(cols: seq<Columns.Column>, paints: seq<seq<string>>, writes: seq<string>, i: int, row: int)
    requires Paintable(cols, paints) && 0 <= i < |cols| && cols[i].started
    requires cols[i].lineStart <= row < cols[i].lineEnd
    requires writes == [ClearScreen] + FrameWrites(cols, paints)
    ensures 0 < 1 + CellOffset(cols, i, row) && 1 + CellOffset(cols, i, row) + 1 < |writes|
    ensures writes[1 + CellOffset(cols, i, row)] == paints[i][2 * (row - cols[i].lineStart)]
    ensures writes[1 + CellOffset(cols, i, row) + 1] == paints[i][2 * (row - cols[i].lineStart) + 1]
    ensures CursorTarget(writes[1 + CellOffset(cols, i, row)]) == CursorTarget(paints[i][2 * (row - cols[i].lineStart)])
  {
    FrameShowsCell(cols, paints, i, row);
    AfterClear(writes, FrameWrites(cols, paints), CellOffset(cols, i, row));
  }

  /** Row `row`, the `k`-th visible one, of a column painted with its own coloured cells:
      a cursor move onto it, then the coloured cell, which shows the buffer's character. */
  lemma CellPainted(c: Columns.Column, k: int, row: int)
    requires Columns.CountersInRange(c) && Rows(c) <= |c.col|
    requires 0 <= k < Rows(c) && row == c.lineStart + k && row >= 0 && c.index >= 0
    ensures CursorTarget(ColumnPaint(c, Columns.Cells(c))[2 * k]) == Some((row, c.index))
    ensures ColumnPaint(c, Columns.Cells(c))[2 * k + 1] == Columns.Cells(c)[k]
    ensures Plain(Columns.Cells(c)[k]) == [c.col[k]]
  {
    ColumnPaintRow(c, Columns.Cells(c), k, row, c.index);
    Columns.CellsShowBuffer(c);
  }

  lemma AfterClear(writes: seq<string>, frame: seq<string>, j: int)
    requires writes == [ClearScreen] + frame && 0 <= j && j + 1 < |frame|
    ensures 1 + j + 1 < |writes| && writes[1 + j] == frame[j] && writes[1 + j + 1] == frame[j + 1]
  {
  }

  /** A column as the painting loop leaves it: read once through `colored` when started. */
  function Painted(c: Columns.Column): (r: Columns.Column)
    ensures r.started == c.started && r.lineStart == c.lineStart && r.lineEnd == c.lineEnd
    ensures Columns.Valid(c) ==> Columns.Valid(r)
  {
    if c.started && Columns.CountersInRange(c) then Columns.WrapColor(c).column else c
  }

  lemma RenderedFrame(s: Screen, draws: seq<Columns.Draw>, advanced: Screen, frame: Frame)
    requires ValidScreen(s) && ValidDraws(s, draws)
    requires advanced == NextIteration(s, draws)
    requires FrameOf(advanced.columns, frame)
    ensures ValidScreen(advanced.(columns := frame.columns))
    ensures forall i :: 0 <= i < |s.columns| ==>
              frame.columns[i] == Painted(Columns.Iter(s.columns[i], draws[i]).column)
    ensures Paints([ClearScreen] + frame.writes, frame.columns)
    ensures forall w :: 0 <= w < |[ClearScreen] + frame.writes| && CursorTarget(([ClearScreen] + frame.writes)[w]).Some? ==>
              0 <= CursorTarget(([ClearScreen] + frame.writes)[w]).value.0 < s.rowNum
              && 0 <= CursorTarget(([ClearScreen] + frame.writes)[w]).value.1 < s.colNum
  {
    PaintingsPaint(advanced.columns);
    FrameWritesPaints(advanced.columns, Paintings(advanced.columns));
    ClearedFramePaints(s, advanced.columns, frame);
  }

  /** The clear sequence moves no cursor, and colouring keeps every column where it was. */
  lemma ClearedFramePaints(s: Screen, cols: seq<Columns.Column>, frame: Frame)
    requires |cols| == |s.columns| == s.colNum && |frame.columns| == |cols|
    requires forall i :: 0 <= i < |cols| ==>
               && Columns.Valid(cols[i]) && cols[i].rowNum == s.rowNum
               && frame.columns[i].started == cols[i].started
               && frame.columns[i].lineStart == cols[i].lineStart
               && frame.columns[i].lineEnd == cols[i].lineEnd
    requires Paints(frame.writes, cols)
    ensures Paints([ClearScreen] + frame.writes, frame.columns)
    ensures forall w :: 0 <= w < |[ClearScreen] + frame.writes| && CursorTarget(([ClearScreen] + frame.writes)[w]).Some? ==>
              0 <= CursorTarget(([ClearScreen] + frame.writes)[w]).value.0 < s.rowNum
              && 0 <= CursorTarget(([ClearScreen] + frame.writes)[w]).value.1 < s.colNum
  {
    var writes := [ClearScreen] + frame.writes;
    assert CursorTarget(ClearScreen) == None;
    forall w | 0 <= w < |writes| && CursorTarget(writes[w]).Some?
      ensures 0 <= CursorTarget(writes[w]).value.1 < |frame.columns|
      ensures frame.columns[CursorTarget(writes[w]).value.1].started
      ensures frame.columns[CursorTarget(writes[w]).value.1].lineStart <= CursorTarget(writes[w]).value.0
      ensures CursorTarget(writes[w]).value.0 < frame.columns[CursorTarget(writes[w]).value.1].lineEnd
      ensures 0 <= CursorTarget(writes[w]).value.0 < s.rowNum
      ensures 0 <= CursorTarget(writes[w]).value.1 < s.colNum
    {
      assert writes[w] == frame.writes[w - 1];
    }
  }

  /** A character choice for one column of `change_columns_characters`. */
  datatype Pick = Pick(pos: int, ch: char)

  /** The ranges `randint` and `choice` draw from in `change_random_character`. */
  predicate PickFits(c: Columns.Column, p: Pick) {
    |c.col| > 0 ==> 0 <= p.pos < |c.col| && Columns.InPool(p.ch) && p.ch != c.col[p.pos]
  }

  function ChangeAll(cols: seq<Columns.Column>, picks: seq<Pick>): (r: Result<seq<Columns.Column>>)
    requires |picks| == |cols|
    requires forall i :: 0 <= i < |cols| && cols[i].started ==> PickFits(cols[i], picks[i])
    ensures r.Fail? <==> exists i :: 0 <= i < |cols| && cols[i].started && |cols[i].col| == 0
    ensures r.Fail? ==> r.error == EmptyColumn
    ensures r.Ok? ==> |r.value| == |cols|
    ensures r.Ok? ==> forall i :: 0 <= i < |cols| && !cols[i].started ==> r.value[i] == cols[i]
    ensures r.Ok? ==> forall i :: 0 <= i < |cols| && cols[i].started ==>
              && |r.value[i].col| == |cols[i].col|
              && Columns.ChangedPositions(cols[i].col, r.value[i].col) == {picks[i].pos}
              && Columns.InPool(r.value[i].col[picks[i].pos])
              && r.value[i] == cols[i].(col := r.value[i].col)
    decreases |cols|
  {
    if |cols| == 0 then Ok([])
    else
      var n := |cols| - 1;
      match ChangeAll(cols[..n], picks[..n])
      case Fail(e) => Fail(e)
      case Ok(done) =>
        if !cols[n].started then Ok(done + [cols[n]])
        else
          assert PickFits(cols[n], picks[n]);
          match Columns.ChangeRandomCharacter(cols[n], picks[n].pos, picks[n].ch)
          case Fail(e) => Fail(e)
          case Ok(c) => Ok(done + [c])
  }

  /** `change_columns_characters` (`screen.py:79-85`): change one character in every
      started column; a started column with an empty buffer raises `ValueError`. */
  function ChangeColumnsCharacters(s: Screen, picks: seq<Pick>): (r: Result<Screen>)
    requires |picks| == |s.columns|
    requires forall i :: 0 <= i < |s.columns| && s.columns[i].started ==> PickFits(s.columns[i], picks[i])
    ensures r.Fail? <==> exists i :: 0 <= i < |s.columns| && s.columns[i].started && |s.columns[i].col| == 0
    ensures r.Fail? ==> r.error == EmptyColumn
    ensures r.Ok? ==> r.value.rowNum == s.rowNum && r.value.colNum == s.colNum
    ensures r.Ok? ==> |r.value.columns| == |s.columns|
    ensures r.Ok? ==> forall i :: 0 <= i < |s.columns| && !s.columns[i].started ==>
              r.value.columns[i] == s.columns[i]
    ensures r.Ok? ==> forall i :: 0 <= i < |s.columns| && s.columns[i].started ==>
              && |r.value.columns[i].col| == |s.columns[i].col|
              && Columns.ChangedPositions(s.columns[i].col, r.value.columns[i].col) == {picks[i].pos}
              && Columns.InPool(r.value.columns[i].col[picks[i].pos])
              && r.value.columns[i] == s.columns[i].(col := r.value.columns[i].col)
    ensures r.Ok? && ValidScreen(s) ==> ValidScreen(r.value)
  {
    match ChangeAll(s.columns, picks)
    case Fail(e) => Fail(e)
    case Ok(cols) =>
      var r := s.(columns := cols);
      assert ValidScreen(s) ==> ValidScreen(r) by {
        if ValidScreen(s) {
          forall i | 0 <= i < |cols|
            ensures cols[i].index == i && cols[i].rowNum == s.rowNum && Columns.Valid(cols[i])
          {
            if s.columns[i].started {
              ChangeKeepsValid(s.columns[i], cols[i], picks[i]);
            }
          }
        }
      }
      Ok(r)
  }

  lemma ChangeKeepsValid(c: Columns.Column, c': Columns.Column, p: Pick)
    requires Columns.Valid(c) && PickFits(c, p) && |c.col| > 0
    requires |c'.col| == |c.col| && Columns.ChangedPositions(c.col, c'.col) == {p.pos}
    requires Columns.InPool(c'.col[p.pos]) && c' == c.(col := c'.col)
    ensures Columns.Valid(c')
  {
    forall i | 0 <= i < |c'.col|
      ensures Columns.InPool(c'.col[i])
    {
      if i != p.pos {
        assert i !in Columns.ChangedPositions(c.col, c'.col);
      }
    }
  }

  /** A column that `iter` has just started has an empty buffer, so changing characters
      right after that tick raises `ValueError`. */
  lemma JustStartedColumnRejectsChange(s: Screen, draws: seq<Columns.Draw>, i: int, picks: seq<Pick>)
    requires ValidScreen(s) && ValidDraws(s, draws)
    requires 0 <= i < |s.columns| && !s.columns[i].started && s.columns[i].runDelay == 0
    requires |picks| == |s.columns|
    requires forall j :: 0 <= j < |s.columns| && NextIteration(s, draws).columns[j].started ==>
               PickFits(NextIteration(s, draws).columns[j], picks[j])
    ensures ChangeColumnsCharacters(NextIteration(s, draws), picks) == Fail(EmptyColumn)
  {
    var t := NextIteration(s, draws);
    assert t.columns[i].started && |t.columns[i].col| == 0;
  }

  /** `clean` (`screen.py:103-107`): show the cursor, move it home, clear the screen. */
  function Clean(s: Screen): (r: Result<seq<string>>)
    ensures r.Ok? <==> s.rowNum >= 0 && s.colNum >= 0
    ensures r.Ok? ==> |r.value| == 3 && r.value[0] == ShowCursor && r.value[2] == ClearScreen
    ensures r.Ok? ==> CursorTarget(r.value[1]) == Some((0, 0))
  {
    match Move(s, 0, 0)
    case Fail(e) => Fail(e)
    case Ok(home) => Ok([ShowCursor, home, ClearScreen])
  }
}
