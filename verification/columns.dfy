/** One terminal column of falling characters (`column.py`).

    A column waits out a random delay, then starts a line of random length.
    Each tick the line grows by one character at the bottom until it is as
    long as wanted, then scrolls down one row per tick, then drains off the
    bottom row; when nothing is left the column ends and draws a new delay.

    The random numbers the program draws are parameters here, restricted by
    `requires` to the ranges `randint` and `choice` return.
 */
module Columns {
  import opened Results
  import opened Terminal

  /** `string.ascii_lowercase` and `string.ascii_uppercase`. */
  const Lowercase: string := seq(26, i requires 0 <= i < 26 => ('a' as int + i) as char)
  const Uppercase: string := seq(26, i requires 0 <= i < 26 => ('A' as int + i) as char)

  /** `CHAR_POOL`: the ASCII letters (lower case first), then digits and a few symbols. */
  const CharPool: string := Lowercase + Uppercase + "1234567890!@#$%^&?></|"

  /** 256-colour palette indices: the head brightest first, one middle colour, the tail. */
  const HeadColors: seq<int> := [255, 228, 226, 118]
  const MiddleColor: seq<int> := [82]
  const TailColors: seq<int> := [70, 64, 241, 236]

  /** `colors_num` in `start`: how many colour levels a line shows. */
  const ColorsNum: int := |HeadColors| + |MiddleColor| + |TailColors|

  /** Membership in `CharPool`, by character class (`CharPoolMembers` shows they agree). */
  predicate InPool(ch: char) {
    || 'a' <= ch <= 'z'
    || 'A' <= ch <= 'Z'
    || '0' <= ch <= '9'
    || ch == '!' || ch == '@' || ch == '#' || ch == '$' || ch == '%' || ch == '^'
    || ch == '&' || ch == '?' || ch == '>' || ch == '<' || ch == '/' || ch == '|'
  }

  /** `InPool` holds of exactly the characters of `CharPool`. */
  lemma CharPoolMembers(ch: char)
    ensures InPool(ch) <==> ch in CharPool
  {
    if 'a' <= ch <= 'z' {
      assert Lowercase[ch as int - 'a' as int] == ch;
    } else if 'A' <= ch <= 'Z' {
      assert Uppercase[ch as int - 'A' as int] == ch;
    } else {
      assert ch !in Lowercase && ch !in Uppercase;
    }
  }

  predicate InPalette(n: int) {
    n in HeadColors || n in MiddleColor || n in TailColors
  }

  /** The state of one column. Field names follow the program's attributes. */
  datatype Column = Column(
    index: int,             // `_index`: position among the terminal's columns
    rowNum: int,            // `_row_num`: number of terminal rows
    col: seq<char>,         // `_col`: the visible characters, oldest (top) first
    lineLen: int,           // `_line_len`: target length of the falling line
    lineStart: int,         // `_line_start`: row of the oldest visible character
    lineEnd: int,           // `_line_end`: one past the row of the newest character
    iterAfterEnd: int,      // `_iter_after_end`: head colours consumed after reaching the bottom
    iterAfterLineLen: int,  // `_iter_after_line_len`: tail colours grown near full length
    runDelay: int,          // `_run_delay`: ticks left before the next start
    started: bool           // `_started`: whether a line is falling
  )
  {
    /** `_end`: the index of the last row. */
    function Last(): int {
      rowNum - 1
    }
  }

  /** The values drawn from `random` during one tick of a column. */
  datatype Draw = Draw(
    extra: int,      // `randint(0, ...)` in the line-length formula of `start`
    ch: char,        // `choice(CHAR_POOL)` appended by `iter`
    delayRows: int,  // `randint(0, row_num)` in `end`
    delayTens: int   // `randint(0, 10)` in `end`
  )

  /** The bound `start` hands to `randint`: the float `(end - 9) * 9 / 10`
      truncated toward zero, which is 0 for a last row of 8. */
  function MaxExtra(last: int): int {
    if last >= ColorsNum then (last - ColorsNum) * 9 / 10 else 0
  }

  /** The line length `start` computes from the drawn `extra`. The float sum
      is positive, so Python's truncation is the floor that Dafny's `/` takes. */
  function LineLen(last: int, extra: int): int {
    (last - ColorsNum) / 10 + extra + ColorsNum
  }

  /** The shortest line `start` can choose. */
  function MinLineLen(last: int): int {
    (last - ColorsNum) / 10 + ColorsNum
  }

  predicate ValidDraw(rowNum: int, d: Draw) {
    && 0 <= d.extra <= MaxExtra(rowNum - 1)
    && InPool(d.ch)
    && 0 <= d.delayRows <= rowNum
    && 0 <= d.delayTens <= 10
  }

  predicate CountersInRange(c: Column) {
    && 0 <= c.iterAfterEnd <= |HeadColors|
    && 0 <= c.iterAfterLineLen <= |TailColors|
  }

  /** The states a column can reach from its constructor. */
  predicate Valid(c: Column) {
    && c.rowNum >= ColorsNum
    && CountersInRange(c)
    && c.runDelay >= 0
    && 0 <= c.lineStart <= c.lineEnd <= c.Last()
    && |c.col| == c.lineEnd - c.lineStart
    && (forall i :: 0 <= i < |c.col| ==> InPool(c.col[i]))
    && (c.started ==>
          && 0 <= c.lineLen <= c.Last()
          && (c.lineStart < c.lineEnd || c.lineEnd == 0)
          && c.lineEnd - c.lineStart <= c.lineLen + 1
          && (c.lineEnd < c.Last() ==> c.iterAfterEnd == 0))
    && (!c.started ==> c.lineStart == c.lineEnd)
  }

  /** `randint(0, row_num) * randint(0, 10)`: the delay `end` draws. */
  function RestartDelay(rows: int, tens: int): int {
    rows * tens
  }

  lemma RestartDelayBound(rowNum: int, rows: int, tens: int)
    requires 0 <= rows <= rowNum && 0 <= tens <= 10
    ensures 0 <= RestartDelay(rows, tens) <= rowNum * 10
  {
    assert rows * tens <= rowNum * tens;
    assert rowNum * tens <= rowNum * 10;
  }

  /** `Column.__init__` (`column.py:40-54`): an idle column waiting out its first delay. */
  function Init(rowNum: int, index: int, rows: int, tens: int, jitter: int): (r: Column)
    requires 0 <= rows <= rowNum && 0 <= tens <= 10 && 0 <= jitter <= 100
    ensures r.index == index && r.rowNum == rowNum && r.Last() == rowNum - 1
    ensures !r.started && r.col == []
    ensures r.lineLen == 0 && r.lineStart == 0 && r.lineEnd == 0
    ensures r.iterAfterEnd == 0 && r.iterAfterLineLen == 0
    ensures 0 <= r.runDelay <= rowNum * 10 + 100
    ensures rowNum >= ColorsNum ==> Valid(r)
  {
    RestartDelayBound(rowNum, rows, tens);
    Column(index, rowNum, [], 0, 0, 0, 0, 0, RestartDelay(rows, tens) + jitter, false)
  }

  /** The two integer-division halves of `start`'s formula never add up to more than their sum,
      and add up to exactly it only for multiples of ten. */
  lemma SplitTenths(e: int)
    requires e >= 0
    ensures e / 10 + e * 9 / 10 <= e
    ensures e / 10 + e * 9 / 10 == e <==> e % 10 == 0
  {
    var q := e / 10;
    var m := e % 10;
    assert e == 10 * q + m;
    assert e * 9 == 10 * (9 * q) + 9 * m;
    assert e * 9 / 10 == 9 * q + 9 * m / 10;
  }

  /** The line lengths `start` can draw (`column.py:86-87`): at least `MinLineLen`, at most
      the last row, and equal to the last row exactly for the largest draw when
      `end - 9` is a multiple of ten, or always when the last row is 8. */
  lemma LineLenRange(last: int, extra: int)
    requires last >= ColorsNum - 1
    requires 0 <= extra <= MaxExtra(last)
    ensures MinLineLen(last) <= LineLen(last, extra) <= last
    ensures LineLen(last, extra) == last <==>
              last == ColorsNum - 1 || ((last - ColorsNum) % 10 == 0 && extra == MaxExtra(last))
  {
    if last >= ColorsNum {
      SplitTenths(last - ColorsNum);
    }
  }

  /** `start` (`column.py:76-94`): a fresh, empty line whose target length is drawn. */
  function Start(c: Column, extra: int): (r: Column)
    requires c.Last() >= ColorsNum - 1
    requires 0 <= extra <= MaxExtra(c.Last())
    ensures r.started && r.col == [] && r.lineStart == 0 && r.lineEnd == 0
    ensures r.iterAfterEnd == 0 && r.iterAfterLineLen == 0
    ensures MinLineLen(c.Last()) <= r.lineLen <= c.Last()
    ensures r.lineLen == c.Last() <==>
              c.Last() == ColorsNum - 1 || ((c.Last() - ColorsNum) % 10 == 0 && extra == MaxExtra(c.Last()))
    ensures r.index == c.index && r.rowNum == c.rowNum && r.runDelay == c.runDelay
    ensures c.runDelay >= 0 ==> Valid(r)
  {
    LineLenRange(c.Last(), extra);
    c.(col := [], lineLen := LineLen(c.Last(), extra), lineStart := 0, lineEnd := 0,
       iterAfterEnd := 0, iterAfterLineLen := 0, started := true)
  }

  /** `end` (`column.py:96-99`): stop the line and draw the delay before the next one. */
  function End(c: Column, rows: int, tens: int): (r: Column)
    requires 0 <= rows <= c.rowNum && 0 <= tens <= 10
    ensures !r.started
    ensures 0 <= r.runDelay <= c.rowNum * 10
    ensures r == c.(runDelay := r.runDelay, started := false)
  {
    RestartDelayBound(c.rowNum, rows, tens);
    c.(runDelay := RestartDelay(rows, tens), started := false)
  }

  /** What `iter` leaves behind, and the flag it returns. */
  datatype Tick = Tick(column: Column, started: bool)

  /** `iter` (`column.py:170-199`): advance the column by one tick. */
  function Iter(c: Column, d: Draw): (r: Tick)
    requires Valid(c) && ValidDraw(c.rowNum, d)
    ensures Valid(r.column)
    ensures r.started == r.column.started
    ensures r.column.index == c.index && r.column.rowNum == c.rowNum
    // idle: count the delay down, or start a line once it is used up
    ensures !c.started && c.runDelay > 0 ==> r.column == c.(runDelay := c.runDelay - 1)
    ensures !c.started && c.runDelay <= 0 ==>
              r.started && r.column.col == [] && r.column.lineStart == 0 && r.column.lineEnd == 0
              && r.column.lineLen == LineLen(c.Last(), d.extra)
              && r.column.iterAfterEnd == 0 && r.column.iterAfterLineLen == 0
    // falling: drop the top once longer than wanted, grow until the bottom, end when empty
    ensures c.started ==>
              && r.column.lineLen == c.lineLen
              && r.column.lineStart == c.lineStart + (if c.lineEnd > c.lineLen then 1 else 0)
              && r.column.lineEnd == c.lineEnd + (if c.lineEnd < c.Last() then 1 else 0)
              && r.started == (r.column.lineStart < r.column.lineEnd)
              && r.column.iterAfterEnd == c.iterAfterEnd
              && r.column.iterAfterLineLen == c.iterAfterLineLen
    ensures c.started ==>
              r.column.col == (if c.lineEnd > c.lineLen then c.col[1..] else c.col)
                              + (if c.lineEnd < c.Last() then [d.ch] else [])
    ensures c.started && r.started ==> r.column.runDelay == c.runDelay
    ensures c.started && !r.started ==> 0 <= r.column.runDelay <= c.rowNum * 10
  {
    if c.started then
      var trimmed := if c.lineEnd > c.lineLen then c.(col := c.col[1..], lineStart := c.lineStart + 1) else c;
      var grown :=
        if trimmed.lineEnd < c.Last() then trimmed.(col := trimmed.col + [d.ch], lineEnd := trimmed.lineEnd + 1)
        else trimmed;
      var next := if grown.lineStart >= grown.lineEnd then End(grown, d.delayRows, d.delayTens) else grown;
      Tick(next, next.started)
    else if c.runDelay > 0 then
      var next := c.(runDelay := c.runDelay - 1);
      Tick(next, next.started)
    else
      var next := Start(c, d.extra);
      Tick(next, next.started)
  }

  /** The positions at which two equally long buffers differ. */
  function ChangedPositions(a: seq<char>, b: seq<char>): set<int>
    requires |a| == |b|
  {
    set i | 0 <= i < |a| && a[i] != b[i]
  }

  /** `change_random_character` (`column.py:160-168`): replace the character at the drawn
      position by a drawn pool character other than the one there. */
  function ChangeRandomCharacter(c: Column, pos: int, ch: char): (r: Result<Column>)
    requires |c.col| > 0 ==> 0 <= pos < |c.col| && InPool(ch) && ch != c.col[pos]
    ensures r.Fail? <==> |c.col| == 0
    ensures r.Fail? ==> r.error == EmptyColumn
    ensures r.Ok? ==> |r.value.col| == |c.col| && ChangedPositions(c.col, r.value.col) == {pos}
    ensures r.Ok? ==> InPool(r.value.col[pos])
    ensures r.Ok? ==> r.value == c.(col := r.value.col)
    ensures r.Ok? && Valid(c) ==> Valid(r.value)
  {
    if |c.col| == 0 then Fail(EmptyColumn)
    else
      var col' := c.col[pos := ch];
      assert ChangedPositions(c.col, col') == {pos} by {
        forall i | i in ChangedPositions(c.col, col') ensures i == pos { }
        assert pos in ChangedPositions(c.col, col');
      }
      Ok(c.(col := col'))
  }

  // ---------------------------------------------------------------------------
  // The `colored` property (`__wrap_color`, column.py:101-144)
  // ---------------------------------------------------------------------------

  /** Python's subscript `s[k]`, where a negative `k` counts from the end;
      its precondition is Python's range check. */
  function PyAt(s: seq<int>, k: int): (r: int)
    requires -|s| <= k < |s|
    ensures r in s
  {
    if k < 0 then s[|s| + k] else s[k]
  }

  /** `head_color_start`: the first cell of the head zone. */
  function HeadStart(c: Column): (r: int)
    requires CountersInRange(c)
    ensures 0 <= r <= |c.col|
  {
    if |c.col| - |HeadColors| < 0 then 0 else |c.col| - |HeadColors| + c.iterAfterEnd
  }

  /** Whether the head zone is painted: while the line still extends, and for
      as many reads after it reaches the bottom as there are head colours. */
  predicate HeadLit(c: Column) {
    c.lineEnd < c.Last() || c.iterAfterEnd < |HeadColors|
  }

  /** The program's guard on the middle zone, `_line_start >= 0`. */
  predicate MiddleLit(c: Column) {
    c.lineStart >= 0
  }

  /** `middle_color_start`: the cells before it are the tail zone. */
  function TailEnd(c: Column): (r: int)
    ensures r <= |c.col|
  {
    if c.iterAfterLineLen < |c.col| then c.iterAfterLineLen else |c.col|
  }

  /** One loop of `__wrap_color` on one cell: wrap it in `palette[k]` when the loop
      reaches it. Only then is the subscript taken, so only then must it be in range. */
  function WrapIf(reached: bool, text: string, palette: seq<int>, k: int): string
    requires reached ==> -|palette| <= k < |palette|
  {
    if reached then Colorize(text, PyAt(palette, k)) else text
  }

  /** A loop wrap adds its colour outside those already there and keeps the text shown. */
  lemma WrapIfLayers(reached: bool, text: string, palette: seq<int>, k: int, ch: char, layers: seq<int>)
    requires reached ==> -|palette| <= k < |palette|
    requires Plain(text) == [ch] && Layers(text) == layers
    requires text == [ch] || EndsWith(text, ColorReset)
    ensures Plain(WrapIf(reached, text, palette, k)) == [ch]
    ensures Layers(WrapIf(reached, text, palette, k)) == (if reached then [PyAt(palette, k)] else []) + layers
    ensures WrapIf(reached, text, palette, k) == [ch] || EndsWith(WrapIf(reached, text, palette, k), ColorReset)
  {
    if reached {
      ColorizeLayers(text, PyAt(palette, k));
    }
  }

  /** The three loops of `__wrap_color` on one character, in the program's order:
      head (`hr`, colour `HEAD_COLORS[hk]`), middle (`mr`), tail (`tr`, colour `TAIL_COLORS[tk]`). */
  function Wraps(ch: char, hr: bool, hk: int, mr: bool, tr: bool, tk: int): string
    requires hr ==> -|HeadColors| <= hk < |HeadColors|
    requires tr ==> -|TailColors| <= tk < |TailColors|
  {
    WrapIf(tr, WrapIf(mr, WrapIf(hr, [ch], HeadColors, hk), MiddleColor, 0), TailColors, tk)
  }

  /** Cell `i` of `colored`. */
  function Cell(c: Column, i: int): string
    requires CountersInRange(c) && 0 <= i < |c.col|
  {
    Wraps(c.col[i], HeadLit(c) && HeadStart(c) <= i, HeadStart(c) - i - 1,
          MiddleLit(c) && TailEnd(c) <= i < HeadStart(c), i < TailEnd(c), -i - 1)
  }

  /** The counter updates a read of `colored` makes. */
  function Advance(c: Column): Column {
    c.(iterAfterEnd :=
         if c.lineEnd >= c.Last() && c.iterAfterEnd < |HeadColors| then c.iterAfterEnd + 1
         else c.iterAfterEnd,
       iterAfterLineLen :=
         if MiddleLit(c) && c.iterAfterLineLen < |TailColors| && c.lineEnd >= c.lineLen - |TailColors|
         then c.iterAfterLineLen + 1
         else c.iterAfterLineLen)
  }

  /** Three nested loop wraps of one character: the text shown stays the character, and
      the colours read back are the wraps applied, outermost (last applied) first. */
  lemma WrapsLayers(ch: char, hr: bool, hk: int, mr: bool, tr: bool, tk: int)
    requires hr ==> -|HeadColors| <= hk < |HeadColors|
    requires tr ==> -|TailColors| <= tk < |TailColors|
    ensures Plain(Wraps(ch, hr, hk, mr, tr, tk)) == [ch]
    ensures Wraps(ch, hr, hk, mr, tr, tk) == [ch] || EndsWith(Wraps(ch, hr, hk, mr, tr, tk), ColorReset)
    ensures Layers(Wraps(ch, hr, hk, mr, tr, tk)) ==
              (if tr then [PyAt(TailColors, tk)] else [])
              + ((if mr then [MiddleColor[0]] else [])
                 + (if hr then [PyAt(HeadColors, hk)] else []))
  {
    var hl: seq<int> := if hr then [PyAt(HeadColors, hk)] else [];
    var ml: seq<int> := if mr then [MiddleColor[0]] else [];
    var tl: seq<int> := if tr then [PyAt(TailColors, tk)] else [];
    var head := WrapIf(hr, [ch], HeadColors, hk);
    assert Plain(head) == [ch] && Layers(head) == hl && (head == [ch] || EndsWith(head, ColorReset)) by {
      CharLayers(ch);
      WrapIfLayers(hr, [ch], HeadColors, hk, ch, []);
      assert hl + [] == hl;
    }
    var middle := WrapIf(mr, head, MiddleColor, 0);
    assert Plain(middle) == [ch] && Layers(middle) == ml + hl && (middle == [ch] || EndsWith(middle, ColorReset)) by {
      WrapIfLayers(mr, head, MiddleColor, 0, ch, hl);
    }
    var tail := WrapIf(tr, middle, TailColors, tk);
    assert Plain(tail) == [ch] && Layers(tail) == tl + (ml + hl) && (tail == [ch] || EndsWith(tail, ColorReset)) by {
      WrapIfLayers(tr, middle, TailColors, tk, ch, ml + hl);
    }
  }

  /** The cell layers one cell is given, outermost first. */
  lemma CellLayers(c: Column, i: int)
    requires CountersInRange(c) && 0 <= i < |c.col|
    ensures Plain(Cell(c, i)) == [c.col[i]]
    ensures Cell(c, i) == [c.col[i]] || EndsWith(Cell(c, i), ColorReset)
    ensures Layers(Cell(c, i)) ==
              (if i < TailEnd(c) then [PyAt(TailColors, -i - 1)] else [])
              + ((if MiddleLit(c) && TailEnd(c) <= i < HeadStart(c) then [MiddleColor[0]] else [])
                 + (if HeadLit(c) && HeadStart(c) <= i then [PyAt(HeadColors, HeadStart(c) - i - 1)] else []))
  {
    WrapsLayers(c.col[i], HeadLit(c) && HeadStart(c) <= i, HeadStart(c) - i - 1,
                MiddleLit(c) && TailEnd(c) <= i < HeadStart(c), i < TailEnd(c), -i - 1);
  }

  /** All cells of `colored`, in buffer order. */
  function Cells(c: Column): (r: seq<string>)
    requires CountersInRange(c)
    ensures |r| == |c.col|
    ensures forall i :: 0 <= i < |c.col| ==> r[i] == Cell(c, i)
  {
    seq(|c.col|, i requires 0 <= i < |c.col| => Cell(c, i))
  }

  lemma CellsShowBuffer(c: Column)
    requires CountersInRange(c)
    ensures forall i :: 0 <= i < |c.col| ==> Plain(Cells(c)[i]) == [c.col[i]]
    ensures forall i :: 0 <= i < |c.col| ==> Cells(c)[i] == [c.col[i]] || EndsWith(Cells(c)[i], ColorReset)
    ensures forall i, k :: 0 <= i < |c.col| && 0 <= k < |Layers(Cells(c)[i])| ==>
              InPalette(Layers(Cells(c)[i])[k])
  {
    var cells := Cells(c);
    forall i | 0 <= i < |cells|
      ensures Plain(cells[i]) == [c.col[i]]
      ensures cells[i] == [c.col[i]] || EndsWith(cells[i], ColorReset)
      ensures forall k :: 0 <= k < |Layers(cells[i])| ==> InPalette(Layers(cells[i])[k])
    {
      CellLayers(c, i);
    }
  }

  lemma CellsFollowZones(c: Column)
    requires CountersInRange(c)
    ensures c.lineEnd < c.Last() && c.iterAfterEnd == 0 && |c.col| >= |HeadColors| + |TailColors| ==>
              forall j :: 0 <= j < |HeadColors| ==> Layers(Cells(c)[|c.col| - 1 - j]) == [HeadColors[j]]
    ensures MiddleLit(c) ==>
              forall i :: TailEnd(c) <= i < HeadStart(c) ==> Layers(Cells(c)[i]) == [MiddleColor[0]]
    ensures forall i :: 0 <= i < TailEnd(c) ==>
              |Layers(Cells(c)[i])| > 0 && Layers(Cells(c)[i])[0] == TailColors[|TailColors| - 1 - i]
  {
    var cells := Cells(c);
    forall i | 0 <= i < TailEnd(c)
      ensures |Layers(cells[i])| > 0 && Layers(cells[i])[0] == TailColors[|TailColors| - 1 - i]
    {
      CellLayers(c, i);
    }
    forall i | MiddleLit(c) && TailEnd(c) <= i < HeadStart(c)
      ensures Layers(cells[i]) == [MiddleColor[0]]
    {
      CellLayers(c, i);
    }
    forall j | c.lineEnd < c.Last() && c.iterAfterEnd == 0 && |c.col| >= |HeadColors| + |TailColors| && 0 <= j < |HeadColors|
      ensures Layers(cells[|c.col| - 1 - j]) == [HeadColors[j]]
    {
      CellLayers(c, |c.col| - 1 - j);
    }
  }

  /** What a read of `colored` returns, and the column after the read. */
  datatype Colored = Colored(cells: seq<string>, column: Column)

  /** `colored` (`column.py:68-70`, `101-144`): every buffer character wrapped in its zone's
      colour; reading it also advances the two counters. */
  function WrapColor(c: Column): (r: Colored)
    requires CountersInRange(c)
    ensures |r.cells| == |c.col|
    // every cell is the three loops applied to its character, as `CellLayers` reads it back
    ensures r.cells == Cells(c)
    // the text shown is the buffer, and every colour is closed again
    ensures forall i :: 0 <= i < |r.cells| ==> Plain(r.cells[i]) == [c.col[i]]
    ensures forall i :: 0 <= i < |r.cells| ==> r.cells[i] == [c.col[i]] || EndsWith(r.cells[i], ColorReset)
    ensures forall i, k :: 0 <= i < |r.cells| && 0 <= k < |Layers(r.cells[i])| ==>
              InPalette(Layers(r.cells[i])[k])
    // head: while the line extends, the newest characters get the head colours, brightest last
    ensures c.lineEnd < c.Last() && c.iterAfterEnd == 0 && |c.col| >= |HeadColors| + |TailColors| ==>
              forall j :: 0 <= j < |HeadColors| ==> Layers(r.cells[|c.col| - 1 - j]) == [HeadColors[j]]
    // middle: one flat colour between the tail and the head
    ensures MiddleLit(c) ==>
              forall i :: TailEnd(c) <= i < HeadStart(c) ==> Layers(r.cells[i]) == [MiddleColor[0]]
    // tail: the oldest characters, dimmest first, as the outermost wrap
    ensures forall i :: 0 <= i < TailEnd(c) ==>
              |Layers(r.cells[i])| > 0 && Layers(r.cells[i])[0] == TailColors[|TailColors| - 1 - i]
    // the counters only grow, by at most one, and never past the palette sizes
    ensures CountersInRange(r.column)
    ensures r.column.iterAfterEnd == c.iterAfterEnd + (if c.lineEnd >= c.Last() && c.iterAfterEnd < |HeadColors| then 1 else 0)
    ensures c.iterAfterLineLen <= r.column.iterAfterLineLen <= c.iterAfterLineLen + 1
    ensures r.column.iterAfterLineLen > c.iterAfterLineLen <==>
              MiddleLit(c) && c.iterAfterLineLen < |TailColors| && c.lineEnd >= c.lineLen - |TailColors|
    ensures r.column == c.(iterAfterEnd := r.column.iterAfterEnd, iterAfterLineLen := r.column.iterAfterLineLen)
    ensures Valid(c) ==> Valid(r.column)
  {
    var cells := Cells(c);
    CellsShowBuffer(c);
    CellsFollowZones(c);
    Colored(cells, Advance(c))
  }
}
