# CryTerm digital rain, modelled in Dafny

CryTerm fills a terminal with falling characters. Each terminal column has a
`Column` (`column.py`). A column waits out a random delay, then starts a line
of random length. The line grows downward one character per tick. Once it is
longer than wanted it also loses its top character each tick. When the line
has drained off the bottom row, the column ends and draws a new delay. On
every read, `colored` wraps each character in a 256-colour escape sequence: a
bright head at the bottom, one middle colour, and a dimming tail at the top.
A `Screen` (`screen.py`) holds one column per terminal column. Each frame,
`image_render` clears the terminal, advances every column one tick, and
paints each started column by moving the cursor to every visible row and
writing that row's coloured character.

The model is functional:

- `Column` and `Screen` are immutable records, and every method is a pure
  step function.
- Every `randint`/`choice` result is a parameter. It is restricted by
  `requires` to the range the library call returns: `Columns.Draw` for
  `iter`, `Screens.DelayDraw` for the constructor, `Screens.Pick` for
  `change_columns_characters`.
- The terminal size is a constructor parameter.
- Everything written to standard output is returned as the sequence of
  strings written, in order.
- The two exception paths return `Results.Fail`:
  - `ValueError` from an empty column;
  - `IndexError` from `move` outside the terminal, or from a missing
    coloured cell.

Modules:

- `Results`: `Option`, `Result` and the error kinds.
- `Terminal`: the escape sequences written (`Colorize`, `CursorTo`, the
  constants). It also has independent readers of those sequences
  (`ParseColored`, `Layers`, `Plain`, `CursorTarget`, `ParseInt`). The
  writers' contracts state what those readers find.
- `Columns`: the column state and its operations, and `Valid`, the invariant
  of every state reachable from the constructor.
- `Lifecycle`: `Run` folds `iter` over a sequence of draws. Its lemmas follow
  a line from start to end. It also holds the line-length finding below.
- `Screens`: the screen and its frame operations.

## Model

| member | source | states |
|---|---|---|
| Terminal.IntToStringRoundTrip | screen.py:69 | `str` of any integer, read back as a decimal, gives the integer again, including negative ones |
| Terminal.Colorize | column.py:146-158 | the sequence `colorize` writes is longer than the text, and a terminal reading it finds exactly the wrapped text and the colour number |
| Terminal.ColorizeLayers | column.py:158 | wrapping adds the colour as the new outermost layer and leaves the visible text unchanged |
| Terminal.CursorTo | screen.py:68-69 | the sequence `move` writes (`ESC[row+1;col+1H`, 1-based on the wire) moves a terminal's cursor to exactly the 0-based row and column given when both are non-negative. Position -1 writes parameter 0, which a terminal reads as the first row or column. Anything below -1 writes a negative parameter, which is not a cursor move at all |
| Terminal.NotACursorMove | screen.py:77 | a single character or a colour-wrapped string never reads as a cursor move |
| Columns.CharPoolMembers | column.py:34 | a character is in the pool (ASCII letters, digits, `!@#$%^&?></|`) exactly when it is a letter, a digit or one of those symbols |
| Columns.Init | column.py:40-54 | a new column is idle, empty, has all counters at zero and the given index and height; its first delay lies in `[0, rows*10+100]`; it satisfies the column invariant whenever the terminal has at least 9 rows |
| Columns.RestartDelayBound | column.py:98 | the delay `end` draws lies in `[0, rows*10]` |
| Columns.LineLenRange | column.py:83-87 | the drawn line length is at least `(end-9)//10 + 9` and at most `end`; it equals `end` exactly when `end` is 8, or when `end-9` is a multiple of ten and the largest value is drawn |
| Columns.Start | column.py:76-94 | `start` leaves a started, empty line at the top with both counters cleared; its length obeys the same bounds and the same equality condition as `Columns.LineLenRange`; index, height and delay are kept and the invariant holds |
| Columns.End | column.py:96-99 | `end` stops the column and draws a delay in `[0, rows*10]`; no other field changes |
| Columns.Iter | column.py:170-199 | an idle column counts its delay down by one, and starts a fresh line of the drawn length once the delay is used up. A started line loses its top character exactly when `line_end > line_len` and grows exactly when `line_end < end`; the character appended is the drawn one; the column ends exactly when the line becomes empty; the returned flag is the new `started`; the invariant is preserved. The buffer of a started line drops its first character exactly when `line_end > line_len`, and has the drawn character appended exactly when `line_end < end`; nothing else in it changes |
| Columns.ChangeRandomCharacter | column.py:160-168 | fails with `ValueError` exactly when the buffer is empty; otherwise the buffer changes at the drawn position and nowhere else, the new character is from the pool, and no other field changes |
| Columns.WrapsLayers | column.py:116-142 | applying the head, middle and tail loops to one character, each only where it reaches, leaves the character as the text shown; the colours read back are exactly the wraps applied, outermost (tail) first |
| Columns.CellLayers | column.py:116-142 | a coloured cell shows its buffer character, is either that bare character or ends in a colour reset, and every colour around it comes from the three palettes |
| Columns.CellsShowBuffer | column.py:109-144 | every cell of `colored` shows the buffer character at its position, in palette colours |
| Columns.CellsFollowZones | column.py:116-142 | with the line clear of the bottom and at least 8 characters, the last four cells carry the head gradient bottom-up; cells between the tail and the head zone are wrapped only in colour 82; the `i`-th tail cell's outermost colour is the `i`-th tail colour counted from the end |
| Columns.WrapColor | column.py:101-144 | `colored` returns one cell per buffer character, exactly `Columns.Cells` (the three loops applied to that character), showing that character in palette colours and following the head, middle and tail zones. As a side effect, `iter_after_end` advances exactly when the line touches the bottom with fewer than four head steps done; `iter_after_line_len` advances by at most one, exactly under the program's condition; nothing else changes and the invariant is preserved |
| Lifecycle.Run | column.py:170-199 | any number of `iter` calls keep the invariant, the index and the height |
| Lifecycle.RunAppend | column.py:170-199 | running draws `a` and then draws `b` is running `a + b` |
| Lifecycle.FallingLine | column.py:181-191 | `k` ticks after a fresh line shorter than the column started, `line_end` (one past the newest character's row) is `min(k, end)` and `line_start` (the oldest character's row) is `max(0, k-1-line_len)` |
| Lifecycle.FreshLineEnds | column.py:181-191 | a fresh line shorter than the column stays started for exactly `end + line_len + 1` ticks, then the column ends |
| Lifecycle.LineDrained | column.py:190-191 | on tick `end + line_len + 1` of such a line, the last character has left and the column is ended |
| Lifecycle.FullLengthLineNeverEnds | column.py:181-191 | a line as long as the column is never trimmed: it stays started, its top stays at row 0, and its bottom stops at `end` |
| Lifecycle.Waiting | column.py:193-195 | for `k` ticks up to its delay, an idle column stays idle with delay `run_delay - k` |
| Lifecycle.Restarts | column.py:193-197 | an idle column is idle for ticks `0..run_delay`; on tick `run_delay + 1` it holds a fresh line whose length is drawn on that tick |
| Lifecycle.AsWrittenColumnNeverEnds | column.py:86-87 | on a 40-row terminal, a column that draws the largest length on restart stays started for every later tick, whatever is drawn afterwards |
| Lifecycle.CorrectedLineLen | column.py:86-87 | the corrected length is below `end`; it equals the program's length unless that length equals `end`, in which case it is `end - 1` |
| Lifecycle.StartCorrected | column.py:76-94 | `start` with the corrected length gives a fresh line strictly shorter than the column that satisfies the invariant; it differs from `start` only in the length |
| Lifecycle.CorrectedLineEnds | column.py:86-87 | with the corrected length, every line stays started for its first `end + line_len + 1` ticks and has ended on the next |
| Screens.Init | screen.py:17-26 | the screen has exactly `col_num` columns (none when `col_num` is not positive); the column at position `i` has index `i` and the screen's height, and is idle and empty with a delay in `[0, rows*10+100]`; the screen invariant holds when the terminal has at least 9 rows |
| Screens.Move | screen.py:55-69 | fails with `IndexError` exactly when the row exceeds the row count or the column exceeds the column count; otherwise it writes `Terminal.CursorTo`'s sequence, which moves the cursor to that row and column when both are non-negative, to the first row or column for -1, and is no cursor move below that |
| Screens.WriteRows | screen.py:75-77 | the loop succeeds exactly when no row is past the row count, the column is within the column count, and enough coloured cells exist. On success it writes the painting of those rows (`Screens.RowPaint`) |
| Screens.RowPaintRow | screen.py:75-77 | in the painting of `n` rows from `top`, write `2k` is the cursor sequence for row `top + k` of the column and write `2k+1` is cell `k` |
| Screens.WriteColumn | screen.py:72-77 | for a valid column it cannot fail. It reads `colored` once and writes the column's painting: for each visible row from `line_start` down, a cursor move onto that row of this column, then `colored`'s cell of that row, which shows the buffer's character. The cursor is moved only onto rows `[line_start, line_end)` of this column |
| Screens.RenderColumns | screen.py:98-100 | started columns have `colored` read once and idle ones are untouched. The writes are the paintings of the started columns, in column order, each with the cells `colored` returns (`FrameWrites` of `Paintings`). Valid columns cannot fail |
| Screens.FrameWritesSegment | screen.py:98-100 | the painting of started column `i` sits in the frame's writes right after those of the started columns before it |
| Screens.FrameWritesPaints | screen.py:98-100 | when each started column's painting moves the cursor only onto its own visible cells, the whole frame moves it only onto visible cells of started columns |
| Screens.NextIteration | screen.py:87-92 | every column, started or not, has `iter` applied once; the screen invariant is preserved |
| Screens.ImageRender | screen.py:94-101 | a frame of a valid screen cannot fail. It writes the clear sequence first, then the paintings of the columns started after the tick, in column order (`FrameWrites` of `Paintings`), two writes per visible cell. Each column ends up ticked and then read through `colored` if started. Only visible cells of started columns are painted, all inside the terminal, and the screen invariant is preserved |
| Screens.EveryVisibleCellPainted | screen.py:94-101 | in a frame such as `image_render` writes, every visible row of every started column is painted: the cursor is moved onto exactly that cell, and the next write is `colored`'s cell of that row, which shows the buffer's character |
| Screens.ChangeAll | screen.py:83-85 | fails with `ValueError` exactly when some started column is empty; otherwise each started column changes at its drawn position only, to a pool character, with no other field changed, and idle columns are untouched |
| Screens.ChangeColumnsCharacters | screen.py:79-85 | the same as `Screens.ChangeAll`, for the whole screen: `ValueError` exactly when some started column is empty; otherwise one pool character at each started column's drawn position, nothing else changed, and the screen invariant preserved |
| Screens.JustStartedColumnRejectsChange | screen.py:79-85 | when an idle column with delay 0 is ticked, the characters of the next screen cannot be changed: the freshly started column is empty and `ValueError` is raised |
| Screens.Clean | screen.py:103-107 | fails exactly when the terminal size is negative; otherwise it writes show-cursor, a move to the top-left corner, and clear |

## Left out

- The driver `cryterminal.py`: the timer thread, the 0.06 s sleep, the key
  press that stops it, and `exit`. Concurrency and time are outside the model.
- `os.get_terminal_size` is a parameter of `Screens.Init`; the size is never
  re-read, as in the program.
- `flush` and `render` only forward buffered output and write nothing of
  their own. `hide_cursor` is called only by the driver; the sequence it
  writes is the constant `Terminal.HideCursor`.
- The random number generator: its results are parameters restricted to the
  ranges `randint` and `choice` return. Nothing is said about their
  distribution.
- Terminals with fewer than 9 rows. There `start` calls `randint` with a
  negative upper bound and Python raises. A 9-row terminal (last row 8)
  is allowed: the float arithmetic there gives an upper bound of 0.
- Columns.Iter, Columns.WrapColor, Lifecycle.Run and Screens.NextIteration
  require the column invariant `Columns.Valid` (or the counter bounds it
  implies). Every column the constructor builds satisfies it, and every
  operation preserves it. States no constructor call can reach are not
  modelled.
- Screens.Painted: a started column whose counters were out of range would
  not be read through `colored`. No reachable column is in that state.
- Output written before an exception: the model returns `Fail` and drops
  the partial output.
- Screens.ChangeColumnsCharacters: when a started column is empty, the
  program has already changed the started columns before it in place before
  `ValueError` is raised. The model returns `Fail` without a screen, so it
  does not say what those columns hold afterwards.

## Findings

| source | as written | input that shows it | evidently intended | confidence | as-written member | corrected member |
|---|---|---|---|---|---|---|
| column.py:86-87 | The comment says the line length must never equal `_end`, but the formula allows it. It does when `_end - 9` is a multiple of ten and `randint` returns its upper bound, and always when `_end` is 8. Such a line is never trimmed, because `line_end > line_len` at column.py:182 cannot hold. It never drains, so that column never ends again. | A 40-row terminal (`_end` = 39) and a draw of 27. Or a 9-row terminal (`_end` = 8), where every draw gives length 8. | `line_len < _end`, so that every line drains and its column restarts | not executed | Lifecycle.AsWrittenColumnNeverEnds (with Columns.LineLenRange) | Lifecycle.StartCorrected, Lifecycle.CorrectedLineEnds |

`Columns.Iter` keeps the program's own rule, so the rest of the model stays
faithful to the code. `Lifecycle.StartCorrected` differs from `Columns.Start`
only in the length (its contract states this). Every lemma in `Lifecycle`
about lines shorter than the column applies to it.
