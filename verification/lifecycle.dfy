/** The life of one column over many ticks (`column.py:76-99`, `170-199`).

    A started line grows to its target length, scrolls, and drains off the
    bottom row; the column then ends, waits out its delay, and starts again.
    Also here: the line length `start` may draw equal to the last row, in
    which case the line never drains (see README, Findings), and the
    corrected rule that keeps it strictly shorter.
 */
module Lifecycle {
  import opened Columns

  predicate ValidDraws(rowNum: int, ds: seq<Draw>) {
    forall i :: 0 <= i < |ds| ==> ValidDraw(rowNum, ds[i])
  }

  /** The column after one `iter` call per draw, in order. */
  function Run(c: Column, ds: seq<Draw>): (r: Column)
    requires Valid(c) && ValidDraws(c.rowNum, ds)
    ensures Valid(r) && r.rowNum == c.rowNum && r.index == c.index
    decreases |ds|
  {
    if |ds| == 0 then c else Iter(Run(c, ds[..|ds| - 1]), ds[|ds| - 1]).column
  }

  /** Running a prefix of the draws and then the rest is running all of them. */
  lemma {:induction false} RunAppend(c: Column, a: seq<Draw>, b: seq<Draw>)
    requires Valid(c) && ValidDraws(c.rowNum, a) && ValidDraws(c.rowNum, b)
    ensures ValidDraws(c.rowNum, a + b)
    ensures Run(c, a + b) == Run(Run(c, a), b)
    decreases |b|
  {
    if |b| > 0 {
      var b' := b[..|b| - 1];
      assert (a + b)[..|a + b| - 1] == a + b';
      RunAppend(c, a, b');
    } else {
      assert a + b == a;
    }
  }

  /** Tick `k + 1` is one `iter` call on the column after `k` ticks. */
  lemma RunStep(c: Column, ds: seq<Draw>, k: int)
    requires Valid(c) && ValidDraws(c.rowNum, ds) && 0 < k <= |ds|
    ensures Run(c, ds[..k]) == Iter(Run(c, ds[..k - 1]), ds[k - 1]).column
  {
    assert ds[..k][..k - 1] == ds[..k - 1];
  }

  lemma RunNone(c: Column, ds: seq<Draw>)
    requires Valid(c) && ValidDraws(c.rowNum, ds)
    ensures Run(c, ds[..0]) == c
  {
    assert ds[..0] == [];
  }

  /** A line as `start` leaves it: started, empty, at the top. */
  predicate Fresh(c: Column) {
    c.started && c.lineStart == 0 && c.lineEnd == 0
  }

  function Min(a: int, b: int): int {
    if a < b then a else b
  }

  function Max(a: int, b: int): int {
    if a < b then b else a
  }

  /** Where a line shorter than the column is `k` ticks after it started: `line_end` is
      `min(k, end)` (the newest character is on the row above it) and `line_start`, the row
      of the oldest character, is `max(0, k - 1 - line_len)`. */
  predicate FallingAt(r: Column, lineLen: int, k: int) {
    && r.started
    && r.lineLen == lineLen
    && r.lineEnd == Min(k, r.Last())
    && r.lineStart == Max(0, k - 1 - lineLen)
  }

  lemma FallingStep(prev: Column, d: Draw, k: int)
    requires Valid(prev) && ValidDraw(prev.rowNum, d)
    requires prev.lineLen < prev.Last() && 0 <= k < prev.Last() + prev.lineLen
    requires FallingAt(prev, prev.lineLen, k)
    ensures FallingAt(Iter(prev, d).column, prev.lineLen, k + 1)
  {
  }

  /** One more tick of a falling line, stated on the run itself. */
  lemma FallingRunStep(c: Column, ds: seq<Draw>, k: int)
    requires Valid(c) && ValidDraws(c.rowNum, ds)
    requires c.lineLen < c.Last() && 0 < k <= |ds| && k < c.Last() + c.lineLen + 1
    requires FallingAt(Run(c, ds[..k - 1]), c.lineLen, k - 1)
    ensures FallingAt(Run(c, ds[..k]), c.lineLen, k)
  {
    var prev := Run(c, ds[..k - 1]);
    FallingStep(prev, ds[k - 1], k - 1);
    RunStep(c, ds, k);
  }

  /** The tick that drops the last character off the bottom row ends the column. */
  lemma LastStep(prev: Column, d: Draw)
    requires Valid(prev) && ValidDraw(prev.rowNum, d)
    requires prev.lineLen < prev.Last()
    requires FallingAt(prev, prev.lineLen, prev.Last() + prev.lineLen)
    ensures !Iter(prev, d).column.started
  {
  }

  /** While a line shorter than the column is falling, it is where `FallingAt` says. */
  lemma {:induction false} FallingLine(c: Column, ds: seq<Draw>, k: int)
    requires Valid(c) && Fresh(c) && ValidDraws(c.rowNum, ds)
    requires c.lineLen < c.Last()
    requires 0 <= k <= |ds| && k < c.Last() + c.lineLen + 1
    ensures FallingAt(Run(c, ds[..k]), c.lineLen, k)
  {
    if k == 0 {
      RunNone(c, ds);
    } else {
      FallingLine(c, ds, k - 1);
      FallingRunStep(c, ds, k);
    }
  }

  /** A fresh line shorter than the column calls `end` after exactly
      `end + line_len + 1` ticks, and not before. */
  lemma FreshLineEnds(c: Column, ds: seq<Draw>)
    requires Valid(c) && Fresh(c) && ValidDraws(c.rowNum, ds)
    requires c.lineLen < c.Last()
    requires |ds| >= c.Last() + c.lineLen + 1
    ensures forall k :: 0 <= k < c.Last() + c.lineLen + 1 ==> Run(c, ds[..k]).started
    ensures !Run(c, ds[..c.Last() + c.lineLen + 1]).started
  {
    forall k | 0 <= k < c.Last() + c.lineLen + 1
      ensures Run(c, ds[..k]).started
    {
      FallingLine(c, ds, k);
    }
    LineDrained(c, ds, c.Last() + c.lineLen + 1);
  }

  lemma LineDrained(c: Column, ds: seq<Draw>, n: int)
    requires Valid(c) && Fresh(c) && ValidDraws(c.rowNum, ds)
    requires c.lineLen < c.Last()
    requires n == c.Last() + c.lineLen + 1 && n <= |ds|
    ensures !Run(c, ds[..n]).started
  {
    FallingLine(c, ds, n - 1);
    var prev := Run(c, ds[..n - 1]);
    LastStep(prev, ds[n - 1]);
    RunStep(c, ds, n);
  }

  /** A line as long as the column is never trimmed, so it never drains and the
      column never ends. */
  lemma {:induction false} FullLengthLineNeverEnds(c: Column, ds: seq<Draw>, k: int)
    requires Valid(c) && Fresh(c) && ValidDraws(c.rowNum, ds)
    requires c.lineLen == c.Last()
    requires 0 <= k <= |ds|
    ensures Run(c, ds[..k]).started
    ensures Run(c, ds[..k]).lineLen == c.lineLen
    ensures Run(c, ds[..k]).lineStart == 0
    ensures Run(c, ds[..k]).lineEnd == Min(k, c.Last())
  {
    if k == 0 {
      RunNone(c, ds);
    } else {
      FullLengthLineNeverEnds(c, ds, k - 1);
      FullLengthRunStep(c, ds, k);
    }
  }

  /** One more tick of a line as long as the column, stated on the run itself. */
  lemma FullLengthRunStep(c: Column, ds: seq<Draw>, k: int)
    requires Valid(c) && ValidDraws(c.rowNum, ds)
    requires c.lineLen == c.Last() && 0 < k <= |ds|
    requires var r := Run(c, ds[..k - 1]);
             r.started && r.lineLen == c.lineLen && r.lineStart == 0 && r.lineEnd == Min(k - 1, c.Last())
    ensures var r := Run(c, ds[..k]);
            r.started && r.lineLen == c.lineLen && r.lineStart == 0 && r.lineEnd == Min(k, c.Last())
  {
    RunStep(c, ds, k);
  }

  /** An idle column counts its delay down one per tick. */
  lemma {:induction false} Waiting(c: Column, ds: seq<Draw>, k: int)
    requires Valid(c) && !c.started && ValidDraws(c.rowNum, ds)
    requires 0 <= k <= |ds| && k <= c.runDelay
    ensures !Run(c, ds[..k]).started
    ensures Run(c, ds[..k]).runDelay == c.runDelay - k
  {
    if k == 0 {
      RunNone(c, ds);
    } else {
      Waiting(c, ds, k - 1);
      RunStep(c, ds, k);
    }
  }

  /** An idle column starts a fresh line on exactly the tick after its delay
      runs out, with the line length drawn on that tick. */
  lemma Restarts(c: Column, ds: seq<Draw>)
    requires Valid(c) && !c.started && ValidDraws(c.rowNum, ds)
    requires |ds| > c.runDelay
    ensures forall k :: 0 <= k <= c.runDelay ==> !Run(c, ds[..k]).started
    ensures Fresh(Run(c, ds[..c.runDelay + 1]))
    ensures Run(c, ds[..c.runDelay + 1]).lineLen == LineLen(c.Last(), ds[c.runDelay].extra)
  {
    forall k | 0 <= k <= c.runDelay
      ensures !Run(c, ds[..k]).started
    {
      Waiting(c, ds, k);
    }
    var n := c.runDelay + 1;
    Waiting(c, ds, n - 1);
    RunStep(c, ds, n);
  }

  // ---------------------------------------------------------------------------
  // The line length may equal the last row (column.py:86-87, 182)
  // ---------------------------------------------------------------------------

  /** As written: on a 40-row terminal `start` can draw a line as long as the
      column (the last row is 39, the largest draw 27), and that column never
      ends again, whatever is drawn afterwards. */
  lemma AsWrittenColumnNeverEnds(c: Column, ds: seq<Draw>)
    requires Valid(c) && c.rowNum == 40 && !c.started && c.runDelay == 0
    requires ValidDraws(c.rowNum, ds) && |ds| > 0 && ds[0].extra == 27
    ensures forall k :: 0 < k <= |ds| ==> Run(c, ds[..k]).started
  {
    var s := Run(c, ds[..1]);
    RunNone(c, ds);
    RunStep(c, ds, 1);
    assert MaxExtra(c.Last()) == 27;
    assert s.lineLen == s.Last();
    forall k | 0 < k <= |ds|
      ensures Run(c, ds[..k]).started
    {
      var rest := ds[1..];
      assert ValidDraws(c.rowNum, ds[..1]);
      assert ds[..k] == ds[..1] + rest[..k - 1];
      RunAppend(c, ds[..1], rest[..k - 1]);
      FullLengthLineNeverEnds(s, rest, k - 1);
    }
  }

  /** The line length with the evident intent of `column.py:86` enforced: never as
      long as the column, so that the line detaches from the top before the
      bottom. */
  function CorrectedLineLen(last: int, extra: int): (r: int)
    requires last >= ColorsNum - 1 && 0 <= extra <= MaxExtra(last)
    ensures 0 <= r < last
    ensures r == LineLen(last, extra) || (r == last - 1 && LineLen(last, extra) == last)
  {
    LineLenRange(last, extra);
    var len := LineLen(last, extra);
    if len < last then len else last - 1
  }

  /** `start` with the corrected line length. */
  function StartCorrected(c: Column, extra: int): (r: Column)
    requires Valid(c) && 0 <= extra <= MaxExtra(c.Last())
    ensures Valid(r) && Fresh(r)
    ensures r.lineLen < r.Last()
    ensures r == Start(c, extra).(lineLen := r.lineLen)
  {
    Start(c, extra).(lineLen := CorrectedLineLen(c.Last(), extra))
  }

  /** With the corrected rule every line drains and its column ends, after exactly
      `end + line_len + 1` ticks. */
  lemma CorrectedLineEnds(c: Column, extra: int, ds: seq<Draw>)
    requires Valid(c) && 0 <= extra <= MaxExtra(c.Last()) && ValidDraws(c.rowNum, ds)
    requires |ds| >= c.Last() + StartCorrected(c, extra).lineLen + 1
    ensures forall k :: 0 <= k < c.Last() + StartCorrected(c, extra).lineLen + 1 ==>
              Run(StartCorrected(c, extra), ds[..k]).started
    ensures !Run(StartCorrected(c, extra), ds[..c.Last() + StartCorrected(c, extra).lineLen + 1]).started
  {
    FreshLineEnds(StartCorrected(c, extra), ds);
  }
}
