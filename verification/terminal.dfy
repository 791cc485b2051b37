/** The ANSI/VT control sequences the program writes, and parsers that read
    them back.

    The writers (`IntToString`, `Colorize`, `CursorTo`, the constant
    sequences) are what the program emits. The readers (`ParseInt`,
    `ParseColored`, `Layers`, `Plain`, `CursorTarget`) are independent
    definitions of what a terminal makes of those bytes; the round-trip
    lemmas connect the two.
 */
module Terminal {
  import opened Results

  /** The escape character that opens every control sequence. */
  const Esc: char := '\U{1B}'

  /** Erase the whole display (`screen.py:35`). */
  const ClearScreen: string := [Esc] + "[2J"
  /** Hide the cursor (`screen.py:41`). */
  const HideCursor: string := [Esc] + "[?25l"
  /** Show the cursor (`screen.py:47`). */
  const ShowCursor: string := [Esc] + "[?25h"
  /** Select a colour from the 256-colour palette; the number and `m` follow. */
  const ColorPrefix: string := [Esc] + "[38;5;"
  /** Restore the default colour. */
  const ColorReset: string := [Esc] + "[0m"

  predicate IsDigit(ch: char) {
    '0' <= ch <= '9'
  }

  predicate AllDigits(s: string) {
    forall i :: 0 <= i < |s| ==> IsDigit(s[i])
  }

  function DigitChar(d: int): (ch: char)
    requires 0 <= d < 10
    ensures IsDigit(ch)
  {
    (48 + d) as char
  }

  function DigitValue(ch: char): (d: int)
    requires IsDigit(ch)
    ensures 0 <= d < 10
  {
    ch as int - 48
  }

  /** Python's `str` of a non-negative integer: decimal, no leading zeros. */
  function NatToString(n: nat): (s: string)
    ensures |s| > 0 && AllDigits(s)
    decreases n
  {
    if n < 10 then [DigitChar(n)] else NatToString(n / 10) + [DigitChar(n % 10)]
  }

  /** Python's `str` of any integer: a minus sign before the digits when negative. */
  function IntToString(i: int): (s: string)
    ensures |s| > 0
    ensures forall k :: 0 <= k < |s| ==> IsDigit(s[k]) || (k == 0 && s[k] == '-')
    decreases if i < 0 then 1 else 0
  {
    if i < 0 then "-" + IntToString(-i) else NatToString(i)
  }

  /** The value of a string of decimal digits. */
  function ParseNat(s: string): nat
    requires AllDigits(s)
  {
    if |s| == 0 then 0 else ParseNat(s[..|s| - 1]) * 10 + DigitValue(s[|s| - 1])
  }

  /** Reads an optionally negative decimal integer; anything else is rejected. */
  function ParseInt(s: string): Option<int> {
    if |s| > 1 && s[0] == '-' && AllDigits(s[1..]) then Some(0 - ParseNat(s[1..]) as int)
    else if |s| > 0 && AllDigits(s) then Some(ParseNat(s))
    else None
  }

  lemma {:induction false} NatToStringRoundTrip(n: nat)
    ensures ParseNat(NatToString(n)) == n
    decreases n
  {
    var s := NatToString(n);
    if n < 10 {
      assert s[..|s| - 1] == [];
    } else {
      assert s[..|s| - 1] == NatToString(n / 10);
      NatToStringRoundTrip(n / 10);
    }
  }

  /** Reading back the decimal text of any integer gives that integer. */
  lemma IntToStringRoundTrip(i: int)
    ensures ParseInt(IntToString(i)) == Some(i)
  {
    if i < 0 {
      var s := IntToString(i);
      assert s == "-" + IntToString(-i) && IntToString(-i) == NatToString(-i);
      assert s[1..] == NatToString(-i);
      assert |s| > 1 && s[0] == '-' && AllDigits(s[1..]);
      NatToStringRoundTrip(-i);
    } else {
      NatToStringRoundTrip(i);
    }
  }

  /** The position of the first `ch` in `s`, or `|s|` when there is none. */
  function IndexOf(s: string, ch: char): (i: nat)
    ensures i <= |s|
    ensures i < |s| ==> s[i] == ch
    ensures forall j :: 0 <= j < i ==> s[j] != ch
  {
    if |s| == 0 then 0 else if s[0] == ch then 0 else 1 + IndexOf(s[1..], ch)
  }

  lemma IndexOfAfterFreePrefix(a: string, ch: char, b: string)
    requires forall k :: 0 <= k < |a| ==> a[k] != ch
    ensures IndexOf(a + [ch] + b, ch) == |a|
  {
    var s := a + [ch] + b;
    assert s[|a|] == ch;
    assert forall k :: 0 <= k < |a| ==> s[k] == a[k];
  }

  /** The bytes `colorize` writes, read back by `ParseColored`: the text and the colour. */
  lemma WrapperReadsBack(text: string, color: int)
    ensures ParseColored(ColorPrefix + IntToString(color) + "m" + text + ColorReset) == Some((text, color))
  {
    var digits := IntToString(color);
    var s := ColorPrefix + IntToString(color) + "m" + text + ColorReset;
    assert s == ColorPrefix + (digits + "m" + text) + ColorReset;
    assert s[..|ColorPrefix|] == ColorPrefix;
    assert s[|s| - |ColorReset|..] == ColorReset;
    var body := s[|ColorPrefix|..|s| - |ColorReset|];
    assert body == digits + ['m'] + text;
    IndexOfAfterFreePrefix(digits, 'm', text);
    assert body[..|digits|] == digits;
    assert body[|digits| + 1..] == text;
    IntToStringRoundTrip(color);
  }

  /** `colorize` (`column.py:146-158`): wrap `text` in a foreground colour and a reset.
      A terminal reading the result finds exactly `text` in colour `color`. */
  function Colorize(text: string, color: int): (r: string)
    ensures |r| > |text|
    ensures ParseColored(r) == Some((text, color))
  {
    WrapperReadsBack(text, color);
    ColorPrefix + IntToString(color) + "m" + text + ColorReset
  }

  /** A terminal's reading of one colour wrapper: the text inside and the colour number. */
  function ParseColored(s: string): (r: Option<(string, int)>)
    ensures r.Some? ==> |r.value.0| < |s|
  {
    if |s| < |ColorPrefix| + |ColorReset| then None
    else if s[..|ColorPrefix|] != ColorPrefix || s[|s| - |ColorReset|..] != ColorReset then None
    else
      var body := s[|ColorPrefix|..|s| - |ColorReset|];
      var p := IndexOf(body, 'm');
      if p == |body| then None
      else
        match ParseInt(body[..p])
        case None => None
        case Some(n) => Some((body[p + 1..], n))
  }

  /** Every colour a string is wrapped in, outermost first. */
  function Layers(s: string): seq<int>
    decreases |s|
  {
    match ParseColored(s)
    case None => []
    case Some(inner) => [inner.1] + Layers(inner.0)
  }

  /** What is left of a string once all its colour wrappers are removed. */
  function Plain(s: string): string
    decreases |s|
  {
    match ParseColored(s)
    case None => s
    case Some(inner) => Plain(inner.0)
  }

  /** Wrapping adds one colour on the outside and leaves the text untouched. */
  lemma ColorizeLayers(text: string, color: int)
    ensures Layers(Colorize(text, color)) == [color] + Layers(text)
    ensures Plain(Colorize(text, color)) == Plain(text)
  {
  }

  /** A single character carries no colour. */
  lemma CharLayers(ch: char)
    ensures Layers([ch]) == []
    ensures Plain([ch]) == [ch]
  {
  }

  /** A parameter of a cursor-position sequence as a 0-based position: decimal digits
      only, an empty or zero parameter meaning the first row or column (the default of
      CUP, section 8.3.21 of ECMA-48). A minus sign is not a parameter character. */
  function ParamPosition(p: string): (r: Option<int>)
    ensures r.Some? ==> r.value >= 0
  {
    if AllDigits(p) then Some(if ParseNat(p) == 0 then 0 else ParseNat(p) - 1) else None
  }

  /** A terminal's reading of a cursor-position sequence, as a 0-based (row, column). */
  function CursorTarget(s: string): Option<(int, int)> {
    if |s| < 3 || s[0] != Esc || s[1] != '[' || s[|s| - 1] != 'H' then None
    else
      var body := s[2..|s| - 1];
      var p := IndexOf(body, ';');
      if p == |body| then None
      else
        match (ParamPosition(body[..p]), ParamPosition(body[p + 1..]))
        case (Some(r), Some(c)) => Some((r, c))
        case _ => None
  }

  /** The 0-based position `str(n + 1)` names as a parameter: `n` itself when it is
      non-negative, the first position for -1 (parameter 0), nothing below that. */
  function Landing(n: int): Option<int> {
    if n >= 0 then Some(n) else if n == -1 then Some(0) else None
  }

  lemma ParamOfString(n: int)
    ensures ParamPosition(IntToString(n + 1)) == Landing(n)
  {
    if n + 1 >= 0 {
      NatToStringRoundTrip(n + 1);
    } else {
      assert IntToString(n + 1)[0] == '-';
    }
  }

  /** The bytes `move` writes, read back by `CursorTarget`. */
  lemma CursorSequenceReads(row: int, col: int)
    ensures CursorTarget([Esc] + "[" + IntToString(row + 1) + ";" + IntToString(col + 1) + "H") ==
              if Landing(row).Some? && Landing(col).Some? then Some((Landing(row).value, Landing(col).value)) else None
  {
    var r := IntToString(row + 1);
    var c := IntToString(col + 1);
    var s := [Esc] + "[" + IntToString(row + 1) + ";" + IntToString(col + 1) + "H";
    assert s == [Esc, '['] + (r + [';'] + c) + ['H'];
    var body := s[2..|s| - 1];
    assert body == r + [';'] + c;
    IndexOfAfterFreePrefix(r, ';', c);
    assert body[..|r|] == r;
    assert body[|r| + 1..] == c;
    ParamOfString(row);
    ParamOfString(col);
  }

  /** The cursor-position sequence of `move` (`screen.py:68-69`): 0-based in, 1-based on
      the wire. A terminal moves the cursor to exactly the row and column given when both
      are non-negative; -1 lands on the first row or column, and anything lower is not a
      cursor move at all. */
  function CursorTo(row: int, col: int): (r: string)
    ensures |r| > 3 && r[0] == Esc && r[|r| - 1] == 'H'
    ensures row >= 0 && col >= 0 ==> CursorTarget(r) == Some((row, col))
    ensures CursorTarget(r).Some? <==> row >= -1 && col >= -1
    ensures CursorTarget(r).Some? ==> CursorTarget(r).value == (if row < 0 then 0 else row, if col < 0 then 0 else col)
  {
    CursorSequenceReads(row, col);
    [Esc] + "[" + IntToString(row + 1) + ";" + IntToString(col + 1) + "H"
  }

  predicate EndsWith(s: string, suffix: string) {
    |suffix| <= |s| && s[|s| - |suffix|..] == suffix
  }

  /** Coloured text and single characters never move the cursor. */
  lemma NotACursorMove(s: string)
    requires |s| == 1 || EndsWith(s, ColorReset)
    ensures CursorTarget(s) == None
  {
    if |s| > 1 {
      assert s[|s| - 1] == ColorReset[|ColorReset| - 1];
    }
  }
}
