/** The text pipeline of the LCD: removing a character in place, splitting a text into lines,
    wrapping the lines, and placing the rows on the screen. */
module Lcd {
  import opened Strtok

  const MAX_STRING_SIZE: nat := 1024

  function Without(s: string, rm: char): string {
    if s == [] then [] else Without(s[..|s| - 1], rm) + (if s[|s| - 1] == rm then [] else [s[|s| - 1]])
  }

  lemma {:induction false} WithoutAppend(s: string, t: string, rm: char)
    ensures Without(s + t, rm) == Without(s, rm) + Without(t, rm)
  {
    if t == [] {
      assert s + t == s;
    } else {
      WithoutAppend(s, t[..|t| - 1], rm);
      assert (s + t)[..|s + t| - 1] == s + t[..|t| - 1];
    }
  }

  lemma {:induction false} WithoutHasOnly(s: string, rm: char)
    ensures forall c :: c in Without(s, rm) <==> c in s && c != rm
    ensures |Without(s, rm)| <= |s|
  {
    if s != [] {
      WithoutHasOnly(s[..|s| - 1], rm);
      assert s == s[..|s| - 1] + [s[|s| - 1]];
    }
  }

  /** The inner loop of remove_char: it passes over the characters to remove. */
  method SkipRemoved(text: array<char>, rm: char, from: nat, size: int) returns (j: nat, left: int)
    requires Terminated(text[..]) && rm != NUL && from < text.Length
    ensures from <= j < text.Length && text[j] != rm && left == size - (j - from)
    ensures forall k :: from <= k < j ==> text[k] == rm
  {
    j, left := from, size;
    while text[j] == rm
      invariant from <= j < text.Length && left == size - (j - from)
      invariant forall k :: from <= k < j ==> text[k] == rm
      decreases text.Length - j
    {
      j := j + 1;
      left := left - 1;
    }
  }

  lemma {:induction false} WithoutRun(s: string, from: nat, to: nat, rm: char)
    requires from <= to <= |s| && forall k :: from <= k < to ==> s[k] == rm
    ensures Without(s[..to], rm) == Without(s[..from], rm)
  {
    if from < to {
      WithoutRun(s, from, to - 1, rm);
      assert s[..to][..to - 1] == s[..to - 1];
    }
  }

  /** The first `j` characters of `was` are filtered into the first `i` of the text; behind the
      terminator, at `j == |was| + 1`, the terminator has been copied as well. */
  ghost predicate Filtered(text: string, was: string, i: nat, j: nat, rm: char) {
    if j <= |was| then i <= |text| && text[..i] == Without(was[..j], rm)
    else 0 < i <= |text| && text[..i - 1] == Without(was, rm)
  }

  lemma FilteredMore(text: string, was: string, i: nat, from: nat, j: nat, rm: char)
    requires i <= from <= j <= |was| && i <= |text| - 1 && j < |text| && Filtered(text, was, i, from, rm)
    requires forall k :: from <= k < j ==> was[k] == rm
    requires j < |was| ==> text[j] == was[j] && was[j] != rm
    ensures Filtered(text[i := text[j]], was, i + 1, j + 1, rm)
  {
    WithoutRun(was, from, j, rm);
    assert text[i := text[j]][..i] == text[..i];
    assert text[i := text[j]][..i + 1] == text[..i] + [text[j]];
    if j < |was| {
      assert was[..j + 1][..j] == was[..j];
    } else {
      assert was[..j] == was;
    }
  }

  /** The outer loop of remove_char, on a string `was` of length `n`. Its bound shrinks while
      the scan runs ahead of it, and the scan never passes the terminator. */
  method Compact(text: array<char>, rm: char, n: nat, ghost was: string) returns (size: int)
    requires Terminated(text[..]) && rm != NUL
    requires |was| == n < text.Length && text[..n] == was && text[n] == NUL
    modifies text
    ensures 0 <= size <= n && text[..size] == Without(was, rm)
    ensures forall k :: n <= k < text.Length ==> text[k] == old(text[k])
  {
    size := n;
    var i, j := 0, 0;
    while i < size
      invariant 0 <= i <= j <= n + 1 && size == n - (j - i)
      invariant forall k :: (j <= k || n <= k) && k < text.Length ==> text[k] == old(text[k])
      invariant Filtered(text[..], was, i, j, rm)
      decreases n + 1 - j
    {
      hide Without, Filtered;
      ghost var from, before := j, text[..];
      j, size := SkipRemoved(text, rm, j, size);
      FilteredMore(before, was, i, from, j, rm);
      text[i] := text[j];
      assert text[..] == before[i := before[j]];
      i := i + 1;
      j := j + 1;
    }
    assert was[..n] == was;
  }

  /** remove_char: filters the string in place and returns its new length. */
  method RemoveChar(text: array<char>, rm: char) returns (size: int)
    requires Terminated(text[..]) && rm != NUL
    modifies text
    ensures Terminated(text[..])
    ensures CString(text[..], 0) == Without(CString(old(text[..]), 0), rm)
    ensures size == |CString(text[..], 0)|
    ensures forall k :: |CString(old(text[..]), 0)| <= k < text.Length ==> text[k] == old(text[k])
  {
    hide CString;
    ghost var was := CString(text[..], 0);
    var n := |CString(text[..], 0)|;
    size := Compact(text, rm, n, was);
    WithoutHasOnly(was, rm);
    text[size] := NUL;
    assert text[..size] == Without(was, rm);
    CStringIs(text[..], 0, Without(was, rm));
  }

  // ---- Lines and rows ----

  function LineLength(s: string): (n: nat)
    ensures n <= |s| && '\n' !in s[..n]
    ensures n < |s| ==> s[n] == '\n'
  {
    if s == [] || s[0] == '\n' then 0 else 1 + LineLength(s[1..])
  }

  /** The non-empty lines of a text. */
  function Lines(s: string): seq<string>
    decreases |s|
  {
    if s == [] then []
    else if s[0] == '\n' then Lines(s[1..])
    else [s[..LineLength(s)]] + Lines(s[LineLength(s)..])
  }

  /** A row of `rest` may end after `j` characters: at a space, or at the end of the line. */
  predicate MayBreak(rest: string, j: nat) {
    0 < j <= |rest| && (rest[j - 1] == ' ' || j == |rest|)
  }

  /** The last place up to `m` where a row may end, or 0. */
  function LastBreak(rest: string, m: nat): (j: nat)
    ensures j <= m && (j > 0 ==> MayBreak(rest, j))
    ensures forall k :: j < k <= m ==> !MayBreak(rest, k)
  {
    if m == 0 || MayBreak(rest, m) then m else LastBreak(rest, m - 1)
  }

  /** How long the next row of `rest` is. */
  function RowLength(rest: string, lineSize: nat): (n: nat)
    requires rest != [] && lineSize > 0
    ensures 0 < n <= lineSize && n <= |rest|
  {
    var m := if lineSize < |rest| then lineSize else |rest|;
    var j := LastBreak(rest, m);
    if j > 0 then j else lineSize
  }

  function Wrap(line: string, lineSize: nat): seq<string>
    requires lineSize > 0
  {
    if line == [] then []
    else
      var n := RowLength(line, lineSize);
      [line[..n]] + Wrap(line[n..], lineSize)
  }

  function WrapAll(lines: seq<string>, lineSize: nat): seq<string>
    requires lineSize > 0
  {
    if lines == [] then [] else Wrap(lines[0], lineSize) + WrapAll(lines[1..], lineSize)
  }

  function Flatten(rows: seq<string>): string {
    if rows == [] then [] else rows[0] + Flatten(rows[1..])
  }

  lemma {:induction false} FlattenAppend(a: seq<string>, b: seq<string>)
    ensures Flatten(a + b) == Flatten(a) + Flatten(b)
  {
    if a == [] {
      assert a + b == b;
    } else {
      FlattenAppend(a[1..], b);
      assert (a + b)[1..] == a[1..] + b && (a + b)[0] == a[0];
      assert a[0] + (Flatten(a[1..]) + Flatten(b)) == a[0] + Flatten(a[1..]) + Flatten(b);
    }
  }

  /** `n` characters of `rest` are a proper row: all of them if they fit, or else as many as end
      with the last space of the window, or fill the window when it has none. */
  predicate ProperRow(rest: string, n: nat, lineSize: nat) {
    && 0 < n <= lineSize && n <= |rest|
    && if |rest| <= lineSize then n == |rest|
       else if ' ' in rest[..lineSize] then rest[n - 1] == ' ' && ' ' !in rest[n..lineSize]
       else n == lineSize
  }

  /** The rows are proper rows of the line, one after the other, and nothing else. */
  ghost predicate ProperRows(rows: seq<string>, line: string, lineSize: nat)
    decreases |rows|
  {
    if rows == [] then line == []
    else rows[0] <= line && ProperRow(line, |rows[0]|, lineSize) && ProperRows(rows[1..], line[|rows[0]|..], lineSize)
  }

  lemma RowLengthIsProper(rest: string, lineSize: nat, n: nat)
    requires rest != [] && lineSize > 0
    ensures ProperRow(rest, n, lineSize) <==> n == RowLength(rest, lineSize)
  {
    var m := if lineSize < |rest| then lineSize else |rest|;
    var j := LastBreak(rest, m);
    if |rest| > lineSize {
      forall k | j <= k < lineSize ensures rest[k] != ' ' { assert !MayBreak(rest, k + 1); }
      assert forall k :: j <= k < lineSize ==> rest[..lineSize][k] != ' ';
      if ' ' in rest[..lineSize] {
        assert j > 0;
        assert 0 < n < j ==> rest[n..lineSize][j - 1 - n] == ' ';
      }
    } else {
      assert MayBreak(rest, |rest|);
    }
    hide MayBreak, LastBreak;
  }

  /** A line has exactly one division into proper rows, and Wrap finds it. */
  lemma {:induction false} WrapIsTheProperDivision(line: string, lineSize: nat, rows: seq<string>)
    requires lineSize > 0
    ensures ProperRows(rows, line, lineSize) <==> rows == Wrap(line, lineSize)
    decreases |line|
  {
    if line != [] {
      var n := RowLength(line, lineSize);
      RowLengthIsProper(line, lineSize, n);
      if rows != [] {
        RowLengthIsProper(line, lineSize, |rows[0]|);
        WrapIsTheProperDivision(line[n..], lineSize, rows[1..]);
        assert rows[0] <= line && |rows[0]| == n ==> rows[0] == line[..n];
        assert rows == [rows[0]] + rows[1..];
      }
    } else if rows != [] {
      assert !ProperRow(line, |rows[0]|, lineSize);
    }
  }

  lemma {:induction false} WrapKeepsText(line: string, lineSize: nat)
    requires lineSize > 0
    ensures Flatten(Wrap(line, lineSize)) == line
    ensures forall r :: r in Wrap(line, lineSize) ==> 0 < |r| <= lineSize
    decreases |line|
  {
    if line != [] {
      var n := RowLength(line, lineSize);
      WrapKeepsText(line[n..], lineSize);
      assert line == line[..n] + line[n..];
    }
  }

  lemma {:induction false} WrapAllKeepsText(lines: seq<string>, lineSize: nat)
    requires lineSize > 0
    ensures Flatten(WrapAll(lines, lineSize)) == Flatten(lines)
    ensures forall r :: r in WrapAll(lines, lineSize) ==> 0 < |r| <= lineSize
  {
    if lines != [] {
      WrapKeepsText(lines[0], lineSize);
      WrapAllKeepsText(lines[1..], lineSize);
      FlattenAppend(Wrap(lines[0], lineSize), WrapAll(lines[1..], lineSize));
    }
  }

  lemma WithoutNone(s: string, rm: char)
    requires rm !in s
    ensures Without(s, rm) == s
  {
  }

  lemma {:induction false} LinesKeepText(s: string)
    ensures Flatten(Lines(s)) == Without(s, '\n')
    decreases |s|
  {
    if s != [] {
      var n := if s[0] == '\n' then 1 else LineLength(s);
      LinesKeepText(s[n..]);
      WithoutAppend(s[..n], s[n..], '\n');
      assert s == s[..n] + s[n..];
      if s[0] == '\n' {
        assert s[..1] == ['\n'] && s[..1][..0] == [];
      } else {
        WithoutNone(s[..n], '\n');
      }
    }
  }

  /** A text without line feeds is one line, unless it is empty. */
  lemma OneLine(s: string)
    requires '\n' !in s
    ensures Lines(s) == if s == [] then [] else [s]
  {
    if s != [] {
      assert LineLength(s) == |s|;
      assert s[..|s|] == s && s[|s|..] == [];
    }
  }

  lemma {:induction false} LineLengthBefore(s: string, t: string)
    requires t == [] || t[0] == '\n'
    ensures LineLength(s + t) == LineLength(s)
    decreases |s|
  {
    if s == [] {
      assert s + t == t;
    } else {
      assert (s + t)[0] == s[0] && (s + t)[1..] == s[1..] + t;
      LineLengthBefore(s[1..], t);
    }
  }

  lemma LinesFrom(s: string, n: nat)
    requires s != [] && s[0] != '\n' && n == LineLength(s)
    ensures 0 < n <= |s| && Lines(s) == [s[..n]] + Lines(s[n..])
  {
  }

  lemma Divided(s: string, t: string, n: nat)
    requires n <= |s|
    ensures (s + t)[..n] == s[..n] && (s + t)[n..] == s[n..] + t && (s != [] ==> (s + t)[0] == s[0])
  {
  }

  lemma Regroup(a: seq<string>, b: seq<string>, c: seq<string>)
    ensures a + (b + c) == a + b + c
  {
  }

  lemma {:induction false} LinesAcross(s: string, feed: string)
    requires feed != [] && feed[0] == '\n'
    ensures Lines(s + feed) == Lines(s) + Lines(feed[1..])
    decreases |s|
  {
    if s == [] {
      assert s + feed == feed;
    } else {
      var n := if s[0] == '\n' then 1 else LineLength(s);
      var head := if s[0] == '\n' then [] else [s[..n]];
      assert Lines(s) == head + Lines(s[n..]) && n > 0;
      hide Lines, LineLength;
      LinesBehind(s, feed, n, head);
      LinesAcross(s[n..], feed);
      Regroup(head, Lines(s[n..]), Lines(feed[1..]));
    }
  }

  /** The first line, or line feed, of a text that goes on with another line feed. */
  lemma LinesBehind(s: string, feed: string, n: nat, head: seq<string>)
    requires s != [] && feed != [] && feed[0] == '\n'
    requires if s[0] == '\n' then n == 1 && head == [] else 0 < n == LineLength(s) && head == [s[..n]]
    ensures Lines(s + feed) == head + Lines(s[n..] + feed)
  {
    Divided(s, feed, n);
    if s[0] != '\n' {
      LineLengthBefore(s, feed);
      LinesFrom(s + feed, n);
    }
  }

  /** Each line feed separates the lines in front of it from those behind it. With `OneLine`,
      this says what the lines of any text are. */
  lemma LinesSplitAtFeeds(s: string, t: string)
    ensures Lines(s + "\n" + t) == Lines(s) + Lines(t)
  {
    assert s + "\n" + t == s + ("\n" + t) && ("\n" + t)[1..] == t;
    LinesAcross(s, "\n" + t);
  }

  /** The rows show the whole text, in order, and nothing but the text. */
  lemma RowsKeepText(s: string, lineSize: nat)
    requires lineSize > 0
    ensures Flatten(WrapAll(Lines(s), lineSize)) == Without(s, '\n')
    ensures forall r :: r in WrapAll(Lines(s), lineSize) ==> 0 < |r| <= lineSize
  {
    WrapAllKeepsText(Lines(s), lineSize);
    LinesKeepText(s);
  }

  // ---- The screen ----

  /** A row drawn on the screen, and whether the screen was blank before it. */
  datatype Row = Row(line: nat, text: string, onBlank: bool)

  /** The line counter, and whether the screen is blank. */
  datatype Cursor = Cursor(line: nat, blank: bool)

  /** Where the next row goes: a screen that is full is cleared. */
  function ForNext(c: Cursor, numLines: nat): Cursor {
    if c.line >= numLines then Cursor(0, true) else c
  }

  /** The cursor behind a row. */
  function Below(c: Cursor, numLines: nat): Cursor {
    Cursor(ForNext(c, numLines).line + 1, false)
  }

  /** The rows, placed one below the other from the cursor on. */
  function Place(rows: seq<string>, c: Cursor, numLines: nat): seq<Row> {
    if rows == [] then []
    else
      var n := ForNext(c, numLines);
      [Row(n.line, rows[0], n.blank)] + Place(rows[1..], Below(c, numLines), numLines)
  }

  function CursorAfter(rows: seq<string>, c: Cursor, numLines: nat): Cursor {
    if rows == [] then c else CursorAfter(rows[1..], Below(c, numLines), numLines)
  }

  lemma {:induction false} PlaceAppend(a: seq<string>, b: seq<string>, c: Cursor, numLines: nat)
    ensures Place(a + b, c, numLines) == Place(a, c, numLines) + Place(b, CursorAfter(a, c, numLines), numLines)
    ensures CursorAfter(a + b, c, numLines) == CursorAfter(b, CursorAfter(a, c, numLines), numLines)
  {
    if a == [] {
      assert a + b == b;
    } else {
      assert (a + b)[1..] == a[1..] + b && (a + b)[0] == a[0];
      PlaceAppend(a[1..], b, Below(c, numLines), numLines);
    }
  }

  /** Every row is on the screen. */
  lemma {:induction false} PlacedOnScreen(rows: seq<string>, c: Cursor, numLines: nat)
    requires numLines > 0
    ensures forall r :: r in Place(rows, c, numLines) ==> r.line < numLines
    ensures |Place(rows, c, numLines)| == |rows|
    ensures forall k :: 0 <= k < |rows| ==> Place(rows, c, numLines)[k].text == rows[k]
  {
    if rows != [] {
      PlacedOnScreen(rows[1..], Below(c, numLines), numLines);
    }
  }

  /** The line that follows the row before `rows[k]`, or the line of the counter if that is the
      first. */
  function LineBelow(rows: seq<Row>, k: nat, line: nat): nat
    requires k < |rows|
  {
    if k == 0 then line else rows[k - 1].line + 1
  }

  /** Each row is on the line below the one before, or on line 0 if that is off the screen; the
      screen is cleared in front of exactly those rows that find it full. */
  ghost predicate OneBelowTheOther(rows: seq<Row>, line: nat, blank: bool, numLines: nat) {
    forall k :: 0 <= k < |rows| ==>
      && rows[k].line == (if LineBelow(rows, k, line) < numLines then LineBelow(rows, k, line) else 0)
      && (rows[k].onBlank <==> LineBelow(rows, k, line) >= numLines || (k == 0 && blank))
  }

  lemma {:induction false} PlacedOneBelowTheOther(rows: seq<string>, c: Cursor, numLines: nat)
    ensures OneBelowTheOther(Place(rows, c, numLines), c.line, c.blank, numLines)
  {
    if rows != [] {
      var rest := Place(rows[1..], Below(c, numLines), numLines);
      PlacedOneBelowTheOther(rows[1..], Below(c, numLines), numLines);
      var all := Place(rows, c, numLines);
      assert all[1..] == rest;
      hide Place;
      forall k | 0 < k < |all|
        ensures all[k].line == if LineBelow(all, k, c.line) < numLines then LineBelow(all, k, c.line) else 0
        ensures all[k].onBlank <==> LineBelow(all, k, c.line) >= numLines
      {
        assert all[k] == rest[k - 1] && LineBelow(all, k, c.line) == LineBelow(rest, k - 1, all[0].line + 1);
      }
    }
  }

  /** The counter ends one below the last row. */
  lemma {:induction false} CursorBelowLast(rows: seq<string>, c: Cursor, numLines: nat)
    ensures rows != [] ==> Place(rows, c, numLines) != []
    ensures CursorAfter(rows, c, numLines) ==
            if rows == [] then c else Cursor(Place(rows, c, numLines)[|Place(rows, c, numLines)| - 1].line + 1, false)
  {
    if rows != [] {
      CursorBelowLast(rows[1..], Below(c, numLines), numLines);
    }
  }

  lemma CStringTail(buf: seq<char>, p: nat)
    requires Terminated(buf) && p < |buf| && buf[p] != NUL
    ensures p + 1 < |buf| && CString(buf, p) == [buf[p]] + CString(buf, p + 1)
  {
  }

  lemma CStringChars(buf: seq<char>, p: nat)
    requires Terminated(buf) && p < |buf|
    ensures forall k :: p <= k < p + |CString(buf, p)| ==> buf[k] == CString(buf, p)[k - p] && buf[k] != NUL
  {
  }

  /** Where strtok stops is where the first line ends. */
  lemma StopIsLineEnd(buf: seq<char>, p: nat)
    requires Terminated(buf) && p < |buf|
    ensures Stop(buf, p, "\n") == p + LineLength(CString(buf, p))
  {
  }

  /** The text behind the first line end. */
  function Behind(s: string): (t: string)
    ensures |t| <= |s|
  {
    var rest := s[LineLength(s)..];
    if rest == [] then [] else rest[1..]
  }

  lemma LineToken(buf: seq<char>, p: nat, n: nat)
    requires Terminated(buf) && p < |buf| && buf[p] != '\n' && buf[p] != NUL
    requires n == LineLength(CString(buf, p))
    ensures n > 0
    ensures n < |CString(buf, p)| ==> Tokenize(buf, p, "\n") == Scan(buf[p + n := NUL], p + n + 1, p)
    ensures n == |CString(buf, p)| ==> Tokenize(buf, p, "\n") == Scan(buf, p + n, p)
  {
    StopIsLineEnd(buf, p);
    CStringChars(buf, p);
    assert Skip(buf, p, "\n") == p;
    hide CString;
  }

  /** A NUL written into a string ends it there, and another string starts behind it. */
  lemma CutString(buf: seq<char>, p: nat, n: nat)
    requires Terminated(buf) && p < |buf| && n < |CString(buf, p)|
    ensures CString(buf[p + n := NUL], p) == CString(buf, p)[..n]
    ensures CString(buf[p + n := NUL], p + n + 1) == CString(buf, p)[n + 1..]
  {
    var s := CString(buf, p);
    CStringChars(buf, p);
    hide CString;
    CStringIs(buf[p + n := NUL], p, s[..n]);
    CStringIs(buf[p + n := NUL], p + n + 1, s[n + 1..]);
  }

  /** The text with its first line cut off, the line being a C string of its own. */
  ghost predicate FirstLineCut(buf: seq<char>, p: nat, r: Scan)
    requires Terminated(buf) && p < |buf|
  {
    && r.token == p && p < r.next < |r.buf| && Terminated(r.buf)
    && CString(r.buf, p) == CString(buf, p)[..LineLength(CString(buf, p))]
    && CString(r.buf, r.next) == Behind(CString(buf, p))
  }

  lemma FirstOfMany(buf: seq<char>, p: nat, n: nat)
    requires Terminated(buf) && p < |buf| && 0 < n < |CString(buf, p)| && n == LineLength(CString(buf, p))
    ensures FirstLineCut(buf, p, Scan(buf[p + n := NUL], p + n + 1, p))
  {
    hide CString, LineLength;
    CutString(buf, p, n);
    assert CString(buf, p)[n..] != [] && CString(buf, p)[n..][1..] == CString(buf, p)[n + 1..];
  }

  lemma OnlyLine(buf: seq<char>, p: nat)
    requires Terminated(buf) && p < |buf| && 0 < LineLength(CString(buf, p)) == |CString(buf, p)|
    ensures FirstLineCut(buf, p, Scan(buf, p + |CString(buf, p)|, p))
  {
  }

  /** A line of the text becomes a C string of its own, and the scan goes on behind it. */
  lemma FirstLineEnds(buf: seq<char>, p: nat)
    requires Terminated(buf) && p < |buf| && buf[p] != '\n' && buf[p] != NUL
    ensures FirstLineCut(buf, p, Tokenize(buf, p, "\n"))
  {
    var n := LineLength(CString(buf, p));
    LineToken(buf, p, n);
    hide *;
    if n < |CString(buf, p)| {
      FirstOfMany(buf, p, n);
    } else {
      OnlyLine(buf, p);
    }
  }

  lemma LinesStep(s: string)
    requires s != [] && s[0] != '\n'
    ensures LineLength(s) > 0
    ensures Lines(s) == [s[..LineLength(s)]] + Lines(Behind(s))
  {
  }

  /** strtok takes the first line off the text. */
  lemma TokenIsFirstLine(buf: seq<char>, p: nat)
    requires Terminated(buf) && p < |buf|
    ensures Tokenize(buf, p, "\n").token < 0 ==> Lines(CString(buf, p)) == []
    ensures Tokenize(buf, p, "\n").token >= 0 ==>
      && Tokenize(buf, p, "\n").token < Tokenize(buf, p, "\n").next
      && CString(Tokenize(buf, p, "\n").buf, Tokenize(buf, p, "\n").token) != []
      && Lines(CString(buf, p)) ==
         [CString(Tokenize(buf, p, "\n").buf, Tokenize(buf, p, "\n").token)]
         + Lines(CString(Tokenize(buf, p, "\n").buf, Tokenize(buf, p, "\n").next))
    decreases |buf| - p
  {
    var s := CString(buf, p);
    if buf[p] == '\n' {
      CStringTail(buf, p);
      TokenIsFirstLine(buf, p + 1);
      assert Tokenize(buf, p, "\n") == Tokenize(buf, p + 1, "\n");
      hide CString, Tokenize;
      assert s[1..] == CString(buf, p + 1);
    } else if buf[p] != NUL {
      CStringTail(buf, p);
      hide CString, Tokenize, Skip, Stop;
      FirstLineEnds(buf, p);
      LinesStep(s);
    }
  }
}
