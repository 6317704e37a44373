/** Printing on the LCD: the formatted text is cleaned, split and wrapped in place, and its
    rows are drawn one below the other. */
module LcdScreen {
  import opened Strtok
  import opened Lcd

  /** vsnprintf keeps at most MAX_STRING_SIZE - 1 characters. */
  function Kept(text: string): (kept: string)
    ensures kept <= text && (if |text| < 1024 then kept == text else |kept| == 1023)
  {
    if |text| < MAX_STRING_SIZE then text else text[..MAX_STRING_SIZE - 1]
  }

  /** The zeroed buffer after vsnprintf. */
  function Formatted(text: string): (buf: seq<char>)
    ensures |buf| == MAX_STRING_SIZE && Terminated(buf)
  {
    Kept(text) + seq(MAX_STRING_SIZE - |Kept(text)|, i => NUL)
  }

  /** The text that reaches the screen, before it is split. */
  function Shown(text: string): string {
    Without(CString(Formatted(text), 0), '\r')
  }

  lemma ShownIsKept(text: string)
    requires NUL !in text
    ensures Shown(text) == Without(Kept(text), '\r')
  {
  }

  /** The rows printed for a text. */
  function RowsOf(text: string, lineSize: nat): seq<string>
    requires lineSize > 0
  {
    WrapAll(Lines(Shown(text)), lineSize)
  }

  /** What fits into the buffer is shown whole and in order, in rows of proper length that lie
      on the screen. */
  lemma PrintsTheText(text: string, lineSize: nat, cur: Cursor, numLines: nat)
    requires NUL !in text && lineSize > 0 && numLines > 0
    ensures var rows := Place(RowsOf(text, lineSize), cur, numLines);
      && Flatten(seq(|rows|, k requires 0 <= k < |rows| => rows[k].text)) == Without(Without(Kept(text), '\r'), '\n')
      && forall r :: r in rows ==> r.line < numLines && 0 < |r.text| <= lineSize
  {
    var texts := RowsOf(text, lineSize);
    var rows := Place(texts, cur, numLines);
    ShownIsKept(text);
    RowsKeepText(Shown(text), lineSize);
    PlacedOnScreen(texts, cur, numLines);
    assert seq(|rows|, k requires 0 <= k < |rows| => rows[k].text) == texts;
    forall r | r in rows ensures 0 < |r.text| <= lineSize {
      var k :| 0 <= k < |rows| && rows[k] == r;
      assert r.text == texts[k];
    }
  }

  lemma NothingFormatted(lineSize: nat)
    requires lineSize > 0
    ensures RowsOf([], lineSize) == []
  {
  }

  /** One break of a line that is longer than a row. */
  lemma WrapStep(s: string, i: nat, lineSize: nat, n: nat)
    requires i < |s| && lineSize > 0 && n == RowLength(s[i..], lineSize)
    ensures Wrap(s[i..], lineSize) == [s[i..i + n]] + Wrap(s[i + n..], lineSize)
  {
    assert s[i..][..n] == s[i..i + n] && s[i..][n..] == s[i + n..];
  }

  lemma WrapNothing(lineSize: nat)
    requires lineSize > 0
    ensures Wrap([], lineSize) == [] && WrapAll([], lineSize) == []
  {
  }

  lemma ShortLine(s: string, lineSize: nat)
    requires 0 < |s| <= lineSize
    ensures Wrap(s, lineSize) == [s]
  {
    assert MayBreak(s, |s|);
    assert s[..|s|] == s && s[|s|..] == [];
  }

  /** A place where the scan may break, in terms of the buffer. */
  lemma BreakInBuffer(buf: seq<char>, line: nat, i: nat, j: nat)
    requires Terminated(buf) && line < |buf|
    requires 0 < j && i + j <= |CString(buf, line)|
    ensures MayBreak(CString(buf, line)[i..], j) <==> buf[line + i + j - 1] == ' ' || buf[line + i + j] == NUL
  {
  }

  /** A string read from its middle on. */
  lemma StringFrom(buf: seq<char>, line: nat, i: nat)
    requires Terminated(buf) && line < |buf| && i <= |CString(buf, line)|
    ensures line + i < |buf| && CString(buf, line + i) == CString(buf, line)[i..]
  {
  }

  /** A token ends where the next call goes on, or before. */
  lemma TokenEnds(buf: seq<char>, p: nat)
    requires Terminated(buf) && p < |buf| && Tokenize(buf, p, "\n").token >= 0
    ensures var r := Tokenize(buf, p, "\n"); r.token + |CString(r.buf, r.token)| <= r.next
  {
    var r := Tokenize(buf, p, "\n");
    var e := Stop(buf, r.token, "\n");
    assert r.buf[e] == NUL && e <= r.next;
    CStringChars(r.buf, r.token);
  }

  /** What is left to print: the line at `line` and the lines behind `next`, none if there is
      no line. */
  ghost function Left(buf: seq<char>, line: int, next: nat): seq<string>
    requires Terminated(buf) && line < |buf| && next < |buf|
  {
    if line < 0 then [] else [CString(buf, line)] + Lines(CString(buf, next))
  }

  lemma LeftAfterToken(buf: seq<char>, p: nat)
    requires Terminated(buf) && p < |buf|
    ensures var r := Tokenize(buf, p, "\n"); Left(r.buf, r.token, r.next) == Lines(CString(buf, p))
    ensures var r := Tokenize(buf, p, "\n"); r.token >= 0 ==> CString(r.buf, r.token) != []
  {
    TokenIsFirstLine(buf, p);
  }

  lemma WrapAllStep(line: string, rest: seq<string>, lineSize: nat)
    requires lineSize > 0
    ensures WrapAll([line] + rest, lineSize) == Wrap(line, lineSize) + WrapAll(rest, lineSize)
  {
  }

  lemma LeftNothing(buf: seq<char>, line: int, next: nat, lineSize: nat)
    requires Terminated(buf) && line < 0 && next < |buf| && lineSize > 0
    ensures WrapAll(Left(buf, line, next), lineSize) == []
  {
  }

  /** A token, if there is one, is not empty and lies before `next`. */
  ghost predicate TokenFits(buf: seq<char>, line: int, next: nat)
    requires Terminated(buf) && line < |buf|
  {
    line >= 0 ==> CString(buf, line) != [] && line + |CString(buf, line)| <= next
  }

  lemma NextFits(buf: seq<char>, p: nat)
    requires Terminated(buf) && p < |buf|
    ensures var r := Tokenize(buf, p, "\n"); TokenFits(r.buf, r.token, r.next)
  {
    LeftAfterToken(buf, p);
    if Tokenize(buf, p, "\n").token >= 0 {
      TokenEnds(buf, p);
    }
  }

  lemma LeftAtFirst(buf: seq<char>, lineSize: nat)
    requires Terminated(buf) && lineSize > 0
    ensures var r := Tokenize(buf, 0, "\n");
      && WrapAll(Left(r.buf, r.token, r.next), lineSize) == WrapAll(Lines(CString(buf, 0)), lineSize)
      && TokenFits(r.buf, r.token, r.next)
  {
    LeftAfterToken(buf, 0);
    NextFits(buf, 0);
  }

  /** What is left after the line at hand is printed and the next token is taken. */
  lemma LeftStep(buf: seq<char>, line: nat, next: nat, lineSize: nat)
    requires Terminated(buf) && line < |buf| && next < |buf| && lineSize > 0 && TokenFits(buf, line, next)
    ensures CString(buf, line) != [] && line + |CString(buf, line)| <= next
    ensures var r := Tokenize(buf, next, "\n");
      && WrapAll(Left(buf, line, next), lineSize) ==
         Wrap(CString(buf, line), lineSize) + WrapAll(Left(r.buf, r.token, r.next), lineSize)
      && |Left(r.buf, r.token, r.next)| < |Left(buf, line, next)|
      && TokenFits(r.buf, r.token, r.next)
  {
    LeftAfterToken(buf, next);
    WrapAllStep(CString(buf, line), Lines(CString(buf, next)), lineSize);
    NextFits(buf, next);
    hide CString, Tokenize, Lines, Wrap, WrapAll;
  }

  /** A screen that is full may as well be cleared before the next row asks for it. */
  lemma ClearedEarly(rows: seq<string>, c: Cursor, numLines: nat)
    requires rows != [] && numLines > 0
    ensures Place(rows, ForNext(c, numLines), numLines) == Place(rows, c, numLines)
    ensures CursorAfter(rows, ForNext(c, numLines), numLines) == CursorAfter(rows, c, numLines)
  {
  }

  /** The screen after some rows were printed. */
  ghost predicate Printed(was: seq<Row>, from: Cursor, rows: seq<Row>, to: Cursor, texts: seq<string>, numLines: nat) {
    rows == was + Place(texts, from, numLines) && to == CursorAfter(texts, from, numLines)
  }

  lemma PrintedNothing(was: seq<Row>, from: Cursor, numLines: nat)
    ensures Printed(was, from, was, from, [], numLines)
  {
  }

  lemma PrintedBoth(r0: seq<Row>, c0: Cursor, r1: seq<Row>, c1: Cursor, r2: seq<Row>, c2: Cursor,
                    a: seq<string>, b: seq<string>, numLines: nat)
    requires Printed(r0, c0, r1, c1, a, numLines) && Printed(r1, c1, r2, c2, b, numLines)
    ensures Printed(r0, c0, r2, c2, a + b, numLines)
  {
    PlaceAppend(a, b, c0, numLines);
    hide Place, CursorAfter;
    var p, q := Place(a, c0, numLines), Place(b, c1, numLines);
    assert r0 + p + q == r0 + (p + q);
  }

  /** Printed rows stand one below the other. */
  lemma PrintedInOrder(was: seq<Row>, from: Cursor, rows: seq<Row>, to: Cursor, texts: seq<string>, numLines: nat)
    requires Printed(was, from, rows, to, texts, numLines) && numLines > 0
    ensures was <= rows && |rows| == |was| + |texts|
    ensures OneBelowTheOther(rows[|was|..], from.line, from.blank, numLines)
    ensures to == if texts == [] then from else Cursor(rows[|rows| - 1].line + 1, false)
  {
    PlacedOneBelowTheOther(texts, from, numLines);
    CursorBelowLast(texts, from, numLines);
    PlacedOnScreen(texts, from, numLines);
    assert rows[|was|..] == Place(texts, from, numLines);
    hide Place, CursorAfter, OneBelowTheOther;
  }

  /** The rows of `all` that are printed when `left` is still to come. */
  ghost predicate Splits(done: seq<string>, left: seq<string>, all: seq<string>) {
    done + left == all
  }

  /** One more row or line is printed. */
  lemma PrintedMore(r0: seq<Row>, c0: Cursor, r1: seq<Row>, c1: Cursor, r2: seq<Row>, c2: Cursor,
                    done: seq<string>, more: seq<string>, left: seq<string>, all: seq<string>, numLines: nat)
    requires Printed(r0, c0, r1, c1, done, numLines) && Printed(r1, c1, r2, c2, more, numLines)
    requires Splits(done, more + left, all)
    ensures Printed(r0, c0, r2, c2, done + more, numLines) && Splits(done + more, left, all)
  {
    PrintedBoth(r0, c0, r1, c1, r2, c2, done, more, numLines);
    assert done + (more + left) == done + more + left;
  }

  lemma SplitsAtFirst(all: seq<string>)
    ensures Splits([], all, all)
  {
  }

  lemma PrintedAll(done: seq<string>, all: seq<string>)
    requires Splits(done, [], all)
    ensures done == all
  {
  }

  class Screen {
    const lineSize: nat
    const numLines: nat
    var curLine: nat
    /** The rows drawn so far, and whether the screen has been blank since it was last cleared. */
    ghost var rows: seq<Row>
    ghost var blank: bool

    ghost function Cur(): Cursor
      reads this
    {
      Cursor(curLine, blank)
    }

    ghost predicate Valid()
      reads this
    {
      lineSize > 0 && 0 < numLines < 256 && curLine < 256
    }

    constructor (lineSize: nat, numLines: nat)
      requires lineSize > 0 && 0 < numLines < 256
      ensures Valid() && this.lineSize == lineSize && this.numLines == numLines && curLine == 0 && rows == [] && blank
    {
      this.lineSize, this.numLines := lineSize, numLines;
      curLine, rows, blank := 0, [], true;
    }

    method CleanScreen()
      requires Valid()
      modifies this`curLine, this`blank
      ensures Valid() && curLine == 0 && blank
    {
      curLine, blank := 0, true;
    }

    /** lcd_puts, on the C string at `at`; the line counter is one byte wide. */
    method LcdPuts(text: array<char>, at: nat)
      requires Valid() && Terminated(text[..]) && at < text.Length
      modifies this`curLine, this`blank, this`rows
      ensures Valid() && curLine == (old(curLine) + 1) % 256 && !blank
      ensures rows == old(rows) + [Row(old(curLine), CString(text[..], at), old(blank))]
    {
      rows := rows + [Row(curLine, CString(text[..], at), blank)];
      curLine, blank := (curLine + 1) % 256, false;
    }

    /** A row at the next place on the screen. */
    method PutRow(text: array<char>, at: nat)
      requires Valid() && Terminated(text[..]) && at < text.Length
      modifies this`curLine, this`blank, this`rows
      ensures Valid()
      ensures Printed(old(rows), old(Cur()), rows, Cur(), [CString(text[..], at)], numLines)
    {
      if curLine >= numLines {
        CleanScreen();
      }
      LcdPuts(text, at);
    }

    /** The innermost loop: the last break in the window, or the stale `lastSpace`. */
    method FindBreak(buf: array<char>, line: nat, lineLen: nat, i: nat, lastSpace: int) returns (last: int)
      requires Valid() && Terminated(buf[..]) && line < buf.Length
      requires lineLen == |CString(buf[..], line)| && i < lineLen && lastSpace <= line + i
      ensures var rest := CString(buf[..], line)[i..];
        var j := LastBreak(rest, if lineSize < |rest| then lineSize else |rest|);
        last == if j > 0 then line + i + j else lastSpace
    {
      ghost var rest := CString(buf[..], line)[i..];
      last := lastSpace;
      var m := if lineSize < lineLen - i then lineSize else lineLen - i;
      var j := 1;
      while j <= m
        invariant 1 <= j <= m + 1
        invariant last == if LastBreak(rest, j - 1) > 0 then line + i + LastBreak(rest, j - 1) else lastSpace
      {
        BreakInBuffer(buf[..], line, i, j);
        if buf[line + i + j - 1] == ' ' || buf[line + i + j] == NUL {
          last := line + i + j;
        }
        j := j + 1;
      }
    }

    /** bzero and strncpy: the `n` characters from `from` on become a C string of their own. */
    method CopyRow(lineBuf: array<char>, buf: array<char>, from: nat, n: nat)
      requires Valid() && lineBuf != buf && lineBuf.Length == lineSize + 1 && n <= lineSize
      requires Terminated(buf[..]) && from < buf.Length && n <= |CString(buf[..], from)|
      modifies lineBuf
      ensures Terminated(lineBuf[..]) && CString(lineBuf[..], 0) == CString(buf[..], from)[..n]
    {
      CStringChars(buf[..], from);
      ghost var s := CString(buf[..], from);
      hide CString;
      for k := 0 to lineBuf.Length
        invariant forall h :: 0 <= h < k ==> lineBuf[h] == NUL
      {
        lineBuf[k] := NUL;
      }
      for k := 0 to n
        invariant forall h :: 0 <= h < k ==> lineBuf[h] == s[h]
        invariant forall h :: k <= h < lineBuf.Length ==> lineBuf[h] == NUL
        invariant buf[..] == old(buf[..])
      {
        lineBuf[k] := buf[from + k];
      }
      CStringIs(lineBuf[..], 0, s[..n]);
    }

    /** One row of a line `s` that is too long, from position `i` of the line on. */
    method WrapRow(lineBuf: array<char>, buf: array<char>, line: nat, ghost s: string, i: nat, lineLen: nat,
                   lastSpace: int)
      returns (last: int, next: nat)
      requires Valid() && lineBuf != buf && lineBuf.Length == lineSize + 1
      requires Terminated(buf[..]) && line < buf.Length && CString(buf[..], line) == s
      requires i < lineLen == |s| && lastSpace <= line + i
      modifies lineBuf, this`curLine, this`blank, this`rows
      ensures Valid() && last <= line + next && next == i + RowLength(s[i..], lineSize)
      ensures Printed(old(rows), old(Cur()), rows, Cur(), [s[i..next]], numLines)
    {
      hide CString, Place, CursorAfter, LastBreak;
      StringFrom(buf[..], line, i);
      last := FindBreak(buf, line, lineLen, i, lastSpace);
      var spaceIdx := last - (line + i);
      var n := if spaceIdx > 0 then spaceIdx else lineSize;
      assert n == RowLength(s[i..], lineSize);
      hide RowLength, Wrap, Printed;
      CopyRow(lineBuf, buf, line + i, n);
      assert s[i..][..n] == s[i..i + n];
      PutRow(lineBuf, 0);
      next := i + n;
    }

    /** The middle loop: a line that is longer than a row. */
    method WrapLine(lineBuf: array<char>, buf: array<char>, line: nat, lineLen: nat, lastSpace: int) returns (last: int)
      requires Valid() && lineBuf != buf && lineBuf.Length == lineSize + 1
      requires Terminated(buf[..]) && line < buf.Length && lineLen == |CString(buf[..], line)|
      requires lastSpace <= line
      modifies lineBuf, this`curLine, this`blank, this`rows
      ensures Valid() && last <= line + lineLen
      ensures Printed(old(rows), old(Cur()), rows, Cur(), Wrap(CString(buf[..], line), lineSize), numLines)
    {
      ghost var s := CString(buf[..], line);
      ghost var done, left := [], Wrap(s, lineSize);
      ghost var text := buf[..];
      var i := 0;
      last := lastSpace;
      assert s[0..] == s && Splits(done, left, left);
      PrintedNothing(rows, Cur(), numLines);
      hide *;
      while i < lineLen
        invariant Valid() && i <= lineLen && last <= line + i && buf[..] == text
        invariant Printed(old(rows), old(Cur()), rows, Cur(), done, numLines)
        invariant left == Wrap(s[i..], lineSize) && Splits(done, left, Wrap(s, lineSize))
      {
        hide *;
        ghost var from, r, c := i, rows, Cur();
        last, i := WrapRow(lineBuf, buf, line, s, i, lineLen, last);
        WrapStep(s, from, lineSize, i - from);
        left := Wrap(s[i..], lineSize);
        PrintedMore(old(rows), old(Cur()), r, c, rows, Cur(),
                    done, [s[from..i]], left, Wrap(s, lineSize), numLines);
        done := done + [s[from..i]];
      }
      assert s[i..] == [];
      WrapNothing(lineSize);
      PrintedAll(done, Wrap(s, lineSize));
    }

    /** The body of the outer loop: one line of the text. */
    method PrintLine(lineBuf: array<char>, buf: array<char>, line: nat, lastSpace: int) returns (last: int)
      requires Valid() && lineBuf != buf && lineBuf.Length == lineSize + 1
      requires Terminated(buf[..]) && line < buf.Length && CString(buf[..], line) != [] && lastSpace <= line
      modifies lineBuf, this`curLine, this`blank, this`rows
      ensures Valid() && last <= line + |CString(buf[..], line)|
      ensures Printed(old(rows), old(Cur()), rows, Cur(), Wrap(CString(buf[..], line), lineSize), numLines)
    {
      ghost var wrapped := Wrap(CString(buf[..], line), lineSize);
      var lineLen := |CString(buf[..], line)|;
      last := lastSpace;
      ClearedEarly(wrapped, Cur(), numLines);
      hide CString, Place, CursorAfter, Wrap;
      if curLine >= numLines {
        CleanScreen();
      }
      if lineLen > lineSize {
        last := WrapLine(lineBuf, buf, line, lineLen, lastSpace);
      } else {
        ShortLine(CString(buf[..], line), lineSize);
        PutRow(buf, line);
      }
    }

    /** lcd_printf, from the formatted text on: it draws exactly the rows of the text, one
        below the other, starting a fresh screen whenever one is full. */
    method LcdPrintf(text: string)
      requires Valid()
      modifies this`curLine, this`blank, this`rows
      ensures Valid()
      ensures Printed(old(rows), old(Cur()), rows, Cur(), RowsOf(text, lineSize), numLines)
      ensures old(rows) <= rows && OneBelowTheOther(rows[|old(rows)|..], old(curLine), old(blank), numLines)
      ensures (Cur() == if |rows| == |old(rows)| then old(Cur()) else Cursor(rows[|rows| - 1].line + 1, false))
    {
      if text == [] {
        NothingFormatted(lineSize);
        PrintedNothing(rows, Cur(), numLines);
      } else {
        hide *;
        var buf := Prepare(text);
        PrintShown(buf, text);
      }
      PrintedInOrder(old(rows), old(Cur()), rows, Cur(), RowsOf(text, lineSize), numLines);
      hide *;
    }

    /** The formatted text in its buffer, without carriage returns. */
    method Prepare(text: string) returns (buf: array<char>)
      ensures fresh(buf) && Terminated(buf[..]) && CString(buf[..], 0) == Shown(text)
    {
      hide Without, CString;
      var formatted := Formatted(text);
      hide Formatted;
      buf := new char[MAX_STRING_SIZE](i requires 0 <= i < MAX_STRING_SIZE => formatted[i]);
      assert buf[..] == formatted;
      var _ := RemoveChar(buf, '\r');
    }

    /** One round of the outer loop: print the line, then take the next. */
    method PrintAndScan(lineBuf: array<char>, t: Tokenizer, line: nat, lastSpace: int) returns (last: int, next: int)
      requires Valid() && lineBuf != t.buf && lineBuf.Length == lineSize + 1
      requires Terminated(t.buf[..]) && line < t.buf.Length && t.next < t.buf.Length && lastSpace <= line
      requires TokenFits(t.buf[..], line, t.next)
      modifies lineBuf, t.buf, t`next, this`curLine, this`blank, this`rows
      ensures Valid() && Terminated(t.buf[..]) && next < t.buf.Length && t.next < t.buf.Length
      ensures (last <= next || next < 0) && TokenFits(t.buf[..], next, t.next)
      ensures Printed(old(rows), old(Cur()), rows, Cur(), Wrap(CString(old(t.buf[..]), line), lineSize), numLines)
      ensures (old(WrapAll(Left(t.buf[..], line, t.next), lineSize))
        == Wrap(CString(old(t.buf[..]), line), lineSize) + WrapAll(Left(t.buf[..], next, t.next), lineSize))
      ensures |Left(t.buf[..], next, t.next)| < old(|Left(t.buf[..], line, t.next)|)
    {
      hide CString, Tokenize, Lines, Wrap, WrapAll, Printed, Left, TokenFits;
      LeftStep(t.buf[..], line, t.next, lineSize);
      last := PrintLine(lineBuf, t.buf, line, lastSpace);
      next := t.Strtok(-1, "\n");
    }

    /** The outer loop, from its first token on. */
    method PrintLines(t: Tokenizer, first: int)
      requires Valid() && Terminated(t.buf[..]) && first < t.buf.Length && t.next < t.buf.Length
      requires TokenFits(t.buf[..], first, t.next)
      modifies t.buf, t`next, this`curLine, this`blank, this`rows
      ensures Valid()
      ensures Printed(old(rows), old(Cur()), rows, Cur(),
                      old(WrapAll(Left(t.buf[..], first, t.next), lineSize)), numLines)
    {
      hide CString, Tokenize, Lines, Wrap, WrapAll, Shown, Printed, Left, Splits, TokenFits, RowsOf, Terminated;
      var line, lastSpace := first, first;
      var lineBuf := new char[lineSize + 1];
      ghost var done, rest := [], Left(t.buf[..], line, t.next);
      ghost var all := WrapAll(rest, lineSize);
      PrintedNothing(rows, Cur(), numLines);
      SplitsAtFirst(all);
      while line >= 0
        invariant Valid() && Terminated(t.buf[..]) && line < t.buf.Length && t.next < t.buf.Length
        invariant lastSpace <= line || line < 0
        invariant Printed(old(rows), old(Cur()), rows, Cur(), done, numLines)
        invariant rest == Left(t.buf[..], line, t.next) && Splits(done, WrapAll(rest, lineSize), all)
        invariant TokenFits(t.buf[..], line, t.next)
        decreases |rest|
      {
        hide *;
        ghost var r, c, here := rows, Cur(), CString(t.buf[..], line);
        lastSpace, line := PrintAndScan(lineBuf, t, line, lastSpace);
        rest := Left(t.buf[..], line, t.next);
        PrintedMore(old(rows), old(Cur()), r, c, rows, Cur(),
                    done, Wrap(here, lineSize), WrapAll(rest, lineSize), all, numLines);
        done := done + Wrap(here, lineSize);
      }
      LeftNothing(t.buf[..], line, t.next, lineSize);
      PrintedAll(done, all);
    }

    method PrintShown(buf: array<char>, ghost text: string)
      requires Valid() && Terminated(buf[..]) && CString(buf[..], 0) == Shown(text)
      modifies buf, this`curLine, this`blank, this`rows
      ensures Valid()
      ensures Printed(old(rows), old(Cur()), rows, Cur(), RowsOf(text, lineSize), numLines)
    {
      LeftAtFirst(buf[..], lineSize);
      hide CString, Tokenize, Lines, Wrap, WrapAll, Shown, Printed, Left, TokenFits, Terminated;
      var t := new Tokenizer(buf);
      var first := t.Strtok(0, "\n");
      PrintLines(t, first);
    }
  }
}
