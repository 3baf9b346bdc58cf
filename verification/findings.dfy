/** The editor operations as the source writes them, where that differs
    from the corrected operations in the Editor module, with an input that
    shows each difference. */
module EditorFindings {
  import opened Text
  import opened PieceTable
  import opened Editor

  // ---------------------------------------------------------------------
  // Backspace

  /** Backspace as written: the batch is not flushed first, and over a
      newline the new column is measured after the lines are joined. */
  function DeleteCharAsWritten(e: Editor, r: Draw): (e2: Editor)
    requires Wf(e)
    ensures Wf(e2) && e2.dirty && e2.batch == e.batch && e2.batchAt == e.batchAt
    ensures e.cursor.index == 0 ==> e2.table == e.table && e2.cursor == e.cursor
    ensures var d := Doc(e); var c := e.cursor; var g := c.index;
      0 < g ==>
        e2.cursor.index == g - 1 && e2.cursor.colMemo == c.colMemo &&
        (g <= |d| ==> Doc(e2) == d[..g - 1] + d[g..]) &&
        (|d| < g ==> Doc(e2) == d && e2.cursor.row == c.row && e2.cursor.col == Dec(c.col)) &&
        (g <= |d| && d[g - 1] == '\n' ==>
           e2.cursor.row == Dec(c.row) && e2.cursor.col == LineLengthOrZero(Doc(e2), Dec(c.row))) &&
        (g <= |d| && d[g - 1] != '\n' ==> e2.cursor.row == c.row && e2.cursor.col == Dec(c.col))
  {
    var e1 := e.(dirty := true);
    var c := e1.cursor;
    if c.index == 0 then e1
    else
      var t := Remove(e1.table, c.index - 1, 1, r.r3, r.r4);
      if CharAt(Doc(e1), c.index - 1) == '\n' then
        var row := Dec(c.row);
        e1.(table := t, cursor := c.(index := c.index - 1, row := row, col := LineLengthOrZero(Document(t), row)))
      else
        e1.(table := t, cursor := c.(index := c.index - 1, col := Dec(c.col)))
  }

  /** Where nothing is pending and no line is joined, backspace as written
      and the corrected backspace agree. */
  lemma {:induction false} DeleteAgrees(e: Editor, r: Draw)
    requires Wf(e) && e.batch == []
    requires 0 < e.cursor.index ==> CharAt(Doc(e), e.cursor.index - 1) != '\n'
    ensures DeleteCharAsWritten(e, r) == DeleteChar(e, r)
  {
    assert Flush(e, r) == e;
  }

  lemma {:induction false} Plain(s: seq<char>)
    requires '\r' !in s
    ensures Normalize(s) == s
  {
    NormalizeIdentity(s);
  }

  /** A table holding exactly `text` exists for every text without
      carriage returns. */
  lemma {:induction false} TableFor(text: seq<char>, r: Draw)
    requires '\r' !in text
    ensures Inv(FromText(text, r.r1, r.r2)) && Document(FromText(text, r.r1, r.r2)) == text
  {
    Plain(text);
  }

  lemma {:induction false} SpliceX(d: seq<char>)
    ensures Splice(d, 0, "x") == "x" + d
  {
    Plain("x");
    assert Treap.Min(0, |d|) == 0;
    assert d[..0] == [] && d[0..] == d;
  }

  /** The user typed "x" at the start of "ab" and pressed backspace. The
      text on screen is "xab" with the cursor after the "x"; the written
      backspace removes the "a" from the table instead, leaving "xb" on
      screen, where the corrected one leaves "ab". */
  lemma {:induction false} BackspaceMissesBatch(t: Table, r: Draw)
    requires Inv(t) && Document(t) == "ab"
    ensures var e := Editor(t, Cursor(1, 1, 1, 1), "x", 0, true);
      Consistent(e) && View(e) == "xab" &&
      View(DeleteCharAsWritten(e, r)) == "xb" && View(DeleteChar(e, r)) == "ab"
  {
    var e := Editor(t, Cursor(1, 1, 1, 1), "x", 0, true);
    SpliceX("ab");
    TypedText();
    WrittenMissesBatch(t, r);
    DeleteCharSpec(e, r);
  }

  /** "x" typed before "ab", and the texts the two backspaces leave. */
  lemma {:induction false} TypedText()
    ensures "x" + "ab" == "xab" && "x" + "b" == "xb" && "xab"[..0] + "xab"[1..] == "ab"
    ensures "ab"[..0] + "ab"[1..] == "b" && "ab"[0] != '\n'
    ensures Row("xab", 1) == 1 && Col("xab", 1) == 1
  {
  }

  lemma {:induction false} WrittenMissesBatch(t: Table, r: Draw)
    requires Inv(t) && Document(t) == "ab"
    ensures var e := Editor(t, Cursor(1, 1, 1, 1), "x", 0, true);
      View(DeleteCharAsWritten(e, r)) == "xb"
  {
    var e := Editor(t, Cursor(1, 1, 1, 1), "x", 0, true);
    var t2 := Remove(t, 0, 1, r.r3, r.r4);
    RemovedBefore(t, 1, r);
    TypedText();
    assert DeleteCharAsWritten(e, r).table == t2;
    SpliceX("b");
  }

  /** With the cursor at the start of the second line of "ab\ncd", the
      written backspace joins the lines and then reads the column off the
      joined line "abcd", 4, while the cursor is at column 2. */
  lemma {:induction false} BackspaceColumnAfterJoin(t: Table, r: Draw)
    requires Inv(t) && Document(t) == "ab\ncd"
    ensures var e := Editor(t, Cursor(3, 2, 0, 0), [], 0, false);
      Consistent(e) &&
      DeleteCharAsWritten(e, r).cursor.col == 4 && !Consistent(DeleteCharAsWritten(e, r)) &&
      DeleteChar(e, r).cursor.col == 2 && Consistent(DeleteChar(e, r))
  {
    var e := Editor(t, Cursor(3, 2, 0, 0), [], 0, false);
    EmptyBatchView(e);
    JoinedText();
    WrittenColumnAfterJoin(t, r);
    DeleteCharSpec(e, r);
  }

  lemma {:induction false} WrittenColumnAfterJoin(t: Table, r: Draw)
    requires Inv(t) && Document(t) == "ab\ncd"
    ensures var e := Editor(t, Cursor(3, 2, 0, 0), [], 0, false);
      DeleteCharAsWritten(e, r).cursor.col == 4 && !Consistent(DeleteCharAsWritten(e, r))
  {
    var e := Editor(t, Cursor(3, 2, 0, 0), [], 0, false);
    var t2 := Remove(t, 2, 1, r.r3, r.r4);
    RemovedBefore(t, 3, r);
    JoinedText();
    var e2 := DeleteCharAsWritten(e, r);
    assert e2.table == t2 && e2.cursor.row == 1;
    EmptyBatchView(e2);
  }

  /** "ab\ncd" with its newline removed, and where its positions lie. */
  lemma {:induction false} JoinedText()
    ensures var s := "ab\ncd"; var j := "abcd";
      s[..2] + s[3..] == j && s[2] == '\n' && Row(s, 3) == 2 && Col(s, 3) == 0 &&
      LineCount(j) == 1 && LineLengthOrZero(j, 1) == 4 && Col(j, 2) == 2
  {
    var j := "abcd";
    assert Newlines(j) == 0;
    LineBounds(j, 1, 0, 4);
  }

  // ---------------------------------------------------------------------
  // Vertical moves

  /** The column rule as written: the remembered column is restored even
      when it lies past the end of the target line. */
  function TargetColAsWritten(len: nat, col: nat, memo: nat): nat
  {
    if len <= col then len else memo
  }

  function MoveUpAsWritten(d: seq<char>, c: Cursor): Cursor
  {
    if c.row == 1 then c.(col := 0, colMemo := 0, index := 0)
    else
      var row := Dec(c.row);
      var col := TargetColAsWritten(LineLengthOrZero(d, row), c.col, c.colMemo);
      c.(row := row, col := col, index := LineIndex(d, row) + col)
  }

  /** Down as written: on the line the table counts last it jumps to the
      end of the text without changing the row, and from any other row it
      goes one row down. */
  function MoveDownAsWritten(d: seq<char>, c: Cursor): Cursor
  {
    var count := LineCount(d);
    if count == 0 then c.(row := 1, col := 0, index := 0)
    else if count == c.row then c.(col := LineLengthOrZero(d, c.row), index := |d|)
    else
      var row := c.row + 1;
      var col := TargetColAsWritten(LineLengthOrZero(d, row), c.col, c.colMemo);
      c.(row := row, col := col, index := LineIndex(d, row) + col)
  }

  /** Landing past the end of a line is never a valid position on it. */
  lemma {:induction false} PastLineEnd(d: seq<char>, c: Cursor, k: nat)
    requires 1 <= k <= Newlines(d) + 1 && c.row == k && c.col > LineLength(d, k)
    ensures !At(d, c)
  {
    if At(d, c) {
      ColFromLineStart(d, c.index);
    }
  }

  /** Up as written, onto a line longer than the current column but shorter
      than the remembered one, always leaves the cursor off the text. */
  lemma {:induction false} UpPastLineEnd(d: seq<char>, c: Cursor)
    requires At(d, c) && c.row > 1
    requires c.col < LineLength(d, c.row - 1) < c.colMemo
    ensures !At(d, MoveUpAsWritten(d, c))
  {
    QueriesOnRows(d, c.row - 1);
    PastLineEnd(d, MoveUpAsWritten(d, c), c.row - 1);
  }

  /** Down as written has the same flaw. */
  lemma {:induction false} DownPastLineEnd(d: seq<char>, c: Cursor)
    requires At(d, c) && c.row < LineCount(d)
    requires c.col < LineLength(d, c.row + 1) < c.colMemo
    ensures !At(d, MoveDownAsWritten(d, c))
  {
    QueriesOnRows(d, c.row + 1);
    PastLineEnd(d, MoveDownAsWritten(d, c), c.row + 1);
  }

  /** Column 1 of line 2 of "aaaa\nb\ncc", remembering column 4 from line
      1, meets the conditions of the down flaw: line 3 has length 2. */
  lemma {:induction false} DownPastLineEndExample()
    ensures var d := "aaaa\nb\ncc"; var c := Cursor(6, 2, 1, 4);
      At(d, c) && c.row < LineCount(d) && c.col < LineLength(d, c.row + 1) < c.colMemo
  {
    LineBounds("aaaa\nb\ncc", 3, 7, 2);
  }

  /** Column 1 of line 2 of "cc\nb\naaaa", remembering column 4, meets the
      conditions of the up flaw: line 1 has length 2. */
  lemma {:induction false} UpPastLineEndExample()
    ensures var d := "cc\nb\naaaa"; var c := Cursor(4, 2, 1, 4);
      At(d, c) && c.row > 1 && c.col < LineLength(d, c.row - 1) < c.colMemo
  {
    var d := "cc\nb\naaaa";
    assert NewlinesBefore(d, 2) == 0 && d[2] == '\n';
    LineBounds(d, 1, 0, 2);
  }

  /** When the text ends with a newline, the line the table counts last is
      the one before it. Down as written on that line jumps to the end of
      the text, which is on the next row, but keeps the row. */
  lemma {:induction false} DownFromLastCountedLine(d: seq<char>, c: Cursor)
    requires At(d, c) && 0 < LineCount(d) == c.row && d[|d| - 1] == '\n'
    ensures !At(d, MoveDownAsWritten(d, c))
  {
    LinesCount(d);
    assert Row(d, |d|) == Newlines(d) + 1;
  }

  /** "a\n" with the cursor at its start meets those conditions. */
  lemma {:induction false} DownFromLastCountedLineExample()
    ensures var d := "a\n"; var c := Cursor(0, 1, 0, 0);
      At(d, c) && 0 < LineCount(d) == c.row && d[|d| - 1] == '\n'
  {
    ClosedText();
  }

  lemma {:induction false} ClosedText()
    ensures LineCount("a\n") == 1
  {
    var d := "a\n";
    assert NewlinesBefore(d, 1) == 0 && NewlinesBefore(d, 2) == 1;
    LineBounds(d, 2, 2, 0);
  }

  // ---------------------------------------------------------------------
  // Line count with a pending batch

  /** "x" typed on the empty last line of "a\n" (open, right, right, type):
      the status count stays at one line while the text the user sees has
      two, so the screen has no row for the pending "x" until a flush. */
  lemma {:induction false} UncountedLastLine(t: Table)
    requires Inv(t) && Document(t) == "a\n"
    ensures var e := Editor(t, Cursor(3, 2, 1, 0), "x", 2, true);
      Consistent(e) && View(e) == "a\nx" && TotalLines(e) == 1 && LineCount(View(e)) == 2
  {
    var e := Editor(t, Cursor(3, 2, 1, 0), "x", 2, true);
    Plain("x");
    assert Treap.Min(2, 2) == 2;
    OpenedLine();
    assert View(e) == "a\nx";
    ClosedText();
    TotalLinesOfView(e);
  }

  /** "a\nx" and the position after the "x". */
  lemma {:induction false} OpenedLine()
    ensures "a\n"[..2] + "x" + "a\n"[2..] == "a\nx"
    ensures Row("a\nx", 3) == 2 && Col("a\nx", 3) == 1
  {
  }

  /** Where the remembered column fits on the target line, and on a text
      that does not end with a newline, the corrected vertical moves do
      what the written ones do. */
  lemma {:induction false} UpAgrees(d: seq<char>, c: Cursor)
    requires c.row != 1 ==> c.colMemo <= LineLengthOrZero(d, Dec(c.row))
    ensures MoveUp(d, c) == MoveUpAsWritten(d, c)
  {
  }

  lemma {:induction false} DownAgrees(d: seq<char>, c: Cursor)
    requires At(d, c) && 0 < LineCount(d)
    requires c.row < LineCount(d) ==> c.colMemo <= LineLength(d, c.row + 1)
    requires LineCount(d) <= c.row ==> c.row == LineCount(d) == Newlines(d) + 1
    ensures MoveDown(d, c) == MoveDownAsWritten(d, c)
  {
    if c.row < LineCount(d) {
      DownAgreesInside(d, c);
    } else {
      DownAgreesOnLast(d, c);
    }
  }

  lemma {:induction false} DownAgreesInside(d: seq<char>, c: Cursor)
    requires At(d, c) && c.row < LineCount(d) && c.colMemo <= LineLength(d, c.row + 1)
    ensures MoveDown(d, c) == MoveDownAsWritten(d, c)
  {
    var k := c.row + 1;
    QueriesOnRows(d, k);
    var col := TargetCol(LineLength(d, k), c.col, c.colMemo);
    assert col == TargetColAsWritten(LineLength(d, k), c.col, c.colMemo);
  }

  lemma {:induction false} DownAgreesOnLast(d: seq<char>, c: Cursor)
    requires At(d, c) && c.row == LineCount(d) == Newlines(d) + 1
    ensures MoveDown(d, c) == MoveDownAsWritten(d, c)
  {
    QueriesOnRows(d, c.row);
    LastLineOpen(d);
    assert LineIndex(d, c.row) + LineLengthOrZero(d, c.row) == |d|;
  }

  /** Below the last counted line (after a final newline) the written down
      move adds a row every time, whatever the text. */
  lemma {:induction false} PhantomRowsGrow(d: seq<char>, c: Cursor)
    requires 0 < LineCount(d) < c.row
    ensures MoveDownAsWritten(d, c).row == c.row + 1
    ensures !At(d, MoveDownAsWritten(d, c))
  {
    var count := LineCount(d);
    var c2 := MoveDownAsWritten(d, c);
    assert c2.row == c.row + 1;
    if c2.index <= |d| {
      assert Row(d, c2.index) <= Newlines(d) + 1 <= count + 1 < c2.row;
    }
  }

  /** The corrected down move never changes the row below the last counted
      line. */
  lemma {:induction false} PhantomRowStays(d: seq<char>, c: Cursor)
    requires At(d, c) && 0 < LineCount(d) < c.row
    ensures MoveDown(d, c).row == c.row && At(d, MoveDown(d, c))
  {
    MoveDownSpec(d, c);
  }
}
