/** The editor's buffer and cursor logic: the cursor (byte index, row,
    column and remembered column), the batch of typed characters not yet
    written to the piece table, and the four arrow-key moves. Everything
    that draws on the screen, reads keys or touches files is outside this
    module. */
module Editor {
  import opened Text
  import Treap
  import opened PieceTable

  /** Number of typed characters that forces the batch into the table. */
  const MaxBatch: nat := 64

  /** Subtracting one from an unsigned size, which wraps at zero. */
  const SizeMax: nat := 0xFFFF_FFFF_FFFF_FFFF

  function Dec(x: nat): nat
  {
    if x == 0 then SizeMax else x - 1
  }

  datatype Direction = Up | Down | Left | Right

  /** `index` is the byte offset into the document, `row` is 1-based,
      `col` is 0-based and `colMemo` is the column a vertical move tries to
      return to. */
  datatype Cursor = Cursor(index: nat, row: nat, col: nat, colMemo: nat)

  /** Node priorities for the pieces one insertion (`r1`, `r2`) and one
      removal (`r3`, `r4`) may create. */
  datatype Draw = Draw(r1: nat, r2: nat, r3: nat, r4: nat)

  /** `batch` holds typed characters that belong at `batchAt` but are not
      yet in `table`. */
  datatype Editor = Editor(table: Table, cursor: Cursor, batch: seq<char>, batchAt: nat, dirty: bool)

  predicate Wf(e: Editor)
  {
    Inv(e.table)
  }

  function Doc(e: Editor): seq<char>
    requires Wf(e)
  {
    Document(e.table)
  }

  /** `d` with the batch `b` spliced in at `at`, or at the end of `d` when
      `at` lies past it. */
  function Splice(d: seq<char>, at: nat, b: seq<char>): seq<char>
  {
    var p := Treap.Min(at, |d|);
    d[..p] + Normalize(b) + d[p..]
  }

  /** The text the user sees: the table's document with the batch spliced
      in where it will be inserted. */
  function View(e: Editor): seq<char>
    requires Wf(e)
  {
    Splice(Doc(e), e.batchAt, e.batch)
  }

  /** The cursor names a position of `v` and its row and column are that
      position's. */
  predicate At(v: seq<char>, c: Cursor)
  {
    c.index <= |v| && c.row == Row(v, c.index) && c.col == Col(v, c.index)
  }

  /** The batch is one run of ordinary characters, shorter than the cap,
      ending at the cursor, and the cursor agrees with the text the user
      sees. */
  predicate Consistent(e: Editor)
  {
    Wf(e) && '\n' !in e.batch && '\r' !in e.batch && |e.batch| < MaxBatch &&
    (e.batch != [] ==> e.batchAt <= |Doc(e)| && e.batchAt + |e.batch| == e.cursor.index) &&
    At(View(e), e.cursor)
  }

  lemma {:induction false} SpliceNothing(d: seq<char>, at: nat)
    ensures Splice(d, at, []) == d
  {
    var p := Treap.Min(at, |d|);
    assert Normalize([]) == [];
    assert d[..p] + d[p..] == d;
  }

  lemma {:induction false} EmptyBatchView(e: Editor)
    requires Wf(e) && e.batch == []
    ensures View(e) == Doc(e)
  {
    SpliceNothing(Doc(e), e.batchAt);
  }

  // ---------------------------------------------------------------------
  // Opening and the batch

  /** The state right after a file's text is loaded. */
  function Open(text: seq<char>, r: Draw): (e: Editor)
    ensures Consistent(e) && View(e) == Normalize(text)
    ensures e.batch == [] && !e.dirty && e.cursor == Cursor(0, 1, 0, 0)
  {
    var e := Editor(FromText(text, r.r1, r.r2), Cursor(0, 1, 0, 0), [], 0, false);
    EmptyBatchView(e);
    e
  }

  /** Writes the batch into the table at its position and empties it. */
  function Flush(e: Editor, r: Draw): (e2: Editor)
    requires Wf(e)
    ensures Wf(e2) && e2.batch == [] && Doc(e2) == View(e) && View(e2) == View(e)
    ensures e2.cursor == e.cursor && e2.dirty == e.dirty
    ensures e.batch == [] ==> e2 == e
    ensures e.batch != [] ==> e2.batchAt == e.batchAt + |e.batch|
  {
    if e.batch == [] then
      EmptyBatchView(e);
      e
    else
      var e2 := e.(table := Insert(e.table, e.batchAt, e.batch, r.r1, r.r2),
                   batchAt := e.batchAt + |e.batch|, batch := []);
      EmptyBatchView(e2);
      e2
  }

  /** Flushing keeps the editor consistent. */
  lemma {:induction false} FlushSpec(e: Editor, r: Draw)
    requires Consistent(e)
    ensures Consistent(Flush(e, r))
  {
  }

  // ---------------------------------------------------------------------
  // Typing

  /** The batch with `ch` added; an empty batch starts at the cursor. */
  function Appended(e: Editor, ch: char): Editor
  {
    var at := if e.batch == [] then e.cursor.index else e.batchAt;
    e.(dirty := true, batchAt := at, batch := e.batch + [ch])
  }

  /** The cursor just past a typed `ch`. */
  function Advanced(c: Cursor, ch: char): Cursor
  {
    if ch == '\n' then c.(row := c.row + 1, col := 0, index := c.index + 1)
    else c.(col := c.col + 1, index := c.index + 1)
  }

  /** Adds `ch` to the batch; a newline, or a full batch, is written to the
      table at once. */
  function InsertChar(e: Editor, ch: char, r: Draw): (e2: Editor)
    requires Wf(e)
    ensures Wf(e2) && e2.dirty
  {
    var e1 := Appended(e, ch);
    var c := Advanced(e.cursor, ch);
    if ch == '\n' then Flush(e1, r).(cursor := c)
    else if |e1.batch| == MaxBatch then Flush(e1, r).(cursor := c)
    else e1.(cursor := c)
  }

  /** Adding `ch` to a batch that ends at `g` (or starting a batch at `g`)
      puts `ch` at `g`. */
  lemma {:induction false} SpliceGrow(d: seq<char>, at: nat, b: seq<char>, g: nat, ch: char)
    requires '\r' !in b && ch != '\r'
    requires b != [] ==> at <= |d| && at + |b| == g
    requires b == [] ==> g <= |d|
    ensures var at' := if b == [] then g else at; var v := Splice(d, at, b);
      at' <= |d| && at' + |b| == g && g <= |v| &&
      Splice(d, at', b + [ch]) == v[..g] + [ch] + v[g..]
  {
    var at' := if b == [] then g else at;
    NormalizeIdentity(b);
    NormalizeIdentity(b + [ch]);
    var v := d[..at'] + b + d[at'..];
    assert v == Splice(d, at, b) by {
      if b == [] {
        SpliceNothing(d, at);
      }
    }
    assert v[..g] == d[..at'] + b;
    assert v[g..] == d[at'..];
  }

  /** Adding `ch` to the batch puts it at the cursor in the text the user
      sees, and the advanced cursor is just past it. */
  lemma {:induction false} AppendedView(e: Editor, ch: char)
    requires Consistent(e) && ch != '\r'
    ensures var e1 := Appended(e, ch); var v := View(e); var g := e.cursor.index;
      Wf(e1) && g <= |v| && View(e1) == v[..g] + [ch] + v[g..] && At(View(e1), Advanced(e.cursor, ch)) &&
      e1.batchAt <= |Doc(e1)| && e1.batchAt + |e1.batch| == g + 1
  {
    var v := View(e);
    var g := e.cursor.index;
    if e.batch == [] {
      EmptyBatchView(e);
    }
    SpliceGrow(Doc(e), e.batchAt, e.batch, g, ch);
    TypedChar(v, g, ch);
  }

  /** An ordinary character joins the batch and the editor stays
      consistent. */
  lemma {:induction false} AppendedOrdinary(e: Editor, ch: char)
    requires Consistent(e) && ch != '\r' && ch != '\n' && |e.batch| + 1 < MaxBatch
    ensures Consistent(Appended(e, ch).(cursor := Advanced(e.cursor, ch)))
  {
    AppendedView(e, ch);
    assert '\n' !in Appended(e, ch).batch && '\r' !in Appended(e, ch).batch;
  }

  /** Typing an ordinary character. */
  lemma {:induction false} TypeOrdinary(e: Editor, ch: char, r: Draw)
    requires Consistent(e) && ch != '\r' && ch != '\n'
    ensures var e2 := InsertChar(e, ch, r); var v := View(e); var g := e.cursor.index;
      Consistent(e2) && View(e2) == v[..g] + [ch] + v[g..] && e2.cursor.index == g + 1 &&
      e2.cursor.row == e.cursor.row &&
      (|e.batch| + 1 < MaxBatch ==> e2.batch == e.batch + [ch] && Doc(e2) == Doc(e)) &&
      (|e.batch| + 1 == MaxBatch ==> e2.batch == [])
  {
    AppendedView(e, ch);
    if |e.batch| + 1 < MaxBatch {
      AppendedOrdinary(e, ch);
    }
  }

  /** Typing a newline. */
  lemma {:induction false} TypeNewline(e: Editor, r: Draw)
    requires Consistent(e)
    ensures var e2 := InsertChar(e, '\n', r); var v := View(e); var g := e.cursor.index;
      Consistent(e2) && View(e2) == v[..g] + ['\n'] + v[g..] && e2.cursor.index == g + 1 &&
      e2.cursor.row == e.cursor.row + 1 && e2.batch == []
  {
    AppendedView(e, '\n');
  }

  /** Typing `ch` inserts it at the cursor in the text the user sees and
      moves the cursor past it; the editor stays consistent and a newline
      leaves nothing in the batch. */
  lemma {:induction false} InsertCharSpec(e: Editor, ch: char, r: Draw)
    requires Consistent(e) && ch != '\r'
    ensures var e2 := InsertChar(e, ch, r); var v := View(e); var g := e.cursor.index;
      Consistent(e2) && View(e2) == v[..g] + [ch] + v[g..] && e2.cursor.index == g + 1 &&
      e2.cursor.row == e.cursor.row + (if ch == '\n' then 1 else 0) &&
      (ch == '\n' ==> e2.batch == [])
  {
    if ch == '\n' {
      TypeNewline(e, r);
    } else {
      TypeOrdinary(e, ch, r);
    }
  }

  // ---------------------------------------------------------------------
  // Cursor moves. Each works on the document after the batch is flushed
  // and asks it the questions the piece table answers: line lengths (0 for
  // a line that is not there), line start indices and the line count.

  /** The column a vertical move lands on: the end of a line too short for
      the current column, otherwise the remembered column, clamped to the
      line. */
  function TargetCol(len: nat, col: nat, memo: nat): (t: nat)
    ensures t <= len
    ensures len <= col ==> t == len
    ensures col < len ==> t == Treap.Min(memo, len)
  {
    if len <= col then len else Treap.Min(memo, len)
  }

  function MoveUp(d: seq<char>, c: Cursor): Cursor
  {
    if c.row == 1 then c.(col := 0, colMemo := 0, index := 0)
    else
      var row := Dec(c.row);
      var col := TargetCol(LineLengthOrZero(d, row), c.col, c.colMemo);
      c.(row := row, col := col, index := LineIndex(d, row) + col)
  }

  function MoveDown(d: seq<char>, c: Cursor): Cursor
  {
    var count := LineCount(d);
    if count == 0 then c.(row := 1, col := 0, index := 0)
    else if count <= c.row then
      var col := LineLengthOrZero(d, c.row);
      c.(col := col, index := LineIndex(d, c.row) + col)
    else
      var row := c.row + 1;
      var col := TargetCol(LineLengthOrZero(d, row), c.col, c.colMemo);
      c.(row := row, col := col, index := LineIndex(d, row) + col)
  }

  function MoveLeft(d: seq<char>, c: Cursor): Cursor
  {
    if c.index == 0 then c
    else if c.col == 0 then
      var row := Dec(c.row);
      var col := LineLengthOrZero(d, row);
      c.(row := row, col := col, colMemo := col, index := c.index - 1)
    else c.(col := c.col - 1, colMemo := c.col - 1, index := c.index - 1)
  }

  function MoveRight(d: seq<char>, c: Cursor): Cursor
  {
    if c.index == |d| then c
    else if c.col == LineLengthOrZero(d, c.row) then
      c.(row := c.row + 1, col := 0, colMemo := 0, index := c.index + 1)
    else c.(col := c.col + 1, colMemo := c.col + 1, index := c.index + 1)
  }

  function Move(d: seq<char>, c: Cursor, dir: Direction): Cursor
  {
    match dir
    case Up => MoveUp(d, c)
    case Down => MoveDown(d, c)
    case Left => MoveLeft(d, c)
    case Right => MoveRight(d, c)
  }

  /** Flushes the batch, then moves the cursor. */
  function MoveCursor(e: Editor, dir: Direction, r: Draw): (e2: Editor)
    requires Wf(e)
    ensures Wf(e2) && e2.batch == [] && Doc(e2) == View(e) && e2.dirty == e.dirty
  {
    var e1 := Flush(e, r);
    e1.(cursor := Move(Doc(e1), e1.cursor, dir))
  }

  /** Landing on column `col` of line `k` puts the cursor on that line at
      that column. */
  lemma {:induction false} LandOnLine(d: seq<char>, c: Cursor, k: nat, col: nat)
    requires 1 <= k <= Newlines(d) + 1 && col <= LineLengthOrZero(d, k)
    ensures At(d, c.(row := k, col := col, index := LineIndex(d, k) + col))
  {
    QueriesOnRows(d, k);
    PositionOnLine(d, k, col);
  }

  /** Up from the first line goes to the start of the text; from any other
      line it goes to the line above, at the column the column rule picks. */
  lemma {:induction false} MoveUpSpec(d: seq<char>, c: Cursor)
    requires At(d, c)
    ensures var c2 := MoveUp(d, c);
      At(d, c2) &&
      (c.row == 1 ==> c2.index == 0 && c2.col == 0 && c2.colMemo == 0) &&
      (c.row > 1 ==>
         c2.row == c.row - 1 && c2.colMemo == c.colMemo && c2.index == LineStart(d, c.row - 1) + c2.col &&
         c2.col == TargetCol(LineLength(d, c.row - 1), c.col, c.colMemo))
  {
    if c.row > 1 {
      var k := c.row - 1;
      QueriesOnRows(d, k);
      var col := TargetCol(LineLength(d, k), c.col, c.colMemo);
      assert MoveUp(d, c) == c.(row := k, col := col, index := LineIndex(d, k) + col);
      LandOnLine(d, c, k, col);
    }
  }

  /** Down on the last line goes to that line's end; from any other line it
      goes to the line below, at the column the column rule picks. */
  lemma {:induction false} MoveDownSpec(d: seq<char>, c: Cursor)
    requires At(d, c)
    ensures var c2 := MoveDown(d, c);
      At(d, c2) &&
      (c.row < LineCount(d) ==>
         c2.row == c.row + 1 && c2.colMemo == c.colMemo &&
         c2.col == TargetCol(LineLength(d, c.row + 1), c.col, c.colMemo)) &&
      (LineCount(d) <= c.row ==> c2.row == c.row && c2.col == LineLength(d, c.row))
  {
    if 0 < LineCount(d) <= c.row {
      DownOnLastLine(d, c);
    } else if c.row < LineCount(d) {
      DownToNextLine(d, c);
    }
  }

  lemma {:induction false} DownOnLastLine(d: seq<char>, c: Cursor)
    requires At(d, c) && 0 < LineCount(d) <= c.row
    ensures var c2 := MoveDown(d, c);
      At(d, c2) && c2.row == c.row && c2.col == LineLength(d, c.row)
  {
    QueriesOnRows(d, c.row);
    LandOnLine(d, c, c.row, LineLength(d, c.row));
  }

  lemma {:induction false} DownToNextLine(d: seq<char>, c: Cursor)
    requires At(d, c) && c.row < LineCount(d)
    ensures var c2 := MoveDown(d, c);
      At(d, c2) && c2.row == c.row + 1 && c2.colMemo == c.colMemo &&
      c2.col == TargetCol(LineLength(d, c.row + 1), c.col, c.colMemo)
  {
    var k := c.row + 1;
    assert k <= Newlines(d) + 1;
    QueriesOnRows(d, k);
    var col := TargetCol(LineLength(d, k), c.col, c.colMemo);
    assert MoveDown(d, c) == c.(row := k, col := col, index := LineIndex(d, k) + col);
    LandOnLine(d, c, k, col);
  }

  /** Left steps back over exactly one character, onto the end of the
      previous line when that character is a newline, and remembers the new
      column; at the start of the text it does nothing. */
  lemma {:induction false} MoveLeftSpec(d: seq<char>, c: Cursor)
    requires At(d, c)
    ensures var c2 := MoveLeft(d, c);
      At(d, c2) &&
      (c.index == 0 ==> c2 == c) &&
      (c.index > 0 ==>
         c2.index == c.index - 1 && c2.colMemo == c2.col &&
         c2.row == c.row - (if d[c.index - 1] == '\n' then 1 else 0))
  {
    if c.index > 0 {
      var g := c.index - 1;
      StepOver(d, g);
      InsideRow(d, g);
    }
  }

  /** Right steps over exactly one character, onto the start of the next
      line when that character is a newline, and remembers the new column;
      at the end of the text it does nothing. */
  lemma {:induction false} MoveRightSpec(d: seq<char>, c: Cursor)
    requires At(d, c)
    ensures var c2 := MoveRight(d, c);
      At(d, c2) &&
      (c.index == |d| ==> c2 == c) &&
      (c.index < |d| ==>
         c2.index == c.index + 1 && c2.colMemo == c2.col &&
         c2.row == c.row + (if d[c.index] == '\n' then 1 else 0))
  {
    if c.index < |d| {
      StepOver(d, c.index);
      InsideRow(d, c.index);
    }
  }

  /** Every move keeps the cursor on the text it moves over. */
  lemma {:induction false} MoveSpec(d: seq<char>, c: Cursor, dir: Direction)
    requires At(d, c)
    ensures At(d, Move(d, c, dir))
  {
    match dir
    case Up => MoveUpSpec(d, c);
    case Down => MoveDownSpec(d, c);
    case Left => MoveLeftSpec(d, c);
    case Right => MoveRightSpec(d, c);
  }

  /** Moving flushes the batch and leaves the text the user sees alone, and
      the editor stays consistent. */
  lemma {:induction false} MoveCursorSpec(e: Editor, dir: Direction, r: Draw)
    requires Consistent(e)
    ensures var e2 := MoveCursor(e, dir, r);
      Consistent(e2) && View(e2) == View(e) && e2.cursor == Move(View(e), e.cursor, dir)
  {
    var e1 := Flush(e, r);
    MoveSpec(View(e), e.cursor, dir);
    EmptyBatchView(e1.(cursor := Move(Doc(e1), e1.cursor, dir)));
  }

  // ---------------------------------------------------------------------
  // Deleting

  /** The byte at `i`, or NUL past the end, as the piece table reports it. */
  function CharAt(d: seq<char>, i: nat): char
  {
    if i < |d| then d[i] else '\0'
  }

  /** Where the cursor goes when the character before it is removed from
      `d`: over a newline, to the end of the line above, measured before the
      two lines are joined; otherwise one column back. */
  function Backspaced(d: seq<char>, c: Cursor): Cursor
  {
    if CharAt(d, Dec(c.index)) == '\n' then
      var row := Dec(c.row);
      c.(index := Dec(c.index), row := row, col := LineLengthOrZero(d, row))
    else
      c.(index := Dec(c.index), col := Dec(c.col))
  }

  /** Backspace: flushes the batch, then removes the character before the
      cursor. */
  function DeleteChar(e: Editor, r: Draw): (e2: Editor)
    requires Wf(e)
    ensures Wf(e2) && e2.dirty && e2.batch == []
  {
    var e1 := Flush(e, r).(dirty := true);
    if e1.cursor.index == 0 then e1
    else
      e1.(table := Remove(e1.table, e1.cursor.index - 1, 1, r.r3, r.r4),
          cursor := Backspaced(Doc(e1), e1.cursor))
  }

  /** The cursor after a backspace sits where the removed character was. */
  lemma {:induction false} BackspacedSpec(d: seq<char>, c: Cursor)
    requires At(d, c) && c.index > 0
    ensures var c2 := Backspaced(d, c); var g := c.index;
      At(d[..g - 1] + d[g..], c2) && c2.index == g - 1 &&
      c2.row + (if d[g - 1] == '\n' then 1 else 0) == c.row
  {
    var g := c.index;
    DeletedChar(d, g);
    if d[g - 1] == '\n' {
      QueriesOnRows(d, c.row - 1);
    }
  }

  /** Removing the character before `g` from the flushed text. */
  lemma {:induction false} RemovedBefore(t: Table, g: nat, r: Draw)
    requires Inv(t) && 0 < g <= |Document(t)|
    ensures var d := Document(t);
      Document(Remove(t, g - 1, 1, r.r3, r.r4)) == d[..g - 1] + d[g..]
  {
    assert Treap.Min(g, |Document(t)|) == g;
  }

  /** Backspace removes exactly the character before the cursor from the
      text the user sees, pending typing included, and leaves the cursor
      where that character was; at the start of the text it changes
      nothing the user sees. The editor stays consistent. */
  lemma {:induction false} DeleteCharSpec(e: Editor, r: Draw)
    requires Consistent(e)
    ensures var e2 := DeleteChar(e, r); var v := View(e); var g := e.cursor.index;
      Consistent(e2) && e2.batch == [] &&
      (g == 0 ==> View(e2) == v && e2.cursor == e.cursor) &&
      (g > 0 ==>
         View(e2) == v[..g - 1] + v[g..] && e2.cursor.index == g - 1 &&
         e2.cursor.row + (if v[g - 1] == '\n' then 1 else 0) == e.cursor.row)
  {
    if e.cursor.index > 0 {
      DeleteInside(e, r);
    }
  }

  lemma {:induction false} DeleteInside(e: Editor, r: Draw)
    requires Consistent(e) && e.cursor.index > 0
    ensures var e2 := DeleteChar(e, r); var v := View(e); var g := e.cursor.index;
      Consistent(e2) && View(e2) == v[..g - 1] + v[g..] && e2.cursor.index == g - 1 &&
      e2.cursor.row + (if v[g - 1] == '\n' then 1 else 0) == e.cursor.row
  {
    var v := View(e);
    var g := e.cursor.index;
    var e1 := Flush(e, r).(dirty := true);
    var t := Remove(e1.table, g - 1, 1, r.r3, r.r4);
    var e2 := e1.(table := t, cursor := Backspaced(v, e.cursor));
    assert DeleteChar(e, r) == e2;
    RemovedBefore(e1.table, g, r);
    BackspacedSpec(v, e.cursor);
    EmptyBatchView(e2);
  }

  // ---------------------------------------------------------------------
  // Status queries

  /** Lines shown in the status bar: the table's line count, but never 0. */
  function TotalLines(e: Editor): (n: nat)
    requires Wf(e)
    ensures n >= 1
    ensures Doc(e) != [] ==> n == |Lines(Doc(e))|
    ensures Doc(e) == [] ==> n == 1
  {
    LinesCount(Doc(e));
    var count := LineCount(Doc(e));
    if count > 0 then count else 1
  }

  /** The status count and the text the user sees: they agree, except that
      a batch opening a new last line after a final newline is not counted
      until it is flushed. */
  lemma {:induction false} TotalLinesOfView(e: Editor)
    requires Consistent(e)
    ensures var d := Doc(e); var v := View(e);
      TotalLines(e) + (if e.batch != [] && d != [] && e.batchAt == |d| && d[|d| - 1] == '\n' then 1 else 0) ==
      (if v == [] then 1 else LineCount(v))
  {
    var d := Doc(e);
    if e.batch == [] {
      EmptyBatchView(e);
      LinesCount(d);
    } else {
      NormalizeIdentity(e.batch);
      var p := Treap.Min(e.batchAt, |d|);
      assert p == e.batchAt;
      SpliceLineCount(d, p, e.batch);
      LinesCount(d);
    }
  }

  /** Line `k` of the table's document, or nothing for line 0 or a line
      past the last. */
  method Line(e: Editor, k: nat) returns (line: seq<char>)
    requires Wf(e)
    ensures 1 <= k <= LineCount(Doc(e)) ==> line == LineText(Doc(e), k)
    ensures !(1 <= k <= LineCount(Doc(e))) ==> line == []
  {
    var count := GetLineCount(e.table);
    if k == 0 || k > count {
      return [];
    }
    line := GetLine(e.table, k);
  }
}
