# MiniEditor core in Dafny

A model of the editing core of MiniEditor, a terminal text editor. It has three layers.

- **`Treap`** (`treap.dfy`): the implicit treap that holds the document as an ordered sequence of pieces. Each node caches its subtree's byte length and newline count. `Content(b, t)` is the text the pieces spell out.
- **`PieceTable`** (`piecetable.dfy`): the piece table.
  - It has two buffers: the original text and an append-only add buffer.
  - A treap of pieces points into those buffers.
  - It supports insertion, removal and clearing. `\r` is dropped from incoming text.
  - Its queries are character at an index, line count, start index of a line, whole text, line text and line length.
  - Every operation is stated against the abstract document `Document(pt)`.
- **`Editor`** (`editor.dfy`): the editor state machine.
  - Typed characters collect in a batch. The batch goes into the piece table when it fills, when a newline is typed, or when the cursor moves.
  - The cursor is a byte index plus a row, a column and a remembered column for vertical moves.
  - `View(e)` is the text being edited: the document with the pending batch spliced in. The screen draws the batch inside the cursor's line. It can miss one case (see `Editor.TotalLinesOfView`).
  - Every operation keeps the cursor's row and column in agreement with its index in that view (`Consistent`).

Two supporting modules:
- `Text` (`text.dfy`) defines the facts about plain character sequences that the others share: newline counts, line starts and lengths, the list of lines, row and column of an index, and `\r` removal.
- `Pieces` (`piece.dfy`) defines pieces and buffers.

`EditorFindings` (`findings.dfy`) models four editor routines as they are written. It proves where they break the cursor invariant or delete the wrong character.

Inputs the code draws from outside are parameters:
- Random priorities are passed in. Every mutating operation takes the priorities it would draw: two `nat`s, or a `Draw` record in the editor.
- File contents for `open` are passed as a string.

## Model

| member | source | states |
|---|---|---|
| Text.Normalize | src/piecetable.cpp:10-13 | the result has no `\r`, and holds exactly the input's other characters (multiset equality with `\r` removed) |
| Text.NormalizeAppend | src/piecetable.cpp:10-13 | `\r` removal distributes over concatenation |
| Text.NormalizeIdempotent | src/piecetable.cpp:10-13 | normalizing twice is the same as normalizing once |
| Text.NormalizeNewlines | src/piecetable.cpp:10-13 | `\r` removal keeps the number of newlines |
| Text.NewlinesAppend | src/piecetable.cpp:15-35 | the newline count of a concatenation is the sum of the parts' counts |
| Text.LineStart | src/piecetable.cpp:119-161 | line k starts just after the (k-1)-th newline, or at 0 |
| Text.LineLength | src/piecetable.cpp:280-295 | a line runs from its start to the next newline or the end of the text, without the newline |
| Text.LineBounds | src/piecetable.cpp:280-295 | any span that starts after the (k-1)-th newline and stops at the next newline or the end is line k |
| Text.LineCount | src/piecetable.cpp:250-264 | the line count is the newline count, or one more |
| Text.LinesCount | src/piecetable.cpp:250-264 | the number of lines is 0 for empty text, 1 with no newline, the newline count when the text ends in a newline, and one more otherwise |
| Text.LinesJoin | src/piecetable.cpp:184-243 | joining the lines with newlines gives back the text, plus the trailing newline if there was one |
| Text.LinesAgree | src/piecetable.cpp:184-243 | the k-th entry of the line list is the text of line k |
| Text.EndOfLine | src/editor.cpp:309-328 | the column equals the line length exactly when the index is at the text's end or on a newline |
| Text.StepOver | src/editor.cpp:309-328 | stepping over a newline moves to the next row at column 0; stepping over any other character keeps the row and adds one to the column |
| Text.TypedChar | src/editor.cpp:159-186 | after inserting a character at index g, position g+1 has the row and column the typing rule gives |
| Text.DeletedChar | src/editor.cpp:188-207 | after removing the character before g, position g-1 has the row and column the backspace rule gives |
| Pieces.SplitPieceJoin | src/piecetable.cpp:15-35 | splitting a piece at an offset gives two pieces whose texts concatenate to the original, with newline counts recounted from the buffer |
| Pieces.ExtendsKeepsPiece | src/piecetable.cpp:78-97 | appending to the add buffer does not change the text of an existing piece |
| Treap.Update | include/implicit_treap.h:60-70 | a rebuilt node keeps its left subtree's pieces, then its own piece, then its right subtree's pieces, and its caches are consistent exactly when its children's are |
| Treap.UpdateMeasures | src/implicit_treap.cpp:119-127 | over valid children and a sound piece, the rebuilt node's cached length and newline count (the values `size` and `get_newline_count` report) are the length and newline count of its text |
| Treap.MakeNode | include/implicit_treap.h:72-73 | a fresh node holds exactly its piece, with its length and newline count |
| Treap.ContentMeasures | include/implicit_treap.h:78-81 | the cached size is the length of the subtree's text, and the cached newline count is that text's newline count |
| Treap.ContentFlatten | include/implicit_treap.h:8-19 | a tree's text is the concatenation of its pieces' texts in in-order sequence |
| Treap.FindByByteSpec | src/implicit_treap.cpp:86-117 | byte lookup succeeds exactly for indices below the size, and returns the piece covering the index with that piece's starting offset |
| Treap.FindAgrees | src/implicit_treap.cpp:22-51 | lookup by index returns the same piece as lookup by byte |
| Treap.FindByLineSpec | src/implicit_treap.cpp:53-84 | line lookup returns a real piece with its offset, and succeeds whenever the line is within the newline count |
| Treap.NthNewlineSpec | src/piecetable.cpp:119-161 | the search for the m-th newline succeeds exactly for 1 <= m <= newline count, and returns the piece holding that newline and its rank inside the piece |
| Treap.MergeInOrder | src/implicit_treap.cpp:134-151 | merging concatenates the in-order piece sequences |
| Treap.MergeContent | src/implicit_treap.cpp:134-151 | merging concatenates the texts |
| Treap.MergeEmpty | src/implicit_treap.cpp:134-151 | merging with an empty tree returns the other tree |
| Treap.MergeRoot | src/implicit_treap.cpp:134-151 | the root of a merge is whichever root has the higher priority |
| Treap.MergeHeap | src/implicit_treap.cpp:134-151 | merging two heap-ordered trees gives a heap-ordered tree |
| Treap.SplitCut | include/implicit_treap.h:92 | splitting at k gives a left tree holding the first min(k, size) characters and a right tree holding the rest, both with valid caches |
| Treap.InsertSpec | include/implicit_treap.h:90 | inserting a piece at k places its text at min(k, size) and keeps the caches valid |
| Treap.EraseSpec | include/implicit_treap.h:91 | erasing n bytes at k removes exactly the clamped range [k, k+n) |
| Treap.InsertSize | include/implicit_treap.h:90 | insertion grows the size by the piece's length |
| Treap.EraseSize | include/implicit_treap.h:91 | erasure shrinks the size by the clamped range's length |
| Treap.BoundaryErases | tests/test_editor.cpp:318-347 | three five-byte pieces give size 15; erasing at a piece boundary leaves 10, and erasing across pieces leaves 8 |
| Treap.ZeroLengthNoOps | tests/test_editor.cpp:349-374 | inserting an empty piece or erasing zero bytes leaves the tree unchanged |
| Treap.CopyNodes | src/implicit_treap.cpp:153-172 | a copy equals the original tree |
| Treap.GetPieces | src/implicit_treap.cpp:174-182 | collecting pieces appends the in-order sequence to the accumulator |
| Treap.ExtendsKeepsTree | src/piecetable.cpp:78-97 | appending to the add buffer keeps every tree's text |
| PieceTable.Empty | src/piecetable.cpp:37-38 | a new table is valid and empty |
| PieceTable.CountNewlines | src/piecetable.cpp:32-35 | the loop counts exactly the newlines of its input |
| PieceTable.FromText | src/piecetable.cpp:63-76 | the table built from a text holds that text with `\r` removed |
| PieceTable.Length | src/piecetable.cpp:245-248 | the length is the document's length |
| PieceTable.Insert | src/piecetable.cpp:78-97 | the normalized text lands at min(pos, length) and nothing else changes; the original buffer is untouched and the add buffer only grows, by exactly the normalized text |
| PieceTable.InsertKeepsPieces | src/piecetable.cpp:89-95 | any piece that was sound before an insertion spells the same bytes after it |
| PieceTable.AddedPiece | src/piecetable.cpp:89-95 | the piece made for inserted text refers to exactly that text at the old end of the add buffer, and its newline count is that text's |
| PieceTable.Remove | src/piecetable.cpp:99-110 | a start past the end leaves the document unchanged; otherwise the range [pos, min(pos+len, length)) is removed; the buffers are untouched |
| PieceTable.InsertThenRemove | src/piecetable.cpp:78-110 | removing what was just inserted restores the document |
| PieceTable.EmptyEditsKeepDocument | src/piecetable.cpp:78-110 | empty insertions, zero-length removals and removals past the end change nothing |
| PieceTable.InsertFrontExample | tests/test_piecetable.cpp:19-27 | inserting "Awesome " at the front of "Hello world!" gives a 20-byte document |
| PieceTable.InsertMiddleExample | tests/test_piecetable.cpp:28-32 | inserting "new " at 8 gives "Awesome new Hello world!" |
| PieceTable.InsertEndExample | tests/test_piecetable.cpp:33-37 | appending at 24 gives the 46-byte sentence |
| PieceTable.ClampedRemoveExample | tests/test_piecetable.cpp:126-132 | removing 100 bytes from "short" empties it |
| PieceTable.Clear | src/piecetable.cpp:112-117 | clearing empties both buffers and the tree |
| PieceTable.GetCharAt | src/piecetable.cpp:266-278 | returns the document's character at i, or `\0` past the end |
| PieceTable.GetLineCount | src/piecetable.cpp:250-264 | returns the number of lines of the document |
| PieceTable.GetIndexForLine | src/piecetable.cpp:119-161 | line 0 or an empty document gives 0, a line past the count gives the length, and any other line gives its start index |
| PieceTable.ToString | src/piecetable.cpp:163-182 | returns exactly the document |
| PieceTable.WalkLine | src/piecetable.cpp:184-243 | walking the pieces from a line start collects the characters up to the next newline |
| PieceTable.GetLine | src/piecetable.cpp:184-243 | returns the text of line k, or the empty string for a line out of range |
| PieceTable.GetLineLength | src/piecetable.cpp:280-295 | returns the length of line k without its newline, or 0 out of range |
| Editor.Open | src/editor.cpp:68-76 | a freshly opened editor shows the normalized file, has no batch, is clean, and has its cursor at row 1, column 0 |
| Editor.Flush | src/editor.cpp:330-339 | flushing moves the batch into the table, leaves the view and cursor as they were, and moves the insertion point past the batch |
| Editor.FlushSpec | src/editor.cpp:330-339 | flushing keeps the editor consistent |
| Editor.InsertCharSpec | src/editor.cpp:159-186 | typing puts the character at the cursor in the view, advances the index by one, moves down a row exactly for a newline, flushes on a newline, and keeps the editor consistent |
| Editor.TypeOrdinary | src/editor.cpp:159-186 | an ordinary character joins the batch and leaves the table untouched until the batch reaches its capacity, when it is flushed |
| Editor.TypeNewline | src/editor.cpp:159-186 | a newline goes straight into the table and moves the cursor to the next row |
| Editor.TargetCol | src/editor.cpp:245-254 | the landing column never exceeds the target line's length; a cursor past that length lands at the end, otherwise it returns to the remembered column, clamped |
| Editor.MoveUpSpec | src/editor.cpp:232-255 | from row 1 the cursor goes to the start of the document; otherwise it goes to the previous row at the target column and keeps its remembered column |
| Editor.MoveDownSpec | src/editor.cpp:257-287 | below the last line the cursor stays on its row at the line's end; otherwise it goes to the next row at the target column |
| Editor.DownOnLastLine | src/editor.cpp:268-273 | on the last counted line, moving down keeps the row and goes to the end of the line |
| Editor.DownToNextLine | src/editor.cpp:277-286 | above the last line, moving down goes to the next row at the target column |
| Editor.MoveLeftSpec | src/editor.cpp:289-307 | at index 0 nothing moves; otherwise the index drops by one, the row drops exactly when crossing a newline, and the remembered column resets |
| Editor.MoveRightSpec | src/editor.cpp:309-328 | at the end nothing moves; otherwise the index grows by one, the row grows exactly when crossing a newline, and the remembered column resets |
| Editor.MoveSpec | src/editor.cpp:209-230 | every direction keeps the cursor's row and column in agreement with its index |
| Editor.MoveCursorSpec | src/editor.cpp:209-230 | a move flushes the batch, keeps the view, and applies the directional move to the view |
| Editor.BackspacedSpec | src/editor.cpp:188-207 | the cursor after a backspace sits one index earlier, at its correct row and column in the shortened text |
| Editor.DeleteCharSpec | src/editor.cpp:188-207 | at index 0 nothing changes; otherwise the character before the cursor is removed from the view, the index drops by one, the row drops exactly when a newline was removed, and the editor stays consistent |
| Editor.TotalLines | src/editor.cpp:341-345 | the count is the document's number of lines, but at least 1 |
| Text.SpliceLineCount | src/piecetable.cpp:250-264 | splicing a non-empty run without newlines into a text adds a line only when the text was empty or the run opens a new last line after a final newline |
| Editor.TotalLinesOfView | src/editor.cpp:341-345 | the status count equals the line count of the view, except that it is one short while a pending batch opens a new last line after a final newline |
| Editor.Line | src/editor.cpp:151-157 | returns line k of the document, or the empty string out of range |
| EditorFindings.DeleteCharAsWritten | src/editor.cpp:188-207 | as written, backspace marks the editor dirty and keeps the pending batch. At index 0 nothing else changes. Otherwise the index drops by one and the table loses its character at index-1 (nothing if that is past its end). The row drops exactly when that character is a newline, and the column is then the length of the joined line; otherwise the column drops by one |
| EditorFindings.DeleteAgrees | src/editor.cpp:188-207 | with nothing pending and no newline removed, backspace as written equals the corrected backspace |
| EditorFindings.BackspaceMissesBatch | src/editor.cpp:188-207 | with "x" pending at 0 over "ab", the routine as written turns the view "xab" into "xb"; the corrected one gives "ab" |
| EditorFindings.BackspaceColumnAfterJoin | src/editor.cpp:196-204 | joining "ab" and "cd" as written puts the column at 4, which is inconsistent; corrected, it is 2 |
| EditorFindings.UpPastLineEnd | src/editor.cpp:245-254 | moving up as written, with the remembered column past the target line's end, leaves the cursor off its line |
| EditorFindings.DownPastLineEnd | src/editor.cpp:277-286 | the same holds for moving down |
| EditorFindings.DownPastLineEndExample | src/editor.cpp:277-286 | the cursor (index 6, row 2, column 1, remembered 4) in "aaaa\nb\ncc" meets that hypothesis |
| EditorFindings.UpPastLineEndExample | src/editor.cpp:245-254 | the cursor (index 4, row 2, column 1, remembered 4) in "cc\nb\naaaa" meets that hypothesis |
| EditorFindings.DownFromLastCountedLine | src/editor.cpp:268-273 | in a document that ends with a newline, moving down from the last counted line as written jumps to the end index but keeps the row |
| EditorFindings.DownFromLastCountedLineExample | src/editor.cpp:268-273 | the cursor at the start of "a\n" meets that hypothesis |
| EditorFindings.PhantomRowsGrow | src/editor.cpp:268-286 | below the last counted line, moving down as written adds a row every time |
| EditorFindings.UncountedLastLine | src/tui.cpp:143-151 | with "x" typed on the empty last line of "a\n", the editor is consistent and shows "a\nx", but the status count is 1 while the view has 2 lines, so the screen draws no row for the "x" |
| EditorFindings.UpAgrees | src/editor.cpp:232-255 | when the remembered column fits the target line, the corrected upward move equals the one as written |
| EditorFindings.DownAgrees | src/editor.cpp:257-287 | when the remembered column fits and the document does not end in a newline, the corrected downward move equals the one as written |
| EditorFindings.PhantomRowStays | src/editor.cpp:268-273 | the corrected downward move keeps a consistent cursor on its row |

## Left out

- Priorities: the SplitMix64 generator (`include/implicit_treap.h:26-34`) is replaced by priorities passed as parameters. No property depends on their values.
- Heap order of split: the treap's `split`, `insert`, `erase` and `find_line_position` are modelled from how `src/piecetable.cpp` calls them (`include/implicit_treap.h:90-92` declares the first three). A mid-piece split gives the new right half a fresh priority and the old right child. That can break heap order, so heap order is proved only for `merge` (`Treap.MergeHeap`) and is not part of `Valid`.
- The treap's split strategy is fixed to the piece table's: newline counts on both halves are recounted from the buffer.
- Memory handling is not modelled: node allocation, deletion, the move constructor and assignment. `copy_nodes` and `get_pieces` are modelled as pure functions.
- I/O is not modelled: `open` reading the file, `save` (which writes the table without flushing the pending batch), `quit`, and the whole terminal UI. `Editor.Open` takes the file's contents as a string.
- `Editor.MaxBatch` (64) stands for `m_max_insert_buffer_length`. `src/editor.cpp` does not fix its value, and only the flush at the cap (`src/editor.cpp:179-182`) depends on it.
- Bytes: positions, lengths and columns count the bytes of a `std::string`. A Dafny `char` stands for one byte, so UTF-8 text is modelled byte by byte, and a multi-byte character spans several positions.
- Integer width: `size_t` arithmetic is unbounded, except for the two decrements of an unsigned 0 that the editor can reach (`Editor.Dec`, which wraps to 2^64-1).
- Editor.InsertCharSpec: assumes the typed character is not `\r`. The terminal front end turns Enter into `\n`, and a raw `\r` would be dropped by the table while the cursor still advanced.
- Editor.TotalLines: counts the lines of the table only, as the source does. The pending batch holds no newline, so the count matches the view except in one case. It is one short while the batch opens a new last line after a final newline (`Editor.TotalLinesOfView`, `EditorFindings.UncountedLastLine`). The terminal UI, which then draws `~` for that row, is not modelled.
- Editor.Open: models opening a file into a fresh editor. The source keeps any pending batch across `open`, but it is only called once, at start-up.
- Editor.DeleteCharSpec: flushes the pending batch before removing, which the source does not (see Findings). `EditorFindings.DeleteCharAsWritten` is the routine as written.
- Editor.BackspacedSpec: takes the new column from the previous line's length before the removal, not after (see Findings).
- Editor.MoveUpSpec: the column on the previous row is the remembered column clamped to that row's length (`Editor.TargetCol`), where the source restores the remembered column unclamped (see Findings).
- Editor.MoveDownSpec: on the last counted line, the cursor stays at the end of that line instead of jumping to the document's end. On the extra row after a final newline, the cursor stays where it is, while the source adds a row on every move down (`EditorFindings.PhantomRowsGrow`, `EditorFindings.PhantomRowStays`). Elsewhere the column is clamped like `Editor.MoveUpSpec`. The corrected and as-written moves agree unless the document ends in a newline or the remembered column does not fit (`EditorFindings.DownAgrees`).
- Editor.DownOnLastLine: stays at the end of the current line, where the source sets the index to the document's length and keeps the row (`EditorFindings.DownFromLastCountedLine`).
- Editor.DownToNextLine: the column on the next row is the clamped remembered column, where the source restores it unclamped (`EditorFindings.DownPastLineEnd`).
- Editor.TargetCol: clamps the remembered column to the target line's length, the evidently intended behaviour. The source restores it unclamped (see Findings).
- Editor.MoveSpec: consistency is kept by the corrected vertical moves only. The as-written moves break it (`EditorFindings.UpPastLineEnd`, `EditorFindings.DownPastLineEnd`).
- `find_by_line` routing: the model proves lookup succeeds and returns a real piece, not the exact piece the source picks when a line starts at a piece boundary. The piece table's line queries use the newline search (`Treap.NthNewlineSpec`) instead.
- Fallback branches in `get_index_for_line` and `get_line` for a lookup that finds nothing are proved unreachable and are not modelled as separate results.

## Findings

| source | as written | input that shows it | evidently intended | confidence | as-written member | corrected member |
|---|---|---|---|---|---|---|
| src/editor.cpp:188-207 | backspace removes from the piece table without flushing the pending batch | "ab" with "x" typed at 0 and the cursor after it: the view "xab" becomes "xb" | flush first, then remove the character before the cursor, giving "ab" | high, not executed | EditorFindings.BackspaceMissesBatch | Editor.DeleteCharSpec |
| src/editor.cpp:196-204 | after deleting a newline, the new column is read from the line length of the already-joined text | "ab\ncd" with the cursor at the start of "cd": the column becomes 4 instead of 2 | take the length of the previous line before the removal | high, not executed | EditorFindings.BackspaceColumnAfterJoin | Editor.BackspacedSpec |
| src/editor.cpp:245-254, 277-286 | a vertical move restores the remembered column without clamping it to the target line's length | "aaaa\nb\ncc", cursor on "b" at column 1 remembering 4, moving down: column 4 on a 2-character line | clamp the remembered column to the target line's length | high, not executed | EditorFindings.DownPastLineEnd | Editor.MoveDownSpec |
| src/editor.cpp:268-273 | moving down on the last counted line of a document ending in a newline jumps to the end index but keeps the row; below that line each move adds a row | "a\n" with the cursor at the start: the index becomes 2 while the row stays 1 | stay at the end of the current line, keeping the row | medium, not executed | EditorFindings.DownFromLastCountedLine | Editor.DownOnLastLine |
