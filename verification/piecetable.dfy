// The piece table: two buffers and a treap of pieces over them, seen as
// one editable document with byte- and line-oriented queries.
module PieceTable {
  import opened Text
  import opened Pieces
  import opened Treap

  /** The original buffer (the text the table was built from), the
      append-only add buffer and the treap of pieces over both. */
  datatype Table = Table(bufs: Buffers, tree: Tree)

  /** The treap's caches are right and every piece lies in its buffer
      with its newline count right. */
  predicate Inv(pt: Table)
  {
    Valid(pt.bufs, pt.tree)
  }

  /** The document the table holds. */
  function Document(pt: Table): seq<char>
    requires Inv(pt)
  {
    Content(pt.bufs, pt.tree)
  }

  // ---------------------------------------------------------------------
  // Construction

  /** The table built with no text. */
  function Empty(): (pt: Table)
    ensures Inv(pt) && Document(pt) == []
  {
    Table(Buffers([], []), Leaf)
  }

  /** Counts the newlines of a string one character at a time. */
  method CountNewlines(s: seq<char>) returns (n: nat)
    ensures n == Newlines(s)
  {
    n := 0;
    var i := 0;
    while i < |s|
      invariant i <= |s| && n == NewlinesBefore(s, i)
    {
      if s[i] == '\n' {
        n := n + 1;
      }
      i := i + 1;
    }
  }

  /** The table built from `text`: carriage returns are dropped, the rest
      becomes the original buffer and one piece covers all of it. The
      insert of that piece may draw two priorities; an empty text inserts
      nothing. */
  function FromText(text: seq<char>, r1: nat, r2: nat): (pt: Table)
    ensures Inv(pt) && Document(pt) == Normalize(text)
  {
    var norm := Normalize(text);
    var b := Buffers(norm, []);
    var p := Piece(Original, 0, |norm|, Newlines(norm));
    assert PieceText(b, p) == norm;
    Treap.InsertSpec(b, Leaf, 0, p, r1, r2);
    Table(b, Treap.Insert(b, Leaf, 0, p, r1, r2))
  }

  // ---------------------------------------------------------------------
  // Size

  /** The document's length, read off the root's cached length. */
  function Length(pt: Table): (n: nat)
    requires Inv(pt)
    ensures n == |Document(pt)|
  {
    ContentMeasures(pt.bufs, pt.tree);
    Size(pt.tree)
  }

  // ---------------------------------------------------------------------
  // Editing

  /** Inserts `text` at byte `pos`: carriage returns are dropped, a
      position past the end means the end, the bytes go to the end of the
      add buffer, and one new piece refers to them. */
  function Insert(pt: Table, pos: nat, text: seq<char>, r1: nat, r2: nat): (res: Table)
    requires Inv(pt)
    ensures Inv(res)
    ensures var d := Document(pt); var at := Min(pos, |d|);
      Document(res) == d[..at] + Normalize(text) + d[at..]
    ensures res.bufs.original == pt.bufs.original
    ensures res.bufs.add == pt.bufs.add + Normalize(text)
  {
    var norm := Normalize(text);
    var at := if pos > Length(pt) then Length(pt) else pos;
    var b2 := Buffers(pt.bufs.original, pt.bufs.add + norm);
    var p := Piece(Add, |pt.bufs.add|, |norm|, Newlines(norm));
    ExtendsKeepsTree(pt.bufs, b2, pt.tree);
    AddedPiece(pt.bufs, norm);
    Treap.InsertSpec(b2, pt.tree, at, p, r1, r2);
    Table(b2, Treap.Insert(b2, pt.tree, at, p, r1, r2))
  }

  /** Insertion never disturbs bytes already referred to: any piece that
      lay in the old buffers spells the same text in the new ones. */
  lemma {:induction false} InsertKeepsPieces(pt: Table, pos: nat, text: seq<char>, r1: nat, r2: nat, p: Piece)
    requires Inv(pt) && PieceOk(pt.bufs, p)
    ensures PieceOk(Insert(pt, pos, text, r1, r2).bufs, p)
    ensures PieceText(Insert(pt, pos, text, r1, r2).bufs, p) == PieceText(pt.bufs, p)
  {
    ExtendsKeepsPiece(pt.bufs, Insert(pt, pos, text, r1, r2).bufs, p);
  }

  /** The new bytes are part of the add buffer and are what the new piece
      refers to. */
  lemma {:induction false} AddedPiece(b: Buffers, norm: seq<char>)
    ensures PieceOk(Buffers(b.original, b.add + norm), Piece(Add, |b.add|, |norm|, Newlines(norm)))
    ensures PieceText(Buffers(b.original, b.add + norm), Piece(Add, |b.add|, |norm|, Newlines(norm))) == norm
  {
    var b2 := Buffers(b.original, b.add + norm);
    assert b2.add[|b.add|..|b.add| + |norm|] == norm;
  }

  /** Removes `len` bytes from byte `pos` on. A start past the end removes
      nothing; a range running past the end stops there. */
  function Remove(pt: Table, pos: nat, len: nat, r1: nat, r2: nat): (res: Table)
    requires Inv(pt)
    ensures Inv(res)
    ensures var d := Document(pt);
      Document(res) == if pos > |d| then d else d[..pos] + d[Min(pos + len, |d|)..]
    ensures res.bufs == pt.bufs
  {
    if pos > Length(pt) then pt
    else
      var n := if pos + len > Length(pt) then Length(pt) - pos else len;
      EraseSpec(pt.bufs, pt.tree, pos, n, r1, r2);
      assert Min(pos + n, Length(pt)) == Min(pos + len, Length(pt)) && Min(pos, Length(pt)) == pos;
      Table(pt.bufs, Erase(pt.bufs, pt.tree, pos, n, r1, r2))
  }

  /** Removing what was just inserted, from where it was put, gives the
      document back. */
  lemma {:induction false} InsertThenRemove(pt: Table, pos: nat, text: seq<char>, r1: nat, r2: nat, r3: nat, r4: nat)
    requires Inv(pt)
    ensures Document(Remove(Insert(pt, pos, text, r1, r2), Min(pos, |Document(pt)|), |Normalize(text)|, r3, r4))
            == Document(pt)
  {
    var d := Document(pt);
    var t1 := Insert(pt, pos, text, r1, r2);
    SpliceOut(d, Min(pos, |d|), Normalize(text), Document(t1));
  }

  /** Cutting out of `d1` the `x` that was spliced into `d` at `at` gives `d`. */
  lemma {:induction false} SpliceOut(d: seq<char>, at: nat, x: seq<char>, d1: seq<char>)
    requires at <= |d| && d1 == d[..at] + x + d[at..]
    ensures at <= |d1| && d1[..at] + d1[Min(at + |x|, |d1|)..] == d
  {
    assert d1[..at] == d[..at] && d1[at + |x|..] == d[at..];
    assert d[..at] + d[at..] == d;
  }

  /** Inserting nothing changes nothing; neither does removing nothing or
      removing from past the end. */
  lemma {:induction false} EmptyEditsKeepDocument(pt: Table, pos: nat, len: nat, r1: nat, r2: nat)
    requires Inv(pt)
    ensures Document(Insert(pt, pos, [], r1, r2)) == Document(pt)
    ensures Document(Remove(pt, pos, 0, r1, r2)) == Document(pt)
    ensures pos > |Document(pt)| ==> Document(Remove(pt, pos, len, r1, r2)) == Document(pt)
  {
    var d := Document(pt);
    assert d[..Min(pos, |d|)] + d[Min(pos, |d|)..] == d;
    if pos <= |d| {
      assert d[..pos] + d[pos..] == d;
    }
  }

  /** The insertion test, step by step, whatever priorities are drawn:
      "Awesome " goes in front of "Hello world!", ... */
  lemma {:induction false} InsertFrontExample(pt: Table, r1: nat, r2: nat)
    requires Inv(pt) && Document(pt) == "Hello world!"
    ensures Document(Insert(pt, 0, "Awesome ", r1, r2)) == "Awesome " + "Hello world!"
    ensures Length(Insert(pt, 0, "Awesome ", r1, r2)) == 20
  {
    var s0, s1 := "Hello world!", "Awesome ";
    assert '\r' !in s1;
    InsertPlain(pt, 0, s1, r1, r2);
    SpliceCases(s1, [], s0);
  }

  /** ... "new " goes in the middle, ... */
  lemma {:induction false} InsertMiddleExample(pt: Table, r1: nat, r2: nat)
    requires Inv(pt) && Document(pt) == "Awesome " + "Hello world!"
    ensures Document(Insert(pt, 8, "new ", r1, r2)) == "Awesome " + "new " + "Hello world!"
    ensures Length(Insert(pt, 8, "new ", r1, r2)) == 24
  {
    var s0, s1, s2 := "Hello world!", "Awesome ", "new ";
    assert |s1| == 8 && '\r' !in s2;
    InsertPlain(pt, 8, s2, r1, r2);
    SpliceCases(s1, s2, s0);
  }

  /** ... and " It's a beautiful day." goes at the end. */
  lemma {:induction false} InsertEndExample(pt: Table, r1: nat, r2: nat)
    requires Inv(pt) && Document(pt) == "Awesome " + "new " + "Hello world!"
    ensures Document(Insert(pt, 24, " It's a beautiful day.", r1, r2))
            == "Awesome " + "new " + "Hello world!" + " It's a beautiful day."
    ensures Length(Insert(pt, 24, " It's a beautiful day.", r1, r2)) == 46
  {
    var a, s3 := "Awesome " + "new " + "Hello world!", " It's a beautiful day.";
    assert |a| == 24 && '\r' !in s3;
    InsertPlain(pt, 24, s3, r1, r2);
    SpliceCases(a, s3, []);
  }

  /** Splicing at the front, in the middle and at the end. */
  lemma {:induction false} SpliceCases(a: seq<char>, b: seq<char>, c: seq<char>)
    ensures c[..0] + a + c[0..] == a + c
    ensures (a + c)[..|a|] + b + (a + c)[|a|..] == a + b + c
    ensures a[..|a|] + b + a[|a|..] == a + b
  {
    assert c[..0] == [] && c[0..] == c && a[..|a|] == a && a[|a|..] == [];
    assert (a + c)[..|a|] == a && (a + c)[|a|..] == c;
  }

  /** Inserting text without carriage returns at a position inside the
      document splices exactly that text in. */
  lemma {:induction false} InsertPlain(pt: Table, pos: nat, x: seq<char>, r1: nat, r2: nat)
    requires Inv(pt) && '\r' !in x && pos <= |Document(pt)|
    ensures Document(Insert(pt, pos, x, r1, r2)) == Document(pt)[..pos] + x + Document(pt)[pos..]
  {
    NormalizeIdentity(x);
  }

  /** Removing more than the document holds empties it: "short" minus 100
      bytes from the start is the empty document. */
  lemma {:induction false} ClampedRemoveExample(r: seq<nat>)
    requires |r| == 4
    ensures Document(Remove(FromText("short", r[0], r[1]), 0, 100, r[2], r[3])) == []
  {
    NormalizeIdentity("short");
  }

  /** Empties both buffers and the tree. */
  function Clear(pt: Table): (res: Table)
    ensures Inv(res) && Document(res) == []
    ensures res.bufs == Buffers([], []) && Treap.Empty(res.tree)
  {
    Empty()
  }

  // ---------------------------------------------------------------------
  // Byte access

  /** The byte at `i`, or the NUL character past the end: the treap
      finds the piece holding byte `i` and its buffer supplies the byte. */
  method GetCharAt(pt: Table, i: nat) returns (c: char)
    requires Inv(pt)
    ensures c == if i < |Document(pt)| then Document(pt)[i] else '\0'
  {
    if i >= Length(pt) {
      return '\0';
    }
    FindByByteSpec(pt.tree, i);
    ContentMeasures(pt.bufs, pt.tree);
    match FindByByte(pt.tree, i)
    case None =>
      assert false;
      return '\0';
    case Some(h) =>
      CharInPiece(pt.bufs, pt.tree, h, i);
      return Source(pt.bufs, h.piece.buf)[h.piece.start + i - h.offset];
  }

  /** A byte inside a located piece is read from the piece's buffer at the
      same distance from the piece's start. */
  lemma {:induction false} CharInPiece(b: Buffers, t: Tree, h: Hit, i: nat)
    requires AllOk(b, t) && Locates(t, h) && h.offset <= i < h.offset + h.piece.length
    ensures i < |Content(b, t)| && InBounds(b, h.piece)
    ensures Content(b, t)[i] == Source(b, h.piece.buf)[h.piece.start + i - h.offset]
  {
    LocatedText(b, t, h);
    var c := Content(b, t);
    var src := Source(b, h.piece.buf);
    assert c[h.offset..h.offset + h.piece.length] == src[h.piece.start..h.piece.start + h.piece.length];
    CharInSlice(c, src, h.offset, h.piece.start, h.piece.length, i);
  }

  lemma {:induction false} CharInSlice(c: seq<char>, src: seq<char>, off: nat, start: nat, len: nat, i: nat)
    requires off + len <= |c| && start + len <= |src|
    requires c[off..off + len] == src[start..start + len]
    requires off <= i < off + len
    ensures c[i] == src[start + i - off]
  {
    assert c[i] == c[off..off + len][i - off];
  }

  // ---------------------------------------------------------------------
  // Lines

  /** The number of lines: none in an empty document, and a final newline
      does not open a further line. */
  method GetLineCount(pt: Table) returns (n: nat)
    requires Inv(pt)
    ensures n == LineCount(Document(pt)) && n == |Lines(Document(pt))|
  {
    ghost var d := Document(pt);
    ContentMeasures(pt.bufs, pt.tree);
    LinesCount(d);
    if Treap.Empty(pt.tree) {
      return 0;
    }
    if Length(pt) == 0 {
      return 0;
    }
    var newlines := NewlineCount(pt.tree);
    if newlines == 0 {
      return 1;
    }
    var last := GetCharAt(pt, Length(pt) - 1);
    return if last == '\n' then newlines else newlines + 1;
  }

  /** A newline at index `i` of a slice of `d`, seen from `d`. */
  lemma {:induction false} NewlineInSlice(d: seq<char>, v: seq<char>, off: nat, i: nat)
    requires off + |v| <= |d| && d[off..off + |v|] == v
    requires i < |v| && v[i] == '\n'
    ensures d[off + i] == '\n'
    ensures NewlinesBefore(d, off + i + 1) == NewlinesBefore(d, off) + NewlinesBefore(v, i) + 1
  {
    assert d[off + i] == v[i];
    NewlinesSlice(d, off, off + |v|, i);
  }

  /** Line `k` starts right after the `k - 1`-th newline of the document;
      when that newline is newline number `inPiece` of a located piece,
      found at index `i` of the piece's text, the line starts at the
      piece's offset plus `i + 1`. */
  lemma {:induction false} LineStartInPiece(b: Buffers, t: Tree, lh: LineHit, k: nat, i: nat)
    requires Valid(b, t) && 2 <= k && LocatesNewline(t, lh, k - 1)
    requires InBounds(b, lh.hit.piece) && i < lh.hit.piece.length
    requires PieceText(b, lh.hit.piece)[i] == '\n'
    requires NewlinesBefore(PieceText(b, lh.hit.piece), i) + 1 == lh.inPiece
    ensures k <= Newlines(Content(b, t)) + 1
    ensures LineStart(Content(b, t), k) == lh.hit.offset + i + 1
  {
    LocatedText(b, t, lh.hit);
    LocatedNewlines(b, t, lh.hit);
    LineStartAfter(Content(b, t), PieceText(b, lh.hit.piece), lh.hit.offset, i, k);
  }

  lemma {:induction false} LineStartAfter(d: seq<char>, v: seq<char>, off: nat, i: nat, k: nat)
    requires off + |v| <= |d| && d[off..off + |v|] == v
    requires i < |v| && v[i] == '\n' && 1 <= k
    requires NewlinesBefore(d, off) + NewlinesBefore(v, i) + 1 == k - 1
    ensures k <= Newlines(d) + 1
    ensures LineStart(d, k) == off + i + 1
  {
    NewlineInSlice(d, v, off, i);
    LineStartUnique(d, k, off + i + 1);
  }

  /** Scans a piece's bytes for its `m`-th newline (1-based). */
  method FindNewlineInPiece(b: Buffers, p: Piece, m: nat) returns (i: nat)
    requires PieceOk(b, p) && 1 <= m <= p.newlines
    ensures i < p.length && PieceText(b, p)[i] == '\n'
    ensures NewlinesBefore(PieceText(b, p), i) + 1 == m
  {
    var buf := Source(b, p.buf);
    ghost var v := PieceText(b, p);
    i := 0;
    var seen := 0;
    while i < p.length
      invariant i <= p.length && seen == NewlinesBefore(v, i) && seen < m
    {
      if buf[p.start + i] == '\n' {
        seen := seen + 1;
        if seen == m {
          return;
        }
      }
      i := i + 1;
    }
    assert false;
  }

  /** The byte index where line `k` (1-based) starts: 0 for line 0 and for
      an empty document, the document's length past the last line. Other
      lines start right after a newline: the treap finds the piece holding
      it and a scan of that piece finds the newline itself. */
  method GetIndexForLine(pt: Table, k: nat) returns (r: nat)
    requires Inv(pt)
    ensures k == 0 || Document(pt) == [] ==> r == 0
    ensures Document(pt) != [] && k > LineCount(Document(pt)) ==> r == |Document(pt)|
    ensures 1 <= k <= LineCount(Document(pt)) ==> r == LineStart(Document(pt), k)
  {
    ContentMeasures(pt.bufs, pt.tree);
    if k == 0 || Treap.Empty(pt.tree) {
      return 0;
    }
    var total := GetLineCount(pt);
    if k > total {
      return Length(pt);
    }
    if k == 1 {
      return 0;
    }
    NthNewlineSpec(pt.tree, k - 1);
    var lh := FindLinePosition(pt.tree, k).value;
    LocatedNewlines(pt.bufs, pt.tree, lh.hit);
    var i := FindNewlineInPiece(pt.bufs, lh.hit.piece, lh.inPiece);
    LineStartInPiece(pt.bufs, pt.tree, lh, k, i);
    return lh.hit.offset + i + 1;
  }

  // ---------------------------------------------------------------------
  // Walking the pieces

  /** Lists the document's text piece by piece, in order. */
  method ToString(pt: Table) returns (text: seq<char>)
    requires Inv(pt)
    ensures text == Document(pt)
  {
    var ps := GetPieces(pt.tree, []);
    assert ps == InOrder(pt.tree);
    ContentConcat(pt.bufs, pt.tree);
    text := AppendPieces(pt.bufs, ps);
  }

  /** Appends the bytes of each piece, in order. */
  method AppendPieces(b: Buffers, ps: seq<Piece>) returns (text: seq<char>)
    requires AllInBounds(b, ps)
    ensures text == Concat(b, ps)
  {
    text := [];
    var j := 0;
    while j < |ps|
      invariant j <= |ps| && text == FlattenUpTo(Texts(b, ps), j)
    {
      FlattenStep(b, ps, j);
      text := text + Source(b, ps[j].buf)[ps[j].start..ps[j].start + ps[j].length];
      j := j + 1;
    }
  }

  lemma {:induction false} FlattenStep(b: Buffers, ps: seq<Piece>, j: nat)
    requires AllInBounds(b, ps) && j < |ps|
    ensures FlattenUpTo(Texts(b, ps), j + 1) ==
      FlattenUpTo(Texts(b, ps), j) + Source(b, ps[j].buf)[ps[j].start..ps[j].start + ps[j].length]
  {
    assert Texts(b, ps)[j] == PieceText(b, ps[j]);
  }

  /** The bytes of a piece from offset `off` on, seen in the document. */
  lemma {:induction false} ViewInDocument(d: seq<char>, src: seq<char>, cur: nat, start: nat, len: nat, off: nat)
    requires cur + len <= |d| && start + len <= |src| && off <= len
    requires d[cur..cur + len] == src[start..start + len]
    ensures d[cur + off..cur + len] == src[start + off..start + len]
  {
    assert d[cur + off..cur + len] == d[cur..cur + len][off..];
  }

  /** A chunk `d[a..pend]` of the current line that contains a newline:
      the line ends at its first one. */
  lemma {:induction false} ChunkEndsLine(d: seq<char>, s: nat, a: nat, pend: nat, view: seq<char>)
    requires s <= a <= pend <= |d| && NewlinesBefore(d, a) == NewlinesBefore(d, s)
    requires view == d[a..pend] && NextNewline(view, 0) < |view|
    ensures a + NextNewline(view, 0) == NextNewline(d, s)
    ensures d[s..a] + view[..NextNewline(view, 0)] == d[s..NextNewline(d, s)]
  {
    var np := NextNewline(view, 0);
    NextNewlineSpec(view, 0);
    NewlinesSlice(d, a, pend, np);
    assert d[a + np] == view[np];
    NextNewlineUnique(d, s, a + np);
    assert view[..np] == d[a..a + np];
  }

  /** A chunk of the current line without a newline: the line goes on at
      least to its end. */
  lemma {:induction false} ChunkContinuesLine(d: seq<char>, s: nat, a: nat, pend: nat, view: seq<char>)
    requires s <= a <= pend <= |d| && NewlinesBefore(d, a) == NewlinesBefore(d, s)
    requires view == d[a..pend] && NextNewline(view, 0) == |view|
    ensures NewlinesBefore(d, pend) == NewlinesBefore(d, s)
    ensures pend <= NextNewline(d, s)
    ensures d[s..a] + view == d[s..pend]
  {
    NextNewlineSpec(view, 0);
    NewlinesSlice(d, a, pend, |view|);
    assert view[..|view|] == view;
    NextNewlineBeyond(d, s, pend);
  }

  /** Where a walk for the line starting at `s` stands once it has
      visited the bytes before `cur`: not started (nothing collected, `s`
      not yet reached) or started (the bytes from `s` to `cur` collected,
      none of them a newline). */
  predicate Walked(d: seq<char>, s: nat, cur: nat, started: bool, line: seq<char>)
    requires s < |d|
  {
    if started then s <= cur <= |d| && NewlinesBefore(d, cur) == NewlinesBefore(d, s) && line == d[s..cur]
    else line == [] && cur <= s
  }

  /** A walk that reached the end of the document without meeting a
      newline has collected the last line. */
  lemma {:induction false} WalkedToEnd(d: seq<char>, s: nat, started: bool, line: seq<char>)
    requires s < |d| && Walked(d, s, |d|, started, line)
    ensures line == d[s..NextNewline(d, s)]
  {
    NextNewlineUnique(d, s, |d|);
  }

  /** The visit of one piece in `get_line`'s walk; `stop` ends the walk
      once the line's newline is found. */
  method VisitPiece(b: Buffers, p: Piece, ghost d: seq<char>, s: nat, cur: nat, started: bool, line: seq<char>)
    returns (started': bool, line': seq<char>, stop: bool)
    requires InBounds(b, p) && cur + p.length <= |d| && d[cur..cur + p.length] == PieceText(b, p)
    requires s < |d| && Walked(d, s, cur, started, line)
    ensures stop ==> line' == d[s..NextNewline(d, s)]
    ensures !stop ==> Walked(d, s, cur + p.length, started', line')
  {
    var pend := cur + p.length;
    if !started && s >= cur && s < pend {
      var off := s - cur;
      var view := Source(b, p.buf)[p.start + off..p.start + p.length];
      ViewInDocument(d, Source(b, p.buf), cur, p.start, p.length, off);
      var np := NextNewline(view, 0);
      if np < |view| {
        ChunkEndsLine(d, s, s, pend, view);
        return true, line + view[..np], true;
      }
      ChunkContinuesLine(d, s, s, pend, view);
      return true, line + view, false;
    } else if started {
      var view := Source(b, p.buf)[p.start..p.start + p.length];
      var np := NextNewline(view, 0);
      if np < |view| {
        ChunkEndsLine(d, s, cur, pend, view);
        return true, line + view[..np], true;
      }
      ChunkContinuesLine(d, s, cur, pend, view);
      return true, line + view, false;
    }
    return started, line, false;
  }

  /** The walk behind `get_line`: visit the pieces in order; in the piece
      holding byte `s` start collecting at `s`, and stop at the first
      newline after it. */
  method WalkLine(b: Buffers, ps: seq<Piece>, ghost d: seq<char>, s: nat) returns (line: seq<char>)
    requires AllInBounds(b, ps) && d == Concat(b, ps) && s < |d|
    ensures line == d[s..NextNewline(d, s)]
  {
    var cur := 0;
    var started := false;
    line := [];
    var j := 0;
    while j < |ps|
      invariant j <= |ps| && cur == LengthUpTo(ps, j) && Walked(d, s, cur, started, line)
    {
      PieceInConcat(b, ps, j);
      var stop;
      started, line, stop := VisitPiece(b, ps[j], d, s, cur, started, line);
      if stop {
        return;
      }
      cur := cur + ps[j].length;
      j := j + 1;
    }
    FlattenUpToLength(b, ps, |ps|);
    WalkedToEnd(d, s, started, line);
  }

  /** The bytes from `s` up to the next newline, by walking the pieces. */
  method LineFrom(pt: Table, s: nat) returns (line: seq<char>)
    requires Inv(pt) && s < |Document(pt)|
    ensures line == Document(pt)[s..NextNewline(Document(pt), s)]
  {
    var ps := GetPieces(pt.tree, []);
    assert ps == InOrder(pt.tree);
    ContentConcat(pt.bufs, pt.tree);
    line := WalkLine(pt.bufs, ps, Document(pt), s);
  }

  /** Line `k` (1-based) without its newline, or nothing when there is no
      such line. */
  method GetLine(pt: Table, k: nat) returns (line: seq<char>)
    requires Inv(pt)
    ensures 1 <= k <= LineCount(Document(pt)) ==> line == LineText(Document(pt), k)
    ensures !(1 <= k <= LineCount(Document(pt))) ==> line == []
  {
    ghost var d := Document(pt);
    var count := GetLineCount(pt);
    if k == 0 || k > count {
      return [];
    }
    var s := GetIndexForLine(pt, k);
    var len := Length(pt);
    LineStartBeforeEnd(d, k);
    if s >= len && len > 0 {
      assert false;
      return [];
    }
    line := LineFrom(pt, s);
    LineTextToNewline(d, k);
  }

  /** Length of line `k` (1-based) without its newline, or 0 when there is
      no such line. */
  method GetLineLength(pt: Table, k: nat) returns (n: nat)
    requires Inv(pt)
    ensures 1 <= k <= LineCount(Document(pt)) ==> n == LineLength(Document(pt), k)
    ensures !(1 <= k <= LineCount(Document(pt))) ==> n == 0
  {
    var count := GetLineCount(pt);
    if k == 0 || k > count {
      return 0;
    }
    ghost var d := Document(pt);
    var st := GetIndexForLine(pt, k);
    LineStartBeforeEnd(d, k);
    var next := NextLineIndex(pt, k, count);
    LineLengthFromNext(d, k);
    n := TrimNewline(pt, st, next);
  }

  /** The distance from `st` to `next`, less one when the byte before
      `next` is a newline. */
  method TrimNewline(pt: Table, st: nat, next: nat) returns (n: nat)
    requires Inv(pt) && st < next <= |Document(pt)|
    ensures n == next - st - (if Document(pt)[next - 1] == '\n' then 1 else 0)
  {
    var e := next;
    if e > st && e <= Length(pt) {
      var last := GetCharAt(pt, e - 1);
      if last == '\n' {
        e := e - 1;
      }
    }
    n := if e > st then e - st else 0;
  }

  /** Where the line after line `k` starts, or the end of the document
      after the last line. */
  method NextLineIndex(pt: Table, k: nat, count: nat) returns (next: nat)
    requires Inv(pt) && count == LineCount(Document(pt)) && 1 <= k <= count
    ensures next == NextLineStart(Document(pt), k)
  {
    if k < count {
      LineStartBeforeEnd(Document(pt), k);
      next := GetIndexForLine(pt, k + 1);
    } else {
      next := Length(pt);
    }
  }
}
