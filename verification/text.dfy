/** Facts about documents as plain character sequences: newline counting,
    line-ending normalisation, line boundaries and cursor positions.
    Every layer above (treap, piece table, editor) is specified against
    these definitions. Positions are indexes between characters, from 0
    to |s|; rows are 1-based, columns 0-based. */
module Text {

  // ---------------------------------------------------------------------
  // Newline counting

  /** Number of '\n' characters among the first `n` of `s`. */
  function NewlinesBefore(s: seq<char>, n: nat): (r: nat)
    requires n <= |s|
    ensures r <= n
  {
    if n == 0 then 0
    else NewlinesBefore(s, n - 1) + (if s[n - 1] == '\n' then 1 else 0)
  }

  /** Number of '\n' characters in `s`. */
  function Newlines(s: seq<char>): nat
  {
    NewlinesBefore(s, |s|)
  }

  /** Counting up to a later position never gives less, and gives no more
      than the number of characters in between. */
  lemma {:induction false} NewlinesMonotone(s: seq<char>, i: nat, j: nat)
    requires i <= j <= |s|
    ensures NewlinesBefore(s, i) <= NewlinesBefore(s, j) <= NewlinesBefore(s, i) + (j - i)
    decreases j - i
  {
    if i < j {
      NewlinesMonotone(s, i, j - 1);
    }
  }

  /** The count is unchanged between two positions exactly when no newline
      lies between them. */
  lemma {:induction false} NoNewlineBetween(s: seq<char>, i: nat, j: nat)
    requires i <= j <= |s|
    ensures NewlinesBefore(s, i) == NewlinesBefore(s, j) <==>
              forall x :: i <= x < j ==> s[x] != '\n'
    decreases j - i
  {
    if i < j {
      NoNewlineBetween(s, i, j - 1);
      NewlinesMonotone(s, i, j - 1);
    }
  }

  /** Counting over a prefix of a concatenation. */
  lemma {:induction false} NewlinesConcat(a: seq<char>, b: seq<char>, n: nat)
    requires n <= |a| + |b|
    ensures NewlinesBefore(a + b, n) ==
      if n <= |a| then NewlinesBefore(a, n) else Newlines(a) + NewlinesBefore(b, n - |a|)
  {
    if n > 0 {
      NewlinesConcat(a, b, n - 1);
    }
  }

  lemma {:induction false} NewlinesAppend(a: seq<char>, b: seq<char>)
    ensures Newlines(a + b) == Newlines(a) + Newlines(b)
  {
    NewlinesConcat(a, b, |a| + |b|);
  }

  /** Counting up to `n` is counting in the prefix of length `n`. */
  lemma {:induction false} NewlinesPrefix(s: seq<char>, n: nat)
    requires n <= |s|
    ensures Newlines(s[..n]) == NewlinesBefore(s, n)
  {
    NewlinesSlice(s, 0, n, n);
    assert s[0..n] == s[..n];
  }

  /** Counting inside a slice is counting in the whole and subtracting. */
  lemma {:induction false} NewlinesSlice(s: seq<char>, i: nat, j: nat, n: nat)
    requires i <= j <= |s| && n <= j - i
    ensures NewlinesBefore(s, i) <= NewlinesBefore(s, i + n)
    ensures NewlinesBefore(s[i..j], n) == NewlinesBefore(s, i + n) - NewlinesBefore(s, i)
  {
    NewlinesMonotone(s, i, i + n);
    if n > 0 {
      NewlinesSlice(s, i, j, n - 1);
    }
  }

  // ---------------------------------------------------------------------
  // Line-ending normalisation

  /** The piece table deletes every carriage return, so "\r\n" and a bare
      "\r" both end up as the line structure given by the '\n's. */
  function Normalize(s: seq<char>): (r: seq<char>)
    ensures '\r' !in r
    ensures multiset(r) == multiset(s)['\r' := 0]
    ensures |r| <= |s|
  {
    if s == [] then []
    else
      assert s == [s[0]] + s[1..];
      if s[0] == '\r' then Normalize(s[1..]) else [s[0]] + Normalize(s[1..])
  }

  /** Normalisation distributes over concatenation, so it keeps the order
      of the characters it keeps. */
  lemma {:induction false} NormalizeAppend(a: seq<char>, b: seq<char>)
    ensures Normalize(a + b) == Normalize(a) + Normalize(b)
  {
    if a == [] {
      assert a + b == b;
    } else {
      assert (a + b)[1..] == a[1..] + b;
      NormalizeAppend(a[1..], b);
    }
  }

  /** Normalisation keeps every newline. */
  lemma {:induction false} NormalizeNewlines(s: seq<char>)
    ensures Newlines(Normalize(s)) == Newlines(s)
  {
    if s != [] {
      var rest := Normalize(s[1..]);
      NormalizeNewlines(s[1..]);
      assert s == [s[0]] + s[1..];
      NewlinesCons(s[0], s[1..]);
      if s[0] != '\r' {
        NewlinesCons(s[0], rest);
      }
    }
  }

  lemma {:induction false} NewlinesCons(c: char, s: seq<char>)
    ensures Newlines([c] + s) == (if c == '\n' then 1 else 0) + Newlines(s)
  {
    NewlinesAppend([c], s);
    assert NewlinesBefore([c], 0) == 0;
  }

  /** Text without carriage returns is left exactly as it is. */
  lemma {:induction false} NormalizeIdentity(s: seq<char>)
    requires '\r' !in s
    ensures Normalize(s) == s
  {
    if s != [] {
      assert s == [s[0]] + s[1..];
      assert '\r' !in s[1..];
      NormalizeIdentity(s[1..]);
    }
  }

  lemma {:induction false} NormalizeIdempotent(s: seq<char>)
    ensures Normalize(Normalize(s)) == Normalize(s)
  {
    NormalizeIdentity(Normalize(s));
  }

  // ---------------------------------------------------------------------
  // Lines, by position

  /** Position of the first '\n' at or after `i`, or `|s|` when there is
      none: the end of the line that position `i` lies on. */
  function NextNewline(s: seq<char>, i: nat): (j: nat)
    requires i <= |s|
    ensures i <= j <= |s|
    decreases |s| - i
  {
    if i == |s| || s[i] == '\n' then i
    else NextNewline(s, i + 1)
  }

  /** No newline lies between a position and its line end, and the line end
      is a newline unless it is the end of the text. */
  lemma {:induction false} NextNewlineSpec(s: seq<char>, i: nat)
    requires i <= |s|
    ensures NewlinesBefore(s, NextNewline(s, i)) == NewlinesBefore(s, i)
    ensures NextNewline(s, i) < |s| ==> s[NextNewline(s, i)] == '\n'
    decreases |s| - i
  {
    if i < |s| && s[i] != '\n' {
      NextNewlineSpec(s, i + 1);
    }
  }

  /** No newline lies between a position and its line end, and the line end
      is the first position with that property. */
  lemma {:induction false} NextNewlineUnique(s: seq<char>, i: nat, j: nat)
    requires i <= j <= |s|
    requires NewlinesBefore(s, j) == NewlinesBefore(s, i)
    requires j < |s| ==> s[j] == '\n'
    ensures NextNewline(s, i) == j
  {
    var e := NextNewline(s, i);
    NextNewlineSpec(s, i);
    if e < j {
      NewlinesMonotone(s, e + 1, j);
    } else if j < e {
      NewlinesMonotone(s, j + 1, e);
    }
  }

  /** A position reached without crossing a newline is not past the line
      end. */
  lemma {:induction false} NextNewlineBeyond(s: seq<char>, i: nat, g: nat)
    requires i <= g <= |s|
    requires NewlinesBefore(s, g) == NewlinesBefore(s, i)
    ensures g <= NextNewline(s, i)
  {
    var e := NextNewline(s, i);
    NextNewlineSpec(s, i);
    if e < g {
      NewlinesMonotone(s, e + 1, g);
    }
  }

  /** Position where line `k` starts: 0 for the first line, otherwise just
      past the end of line `k - 1`. Line `Newlines(s) + 1` is the (possibly
      empty) line after the last newline. */
  function LineStart(s: seq<char>, k: nat): (r: nat)
    requires 1 <= k <= Newlines(s) + 1
    ensures r <= |s|
    ensures NewlinesBefore(s, r) == k - 1
    ensures r == 0 || s[r - 1] == '\n'
  {
    if k == 1 then 0
    else
      var e := NextNewline(s, LineStart(s, k - 1));
      NextNewlineSpec(s, LineStart(s, k - 1));
      assert e < |s|;
      e + 1
  }

  /** Column (0-based) of position `g`: the number of characters since the
      newline before it, or since the start. */
  function Col(s: seq<char>, g: nat): (c: nat)
    requires g <= |s|
    ensures c <= g
    ensures NewlinesBefore(s, g - c) == NewlinesBefore(s, g)
    ensures g - c == 0 || s[g - c - 1] == '\n'
  {
    if g == 0 || s[g - 1] == '\n' then 0 else Col(s, g - 1) + 1
  }

  /** Row (1-based) of position `g`: one more than the newlines before it. */
  function Row(s: seq<char>, g: nat): (r: nat)
    requires g <= |s|
    ensures 1 <= r <= Newlines(s) + 1
  {
    NewlinesMonotone(s, g, |s|);
    1 + NewlinesBefore(s, g)
  }

  /** The column is determined by the newline-free stretch before `g`. */
  lemma {:induction false} ColUnique(s: seq<char>, g: nat, c: nat)
    requires c <= g <= |s|
    requires NewlinesBefore(s, g - c) == NewlinesBefore(s, g)
    requires g - c == 0 || s[g - c - 1] == '\n'
    ensures Col(s, g) == c
  {
    if c > 0 {
      NewlinesMonotone(s, g - c, g - 1);
      ColUnique(s, g - 1, c - 1);
    } else if g > 0 {
      assert s[g - 1] == '\n';
    }
  }

  /** Line starts are determined by the number of newlines before them. */
  lemma {:induction false} LineStartUnique(s: seq<char>, k: nat, r: nat)
    requires 1 <= k && r <= |s|
    requires NewlinesBefore(s, r) == k - 1
    requires r == 0 || s[r - 1] == '\n'
    ensures k <= Newlines(s) + 1
    ensures LineStart(s, k) == r
    decreases k
  {
    NewlinesMonotone(s, r, |s|);
    if k > 1 {
      var r0 := (r - 1) - Col(s, r - 1);
      LineStartUnique(s, k - 1, r0);
      NextNewlineUnique(s, r0, r - 1);
    }
  }

  /** When the text ends with '\n', the line after the last newline starts at
      the very end and is empty. */
  lemma {:induction false} LastLineStartAtEnd(s: seq<char>)
    requires s != [] && s[|s| - 1] == '\n'
    ensures LineStart(s, Newlines(s) + 1) == |s|
  {
    LineStartUnique(s, Newlines(s) + 1, |s|);
  }

  /** Number of characters on line `k`, without its terminating newline. */
  function LineLength(s: seq<char>, k: nat): (n: nat)
    requires 1 <= k <= Newlines(s) + 1
    ensures LineStart(s, k) + n <= |s|
    ensures NewlinesBefore(s, LineStart(s, k) + n) == k - 1
    ensures LineStart(s, k) + n < |s| ==> s[LineStart(s, k) + n] == '\n'
  {
    NextNewlineSpec(s, LineStart(s, k));
    NextNewline(s, LineStart(s, k)) - LineStart(s, k)
  }

  /** The characters of line `k`, without its terminating newline. */
  function LineText(s: seq<char>, k: nat): (t: seq<char>)
    requires 1 <= k <= Newlines(s) + 1
    ensures |t| == LineLength(s, k)
    ensures '\n' !in t
  {
    var st := LineStart(s, k);
    var n := LineLength(s, k);
    NoNewlineBetween(s, st, st + n);
    s[st..st + n]
  }

  // ---------------------------------------------------------------------
  // Cursor coordinates

  /** Position `g` stands `Col` characters after the start of its row, and
      no further than that row's end. */
  lemma {:induction false} ColFromLineStart(s: seq<char>, g: nat)
    requires g <= |s|
    ensures LineStart(s, Row(s, g)) + Col(s, g) == g
    ensures Col(s, g) <= LineLength(s, Row(s, g))
  {
    var r := g - Col(s, g);
    LineStartUnique(s, Row(s, g), r);
    NextNewlineBeyond(s, r, g);
  }

  /** Standing `c` characters into line `k` puts the cursor on row `k`,
      column `c`. */
  lemma {:induction false} PositionOnLine(s: seq<char>, k: nat, c: nat)
    requires 1 <= k <= Newlines(s) + 1
    requires c <= LineLength(s, k)
    ensures LineStart(s, k) + c <= |s|
    ensures Row(s, LineStart(s, k) + c) == k
    ensures Col(s, LineStart(s, k) + c) == c
  {
    var st := LineStart(s, k);
    NewlinesMonotone(s, st, st + c);
    NewlinesMonotone(s, st + c, st + LineLength(s, k));
    ColUnique(s, st + c, c);
  }

  /** The cursor is at the end of its row exactly when a newline or the end
      of the text follows it. */
  lemma {:induction false} EndOfLine(s: seq<char>, g: nat)
    requires g <= |s|
    ensures Col(s, g) == LineLength(s, Row(s, g)) <==> (g == |s| || s[g] == '\n')
  {
    ColFromLineStart(s, g);
    var st := LineStart(s, Row(s, g));
    if g == |s| || s[g] == '\n' {
      NextNewlineUnique(s, st, g);
    }
  }

  // ---------------------------------------------------------------------
  // Lines, as a list

  /** Number of lines: every newline ends one, and the text after the last
      newline is a further line unless it is empty. */
  function LineCount(s: seq<char>): (n: nat)
    ensures Newlines(s) <= n <= Newlines(s) + 1
  {
    if LineStart(s, Newlines(s) + 1) == |s| then Newlines(s) else Newlines(s) + 1
  }

  /** The first `n` lines, without their newlines. */
  function LinesUpTo(s: seq<char>, n: nat): (ls: seq<seq<char>>)
    requires n <= Newlines(s) + 1
    ensures |ls| == n
  {
    if n == 0 then [] else LinesUpTo(s, n - 1) + [LineText(s, n)]
  }

  /** The document cut at its newlines. A trailing newline does not open a
      further line, and the empty document has no lines at all. */
  function Lines(s: seq<char>): seq<seq<char>>
  {
    LinesUpTo(s, LineCount(s))
  }

  /** Joins lines with a '\n' between consecutive ones. */
  function Join(ls: seq<seq<char>>): seq<char>
  {
    if ls == [] then []
    else if |ls| == 1 then ls[0]
    else ls[0] + ['\n'] + Join(ls[1..])
  }

  /** Joining one more line at the end puts a newline before it. */
  lemma {:induction false} JoinSnoc(ls: seq<seq<char>>, x: seq<char>)
    ensures Join(ls + [x]) == if ls == [] then x else Join(ls) + ['\n'] + x
  {
    if |ls| == 1 {
      assert (ls + [x])[1..] == [x];
    } else if |ls| > 1 {
      assert (ls + [x])[1..] == ls[1..] + [x];
      JoinSnoc(ls[1..], x);
    }
  }

  /** Entry `k - 1` of the first `n` lines is line `k`. */
  lemma {:induction false} LinesUpToIndex(s: seq<char>, n: nat, k: nat)
    requires 1 <= k <= n <= Newlines(s) + 1
    ensures LinesUpTo(s, n)[k - 1] == LineText(s, k)
  {
    if k < n {
      LinesUpToIndex(s, n - 1, k);
    }
  }

  /** Line `k` by position is the `k`-th entry of the list of lines. */
  lemma {:induction false} LinesAgree(s: seq<char>, k: nat)
    requires 1 <= k <= |Lines(s)|
    ensures k <= Newlines(s) + 1
    ensures Lines(s)[k - 1] == LineText(s, k)
  {
    LinesUpToIndex(s, LineCount(s), k);
  }

  /** The end of line `n` (the position of its newline, or the end). */
  lemma {:induction false} LineEnd(s: seq<char>, n: nat)
    requires 1 <= n <= Newlines(s)
    ensures LineStart(s, n) + LineLength(s, n) + 1 == LineStart(s, n + 1)
    ensures s[LineStart(s, n) + LineLength(s, n)] == '\n'
  {
    NextNewlineSpec(s, LineStart(s, n));
  }

  /** One step of the join: line `n` follows the newline ending line `n - 1`. */
  lemma {:induction false} JoinLinesStep(s: seq<char>, n: nat)
    requires 2 <= n <= Newlines(s) + 1
    requires Join(LinesUpTo(s, n - 1)) == s[..LineStart(s, n) - 1]
    ensures Join(LinesUpTo(s, n)) == s[..LineStart(s, n) + LineLength(s, n)]
  {
    var st := LineStart(s, n);
    var e := st + LineLength(s, n);
    assert LinesUpTo(s, n) == LinesUpTo(s, n - 1) + [LineText(s, n)];
    assert LineText(s, n) == s[st..e];
    JoinExtend(LinesUpTo(s, n - 1), LineText(s, n), s, st, e);
  }

  lemma {:induction false} JoinExtend(prev: seq<seq<char>>, x: seq<char>, s: seq<char>, st: nat, e: nat)
    requires prev != [] && 1 <= st <= e <= |s| && s[st - 1] == '\n'
    requires Join(prev) == s[..st - 1] && x == s[st..e]
    ensures Join(prev + [x]) == s[..e]
  {
    JoinSnoc(prev, x);
    assert s[..e] == s[..st - 1] + ['\n'] + s[st..e];
  }

  /** Joining the first `n` lines gives the text up to the end of line `n`. */
  lemma {:induction false} JoinLinesUpTo(s: seq<char>, n: nat)
    requires 1 <= n <= Newlines(s) + 1
    ensures Join(LinesUpTo(s, n)) == s[..LineStart(s, n) + LineLength(s, n)]
  {
    if n == 1 {
      assert LinesUpTo(s, 1) == [LineText(s, 1)];
    } else {
      JoinLinesUpTo(s, n - 1);
      LineEnd(s, n - 1);
      JoinLinesStep(s, n);
    }
  }

  /** The count above in the four cases the piece table distinguishes:
      empty text has no line, text without a newline has one, a trailing
      newline does not open a further line. */
  lemma {:induction false} LinesCount(s: seq<char>)
    ensures |Lines(s)| ==
      if s == [] then 0
      else if Newlines(s) == 0 then 1
      else if s[|s| - 1] == '\n' then Newlines(s)
      else Newlines(s) + 1
  {
    if s != [] && s[|s| - 1] == '\n' {
      LastLineStartAtEnd(s);
    }
  }

  /** Splicing a non-empty run without newlines into a text keeps its
      newlines, so the line count grows only when the run fills an empty
      text or opens a new last line after a final newline. */
  lemma {:induction false} SpliceLineCount(d: seq<char>, p: nat, b: seq<char>)
    requires p <= |d| && b != [] && '\n' !in b
    ensures LineCount(d[..p] + b + d[p..]) ==
      (if d == [] then 1 else LineCount(d)) + (if d != [] && p == |d| && d[|d| - 1] == '\n' then 1 else 0)
  {
    var v := d[..p] + b + d[p..];
    NoNewlineBetween(b, 0, |b|);
    assert Newlines(b) == 0;
    NewlinesAppend(d[..p], b);
    NewlinesAppend(d[..p] + b, d[p..]);
    NewlinesAppend(d[..p], d[p..]);
    assert d[..p] + d[p..] == d;
    assert Newlines(v) == Newlines(d);
    if p < |d| {
      assert v[|v| - 1] == d[|d| - 1];
    } else {
      assert v[|v| - 1] == b[|b| - 1];
    }
    LinesCount(d);
    LinesCount(v);
  }

  /** Joining when the last line is not empty: the text ends there. */
  lemma {:induction false} LinesJoinOpen(s: seq<char>)
    requires LineCount(s) == Newlines(s) + 1
    ensures s == Join(Lines(s))
    ensures s == [] || s[|s| - 1] != '\n'
  {
    var c := LineCount(s);
    JoinLinesUpTo(s, c);
    var st := LineStart(s, c);
    var e := st + LineLength(s, c);
    if s != [] && s[|s| - 1] == '\n' {
      LastLineStartAtEnd(s);
    }
    if e < |s| {
      NewlinesMonotone(s, e + 1, |s|);
    }
    assert s[..|s|] == s;
  }

  /** Joining when the text ends in a newline: only that newline is lost. */
  lemma {:induction false} LinesJoinClosed(s: seq<char>)
    requires 1 <= LineCount(s) == Newlines(s)
    ensures s == Join(Lines(s)) + ['\n']
    ensures s[|s| - 1] == '\n'
  {
    var c := LineCount(s);
    JoinLinesUpTo(s, c);
    LineEnd(s, c);
    assert s == s[..|s| - 1] + ['\n'];
  }

  /** Cutting into lines loses nothing: joining them back and restoring a
      trailing newline gives the document again. */
  lemma {:induction false} LinesJoin(s: seq<char>)
    ensures s == Join(Lines(s)) + (if s != [] && s[|s| - 1] == '\n' then ['\n'] else [])
  {
    if LineCount(s) == Newlines(s) + 1 {
      LinesJoinOpen(s);
    } else if LineCount(s) > 0 {
      LinesJoinClosed(s);
    }
  }

  /** Every line of the document starts before its end. */
  lemma {:induction false} LineStartBeforeEnd(s: seq<char>, k: nat)
    requires 1 <= k <= LineCount(s)
    ensures LineStart(s, k) < |s|
  {
    if k <= Newlines(s) {
      LineEnd(s, k);
    }
  }

  /** Where the line after line `k` starts, or the end of the document
      for the last line. */
  function NextLineStart(s: seq<char>, k: nat): (e: nat)
    requires 1 <= k <= LineCount(s)
    ensures e <= |s|
  {
    if k < LineCount(s) then LineStart(s, k + 1) else |s|
  }

  /** A line's length is the distance to the next line's start, less the
      newline that ends it, if any. */
  lemma {:induction false} LineLengthFromNext(s: seq<char>, k: nat)
    requires 1 <= k <= LineCount(s)
    ensures LineStart(s, k) < NextLineStart(s, k)
    ensures s[NextLineStart(s, k) - 1] == '\n' ==> LineLength(s, k) == NextLineStart(s, k) - 1 - LineStart(s, k)
    ensures s[NextLineStart(s, k) - 1] != '\n' ==> LineLength(s, k) == NextLineStart(s, k) - LineStart(s, k)
  {
    if k <= Newlines(s) {
      LineEnd(s, k);
      if k == LineCount(s) {
        LastLineStartAtEnd(s);
      }
    } else {
      LastLineOpen(s);
    }
  }

  /** When the document does not end in a newline its last line runs to
      the end. */
  lemma {:induction false} LastLineOpen(s: seq<char>)
    requires LineCount(s) == Newlines(s) + 1
    ensures LineStart(s, Newlines(s) + 1) < |s| && s[|s| - 1] != '\n'
    ensures LineLength(s, Newlines(s) + 1) == |s| - LineStart(s, Newlines(s) + 1)
  {
    var st := LineStart(s, Newlines(s) + 1);
    if s != [] && s[|s| - 1] == '\n' {
      LastLineStartAtEnd(s);
    }
    NextNewlineUnique(s, st, |s|);
  }

  /** Line `k` runs from its start to the next newline. */
  lemma {:induction false} LineTextToNewline(s: seq<char>, k: nat)
    requires 1 <= k <= Newlines(s) + 1
    ensures LineText(s, k) == s[LineStart(s, k)..NextNewline(s, LineStart(s, k))]
  {
  }

  /** A stretch that starts after the `(k-1)`-th newline and runs up to the
      next newline, or to the end, is line `k`. */
  lemma {:induction false} LineBounds(s: seq<char>, k: nat, st: nat, n: nat)
    requires 1 <= k && st + n <= |s|
    requires NewlinesBefore(s, st) == k - 1 && (st == 0 || s[st - 1] == '\n')
    requires NewlinesBefore(s, st + n) == k - 1 && (st + n < |s| ==> s[st + n] == '\n')
    ensures k <= Newlines(s) + 1 && LineStart(s, k) == st && LineLength(s, k) == n
  {
    LineStartUnique(s, k, st);
    NextNewlineUnique(s, st, st + n);
  }

  // ---------------------------------------------------------------------
  // Line queries with out-of-range answers

  /** Length of line `k`, or 0 when the text has no line `k`. */
  function LineLengthOrZero(s: seq<char>, k: nat): (n: nat)
  {
    if 1 <= k <= LineCount(s) then LineLength(s, k) else 0
  }

  /** Where line `k` starts; 0 for line 0 and for the empty text, and the
      end of the text past the last line. */
  function LineIndex(s: seq<char>, k: nat): (r: nat)
  {
    if k == 0 || s == [] then 0
    else if k > LineCount(s) then |s|
    else LineStart(s, k)
  }

  /** Both answers agree with the line functions on every row a position
      can be on, the row after a final newline included. */
  lemma {:induction false} QueriesOnRows(s: seq<char>, k: nat)
    requires 1 <= k <= Newlines(s) + 1
    ensures LineIndex(s, k) == LineStart(s, k)
    ensures LineLengthOrZero(s, k) == LineLength(s, k)
  {
    if k > LineCount(s) {
      assert k == Newlines(s) + 1 && LineStart(s, k) == |s|;
      assert NextNewline(s, |s|) == |s|;
    }
  }

  // ---------------------------------------------------------------------
  // Cursor positions under edits

  /** Row and column of a position depend only on the text before it. */
  lemma {:induction false} PrefixDeterminesPosition(s: seq<char>, t: seq<char>, g: nat)
    requires g <= |s| && g <= |t| && s[..g] == t[..g]
    ensures NewlinesBefore(s, g) == NewlinesBefore(t, g)
    ensures Row(s, g) == Row(t, g) && Col(s, g) == Col(t, g)
  {
    if g > 0 {
      assert s[g - 1] == s[..g][g - 1] == t[..g][g - 1] == t[g - 1];
      assert s[..g - 1] == s[..g][..g - 1] && t[..g - 1] == t[..g][..g - 1];
      PrefixDeterminesPosition(s, t, g - 1);
    }
  }

  /** Stepping over one character moves to the next row after a newline
      and one column on otherwise. */
  lemma {:induction false} StepOver(s: seq<char>, g: nat)
    requires g < |s|
    ensures Row(s, g + 1) == Row(s, g) + (if s[g] == '\n' then 1 else 0)
    ensures Col(s, g + 1) == if s[g] == '\n' then 0 else Col(s, g) + 1
  {
    assert NewlinesBefore(s, g + 1) == NewlinesBefore(s, g) + (if s[g] == '\n' then 1 else 0);
  }

  /** A position before the end of the text is on a counted line, and it
      is at that line's end exactly when a newline follows it. */
  lemma {:induction false} InsideRow(s: seq<char>, g: nat)
    requires g < |s|
    ensures Row(s, g) <= LineCount(s)
    ensures Col(s, g) == LineLengthOrZero(s, Row(s, g)) <==> s[g] == '\n'
  {
    var k := Row(s, g);
    ColFromLineStart(s, g);
    if k == Newlines(s) + 1 {
      assert LineStart(s, k) <= g < |s|;
    }
    QueriesOnRows(s, k);
    EndOfLine(s, g);
  }

  /** Typing `c` at position `g` puts the cursor after it: on the next row
      at column 0 for a newline, one column on otherwise. */
  lemma {:induction false} TypedChar(s: seq<char>, g: nat, c: char)
    requires g <= |s|
    ensures var t := s[..g] + [c] + s[g..];
      g + 1 <= |t| &&
      Row(t, g + 1) == Row(s, g) + (if c == '\n' then 1 else 0) &&
      Col(t, g + 1) == if c == '\n' then 0 else Col(s, g) + 1
  {
    var t := s[..g] + [c] + s[g..];
    assert t[..g] == s[..g] && t[g] == c;
    PrefixDeterminesPosition(s, t, g);
    StepOver(t, g);
  }

  /** Deleting the character before position `g` leaves the cursor where
      that character was: a row up at the end of the previous line when it
      was a newline, one column back otherwise. */
  lemma {:induction false} DeletedChar(s: seq<char>, g: nat)
    requires 0 < g <= |s|
    ensures var t := s[..g - 1] + s[g..];
      g - 1 <= |t| &&
      Row(t, g - 1) + (if s[g - 1] == '\n' then 1 else 0) == Row(s, g) &&
      Col(t, g - 1) == if s[g - 1] == '\n' then LineLength(s, Row(s, g) - 1) else Col(s, g) - 1
  {
    var t := s[..g - 1] + s[g..];
    assert t[..g - 1] == s[..g - 1];
    PrefixDeterminesPosition(s, t, g - 1);
    StepOver(s, g - 1);
    if s[g - 1] == '\n' {
      EndOfLine(s, g - 1);
    }
  }
}
