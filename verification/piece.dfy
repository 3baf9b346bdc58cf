/** Pieces: descriptors of a run of bytes in one of the piece table's two
    buffers, and the text a sequence of pieces spells out. */
module Pieces {
  import opened Text

  /** Which buffer a piece refers to. */
  datatype BufferKind = Original | Add

  /** A run of `length` bytes starting at `start` in buffer `buf`, with the
      number of '\n' bytes in that run cached alongside. */
  datatype Piece = Piece(buf: BufferKind, start: nat, length: nat, newlines: nat)

  /** The two buffers: the normalised initial text and the append-only log
      of inserted text. */
  datatype Buffers = Buffers(original: seq<char>, add: seq<char>)

  function Source(b: Buffers, k: BufferKind): seq<char>
  {
    match k
    case Original => b.original
    case Add => b.add
  }

  predicate InBounds(b: Buffers, p: Piece)
  {
    p.start + p.length <= |Source(b, p.buf)|
  }

  /** The bytes a piece refers to. */
  function PieceText(b: Buffers, p: Piece): (t: seq<char>)
    requires InBounds(b, p)
    ensures |t| == p.length
  {
    Source(b, p.buf)[p.start..p.start + p.length]
  }

  /** A piece inside its buffer whose cached newline count is right. */
  predicate PieceOk(b: Buffers, p: Piece)
  {
    InBounds(b, p) && p.newlines == Newlines(PieceText(b, p))
  }

  /** A well-formed piece never counts more newlines than it has bytes. */
  lemma {:induction false} PieceNewlinesBound(b: Buffers, p: Piece)
    requires PieceOk(b, p)
    ensures p.newlines <= p.length
  {
  }

  /** The buffers only grow: the original buffer is fixed and the add buffer
      is only appended to. */
  predicate Extends(b: Buffers, b2: Buffers)
  {
    b2.original == b.original && b.add <= b2.add
  }

  /** Growing the buffers leaves every existing piece's bytes as they were. */
  lemma {:induction false} ExtendsKeepsPiece(b: Buffers, b2: Buffers, p: Piece)
    requires Extends(b, b2) && PieceOk(b, p)
    ensures PieceOk(b2, p)
    ensures PieceText(b2, p) == PieceText(b, p)
  {
    if p.buf == Add {
      assert b2.add[p.start..p.start + p.length] == b.add[p.start..p.start + p.length];
    }
  }

  /** The split strategy of the piece table: the left piece keeps the first
      `off` bytes and the right piece the rest, both in the same buffer,
      each with its newline count recounted from the buffer. */
  function SplitPiece(b: Buffers, p: Piece, off: nat): (halves: (Piece, Piece))
    requires InBounds(b, p) && off <= p.length
    ensures halves.0.buf == p.buf && halves.1.buf == p.buf
    ensures halves.0.start == p.start && halves.0.length == off
    ensures halves.1.start == p.start + off && halves.1.length == p.length - off
    ensures PieceOk(b, halves.0) && PieceOk(b, halves.1)
  {
    var src := Source(b, p.buf);
    (Piece(p.buf, p.start, off, Newlines(src[p.start..p.start + off])),
     Piece(p.buf, p.start + off, p.length - off, Newlines(src[p.start + off..p.start + p.length])))
  }

  /** The two halves spell out the original piece, and their newline counts
      add up to its count. */
  lemma {:induction false} SplitPieceJoin(b: Buffers, p: Piece, off: nat)
    requires PieceOk(b, p) && off <= p.length
    ensures PieceText(b, SplitPiece(b, p, off).0) + PieceText(b, SplitPiece(b, p, off).1) == PieceText(b, p)
    ensures SplitPiece(b, p, off).0.newlines + SplitPiece(b, p, off).1.newlines == p.newlines
  {
    var src := Source(b, p.buf);
    var h := SplitPiece(b, p, off);
    assert h.0.newlines == Newlines(src[p.start..p.start + off]);
    var x := src[p.start..p.start + off];
    var y := src[p.start + off..p.start + p.length];
    assert x + y == PieceText(b, p);
    NewlinesAppend(x, y);
  }

  // ---------------------------------------------------------------------
  // Sequences of pieces

  /** Every piece lies inside its buffer. */
  predicate AllInBounds(b: Buffers, ps: seq<Piece>)
  {
    forall i :: 0 <= i < |ps| ==> InBounds(b, ps[i])
  }

  /** Every piece lies inside its buffer and has the right newline count. */
  predicate PiecesOk(b: Buffers, ps: seq<Piece>)
  {
    forall i :: 0 <= i < |ps| ==> PieceOk(b, ps[i])
  }

  lemma {:induction false} AppendPiecesOk(b: Buffers, ps: seq<Piece>, qs: seq<Piece>)
    requires PiecesOk(b, ps) && PiecesOk(b, qs)
    ensures PiecesOk(b, ps + qs) && AllInBounds(b, ps + qs)
  {
    assert forall i :: 0 <= i < |ps + qs| ==> (ps + qs)[i] == if i < |ps| then ps[i] else qs[i - |ps|];
  }

  /** The bytes of each piece, in order. */
  function Texts(b: Buffers, ps: seq<Piece>): (xs: seq<seq<char>>)
    requires AllInBounds(b, ps)
    ensures |xs| == |ps|
    ensures forall i :: 0 <= i < |ps| ==> xs[i] == PieceText(b, ps[i])
  {
    seq(|ps|, i requires 0 <= i < |ps| => PieceText(b, ps[i]))
  }

  lemma {:induction false} TextsAppend(b: Buffers, ps: seq<Piece>, qs: seq<Piece>)
    requires AllInBounds(b, ps) && AllInBounds(b, qs)
    ensures AllInBounds(b, ps + qs)
    ensures Texts(b, ps + qs) == Texts(b, ps) + Texts(b, qs)
  {
    assert forall i :: 0 <= i < |ps + qs| ==> (ps + qs)[i] == if i < |ps| then ps[i] else qs[i - |ps|];
  }

  /** The first `n` texts, one after the other. */
  function FlattenUpTo(xs: seq<seq<char>>, n: nat): seq<char>
    requires n <= |xs|
  {
    if n == 0 then [] else FlattenUpTo(xs, n - 1) + xs[n - 1]
  }

  /** All texts, one after the other. */
  function Flatten(xs: seq<seq<char>>): seq<char>
  {
    FlattenUpTo(xs, |xs|)
  }

  /** The text a sequence of pieces spells out. */
  function Concat(b: Buffers, ps: seq<Piece>): seq<char>
    requires AllInBounds(b, ps)
  {
    Flatten(Texts(b, ps))
  }

  lemma {:induction false} FlattenUpToAppendLeft(xs: seq<seq<char>>, ys: seq<seq<char>>, n: nat)
    requires n <= |xs|
    ensures FlattenUpTo(xs + ys, n) == FlattenUpTo(xs, n)
  {
    if n > 0 {
      FlattenUpToAppendLeft(xs, ys, n - 1);
      assert (xs + ys)[n - 1] == xs[n - 1];
    }
  }

  lemma {:induction false} FlattenUpToAppendRight(xs: seq<seq<char>>, ys: seq<seq<char>>, n: nat)
    requires n <= |ys|
    ensures FlattenUpTo(xs + ys, |xs| + n) == Flatten(xs) + FlattenUpTo(ys, n)
  {
    if n == 0 {
      FlattenUpToAppendLeft(xs, ys, |xs|);
    } else {
      FlattenUpToAppendRight(xs, ys, n - 1);
      assert (xs + ys)[|xs| + n - 1] == ys[n - 1];
    }
  }

  /** Flattening distributes over concatenation. */
  lemma {:induction false} FlattenAppend(xs: seq<seq<char>>, ys: seq<seq<char>>)
    ensures Flatten(xs + ys) == Flatten(xs) + Flatten(ys)
  {
    FlattenUpToAppendRight(xs, ys, |ys|);
  }

  lemma {:induction false} FlattenSingle(x: seq<char>)
    ensures Flatten([x]) == x
  {
    assert FlattenUpTo([x], 1) == [] + x;
  }

  /** The text of two piece sequences in a row is the two texts in a row. */
  lemma {:induction false} ConcatAppend(b: Buffers, ps: seq<Piece>, qs: seq<Piece>)
    requires AllInBounds(b, ps) && AllInBounds(b, qs)
    ensures AllInBounds(b, ps + qs)
    ensures Concat(b, ps + qs) == Concat(b, ps) + Concat(b, qs)
  {
    TextsAppend(b, ps, qs);
    FlattenAppend(Texts(b, ps), Texts(b, qs));
  }

  /** The text of one piece. */
  lemma {:induction false} ConcatSingle(b: Buffers, p: Piece)
    requires InBounds(b, p)
    ensures AllInBounds(b, [p])
    ensures Concat(b, [p]) == PieceText(b, p)
  {
    assert Texts(b, [p]) == [PieceText(b, p)];
    FlattenSingle(PieceText(b, p));
  }

  /** The text of fewer items is a prefix of the text of more. */
  lemma {:induction false} FlattenUpToPrefix(xs: seq<seq<char>>, m: nat, n: nat)
    requires m <= n <= |xs|
    ensures FlattenUpTo(xs, m) <= FlattenUpTo(xs, n)
  {
    if m < n {
      FlattenUpToPrefix(xs, m, n - 1);
    }
  }

  /** If `x + y` is a prefix of `z`, both parts can be read off `z`. */
  lemma {:induction false} PrefixParts(x: seq<char>, y: seq<char>, z: seq<char>)
    requires x + y <= z
    ensures |x| + |y| <= |z|
    ensures x == z[..|x|]
    ensures y == z[|x|..|x| + |y|]
  {
    assert z[..|x| + |y|] == x + y;
  }

  /** Item `i` sits in the whole text right after the items before it. */
  lemma {:induction false} ItemInFlatten(xs: seq<seq<char>>, i: nat)
    requires i < |xs|
    ensures |FlattenUpTo(xs, i)| + |xs[i]| <= |Flatten(xs)|
    ensures FlattenUpTo(xs, i) == Flatten(xs)[..|FlattenUpTo(xs, i)|]
    ensures xs[i] == Flatten(xs)[|FlattenUpTo(xs, i)|..|FlattenUpTo(xs, i)| + |xs[i]|]
  {
    FlattenUpToPrefix(xs, i + 1, |xs|);
    PrefixParts(FlattenUpTo(xs, i), xs[i], Flatten(xs));
  }

  /** Sum of the lengths of the first `n` pieces. */
  function LengthUpTo(ps: seq<Piece>, n: nat): nat
    requires n <= |ps|
  {
    if n == 0 then 0 else LengthUpTo(ps, n - 1) + ps[n - 1].length
  }

  /** Sum of the cached newline counts of the first `n` pieces. */
  function NewlinesUpTo(ps: seq<Piece>, n: nat): nat
    requires n <= |ps|
  {
    if n == 0 then 0 else NewlinesUpTo(ps, n - 1) + ps[n - 1].newlines
  }

  /** The text of the first `n` pieces is as long as their lengths add up to. */
  lemma {:induction false} FlattenUpToLength(b: Buffers, ps: seq<Piece>, n: nat)
    requires n <= |ps| && AllInBounds(b, ps)
    ensures |FlattenUpTo(Texts(b, ps), n)| == LengthUpTo(ps, n)
  {
    if n > 0 {
      FlattenUpToLength(b, ps, n - 1);
    }
  }

  /** Sum of the newline counts of the first `n` texts. */
  function NewlinesSum(xs: seq<seq<char>>, n: nat): nat
    requires n <= |xs|
  {
    if n == 0 then 0 else NewlinesSum(xs, n - 1) + Newlines(xs[n - 1])
  }

  lemma {:induction false} FlattenUpToNewlinesSum(xs: seq<seq<char>>, n: nat)
    requires n <= |xs|
    ensures Newlines(FlattenUpTo(xs, n)) == NewlinesSum(xs, n)
  {
    if n > 0 {
      FlattenUpToNewlinesSum(xs, n - 1);
      NewlinesAppend(FlattenUpTo(xs, n - 1), xs[n - 1]);
    }
  }

  /** With correct cached counts, summing the counts is counting the text. */
  lemma {:induction false} NewlinesUpToSum(b: Buffers, ps: seq<Piece>, n: nat)
    requires n <= |ps| && PiecesOk(b, ps) && AllInBounds(b, ps)
    ensures NewlinesUpTo(ps, n) == NewlinesSum(Texts(b, ps), n)
  {
    if n > 0 {
      NewlinesUpToSum(b, ps, n - 1);
      assert PieceOk(b, ps[n - 1]);
    }
  }

  /** The text of the first `n` pieces has as many newlines as their cached
      counts add up to. */
  lemma {:induction false} FlattenUpToNewlines(b: Buffers, ps: seq<Piece>, n: nat)
    requires n <= |ps| && PiecesOk(b, ps) && AllInBounds(b, ps)
    ensures Newlines(FlattenUpTo(Texts(b, ps), n)) == NewlinesUpTo(ps, n)
  {
    FlattenUpToNewlinesSum(Texts(b, ps), n);
    NewlinesUpToSum(b, ps, n);
  }

  /** Piece `i` sits in the text of a piece sequence at the offset the
      lengths before it add up to. */
  lemma {:induction false} PieceInConcat(b: Buffers, ps: seq<Piece>, i: nat)
    requires i < |ps| && AllInBounds(b, ps)
    ensures LengthUpTo(ps, i) + ps[i].length <= |Concat(b, ps)|
    ensures Concat(b, ps)[LengthUpTo(ps, i)..LengthUpTo(ps, i) + ps[i].length] == PieceText(b, ps[i])
  {
    var xs := Texts(b, ps);
    assert xs[i] == PieceText(b, ps[i]);
    ItemInFlatten(xs, i);
    FlattenUpToLength(b, ps, i);
  }

  /** Before piece `i` come as many newlines as the counts of the pieces
      before it add up to. */
  lemma {:induction false} NewlinesBeforePiece(b: Buffers, ps: seq<Piece>, i: nat)
    requires i < |ps| && PiecesOk(b, ps) && AllInBounds(b, ps)
    ensures LengthUpTo(ps, i) <= |Concat(b, ps)|
    ensures NewlinesBefore(Concat(b, ps), LengthUpTo(ps, i)) == NewlinesUpTo(ps, i)
  {
    var xs := Texts(b, ps);
    var pre := FlattenUpTo(xs, i);
    assert pre == Flatten(xs)[..|pre|] by {
      ItemInFlatten(xs, i);
    }
    assert |pre| == LengthUpTo(ps, i) by {
      FlattenUpToLength(b, ps, i);
    }
    assert Newlines(pre) == NewlinesUpTo(ps, i) by {
      FlattenUpToNewlines(b, ps, i);
    }
    NewlinesPrefix(Flatten(xs), |pre|);
  }
}
