/** The implicit treap of pieces. A tree whose in-order walk gives the
    pieces in document order; every node caches the byte length and the
    newline count of its subtree. Node priorities are arbitrary naturals
    supplied by the caller, so every content property below holds whatever
    the random generator produces. */
module Treap {
  import opened Text
  import opened Pieces

  datatype Option<T> = None | Some(value: T)

  /** `len` and `nl` are the cached subtree length and newline count. */
  datatype Tree =
    | Leaf
    | Node(left: Tree, piece: Piece, prio: nat, len: nat, nl: nat, right: Tree)

  /** The subtree length, 0 for an absent subtree. */
  function Size(t: Tree): nat
  {
    if t.Leaf? then 0 else t.len
  }

  /** The subtree newline count, 0 for an absent subtree. */
  function NewlineCount(t: Tree): nat
  {
    if t.Leaf? then 0 else t.nl
  }

  predicate Empty(t: Tree)
  {
    t.Leaf?
  }

  function NodeCount(t: Tree): nat
  {
    if t.Leaf? then 0 else NodeCount(t.left) + 1 + NodeCount(t.right)
  }

  /** The pieces in order: everything in `left` before the node's piece,
      everything in `right` after it. */
  function InOrder(t: Tree): (ps: seq<Piece>)
    ensures |ps| == NodeCount(t)
  {
    if t.Leaf? then [] else InOrder(t.left) + [t.piece] + InOrder(t.right)
  }

  /** Builds a node over two subtrees and recomputes its cached aggregates
      from the children and its own piece. */
  function Update(l: Tree, p: Piece, prio: nat, r: Tree): (t: Tree)
    ensures t.Node? && t.left == l && t.piece == p && t.prio == prio && t.right == r
    ensures InOrder(t) == InOrder(l) + [p] + InOrder(r)
    ensures Cached(t) <==> Cached(l) && Cached(r)
  {
    Node(l, p, prio, Size(l) + p.length + Size(r), NewlineCount(l) + p.newlines + NewlineCount(r), r)
  }

  /** A new node: no children, aggregates equal to its own piece's. */
  function MakeNode(p: Piece, prio: nat): (t: Tree)
    ensures InOrder(t) == [p]
    ensures Size(t) == p.length && NewlineCount(t) == p.newlines
  {
    Update(Leaf, p, prio, Leaf)
  }

  /** Every node's cached aggregates agree with its children and piece. */
  predicate Cached(t: Tree)
  {
    t.Leaf? ||
    (Cached(t.left) && Cached(t.right) &&
     t.len == Size(t.left) + t.piece.length + Size(t.right) &&
     t.nl == NewlineCount(t.left) + t.piece.newlines + NewlineCount(t.right))
  }

  /** Every piece lies in its buffer and counts its newlines right. */
  predicate AllOk(b: Buffers, t: Tree)
  {
    t.Leaf? || (AllOk(b, t.left) && PieceOk(b, t.piece) && AllOk(b, t.right))
  }

  predicate Valid(b: Buffers, t: Tree)
  {
    Cached(t) && AllOk(b, t)
  }

  /** Each node's priority is at least its children's. */
  predicate HeapOrdered(t: Tree)
  {
    t.Leaf? ||
    (HeapOrdered(t.left) && HeapOrdered(t.right) &&
     (t.left.Node? ==> t.left.prio <= t.prio) &&
     (t.right.Node? ==> t.right.prio <= t.prio))
  }

  /** The document the tree spells out. */
  function Content(b: Buffers, t: Tree): seq<char>
    requires AllOk(b, t)
  {
    if t.Leaf? then [] else Content(b, t.left) + PieceText(b, t.piece) + Content(b, t.right)
  }

  // ---------------------------------------------------------------------
  // Aggregates

  /** The cached length is the length of the text, and the cached newline
      count is the number of newlines in it. */
  lemma {:induction false} ContentMeasures(b: Buffers, t: Tree)
    requires Valid(b, t)
    ensures |Content(b, t)| == Size(t)
    ensures Newlines(Content(b, t)) == NewlineCount(t)
  {
    if t.Node? {
      ContentMeasures(b, t.left);
      ContentMeasures(b, t.right);
      var x := Content(b, t.left);
      var y := PieceText(b, t.piece);
      var z := Content(b, t.right);
      NewlinesAppend(x, y);
      NewlinesAppend(x + y, z);
    }
  }

  /** What rebuilding a node is for: over valid children and a sound piece,
      the node's cached length and newline count are those of its text. */
  lemma {:induction false} UpdateMeasures(b: Buffers, l: Tree, p: Piece, prio: nat, r: Tree)
    requires Valid(b, l) && PieceOk(b, p) && Valid(b, r)
    ensures Valid(b, Update(l, p, prio, r))
    ensures |Content(b, Update(l, p, prio, r))| == Size(Update(l, p, prio, r))
    ensures Newlines(Content(b, Update(l, p, prio, r))) == NewlineCount(Update(l, p, prio, r))
  {
    var t := Update(l, p, prio, r);
    assert AllOk(b, t);
    ContentMeasures(b, t);
  }

  lemma {:induction false} LengthUpToAppendLeft(ps: seq<Piece>, qs: seq<Piece>, n: nat)
    requires n <= |ps|
    ensures LengthUpTo(ps + qs, n) == LengthUpTo(ps, n)
  {
    if n > 0 {
      LengthUpToAppendLeft(ps, qs, n - 1);
      assert (ps + qs)[n - 1] == ps[n - 1];
    }
  }

  lemma {:induction false} LengthUpToAppendRight(ps: seq<Piece>, qs: seq<Piece>, n: nat)
    requires n <= |qs|
    ensures LengthUpTo(ps + qs, |ps| + n) == LengthUpTo(ps, |ps|) + LengthUpTo(qs, n)
  {
    if n == 0 {
      LengthUpToAppendLeft(ps, qs, |ps|);
    } else {
      LengthUpToAppendRight(ps, qs, n - 1);
      assert (ps + qs)[|ps| + n - 1] == qs[n - 1];
    }
  }

  lemma {:induction false} NewlinesUpToAppendLeft(ps: seq<Piece>, qs: seq<Piece>, n: nat)
    requires n <= |ps|
    ensures NewlinesUpTo(ps + qs, n) == NewlinesUpTo(ps, n)
  {
    if n > 0 {
      NewlinesUpToAppendLeft(ps, qs, n - 1);
      assert (ps + qs)[n - 1] == ps[n - 1];
    }
  }

  lemma {:induction false} NewlinesUpToAppendRight(ps: seq<Piece>, qs: seq<Piece>, n: nat)
    requires n <= |qs|
    ensures NewlinesUpTo(ps + qs, |ps| + n) == NewlinesUpTo(ps, |ps|) + NewlinesUpTo(qs, n)
  {
    if n == 0 {
      NewlinesUpToAppendLeft(ps, qs, |ps|);
    } else {
      NewlinesUpToAppendRight(ps, qs, n - 1);
      assert (ps + qs)[|ps| + n - 1] == qs[n - 1];
    }
  }

  /** Lengths over a prefix that ends inside the right part of `l + [p] + r`. */
  lemma {:induction false} LengthsRight(l: seq<Piece>, p: Piece, r: seq<Piece>, n: nat)
    requires n <= |r|
    ensures LengthUpTo(l + [p] + r, |l| + 1 + n) == LengthUpTo(l, |l|) + p.length + LengthUpTo(r, n)
  {
    LengthUpToAppendRight(l + [p], r, n);
    LengthUpToAppendRight(l, [p], 1);
  }

  /** Newline counts over a prefix that ends inside the right part of `l + [p] + r`. */
  lemma {:induction false} NewlinesRight(l: seq<Piece>, p: Piece, r: seq<Piece>, n: nat)
    requires n <= |r|
    ensures NewlinesUpTo(l + [p] + r, |l| + 1 + n) == NewlinesUpTo(l, |l|) + p.newlines + NewlinesUpTo(r, n)
  {
    NewlinesUpToAppendRight(l + [p], r, n);
    NewlinesUpToAppendRight(l, [p], 1);
  }

  /** Sums over a prefix that ends inside the left part of `l + [p] + r`. */
  lemma {:induction false} SumsLeft(l: seq<Piece>, p: Piece, r: seq<Piece>, n: nat)
    requires n <= |l|
    ensures LengthUpTo(l + [p] + r, n) == LengthUpTo(l, n)
    ensures NewlinesUpTo(l + [p] + r, n) == NewlinesUpTo(l, n)
  {
    LengthUpToAppendLeft(l + [p], r, n);
    LengthUpToAppendLeft(l, [p], n);
    NewlinesUpToAppendLeft(l + [p], r, n);
    NewlinesUpToAppendLeft(l, [p], n);
  }

  /** `size()` and `get_newline_count()` are the sums of the pieces' lengths
      and newline counts over the whole tree. */
  lemma {:induction false} CachedSums(t: Tree)
    requires Cached(t)
    ensures Size(t) == LengthUpTo(InOrder(t), |InOrder(t)|)
    ensures NewlineCount(t) == NewlinesUpTo(InOrder(t), |InOrder(t)|)
  {
    if t.Node? {
      CachedSums(t.left);
      CachedSums(t.right);
      LengthsRight(InOrder(t.left), t.piece, InOrder(t.right), NodeCount(t.right));
      NewlinesRight(InOrder(t.left), t.piece, InOrder(t.right), NodeCount(t.right));
    }
  }

  /** Entry `i` of the in-order sequence of a node. */
  lemma {:induction false} NodeIndex(t: Tree, i: nat)
    requires t.Node? && i < NodeCount(t)
    ensures InOrder(t)[i] ==
      if i < NodeCount(t.left) then InOrder(t.left)[i]
      else if i == NodeCount(t.left) then t.piece
      else InOrder(t.right)[i - NodeCount(t.left) - 1]
  {
  }

  /** All pieces of a tree satisfy the piece invariant. */
  lemma {:induction false} AllOkPieces(b: Buffers, t: Tree)
    requires AllOk(b, t)
    ensures PiecesOk(b, InOrder(t)) && AllInBounds(b, InOrder(t))
  {
    if t.Node? {
      AllOkPieces(b, t.left);
      AllOkPieces(b, t.right);
      assert PiecesOk(b, [t.piece]);
      AppendPiecesOk(b, InOrder(t.left), [t.piece]);
      AppendPiecesOk(b, InOrder(t.left) + [t.piece], InOrder(t.right));
    }
  }

  /** The text of the tree is the text its in-order pieces spell out. */
  lemma {:induction false} ContentFlatten(b: Buffers, t: Tree)
    requires AllOk(b, t)
    ensures AllInBounds(b, InOrder(t)) && PiecesOk(b, InOrder(t))
    ensures Content(b, t) == Concat(b, InOrder(t))
  {
    AllOkPieces(b, t);
    if t.Node? {
      var pl := InOrder(t.left);
      var pr := InOrder(t.right);
      assert Content(b, t.left) == Concat(b, pl) by {
        ContentFlatten(b, t.left);
      }
      assert Content(b, t.right) == Concat(b, pr) by {
        ContentFlatten(b, t.right);
      }
      AllOkPieces(b, t.left);
      ConcatSingle(b, t.piece);
      ConcatAppend(b, pl, [t.piece]);
      ConcatAppend(b, pl + [t.piece], pr);
    }
  }

  /** The same, for callers that need only the text. */
  lemma {:induction false} ContentConcat(b: Buffers, t: Tree)
    requires AllOk(b, t)
    ensures AllInBounds(b, InOrder(t)) && Content(b, t) == Concat(b, InOrder(t))
  {
    ContentFlatten(b, t);
  }

  // ---------------------------------------------------------------------
  // Lookups

  /** A located node: its position `rank` in the in-order sequence, its
      piece, and the byte offset at which that piece starts. */
  datatype Hit = Hit(rank: nat, piece: Piece, offset: nat)

  /** Shifts a hit found in the right subtree of `t` to be relative to `t`. */
  function InRight(t: Tree, h: Hit): Hit
    requires t.Node?
  {
    Hit(NodeCount(t.left) + 1 + h.rank, h.piece, Size(t.left) + t.piece.length + h.offset)
  }

  /** The node holding byte `k` and the offset of its piece's first byte. */
  function FindByByte(t: Tree, k: nat): Option<Hit>
  {
    if t.Leaf? then None
    else if k < Size(t.left) then FindByByte(t.left, k)
    else if k < Size(t.left) + t.piece.length then Some(Hit(NodeCount(t.left), t.piece, Size(t.left)))
    else
      match FindByByte(t.right, k - Size(t.left) - t.piece.length)
      case None => None
      case Some(h) => Some(InRight(t, h))
  }

  /** The node holding byte `k`. */
  function Find(t: Tree, k: nat): Option<Piece>
  {
    if t.Leaf? then None
    else if k < Size(t.left) then Find(t.left, k)
    else if k < Size(t.left) + t.piece.length then Some(t.piece)
    else Find(t.right, k - Size(t.left) - t.piece.length)
  }

  /** What a hit means: it names entry `rank` of the in-order sequence, and
      its offset is the total length of the pieces before that entry. */
  predicate Locates(t: Tree, h: Hit)
  {
    h.rank < NodeCount(t) && InOrder(t)[h.rank] == h.piece &&
    h.offset == LengthUpTo(InOrder(t), h.rank)
  }

  /** A hit at the node itself. */
  lemma {:induction false} LocatesRoot(t: Tree)
    requires t.Node? && Cached(t)
    ensures Locates(t, Hit(NodeCount(t.left), t.piece, Size(t.left)))
  {
    CachedSums(t.left);
    SumsLeft(InOrder(t.left), t.piece, InOrder(t.right), NodeCount(t.left));
  }

  /** A hit in the left subtree is a hit in the tree. */
  lemma {:induction false} LocatesLeft(t: Tree, h: Hit)
    requires t.Node? && Locates(t.left, h)
    ensures Locates(t, h)
  {
    SumsLeft(InOrder(t.left), t.piece, InOrder(t.right), h.rank);
  }

  /** A hit in the right subtree, shifted, is a hit in the tree. */
  lemma {:induction false} LocatesRight(t: Tree, h: Hit)
    requires t.Node? && Cached(t) && Locates(t.right, h)
    ensures Locates(t, InRight(t, h))
  {
    CachedSums(t.left);
    LengthsRight(InOrder(t.left), t.piece, InOrder(t.right), h.rank);
  }

  /** `find_by_byte` finds a node exactly when `k` is inside the document;
      the node's piece covers byte `k`, and the offset is the total length of
      the pieces before it. */
  lemma {:induction false} FindByByteSpec(t: Tree, k: nat)
    requires Cached(t)
    ensures FindByByte(t, k).Some? <==> k < Size(t)
    ensures FindByByte(t, k).Some? ==>
      Locates(t, FindByByte(t, k).value) &&
      FindByByte(t, k).value.offset <= k < FindByByte(t, k).value.offset + FindByByte(t, k).value.piece.length
  {
    if t.Node? {
      if k < Size(t.left) {
        FindByByteSpec(t.left, k);
        if FindByByte(t.left, k).Some? {
          LocatesLeft(t, FindByByte(t.left, k).value);
        }
      } else if k < Size(t.left) + t.piece.length {
        LocatesRoot(t);
      } else {
        var k' := k - Size(t.left) - t.piece.length;
        FindByByteSpec(t.right, k');
        if FindByByte(t.right, k').Some? {
          LocatesRight(t, FindByByte(t.right, k').value);
        }
      }
    }
  }

  /** `find` returns the node `find_by_byte` does. */
  lemma {:induction false} FindAgrees(t: Tree, k: nat)
    ensures Find(t, k) == if FindByByte(t, k).Some? then Some(FindByByte(t, k).value.piece) else None
  {
    if t.Node? {
      if k < Size(t.left) {
        FindAgrees(t.left, k);
      } else if k >= Size(t.left) + t.piece.length {
        FindAgrees(t.right, k - Size(t.left) - t.piece.length);
      }
    }
  }

  /** The node `find_by_line` settles on for line `line`, routing on the
      cached newline counts, and the offset of its piece. */
  function FindByLine(t: Tree, line: nat): Option<Hit>
  {
    if t.Leaf? then None
    else if line < NewlineCount(t.left) then FindByLine(t.left, line)
    else if line <= NewlineCount(t.left) + 1 + t.piece.newlines then
      Some(Hit(NodeCount(t.left), t.piece, Size(t.left)))
    else
      match FindByLine(t.right, line - 1 - NewlineCount(t.left) - t.piece.newlines)
      case None => None
      case Some(h) => Some(InRight(t, h))
  }

  /** `find_by_line` reports a node of the tree together with the total
      length of the pieces before it, and finds one whenever the tree is not
      empty and `line` is at most its newline count. */
  lemma {:induction false} FindByLineSpec(t: Tree, line: nat)
    requires Cached(t)
    ensures FindByLine(t, line).Some? ==> Locates(t, FindByLine(t, line).value)
    ensures t.Node? && line <= NewlineCount(t) ==> FindByLine(t, line).Some?
  {
    if t.Node? {
      if line < NewlineCount(t.left) {
        FindByLineSpec(t.left, line);
        if FindByLine(t.left, line).Some? {
          LocatesLeft(t, FindByLine(t.left, line).value);
        }
      } else if line <= NewlineCount(t.left) + 1 + t.piece.newlines {
        LocatesRoot(t);
      } else {
        var line' := line - 1 - NewlineCount(t.left) - t.piece.newlines;
        FindByLineSpec(t.right, line');
        if FindByLine(t.right, line').Some? {
          LocatesRight(t, FindByLine(t.right, line').value);
        }
      }
    }
  }

  /** A node together with how many of its piece's newlines to skip. */
  datatype LineHit = LineHit(hit: Hit, inPiece: nat)

  /** The node whose piece holds the `m`-th newline of the document (1-based),
      and which of that piece's newlines it is. */
  function NthNewline(t: Tree, m: nat): Option<LineHit>
  {
    if t.Leaf? then None
    else if m <= NewlineCount(t.left) then NthNewline(t.left, m)
    else if m <= NewlineCount(t.left) + t.piece.newlines then
      Some(LineHit(Hit(NodeCount(t.left), t.piece, Size(t.left)), m - NewlineCount(t.left)))
    else
      match NthNewline(t.right, m - NewlineCount(t.left) - t.piece.newlines)
      case None => None
      case Some(lh) => Some(LineHit(InRight(t, lh.hit), lh.inPiece))
  }

  /** Line `line` (1-based, at least 2) starts right after the newline
      number `line - 1`: the node holding that newline, its offset, and the
      newline's number inside the piece. */
  function FindLinePosition(t: Tree, line: nat): Option<LineHit>
  {
    if line == 0 then None else NthNewline(t, line - 1)
  }

  /** What a line hit means: the newline sits in the located piece, after
      the newlines of all pieces before it. */
  predicate LocatesNewline(t: Tree, lh: LineHit, m: nat)
  {
    Locates(t, lh.hit) && 1 <= lh.inPiece <= lh.hit.piece.newlines &&
    NewlinesUpTo(InOrder(t), lh.hit.rank) + lh.inPiece == m
  }

  lemma {:induction false} NewlinesBeforeRoot(t: Tree)
    requires t.Node? && Cached(t)
    ensures NewlinesUpTo(InOrder(t), NodeCount(t.left)) == NewlineCount(t.left)
  {
    CachedSums(t.left);
    SumsLeft(InOrder(t.left), t.piece, InOrder(t.right), NodeCount(t.left));
  }

  lemma {:induction false} LocatesNewlineLeft(t: Tree, lh: LineHit, m: nat)
    requires t.Node? && LocatesNewline(t.left, lh, m)
    ensures LocatesNewline(t, lh, m)
  {
    LocatesLeft(t, lh.hit);
    SumsLeft(InOrder(t.left), t.piece, InOrder(t.right), lh.hit.rank);
  }

  lemma {:induction false} LocatesNewlineRight(t: Tree, lh: LineHit, m: nat)
    requires t.Node? && Cached(t) && LocatesNewline(t.right, lh, m)
    ensures LocatesNewline(t, LineHit(InRight(t, lh.hit), lh.inPiece), m + NewlineCount(t.left) + t.piece.newlines)
  {
    var h := InRight(t, lh.hit);
    LocatesRight(t, lh.hit);
    NewlinesBeforeRight(t, lh.hit.rank);
    LocatesNewlineIntro(t, LineHit(h, lh.inPiece), m + NewlineCount(t.left) + t.piece.newlines);
  }

  lemma {:induction false} LocatesNewlineIntro(t: Tree, lh: LineHit, m: nat)
    requires Locates(t, lh.hit) && 1 <= lh.inPiece <= lh.hit.piece.newlines
    requires NewlinesUpTo(InOrder(t), lh.hit.rank) + lh.inPiece == m
    ensures LocatesNewline(t, lh, m)
  {
  }

  lemma {:induction false} NewlinesBeforeRight(t: Tree, n: nat)
    requires t.Node? && Cached(t) && n <= NodeCount(t.right)
    ensures NewlinesUpTo(InOrder(t), NodeCount(t.left) + 1 + n) ==
      NewlineCount(t.left) + t.piece.newlines + NewlinesUpTo(InOrder(t.right), n)
  {
    CachedSums(t.left);
    NewlinesRight(InOrder(t.left), t.piece, InOrder(t.right), n);
  }

  /** The `m`-th newline is found exactly when the document has at least
      `m >= 1` newlines, and the hit locates it. */
  lemma {:induction false} NthNewlineSpec(t: Tree, m: nat)
    requires Cached(t)
    ensures NthNewline(t, m).Some? <==> 1 <= m <= NewlineCount(t)
    ensures NthNewline(t, m).Some? ==> LocatesNewline(t, NthNewline(t, m).value, m)
  {
    if t.Node? {
      if m <= NewlineCount(t.left) {
        NthNewlineSpec(t.left, m);
        if NthNewline(t.left, m).Some? {
          LocatesNewlineLeft(t, NthNewline(t.left, m).value, m);
        }
      } else if m <= NewlineCount(t.left) + t.piece.newlines {
        LocatesRoot(t);
        NewlinesBeforeRoot(t);
      } else {
        var m' := m - NewlineCount(t.left) - t.piece.newlines;
        NthNewlineSpec(t.right, m');
        if NthNewline(t.right, m').Some? {
          LocatesNewlineRight(t, NthNewline(t.right, m').value, m');
        }
      }
    }
  }

  // ---------------------------------------------------------------------
  // Merge

  /** Joins two trees, all of whose pieces in `l` come before those in `r`:
      the root of higher priority stays on top (on a tie, `r`'s root) and
      the other tree is merged into its inner child. */
  function Merge(l: Tree, r: Tree): Tree
  {
    if l.Leaf? then r
    else if r.Leaf? then l
    else if l.prio > r.prio then Update(l.left, l.piece, l.prio, Merge(l.right, r))
    else Update(Merge(l, r.left), r.piece, r.prio, r.right)
  }

  /** The merged tree holds the pieces of `l` and then those of `r`. */
  lemma {:induction false} MergeInOrder(l: Tree, r: Tree)
    ensures InOrder(Merge(l, r)) == InOrder(l) + InOrder(r)
  {
    if l.Node? && r.Node? {
      if l.prio > r.prio {
        MergeInOrder(l.right, r);
      } else {
        MergeInOrder(l, r.left);
      }
    }
  }

  /** Every node on the rebuilt spine gets consistent aggregates, which are
      the sums of the two inputs'. */
  lemma {:induction false} MergeCached(l: Tree, r: Tree)
    requires Cached(l) && Cached(r)
    ensures Cached(Merge(l, r))
    ensures Size(Merge(l, r)) == Size(l) + Size(r)
    ensures NewlineCount(Merge(l, r)) == NewlineCount(l) + NewlineCount(r)
  {
    if l.Node? && r.Node? {
      if l.prio > r.prio {
        MergeCached(l.right, r);
      } else {
        MergeCached(l, r.left);
      }
    }
  }

  lemma {:induction false} MergeAllOk(b: Buffers, l: Tree, r: Tree)
    requires AllOk(b, l) && AllOk(b, r)
    ensures AllOk(b, Merge(l, r))
  {
    if l.Node? && r.Node? {
      if l.prio > r.prio {
        MergeAllOk(b, l.right, r);
      } else {
        MergeAllOk(b, l, r.left);
      }
    }
  }

  /** The merged document is the first document followed by the second. */
  lemma {:induction false} MergeContent(b: Buffers, l: Tree, r: Tree)
    requires AllOk(b, l) && AllOk(b, r)
    ensures AllOk(b, Merge(l, r))
    ensures Content(b, Merge(l, r)) == Content(b, l) + Content(b, r)
  {
    var m := Merge(l, r);
    MergeAllOk(b, l, r);
    MergeInOrder(l, r);
    ContentFlatten(b, l);
    ContentFlatten(b, r);
    ContentFlatten(b, m);
    ConcatAppend(b, InOrder(l), InOrder(r));
  }

  /** An empty side gives back the other side unchanged. */
  lemma {:induction false} MergeEmpty(l: Tree, r: Tree)
    ensures Empty(l) ==> Merge(l, r) == r
    ensures Empty(r) ==> Merge(l, r) == l
  {
  }

  /** The root of a merge is the root of one of its inputs: the one of higher
      priority, and `r`'s on a tie. */
  lemma {:induction false} MergeRoot(l: Tree, r: Tree)
    requires l.Node? && r.Node?
    ensures Merge(l, r).Node?
    ensures Merge(l, r).prio == if l.prio > r.prio then l.prio else r.prio
    ensures Merge(l, r).piece == if l.prio > r.prio then l.piece else r.piece
  {
  }

  /** Merging two max-heap-ordered trees gives a max-heap-ordered tree, whose
      root priority is one of the inputs' root priorities. */
  lemma {:induction false} MergeHeap(l: Tree, r: Tree)
    requires HeapOrdered(l) && HeapOrdered(r)
    ensures HeapOrdered(Merge(l, r))
    ensures Merge(l, r).Node? ==>
      (l.Node? && Merge(l, r).prio == l.prio) || (r.Node? && Merge(l, r).prio == r.prio)
  {
    if l.Node? && r.Node? {
      if l.prio > r.prio {
        MergeHeap(l.right, r);
      } else {
        MergeHeap(l, r.left);
      }
    }
  }

  // ---------------------------------------------------------------------
  // Split

  /** Cuts the tree so that the left result holds the first `k` bytes and
      the right result the rest. A piece straddling byte `k` is cut in two
      by the piece table's split strategy; its right half goes into a new
      node of priority `prio`, spliced in as the right neighbour, and the
      cut then continues at that node's left edge. */
  function Split(b: Buffers, t: Tree, k: nat, prio: nat): (Tree, Tree)
    requires AllOk(b, t)
    decreases NodeCount(t), k
  {
    if t.Leaf? then (Leaf, Leaf)
    else if k <= Size(t.left) then
      var (a, c) := Split(b, t.left, k, prio);
      (a, Update(c, t.piece, t.prio, t.right))
    else if k < Size(t.left) + t.piece.length then
      var halves := SplitPiece(b, t.piece, k - Size(t.left));
      var spliced := Update(Leaf, halves.1, prio, t.right);
      assert NodeCount(spliced) <= NodeCount(t);
      var (a, c) := Split(b, spliced, 0, prio);
      (Update(t.left, halves.0, t.prio, a), c)
    else
      var (a, c) := Split(b, t.right, k - Size(t.left) - t.piece.length, prio);
      (Update(t.left, t.piece, t.prio, a), c)
  }

  /** Both halves keep every piece in its buffer with the right count. */
  lemma {:induction false} SplitAllOk(b: Buffers, t: Tree, k: nat, prio: nat)
    requires AllOk(b, t)
    ensures AllOk(b, Split(b, t, k, prio).0) && AllOk(b, Split(b, t, k, prio).1)
    decreases NodeCount(t), k
  {
    if t.Node? {
      if k <= Size(t.left) {
        SplitAllOk(b, t.left, k, prio);
      } else if k < Size(t.left) + t.piece.length {
        var halves := SplitPiece(b, t.piece, k - Size(t.left));
        var spliced := Update(Leaf, halves.1, prio, t.right);
        assert NodeCount(spliced) <= NodeCount(t);
        SplitAllOk(b, spliced, 0, prio);
      } else {
        SplitAllOk(b, t.right, k - Size(t.left) - t.piece.length, prio);
      }
    }
  }

  /** The node that receives the right half of a piece cut at `k`. */
  function SplicedRight(b: Buffers, t: Tree, k: nat, prio: nat): Tree
    requires t.Node? && AllOk(b, t) && Size(t.left) < k < Size(t.left) + t.piece.length
  {
    Update(Leaf, SplitPiece(b, t.piece, k - Size(t.left)).1, prio, t.right)
  }

  /** What a cut at `k` promises about aggregates: both halves have
      consistent caches, the left one is `k` bytes long (or the whole tree
      when `k` is past its end), and lengths and newline counts add up to
      the original's. */
  predicate CutCached(t: Tree, halves: (Tree, Tree), k: nat)
  {
    Cached(halves.0) && Cached(halves.1) &&
    Size(halves.0) == (if k < Size(t) then k else Size(t)) &&
    Size(halves.0) + Size(halves.1) == Size(t) &&
    NewlineCount(halves.0) + NewlineCount(halves.1) == NewlineCount(t)
  }

  lemma {:induction false} SplitCachedLeft(b: Buffers, t: Tree, k: nat, prio: nat)
    requires Valid(b, t) && t.Node? && k <= Size(t.left)
    requires CutCached(t.left, Split(b, t.left, k, prio), k)
    ensures CutCached(t, Split(b, t, k, prio), k)
  {
  }

  lemma {:induction false} SplitCachedMid(b: Buffers, t: Tree, k: nat, prio: nat)
    requires Valid(b, t) && t.Node? && Size(t.left) < k < Size(t.left) + t.piece.length
    requires CutCached(SplicedRight(b, t, k, prio), Split(b, SplicedRight(b, t, k, prio), 0, prio), 0)
    ensures CutCached(t, Split(b, t, k, prio), k)
  {
    SplitPieceJoin(b, t.piece, k - Size(t.left));
  }

  lemma {:induction false} SplitCachedRight(b: Buffers, t: Tree, k: nat, prio: nat)
    requires Valid(b, t) && t.Node? && Size(t.left) < k && Size(t.left) + t.piece.length <= k
    requires CutCached(t.right, Split(b, t.right, k - Size(t.left) - t.piece.length, prio),
                       k - Size(t.left) - t.piece.length)
    ensures CutCached(t, Split(b, t, k, prio), k)
  {
  }

  lemma {:induction false} SplitCached(b: Buffers, t: Tree, k: nat, prio: nat)
    requires Valid(b, t)
    ensures CutCached(t, Split(b, t, k, prio), k)
    decreases NodeCount(t), k
  {
    if t.Node? {
      if k <= Size(t.left) {
        SplitCached(b, t.left, k, prio);
        SplitCachedLeft(b, t, k, prio);
      } else if k < Size(t.left) + t.piece.length {
        var spliced := SplicedRight(b, t, k, prio);
        assert NodeCount(spliced) <= NodeCount(t);
        SplitCached(b, spliced, 0, prio);
        SplitCachedMid(b, t, k, prio);
      } else {
        SplitCached(b, t.right, k - Size(t.left) - t.piece.length, prio);
        SplitCachedRight(b, t, k, prio);
      }
    }
  }

  /** What a cut promises about text: the two halves spell out the
      original, one after the other. */
  predicate CutContent(b: Buffers, t: Tree, halves: (Tree, Tree))
  {
    AllOk(b, t) && AllOk(b, halves.0) && AllOk(b, halves.1) &&
    Content(b, halves.0) + Content(b, halves.1) == Content(b, t)
  }

  /** The text of a rebuilt node. */
  lemma {:induction false} ContentUpdate(b: Buffers, l: Tree, p: Piece, prio: nat, r: Tree)
    requires AllOk(b, l) && PieceOk(b, p) && AllOk(b, r)
    ensures AllOk(b, Update(l, p, prio, r))
    ensures Content(b, Update(l, p, prio, r)) == Content(b, l) + PieceText(b, p) + Content(b, r)
  {
  }

  lemma {:induction false} Regroup(x: seq<char>, y: seq<char>, z: seq<char>, w: seq<char>)
    ensures x + (y + z + w) == x + y + z + w
    ensures x + y + z + w == (x + y) + (z + w)
    ensures (x + y) + (z + w) == x + (y + z) + w
  {
  }

  lemma {:induction false} SplitContentLeft(b: Buffers, t: Tree, k: nat, prio: nat)
    requires Valid(b, t) && t.Node? && k <= Size(t.left)
    requires CutContent(b, t.left, Split(b, t.left, k, prio))
    ensures CutContent(b, t, Split(b, t, k, prio))
  {
    var res := Split(b, t.left, k, prio);
    assert Split(b, t, k, prio) == (res.0, Update(res.1, t.piece, t.prio, t.right));
    ContentUpdate(b, res.1, t.piece, t.prio, t.right);
    Regroup(Content(b, res.0), Content(b, res.1), PieceText(b, t.piece), Content(b, t.right));
  }

  lemma {:induction false} SplitMidStep(b: Buffers, t: Tree, k: nat, prio: nat)
    requires AllOk(b, t) && t.Node? && Size(t.left) < k < Size(t.left) + t.piece.length
    ensures Split(b, t, k, prio) ==
      var res := Split(b, SplicedRight(b, t, k, prio), 0, prio);
      (Update(t.left, SplitPiece(b, t.piece, k - Size(t.left)).0, t.prio, res.0), res.1)
  {
  }

  /** Rejoining a piece cut in two, with nothing in the left half of the
      spliced node's cut. */
  lemma {:induction false} RejoinPiece(b: Buffers, l: Tree, p: Piece, h0: Piece, h1: Piece, prio: nat, prio2: nat,
                    r: Tree, a: Tree, c: Tree)
    requires AllOk(b, l) && PieceOk(b, p) && PieceOk(b, h0) && PieceOk(b, h1) && AllOk(b, r)
    requires AllOk(b, a) && AllOk(b, c) && Content(b, a) == []
    requires PieceText(b, h0) + PieceText(b, h1) == PieceText(b, p)
    requires Content(b, a) + Content(b, c) == Content(b, Update(Leaf, h1, prio2, r))
    ensures AllOk(b, Update(l, h0, prio, a))
    ensures Content(b, Update(l, h0, prio, a)) + Content(b, c) == Content(b, l) + PieceText(b, p) + Content(b, r)
  {
    ContentUpdate(b, Leaf, h1, prio2, r);
    ContentUpdate(b, l, h0, prio, a);
    RejoinText(Content(b, l), PieceText(b, h0), PieceText(b, h1), Content(b, r),
               Content(b, a), Content(b, c), PieceText(b, p));
  }

  lemma {:induction false} RejoinText(cl: seq<char>, h0: seq<char>, h1: seq<char>, cr: seq<char>,
                   ca: seq<char>, cc: seq<char>, whole: seq<char>)
    requires ca == [] && ca + cc == [] + h1 + cr && h0 + h1 == whole
    ensures (cl + h0 + ca) + cc == cl + whole + cr
  {
    assert [] + h1 + cr == h1 + cr;
    assert cc == h1 + cr;
    assert cl + h0 + ca == cl + h0;
    assert (cl + h0) + (h1 + cr) == cl + (h0 + h1) + cr;
  }

  lemma {:induction false} SplitContentMid(b: Buffers, t: Tree, k: nat, prio: nat)
    requires Valid(b, t) && t.Node? && Size(t.left) < k < Size(t.left) + t.piece.length
    requires CutContent(b, SplicedRight(b, t, k, prio), Split(b, SplicedRight(b, t, k, prio), 0, prio))
    requires CutCached(SplicedRight(b, t, k, prio), Split(b, SplicedRight(b, t, k, prio), 0, prio), 0)
    ensures CutContent(b, t, Split(b, t, k, prio))
  {
    var halves := SplitPiece(b, t.piece, k - Size(t.left));
    var res := Split(b, SplicedRight(b, t, k, prio), 0, prio);
    SplitMidStep(b, t, k, prio);
    SplitPieceJoin(b, t.piece, k - Size(t.left));
    ContentMeasures(b, res.0);
    RejoinPiece(b, t.left, t.piece, halves.0, halves.1, t.prio, prio, t.right, res.0, res.1);
  }

  lemma {:induction false} SplitRightStep(b: Buffers, t: Tree, k: nat, prio: nat)
    requires AllOk(b, t) && t.Node? && Size(t.left) < k && Size(t.left) + t.piece.length <= k
    ensures Split(b, t, k, prio) ==
      var res := Split(b, t.right, k - Size(t.left) - t.piece.length, prio);
      (Update(t.left, t.piece, t.prio, res.0), res.1)
  {
  }

  lemma {:induction false} SplitContentRight(b: Buffers, t: Tree, k: nat, prio: nat)
    requires Valid(b, t) && t.Node? && Size(t.left) < k && Size(t.left) + t.piece.length <= k
    requires CutContent(b, t.right, Split(b, t.right, k - Size(t.left) - t.piece.length, prio))
    ensures CutContent(b, t, Split(b, t, k, prio))
  {
    var res := Split(b, t.right, k - Size(t.left) - t.piece.length, prio);
    SplitRightStep(b, t, k, prio);
    ContentUpdate(b, t.left, t.piece, t.prio, res.0);
    Regroup(Content(b, t.left), PieceText(b, t.piece), Content(b, res.0), Content(b, res.1));
  }

  /** The two halves of a cut spell out the original document. */
  lemma {:induction false} SplitContent(b: Buffers, t: Tree, k: nat, prio: nat)
    requires Valid(b, t)
    ensures CutContent(b, t, Split(b, t, k, prio))
    decreases NodeCount(t), k
  {
    SplitAllOk(b, t, k, prio);
    if t.Node? {
      if k <= Size(t.left) {
        SplitContent(b, t.left, k, prio);
        SplitContentLeft(b, t, k, prio);
      } else if k < Size(t.left) + t.piece.length {
        var spliced := SplicedRight(b, t, k, prio);
        assert NodeCount(spliced) <= NodeCount(t);
        SplitContent(b, spliced, 0, prio);
        SplitCached(b, spliced, 0, prio);
        SplitContentMid(b, t, k, prio);
      } else {
        SplitContent(b, t.right, k - Size(t.left) - t.piece.length, prio);
        SplitContentRight(b, t, k, prio);
      }
    }
  }

  function Min(x: nat, y: nat): (m: nat)
    ensures m <= x && m <= y && (m == x || m == y)
  {
    if x <= y then x else y
  }

  lemma {:induction false} CutSlices(x: seq<char>, y: seq<char>, z: seq<char>, m: nat)
    requires x + y == z && |x| == m
    ensures m <= |z| && x == z[..m] && y == z[m..]
  {
  }

  /** A cut at `k` in slice form: the left half holds the first `k`
      characters (all of them when `k` is past the end), the right half
      the rest, and both halves are valid trees. */
  lemma {:induction false} SplitCut(b: Buffers, t: Tree, k: nat, prio: nat)
    requires Valid(b, t)
    ensures Valid(b, Split(b, t, k, prio).0) && Valid(b, Split(b, t, k, prio).1)
    ensures var c := Content(b, t); var m := Min(k, |c|);
      Content(b, Split(b, t, k, prio).0) == c[..m] && Content(b, Split(b, t, k, prio).1) == c[m..]
  {
    var res := Split(b, t, k, prio);
    SplitCached(b, t, k, prio);
    SplitContent(b, t, k, prio);
    ContentMeasures(b, res.0);
    ContentMeasures(b, t);
    CutSlices(Content(b, res.0), Content(b, res.1), Content(b, t), Min(k, Size(t)));
  }

  // ---------------------------------------------------------------------
  // Insert and erase

  /** A one-node tree spells out its piece. */
  lemma {:induction false} SingleContent(b: Buffers, p: Piece, prio: nat)
    requires PieceOk(b, p)
    ensures Valid(b, MakeNode(p, prio)) && Content(b, MakeNode(p, prio)) == PieceText(b, p)
  {
    assert Content(b, MakeNode(p, prio)) == [] + PieceText(b, p) + [];
  }

  /** Merging three valid trees in order spells out their texts in order. */
  lemma {:induction false} MergeThree(b: Buffers, l: Tree, m: Tree, r: Tree)
    requires Valid(b, l) && Valid(b, m) && Valid(b, r)
    ensures Valid(b, Merge(Merge(l, m), r))
    ensures Content(b, Merge(Merge(l, m), r)) == Content(b, l) + Content(b, m) + Content(b, r)
  {
    MergeCached(l, m);
    MergeContent(b, l, m);
    MergeCached(Merge(l, m), r);
    MergeContent(b, Merge(l, m), r);
  }

  /** Merging two valid trees gives a valid tree spelling out both texts. */
  lemma {:induction false} MergeTwo(b: Buffers, l: Tree, r: Tree)
    requires Valid(b, l) && Valid(b, r)
    ensures Valid(b, Merge(l, r)) && Content(b, Merge(l, r)) == Content(b, l) + Content(b, r)
  {
    MergeCached(l, r);
    MergeContent(b, l, r);
  }

  /** Puts `p` so that its text starts at byte `k` (the end when `k` is
      past it). The cut may draw `splitPrio` for a piece split in two and
      the new node draws `nodePrio`. An empty piece changes nothing. */
  function Insert(b: Buffers, t: Tree, k: nat, p: Piece, splitPrio: nat, nodePrio: nat): Tree
    requires AllOk(b, t)
  {
    if p.length == 0 then t
    else
      var (l, r) := Split(b, t, k, splitPrio);
      Merge(Merge(l, MakeNode(p, nodePrio)), r)
  }

  lemma {:induction false} InsertSpec(b: Buffers, t: Tree, k: nat, p: Piece, splitPrio: nat, nodePrio: nat)
    requires Valid(b, t) && PieceOk(b, p)
    ensures Valid(b, Insert(b, t, k, p, splitPrio, nodePrio))
    ensures var c := Content(b, t); var m := Min(k, |c|);
      Content(b, Insert(b, t, k, p, splitPrio, nodePrio)) == c[..m] + PieceText(b, p) + c[m..]
  {
    var c := Content(b, t);
    var m := Min(k, |c|);
    if p.length == 0 {
      assert c == c[..m] + PieceText(b, p) + c[m..];
    } else {
      var res := Split(b, t, k, splitPrio);
      SplitCut(b, t, k, splitPrio);
      SingleContent(b, p, nodePrio);
      MergeThree(b, res.0, MakeNode(p, nodePrio), res.1);
    }
  }

  /** Removes the `n` bytes from byte `k` on (fewer when the text ends
      first). Each of the two cuts may draw a priority. Removing nothing
      changes nothing. */
  function Erase(b: Buffers, t: Tree, k: nat, n: nat, prio1: nat, prio2: nat): Tree
    requires AllOk(b, t)
  {
    if n == 0 then t
    else
      SplitAllOk(b, t, k, prio1);
      var (l, rest) := Split(b, t, k, prio1);
      var (_, r) := Split(b, rest, n, prio2);
      Merge(l, r)
  }

  lemma {:induction false} DropSlices(c: seq<char>, k: nat, n: nat, rest: seq<char>)
    requires rest == c[Min(k, |c|)..]
    ensures rest[Min(n, |rest|)..] == c[Min(k + n, |c|)..]
  {
  }

  lemma {:induction false} EraseSpec(b: Buffers, t: Tree, k: nat, n: nat, prio1: nat, prio2: nat)
    requires Valid(b, t)
    ensures Valid(b, Erase(b, t, k, n, prio1, prio2))
    ensures var c := Content(b, t);
      Content(b, Erase(b, t, k, n, prio1, prio2)) == c[..Min(k, |c|)] + c[Min(k + n, |c|)..]
  {
    var c := Content(b, t);
    if n == 0 {
      assert c == c[..Min(k, |c|)] + c[Min(k, |c|)..];
    } else {
      var res := Split(b, t, k, prio1);
      SplitCut(b, t, k, prio1);
      var res2 := Split(b, res.1, n, prio2);
      SplitCut(b, res.1, n, prio2);
      DropSlices(c, k, n, Content(b, res.1));
      MergeTwo(b, res.0, res2.1);
    }
  }

  /** Sizes after an insert and an erase, as the treap's own tests check
      them. */
  lemma {:induction false} InsertSize(b: Buffers, t: Tree, k: nat, p: Piece, splitPrio: nat, nodePrio: nat)
    requires Valid(b, t) && PieceOk(b, p)
    ensures Valid(b, Insert(b, t, k, p, splitPrio, nodePrio))
    ensures Size(Insert(b, t, k, p, splitPrio, nodePrio)) == Size(t) + p.length
  {
    InsertSpec(b, t, k, p, splitPrio, nodePrio);
    ContentMeasures(b, t);
    ContentMeasures(b, Insert(b, t, k, p, splitPrio, nodePrio));
  }

  lemma {:induction false} EraseSize(b: Buffers, t: Tree, k: nat, n: nat, prio1: nat, prio2: nat)
    requires Valid(b, t)
    ensures Valid(b, Erase(b, t, k, n, prio1, prio2))
    ensures Size(Erase(b, t, k, n, prio1, prio2)) == Size(t) - (Min(k + n, Size(t)) - Min(k, Size(t)))
  {
    EraseSpec(b, t, k, n, prio1, prio2);
    ContentMeasures(b, t);
    ContentMeasures(b, Erase(b, t, k, n, prio1, prio2));
  }

  /** Three five-byte pieces inserted one after another make fifteen
      bytes; erasing five at a piece boundary leaves ten, and erasing
      seven from byte 3, cutting pieces on both sides, leaves eight. */
  lemma {:induction false} BoundaryErases(prios: seq<nat>)
    requires |prios| == 10
    ensures var b := Buffers([], "aaaaabbbbbccccc");
      var t1 := Insert(b, Leaf, 0, Piece(Add, 0, 5, 0), prios[0], prios[1]);
      Valid(b, t1) &&
      var t2 := Insert(b, t1, 5, Piece(Add, 5, 5, 0), prios[2], prios[3]);
      Valid(b, t2) &&
      var t3 := Insert(b, t2, 10, Piece(Add, 10, 5, 0), prios[4], prios[5]);
      Valid(b, t3) && Size(t3) == 15 &&
      Size(Erase(b, t3, 5, 5, prios[6], prios[7])) == 10 &&
      Size(Erase(b, t3, 3, 7, prios[8], prios[9])) == 8
  {
    var b := Buffers([], "aaaaabbbbbccccc");
    var p1, p2, p3 := Piece(Add, 0, 5, 0), Piece(Add, 5, 5, 0), Piece(Add, 10, 5, 0);
    FivePieces();
    var t1 := Insert(b, Leaf, 0, p1, prios[0], prios[1]);
    InsertSize(b, Leaf, 0, p1, prios[0], prios[1]);
    var t2 := Insert(b, t1, 5, p2, prios[2], prios[3]);
    InsertSize(b, t1, 5, p2, prios[2], prios[3]);
    var t3 := Insert(b, t2, 10, p3, prios[4], prios[5]);
    InsertSize(b, t2, 10, p3, prios[4], prios[5]);
    EraseSize(b, t3, 5, 5, prios[6], prios[7]);
    EraseSize(b, t3, 3, 7, prios[8], prios[9]);
  }

  lemma {:induction false} FivePieces()
    ensures var b := Buffers([], "aaaaabbbbbccccc");
      PieceOk(b, Piece(Add, 0, 5, 0)) && PieceOk(b, Piece(Add, 5, 5, 0)) && PieceOk(b, Piece(Add, 10, 5, 0))
  {
    var b := Buffers([], "aaaaabbbbbccccc");
    assert PieceText(b, Piece(Add, 0, 5, 0)) == "aaaaa";
    assert PieceText(b, Piece(Add, 5, 5, 0)) == "bbbbb";
    assert PieceText(b, Piece(Add, 10, 5, 0)) == "ccccc";
  }

  /** A piece of length zero changes nothing, and neither does erasing
      zero bytes. */
  lemma {:induction false} ZeroLengthNoOps(b: Buffers, t: Tree, k: nat, p: Piece, prio1: nat, prio2: nat)
    requires AllOk(b, t) && p.length == 0
    ensures Insert(b, t, k, p, prio1, prio2) == t
    ensures Erase(b, t, k, 0, prio1, prio2) == t
  {
  }

  // ---------------------------------------------------------------------
  // Copying and listing

  /** A deep copy: fresh nodes holding the same pieces, priorities and
      cached aggregates. */
  function CopyNodes(t: Tree): (c: Tree)
    ensures c == t
  {
    if t.Leaf? then Leaf
    else Node(CopyNodes(t.left), t.piece, t.prio, t.len, t.nl, CopyNodes(t.right))
  }

  /** Appends the pieces in document order to `acc`, left subtree first. */
  function GetPieces(t: Tree, acc: seq<Piece>): (ps: seq<Piece>)
    ensures ps == acc + InOrder(t)
  {
    if t.Leaf? then acc
    else
      var withLeft := GetPieces(t.left, acc);
      GetPieces(t.right, withLeft + [t.piece])
  }

  // ---------------------------------------------------------------------
  // Located pieces and growing buffers

  /** A located piece is a well-formed piece whose text sits in the
      document at the hit's offset. */
  lemma {:induction false} LocatedText(b: Buffers, t: Tree, h: Hit)
    requires AllOk(b, t) && Locates(t, h)
    ensures InBounds(b, h.piece)
    ensures h.offset + h.piece.length <= |Content(b, t)|
    ensures Content(b, t)[h.offset..h.offset + h.piece.length] == PieceText(b, h.piece)
  {
    ContentConcat(b, t);
    PieceAt(b, InOrder(t), Content(b, t), h.rank, h.piece, h.offset);
  }

  lemma {:induction false} PieceAt(b: Buffers, ps: seq<Piece>, c: seq<char>, i: nat, p: Piece, off: nat)
    requires AllInBounds(b, ps) && c == Concat(b, ps)
    requires i < |ps| && ps[i] == p && off == LengthUpTo(ps, i)
    ensures InBounds(b, p) && off + p.length <= |c| && c[off..off + p.length] == PieceText(b, p)
  {
    PieceInConcat(b, ps, i);
  }

  /** ... and the newlines before it are those of the pieces before it. */
  lemma {:induction false} LocatedNewlines(b: Buffers, t: Tree, h: Hit)
    requires AllOk(b, t) && Locates(t, h)
    ensures PieceOk(b, h.piece)
    ensures h.offset <= |Content(b, t)|
    ensures NewlinesBefore(Content(b, t), h.offset) == NewlinesUpTo(InOrder(t), h.rank)
  {
    ContentFlatten(b, t);
    assert PieceOk(b, InOrder(t)[h.rank]);
    NewlinesBeforePiece(b, InOrder(t), h.rank);
  }

  /** Appending to the add buffer keeps a tree well formed and its text
      unchanged. */
  lemma {:induction false} ExtendsKeepsTree(b: Buffers, b2: Buffers, t: Tree)
    requires Extends(b, b2) && AllOk(b, t)
    ensures AllOk(b2, t) && Content(b2, t) == Content(b, t)
  {
    if t.Node? {
      ExtendsKeepsTree(b, b2, t.left);
      ExtendsKeepsPiece(b, b2, t.piece);
      ExtendsKeepsTree(b, b2, t.right);
    }
  }
}
