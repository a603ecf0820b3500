/** get_valid_moves: the legal cells of a board, listed row by row as the source's nested loops
    append them. */
module Enumerate {
  import opened Grid
  import opened Engine

  /** p comes before q in row-major order. */
  predicate Before(p: Pos, q: Pos)
  {
    p.0 < q.0 || (p.0 == q.0 && p.1 < q.1)
  }

  /** Strictly increasing in row-major order (so, in particular, no cell twice). */
  predicate Increasing(s: seq<Pos>)
  {
    forall i, j :: 0 <= i < j < |s| ==> Before(s[i], s[j])
  }

  /** The inner loop over columns c, c + 1, ... of row r: the cells where is_valid_move holds. */
  function RowMoves(b: Board, piece: int, r: int, c: nat): (ms: seq<Pos>)
    requires Rect(b) && 0 <= r < |b| && c <= Width(b)
    ensures forall m :: m in ms <==> m.0 == r && c <= m.1 < Width(b) && IsValidMove(b, m.0, m.1, piece)
    ensures Increasing(ms)
    decreases Width(b) - c
  {
    if c == Width(b) then []
    else (if IsValidMove(b, r, c, piece) then [(r, c)] else []) + RowMoves(b, piece, r, c + 1)
  }

  /** The outer loop over rows r, r + 1, ...: the cells where is_valid_move holds, row by row. */
  function MovesFrom(b: Board, piece: int, r: nat): (ms: seq<Pos>)
    requires Rect(b) && r <= |b|
    ensures forall m :: m in ms <==> r <= m.0 < |b| && 0 <= m.1 < Width(b) && IsValidMove(b, m.0, m.1, piece)
    ensures Increasing(ms)
    decreases |b| - r
  {
    if r == |b| then []
    else
      var head, tail := RowMoves(b, piece, r, 0), MovesFrom(b, piece, r + 1);
      assert forall i, j :: 0 <= i < |head| && 0 <= j < |tail| ==> Before(head[i], tail[j]) by {
        forall i, j | 0 <= i < |head| && 0 <= j < |tail|
          ensures Before(head[i], tail[j])
        {
          assert head[i] in head && tail[j] in tail;
        }
      }
      head + tail
  }

  /** get_valid_moves: every on-board cell where is_valid_move holds, each once, in row-major order. */
  function GetValidMoves(b: Board, piece: int): (ms: seq<Pos>)
    requires Rect(b)
    ensures forall m :: m in ms <==> InBounds(b, m.0, m.1) && IsValidMove(b, m.0, m.1, piece)
    ensures Increasing(ms)
  {
    MovesFrom(b, piece, 0)
  }

  /** The check the game loop makes before each turn: does the side playing `piece` have a legal
      move on the n-by-n board (n = |b|)? */
  predicate HasMove(b: Board, piece: int)
    requires Rect(b)
  {
    exists r, c | 0 <= r < |b| && 0 <= c < |b| :: InBounds(b, r, c) && IsValidMove(b, r, c, piece)
  }

  /** On a square board the game loop's check agrees with get_valid_moves: a side has a move
      exactly when its list of valid moves is not empty. */
  lemma HasMoveIffMoves(b: Board, piece: int)
    requires Rect(b) && Width(b) == |b|
    ensures HasMove(b, piece) <==> GetValidMoves(b, piece) != []
  {
    var ms := GetValidMoves(b, piece);
    if ms != [] {
      assert ms[0] in ms;
    }
    if HasMove(b, piece) {
      var r, c :| 0 <= r < |b| && 0 <= c < |b| && InBounds(b, r, c) && IsValidMove(b, r, c, piece);
      assert (r, c) in ms;
    }
  }

  /** A strictly increasing list orders its entries by position: an entry that comes before
      another in row-major order sits at a smaller index. */
  lemma IncreasingIndex(s: seq<Pos>, i: int, j: int)
    requires Increasing(s) && 0 <= i < |s| && 0 <= j < |s| && Before(s[i], s[j])
    ensures i < j
  {
  }

  /** A cell where one direction encloses a run is a valid move when it is EMPTY. */
  lemma EnclosingMove(b: Board, row: int, col: int, piece: int, i: int)
    requires Rect(b) && InBounds(b, row, col) && b[row][col] == EMPTY
    requires 0 <= i < |Directions| && Enclosed(b, row, col, Directions[i], piece) > 0
    ensures (row, col) in GetValidMoves(b, piece)
  {
    ValidInDirsExists(b, row, col, piece, Directions);
  }

  /** Two strictly increasing lists with the same entries are the same list. */
  lemma {:induction false} IncreasingUnique(s: seq<Pos>, t: seq<Pos>)
    requires Increasing(s) && Increasing(t)
    requires forall m :: m in s <==> m in t
    ensures s == t
    decreases |s|
  {
    if s == [] {
      HeadIn(t);
    } else {
      assert s[0] in t && t[0] in s;
      if s[0] != t[0] {
        assert false;
      }
      forall m
        ensures m in s[1..] <==> m in t[1..]
      {
        InTail(s, m);
        InTail(t, m);
      }
      IncreasingUnique(s[1..], t[1..]);
    }
  }

  /** A non-empty list holds its head. */
  lemma HeadIn(t: seq<Pos>)
    ensures t != [] ==> t[0] in t
  {
  }

  /** In a strictly increasing list, the tail holds every entry but the head. */
  lemma InTail(s: seq<Pos>, m: Pos)
    requires Increasing(s) && s != []
    ensures m in s[1..] <==> m in s && m != s[0]
  {
    if m in s[1..] {
      var i :| 0 <= i < |s[1..]| && s[1..][i] == m;
      assert Before(s[0], s[i + 1]);
    }
    if m in s && m != s[0] {
      var i :| 0 <= i < |s| && s[i] == m;
      assert s[1..][i - 1] == m;
    }
  }

  /** On the opening position, a bracket for BLACK is a single WHITE piece closed by a BLACK one:
      the two WHITE pieces sit on one diagonal and the cells beyond them are EMPTY. Only the four
      cells next to the centre start such a bracket. */
  lemma OpeningBracket(n: nat, b: Board, row: int, col: int, d: Dir, k: int)
    requires n >= 4 && b == Opening(n) && Rect(b) && Brackets(b, row, col, d, BLACK, k)
    ensures k == 1
    ensures var c0, c1 := n / 2, n / 2 - 1;
      (row, col) in [(c1 - 1, c1), (c1, c1 - 1), (c0, c0 + 1), (c0 + 1, c0)]
  {
    OpeningLayout(n);
    assert InBounds(b, Along(row, d.0, 1), Along(col, d.1, 1)) && b[Along(row, d.0, 1)][Along(col, d.1, 1)] == WHITE;
    if k >= 2 {
      assert false;
    }
    assert b[Along(row, d.0, 2)][Along(col, d.1, 2)] == BLACK;
  }

  /** On the opening position of any board of side n >= 4, BLACK can play next to each of the four
      centre pieces, each time turning one WHITE piece. */
  lemma OpeningHasMoves(n: nat)
    requires n >= 4
    ensures var ms := GetValidMoves(Opening(n), BLACK);
      var c0, c1 := n / 2, n / 2 - 1;
      (c1 - 1, c1) in ms && (c1, c1 - 1) in ms && (c0, c0 + 1) in ms && (c0 + 1, c0) in ms
  {
    var b := Opening(n);
    var c0, c1 := n / 2, n / 2 - 1;
    OpeningLayout(n);
    assert Run(b, c1, c1, (1, 0), WHITE) == 1;
    EnclosingMove(b, c1 - 1, c1, BLACK, 6);
    assert Run(b, c1, c1, (0, 1), WHITE) == 1;
    EnclosingMove(b, c1, c1 - 1, BLACK, 4);
    assert Run(b, c0, c0, (0, -1), WHITE) == 1;
    EnclosingMove(b, c0, c0 + 1, BLACK, 3);
    assert Run(b, c0, c0, (-1, 0), WHITE) == 1;
    EnclosingMove(b, c0 + 1, c0, BLACK, 1);
  }

  /** On the opening position, BLACK has no valid move other than the four cells next to the centre. */
  lemma OpeningOnlyMoves(n: nat)
    requires n >= 4
    ensures var c0, c1 := n / 2, n / 2 - 1;
      forall m :: m in GetValidMoves(Opening(n), BLACK) ==> m in [(c1 - 1, c1), (c1, c1 - 1), (c0, c0 + 1), (c0 + 1, c0)]
  {
    var b := Opening(n);
    OpeningLayout(n);
    forall m | m in GetValidMoves(b, BLACK)
      ensures m in [(n / 2 - 2, n / 2 - 1), (n / 2 - 1, n / 2 - 2), (n / 2, n / 2 + 1), (n / 2 + 1, n / 2)]
    {
      ValidMoveIsBracketing(b, m.0, m.1, BLACK);
      var i, k :| 0 <= i < |Directions| && Brackets(b, m.0, m.1, Directions[i], BLACK, k);
      OpeningBracket(n, b, m.0, m.1, Directions[i], k);
    }
  }

  /** The four cells next to a centre at (c - 1, c - 1)..(c, c), listed in row-major order. */
  lemma CentreMovesIncreasing(c: int)
    ensures Increasing([(c - 2, c - 1), (c - 1, c - 2), (c, c + 1), (c + 1, c)])
  {
  }

  /** On the opening position of any board of side n >= 4, BLACK's valid moves are exactly the four
      cells next to the centre pieces, in row-major order: (n/2-2, n/2-1), (n/2-1, n/2-2),
      (n/2, n/2+1) and (n/2+1, n/2) (on the 8-by-8 board: [(2, 3), (3, 2), (4, 5), (5, 4)]). */
  lemma OpeningMoves(n: nat)
    requires n >= 4
    ensures var c0, c1 := n / 2, n / 2 - 1;
      GetValidMoves(Opening(n), BLACK) == [(c1 - 1, c1), (c1, c1 - 1), (c0, c0 + 1), (c0 + 1, c0)]
  {
    var c0, c1 := n / 2, n / 2 - 1;
    var ms, expected := GetValidMoves(Opening(n), BLACK), [(c1 - 1, c1), (c1, c1 - 1), (c0, c0 + 1), (c0 + 1, c0)];
    assert forall m :: m in ms <==> m in expected by {
      OpeningHasMoves(n);
      OpeningOnlyMoves(n);
    }
    CentreMovesIncreasing(c0);
    IncreasingUnique(ms, expected);
  }
}
