/** The Othello board as a value: an n-by-n grid of integers holding BLACK, WHITE or EMPTY,
    the opening position, and the cell counts the game tallies. */
module Grid {

  /** Cell values, as the source stores them: plain integers. */
  const BLACK: int := -1
  const WHITE: int := 1
  const EMPTY: int := 0

  /** A board is a list of rows; row r, column c is b[r][c]. */
  type Board = seq<seq<int>>

  /** A (row, column) coordinate. */
  type Pos = (int, int)

  /** A value or nothing: the source's `(None, None)` answer when a side has no move. */
  datatype Option<T> = None | Some(value: T)

  predicate IsPiece(p: int) { p == BLACK || p == WHITE }

  /** The side `piece` plays against: BLACK unless `piece` is WHITE. */
  function Opponent(piece: int): (o: int)
    ensures o != piece && IsPiece(o)
  {
    if piece == WHITE then BLACK else WHITE
  }

  /** The number of columns, read off the first row as the source does. */
  function Width(b: Board): nat { if |b| == 0 then 0 else |b[0]| }

  /** Every row has the same length. */
  predicate Rect(b: Board) { forall i :: 0 <= i < |b| ==> |b[i]| == Width(b) }

  predicate InBounds(b: Board, r: int, c: int) { 0 <= r < |b| && 0 <= c < Width(b) }

  /** Every cell holds one of the three cell values. */
  predicate ValidCells(b: Board)
  {
    forall i, j :: 0 <= i < |b| && 0 <= j < |b[i]| ==> b[i][j] in {BLACK, WHITE, EMPTY}
  }

  /** `b` with cell (r, c) set to v. */
  function Set(b: Board, r: int, c: int, v: int): (b': Board)
    requires Rect(b) && InBounds(b, r, c)
    ensures Rect(b') && |b'| == |b| && Width(b') == Width(b)
    ensures forall x, y {:trigger b'[x][y]} :: InBounds(b, x, y) ==> b'[x][y] == if x == r && y == c then v else b[x][y]
  {
    b[r := b[r][c := v]]
  }

  /** Two rectangular boards of the same dimensions with the same cells are the same board. */
  lemma SameCells(b: Board, b': Board)
    requires Rect(b) && Rect(b') && |b| == |b'| && Width(b) == Width(b')
    requires forall x, y :: InBounds(b, x, y) ==> b[x][y] == b'[x][y]
    ensures b == b'
  {
    forall x | 0 <= x < |b|
      ensures b[x] == b'[x]
    {
      assert forall y :: 0 <= y < |b[x]| ==> InBounds(b, x, y);
    }
  }

  /* ---------------------------------------------------------------------------------------------
     Counting cells
     ------------------------------------------------------------------------------------------- */

  /** How many cells of a row hold v (the source's `row.count(v)`). */
  function RowCount(s: seq<int>, v: int): nat
  {
    if |s| == 0 then 0 else RowCount(s[..|s| - 1], v) + (if s[|s| - 1] == v then 1 else 0)
  }

  /** How many cells of the board hold v (the source's `sum(row.count(v) for row in board)`). */
  function Count(b: Board, v: int): nat
  {
    if |b| == 0 then 0 else Count(b[..|b| - 1], v) + RowCount(b[|b| - 1], v)
  }

  /** Both boards have the same number of rows and matching row lengths. */
  predicate SameShape(b: Board, b': Board)
  {
    |b| == |b'| && forall i :: 0 <= i < |b| ==> |b[i]| == |b'[i]|
  }

  /** How many positions of a row differ between two rows of the same length. */
  function RowDiff(s: seq<int>, t: seq<int>): nat
    requires |s| == |t|
  {
    if |s| == 0 then 0 else RowDiff(s[..|s| - 1], t[..|t| - 1]) + (if s[|s| - 1] != t[|t| - 1] then 1 else 0)
  }

  /** How many cells differ between two boards of the same shape. */
  function Diff(b: Board, b': Board): nat
    requires SameShape(b, b')
  {
    if |b| == 0 then 0 else Diff(b[..|b| - 1], b'[..|b'| - 1]) + RowDiff(b[|b| - 1], b'[|b'| - 1])
  }

  lemma {:induction false} RowCountUpdate(s: seq<int>, c: int, w: int, v: int)
    requires 0 <= c < |s|
    ensures RowCount(s[c := w], v) == RowCount(s, v) - (if s[c] == v then 1 else 0) + (if w == v then 1 else 0)
  {
    var t := s[c := w];
    if c < |s| - 1 {
      assert t[..|t| - 1] == s[..|s| - 1][c := w];
      RowCountUpdate(s[..|s| - 1], c, w, v);
    } else {
      assert t[..|t| - 1] == s[..|s| - 1];
    }
  }

  lemma {:induction false} CountUpdate(b: Board, r: int, s: seq<int>, v: int)
    requires 0 <= r < |b|
    ensures Count(b[r := s], v) == Count(b, v) - RowCount(b[r], v) + RowCount(s, v)
  {
    var b' := b[r := s];
    if r < |b| - 1 {
      assert b'[..|b'| - 1] == b[..|b| - 1][r := s];
      CountUpdate(b[..|b| - 1], r, s, v);
    } else {
      assert b'[..|b'| - 1] == b[..|b| - 1];
    }
  }

  /** Setting one cell moves it from the count of its old value to the count of its new one. */
  lemma CountSet(b: Board, r: int, c: int, w: int, v: int)
    requires Rect(b) && InBounds(b, r, c)
    ensures Count(Set(b, r, c, w), v) == Count(b, v) - (if b[r][c] == v then 1 else 0) + (if w == v then 1 else 0)
  {
    CountUpdate(b, r, b[r][c := w], v);
    RowCountUpdate(b[r], c, w, v);
  }

  lemma {:induction false} RowDiffUpdate(s: seq<int>, t: seq<int>, c: int, w: int)
    requires |s| == |t| && 0 <= c < |s|
    ensures RowDiff(s, t[c := w]) == RowDiff(s, t) - (if t[c] != s[c] then 1 else 0) + (if w != s[c] then 1 else 0)
  {
    var t' := t[c := w];
    if c < |s| - 1 {
      assert t'[..|t'| - 1] == t[..|t| - 1][c := w];
      RowDiffUpdate(s[..|s| - 1], t[..|t| - 1], c, w);
    } else {
      assert t'[..|t'| - 1] == t[..|t| - 1];
    }
  }

  lemma {:induction false} DiffUpdate(b: Board, x: Board, r: int, s: seq<int>)
    requires SameShape(b, x) && 0 <= r < |b| && |s| == |b[r]|
    ensures SameShape(b, x[r := s])
    ensures Diff(b, x[r := s]) == Diff(b, x) - RowDiff(b[r], x[r]) + RowDiff(b[r], s)
  {
    var x' := x[r := s];
    if r < |b| - 1 {
      assert x'[..|x'| - 1] == x[..|x| - 1][r := s];
      DiffUpdate(b[..|b| - 1], x[..|x| - 1], r, s);
    } else {
      assert x'[..|x'| - 1] == x[..|x| - 1];
    }
  }

  /** Setting one cell of x changes how many cells x differs from b in by at most one, as its value
      starts or stops matching b's. */
  lemma DiffSet(b: Board, x: Board, r: int, c: int, w: int)
    requires Rect(x) && SameShape(b, x) && InBounds(x, r, c)
    ensures SameShape(b, Set(x, r, c, w))
    ensures Diff(b, Set(x, r, c, w)) == Diff(b, x) - (if x[r][c] != b[r][c] then 1 else 0) + (if w != b[r][c] then 1 else 0)
  {
    DiffUpdate(b, x, r, x[r][c := w]);
    RowDiffUpdate(b[r], x[r], c, w);
  }

  lemma {:induction false} DiffSelf(b: Board)
    ensures SameShape(b, b) && Diff(b, b) == 0
  {
    if |b| > 0 {
      DiffSelf(b[..|b| - 1]);
      RowDiffSelf(b[|b| - 1]);
    }
  }

  lemma {:induction false} RowDiffSelf(s: seq<int>)
    ensures RowDiff(s, s) == 0
  {
    if |s| > 0 {
      RowDiffSelf(s[..|s| - 1]);
    }
  }

  lemma {:induction false} RowCountTotal(s: seq<int>)
    requires forall j :: 0 <= j < |s| ==> s[j] in {BLACK, WHITE, EMPTY}
    ensures RowCount(s, BLACK) + RowCount(s, WHITE) + RowCount(s, EMPTY) == |s|
  {
    if |s| > 0 {
      RowCountTotal(s[..|s| - 1]);
    }
  }

  /** On a board of n rows of w cells, each holding BLACK, WHITE or EMPTY, the three counts add up to n * w. */
  lemma {:induction false} CountTotal(b: Board)
    requires Rect(b) && ValidCells(b)
    ensures Count(b, BLACK) + Count(b, WHITE) + Count(b, EMPTY) == |b| * Width(b)
  {
    if |b| > 0 {
      var p := b[..|b| - 1];
      assert Rect(p) && ValidCells(p);
      assert |b| == 1 || Width(p) == Width(b);
      CountTotal(p);
      RowCountTotal(b[|b| - 1]);
      assert |b| * Width(b) == |p| * Width(b) + Width(b);
    }
  }

  /* ---------------------------------------------------------------------------------------------
     The opening position
     ------------------------------------------------------------------------------------------- */

  /** An n-by-n board of EMPTY cells. */
  function Blank(n: nat): (b: Board)
  {
    seq(n, _ => seq(n, _ => EMPTY))
  }

  /** The opening position as the source builds it: a blank n-by-n board, then WHITE on the
      diagonal cells (n/2, n/2) and (n/2-1, n/2-1) and BLACK on (n/2-1, n/2) and (n/2, n/2-1).
      No size check beyond what makes the four cells exist. */
  function Opening(n: nat): Board
    requires n >= 2
  {
    var c0, c1 := n / 2, n / 2 - 1;
    var b := Set(Set(Blank(n), c0, c0, WHITE), c1, c1, WHITE);
    Set(Set(b, c1, c0, BLACK), c0, c1, BLACK)
  }

  /** The opening position is n by n, with WHITE on (n/2-1, n/2-1) and (n/2, n/2), BLACK on
      (n/2-1, n/2) and (n/2, n/2-1), and EMPTY everywhere else. */
  lemma OpeningLayout(n: nat)
    requires n >= 2
    ensures Rect(Opening(n)) && |Opening(n)| == n && Width(Opening(n)) == n && ValidCells(Opening(n))
    ensures forall r, c :: 0 <= r < n && 0 <= c < n ==>
      Opening(n)[r][c] ==
        if (r == n / 2 - 1 && c == n / 2 - 1) || (r == n / 2 && c == n / 2) then WHITE
        else if (r == n / 2 - 1 && c == n / 2) || (r == n / 2 && c == n / 2 - 1) then BLACK
        else EMPTY
  {
    assert Rect(Blank(n)) && Width(Blank(n)) == n;
  }

  lemma {:induction false} RowCountBlank(s: seq<int>, v: int)
    requires forall j :: 0 <= j < |s| ==> s[j] == EMPTY
    ensures RowCount(s, v) == if v == EMPTY then |s| else 0
  {
    if |s| > 0 {
      RowCountBlank(s[..|s| - 1], v);
    }
  }

  lemma {:induction false} CountBlankRows(b: Board, n: nat, v: int)
    requires forall i :: 0 <= i < |b| ==> b[i] == seq(n, _ => EMPTY)
    ensures Count(b, v) == if v == EMPTY then |b| * n else 0
  {
    if |b| > 0 {
      CountBlankRows(b[..|b| - 1], n, v);
      RowCountBlank(b[|b| - 1], v);
    }
  }

  /** The opening position holds exactly two BLACK and two WHITE pieces; the other n*n - 4 cells are EMPTY. */
  lemma OpeningCounts(n: nat)
    requires n >= 2
    ensures Count(Opening(n), BLACK) == 2
    ensures Count(Opening(n), WHITE) == 2
    ensures Count(Opening(n), EMPTY) == n * n - 4
  {
    var c0, c1 := n / 2, n / 2 - 1;
    var b0 := Blank(n);
    assert Rect(b0) && Width(b0) == n;
    var b1 := Set(b0, c0, c0, WHITE);
    var b2 := Set(b1, c1, c1, WHITE);
    var b3 := Set(b2, c1, c0, BLACK);
    var b4 := Set(b3, c0, c1, BLACK);
    forall v | v in {BLACK, WHITE, EMPTY}
      ensures Count(b4, v) == Count(b0, v) - (if v == EMPTY then 4 else 0) + (if v == BLACK || v == WHITE then 2 else 0)
    {
      CountSet(b0, c0, c0, WHITE, v);
      CountSet(b1, c1, c1, WHITE, v);
      CountSet(b2, c1, c0, BLACK, v);
      CountSet(b3, c0, c1, BLACK, v);
    }
    CountBlankRows(b0, n, BLACK);
    CountBlankRows(b0, n, WHITE);
    CountBlankRows(b0, n, EMPTY);
  }
}
