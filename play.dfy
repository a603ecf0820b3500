/** The mutable board: init_board, do_move and move_one_step working in place on a two-dimensional
    array, and the move sources that propose moves. */
module Play {
  import opened Grid
  import opened Engine
  import opened Enumerate
  import opened Ai

  /** The board an array holds, as a value. */
  function Snapshot(a: array2<int>): (b: Board)
    reads a
    ensures Rect(b) && |b| == a.Length0 && (a.Length0 > 0 ==> Width(b) == a.Length1)
    ensures forall x, y {:trigger b[x][y]} :: 0 <= x < a.Length0 && 0 <= y < a.Length1 ==> b[x][y] == a[x, y]
  {
    seq(a.Length0, x requires 0 <= x < a.Length0 reads a =>
      seq(a.Length1, y requires 0 <= y < a.Length1 reads a => a[x, y]))
  }

  /* ---------------------------------------------------------------------------------------------
     init_board
     ------------------------------------------------------------------------------------------- */

  /** init_board: a fresh n-by-n grid of EMPTY cells, then the four opening pieces. */
  method InitBoard(n: nat) returns (a: array2<int>)
    requires n >= 2
    ensures fresh(a)
    ensures Snapshot(a) == Opening(n)
  {
    a := new int[n, n]((_, _) => EMPTY);
    var c0, c1 := n / 2, n / 2 - 1;
    a[c0, c0] := WHITE;
    a[c1, c1] := WHITE;
    a[c1, c0] := BLACK;
    a[c0, c1] := BLACK;
    OpeningLayout(n);
    SameCells(Snapshot(a), Opening(n));
  }

  /* ---------------------------------------------------------------------------------------------
     do_move
     ------------------------------------------------------------------------------------------- */

  /** Setting one array cell sets the same cell of the board it holds. */
  lemma SnapshotSet(b: Board, b': Board, r: int, c: int, v: int)
    requires Rect(b) && Rect(b') && |b| == |b'| && Width(b) == Width(b') && InBounds(b, r, c)
    requires forall x, y {:trigger b'[x][y]} :: InBounds(b, x, y) ==> b'[x][y] == if x == r && y == c then v else b[x][y]
    ensures b' == Set(b, r, c, v)
  {
    SameCells(b', Set(b, r, c, v));
  }

  /** The cells 1..k steps from (row, col) along d, nearest first: the `path` do_move collects. */
  function RayCells(row: int, col: int, d: Dir, k: nat): (cells: seq<Pos>)
    ensures |cells| == k
  {
    if k == 0 then [] else RayCells(row, col, d, k - 1) + [(Along(row, d.0, k), Along(col, d.1, k))]
  }

  /** Entry j of the path is the cell j + 1 steps from (row, col). */
  lemma {:induction false} RayCellsAt(row: int, col: int, d: Dir, k: nat, j: nat)
    requires j < k
    ensures RayCells(row, col, d, k)[j] == (Along(row, d.0, j + 1), Along(col, d.1, j + 1))
  {
    if j < k - 1 {
      RayCellsAt(row, col, d, k - 1, j);
    }
  }

  /** The flip loop of do_move: set the cells of `path` to `piece`, in order. The path holds the
      cells 1..|path| steps from (row, col) along d, so this sets the run SetRun describes. */
  method FlipPath(a: array2<int>, row: int, col: int, d: Dir, path: seq<Pos>, piece: int)
    requires a.Length0 > 0
    requires path == RayCells(row, col, d, |path|)
    requires RayOnBoard(Snapshot(a), row, col, d, |path|)
    modifies a
    ensures Snapshot(a) == SetRun(old(Snapshot(a)), row, col, d, |path|, piece)
  {
    ghost var B := Snapshot(a);
    var j := 0;
    while j < |path|
      invariant 0 <= j <= |path|
      invariant Snapshot(a) == SetRun(B, row, col, d, j, piece)
    {
      ghost var before := Snapshot(a);
      RayCellsAt(row, col, d, |path|, j);
      var (r, c) := path[j];
      assert InBounds(B, Along(row, d.0, j + 1), Along(col, d.1, j + 1));
      a[r, c] := piece;
      SnapshotSet(before, Snapshot(a), r, c, piece);
      j := j + 1;
    }
  }

  /** The state of the scan loop after `path` has collected |path| cells: they are the first cells
      of the ray, (r, c) is the next cell, and the run of `opp` cells next to (row, col) is the
      path followed by the run from (r, c). */
  ghost predicate Scanned(b: Board, row: int, col: int, d: Dir, opp: int, path: seq<Pos>, r: int, c: int)
  {
    Rect(b) && path == RayCells(row, col, d, |path|) &&
    r == Along(row, d.0, |path| + 1) && c == Along(col, d.1, |path| + 1) &&
    Run(b, row + d.0, col + d.1, d, opp) == |path| + Run(b, r, c, d, opp)
  }

  /** One step of the scan: from a cell of its colour the scan moves on, the path grows by that
      cell, and the run left to scan gets shorter. */
  lemma ScanStep(b: Board, row: int, col: int, d: Dir, opp: int, path: seq<Pos>, r: int, c: int)
    requires Scanned(b, row, col, d, opp, path, r, c) && InBounds(b, r, c) && b[r][c] == opp
    ensures Scanned(b, row, col, d, opp, path + [(r, c)], r + d.0, c + d.1)
    ensures |path| < Run(b, row + d.0, col + d.1, d, opp)
  {
  }

  /** Where the scan stops, the path is the whole run and (r, c) the cell after it. */
  lemma ScanStop(b: Board, row: int, col: int, d: Dir, opp: int, path: seq<Pos>, r: int, c: int)
    requires Scanned(b, row, col, d, opp, path, r, c) && !(InBounds(b, r, c) && b[r][c] == opp)
    ensures |path| == Run(b, row + d.0, col + d.1, d, opp)
    ensures path == RayCells(row, col, d, |path|)
    ensures r == Along(row, d.0, |path| + 1) && c == Along(col, d.1, |path| + 1)
  {
  }

  /** The scan loop's test on the array is the same test on its snapshot. */
  lemma SnapshotCell(a: array2<int>, B: Board, r: int, c: int, v: int)
    requires B == Snapshot(a)
    ensures (0 <= r < a.Length0 && 0 <= c < a.Length1 && a[r, c] == v) <==> (InBounds(B, r, c) && B[r][c] == v)
  {
  }

  /** The scan loop of do_move along d: the cells of opponent colour starting next to (row, col),
      collected into `path`, and the cell (r, c) where the scan stopped. */
  method ScanPath(a: array2<int>, ghost B: Board, row: int, col: int, d: Dir, opponent: int)
    returns (path: seq<Pos>, r: int, c: int)
    requires B == Snapshot(a)
    ensures |path| == Run(B, row + d.0, col + d.1, d, opponent)
    ensures path == RayCells(row, col, d, |path|)
    ensures r == Along(row, d.0, |path| + 1) && c == Along(col, d.1, |path| + 1)
  {
    r, c := row + d.0, col + d.1;
    path := [];
    ghost var n := Run(B, r, c, d, opponent);
    while 0 <= r < a.Length0 && 0 <= c < a.Length1 && a[r, c] == opponent
      invariant Scanned(B, row, col, d, opponent, path, r, c) && |path| <= n
      decreases n - |path|
    {
      SnapshotCell(a, B, r, c, opponent);
      ScanStep(B, row, col, d, opponent, path, r, c);
      path := path + [(r, c)];
      r, c := r + d.0, c + d.1;
    }
    SnapshotCell(a, B, r, c, opponent);
    ScanStop(B, row, col, d, opponent, path, r, c);
  }

  /** Where the scan along d stopped decides the round: when the run of k opponent cells is not
      empty and a `piece` cell on the board closes it, the round turns those k cells, which are all
      on the board; otherwise it changes nothing. */
  lemma ScanDecides(B: Board, row: int, col: int, d: Dir, piece: int, k: nat, r: int, c: int)
    requires Rect(B) && k == Run(B, row + d.0, col + d.1, d, Opponent(piece))
    requires r == Along(row, d.0, k + 1) && c == Along(col, d.1, k + 1)
    ensures k > 0 && InBounds(B, r, c) && B[r][c] == piece ==> RayOnBoard(B, row, col, d, k)
    ensures FlipRay(B, row, col, d, piece) ==
      if k > 0 && InBounds(B, r, c) && B[r][c] == piece then SetRun(B, row, col, d, k, piece) else B
  {
    ScanFacts(B, row, col, d, piece);
  }

  /** One round of do_move's direction loop, in place: scan along d and, when a `piece` cell on the
      board closes the run of opponent cells, turn the run. */
  method FlipDirection(a: array2<int>, row: int, col: int, d: Dir, piece: int)
    requires a.Length0 > 0
    modifies a
    ensures Snapshot(a) == FlipRay(old(Snapshot(a)), row, col, d, piece)
  {
    ghost var B := Snapshot(a);
    var opponent := if piece == WHITE then BLACK else WHITE;
    var path, r, c := ScanPath(a, B, row, col, d, opponent);
    ScanDecides(B, row, col, d, piece, |path|, r, c);
    if |path| > 0 && 0 <= r < a.Length0 && 0 <= c < a.Length1 && a[r, c] == piece {
      FlipPath(a, row, col, d, path, piece);
    }
  }

  /** do_move, in place: put `piece` on (row, col), then flip direction by direction. The array ends
      up holding the board DoMove describes. */
  method DoMoveInPlace(a: array2<int>, row: int, col: int, piece: int)
    requires 0 <= row < a.Length0 && 0 <= col < a.Length1
    modifies a
    ensures Snapshot(a) == DoMove(old(Snapshot(a)), row, col, piece)
  {
    ghost var b := Snapshot(a);
    a[row, col] := piece;
    SnapshotSet(b, Snapshot(a), row, col, piece);
    assert Directions[..0] == [];
    for i := 0 to |Directions|
      invariant Snapshot(a) == AfterRounds(b, row, col, piece, i)
    {
      FlipDirection(a, row, col, Directions[i], piece);
      AfterRoundsStep(b, row, col, piece, i);
    }
    AllRounds(b, row, col, piece);
  }

  /* ---------------------------------------------------------------------------------------------
     move_one_step
     ------------------------------------------------------------------------------------------- */

  /** Where a side's moves come from: given the board and the side's piece, a proposed cell, or
      None for "no move" (the source's `(None, None)`). Stands for the interactive, random and
      computer players alike. */
  type Source = (Board, int) -> Option<Pos>

  /** Every cell the source proposes on a rectangular board is on that board. */
  ghost predicate OnBoard(source: Source)
  {
    forall b, piece :: Rect(b) && source(b, piece).Some? ==> InBounds(b, source(b, piece).value.0, source(b, piece).value.1)
  }

  /** A source that plays by the rules, as all three players of the source do (the interactive one
      asks again until it gets a valid move): it answers None
      exactly when the side has no valid move, and otherwise proposes one of the valid moves. */
  ghost predicate Honest(source: Source)
  {
    forall b, piece :: Rect(b) ==>
      (source(b, piece).None? <==> GetValidMoves(b, piece) == []) &&
      (source(b, piece).Some? ==> source(b, piece).value in GetValidMoves(b, piece))
  }

  /** The answers of move_one_step. */
  datatype Status = Skip | Continue | Wrong

  /** move_one_step's answer to proposal p on board b: SKIP for no move, CONTINUE for a valid move,
      WRONG otherwise. */
  function StepStatus(b: Board, piece: int, p: Option<Pos>): Status
    requires Rect(b) && (p.Some? ==> InBounds(b, p.value.0, p.value.1))
  {
    if p.None? then Skip
    else if IsValidMove(b, p.value.0, p.value.1, piece) then Continue
    else Wrong
  }

  /** The board move_one_step leaves: the move applied on CONTINUE, b itself otherwise. */
  function StepBoard(b: Board, piece: int, p: Option<Pos>): Board
    requires Rect(b) && (p.Some? ==> InBounds(b, p.value.0, p.value.1))
  {
    if StepStatus(b, piece, p) == Continue then DoMove(b, p.value.0, p.value.1, piece) else b
  }

  /** move_one_step: ask the source for a move; SKIP when it has none, apply it and answer CONTINUE
      when it is valid, answer WRONG and leave the board alone when it is not. */
  method MoveOneStep(a: array2<int>, piece: int, source: Source) returns (status: Status)
    requires OnBoard(source)
    modifies a
    ensures var b := old(Snapshot(a)); var p := source(b, piece);
      status == StepStatus(b, piece, p) && Snapshot(a) == StepBoard(b, piece, p)
  {
    var proposal := source(Snapshot(a), piece);
    if proposal.None? {
      return Skip;
    }
    var (row, col) := proposal.value;
    if IsValidMove(Snapshot(a), row, col, piece) {
      DoMoveInPlace(a, row, col, piece);
      status := Continue;
    } else {
      status := Wrong;
    }
  }

  /** A step answers SKIP exactly when there is no proposal and changes the board only on CONTINUE,
      where a BLACK or WHITE move keeps the cell values valid and fills exactly one EMPTY cell. */
  lemma StepEffects(b: Board, piece: int, p: Option<Pos>)
    requires Rect(b) && ValidCells(b) && IsPiece(piece) && (p.Some? ==> InBounds(b, p.value.0, p.value.1))
    ensures StepStatus(b, piece, p) == Skip <==> p.None?
    ensures StepStatus(b, piece, p) != Continue ==> StepBoard(b, piece, p) == b
    ensures var b' := StepBoard(b, piece, p);
      SameShape(b, b') && ValidCells(b') &&
      Count(b', EMPTY) == Count(b, EMPTY) - (if StepStatus(b, piece, p) == Continue then 1 else 0)
  {
    if StepStatus(b, piece, p) == Continue {
      ValidMoveCounts(b, p.value.0, p.value.1, piece);
      DoMoveChanges(b, p.value.0, p.value.1, piece);
    } else {
      assert SameShape(b, b);
    }
  }

  /** With an honest source a step never answers WRONG, and it answers SKIP exactly when the side
      has no valid move on the (square) board. */
  lemma HonestStep(source: Source, b: Board, piece: int)
    requires Rect(b) && Width(b) == |b| && OnBoard(source)
    ensures Honest(source) ==> StepStatus(b, piece, source(b, piece)) != Wrong
    ensures Honest(source) ==> (StepStatus(b, piece, source(b, piece)) == Skip <==> !HasMove(b, piece))
  {
    HasMoveIffMoves(b, piece);
  }

  /** Every honest source proposes cells on the board. */
  lemma HonestOnBoard(source: Source)
    requires Honest(source)
    ensures OnBoard(source)
  {
  }

  /** The computer player as a move source: move_AI on rectangular boards. */
  function AiSource(): (source: Source)
  {
    (b: Board, piece: int) => if Rect(b) then MoveAI(b, piece) else None
  }

  /** The computer player plays by the rules. */
  lemma AiIsHonest()
    ensures Honest(AiSource())
  {
  }
}
