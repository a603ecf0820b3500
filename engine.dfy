/** Move legality and flipping: the three ray scans of the source (legality, flip count, move
    application) and the facts that tie them together. */
module Engine {
  import opened Grid

  /** A direction: one unit step in row and column, not standing still. */
  type Dir = d: (int, int) | -1 <= d.0 <= 1 && -1 <= d.1 <= 1 && d != (0, 0) witness (0, 1)

  /** The eight directions, in the source's order: NW, N, NE, W, E, SW, S, SE. */
  const Directions: seq<Dir> := [(-1, -1), (-1, 0), (-1, 1), (0, -1), (0, 1), (1, -1), (1, 0), (1, 1)]

  /** The table holds each of the eight unit steps exactly once. */
  lemma DirectionsAreTheUnitSteps()
    ensures forall d: Dir :: d in Directions
    ensures forall i, j :: 0 <= i < j < |Directions| ==> Directions[i] != Directions[j]
  {
  }

  /** The coordinate x after j steps of dx, that is x + j * dx for a step dx in {-1, 0, 1}
      (written without the product so that the arithmetic stays linear). */
  function Along(x: int, dx: int, j: int): int
  {
    if dx == 0 then x else if dx > 0 then x + j else x - j
  }

  /** How many more steps along d stay on the board from (r, c): a termination measure for the scans. */
  function Reach(b: Board, r: int, c: int, d: Dir): nat
  {
    var k := if d.0 > 0 then |b| - r else if d.0 < 0 then r + 1 else if d.1 > 0 then Width(b) - c else c + 1;
    if k < 0 then 0 else k
  }

  /* ---------------------------------------------------------------------------------------------
     The scan shared by is_valid_move, count_flipped_pieces and do_move
     ------------------------------------------------------------------------------------------- */

  /** The length of the run of `opp` cells that starts at (r, c) and continues along d: the number of
      times the scan loop of the source steps before it leaves the board or meets another value. */
  function Run(b: Board, r: int, c: int, d: Dir, opp: int): nat
    requires Rect(b)
    decreases Reach(b, r, c, d)
  {
    if InBounds(b, r, c) && b[r][c] == opp then 1 + Run(b, r + d.0, c + d.1, d, opp) else 0
  }

  /** The run's cells are on the board and hold `opp`; the cell after it is off the board or holds
      something else. */
  lemma {:induction false} RunFacts(b: Board, r: int, c: int, d: Dir, opp: int)
    requires Rect(b)
    ensures var k := Run(b, r, c, d, opp);
      (forall j :: 0 <= j < k ==>
        InBounds(b, Along(r, d.0, j), Along(c, d.1, j)) && b[Along(r, d.0, j)][Along(c, d.1, j)] == opp) &&
      !(InBounds(b, Along(r, d.0, k), Along(c, d.1, k)) && b[Along(r, d.0, k)][Along(c, d.1, k)] == opp)
    decreases Reach(b, r, c, d)
  {
    if InBounds(b, r, c) && b[r][c] == opp {
      var r1, c1 := r + d.0, c + d.1;
      RunFacts(b, r1, c1, d, opp);
      forall j | 1 <= j
        ensures Along(r, d.0, j) == Along(r1, d.0, j - 1) && Along(c, d.1, j) == Along(c1, d.1, j - 1)
      {
      }
    }
  }

  /** How many opponent cells a `piece` placed at (row, col) encloses along d: the run of opponent
      cells next to (row, col) if a cell holding `piece` closes it on the board, and 0 otherwise
      (a run that reaches the border or an EMPTY cell encloses nothing). */
  function Enclosed(b: Board, row: int, col: int, d: Dir, piece: int): nat
    requires Rect(b)
  {
    var k := Run(b, row + d.0, col + d.1, d, Opponent(piece));
    var r, c := Along(row, d.0, k + 1), Along(col, d.1, k + 1);
    if k > 0 && InBounds(b, r, c) && b[r][c] == piece then k else 0
  }

  /** Reference definition: cells 1..k from (row, col) along d are on the board and hold the
      opponent of `piece`, and cell k + 1 is on the board and holds `piece`. */
  ghost predicate Brackets(b: Board, row: int, col: int, d: Dir, piece: int, k: int)
    requires Rect(b)
  {
    k >= 1 &&
    (forall j :: 1 <= j <= k ==>
      InBounds(b, Along(row, d.0, j), Along(col, d.1, j)) && b[Along(row, d.0, j)][Along(col, d.1, j)] == Opponent(piece)) &&
    InBounds(b, Along(row, d.0, k + 1), Along(col, d.1, k + 1)) &&
    b[Along(row, d.0, k + 1)][Along(col, d.1, k + 1)] == piece
  }

  /** The cells the scan steps over from (row, col): cells 1..n along d, n the run length, hold
      the opponent, and cell n + 1 does not (or is off the board). */
  lemma ScanFacts(b: Board, row: int, col: int, d: Dir, piece: int)
    requires Rect(b)
    ensures var n := Run(b, row + d.0, col + d.1, d, Opponent(piece));
      (forall j :: 1 <= j <= n ==>
        InBounds(b, Along(row, d.0, j), Along(col, d.1, j)) && b[Along(row, d.0, j)][Along(col, d.1, j)] == Opponent(piece)) &&
      !(InBounds(b, Along(row, d.0, n + 1), Along(col, d.1, n + 1)) && b[Along(row, d.0, n + 1)][Along(col, d.1, n + 1)] == Opponent(piece))
  {
    var opp := Opponent(piece);
    var r0, c0 := row + d.0, col + d.1;
    var n := Run(b, r0, c0, d, opp);
    RunFacts(b, r0, c0, d, opp);
    forall j | 1 <= j <= n
      ensures InBounds(b, Along(row, d.0, j), Along(col, d.1, j)) && b[Along(row, d.0, j)][Along(col, d.1, j)] == opp
    {
      assert Along(r0, d.0, j - 1) == Along(row, d.0, j) && Along(c0, d.1, j - 1) == Along(col, d.1, j);
    }
    assert Along(r0, d.0, n) == Along(row, d.0, n + 1) && Along(c0, d.1, n) == Along(col, d.1, n + 1);
  }

  /** The scan finds an enclosed run exactly when some k brackets one, and then it finds that k
      (which is unique). */
  lemma EnclosedIsBracketed(b: Board, row: int, col: int, d: Dir, piece: int)
    requires Rect(b)
    ensures Enclosed(b, row, col, d, piece) > 0 ==> Brackets(b, row, col, d, piece, Enclosed(b, row, col, d, piece))
    ensures forall k :: Brackets(b, row, col, d, piece, k) ==> Enclosed(b, row, col, d, piece) == k
  {
    ScanFacts(b, row, col, d, piece);
    forall k | Brackets(b, row, col, d, piece, k)
      ensures Enclosed(b, row, col, d, piece) == k
    {
      BracketIsRun(b, row, col, d, piece, k);
    }
  }

  /** A bracketed run is the whole run the scan finds. */
  lemma BracketIsRun(b: Board, row: int, col: int, d: Dir, piece: int, k: int)
    requires Rect(b) && Brackets(b, row, col, d, piece, k)
    ensures Enclosed(b, row, col, d, piece) == k
  {
    var n := Run(b, row + d.0, col + d.1, d, Opponent(piece));
    ScanFacts(b, row, col, d, piece);
    if n < k {
      // cell n + 1 holds the opponent by the bracket, yet the run stops before it
      assert false;
    } else if n > k {
      // cell k + 1 holds piece by the bracket, yet the run says it holds the opponent
      assert false;
    }
  }

  /* ---------------------------------------------------------------------------------------------
     is_valid_move and count_flipped_pieces
     ------------------------------------------------------------------------------------------- */

  /** The direction loop of is_valid_move: true as soon as one direction of ds encloses a run. */
  function ValidInDirs(b: Board, row: int, col: int, piece: int, ds: seq<Dir>): bool
    requires Rect(b)
  {
    if ds == [] then false
    else Enclosed(b, row, col, ds[0], piece) > 0 || ValidInDirs(b, row, col, piece, ds[1..])
  }

  lemma {:induction false} ValidInDirsExists(b: Board, row: int, col: int, piece: int, ds: seq<Dir>)
    requires Rect(b)
    ensures ValidInDirs(b, row, col, piece, ds) <==> exists i :: 0 <= i < |ds| && Enclosed(b, row, col, ds[i], piece) > 0
  {
    if ds != [] {
      ValidInDirsExists(b, row, col, piece, ds[1..]);
      if ValidInDirs(b, row, col, piece, ds[1..]) {
        var i :| 0 <= i < |ds[1..]| && Enclosed(b, row, col, ds[1..][i], piece) > 0;
        assert ds[i + 1] == ds[1..][i];
      }
      if exists i :: 0 <= i < |ds| && Enclosed(b, row, col, ds[i], piece) > 0 {
        var i :| 0 <= i < |ds| && Enclosed(b, row, col, ds[i], piece) > 0;
        if i > 0 {
          assert ds[1..][i - 1] == ds[i];
        }
      }
    }
  }

  /** is_valid_move: the target cell is EMPTY and some direction encloses a run of opponent cells. */
  function IsValidMove(b: Board, row: int, col: int, piece: int): bool
    requires Rect(b) && InBounds(b, row, col)
  {
    b[row][col] == EMPTY && ValidInDirs(b, row, col, piece, Directions)
  }

  /** The sum, over the directions of ds, of the cells each encloses. */
  function FlipsInDirs(b: Board, row: int, col: int, piece: int, ds: seq<Dir>): nat
    requires Rect(b)
  {
    if ds == [] then 0
    else FlipsInDirs(b, row, col, piece, ds[..|ds| - 1]) + Enclosed(b, row, col, ds[|ds| - 1], piece)
  }

  lemma {:induction false} FlipsInDirsPositive(b: Board, row: int, col: int, piece: int, ds: seq<Dir>)
    requires Rect(b)
    ensures FlipsInDirs(b, row, col, piece, ds) > 0 <==> exists i :: 0 <= i < |ds| && Enclosed(b, row, col, ds[i], piece) > 0
  {
    if ds != [] {
      var p := ds[..|ds| - 1];
      FlipsInDirsPositive(b, row, col, piece, p);
      assert forall i :: 0 <= i < |p| ==> p[i] == ds[i];
    }
  }

  /** count_flipped_pieces: how many opponent cells a `piece` placed at (row, col) would turn. */
  function CountFlipped(b: Board, row: int, col: int, piece: int): nat
    requires Rect(b)
  {
    FlipsInDirs(b, row, col, piece, Directions)
  }

  /** A move is valid exactly when the target is EMPTY and some direction has a run of one or more
      opponent cells closed by a cell holding `piece`. */
  lemma ValidMoveIsBracketing(b: Board, row: int, col: int, piece: int)
    requires Rect(b) && InBounds(b, row, col)
    ensures IsValidMove(b, row, col, piece) <==>
      b[row][col] == EMPTY && exists i, k :: 0 <= i < |Directions| && Brackets(b, row, col, Directions[i], piece, k)
  {
    ValidInDirsExists(b, row, col, piece, Directions);
    forall i | 0 <= i < |Directions|
      ensures Enclosed(b, row, col, Directions[i], piece) > 0 <==> exists k :: Brackets(b, row, col, Directions[i], piece, k)
    {
      EnclosedIsBracketed(b, row, col, Directions[i], piece);
    }
  }

  /** A move is valid exactly when the target is EMPTY and the move would flip at least one piece. */
  lemma ValidMoveFlips(b: Board, row: int, col: int, piece: int)
    requires Rect(b) && InBounds(b, row, col)
    ensures IsValidMove(b, row, col, piece) <==> b[row][col] == EMPTY && CountFlipped(b, row, col, piece) >= 1
  {
    ValidInDirsExists(b, row, col, piece, Directions);
    FlipsInDirsPositive(b, row, col, piece, Directions);
  }

  /* ---------------------------------------------------------------------------------------------
     do_move
     ------------------------------------------------------------------------------------------- */

  /** The cells 1..k steps from (row, col) along d are all on the board. */
  predicate RayOnBoard(b: Board, row: int, col: int, d: Dir, k: nat)
  {
    forall j :: 1 <= j <= k ==> InBounds(b, Along(row, d.0, j), Along(col, d.1, j))
  }

  /** `b` with the cells 1..k steps from (row, col) along d set to v, one after the other, as the
      source's `for pr, pc in path` loop sets them. */
  function SetRun(b: Board, row: int, col: int, d: Dir, k: nat, v: int): (b': Board)
    requires Rect(b) && RayOnBoard(b, row, col, d, k)
    ensures Rect(b') && |b'| == |b| && Width(b') == Width(b)
    decreases k
  {
    if k == 0 then b else Set(SetRun(b, row, col, d, k - 1, v), Along(row, d.0, k), Along(col, d.1, k), v)
  }

  /** One round of do_move's direction loop: flip the run that d encloses on the current board. */
  function FlipRay(b: Board, row: int, col: int, d: Dir, piece: int): (b': Board)
    requires Rect(b)
    ensures Rect(b') && |b'| == |b| && Width(b') == Width(b)
  {
    ScanFacts(b, row, col, d, piece);
    SetRun(b, row, col, d, Enclosed(b, row, col, d, piece), piece)
  }

  /** The rounds of do_move's direction loop for the directions of ds, in order, each on the board
      the previous rounds left. */
  function FlipDirs(b: Board, row: int, col: int, piece: int, ds: seq<Dir>): (b': Board)
    requires Rect(b)
    ensures Rect(b') && |b'| == |b| && Width(b') == Width(b)
  {
    if ds == [] then b else FlipRay(FlipDirs(b, row, col, piece, ds[..|ds| - 1]), row, col, ds[|ds| - 1], piece)
  }

  /** do_move: put `piece` on (row, col), then flip, direction by direction, the runs it encloses. */
  function DoMove(b: Board, row: int, col: int, piece: int): (b': Board)
    requires Rect(b) && InBounds(b, row, col)
    ensures Rect(b') && |b'| == |b| && Width(b') == Width(b)
  {
    FlipDirs(Set(b, row, col, piece), row, col, piece, Directions)
  }

  /** Reference definition of the cells a move turns: (x, y) lies on a run of opponent cells that
      `piece` at (row, col) brackets in one of the eight directions. */
  ghost predicate Turned(b: Board, row: int, col: int, piece: int, x: int, y: int)
    requires Rect(b)
  {
    exists m, k, j :: 0 <= m < |Directions| && Brackets(b, row, col, Directions[m], piece, k) && 1 <= j <= k &&
      x == Along(row, Directions[m].0, j) && y == Along(col, Directions[m].1, j)
  }

  /** (x, y) is one of the cells 1..k steps from (row, col) along d. */
  ghost predicate OnRay(row: int, col: int, d: Dir, k: int, x: int, y: int)
  {
    exists j :: 1 <= j <= k && x == Along(row, d.0, j) && y == Along(col, d.1, j)
  }

  /** The cells the first i rounds of the direction loop turn, each round's run measured on b:
      (x, y) lies on the run that one of the first i directions encloses. */
  ghost predicate TurnedBy(b: Board, row: int, col: int, piece: int, i: nat, x: int, y: int)
    requires Rect(b) && i <= |Directions|
  {
    exists m :: 0 <= m < i && OnRay(row, col, Directions[m], Enclosed(b, row, col, Directions[m], piece), x, y)
  }

  /** Different steps along one direction reach different cells. */
  lemma RayInjective(r: int, c: int, d: Dir, j: int, j': int)
    requires j != j'
    ensures (Along(r, d.0, j), Along(c, d.1, j)) != (Along(r, d.0, j'), Along(c, d.1, j'))
  {
  }

  /** Rays from one cell in two different directions share no cell but their origin. */
  lemma RaysDisjoint(r: int, c: int, d: Dir, d': Dir, j: int, j': int)
    requires d != d' && j >= 1 && j' >= 1
    ensures (Along(r, d.0, j), Along(c, d.1, j)) != (Along(r, d'.0, j'), Along(c, d'.1, j'))
  {
  }

  /** Setting a run sets exactly its cells. */
  lemma {:induction false} SetRunCells(b: Board, row: int, col: int, d: Dir, k: nat, v: int)
    requires Rect(b) && RayOnBoard(b, row, col, d, k)
    ensures forall x, y {:trigger SetRun(b, row, col, d, k, v)[x][y]} :: InBounds(b, x, y) ==>
      SetRun(b, row, col, d, k, v)[x][y] == (if OnRay(row, col, d, k, x, y) then v else b[x][y])
  {
    if k > 0 {
      SetRunCells(b, row, col, d, k - 1, v);
      forall x, y | InBounds(b, x, y)
        ensures OnRay(row, col, d, k, x, y) <==> OnRay(row, col, d, k - 1, x, y) || (x == Along(row, d.0, k) && y == Along(col, d.1, k))
      {
        if OnRay(row, col, d, k, x, y) {
          var j :| 1 <= j <= k && x == Along(row, d.0, j) && y == Along(col, d.1, j);
          if j < k {
            assert OnRay(row, col, d, k - 1, x, y);
          }
        }
      }
    }
  }

  /** One round of the direction loop sets exactly the cells of the run it encloses. */
  lemma FlipRayCells(b: Board, row: int, col: int, d: Dir, piece: int)
    requires Rect(b)
    ensures forall x, y {:trigger FlipRay(b, row, col, d, piece)[x][y]} :: InBounds(b, x, y) ==>
      FlipRay(b, row, col, d, piece)[x][y] == (if OnRay(row, col, d, Enclosed(b, row, col, d, piece), x, y) then piece else b[x][y])
  {
    ScanFacts(b, row, col, d, piece);
    SetRunCells(b, row, col, d, Enclosed(b, row, col, d, piece), piece);
  }

  /** Setting a run of k cells that all hold u to v != u moves k cells from the count of u to that
      of v, and adds k cells to the difference from a board `ref` that holds u there too. */
  lemma {:induction false} SetRunCounts(ref: Board, b: Board, row: int, col: int, d: Dir, k: nat, u: int, v: int)
    requires Rect(b) && SameShape(ref, b) && RayOnBoard(b, row, col, d, k) && u != v
    requires forall j :: 1 <= j <= k ==>
      b[Along(row, d.0, j)][Along(col, d.1, j)] == u && ref[Along(row, d.0, j)][Along(col, d.1, j)] == u
    ensures forall w :: Count(SetRun(b, row, col, d, k, v), w) == Count(b, w) + (if w == v then k else 0) - (if w == u then k else 0)
    ensures SameShape(ref, SetRun(b, row, col, d, k, v))
    ensures Diff(ref, SetRun(b, row, col, d, k, v)) == Diff(ref, b) + k
  {
    if k > 0 {
      var b' := SetRun(b, row, col, d, k - 1, v);
      var x, y := Along(row, d.0, k), Along(col, d.1, k);
      SetRunCounts(ref, b, row, col, d, k - 1, u, v);
      SetRunCells(b, row, col, d, k - 1, v);
      forall j | 1 <= j < k
        ensures (x, y) != (Along(row, d.0, j), Along(col, d.1, j))
      {
        RayInjective(row, col, d, k, j);
      }
      assert b'[x][y] == u;
      forall w
        ensures Count(SetRun(b, row, col, d, k, v), w) == Count(b, w) + (if w == v then k else 0) - (if w == u then k else 0)
      {
        CountSet(b', x, y, v, w);
      }
      DiffSet(ref, b', x, y, v);
    }
  }

  /** Two boards that agree on every cell of a ray have the same run along it. */
  lemma RunAgrees(b: Board, b': Board, r: int, c: int, d: Dir, opp: int)
    requires Rect(b) && Rect(b') && |b'| == |b| && Width(b') == Width(b)
    requires forall j :: 0 <= j && InBounds(b, Along(r, d.0, j), Along(c, d.1, j)) ==>
      b'[Along(r, d.0, j)][Along(c, d.1, j)] == b[Along(r, d.0, j)][Along(c, d.1, j)]
    ensures Run(b', r, c, d, opp) == Run(b, r, c, d, opp)
  {
    var n, n' := Run(b, r, c, d, opp), Run(b', r, c, d, opp);
    RunFacts(b, r, c, d, opp);
    RunFacts(b', r, c, d, opp);
    if n' < n {
      assert false;
    } else if n < n' {
      assert false;
    }
  }

  /** Two boards that agree on every cell of the ray from (row, col) along d (the origin itself
      excepted) enclose the same run there. */
  lemma EnclosedAgrees(b: Board, b': Board, row: int, col: int, d: Dir, piece: int)
    requires Rect(b) && Rect(b') && |b'| == |b| && Width(b') == Width(b)
    requires forall j :: 1 <= j && InBounds(b, Along(row, d.0, j), Along(col, d.1, j)) ==>
      b'[Along(row, d.0, j)][Along(col, d.1, j)] == b[Along(row, d.0, j)][Along(col, d.1, j)]
    ensures Enclosed(b', row, col, d, piece) == Enclosed(b, row, col, d, piece)
  {
    var r0, c0 := row + d.0, col + d.1;
    forall j | 0 <= j && InBounds(b, Along(r0, d.0, j), Along(c0, d.1, j))
      ensures b'[Along(r0, d.0, j)][Along(c0, d.1, j)] == b[Along(r0, d.0, j)][Along(c0, d.1, j)]
    {
      assert Along(r0, d.0, j) == Along(row, d.0, j + 1) && Along(c0, d.1, j) == Along(col, d.1, j + 1);
    }
    RunAgrees(b, b', row + d.0, col + d.1, d, Opponent(piece));
    var k := Run(b, row + d.0, col + d.1, d, Opponent(piece));
    assert k + 1 >= 1;
  }

  /** A cell of a ray from (row, col) other than (row, col) lies on no run of another direction. */
  lemma OffOtherRays(row: int, col: int, d: Dir, e: Dir, k: int, j: int)
    requires d != e && j >= 1
    ensures !OnRay(row, col, e, k, Along(row, d.0, j), Along(col, d.1, j))
  {
    if OnRay(row, col, e, k, Along(row, d.0, j), Along(col, d.1, j)) {
      var j' :| 1 <= j' <= k && Along(row, d.0, j) == Along(row, e.0, j') && Along(col, d.1, j) == Along(col, e.1, j');
      RaysDisjoint(row, col, d, e, j, j');
      assert false;
    }
  }

  /** The cells of the ray of direction i (the origin excepted) are not turned by the first i rounds. */
  lemma NotTurnedAhead(b: Board, row: int, col: int, piece: int, i: nat, j: int)
    requires Rect(b) && i < |Directions| && j >= 1
    ensures !TurnedBy(b, row, col, piece, i, Along(row, Directions[i].0, j), Along(col, Directions[i].1, j))
  {
    DirectionsAreTheUnitSteps();
    forall m | 0 <= m < i
      ensures !OnRay(row, col, Directions[m], Enclosed(b, row, col, Directions[m], piece),
                     Along(row, Directions[i].0, j), Along(col, Directions[i].1, j))
    {
      OffOtherRays(row, col, Directions[i], Directions[m], Enclosed(b, row, col, Directions[m], piece), j);
    }
  }

  /** After the first i rounds (any board B0 that matches b outside (row, col) and TurnedBy(i)),
      the ray of the next direction is still as it is on b, so the next round finds b's run. */
  lemma NextRoundAgrees(b: Board, B0: Board, row: int, col: int, piece: int, i: nat)
    requires Rect(b) && Rect(B0) && |B0| == |b| && Width(B0) == Width(b) && i < |Directions|
    requires forall x, y {:trigger B0[x][y]} :: InBounds(b, x, y) ==>
      B0[x][y] == (if (x == row && y == col) || TurnedBy(b, row, col, piece, i, x, y) then piece else b[x][y])
    ensures Enclosed(B0, row, col, Directions[i], piece) == Enclosed(b, row, col, Directions[i], piece)
    ensures forall j :: 1 <= j && InBounds(b, Along(row, Directions[i].0, j), Along(col, Directions[i].1, j)) ==>
      B0[Along(row, Directions[i].0, j)][Along(col, Directions[i].1, j)] == b[Along(row, Directions[i].0, j)][Along(col, Directions[i].1, j)]
  {
    var d := Directions[i];
    forall j | 1 <= j && InBounds(b, Along(row, d.0, j), Along(col, d.1, j))
      ensures B0[Along(row, d.0, j)][Along(col, d.1, j)] == b[Along(row, d.0, j)][Along(col, d.1, j)]
    {
      RayInjective(row, col, d, j, 0);
      NotTurnedAhead(b, row, col, piece, i, j);
    }
    EnclosedAgrees(b, B0, row, col, d, piece);
  }

  /** The cells the first i rounds turn are those the first i - 1 rounds turn and the run of
      round i - 1. */
  lemma TurnedByNext(b: Board, row: int, col: int, piece: int, i: nat, x: int, y: int)
    requires Rect(b) && 0 < i <= |Directions|
    ensures TurnedBy(b, row, col, piece, i, x, y) <==>
      TurnedBy(b, row, col, piece, i - 1, x, y) ||
      OnRay(row, col, Directions[i - 1], Enclosed(b, row, col, Directions[i - 1], piece), x, y)
  {
    if TurnedBy(b, row, col, piece, i, x, y) {
      var m :| 0 <= m < i && OnRay(row, col, Directions[m], Enclosed(b, row, col, Directions[m], piece), x, y);
      if m < i - 1 {
        assert TurnedBy(b, row, col, piece, i - 1, x, y);
      }
    }
  }

  /** The board after the first i rounds of do_move's direction loop, `piece` already on (row, col). */
  function AfterRounds(b: Board, row: int, col: int, piece: int, i: nat): (B: Board)
    requires Rect(b) && InBounds(b, row, col) && i <= |Directions|
    ensures Rect(B) && |B| == |b| && Width(B) == Width(b)
  {
    FlipDirs(Set(b, row, col, piece), row, col, piece, Directions[..i])
  }

  /** Round i of the direction loop works on the board the first i rounds left. */
  lemma AfterRoundsStep(b: Board, row: int, col: int, piece: int, i: nat)
    requires Rect(b) && InBounds(b, row, col) && i < |Directions|
    ensures AfterRounds(b, row, col, piece, i + 1) == FlipRay(AfterRounds(b, row, col, piece, i), row, col, Directions[i], piece)
    ensures FlipsInDirs(b, row, col, piece, Directions[..i + 1]) ==
      FlipsInDirs(b, row, col, piece, Directions[..i]) + Enclosed(b, row, col, Directions[i], piece)
  {
    assert Directions[..i + 1][..i] == Directions[..i];
  }

  /** B holds `piece` on (row, col) and on the cells the first i rounds turn, and b's value elsewhere. */
  ghost predicate TurnedAfter(b: Board, B: Board, row: int, col: int, piece: int, i: nat)
    requires Rect(b) && i <= |Directions|
  {
    |B| == |b| && (forall x :: 0 <= x < |b| ==> |B[x]| == Width(b)) &&
    forall x, y {:trigger B[x][y]} :: InBounds(b, x, y) ==>
      B[x][y] == (if (x == row && y == col) || TurnedBy(b, row, col, piece, i, x, y) then piece else b[x][y])
  }

  /** One round on a board B0 that the first i rounds turned as TurnedAfter says leaves a board
      the first i + 1 rounds turned. */
  lemma RoundCells(b: Board, B0: Board, row: int, col: int, piece: int, i: nat)
    requires Rect(b) && Rect(B0) && i < |Directions| && TurnedAfter(b, B0, row, col, piece, i)
    ensures TurnedAfter(b, FlipRay(B0, row, col, Directions[i], piece), row, col, piece, i + 1)
  {
    var d := Directions[i];
    var B := FlipRay(B0, row, col, d, piece);
    NextRoundAgrees(b, B0, row, col, piece, i);
    var k := Enclosed(b, row, col, d, piece);
    FlipRayCells(B0, row, col, d, piece);
    forall x, y | InBounds(b, x, y)
      ensures B[x][y] == (if (x == row && y == col) || TurnedBy(b, row, col, piece, i + 1, x, y) then piece else b[x][y])
    {
      TurnedByNext(b, row, col, piece, i + 1, x, y);
    }
  }

  /** The first i rounds of do_move's direction loop, started from b with `piece` already on
      (row, col), turn exactly the cells TurnedBy(i): each round finds the run it would find on b
      itself, since rays from one cell do not meet. */
  lemma {:induction false} FlipDirsCells(b: Board, row: int, col: int, piece: int, i: nat)
    requires Rect(b) && InBounds(b, row, col) && i <= |Directions|
    ensures TurnedAfter(b, AfterRounds(b, row, col, piece, i), row, col, piece, i)
  {
    if i == 0 {
      assert Directions[..0] == [];
      forall x, y | InBounds(b, x, y)
        ensures !TurnedBy(b, row, col, piece, 0, x, y)
      {
      }
    } else {
      FlipDirsCells(b, row, col, piece, i - 1);
      AfterRoundsStep(b, row, col, piece, i - 1);
      RoundCells(b, AfterRounds(b, row, col, piece, i - 1), row, col, piece, i - 1);
    }
  }

  /** The run a direction encloses on b holds the opponent on b and on any board B0 that agrees
      with b along that ray. */
  lemma EnclosedRunCells(b: Board, B0: Board, row: int, col: int, d: Dir, piece: int)
    requires Rect(b) && Rect(B0) && |B0| == |b| && Width(B0) == Width(b)
    requires forall j :: 1 <= j && InBounds(b, Along(row, d.0, j), Along(col, d.1, j)) ==>
      B0[Along(row, d.0, j)][Along(col, d.1, j)] == b[Along(row, d.0, j)][Along(col, d.1, j)]
    ensures RayOnBoard(b, row, col, d, Enclosed(b, row, col, d, piece))
    ensures forall j :: 1 <= j <= Enclosed(b, row, col, d, piece) ==>
      B0[Along(row, d.0, j)][Along(col, d.1, j)] == Opponent(piece) && b[Along(row, d.0, j)][Along(col, d.1, j)] == Opponent(piece)
  {
    EnclosedIsBracketed(b, row, col, d, piece);
  }

  /** One round on a board B0 that agrees with b along the round's ray moves the run that b
      encloses there from the opponent's count to the mover's, and adds that many cells to the
      difference from b. */
  lemma RoundCounts(b: Board, B0: Board, row: int, col: int, piece: int, d: Dir)
    requires Rect(b) && Rect(B0) && |B0| == |b| && Width(B0) == Width(b)
    requires forall j :: 1 <= j && InBounds(b, Along(row, d.0, j), Along(col, d.1, j)) ==>
      B0[Along(row, d.0, j)][Along(col, d.1, j)] == b[Along(row, d.0, j)][Along(col, d.1, j)]
    ensures SameShape(b, B0) && SameShape(b, FlipRay(B0, row, col, d, piece))
    ensures forall w ::
      Count(FlipRay(B0, row, col, d, piece), w) ==
        Count(B0, w) + (if w == piece then Enclosed(b, row, col, d, piece) else 0) - (if w == Opponent(piece) then Enclosed(b, row, col, d, piece) else 0)
    ensures Diff(b, FlipRay(B0, row, col, d, piece)) == Diff(b, B0) + Enclosed(b, row, col, d, piece)
  {
    EnclosedAgrees(b, B0, row, col, d, piece);
    EnclosedRunCells(b, B0, row, col, d, piece);
    FlipRayCounts(b, B0, row, col, d, piece, Enclosed(b, row, col, d, piece));
  }

  /** A round that encloses a run of k opponent cells on B0, cells that hold the opponent on b too,
      moves k cells from the opponent's count to the mover's and adds k to the difference from b. */
  lemma FlipRayCounts(b: Board, B0: Board, row: int, col: int, d: Dir, piece: int, k: nat)
    requires Rect(b) && Rect(B0) && |B0| == |b| && Width(B0) == Width(b)
    requires Enclosed(B0, row, col, d, piece) == k && RayOnBoard(b, row, col, d, k)
    requires forall j :: 1 <= j <= k ==>
      B0[Along(row, d.0, j)][Along(col, d.1, j)] == Opponent(piece) && b[Along(row, d.0, j)][Along(col, d.1, j)] == Opponent(piece)
    ensures SameShape(b, B0) && SameShape(b, FlipRay(B0, row, col, d, piece))
    ensures forall w ::
      Count(FlipRay(B0, row, col, d, piece), w) == Count(B0, w) + (if w == piece then k else 0) - (if w == Opponent(piece) then k else 0)
    ensures Diff(b, FlipRay(B0, row, col, d, piece)) == Diff(b, B0) + k
  {
    SetRunCounts(b, B0, row, col, d, k, Opponent(piece), piece);
  }

  /** The first i rounds move FlipsInDirs(b, .., Directions[..i]) cells from the opponent's count to
      the mover's, and each of those cells is one more that differs from b. */
  lemma {:induction false} FlipDirsCounts(b: Board, row: int, col: int, piece: int, i: nat)
    requires Rect(b) && InBounds(b, row, col) && i <= |Directions|
    ensures var b1, B := Set(b, row, col, piece), AfterRounds(b, row, col, piece, i);
      var s := FlipsInDirs(b, row, col, piece, Directions[..i]);
      SameShape(b, b1) && SameShape(b, B) &&
      (forall w :: Count(B, w) == Count(b1, w) + (if w == piece then s else 0) - (if w == Opponent(piece) then s else 0)) &&
      Diff(b, B) == Diff(b, b1) + s
  {
    if i == 0 {
      assert Directions[..0] == [];
    } else {
      FlipDirsCounts(b, row, col, piece, i - 1);
      FlipDirsCells(b, row, col, piece, i - 1);
      AfterRoundsStep(b, row, col, piece, i - 1);
      NextRoundAgrees(b, AfterRounds(b, row, col, piece, i - 1), row, col, piece, i - 1);
      RoundCounts(b, AfterRounds(b, row, col, piece, i - 1), row, col, piece, Directions[i - 1]);
    }
  }

  /* ---------------------------------------------------------------------------------------------
     What do_move does, stated against the reference definitions
     ------------------------------------------------------------------------------------------- */

  /** A cell that k bracketed cells along d include lies on the run the scan along d finds. */
  lemma BracketedOnRun(b: Board, row: int, col: int, d: Dir, piece: int, k: int, j: int)
    requires Rect(b) && Brackets(b, row, col, d, piece, k) && 1 <= j <= k
    ensures OnRay(row, col, d, Enclosed(b, row, col, d, piece), Along(row, d.0, j), Along(col, d.1, j))
  {
    BracketIsRun(b, row, col, d, piece, k);
  }

  /** A cell on the run the scan along Directions[m] finds is a bracketed cell. */
  lemma RunIsTurned(b: Board, row: int, col: int, piece: int, m: int, x: int, y: int)
    requires Rect(b) && 0 <= m < |Directions|
    requires OnRay(row, col, Directions[m], Enclosed(b, row, col, Directions[m], piece), x, y)
    ensures Turned(b, row, col, piece, x, y)
  {
    var d := Directions[m];
    var k := Enclosed(b, row, col, d, piece);
    var j :| 1 <= j <= k && x == Along(row, d.0, j) && y == Along(col, d.1, j);
    EnclosedIsBracketed(b, row, col, d, piece);
  }

  /** The cells the eight rounds turn are exactly the bracketed cells of the reference definition. */
  lemma TurnedIsTurnedBy(b: Board, row: int, col: int, piece: int, x: int, y: int)
    requires Rect(b)
    ensures Turned(b, row, col, piece, x, y) <==> TurnedBy(b, row, col, piece, |Directions|, x, y)
  {
    if Turned(b, row, col, piece, x, y) {
      var m, k, j :| 0 <= m < |Directions| && Brackets(b, row, col, Directions[m], piece, k) && 1 <= j <= k &&
        x == Along(row, Directions[m].0, j) && y == Along(col, Directions[m].1, j);
      BracketedOnRun(b, row, col, Directions[m], piece, k, j);
    }
    if TurnedBy(b, row, col, piece, |Directions|, x, y) {
      var m :| 0 <= m < |Directions| && OnRay(row, col, Directions[m], Enclosed(b, row, col, Directions[m], piece), x, y);
      RunIsTurned(b, row, col, piece, m, x, y);
    }
  }

  /** All eight rounds make up do_move. */
  lemma AllRounds(b: Board, row: int, col: int, piece: int)
    requires Rect(b) && InBounds(b, row, col)
    ensures AfterRounds(b, row, col, piece, |Directions|) == DoMove(b, row, col, piece)
    ensures FlipsInDirs(b, row, col, piece, Directions[..|Directions|]) == CountFlipped(b, row, col, piece)
  {
    assert Directions[..|Directions|] == Directions;
  }

  /** do_move puts `piece` on (row, col) and on every cell the move brackets, and leaves every
      other cell as it was. */
  lemma DoMoveCells(b: Board, row: int, col: int, piece: int)
    requires Rect(b) && InBounds(b, row, col)
    ensures forall x, y {:trigger DoMove(b, row, col, piece)[x][y]} :: InBounds(b, x, y) ==>
      DoMove(b, row, col, piece)[x][y] == (if (x == row && y == col) || Turned(b, row, col, piece, x, y) then piece else b[x][y])
  {
    FlipDirsCells(b, row, col, piece, |Directions|);
    AllRounds(b, row, col, piece);
    forall x, y | InBounds(b, x, y)
      ensures DoMove(b, row, col, piece)[x][y] == (if (x == row && y == col) || Turned(b, row, col, piece, x, y) then piece else b[x][y])
    {
      TurnedIsTurnedBy(b, row, col, piece, x, y);
    }
  }

  /** do_move changes the counts as count_flipped_pieces predicts: the origin moves from the count
      of its old value to that of `piece`, and CountFlipped cells move from the opponent's count to
      the mover's. */
  lemma DoMoveCounts(b: Board, row: int, col: int, piece: int, w: int)
    requires Rect(b) && InBounds(b, row, col)
    ensures Count(DoMove(b, row, col, piece), w) ==
      Count(b, w) - (if b[row][col] == w then 1 else 0) + (if w == piece then 1 + CountFlipped(b, row, col, piece) else 0)
        - (if w == Opponent(piece) then CountFlipped(b, row, col, piece) else 0)
  {
    FlipDirsCounts(b, row, col, piece, |Directions|);
    AllRounds(b, row, col, piece);
    CountSet(b, row, col, piece, w);
  }

  /** The cells do_move changes are the CountFlipped cells it turns, and the origin when it did not
      already hold `piece`. */
  lemma DoMoveChanges(b: Board, row: int, col: int, piece: int)
    requires Rect(b) && InBounds(b, row, col)
    ensures SameShape(b, DoMove(b, row, col, piece))
    ensures Diff(b, DoMove(b, row, col, piece)) == CountFlipped(b, row, col, piece) + (if b[row][col] != piece then 1 else 0)
  {
    FlipDirsCounts(b, row, col, piece, |Directions|);
    AllRounds(b, row, col, piece);
    DiffSelf(b);
    DiffSet(b, b, row, col, piece);
  }

  /** A valid move by BLACK or WHITE adds the new piece and the flipped ones to the mover, takes the
      flipped ones from the opponent, and fills one EMPTY cell; the board keeps its cell values. */
  lemma ValidMoveCounts(b: Board, row: int, col: int, piece: int)
    requires Rect(b) && ValidCells(b) && InBounds(b, row, col) && IsPiece(piece) && IsValidMove(b, row, col, piece)
    ensures ValidCells(DoMove(b, row, col, piece))
    ensures var k := CountFlipped(b, row, col, piece);
      var b' := DoMove(b, row, col, piece);
      k >= 1 &&
      Count(b', piece) == Count(b, piece) + k + 1 &&
      Count(b', Opponent(piece)) == Count(b, Opponent(piece)) - k &&
      Count(b', EMPTY) == Count(b, EMPTY) - 1
  {
    ValidMoveFlips(b, row, col, piece);
    DoMoveCounts(b, row, col, piece, piece);
    DoMoveCounts(b, row, col, piece, Opponent(piece));
    DoMoveCounts(b, row, col, piece, EMPTY);
    DoMoveCells(b, row, col, piece);
    var b' := DoMove(b, row, col, piece);
    forall i, j | 0 <= i < |b'| && 0 <= j < |b'[i]|
      ensures b'[i][j] in {BLACK, WHITE, EMPTY}
    {
      assert InBounds(b, i, j);
    }
  }
}
