/** game: the loop that alternates the two sides on the shared board until one pass ends the game,
    and the tally it reports. */
module GameLoop {
  import opened Grid
  import opened Engine
  import opened Enumerate
  import opened Play

  /** The game's two sides, by turn: player 1 plays BLACK and player 2 WHITE. */
  const Sides: seq<int> := [BLACK, WHITE]

  datatype Outcome = BlackWins | WhiteWins | Draw

  /** The end of a game: the final board, the two tallies, the outcome and the side that was to
      move when the game stopped. */
  datatype Final = Final(board: Board, black: nat, white: nat, outcome: Outcome, toMove: int)

  /** The game's verdict: the side with strictly more pieces wins, equal counts are a draw. */
  function Winner(black: int, white: int): (o: Outcome)
    ensures o == BlackWins <==> black > white
    ensures o == WhiteWins <==> white > black
    ensures o == Draw <==> black == white
  {
    if black > white then BlackWins else if white > black then WhiteWins else Draw
  }

  /** The tally the game prints at the end. */
  function Tally(b: Board, toMove: int): Final
  {
    var black, white := Count(b, BLACK), Count(b, WHITE);
    Final(b, black, white, Winner(black, white), toMove)
  }

  /** What a finished game reports about an n-by-n board of valid cells. */
  ghost predicate Reported(f: Final, n: nat)
  {
    Rect(f.board) && |f.board| == n && Width(f.board) == n && ValidCells(f.board) && IsPiece(f.toMove) &&
    f.black == Count(f.board, BLACK) && f.white == Count(f.board, WHITE) &&
    f.black + f.white + Count(f.board, EMPTY) == n * n && f.outcome == Winner(f.black, f.white)
  }

  /** The tally of an n-by-n board of valid cells reports its counts, which cover the n * n cells. */
  lemma TallyReported(b: Board, n: nat, toMove: int)
    requires Rect(b) && |b| == n && Width(b) == n && ValidCells(b) && IsPiece(toMove)
    ensures Reported(Tally(b, toMove), n)
  {
    CountTotal(b);
  }

  /** The state one pass of the game loop leaves: the board, whether the game is over, and whose
      turn it is (0 for BLACK, 1 for WHITE). */
  datatype RoundResult = RoundResult(board: Board, over: bool, next: nat)

  /** One pass of the game loop's body on board b with side `turn` to move. The side steps; on
      WRONG nothing changes and the pass ends; on SKIP the other side steps at once, and a second
      SKIP ends the game with the turn unchanged; otherwise the turn passes, and the game is over
      when the side now to move has no valid move. */
  function RoundSpec(b: Board, turn: nat, source: Source): RoundResult
    requires Rect(b) && turn < 2 && OnBoard(source)
  {
    var piece, other := Sides[turn], Sides[1 - turn];
    var status := StepStatus(b, piece, source(b, piece));
    var b1 := StepBoard(b, piece, source(b, piece));
    if status == Wrong then RoundResult(b, false, turn)
    else if status == Skip && StepStatus(b1, other, source(b1, other)) == Skip then RoundResult(b1, true, turn)
    else
      var b2 := if status == Skip then StepBoard(b1, other, source(b1, other)) else b1;
      RoundResult(b2, !HasMove(b2, other), 1 - turn)
  }

  /** A pass keeps the board n by n with valid cells. With an honest source, a pass that ends the
      game leaves the side to move without a valid move, and any other pass fills at least one
      EMPTY cell, so the game cannot go on for more passes than there are EMPTY cells. */
  lemma RoundProgress(b: Board, turn: nat, source: Source)
    requires Rect(b) && Width(b) == |b| && ValidCells(b) && turn < 2 && OnBoard(source)
    ensures var r := RoundSpec(b, turn, source);
      r.next < 2 && Rect(r.board) && |r.board| == |b| && Width(r.board) == |b| && ValidCells(r.board)
    ensures var r := RoundSpec(b, turn, source);
      Honest(source) ==> if r.over then !HasMove(r.board, Sides[r.next]) else Count(r.board, EMPTY) < Count(b, EMPTY)
  {
    var piece, other := Sides[turn], Sides[1 - turn];
    HonestStep(source, b, piece);
    StepEffects(b, piece, source(b, piece));
    var b1 := StepBoard(b, piece, source(b, piece));
    HonestStep(source, b1, other);
    StepEffects(b1, other, source(b1, other));
  }

  /** The game loop's body, on the shared board. */
  method PlayRound(a: array2<int>, turn: nat, source: Source) returns (over: bool, next: nat)
    requires turn < 2 && OnBoard(source)
    modifies a
    ensures var r := RoundSpec(old(Snapshot(a)), turn, source);
      Snapshot(a) == r.board && over == r.over && next == r.next
  {
    var status := MoveOneStep(a, Sides[turn], source);
    if status == Skip {
      var second := MoveOneStep(a, Sides[1 - turn], source);
      if second == Skip {
        return true, turn;
      }
    } else if status == Wrong {
      return false, turn;
    }
    next := 1 - turn;
    over := !HasMove(Snapshot(a), Sides[next]);
  }

  /** The game loop as a function of the board, the side to move and the passes left: run passes
      until one ends the game and report the tally of the board it leaves, with the side then to
      move; None when the passes run out first. */
  function GameSpec(b: Board, turn: nat, source: Source, fuel: nat): Option<Final>
    requires Rect(b) && Width(b) == |b| && ValidCells(b) && turn < 2 && OnBoard(source)
    decreases fuel
  {
    if fuel == 0 then None
    else
      var r := RoundSpec(b, turn, source);
      RoundProgress(b, turn, source);
      if r.over then Some(Tally(r.board, Sides[r.next]))
      else GameSpec(r.board, r.next, source, fuel - 1)
  }

  /** The game from the opening position on an n-by-n board, BLACK to move, with `fuel` passes. */
  function GameFrom(n: nat, source: Source, fuel: nat): Option<Final>
    requires n >= 2 && OnBoard(source)
  {
    OpeningLayout(n);
    GameSpec(Opening(n), 0, source, fuel)
  }

  /** One pass of GameSpec: a pass that ends the game gives the tally, any other pass hands the
      board it leaves to the remaining passes. */
  lemma GameSpecStep(b: Board, turn: nat, source: Source, fuel: nat)
    requires Rect(b) && Width(b) == |b| && ValidCells(b) && turn < 2 && OnBoard(source) && fuel > 0
    ensures var r := RoundSpec(b, turn, source);
      Rect(r.board) && Width(r.board) == |r.board| && ValidCells(r.board) && r.next < 2 &&
      GameSpec(b, turn, source, fuel) ==
        if r.over then Some(Tally(r.board, Sides[r.next])) else GameSpec(r.board, r.next, source, fuel - 1)
  {
    RoundProgress(b, turn, source);
  }

  /** What the game reports: the tally of an n-by-n board of valid cells. With an honest source the
      side to move at the end has no valid move. */
  lemma {:induction false} GameSpecReported(b: Board, turn: nat, source: Source, fuel: nat)
    requires Rect(b) && Width(b) == |b| && ValidCells(b) && turn < 2 && OnBoard(source)
    ensures var g := GameSpec(b, turn, source, fuel);
      g.Some? ==> Reported(g.value, |b|) && (Honest(source) ==> !HasMove(g.value.board, g.value.toMove))
    decreases fuel
  {
    if fuel > 0 {
      var r := RoundSpec(b, turn, source);
      GameSpecStep(b, turn, source, fuel);
      RoundProgress(b, turn, source);
      if r.over {
        TallyReported(r.board, |b|, Sides[r.next]);
      } else {
        GameSpecReported(r.board, r.next, source, fuel - 1);
      }
    }
  }

  /** Every pass of the game loop that does not end the game fills at least one EMPTY cell. */
  ghost predicate Fills(source: Source)
    requires OnBoard(source)
  {
    forall b, turn: nat | Rect(b) && Width(b) == |b| && ValidCells(b) && turn < 2 ::
      !RoundSpec(b, turn, source).over ==> Count(RoundSpec(b, turn, source).board, EMPTY) < Count(b, EMPTY)
  }

  /** With an honest source every pass that does not end the game fills a cell. */
  lemma HonestFills(source: Source)
    requires OnBoard(source) && Honest(source)
    ensures Fills(source)
  {
    forall b, turn: nat | Rect(b) && Width(b) == |b| && ValidCells(b) && turn < 2
      ensures !RoundSpec(b, turn, source).over ==> Count(RoundSpec(b, turn, source).board, EMPTY) < Count(b, EMPTY)
    {
      RoundProgress(b, turn, source);
    }
  }

  /** When every pass that goes on fills a cell, more passes than there are EMPTY cells always end
      the game. */
  lemma {:induction false} GameSpecEnds(b: Board, turn: nat, source: Source, fuel: nat)
    requires Rect(b) && Width(b) == |b| && ValidCells(b) && turn < 2 && OnBoard(source)
    requires Fills(source) && fuel > Count(b, EMPTY)
    ensures GameSpec(b, turn, source, fuel).Some?
    decreases fuel
  {
    var r := RoundSpec(b, turn, source);
    var b', next' := r.board, r.next;
    assert Rect(b') && Width(b') == |b'| && ValidCells(b') && next' < 2 &&
      (!r.over ==> Count(b', EMPTY) < Count(b, EMPTY)) &&
      (r.over ==> GameSpec(b, turn, source, fuel).Some?) &&
      (!r.over ==> GameSpec(b, turn, source, fuel) == GameSpec(b', next', source, fuel - 1)) by {
      GameSpecStep(b, turn, source, fuel);
    }
    if !r.over {
      GameSpecEnds(b', next', source, fuel - 1);
    }
  }

  /** What the game from the opening reports: the tally of an n-by-n board of valid cells; with an
      honest source the side to move at the end has no valid move, and more passes than the
      opening's n * n - 4 EMPTY cells always end the game. */
  lemma GameFromFacts(n: nat, source: Source, fuel: nat)
    requires n >= 2 && OnBoard(source)
    ensures var g := GameFrom(n, source, fuel);
      g.Some? ==> Reported(g.value, n) && (Honest(source) ==> !HasMove(g.value.board, g.value.toMove))
    ensures Honest(source) && fuel > n * n - 4 ==> GameFrom(n, source, fuel).Some?
  {
    OpeningLayout(n);
    OpeningCounts(n);
    GameSpecReported(Opening(n), 0, source, fuel);
    if Honest(source) && fuel > n * n - 4 {
      HonestFills(source);
      GameSpecEnds(Opening(n), 0, source, fuel);
    }
  }

  /** game: from the opening position on an n-by-n board, BLACK first, run passes of the loop body
      until one ends the game, then tally. The source may keep proposing wrong moves forever, so the
      loop is cut off after maxRounds passes, with None as the result; with an honest source more
      passes than the opening's EMPTY cells always suffice. */
  method Game(n: nat, source: Source, maxRounds: nat) returns (result: Option<Final>)
    requires n >= 2 && OnBoard(source)
    ensures result == GameFrom(n, source, maxRounds)
    ensures result.Some? ==> Reported(result.value, n)
    ensures Honest(source) && result.Some? ==> !HasMove(result.value.board, result.value.toMove)
    ensures Honest(source) && maxRounds > n * n - 4 ==> result.Some?
  {
    var a := InitBoard(n);
    OpeningLayout(n);
    var turn: nat := 0;
    var rounds := 0;
    ghost var b := Opening(n);
    ghost var goal := GameFrom(n, source, maxRounds);
    result := None;
    while rounds < maxRounds
      invariant turn < 2 && rounds <= maxRounds
      invariant a.Length0 == n && a.Length1 == n && Snapshot(a) == b
      invariant Rect(b) && |b| == n && Width(b) == n && ValidCells(b)
      invariant GameSpec(b, turn, source, maxRounds - rounds) == goal
      decreases maxRounds - rounds
    {
      ghost var fuel := maxRounds - rounds;
      ghost var r := RoundSpec(b, turn, source);
      assert Rect(r.board) && |r.board| == n && Width(r.board) == n && ValidCells(r.board) && r.next < 2 &&
        (r.over ==> GameSpec(b, turn, source, fuel) == Some(Tally(r.board, Sides[r.next]))) &&
        (!r.over ==> GameSpec(b, turn, source, fuel) == GameSpec(r.board, r.next, source, fuel - 1)) by {
        GameSpecStep(b, turn, source, fuel);
      }
      var over;
      over, turn := PlayRound(a, turn, source);
      b := r.board;
      rounds := rounds + 1;
      assert over == r.over && turn == r.next && maxRounds - rounds == fuel - 1;
      if over {
        result := Some(Tally(Snapshot(a), Sides[turn]));
        break;
      }
    }
    GameFromFacts(n, source, maxRounds);
  }
}
