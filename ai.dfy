/** move_AI: the computer player's choice among the valid moves, by tier (corner, then edge, then
    any) and, within the tier, by the number of pieces the move flips. */
module Ai {
  import opened Grid
  import opened Engine
  import opened Enumerate

  /** The move m is one of the four corners of a board with h rows (the source's `corners` list). */
  predicate IsCorner(m: Pos, h: int)
  {
    m in [(0, 0), (0, h - 1), (h - 1, 0), (h - 1, h - 1)]
  }

  /** The move m is a cell of the h-by-h grid in its first or last row or column (the source's
      `edges` list; corners are edges too). */
  predicate IsEdge(m: Pos, h: int)
  {
    0 <= m.0 < h && 0 <= m.1 < h && (m.0 == 0 || m.0 == h - 1 || m.1 == 0 || m.1 == h - 1)
  }

  /** The key move_AI maximises: how many pieces playing m would flip. */
  function Flips(b: Board, piece: int, m: Pos): nat
    requires Rect(b)
  {
    CountFlipped(b, m.0, m.1, piece)
  }

  /** A list comprehension `[m for m in ms if keep(m)]`: the entries of ms that pass, in order. */
  function Filter(ms: seq<Pos>, keep: Pos -> bool): (r: seq<Pos>)
    ensures forall m :: m in r <==> m in ms && keep(m)
    ensures Increasing(ms) ==> Increasing(r)
  {
    if ms == [] then []
    else
      var tail := Filter(ms[1..], keep);
      assert Increasing(ms) ==> forall j :: 0 <= j < |tail| ==> Before(ms[0], tail[j]) by {
        if Increasing(ms) {
          forall j | 0 <= j < |tail|
            ensures Before(ms[0], tail[j])
          {
            assert tail[j] in ms[1..];
          }
        }
      }
      (if keep(ms[0]) then [ms[0]] else []) + tail
  }

  /** Python's `max(ms, key=...)`: scan ms in order, replacing the best so far only by a strictly
      larger key. The index found holds a largest key and every earlier entry has a smaller one. */
  function BestIndex(b: Board, piece: int, ms: seq<Pos>): (i: nat)
    requires Rect(b) && ms != []
    ensures i < |ms|
    ensures forall j :: 0 <= j < |ms| ==> Flips(b, piece, ms[j]) <= Flips(b, piece, ms[i])
    ensures forall j :: 0 <= j < i ==> Flips(b, piece, ms[j]) < Flips(b, piece, ms[i])
  {
    if |ms| == 1 then 0
    else
      var i := BestIndex(b, piece, ms[..|ms| - 1]);
      assert forall j :: 0 <= j < |ms| - 1 ==> ms[..|ms| - 1][j] == ms[j];
      if Flips(b, piece, ms[|ms| - 1]) > Flips(b, piece, ms[i]) then |ms| - 1 else i
  }

  /** The entry of ms that `max` with the flip count as key returns: it flips at least as many
      pieces as any entry, and, when ms is in row-major order, strictly more than any entry that
      comes before it. */
  function MaxByFlips(b: Board, piece: int, ms: seq<Pos>): (m: Pos)
    requires Rect(b) && ms != []
    ensures m in ms
    ensures forall q :: q in ms ==> Flips(b, piece, q) <= Flips(b, piece, m)
    ensures Increasing(ms) ==> forall q :: q in ms && Before(q, m) ==> Flips(b, piece, q) < Flips(b, piece, m)
  {
    var i := BestIndex(b, piece, ms);
    assert forall q :: q in ms ==> Flips(b, piece, q) <= Flips(b, piece, ms[i]) by {
      forall q | q in ms
        ensures Flips(b, piece, q) <= Flips(b, piece, ms[i])
      {
        var j :| 0 <= j < |ms| && ms[j] == q;
      }
    }
    assert Increasing(ms) ==> forall q :: q in ms && Before(q, ms[i]) ==> Flips(b, piece, q) < Flips(b, piece, ms[i]) by {
      if Increasing(ms) {
        forall q | q in ms && Before(q, ms[i])
          ensures Flips(b, piece, q) < Flips(b, piece, ms[i])
        {
          var j :| 0 <= j < |ms| && ms[j] == q;
          IncreasingIndex(ms, j, i);
        }
      }
    }
    ms[i]
  }

  /** The list move_AI maximises over, built from the valid moves as the source builds it: the
      valid corners if there are any, else the valid edge cells if there are any, else all of them. */
  function TierMoves(b: Board, piece: int): (t: seq<Pos>)
    requires Rect(b)
    ensures Increasing(t)
    ensures forall q :: q in t ==> q in GetValidMoves(b, piece)
    ensures t == [] <==> GetValidMoves(b, piece) == []
  {
    var valid := GetValidMoves(b, piece);
    var h := |b|;
    var corners := Filter(valid, m => IsCorner(m, h));
    if corners != [] then corners
    else
      var edges := Filter(valid, m => IsEdge(m, h));
      if edges != [] then edges else valid
  }

  /** move_AI: no move when there is no valid move; otherwise the move of its tier that flips most,
      ties going to the first in the list. */
  function MoveAI(b: Board, piece: int): (m: Option<Pos>)
    requires Rect(b)
    ensures m.None? <==> GetValidMoves(b, piece) == []
    ensures m.Some? ==> m.value in GetValidMoves(b, piece)
  {
    if GetValidMoves(b, piece) == [] then None
    else Some(MaxByFlips(b, piece, TierMoves(b, piece)))
  }

  /** The cell (q.0, q.1) is on the board and a valid move for `piece`. */
  predicate ValidAt(b: Board, piece: int, q: Pos)
    requires Rect(b)
  {
    InBounds(b, q.0, q.1) && IsValidMove(b, q.0, q.1, piece)
  }

  /** Some valid move is a corner. */
  ghost predicate CornerAvailable(b: Board, piece: int)
    requires Rect(b)
  {
    exists c :: ValidAt(b, piece, c) && IsCorner(c, |b|)
  }

  /** Some valid move is an edge cell. */
  ghost predicate EdgeAvailable(b: Board, piece: int)
    requires Rect(b)
  {
    exists e :: ValidAt(b, piece, e) && IsEdge(e, |b|)
  }

  /** Reference definition of the tier move_AI picks from: a valid move that is a corner if any
      valid corner exists, else an edge cell if any valid edge cell exists, else any valid move. */
  ghost predicate InTier(b: Board, piece: int, q: Pos)
    requires Rect(b)
  {
    ValidAt(b, piece, q) &&
    if CornerAvailable(b, piece) then IsCorner(q, |b|)
    else if EdgeAvailable(b, piece) then IsEdge(q, |b|)
    else true
  }

  /** The valid moves that pass a test are empty exactly when no valid move passes it. */
  lemma FilterValid(b: Board, piece: int, keep: Pos -> bool)
    requires Rect(b)
    ensures Filter(GetValidMoves(b, piece), keep) == [] <==> forall q :: ValidAt(b, piece, q) ==> !keep(q)
  {
    var f := Filter(GetValidMoves(b, piece), keep);
    if f != [] {
      assert f[0] in f;
    }
  }

  /** The list move_AI maximises over holds exactly the moves of the tier. */
  lemma TierMovesAreTier(b: Board, piece: int)
    requires Rect(b)
    ensures forall q :: q in TierMoves(b, piece) <==> InTier(b, piece, q)
  {
    var h := |b|;
    FilterValid(b, piece, m => IsCorner(m, h));
    FilterValid(b, piece, m => IsEdge(m, h));
  }

  /** What move_AI returns: nothing exactly when no cell is a valid move; otherwise a move of its
      tier that flips at least as many pieces as any move of the tier and strictly more than every
      move of the tier before it in row-major order (the first maximum `max` keeps). */
  lemma MoveAIChoice(b: Board, piece: int)
    requires Rect(b)
    ensures MoveAI(b, piece).None? <==> forall q :: !ValidAt(b, piece, q)
    ensures MoveAI(b, piece).Some? ==>
      var m := MoveAI(b, piece).value;
      InTier(b, piece, m) &&
      (forall q :: InTier(b, piece, q) ==> Flips(b, piece, q) <= Flips(b, piece, m)) &&
      (forall q :: InTier(b, piece, q) && Before(q, m) ==> Flips(b, piece, q) < Flips(b, piece, m))
  {
    var valid := GetValidMoves(b, piece);
    if valid != [] {
      assert valid[0] in valid;
    }
    TierMovesAreTier(b, piece);
  }
}
