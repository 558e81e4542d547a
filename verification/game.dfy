/** The game session: `createInitialGameState` and `playMove`, which add turn
    order, scores, the extra-turn rule and end-of-game detection to the move
    engine. */
module Game {
  import opened Js
  import opened Grid
  import opened Board

  /** `null` while the game runs, `'draw'`, or the winning player index. */
  datatype Winner = Undecided | Draw | Won(player: int)

  /** A session. The source spreads the board fields into the state object;
      here the board is one field. */
  datatype GameState = GameState(
    board: Board,
    currentPlayer: int,
    scores: seq<int>,
    moves: seq<Move>,
    isFinished: bool,
    winner: Winner)

  /** What `playMove` needs of a state to index its grids and scores. */
  predicate Playable(s: GameState) {
    && WellFormed(s.board)
    && (s.currentPlayer == 0 || s.currentPlayer == 1)
    && |s.scores| == 2
  }

  /** The number of boxes a board has. */
  function TotalBoxes(b: Board): int {
    b.sizeX * b.sizeY
  }

  /** The winner of a finished game with these scores. */
  function Outcome(scores: seq<int>): (w: Winner)
    requires |scores| == 2
    ensures w == Draw <==> scores[0] == scores[1]
    ensures w == Won(0) <==> scores[0] > scores[1]
    ensures w == Won(1) <==> scores[1] > scores[0]
  {
    if scores[0] == scores[1] then Draw
    else if scores[0] > scores[1] then Won(0) else Won(1)
  }

  function CreateInitialGameState(sizeX: nat, sizeY: nat): (s: GameState)
    ensures Consistent(s)
    ensures s.board == CreateEmptyBoard(sizeX, sizeY)
    ensures s.currentPlayer == 0 && s.moves == [] && !s.isFinished
  {
    EmptyBoardInvariant(sizeX, sizeY);
    OwnedCountNone(CreateEmptyBoard(sizeX, sizeY).boxes);
    GameState(CreateEmptyBoard(sizeX, sizeY), 0, [0, 0], [], false, Undecided)
  }

  /** A grid with no owned cell counts zero. */
  lemma {:induction false} OwnedCountNone(g: seq<seq<int>>)
    requires AllUnclaimed(g)
    ensures OwnedCount(g) == 0
    decreases |g|
  {
    if g != [] {
      assert forall j :: 0 <= j < |g[0]| ==> g[0][j] == Unclaimed;
      RowOwnedNone(g[0]);
      assert AllUnclaimed(g[1..]) by {
        forall i, j | 0 <= i < |g[1..]| && 0 <= j < |g[1..][i]|
          ensures g[1..][i][j] == Unclaimed
        {
          assert g[1..][i] == g[i + 1];
        }
      }
      OwnedCountNone(g[1..]);
    }
  }

  lemma {:induction false} RowOwnedNone(row: seq<int>)
    requires forall j :: 0 <= j < |row| ==> row[j] == Unclaimed
    ensures RowOwned(row) == 0
    decreases |row|
  {
    if row != [] {
      assert forall j :: 0 <= j < |row[1..]| ==> row[1..][j] == row[j + 1];
      RowOwnedNone(row[1..]);
    }
  }

  /** The click `dir, x, y` on a running game draws a line nobody owns yet. */
  predicate DrawsNewLine(s: GameState, dir: Value, x: int, y: int)
    requires Playable(s)
    requires !s.isFinished ==> Addressable(s.board.sizeX, s.board.sizeY, dir, x, y)
  {
    && !s.isFinished
    && NormalizeDirection(dir).Ok?
    && LineAt(s.board, NormalizeDirection(dir).value, x, y) == Unclaimed
  }

  /** `playMove`. A finished game or an owned line leaves the state as it is;
      an unknown direction throws (from `isLineClaimed`). Otherwise the
      current player's move is recorded and applied with `applyMove`; what
      that does to scores, turn and the end of the game is stated by
      `PlayMoveScores` and `PlayMoveEnds`. */
  function PlayMove(s: GameState, dir: Value, x: int, y: int): (r: Result<GameState>)
    requires Playable(s)
    requires !s.isFinished ==> Addressable(s.board.sizeX, s.board.sizeY, dir, x, y)
    ensures s.isFinished ==> r == Ok(s)
    ensures !s.isFinished ==> (r.Err? <==> NormalizeDirection(dir).Err?)
    ensures r.Err? ==> r.error == UnknownDirection(dir)
    ensures r.Ok? ==> Playable(r.value)
    ensures r.Ok? ==> r.value.board.sizeX == s.board.sizeX && r.value.board.sizeY == s.board.sizeY
    ensures r.Ok? && !s.isFinished ==>
              LineAt(s.board, NormalizeDirection(dir).value, x, y) != Unclaimed ==> r.value == s
    ensures DrawsNewLine(s, dir, x, y) ==>
              var p := s.currentPlayer;
              && r.Ok?
              && r.value.moves == s.moves + [Move(p, x, y, dir)]
              && r.value.board == ApplyMove(s.board, Move(p, x, y, dir)).value.board
              && LineAt(r.value.board, NormalizeDirection(dir).value, x, y) == p
  {
    if s.isFinished then Ok(s)
    else
      var claimed :- IsLineClaimed(s.board, dir, x, y);
      if claimed then Ok(s)
      else
        var move := Move(s.currentPlayer, x, y, dir);
        // `isLineClaimed` has accepted the direction, so `applyMove` cannot throw.
        var applied := ApplyMove(s.board, move).value;
        var gained := |applied.completedBoxes|;
        LinesAfterDraws(s.board, applied.board, NormalizeDirection(dir).value, x, y, s.currentPlayer);
        var scores := if gained > 0 then s.scores[s.currentPlayer := s.scores[s.currentPlayer] + gained] else s.scores;
        var finished := OwnedCount(applied.board.boxes) == TotalBoxes(applied.board);
        Ok(GameState(
          applied.board,
          if gained > 0 then s.currentPlayer else 1 - s.currentPlayer,
          scores,
          s.moves + [move],
          finished,
          if finished then Outcome(scores) else Undecided))
  }

  /** A move that draws a new line completes at most two boxes; the mover
      scores exactly the boxes it completed and the other player nothing;
      the mover plays again exactly when a box was completed, otherwise the
      turn passes to the other player. */
  lemma PlayMoveScores(s: GameState, dir: Value, x: int, y: int)
    requires Playable(s)
    requires !s.isFinished ==> Addressable(s.board.sizeX, s.board.sizeY, dir, x, y)
    requires DrawsNewLine(s, dir, x, y)
    ensures var p := s.currentPlayer;
      var t := PlayMove(s, dir, x, y).value;
      var gained := OwnedCount(t.board.boxes) - OwnedCount(s.board.boxes);
      && 0 <= gained <= 2
      && t.scores[p] == s.scores[p] + gained
      && t.scores[1 - p] == s.scores[1 - p]
      && (t.currentPlayer == p <==> gained > 0)
      && (t.currentPlayer != p ==> t.currentPlayer == 1 - p)
  {
  }

  /** A move that draws a new line ends the game exactly when every box is
      then owned, and the winner is decided exactly then, by the scores. */
  lemma PlayMoveEnds(s: GameState, dir: Value, x: int, y: int)
    requires Playable(s)
    requires !s.isFinished ==> Addressable(s.board.sizeX, s.board.sizeY, dir, x, y)
    requires DrawsNewLine(s, dir, x, y)
    ensures var t := PlayMove(s, dir, x, y).value;
      && (t.isFinished <==> OwnedCount(t.board.boxes) == TotalBoxes(t.board))
      && (t.isFinished ==> t.winner == Outcome(t.scores))
      && (!t.isFinished ==> t.winner == Undecided)
  {
  }

  /** The session invariant of every state reachable from
      `createInitialGameState`: the board invariant holds, the scores add up
      to the owned boxes, the game has ended only when every box is owned,
      and the winner is decided exactly then. */
  predicate Consistent(s: GameState) {
    && Playable(s)
    && OwnershipInvariant(s.board)
    && s.scores[0] >= 0 && s.scores[1] >= 0
    && s.scores[0] + s.scores[1] == OwnedCount(s.board.boxes)
    && (s.isFinished ==> OwnedCount(s.board.boxes) == TotalBoxes(s.board))
    && (|s.moves| > 0 ==> (s.isFinished <==> OwnedCount(s.board.boxes) == TotalBoxes(s.board)))
    && s.winner == (if s.isFinished then Outcome(s.scores) else Undecided)
  }

  /** `playMove` keeps the session invariant. */
  lemma PlayMovePreservesConsistency(s: GameState, dir: Value, x: int, y: int)
    requires Consistent(s)
    requires !s.isFinished ==> Addressable(s.board.sizeX, s.board.sizeY, dir, x, y)
    requires PlayMove(s, dir, x, y).Ok?
    ensures Consistent(PlayMove(s, dir, x, y).value)
  {
    if !s.isFinished && !IsLineClaimed(s.board, dir, x, y).value {
      ApplyMovePreservesInvariant(s.board, Move(s.currentPlayer, x, y, dir));
      PlayMoveScores(s, dir, x, y);
      PlayMoveEnds(s, dir, x, y);
    }
  }

  /** A sequence of clicks, each a direction and the line's coordinates. */
  datatype Click = Click(dir: Value, x: int, y: int)

  /** Every click addresses a line of a `sizeX` x `sizeY` board. */
  predicate ClicksInRange(sizeX: int, sizeY: int, clicks: seq<Click>) {
    forall k :: 0 <= k < |clicks| ==> Addressable(sizeX, sizeY, clicks[k].dir, clicks[k].x, clicks[k].y)
  }

  /** Feeding the clicks to `playMove` one after another, as the board view does. */
  function PlayAll(s: GameState, clicks: seq<Click>): (r: Result<GameState>)
    requires Playable(s)
    requires ClicksInRange(s.board.sizeX, s.board.sizeY, clicks)
    ensures r.Ok? ==> r.value.board.sizeX == s.board.sizeX && r.value.board.sizeY == s.board.sizeY
    decreases |clicks|
  {
    if clicks == [] then Ok(s)
    else
      var next :- PlayMove(s, clicks[0].dir, clicks[0].x, clicks[0].y);
      PlayAll(next, clicks[1..])
  }

  /** Every state reachable from a new game is consistent: in particular
      the two scores add up to the number of owned boxes and the winner is
      the higher scorer (or a draw) once every box is owned. */
  lemma {:induction false} ReachableStatesConsistent(s: GameState, clicks: seq<Click>)
    requires Consistent(s)
    requires ClicksInRange(s.board.sizeX, s.board.sizeY, clicks)
    requires PlayAll(s, clicks).Ok?
    ensures Consistent(PlayAll(s, clicks).value)
    ensures PlayAll(s, clicks).value.scores[0] + PlayAll(s, clicks).value.scores[1]
            == OwnedCount(PlayAll(s, clicks).value.board.boxes)
    decreases |clicks|
  {
    if clicks != [] {
      var c := clicks[0];
      PlayMovePreservesConsistency(s, c.dir, c.x, c.y);
      var next := PlayMove(s, c.dir, c.x, c.y).value;
      assert ClicksInRange(next.board.sizeX, next.board.sizeY, clicks[1..]) by {
        forall k | 0 <= k < |clicks[1..]|
          ensures Addressable(next.board.sizeX, next.board.sizeY, clicks[1..][k].dir, clicks[1..][k].x, clicks[1..][k].y)
        {
          assert clicks[1..][k] == clicks[k + 1];
        }
      }
      ReachableStatesConsistent(next, clicks[1..]);
    }
  }

  /** A consistent session is finished exactly when every box is owned,
      once a move has been played. */
  lemma FinishedIffAllBoxesOwned(s: GameState)
    requires Consistent(s) && |s.moves| > 0
    ensures s.isFinished <==> AllOwned(s.board.boxes)
  {
    OwnedCountFull(s.board.boxes, s.board.sizeY, s.board.sizeX);
    assert TotalBoxes(s.board) == s.board.sizeY * s.board.sizeX;
  }
}
