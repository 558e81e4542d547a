# Dots and Boxes: board, game session and replay decoder

This project is a Dafny model of the game logic of a Dots and Boxes app.

- **Board and move engine.** A board of `sizeX` x `sizeY` boxes holds three integer grids:
  - `horizontal[y][x]`, with (sizeY+1) rows of sizeX;
  - `vertical[x][y]`, with (sizeX+1) columns of sizeY;
  - `boxes[y][x]`, with sizeY rows of sizeX.

  In every grid, `-1` means "unclaimed". `applyMove` draws one line for a player and awards that player every adjacent box the line completes.
- **Game session.** `playMove` adds turn order, the two scores, the extra-turn rule and end-of-game and winner detection.
- **Replay decoder.** `parseReplay` decodes a comma-separated transcript `sizeX,sizeY,(player,x,y,dir)*`. It runs its structural checks in a fixed order, each with its own error. It then folds `applyMove` over the moves, giving the empty board plus one frame per move.

Modules:

| module | file | contents |
|---|---|---|
| `Js` | `js.dfy` | The dynamically typed values the code inspects: `Num`, `Str` and `Other`. The thrown errors as a `Result`, and `Option`. |
| `Grid` | `grid.dfy` | `seq<seq<int>>` grids with the `-1` sentinel. The count of owned cells (the `reduce`/`filter` in `playMove`) and how a one-cell update changes it. |
| `Board` | `board.dfy` | `createEmptyBoard`, `normalizeDirection`, `isLineClaimed`, `getAdjacentBoxes`, `isBoxCompleted` and `applyMove`. Also the ownership invariant: a box is owned iff its four sides are. |
| `Game` | `game.dfy` | `createInitialGameState`, `playMove`, and the session invariant that every reachable state keeps. |
| `Text` | `text.dfy` | `split(',')`, `trim()`, `Number.parseInt(s, 10)` and the decimal rendering of integers, all over ASCII. |
| `Replay` | `replay.dfy` | `parseReplay`: tokens, values, the structural checks, move grouping and the frame fold. Also a transcript writer used to prove that decoding inverts it. |

Design choices:

- **Dynamic direction.** A move's `dir` is a dynamic JavaScript value, modelled as `Value = Num(n) | Str(s) | Other`. `normalizeDirection` accepts exactly `0`, `'0'`, `'h'` and `'H'` for horizontal, and `1`, `'1'`, `'v'` and `'V'` for vertical. Anything else throws "Unknown direction". The thrown error is `Err(UnknownDirection(dir))`.
- **Grid bounds.** Out-of-range grid reads are not modelled. JavaScript would read `undefined`, which counts as a claimed line, or would throw a `TypeError`. Instead every grid access has a precondition that the line lies on the board:
  - a horizontal line needs `0 <= y <= sizeY` and `0 <= x < sizeX`;
  - a vertical line needs `0 <= x <= sizeX` and `0 <= y < sizeY`.

  `Board.Addressable` and `Replay.MovesInRange` state this. `MovesInRange` covers the moves of a replay only up to the first move with an unknown direction. That move throws, so later moves are never read.
- **Repeated claims.** The replay decoder has no rule-violation record. A move on a line that is already owned returns its input board unchanged (gameUtils.js lines 46-47 and 51-52), so its frame repeats the previous one. The replay is not truncated, no forfeit winner is produced, and later moves are still applied. The model follows the code here. The replay viewer reads a `violation` field of the parsed replay (ReplayViewer.jsx lines 46, 117 and 143), but `parseReplay` never produces one. `Replay.RepeatedClaimRepeatsFrame` proves the general case.
- **Worked example.** `Replay.RepeatedClaimExample` is about any input that decodes to a 1 x 1 board with two moves: player 0 draws the top line, then player 1 draws the same line. It replays without error into three frames, and the last two frames are equal. `Replay.DecodeEncode` shows that the written transcript `Str(Encode(1, 1, RepeatedClaimMoves()))` decodes to exactly that. That transcript is `1,1,0,0,0,0,1,0,0,0`, but no lemma evaluates the literal.

## Model

| member | source | states |
|---|---|---|
| `Board.CreateEmptyBoard` | dots-and-boxes/src/logic/gameUtils.js:1-18 | The board has the given sizes, `horizontal` is (sizeY+1) x sizeX, `vertical` is (sizeX+1) x sizeY and `boxes` is sizeY x sizeX, and every cell of every grid is `-1`. |
| `Board.NormalizeDirection` | dots-and-boxes/src/logic/gameUtils.js:121-125 | The result is horizontal exactly for `0`, `'0'`, `'h'`, `'H'` and vertical exactly for `1`, `'1'`, `'v'`, `'V'`; every other value is the "Unknown direction" error carrying that value. |
| `Board.NormalizeDirectionInverts` | dots-and-boxes/src/logic/gameUtils.js:121-125 | The numeric code and the letter of each direction normalise back to it, and a numeric direction is accepted exactly when it is 0 or 1 (the only numeric directions `normalizeDirection` accepts). |
| `Board.IsLineClaimed` | dots-and-boxes/src/logic/gameUtils.js:32-38 | Throws exactly when the direction is unknown; otherwise reports whether the addressed cell of the matching grid differs from `-1`. |
| `Board.AdjacentBoxes` | dots-and-boxes/src/logic/gameUtils.js:127-137 | At most two boxes, each bordered by the line; for a line on the board, a box is listed exactly when it lies on the board and borders the line; the upper (or left) box comes first. |
| `Board.IsBoxCompletedMeansAllSidesOwned` | dots-and-boxes/src/logic/gameUtils.js:139-145 | A box counts as completed exactly when every line bordering it exists on the board and is owned. |
| `Board.ClaimBoxesRecords` | dots-and-boxes/src/logic/gameUtils.js:57-67 | The completed list holds no box twice and holds exactly the adjacent boxes that were unowned and are now completed. |
| `Board.ClaimBoxesOwners` | dots-and-boxes/src/logic/gameUtils.js:57-67 | After the `forEach`, a box belongs to the mover if it is in the completed list and is otherwise as before. |
| `Board.ClaimBoxesCount` | dots-and-boxes/src/logic/gameUtils.js:57-67 | The number of owned boxes grows by exactly the length of the completed list. |
| `Board.DrawLineEffect` | dots-and-boxes/src/logic/gameUtils.js:42-69 | Drawing an unowned line sets exactly that line cell to the mover, keeps every other line and the sizes, and awards exactly the newly completed bordering boxes. |
| `Board.ApplyMove` | dots-and-boxes/src/logic/gameUtils.js:40-70 | Throws exactly on an unknown direction. On an owned line, returns the input board and no boxes. Otherwise sets exactly that line to the mover; a box changes, to the mover, exactly when it borders the line, was unowned and now has four owned sides; those boxes are the completed list (at most two, distinct), and the owned count grows by its length. |
| `Board.EmptyBoardInvariant` | dots-and-boxes/src/logic/gameUtils.js:1-18 | On a new board, every box is owned exactly when its four sides are (vacuously: none is). |
| `Board.ApplyMovePreservesInvariant` | dots-and-boxes/src/logic/gameUtils.js:57-67 | If every box is owned exactly when its four sides are owned, the same holds after `applyMove`. |
| `Grid.OwnedCountUpdate` | dots-and-boxes/src/logic/gameUtils.js:96-99 | Replacing one cell changes the owned-cell count by exactly that cell's change. |
| `Grid.OwnedCountFull` | dots-and-boxes/src/logic/gameUtils.js:95-101 | The owned count of a rows x cols grid is at most rows*cols, and reaches it exactly when every cell is owned. |
| `Game.Outcome` | dots-and-boxes/src/logic/gameUtils.js:103-109 | A draw exactly when the scores are equal, otherwise the player with the higher score. |
| `Game.CreateInitialGameState` | dots-and-boxes/src/logic/gameUtils.js:72-81 | The state holds the empty board, player 0 to move, no moves and an unfinished game, and satisfies the session invariant. |
| `Game.PlayMove` | dots-and-boxes/src/logic/gameUtils.js:83-119 | A finished game or an owned line returns the state unchanged; an unknown direction throws; otherwise the move `{dir, x, y, currentPlayer}` is appended, the board is the one `applyMove` returns, and the line now belongs to the mover. |
| `Game.PlayMoveScores` | dots-and-boxes/src/logic/gameUtils.js:88-93 | A move drawing a new line gains 0 to 2 boxes; the mover's score grows by exactly that gain and the other score is unchanged; the mover keeps the turn exactly when the gain is positive, otherwise the turn passes to `1 - currentPlayer`. |
| `Game.PlayMoveEnds` | dots-and-boxes/src/logic/gameUtils.js:95-118 | After a move drawing a new line, the game is finished exactly when every box is owned; the winner is then decided by the scores, and stays undecided otherwise. |
| `Game.PlayMovePreservesConsistency` | dots-and-boxes/src/logic/gameUtils.js:83-119 | `playMove` keeps the session invariant: the ownership invariant, non-negative scores that add up to the owned boxes, the end and winner rules. |
| `Game.ReachableStatesConsistent` | dots-and-boxes/src/logic/gameUtils.js:72-119 | In every state reached by a sequence of clicks from a consistent state, such as a new game, the two scores add up to the number of owned boxes and the session invariant holds. |
| `Game.FinishedIffAllBoxesOwned` | dots-and-boxes/src/logic/gameUtils.js:95-101 | In a consistent state after at least one move, the game is finished exactly when every box is owned. |
| `Text.Split` | dots-and-boxes/src/logic/parseReplay.js:8-9 | At least one piece, no piece contains the separator, and joining the pieces with it gives the input back. |
| `Text.SplitJoin` | dots-and-boxes/src/logic/parseReplay.js:8-9 | Splitting a join of separator-free pieces gives the pieces back. |
| `Text.Trim` | dots-and-boxes/src/logic/parseReplay.js:10 | The result is a slice of the input with only white space cut on either side, and it neither starts nor ends with white space. |
| `Text.ParseInt` | dots-and-boxes/src/logic/parseReplay.js:12 | NaN exactly when no digit follows the optional sign; a leading minus gives a non-positive value, otherwise it is non-negative. |
| `Text.ParseIntOfIntToString` | dots-and-boxes/src/logic/parseReplay.js:12 | Parsing the decimal rendering of any integer, followed by anything that does not start with a digit, gives the integer back. |
| `Text.ParseIntSigned` | dots-and-boxes/src/logic/parseReplay.js:12 | An optional `+` or `-`, a non-empty digit run and anything not starting with a digit parse as the run's decimal value, negated after `-`; so `"+7"` is 7, `"-05"` is -5 and `"-0"` is 0. |
| `Replay.NonEmpty` | dots-and-boxes/src/logic/parseReplay.js:11 | Every kept token is non-empty and comes from the input, and a list without empty tokens is kept whole. |
| `Replay.NonEmptyAppend` | dots-and-boxes/src/logic/parseReplay.js:11 | Filtering a concatenation is the concatenation of the filtered parts; with `NonEmptySingle` this says every non-empty token is kept, in order, and every empty one dropped, so `"1,,1"` keeps the tokens `1` and `1`. |
| `Replay.NonEmptySingle` | dots-and-boxes/src/logic/parseReplay.js:11 | A single token is kept exactly when it is not empty. |
| `Replay.ParseAll` | dots-and-boxes/src/logic/parseReplay.js:12-16 | NaN is reported exactly when some token fails to parse; otherwise value i is the parse of token i. |
| `Replay.DecodeValues` | dots-and-boxes/src/logic/parseReplay.js:18-37 | The board-size error exactly when a size is not positive; the move-length error exactly when the sizes are positive and the move values are not a multiple of four; otherwise there are (n-2)/4 moves and move k is `{player: v[2+4k], x: v[3+4k], y: v[4+4k], dir: v[5+4k]}`, in input order. |
| `Replay.Decode` | dots-and-boxes/src/logic/parseReplay.js:3-37 | The empty-input error exactly for a non-string or empty string; the number-format error exactly when there are fewer than two values or a NaN; otherwise the checks of `DecodeValues`. |
| `Replay.GroupMoves` | dots-and-boxes/src/logic/parseReplay.js:29-37 | Four values per move, and move k is built from values 4k to 4k+3. |
| `Replay.Frames` | dots-and-boxes/src/logic/parseReplay.js:39-46 | The fold throws exactly when some move has an unknown direction; otherwise there is one frame more than moves, the first is the start board, and every frame keeps its sizes. |
| `Replay.FramesStep` | dots-and-boxes/src/logic/parseReplay.js:42-46 | Frame k+1 is the board `applyMove` returns for frame k and move k. |
| `Replay.FramesError` | dots-and-boxes/src/logic/parseReplay.js:42-43 | A failing fold throws the error of the first move with an unknown direction. |
| `Replay.FramesKeepInvariant` | dots-and-boxes/src/logic/parseReplay.js:39-46 | Every frame of a fold from a board with the ownership invariant has it too. |
| `Replay.ParseReplay` | dots-and-boxes/src/logic/parseReplay.js:3-62 | Structural errors come first; then the parse fails exactly when a move has an unknown direction, with that first move's error; otherwise it returns the decoded size and moves, one frame more than moves, the empty board first and the fold's frames. |
| `Replay.ParseReplayFrames` | dots-and-boxes/src/logic/parseReplay.js:39-61 | Every frame of a parsed replay is a well-formed board of the parsed sizes and keeps the ownership invariant, and frame k+1 is `applyMove` of frame k and move k. |
| `Replay.RepeatedClaimRepeatsFrame` | dots-and-boxes/src/logic/parseReplay.js:42-61 | A move on a line already owned in frame k leaves frame k+1 equal to frame k, and the replay still has a frame for every move. |
| `Replay.RepeatedClaimExample` | dots-and-boxes/src/logic/parseReplay.js:39-61 | A transcript in which player 1 redraws the line player 0 has just drawn replays without error into three frames, the last two equal and different from the first. |
| `Replay.RepeatedClaimTranscript` | dots-and-boxes/src/logic/parseReplay.js:3-37 | The written transcript of the repeated-claim moves on a 1 x 1 board decodes to exactly that size and those moves, so `RepeatedClaimExample` applies to it. |
| `Replay.ValuesOfEncoding` | dots-and-boxes/src/logic/parseReplay.js:8-16 | Tokenising and parsing a comma-separated rendering of any integer list gives the list back. |
| `Replay.GroupFlatten` | dots-and-boxes/src/logic/parseReplay.js:29-37 | Grouping the values of a flattened move list gives the moves back. |
| `Replay.DecodeEncode` | dots-and-boxes/src/logic/parseReplay.js:3-37 | A transcript written for a positive board size and any moves with numeric directions decodes to exactly that size and those moves. |

## Left out

- UI: the React components, the SVG drawing, the playback timer and the build configuration are not part of this model.
- `cloneBoard` and the frame re-copy in `parseReplay` (parseReplay.js lines 52-60) are deep copies. On immutable Dafny values they are the identity, so the model uses the value itself. `applyMove` therefore cannot change its input board.
- Out-of-range grid reads are replaced by preconditions (see above). So are the `TypeError` on a bad row index and the `undefined` that reads as a claimed line. As a consequence, a replay with an off-board move is outside the model's domain. An example is a vertical line at `y = 1` on a board one box high, which the code treats as an owned line and skips.
- Board sizes given to `createEmptyBoard` and `createInitialGameState` are natural numbers. JavaScript's `Array.from` with a negative length gives an empty array; that case is not modelled.
- `Text.ParseInt`: only an optional sign and the longest run of ASCII decimal digits are modelled. Left out are: values beyond 2^53 losing precision, leading white space inside a token (tokens are already trimmed), and the non-ASCII digits and spaces of full `parseInt` and `trim`.
- `Replay.ParseReplay`, `Board.CreateEmptyBoard`: board sizes are unbounded. `Array.from({length: n})` (gameUtils.js lines 2-9) throws a `RangeError` once a length reaches 2^32. So the source throws on any transcript with a board size of 2^32 - 1 or more, for example `1,4294967295`, while the model returns a replay.
- `Text.Trim`: only ASCII white space (space, tab, line feed, carriage return, vertical tab, form feed) is removed. Unicode white space is not.
- A direction read from a transcript is always the integer `parseInt` returned. Non-integer numbers, `null`, `undefined` and objects are collapsed into `Other`, which `normalizeDirection` rejects as the code does.
- The `violation`/forfeit record that the viewer reads is not modelled, because `parseReplay` never produces one.
- `playMove`'s reachable states are characterised from any consistent state. The model does not track which states the UI can actually produce.
