/** The board model and the move engine: the three ownership grids, direction
    normalisation, line lookup, box adjacency and completion, and `applyMove`. */
module Board {
  import opened Js
  import opened Grid

  /** The canonical direction tags `'h'` and `'v'`. */
  datatype Direction = H | V

  /** A box position: column `x`, row `y`. */
  datatype Cell = Cell(x: int, y: int)

  /** A board of `sizeX` x `sizeY` boxes.
      `horizontal[y][x]` is the line from dot (x, y) to dot (x+1, y),
      `vertical[x][y]` is the line from dot (x, y) to dot (x, y+1),
      `boxes[y][x]` is the box whose top-left dot is (x, y).
      Every cell holds the owning player or `Unclaimed`. */
  datatype Board = Board(
    sizeX: int,
    sizeY: int,
    horizontal: seq<seq<int>>,
    vertical: seq<seq<int>>,
    boxes: seq<seq<int>>)

  /** A move as the code builds it; `dir` is kept exactly as given. */
  datatype Move = Move(player: int, x: int, y: int, dir: Value)

  /** What `applyMove` returns: the next board and the boxes the move completed. */
  datatype MoveResult = MoveResult(board: Board, completedBoxes: seq<Cell>)

  /** The three grids have the shapes `createEmptyBoard` gives them. */
  predicate WellFormed(b: Board) {
    && b.sizeX >= 0
    && b.sizeY >= 0
    && IsGrid(b.horizontal, b.sizeY + 1, b.sizeX)
    && IsGrid(b.vertical, b.sizeX + 1, b.sizeY)
    && IsGrid(b.boxes, b.sizeY, b.sizeX)
  }

  function CreateEmptyBoard(sizeX: nat, sizeY: nat): (b: Board)
    ensures WellFormed(b)
    ensures b.sizeX == sizeX && b.sizeY == sizeY
    ensures AllUnclaimed(b.horizontal) && AllUnclaimed(b.vertical) && AllUnclaimed(b.boxes)
  {
    Board(sizeX, sizeY, NewGrid(sizeY + 1, sizeX), NewGrid(sizeX + 1, sizeY), NewGrid(sizeY, sizeX))
  }

  /** `normalizeDirection`: strict equality against the accepted spellings. */
  function NormalizeDirection(dir: Value): (r: Result<Direction>)
    ensures r == Ok(H) <==> dir in {Num(0), Str("0"), Str("h"), Str("H")}
    ensures r == Ok(V) <==> dir in {Num(1), Str("1"), Str("v"), Str("V")}
    ensures r.Err? ==> r.error == UnknownDirection(dir)
  {
    if dir == Num(0) || dir == Str("0") || dir == Str("h") || dir == Str("H") then Ok(H)
    else if dir == Num(1) || dir == Str("1") || dir == Str("v") || dir == Str("V") then Ok(V)
    else Err(UnknownDirection(dir))
  }

  /** The numeric code a replay transcript uses for a direction. */
  function DirectionCode(d: Direction): int {
    if d == H then 0 else 1
  }

  /** The letter the board view passes when a line is clicked. */
  function DirectionLetter(d: Direction): string {
    if d == H then "h" else "v"
  }

  /** Every way the code writes a direction normalizes back to it, and only
      the codes 0 and 1 are accepted as numbers. */
  lemma NormalizeDirectionInverts(d: Direction, n: int)
    ensures NormalizeDirection(Num(DirectionCode(d))) == Ok(d)
    ensures NormalizeDirection(Str(DirectionLetter(d))) == Ok(d)
    ensures NormalizeDirection(Num(n)).Ok? <==> n == 0 || n == 1
    ensures NormalizeDirection(Num(n)).Ok? ==> DirectionCode(NormalizeDirection(Num(n)).value) == n
  {
  }

  /** The line (d, x, y) exists on a board of `sizeX` x `sizeY` boxes. */
  predicate LineInRange(sizeX: int, sizeY: int, d: Direction, x: int, y: int) {
    if d == H then 0 <= y <= sizeY && 0 <= x < sizeX
    else 0 <= x <= sizeX && 0 <= y < sizeY
  }

  /** The caller's obligation for a direction/coordinate triple: when the
      direction is valid, the addressed line must exist. */
  predicate Addressable(sizeX: int, sizeY: int, dir: Value, x: int, y: int) {
    match NormalizeDirection(dir)
    case Ok(d) => LineInRange(sizeX, sizeY, d, x, y)
    case Err(_) => true
  }

  predicate MoveInRange(sizeX: int, sizeY: int, m: Move) {
    Addressable(sizeX, sizeY, m.dir, m.x, m.y)
  }

  predicate BoxInRange(sizeX: int, sizeY: int, c: Cell) {
    0 <= c.x < sizeX && 0 <= c.y < sizeY
  }

  /** The owner cell of line (d, x, y). */
  function LineAt(b: Board, d: Direction, x: int, y: int): int
    requires WellFormed(b) && LineInRange(b.sizeX, b.sizeY, d, x, y)
  {
    if d == H then b.horizontal[y][x] else b.vertical[x][y]
  }

  /** `isLineClaimed`: throws on an unknown direction, else whether the line
      has an owner. */
  function IsLineClaimed(b: Board, dir: Value, x: int, y: int): (r: Result<bool>)
    requires WellFormed(b) && Addressable(b.sizeX, b.sizeY, dir, x, y)
    ensures r.Ok? <==> NormalizeDirection(dir).Ok?
    ensures r.Err? ==> r.error == UnknownDirection(dir)
    ensures r.Ok? ==> (r.value <==> LineAt(b, NormalizeDirection(dir).value, x, y) != Unclaimed)
  {
    var d :- NormalizeDirection(dir);
    Ok(LineAt(b, d, x, y) != Unclaimed)
  }

  /** Line (d, x, y) is one of the four sides of box `c`: its top
      horizontal(x, y), bottom horizontal(x, y+1), left vertical(x, y) or
      right vertical(x+1, y). */
  predicate Borders(d: Direction, x: int, y: int, c: Cell) {
    if d == H then x == c.x && (y == c.y || y == c.y + 1)
    else y == c.y && (x == c.x || x == c.x + 1)
  }

  /** `getAdjacentBoxes`: the boxes above and below a horizontal line, or
      left and right of a vertical one, that lie on the board, in that order. */
  function AdjacentBoxes(d: Direction, x: int, y: int, sizeX: int, sizeY: int): (r: seq<Cell>)
    ensures |r| <= 2
    ensures forall i, j :: 0 <= i < j < |r| ==> if d == H then r[i].y < r[j].y else r[i].x < r[j].x
    ensures forall c :: c in r ==> Borders(d, x, y, c)
    ensures LineInRange(sizeX, sizeY, d, x, y) ==>
              forall c :: c in r <==> BoxInRange(sizeX, sizeY, c) && Borders(d, x, y, c)
  {
    if d == H then
      (if y > 0 then [Cell(x, y - 1)] else []) + (if y < sizeY then [Cell(x, y)] else [])
    else
      (if x > 0 then [Cell(x - 1, y)] else []) + (if x < sizeX then [Cell(x, y)] else [])
  }

  /** `isBoxCompleted`: all four sides of the box are owned. */
  predicate IsBoxCompleted(b: Board, c: Cell)
    requires WellFormed(b) && BoxInRange(b.sizeX, b.sizeY, c)
  {
    && b.horizontal[c.y][c.x] != Unclaimed
    && b.horizontal[c.y + 1][c.x] != Unclaimed
    && b.vertical[c.x][c.y] != Unclaimed
    && b.vertical[c.x + 1][c.y] != Unclaimed
  }

  /** Completion stated through `Borders`: every side of the box exists and is owned. */
  lemma IsBoxCompletedMeansAllSidesOwned(b: Board, c: Cell)
    requires WellFormed(b) && BoxInRange(b.sizeX, b.sizeY, c)
    ensures IsBoxCompleted(b, c) <==>
              forall d, x, y :: Borders(d, x, y, c) ==>
                LineInRange(b.sizeX, b.sizeY, d, x, y) && LineAt(b, d, x, y) != Unclaimed
  {
    if IsBoxCompleted(b, c) {
      forall d, x, y | Borders(d, x, y, c)
        ensures LineInRange(b.sizeX, b.sizeY, d, x, y) && LineAt(b, d, x, y) != Unclaimed
      {
      }
    } else {
      if b.horizontal[c.y][c.x] == Unclaimed {
        assert Borders(H, c.x, c.y, c);
      } else if b.horizontal[c.y + 1][c.x] == Unclaimed {
        assert Borders(H, c.x, c.y + 1, c);
      } else if b.vertical[c.x][c.y] == Unclaimed {
        assert Borders(V, c.x, c.y, c);
      } else {
        assert Borders(V, c.x + 1, c.y, c);
      }
    }
  }

  /** The board with line (d, x, y) given to `owner`. */
  function SetLine(b: Board, d: Direction, x: int, y: int, owner: int): (r: Board)
    requires WellFormed(b) && LineInRange(b.sizeX, b.sizeY, d, x, y)
    ensures WellFormed(r)
    ensures r.sizeX == b.sizeX && r.sizeY == b.sizeY && r.boxes == b.boxes
    ensures LinesAfter(b, r, d, x, y, owner)
  {
    if d == H then b.(horizontal := Set(b.horizontal, y, x, owner))
    else b.(vertical := Set(b.vertical, x, y, owner))
  }

  /** Every line of `b'` equals the one of `b`, except line (d, x, y), which is `owner`. */
  predicate LinesAfter(b: Board, b': Board, d: Direction, x: int, y: int, owner: int)
    requires WellFormed(b) && WellFormed(b') && b'.sizeX == b.sizeX && b'.sizeY == b.sizeY
  {
    && (forall i, j :: 0 <= i <= b.sizeY && 0 <= j < b.sizeX ==>
          b'.horizontal[i][j] == (if d == H && i == y && j == x then owner else b.horizontal[i][j]))
    && (forall i, j :: 0 <= i <= b.sizeX && 0 <= j < b.sizeY ==>
          b'.vertical[i][j] == (if d == V && i == x && j == y then owner else b.vertical[i][j]))
  }

  /** After `LinesAfter`, the drawn line belongs to its owner. */
  lemma LinesAfterDraws(b: Board, b': Board, d: Direction, x: int, y: int, owner: int)
    requires WellFormed(b) && WellFormed(b') && b'.sizeX == b.sizeX && b'.sizeY == b.sizeY
    requires LineInRange(b.sizeX, b.sizeY, d, x, y)
    requires LinesAfter(b, b', d, x, y, owner)
    ensures LineAt(b', d, x, y) == owner
  {
  }

  /** A box of `b` that the move's line borders, that was unowned, and whose
      sides are all owned on the board `b'` after the line was drawn. */
  predicate NewlyCompleted(b: Board, b': Board, d: Direction, x: int, y: int, c: Cell)
    requires WellFormed(b) && WellFormed(b') && b'.sizeX == b.sizeX && b'.sizeY == b.sizeY
  {
    && BoxInRange(b.sizeX, b.sizeY, c)
    && Borders(d, x, y, c)
    && b.boxes[c.y][c.x] == Unclaimed
    && IsBoxCompleted(b', c)
  }

  /** The loop over the adjacent boxes (gameUtils.js lines 59-67): each unowned, completed box is
      given to `owner` and recorded, in order. */
  function ClaimBoxes(b: Board, adjacent: seq<Cell>, owner: int): (r: MoveResult)
    requires WellFormed(b)
    requires forall c :: c in adjacent ==> BoxInRange(b.sizeX, b.sizeY, c)
    ensures WellFormed(r.board)
    ensures r.board.sizeX == b.sizeX && r.board.sizeY == b.sizeY
    ensures r.board.horizontal == b.horizontal && r.board.vertical == b.vertical
    ensures |r.completedBoxes| <= |adjacent|
    ensures forall c :: c in r.completedBoxes ==> c in adjacent
    decreases |adjacent|
  {
    if adjacent == [] then MoveResult(b, [])
    else
      var c := adjacent[0];
      assert c in adjacent && BoxInRange(b.sizeX, b.sizeY, c);
      if b.boxes[c.y][c.x] != Unclaimed || !IsBoxCompleted(b, c) then
        ClaimBoxes(b, adjacent[1..], owner)
      else
        var rest := ClaimBoxes(b.(boxes := Set(b.boxes, c.y, c.x, owner)), adjacent[1..], owner);
        MoveResult(rest.board, [c] + rest.completedBoxes)
  }

  /** The tail of a duplicate-free sequence is duplicate-free and misses its head. */
  lemma TailDistinct(s: seq<Cell>)
    requires s != []
    requires forall i, j :: 0 <= i < j < |s| ==> s[i] != s[j]
    ensures forall i, j :: 0 <= i < j < |s[1..]| ==> s[1..][i] != s[1..][j]
    ensures s[0] !in s[1..]
  {
    var t := s[1..];
    forall k | 0 <= k < |t|
      ensures t[k] != s[0]
    {
      assert t[k] == s[k + 1];
    }
  }

  /** For distinct adjacent boxes, `ClaimBoxes` records exactly the unowned
      completed ones, each once. */
  lemma {:induction false} ClaimBoxesRecords(b: Board, adjacent: seq<Cell>, owner: int)
    requires WellFormed(b)
    requires forall c :: c in adjacent ==> BoxInRange(b.sizeX, b.sizeY, c)
    requires forall i, j :: 0 <= i < j < |adjacent| ==> adjacent[i] != adjacent[j]
    ensures var r := ClaimBoxes(b, adjacent, owner);
      && (forall i, j :: 0 <= i < j < |r.completedBoxes| ==> r.completedBoxes[i] != r.completedBoxes[j])
      && (forall c :: c in r.completedBoxes <==>
            c in adjacent && BoxInRange(b.sizeX, b.sizeY, c) &&
            b.boxes[c.y][c.x] == Unclaimed && IsBoxCompleted(b, c))
    decreases |adjacent|
  {
    if adjacent != [] {
      var c := adjacent[0];
      assert c in adjacent && BoxInRange(b.sizeX, b.sizeY, c);
      var tail := adjacent[1..];
      TailDistinct(adjacent);
      if b.boxes[c.y][c.x] != Unclaimed || !IsBoxCompleted(b, c) {
        ClaimBoxesRecords(b, tail, owner);
      } else {
        var next := b.(boxes := Set(b.boxes, c.y, c.x, owner));
        ClaimBoxesRecords(next, tail, owner);
        var rest := ClaimBoxes(next, tail, owner);
        var r := ClaimBoxes(b, adjacent, owner);
        assert r.completedBoxes == [c] + rest.completedBoxes;
        forall c' | c' in tail
          ensures IsBoxCompleted(next, c') == IsBoxCompleted(b, c')
          ensures next.boxes[c'.y][c'.x] == b.boxes[c'.y][c'.x]
        {
        }
        forall i, j | 0 <= i < j < |r.completedBoxes|
          ensures r.completedBoxes[i] != r.completedBoxes[j]
        {
          assert r.completedBoxes[j] == rest.completedBoxes[j - 1];
          if i > 0 {
            assert r.completedBoxes[i] == rest.completedBoxes[i - 1];
          }
        }
      }
    }
  }

  /** For distinct adjacent boxes, `ClaimBoxes` gives `owner` exactly the
      boxes it records and leaves every other box as it was. */
  lemma {:induction false} ClaimBoxesOwners(b: Board, adjacent: seq<Cell>, owner: int)
    requires WellFormed(b)
    requires forall c :: c in adjacent ==> BoxInRange(b.sizeX, b.sizeY, c)
    requires forall i, j :: 0 <= i < j < |adjacent| ==> adjacent[i] != adjacent[j]
    ensures var r := ClaimBoxes(b, adjacent, owner);
      forall i, j :: 0 <= i < b.sizeY && 0 <= j < b.sizeX ==>
        r.board.boxes[i][j] == (if Cell(j, i) in r.completedBoxes then owner else b.boxes[i][j])
    decreases |adjacent|
  {
    if adjacent != [] {
      var c := adjacent[0];
      assert c in adjacent && BoxInRange(b.sizeX, b.sizeY, c);
      var tail := adjacent[1..];
      TailDistinct(adjacent);
      if b.boxes[c.y][c.x] != Unclaimed || !IsBoxCompleted(b, c) {
        ClaimBoxesOwners(b, tail, owner);
      } else {
        var next := b.(boxes := Set(b.boxes, c.y, c.x, owner));
        ClaimBoxesOwners(next, tail, owner);
        var rest := ClaimBoxes(next, tail, owner);
        var r := ClaimBoxes(b, adjacent, owner);
        assert r.completedBoxes == [c] + rest.completedBoxes;
        assert c !in rest.completedBoxes;
      }
    }
  }

  /** With a real owner, `ClaimBoxes` raises the owned-box count by the
      number of boxes it records. */
  lemma {:induction false} ClaimBoxesCount(b: Board, adjacent: seq<Cell>, owner: int)
    requires WellFormed(b)
    requires forall c :: c in adjacent ==> BoxInRange(b.sizeX, b.sizeY, c)
    requires owner != Unclaimed
    ensures var r := ClaimBoxes(b, adjacent, owner);
      OwnedCount(r.board.boxes) == OwnedCount(b.boxes) + |r.completedBoxes|
    decreases |adjacent|
  {
    if adjacent != [] {
      var c := adjacent[0];
      assert c in adjacent && BoxInRange(b.sizeX, b.sizeY, c);
      if b.boxes[c.y][c.x] != Unclaimed || !IsBoxCompleted(b, c) {
        ClaimBoxesCount(b, adjacent[1..], owner);
      } else {
        var next := b.(boxes := Set(b.boxes, c.y, c.x, owner));
        OwnedCountUpdate(b.boxes, c.y, c.x, owner);
        ClaimBoxesCount(next, adjacent[1..], owner);
      }
    }
  }

  /** `applyMove`. A move on an owned line returns the input board and no
      boxes; otherwise the line goes to `m.player` and so does every
      bordering box the line completes. */
  function ApplyMove(b: Board, m: Move): (r: Result<MoveResult>)
    requires WellFormed(b) && MoveInRange(b.sizeX, b.sizeY, m)
    ensures r.Ok? <==> NormalizeDirection(m.dir).Ok?
    ensures r.Err? ==> r.error == UnknownDirection(m.dir)
    ensures r.Ok? ==> WellFormed(r.value.board)
    ensures r.Ok? ==> r.value.board.sizeX == b.sizeX && r.value.board.sizeY == b.sizeY
    ensures r.Ok? ==> |r.value.completedBoxes| <= 2
    ensures r.Ok? ==> forall i, j :: 0 <= i < j < |r.value.completedBoxes| ==>
              r.value.completedBoxes[i] != r.value.completedBoxes[j]
    ensures r.Ok? ==>
              var d := NormalizeDirection(m.dir).value;
              LineAt(b, d, m.x, m.y) != Unclaimed ==> r.value == MoveResult(b, [])
    ensures r.Ok? ==>
              var d := NormalizeDirection(m.dir).value;
              var b' := r.value.board;
              LineAt(b, d, m.x, m.y) == Unclaimed ==>
                && LinesAfter(b, b', d, m.x, m.y, m.player)
                && (forall c :: c in r.value.completedBoxes <==> NewlyCompleted(b, b', d, m.x, m.y, c))
                && (forall i, j :: 0 <= i < b.sizeY && 0 <= j < b.sizeX ==>
                      b'.boxes[i][j] ==
                        (if NewlyCompleted(b, b', d, m.x, m.y, Cell(j, i)) then m.player else b.boxes[i][j]))
    ensures r.Ok? && m.player != Unclaimed ==>
              OwnedCount(r.value.board.boxes) == OwnedCount(b.boxes) + |r.value.completedBoxes|
  {
    var d :- NormalizeDirection(m.dir);
    if LineAt(b, d, m.x, m.y) != Unclaimed then
      Ok(MoveResult(b, []))
    else
      DrawLineEffect(b, d, m.x, m.y, m.player);
      Ok(DrawLine(b, d, m.x, m.y, m.player))
  }

  /** The unowned-line branch of `applyMove`: draw the line, then claim
      the adjacent boxes it completes. */
  function DrawLine(b: Board, d: Direction, x: int, y: int, owner: int): MoveResult
    requires WellFormed(b) && LineInRange(b.sizeX, b.sizeY, d, x, y)
  {
    var drawn := SetLine(b, d, x, y, owner);
    var adjacent := AdjacentBoxes(d, x, y, b.sizeX, b.sizeY);
    ClaimBoxes(drawn, adjacent, owner)
  }

  /** Drawing a line changes that line, and exactly the boxes it newly completes. */
  lemma DrawLineEffect(b: Board, d: Direction, x: int, y: int, owner: int)
    requires WellFormed(b) && LineInRange(b.sizeX, b.sizeY, d, x, y)
    ensures
      var r := DrawLine(b, d, x, y, owner);
      var b' := r.board;
      && WellFormed(b') && b'.sizeX == b.sizeX && b'.sizeY == b.sizeY
      && LinesAfter(b, b', d, x, y, owner)
      && (forall c :: c in r.completedBoxes <==> NewlyCompleted(b, b', d, x, y, c))
      && (forall i, j :: 0 <= i < b.sizeY && 0 <= j < b.sizeX ==>
            b'.boxes[i][j] == (if NewlyCompleted(b, b', d, x, y, Cell(j, i)) then owner else b.boxes[i][j]))
      && |r.completedBoxes| <= 2
      && (forall i, j :: 0 <= i < j < |r.completedBoxes| ==> r.completedBoxes[i] != r.completedBoxes[j])
      && (owner != Unclaimed ==> OwnedCount(b'.boxes) == OwnedCount(b.boxes) + |r.completedBoxes|)
  {
    var drawn := SetLine(b, d, x, y, owner);
    var adjacent := AdjacentBoxes(d, x, y, b.sizeX, b.sizeY);
    ClaimBoxesRecords(drawn, adjacent, owner);
    ClaimBoxesOwners(drawn, adjacent, owner);
    if owner != Unclaimed {
      ClaimBoxesCount(drawn, adjacent, owner);
    }
    var r := ClaimBoxes(drawn, adjacent, owner);
    var b' := r.board;
    forall c | BoxInRange(b.sizeX, b.sizeY, c)
      ensures IsBoxCompleted(b', c) == IsBoxCompleted(drawn, c)
    {
    }
    forall c
      ensures c in r.completedBoxes <==> NewlyCompleted(b, b', d, x, y, c)
    {
    }
  }

  /** The board invariant: a box is owned exactly when its four sides are. */
  predicate OwnershipInvariant(b: Board) {
    && WellFormed(b)
    && forall i, j :: 0 <= i < b.sizeY && 0 <= j < b.sizeX ==>
         (b.boxes[i][j] != Unclaimed <==> IsBoxCompleted(b, Cell(j, i)))
  }

  /** An empty board satisfies the invariant. */
  lemma EmptyBoardInvariant(sizeX: nat, sizeY: nat)
    ensures OwnershipInvariant(CreateEmptyBoard(sizeX, sizeY))
  {
    var b := CreateEmptyBoard(sizeX, sizeY);
    forall i, j | 0 <= i < b.sizeY && 0 <= j < b.sizeX
      ensures b.boxes[i][j] == Unclaimed && !IsBoxCompleted(b, Cell(j, i))
    {
      assert b.horizontal[i][j] == Unclaimed;
    }
  }

  /** `applyMove` preserves the invariant: the new line can only complete
      boxes it borders, and those are exactly the ones it fills in. */
  lemma ApplyMovePreservesInvariant(b: Board, m: Move)
    requires OwnershipInvariant(b) && MoveInRange(b.sizeX, b.sizeY, m)
    requires ApplyMove(b, m).Ok?
    ensures OwnershipInvariant(ApplyMove(b, m).value.board)
  {
    var d := NormalizeDirection(m.dir).value;
    var b' := ApplyMove(b, m).value.board;
    if LineAt(b, d, m.x, m.y) == Unclaimed {
      forall i, j | 0 <= i < b.sizeY && 0 <= j < b.sizeX
        ensures b'.boxes[i][j] != Unclaimed <==> IsBoxCompleted(b', Cell(j, i))
      {
        var c := Cell(j, i);
        if Borders(d, m.x, m.y, c) {
          // The drawn line is a side of c and was unowned, so c was unowned too.
          assert !IsBoxCompleted(b, c);
          if IsBoxCompleted(b', c) {
            // The drawn line is a side of c, so its new owner is not the sentinel.
            assert m.player != Unclaimed;
          }
        } else {
          assert IsBoxCompleted(b', c) == IsBoxCompleted(b, c);
        }
      }
    }
  }
}
