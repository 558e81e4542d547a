/** The replay decoder `parseReplay`: a transcript `sizeX,sizeY,(player,x,y,dir)*`
    of comma-separated integers is checked in a fixed order, grouped into
    moves, and replayed with `applyMove` into one frame per state. A move on
    an owned line is applied like any other: it repeats the previous frame. */
module Replay {
  import opened Js
  import opened Grid
  import opened Board
  import opened Text

  /** The header and moves of a structurally valid transcript. */
  datatype Transcript = Transcript(sizeX: int, sizeY: int, moves: seq<Move>)

  /** What `parseReplay` returns. */
  datatype Replay = Replay(sizeX: int, sizeY: int, moves: seq<Move>, frames: seq<Board>)

  /** Every piece trimmed, in order (parseReplay.js line 10). */
  function TrimAll(pieces: seq<string>): (r: seq<string>)
    ensures |r| == |pieces|
    ensures forall i :: 0 <= i < |r| ==> r[i] == Trim(pieces[i])
  {
    seq(|pieces|, i requires 0 <= i < |pieces| => Trim(pieces[i]))
  }

  /** The pieces that are not empty, in order (parseReplay.js line 11). */
  function NonEmpty(pieces: seq<string>): (r: seq<string>)
    ensures |r| <= |pieces|
    ensures forall i :: 0 <= i < |r| ==> r[i] != [] && r[i] in pieces
    ensures (forall i :: 0 <= i < |pieces| ==> pieces[i] != []) ==> r == pieces
    decreases |pieces|
  {
    if pieces == [] then []
    else
      var rest := NonEmpty(pieces[1..]);
      assert forall i :: 0 <= i < |rest| ==> rest[i] in pieces by {
        forall i | 0 <= i < |rest|
          ensures rest[i] in pieces
        {
          assert rest[i] in pieces[1..];
        }
      }
      if pieces[0] != [] then [pieces[0]] + rest else rest
  }

  /** Dropping empty pieces distributes over concatenation. Together with
      `NonEmptySingle` this fixes the filter: every non-empty piece is kept,
      in order, and only those. */
  lemma {:induction false} NonEmptyAppend(a: seq<string>, b: seq<string>)
    ensures NonEmpty(a + b) == NonEmpty(a) + NonEmpty(b)
    decreases |a|
  {
    if a == [] {
      assert a + b == b;
    } else {
      assert (a + b)[1..] == a[1..] + b;
      NonEmptyAppend(a[1..], b);
    }
  }

  /** A single piece is kept exactly when it is not empty. */
  lemma NonEmptySingle(p: string)
    ensures NonEmpty([p]) == if p == [] then [] else [p]
  {
  }

  /** The tokens of a transcript: split on commas, trimmed, empty ones dropped. */
  function Tokens(text: string): (r: seq<string>)
    ensures forall i :: 0 <= i < |r| ==> r[i] != [] && ',' !in r[i]
  {
    var pieces := Split(text, ',');
    var trimmed := TrimAll(pieces);
    assert forall i :: 0 <= i < |trimmed| ==> ',' !in trimmed[i] by {
      forall i | 0 <= i < |trimmed|
        ensures ',' !in trimmed[i]
      {
        TrimExcludes(pieces[i], ',');
      }
    }
    NonEmpty(trimmed)
  }

  /** Every token parsed as a decimal integer, followed by the NaN test
      (parseReplay.js lines 12 and 14):
      `None` exactly when some token does not parse. */
  function ParseAll(tokens: seq<string>): (r: Option<seq<int>>)
    ensures r.None? <==> exists i :: 0 <= i < |tokens| && ParseInt(tokens[i]).None?
    ensures r.Some? ==> |r.value| == |tokens|
    ensures r.Some? ==> forall i :: 0 <= i < |tokens| ==> ParseInt(tokens[i]) == Some(r.value[i])
    decreases |tokens|
  {
    if tokens == [] then Some([])
    else
      var first := ParseInt(tokens[0]);
      var rest := ParseAll(tokens[1..]);
      assert forall i :: 0 <= i < |tokens[1..]| ==> tokens[1..][i] == tokens[i + 1];
      if first.None? then None
      else if rest.None? then
        assert exists i :: 0 <= i < |tokens| && ParseInt(tokens[i]).None? by {
          var i :| 0 <= i < |tokens[1..]| && ParseInt(tokens[1..][i]).None?;
          assert ParseInt(tokens[i + 1]).None?;
        }
        None
      else
        var r := [first.value] + rest.value;
        assert forall i :: 0 <= i < |tokens| ==> ParseInt(tokens[i]) == Some(r[i]) by {
          forall i | 0 <= i < |tokens|
            ensures ParseInt(tokens[i]) == Some(r[i])
          {
            if i > 0 {
              assert tokens[i] == tokens[1..][i - 1];
            }
          }
        }
        Some(r)
  }

  /** The integer list of a transcript, or `None` when a token is NaN. */
  function Values(text: string): Option<seq<int>> {
    ParseAll(Tokens(text))
  }

  /** The loop of parseReplay.js lines 29-37, which steps through the move
      values four at a time: consecutive groups of four values become moves
      `{player, x, y, dir}`, in input order. */
  function GroupMoves(values: seq<int>): (ms: seq<Move>)
    requires |values| % 4 == 0
    ensures 4 * |ms| == |values|
    ensures forall k :: 0 <= k < |ms| ==>
              ms[k] == Move(values[4 * k], values[4 * k + 1], values[4 * k + 2], Num(values[4 * k + 3]))
  {
    var n := |values| / 4;
    seq(n, k requires 0 <= k < n => Move(values[4 * k], values[4 * k + 1], values[4 * k + 2], Num(values[4 * k + 3])))
  }

  /** The checks on the values of a transcript: a non-positive board size,
      then a move list whose length is not a multiple of four. */
  function DecodeValues(v: seq<int>): (r: Result<Transcript>)
    requires |v| >= 2
    ensures r == Err(InvalidBoardSize) <==> v[0] <= 0 || v[1] <= 0
    ensures r == Err(InvalidMoveLength) <==> v[0] > 0 && v[1] > 0 && (|v| - 2) % 4 != 0
    ensures r.Ok? || r == Err(InvalidBoardSize) || r == Err(InvalidMoveLength)
    ensures r.Ok? ==>
              && (|v| - 2) % 4 == 0
              && r.value.sizeX == v[0] > 0 && r.value.sizeY == v[1] > 0
              && 4 * |r.value.moves| + 2 == |v|
              && forall k :: 0 <= k < |r.value.moves| ==>
                   r.value.moves[k] == Move(v[2 + 4 * k], v[3 + 4 * k], v[4 + 4 * k], Num(v[5 + 4 * k]))
  {
    if v[0] <= 0 || v[1] <= 0 then Err(InvalidBoardSize)
    else if (|v| - 2) % 4 != 0 then Err(InvalidMoveLength)
    else
      var ms := GroupMoves(v[2..]);
      assert forall k :: 0 <= k < |ms| ==>
               ms[k] == Move(v[2 + 4 * k], v[3 + 4 * k], v[4 + 4 * k], Num(v[5 + 4 * k])) by {
        forall k | 0 <= k < |ms|
          ensures ms[k] == Move(v[2 + 4 * k], v[3 + 4 * k], v[4 + 4 * k], Num(v[5 + 4 * k]))
        {
          var w := v[2..];
          assert w[4 * k] == v[2 + 4 * k] && w[4 * k + 1] == v[3 + 4 * k];
          assert w[4 * k + 2] == v[4 + 4 * k] && w[4 * k + 3] == v[5 + 4 * k];
        }
      }
      Ok(Transcript(v[0], v[1], ms))
  }

  /** `parseReplay`'s structural checks, in the code's order: empty or
      non-string input; fewer than two values or a NaN; then the checks of
      `DecodeValues`. */
  function Decode(input: Value): (r: Result<Transcript>)
    ensures r == Err(EmptyReplay) <==> !input.Str? || input.s == []
    ensures input.Str? && input.s != [] ==>
              (r == Err(InvalidNumber) <==> Values(input.s).None? || |Values(input.s).value| < 2)
    ensures input.Str? && input.s != [] && Values(input.s).Some? && |Values(input.s).value| >= 2 ==>
              r == DecodeValues(Values(input.s).value)
  {
    if !input.Str? || input.s == [] then Err(EmptyReplay)
    else
      var values := Values(input.s);
      if values.None? || |values.value| < 2 then Err(InvalidNumber)
      else DecodeValues(values.value)
  }

  /** Every move the fold reads addresses a line of the board: each move up
      to and including the first one with an unknown direction (which throws,
      so later moves are never read). */
  predicate MovesInRange(sizeX: int, sizeY: int, moves: seq<Move>)
    decreases |moves|
  {
    moves == [] ||
    (MoveInRange(sizeX, sizeY, moves[0]) &&
     (NormalizeDirection(moves[0].dir).Ok? ==> MovesInRange(sizeX, sizeY, moves[1..])))
  }

  /** `parseReplay`'s demand on its input: the moves of a structurally valid
      transcript address lines of its board. */
  predicate ReplayInRange(input: Value) {
    match Decode(input)
    case Ok(t) => MovesInRange(t.sizeX, t.sizeY, t.moves)
    case Err(_) => true
  }

  /** The move with the first unknown direction is move `k`. */
  predicate FirstBadDirection(moves: seq<Move>, k: int) {
    && 0 <= k < |moves|
    && NormalizeDirection(moves[k].dir).Err?
    && forall j :: 0 <= j < k ==> NormalizeDirection(moves[j].dir).Ok?
  }

  /** The fold over the moves (parseReplay.js lines 39-46): the starting board, then the board after
      each move in turn; the first unknown direction throws. */
  function Frames(b: Board, moves: seq<Move>): (r: Result<seq<Board>>)
    requires WellFormed(b) && MovesInRange(b.sizeX, b.sizeY, moves)
    ensures r.Err? <==> exists k :: 0 <= k < |moves| && NormalizeDirection(moves[k].dir).Err?
    ensures r.Ok? ==> |r.value| == |moves| + 1 && r.value[0] == b
    ensures r.Ok? ==> forall k :: 0 <= k < |r.value| ==>
              WellFormed(r.value[k]) && r.value[k].sizeX == b.sizeX && r.value[k].sizeY == b.sizeY
    decreases |moves|
  {
    if moves == [] then Ok([b])
    else
      var step :- ApplyMove(b, moves[0]);
      var tail := moves[1..];
      assert forall k :: 0 <= k < |tail| ==> tail[k] == moves[k + 1];
      assert WellFormed(step.board) && step.board.sizeX == b.sizeX && step.board.sizeY == b.sizeY;
      assert MovesInRange(b.sizeX, b.sizeY, tail);
      var rest :- Frames(step.board, tail);
      Ok([b] + rest)
  }

  /** Each frame after the first is `applyMove` of the previous frame and
      the move at that position. */
  lemma {:induction false} FramesStep(b: Board, moves: seq<Move>)
    requires WellFormed(b) && MovesInRange(b.sizeX, b.sizeY, moves)
    requires Frames(b, moves).Ok?
    ensures forall k :: 0 <= k < |moves| ==> MoveInRange(b.sizeX, b.sizeY, moves[k])
    ensures var frames := Frames(b, moves).value;
      forall k :: 0 <= k < |moves| ==>
        ApplyMove(frames[k], moves[k]).Ok? && ApplyMove(frames[k], moves[k]).value.board == frames[k + 1]
    decreases |moves|
  {
    if moves != [] {
      var step := ApplyMove(b, moves[0]).value;
      var tail := moves[1..];
      FramesStep(step.board, tail);
      var frames := Frames(b, moves).value;
      var rest := Frames(step.board, tail).value;
      assert frames == [b] + rest;
      forall k | 0 <= k < |moves|
        ensures MoveInRange(b.sizeX, b.sizeY, moves[k])
        ensures ApplyMove(frames[k], moves[k]).Ok? && ApplyMove(frames[k], moves[k]).value.board == frames[k + 1]
      {
        if k > 0 {
          assert moves[k] == tail[k - 1];
          assert frames[k] == rest[k - 1] && frames[k + 1] == rest[k];
        }
      }
    }
  }

  /** The error a fold throws is the one for the first move with an unknown direction. */
  lemma {:induction false} FramesError(b: Board, moves: seq<Move>)
    requires WellFormed(b) && MovesInRange(b.sizeX, b.sizeY, moves)
    requires Frames(b, moves).Err?
    ensures exists k :: FirstBadDirection(moves, k) && Frames(b, moves).error == UnknownDirection(moves[k].dir)
    decreases |moves|
  {
    if NormalizeDirection(moves[0].dir).Err? {
      assert FirstBadDirection(moves, 0);
    } else {
      var step := ApplyMove(b, moves[0]).value;
      var tail := moves[1..];
      FramesError(step.board, tail);
      var k :| FirstBadDirection(tail, k) && Frames(step.board, tail).error == UnknownDirection(tail[k].dir);
      assert moves[k + 1] == tail[k];
      assert forall j :: 1 <= j < k + 1 ==> moves[j] == tail[j - 1];
      assert FirstBadDirection(moves, k + 1);
    }
  }

  /** Every frame of a fold that starts from a board satisfying the
      ownership invariant satisfies it too. */
  lemma {:induction false} FramesKeepInvariant(b: Board, moves: seq<Move>)
    requires WellFormed(b) && MovesInRange(b.sizeX, b.sizeY, moves)
    requires OwnershipInvariant(b)
    requires Frames(b, moves).Ok?
    ensures forall k :: 0 <= k < |Frames(b, moves).value| ==> OwnershipInvariant(Frames(b, moves).value[k])
  {
    var frames := Frames(b, moves).value;
    FramesStep(b, moves);
    var k := 0;
    while k < |moves|
      invariant 0 <= k <= |moves|
      invariant forall j :: 0 <= j <= k ==> OwnershipInvariant(frames[j])
    {
      ApplyMovePreservesInvariant(frames[k], moves[k]);
      k := k + 1;
    }
  }

  /** `parseReplay`: the structural errors of `Decode`, then the fold over
      the decoded moves from an empty board of the decoded size. */
  function ParseReplay(input: Value): (r: Result<Replay>)
    requires ReplayInRange(input)
    ensures Decode(input).Err? ==> r == Err(Decode(input).error)
    ensures Decode(input).Ok? ==>
              (r.Err? <==> exists k :: 0 <= k < |Decode(input).value.moves| &&
                                       NormalizeDirection(Decode(input).value.moves[k].dir).Err?)
    ensures r.Err? && Decode(input).Ok? ==>
              var ms := Decode(input).value.moves;
              exists k :: FirstBadDirection(ms, k) && r.error == UnknownDirection(ms[k].dir)
    ensures r.Ok? ==> Decode(input) == Ok(Transcript(r.value.sizeX, r.value.sizeY, r.value.moves))
    ensures r.Ok? ==> |r.value.frames| == |r.value.moves| + 1
    ensures r.Ok? ==> r.value.frames[0] == CreateEmptyBoard(r.value.sizeX, r.value.sizeY)
    ensures r.Ok? ==>
              && r.value.sizeX > 0 && r.value.sizeY > 0
              && MovesInRange(r.value.sizeX, r.value.sizeY, r.value.moves)
              && Frames(CreateEmptyBoard(r.value.sizeX, r.value.sizeY), r.value.moves) == Ok(r.value.frames)
  {
    var t :- Decode(input);
    var start := CreateEmptyBoard(t.sizeX, t.sizeY);
    var frames := Frames(start, t.moves);
    if frames.Err? then
      FramesError(start, t.moves);
      Err(frames.error)
    else
      Ok(Replay(t.sizeX, t.sizeY, t.moves, frames.value))
  }

  /** The frames of a parsed replay: every frame keeps the parsed size and
      the ownership invariant, and frame `k+1` is `applyMove` of frame `k`
      and move `k`. */
  lemma ParseReplayFrames(input: Value)
    requires ReplayInRange(input)
    requires ParseReplay(input).Ok?
    ensures var rp := ParseReplay(input).value;
      forall k :: 0 <= k < |rp.frames| ==>
        && WellFormed(rp.frames[k]) && OwnershipInvariant(rp.frames[k])
        && rp.frames[k].sizeX == rp.sizeX && rp.frames[k].sizeY == rp.sizeY
    ensures var rp := ParseReplay(input).value;
      forall k :: 0 <= k < |rp.moves| ==>
        MoveInRange(rp.sizeX, rp.sizeY, rp.moves[k]) &&
        ApplyMove(rp.frames[k], rp.moves[k]).Ok? &&
        ApplyMove(rp.frames[k], rp.moves[k]).value.board == rp.frames[k + 1]
  {
    var rp := ParseReplay(input).value;
    var start := CreateEmptyBoard(rp.sizeX, rp.sizeY);
    EmptyBoardInvariant(rp.sizeX, rp.sizeY);
    FramesStep(start, rp.moves);
    FramesKeepInvariant(start, rp.moves);
  }

  /** A move on a line that is already owned in frame `k` (the case the
      viewer calls a rule violation) does not stop the replay and records
      nothing: frame `k+1` repeats frame `k`, and later moves still follow. */
  lemma RepeatedClaimRepeatsFrame(input: Value, k: int)
    requires ReplayInRange(input)
    requires ParseReplay(input).Ok?
    requires 0 <= k < |ParseReplay(input).value.moves|
    requires var rp := ParseReplay(input).value;
             var m := rp.moves[k];
             NormalizeDirection(m.dir).Ok? &&
             LineInRange(rp.sizeX, rp.sizeY, NormalizeDirection(m.dir).value, m.x, m.y) &&
             LineAt(rp.frames[k], NormalizeDirection(m.dir).value, m.x, m.y) != Unclaimed
    ensures ParseReplay(input).value.frames[k + 1] == ParseReplay(input).value.frames[k]
    ensures |ParseReplay(input).value.frames| == |ParseReplay(input).value.moves| + 1
  {
    ParseReplayFrames(input);
  }

  /** The decimal renderings of a list of integers. */
  function Render(vs: seq<int>): (r: seq<string>)
    ensures |r| == |vs|
    ensures forall i :: 0 <= i < |r| ==> r[i] == IntToString(vs[i])
  {
    seq(|vs|, i requires 0 <= i < |vs| => IntToString(vs[i]))
  }

  /** A list of integers written as a comma-separated transcript. */
  function EncodeValues(vs: seq<int>): string
    requires |vs| >= 1
  {
    Join(Render(vs), ',')
  }

  /** Tokenising a written list of integers gives their renderings back. */
  lemma TokensOfEncoding(vs: seq<int>)
    requires |vs| >= 1
    ensures Tokens(EncodeValues(vs)) == Render(vs)
  {
    var strs := Render(vs);
    SplitJoin(strs, ',');
    assert TrimAll(strs) == strs by {
      forall i | 0 <= i < |strs|
        ensures Trim(strs[i]) == strs[i]
      {
        TrimNoSpace(strs[i]);
      }
    }
  }

  /** Parsing the renderings of a list of integers gives the list back. */
  lemma ParseAllRender(vs: seq<int>)
    ensures ParseAll(Render(vs)) == Some(vs)
  {
    var strs := Render(vs);
    forall i | 0 <= i < |strs|
      ensures ParseInt(strs[i]) == Some(vs[i])
    {
      ParseIntOfIntToString(vs[i], []);
      assert strs[i] + [] == strs[i];
    }
    assert ParseAll(strs).value == vs;
  }

  /** Tokenising and parsing a written list of integers gives the list back. */
  lemma ValuesOfEncoding(vs: seq<int>)
    requires |vs| >= 1
    ensures Values(EncodeValues(vs)) == Some(vs)
  {
    TokensOfEncoding(vs);
    ParseAllRender(vs);
  }

  /** The transcript values of a list of moves, four per move, as
      `player, x, y, dir`. */
  function Flatten(moves: seq<Move>): (vs: seq<int>)
    requires forall k :: 0 <= k < |moves| ==> moves[k].dir.Num?
    ensures |vs| == 4 * |moves|
    decreases |moves|
  {
    if moves == [] then []
    else
      var m := moves[0];
      [m.player, m.x, m.y, m.dir.n] + Flatten(moves[1..])
  }

  /** Grouping takes the first four values as the first move. */
  lemma GroupMovesCons(vs: seq<int>)
    requires |vs| >= 4 && |vs| % 4 == 0
    ensures |vs[4..]| % 4 == 0
    ensures GroupMoves(vs) == [Move(vs[0], vs[1], vs[2], Num(vs[3]))] + GroupMoves(vs[4..])
  {
    var tail := vs[4..];
    var ms := GroupMoves(vs);
    var rest := GroupMoves(tail);
    assert |ms| == |rest| + 1;
    forall k | 1 <= k < |ms|
      ensures ms[k] == rest[k - 1]
    {
      assert tail[4 * (k - 1)] == vs[4 * k];
      assert tail[4 * (k - 1) + 1] == vs[4 * k + 1];
      assert tail[4 * (k - 1) + 2] == vs[4 * k + 2];
      assert tail[4 * (k - 1) + 3] == vs[4 * k + 3];
    }
  }

  /** Grouping the flattened values gives the moves back. */
  lemma {:induction false} GroupFlatten(moves: seq<Move>)
    requires forall k :: 0 <= k < |moves| ==> moves[k].dir.Num?
    ensures GroupMoves(Flatten(moves)) == moves
    decreases |moves|
  {
    if moves != [] {
      var vs := Flatten(moves);
      GroupFlatten(moves[1..]);
      assert vs[4..] == Flatten(moves[1..]);
      GroupMovesCons(vs);
      var m := moves[0];
      assert m == Move(m.player, m.x, m.y, Num(m.dir.n));
      assert moves == [m] + moves[1..];
    }
  }

  /** A transcript for a board size and a list of moves with numeric directions. */
  function Encode(sizeX: int, sizeY: int, moves: seq<Move>): string
    requires forall k :: 0 <= k < |moves| ==> moves[k].dir.Num?
  {
    EncodeValues([sizeX, sizeY] + Flatten(moves))
  }

  /** Decoding a written transcript of a valid board size gives back the
      size and the moves, whatever their contents. */
  lemma DecodeEncode(sizeX: int, sizeY: int, moves: seq<Move>)
    requires sizeX > 0 && sizeY > 0
    requires forall k :: 0 <= k < |moves| ==> moves[k].dir.Num?
    ensures Decode(Str(Encode(sizeX, sizeY, moves))) == Ok(Transcript(sizeX, sizeY, moves))
  {
    var vs := [sizeX, sizeY] + Flatten(moves);
    var text := Encode(sizeX, sizeY, moves);
    ValuesOfEncoding(vs);
    assert text != [] by {
      JoinStartsWith(Render(vs), ',');
    }
    assert Decode(Str(text)) == DecodeValues(vs);
    GroupFlatten(moves);
    assert vs[2..] == Flatten(moves);
    assert |vs| - 2 == 4 * |moves|;
    assert (|vs| - 2) % 4 == 0 by {
      MultipleOfFour(|moves|);
    }
    DecodeValuesGroups(vs);
  }

  /** Values that pass the size and length checks decode to their groups. */
  lemma DecodeValuesGroups(vs: seq<int>)
    requires |vs| >= 2 && vs[0] > 0 && vs[1] > 0 && (|vs| - 2) % 4 == 0
    ensures DecodeValues(vs) == Ok(Transcript(vs[0], vs[1], GroupMoves(vs[2..])))
  {
  }

  lemma MultipleOfFour(n: nat)
    ensures (4 * n) % 4 == 0
  {
  }

  /** A join is at least as long as its first piece. */
  lemma JoinStartsWith(pieces: seq<string>, sep: char)
    requires |pieces| >= 1
    ensures |Join(pieces, sep)| >= |pieces[0]|
  {
  }

  /** Player 0 draws the top line of a 1 x 1 board, then player 1 draws it again. */
  function RepeatedClaimMoves(): seq<Move> {
    [Move(0, 0, 0, Num(0)), Move(1, 0, 0, Num(0))]
  }

  /** Both moves address the top line of a 1 x 1 board. */
  lemma RepeatedClaimInRange()
    ensures MovesInRange(1, 1, RepeatedClaimMoves())
  {
    var moves := RepeatedClaimMoves();
    assert NormalizeDirection(Num(0)) == Ok(H);
    assert MovesInRange(1, 1, moves[1..][1..]);
    assert MovesInRange(1, 1, moves[1..]);
  }

  /** Folding the two moves from an empty 1 x 1 board: the first draws the
      line, the second finds it owned and repeats the frame. */
  lemma RepeatedClaimFrames()
    ensures MovesInRange(1, 1, RepeatedClaimMoves())
    ensures var f := Frames(CreateEmptyBoard(1, 1), RepeatedClaimMoves());
      && f.Ok? && |f.value| == 3
      && f.value[2] == f.value[1]
      && f.value[1] != f.value[0]
  {
    var moves := RepeatedClaimMoves();
    var start := CreateEmptyBoard(1, 1);
    RepeatedClaimInRange();
    assert NormalizeDirection(Num(0)) == Ok(H);
    var f := Frames(start, moves);
    assert f.Ok?;
    FramesStep(start, moves);
    var frames := f.value;
    assert LineAt(frames[1], H, 0, 0) == 0;
    assert frames[1].horizontal[0][0] != frames[0].horizontal[0][0];
  }

  /** The written transcript of `RepeatedClaimMoves` on a 1 x 1 board decodes
      to exactly that board size and those moves. */
  lemma RepeatedClaimTranscript()
    ensures Decode(Str(Encode(1, 1, RepeatedClaimMoves()))) == Ok(Transcript(1, 1, RepeatedClaimMoves()))
  {
    DecodeEncode(1, 1, RepeatedClaimMoves());
  }

  /** Any transcript that decodes to `RepeatedClaimMoves` on a 1 x 1 board,
      such as the written one of `RepeatedClaimTranscript`: player 1 claims
      the top line player 0 has just claimed. It replays without an
      error, and the third frame repeats the second, which differs from the
      empty first one. */
  lemma RepeatedClaimExample(input: Value)
    requires Decode(input) == Ok(Transcript(1, 1, RepeatedClaimMoves()))
    ensures ReplayInRange(input)
    ensures ParseReplay(input).Ok?
    ensures |ParseReplay(input).value.frames| == 3
    ensures ParseReplay(input).value.frames[2] == ParseReplay(input).value.frames[1]
    ensures ParseReplay(input).value.frames[1] != ParseReplay(input).value.frames[0]
  {
    RepeatedClaimFrames();
  }
}
