/** The game controller: the session state, the commands the keyboard and the
    buttons issue, the gravity tick, spawning and reset. */
module Tetris {
  import opened Grid
  import opened Collision
  import opened Shapes
  import opened BoardOps

  /** The falling piece: its current orientation and the board position of its
      top-left corner. */
  datatype Piece = Piece(shape: seq<seq<int>>, pos: Pos)

  /** The session: locked cells, the falling piece, and the two flags. */
  datatype Game = Game(board: seq<seq<int>>, piece: Piece, paused: bool, gameOver: bool)

  /** Where every new piece appears. */
  const SpawnPos: Pos := Pos(3, 0)

  /** The piece stands at a valid position on the session's board. */
  predicate Placed(g: Game) {
    IsValidPosition(g.board, g.piece.shape, g.piece.pos)
  }

  /** What every reachable session satisfies: a Width x Height board, a
      rectangular falling shape with at least one block, and, unless the game
      is over, a falling piece at a valid position. */
  ghost predicate Inv(g: Game) {
    && WellFormed(g.board)
    && IsShape(g.piece.shape) && HasBlock(g.piece.shape)
    && (g.gameOver || Placed(g))
  }

  // ---------------------------------------------------------------------
  // Spawning and reset

  /** `spawnPiece`, with the random draw replaced by the index k: catalogue
      piece k at (3, 0). The game ends when that spot is not valid; the flag
      is only ever set here, never cleared, and the board is not touched. */
  function Spawn(g: Game, k: PieceIndex): (r: Game)
    ensures r.board == g.board && r.paused == g.paused
    ensures r.piece == Piece(Pieces[k], SpawnPos)
    ensures r.gameOver <==> g.gameOver || !Placed(r)
    ensures WellFormed(g.board) ==> Inv(r)
  {
    CatalogueShapes(k);
    var p := Piece(Pieces[k], SpawnPos);
    g.(piece := p, gameOver := g.gameOver || !IsValidPosition(g.board, p.shape, p.pos))
  }

  /** Every catalogue piece fits at the spawn position of an empty board. */
  lemma SpawnFitsEmpty(k: PieceIndex)
    ensures IsValidPosition(EmptyBoard(), Pieces[k], SpawnPos)
  {
    CatalogueShapes(k);
    var s := Pieces[k];
    forall i, j | Block(s, i, j)
      ensures Free(EmptyBoard(), SpawnPos.x + j, SpawnPos.y + i)
    {
      assert |s[i]| == |s[0]|;
    }
  }

  /** A spawn onto a board whose every cell is taken ends the game and leaves
      the board as it was. */
  lemma SpawnOnFullBoard(g: Game, k: PieceIndex)
    requires WellFormed(g.board)
    requires forall y, x :: 0 <= y < Height && 0 <= x < Width ==> g.board[y][x] != 0
    ensures Spawn(g, k).gameOver && Spawn(g, k).board == g.board
  {
    CatalogueShapes(k);
    var s := Pieces[k];
    var i, j :| Block(s, i, j);
    assert !Free(g.board, SpawnPos.x + j, SpawnPos.y + i);
  }

  /** The state part of `resetGame`: an empty board, the game-over flag
      cleared, and a fresh piece spawned. The pause flag is left as it was.
      A reset session is never over, since every piece fits on an empty
      board. */
  function Reset(paused: bool, k: PieceIndex): (r: Game)
    ensures Inv(r) && !r.gameOver && r.paused == paused
    ensures r.board == EmptyBoard()
    ensures forall y, x :: 0 <= y < Height && 0 <= x < Width ==> r.board[y][x] == 0
    ensures r.piece == Piece(Pieces[k], SpawnPos)
  {
    SpawnFitsEmpty(k);
    Spawn(Game(EmptyBoard(), Piece(Pieces[k], SpawnPos), paused, false), k)
  }

  /** The session the page starts with: the flags start cleared and
      `resetGame` runs once, leaving an empty board and piece k at (3, 0). */
  function Start(k: PieceIndex): (r: Game)
    ensures Inv(r) && !r.paused && !r.gameOver && Placed(r)
    ensures r.board == EmptyBoard() && r.piece == Piece(Pieces[k], SpawnPos)
  {
    Reset(false, k)
  }

  // ---------------------------------------------------------------------
  // Commands

  /** The three translations a key or button asks for. */
  datatype Direction = Left | Right | Down

  /** The position one step from p in direction d. */
  function Step(p: Pos, d: Direction): (q: Pos)
    ensures q != p
  {
    match d
    case Left => Pos(p.x - 1, p.y)
    case Right => Pos(p.x + 1, p.y)
    case Down => Pos(p.x, p.y + 1)
  }

  /** The move handlers ('a'/'d'/'s' and the left/right/down buttons): the
      piece moves one step iff the moved position is valid, otherwise nothing
      changes. The board, the shape and the flags are never touched, and a
      valid position stays valid. The handlers do not look at the flags. */
  function Move(g: Game, d: Direction): (r: Game)
    ensures r.board == g.board && r.paused == g.paused && r.gameOver == g.gameOver
    ensures r.piece.shape == g.piece.shape
    ensures r.piece.pos == Step(g.piece.pos, d) <==> IsValidPosition(g.board, g.piece.shape, Step(g.piece.pos, d))
    ensures r.piece.pos == g.piece.pos <==> !IsValidPosition(g.board, g.piece.shape, Step(g.piece.pos, d))
    ensures Placed(g) ==> Placed(r)
  {
    var q := Step(g.piece.pos, d);
    if IsValidPosition(g.board, g.piece.shape, q) then g.(piece := g.piece.(pos := q)) else g
  }

  /** From a valid position, a move left that was taken is undone by a move
      right. */
  lemma MoveLeftRight(g: Game)
    requires Placed(g) && Move(g, Left) != g
    ensures Move(Move(g, Left), Right) == g
  {
  }

  /** On an empty board a position is valid exactly when the shape lies on
      the board. */
  lemma EmptyBoardValid(s: seq<seq<int>>, p: Pos)
    ensures IsValidPosition(EmptyBoard(), s, p) <==> InBounds(s, p)
  {
  }

  /** Where the O piece fits on the top rows of an empty board. */
  lemma OPieceOnTop(x: int)
    ensures IsValidPosition(EmptyBoard(), Pieces[1], Pos(x, 0)) <==> 0 <= x <= Width - 2
  {
    var o := Pieces[1];
    EmptyBoardValid(o, Pos(x, 0));
    assert Block(o, 0, 0) && Block(o, 0, 1);
  }

  /** The O piece spawned on an empty board reaches the left wall after three
      moves left (x goes 3, 2, 1, 0); a fourth move left changes nothing. */
  lemma OPieceToLeftWall()
    ensures Move(Move(Move(Start(1), Left), Left), Left).piece.pos == Pos(0, 0)
    ensures Move(Move(Move(Move(Start(1), Left), Left), Left), Left) == Move(Move(Move(Start(1), Left), Left), Left)
  {
    var o := Pieces[1];
    var g0 := Start(1);
    assert g0.board == EmptyBoard() && g0.piece == Piece(o, Pos(3, 0));
    OPieceOnTop(2);
    var g1 := Move(g0, Left);
    assert g1.board == EmptyBoard() && g1.piece == Piece(o, Pos(2, 0));
    OPieceOnTop(1);
    var g2 := Move(g1, Left);
    assert g2.board == EmptyBoard() && g2.piece == Piece(o, Pos(1, 0));
    OPieceOnTop(0);
    var g3 := Move(g2, Left);
    assert g3.board == EmptyBoard() && g3.piece == Piece(o, Pos(0, 0));
    OPieceOnTop(-1);
    assert Move(g3, Left) == g3;
  }

  /** The rotate handlers ('w' and the rotate button): the shape turns
      clockwise when the turned shape is valid at the current position, and
      otherwise nothing changes. Position, board and flags never change. */
  function RotatePiece(g: Game): (r: Game)
    requires IsShape(g.piece.shape)
    ensures r.board == g.board && r.paused == g.paused && r.gameOver == g.gameOver
    ensures r.piece.pos == g.piece.pos
    ensures IsShape(r.piece.shape)
    ensures IsValidPosition(g.board, Rotate(g.piece.shape), g.piece.pos) ==> r.piece.shape == Rotate(g.piece.shape)
    ensures !IsValidPosition(g.board, Rotate(g.piece.shape), g.piece.pos) ==> r == g
    ensures Placed(g) ==> Placed(r)
  {
    var t := Rotate(g.piece.shape);
    if IsValidPosition(g.board, t, g.piece.pos) then g.(piece := g.piece.(shape := t)) else g
  }

  /** From a valid position, when the first three turns are accepted the
      fourth is too, and the four bring the piece back to where it started. */
  lemma RotateFourTimes(g: Game)
    requires IsShape(g.piece.shape) && Placed(g)
    requires IsValidPosition(g.board, Rotate(g.piece.shape), g.piece.pos)
    requires IsValidPosition(g.board, Rotate(Rotate(g.piece.shape)), g.piece.pos)
    requires IsValidPosition(g.board, Rotate(Rotate(Rotate(g.piece.shape))), g.piece.pos)
    ensures RotatePiece(RotatePiece(RotatePiece(RotatePiece(g)))) == g
  {
    var s := g.piece.shape;
    var g1 := RotatePiece(g);
    assert g1 == g.(piece := g.piece.(shape := Rotate(s)));
    var g2 := RotatePiece(g1);
    assert g2 == g.(piece := g.piece.(shape := Rotate(Rotate(s))));
    var g3 := RotatePiece(g2);
    assert g3 == g.(piece := g.piece.(shape := Rotate(Rotate(Rotate(s)))));
    RotateFour(s);
    assert RotatePiece(g3) == g.(piece := g.piece.(shape := s));
  }

  /** The loop of `dash`: from p, go down one row at a time while the next
      row down is valid. Every row passed is valid, the column is kept, and
      the end row is one from which the shape cannot go lower. */
  function Fall(b: seq<seq<int>>, s: seq<seq<int>>, p: Pos): (r: Pos)
    requires HasBlock(s)
    ensures r.x == p.x && r.y >= p.y
    ensures !IsValidPosition(b, s, r.Below())
    ensures forall y :: p.y < y <= r.y ==> IsValidPosition(b, s, Pos(p.x, y))
    ensures IsValidPosition(b, s, p) ==> IsValidPosition(b, s, r)
    decreases Height - p.y
  {
    if IsValidPosition(b, s, p.Below()) then
      ValidAboveFloor(b, s, p.Below());
      Fall(b, s, p.Below())
    else p
  }

  /** `dash`, the hard drop: the piece falls as far as it can. It is not
      locked; the next tick does that. */
  function Dash(g: Game): (r: Game)
    requires HasBlock(g.piece.shape)
    ensures r.board == g.board && r.paused == g.paused && r.gameOver == g.gameOver
    ensures r.piece.shape == g.piece.shape
    ensures r.piece.pos.x == g.piece.pos.x && r.piece.pos.y >= g.piece.pos.y
    ensures !IsValidPosition(r.board, r.piece.shape, r.piece.pos.Below())
    ensures forall y :: g.piece.pos.y < y <= r.piece.pos.y ==>
      IsValidPosition(g.board, g.piece.shape, Pos(g.piece.pos.x, y))
    ensures Placed(g) ==> Placed(r)
  {
    g.(piece := g.piece.(pos := Fall(g.board, g.piece.shape, g.piece.pos)))
  }

  /** Dropping again after a hard drop changes nothing. */
  lemma DashIdempotent(g: Game)
    requires HasBlock(g.piece.shape)
    ensures Dash(Dash(g)) == Dash(g)
  {
  }

  /** The pause button: flips the flag and nothing else. */
  function TogglePause(g: Game): (r: Game)
    ensures r.paused != g.paused
    ensures r.(paused := g.paused) == g
  {
    g.(paused := !g.paused)
  }

  // ---------------------------------------------------------------------
  // The gravity tick

  /** `update`, with the next random draw given as k. Nothing happens while
      paused or over. Otherwise the piece moves down one row when it can;
      when it cannot, it is merged at its current row, full rows are
      cleared, and piece k spawns at (3, 0), ending the game iff that spot
      is not valid on the cleared board. */
  function Update(g: Game, k: PieceIndex): (r: Game)
    requires Inv(g)
    ensures Inv(r)
    ensures g.paused || g.gameOver ==> r == g
    ensures !g.paused && !g.gameOver && Placed(g.(piece := g.piece.(pos := g.piece.pos.Below()))) ==>
      r == g.(piece := g.piece.(pos := g.piece.pos.Below()))
    ensures !g.paused && !g.gameOver && !Placed(g.(piece := g.piece.(pos := g.piece.pos.Below()))) ==>
      && InBounds(g.piece.shape, g.piece.pos)
      && r.board == RemoveLines(MergePiece(g.board, g.piece.shape, g.piece.pos))
      && r.piece == Piece(Pieces[k], SpawnPos)
      && r.paused == g.paused
      && (r.gameOver <==> !Placed(r))
  {
    if g.paused || g.gameOver then g
    else
      var down := g.piece.pos.Below();
      if IsValidPosition(g.board, g.piece.shape, down) then
        g.(piece := g.piece.(pos := down))
      else
        ValidInBounds(g.board, g.piece.shape, g.piece.pos);
        var cleared := RemoveLines(MergePiece(g.board, g.piece.shape, g.piece.pos));
        Spawn(g.(board := cleared), k)
  }

  // ---------------------------------------------------------------------
  // The session as a state machine

  /** Everything the host can do to a session: a key or button command, a
      timer tick, or the restart button; the random draws are explicit. */
  datatype Command =
    | Shift(dir: Direction)
    | Spin
    | HardDrop
    | PauseToggle
    | Tick(next: PieceIndex)
    | Restart(next: PieceIndex)

  /** One command applied to a session. Every command keeps the session
      invariant, and only the tick and the restart touch the board. */
  function Apply(g: Game, c: Command): (r: Game)
    requires Inv(g)
    ensures Inv(r)
    ensures !c.Tick? && !c.Restart? ==> r.board == g.board && r.gameOver == g.gameOver
  {
    match c
    case Shift(d) => Move(g, d)
    case Spin =>
      RotateKeepsBlock(g.piece.shape);
      RotatePiece(g)
    case HardDrop => Dash(g)
    case PauseToggle => TogglePause(g)
    case Tick(k) => Update(g, k)
    case Restart(k) => Reset(g.paused, k)
  }

  /** A run of commands from a started session. */
  function Run(g: Game, cs: seq<Command>): (r: Game)
    requires Inv(g)
    ensures Inv(r)
    decreases |cs|
  {
    if |cs| == 0 then g else Run(Apply(g, cs[0]), cs[1..])
  }
}
