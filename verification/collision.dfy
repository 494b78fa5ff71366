/** The collision rule `isValidPosition`: may a shape stand at a position? */
module Collision {
  import opened Grid

  /** A cell is free when it lies on the board and holds no block. */
  predicate Free(b: seq<seq<int>>, x: int, y: int) {
    0 <= x < Width && 0 <= y < Height && Lookup(b, x, y) == 0
  }

  /** The inner `row.every(...)`: every occupied cell of `row`, from column c
      on, lands on a free cell when the row's left edge is at x0 on board row y.
      Empty cells of the shape are not looked at. */
  function RowFits(b: seq<seq<int>>, row: seq<int>, x0: int, y: int, c: nat): (ok: bool)
    requires c <= |row|
    ensures ok <==> forall j :: c <= j < |row| && row[j] != 0 ==> Free(b, x0 + j, y)
    decreases |row| - c
  {
    c == |row| || ((row[c] == 0 || Free(b, x0 + c, y)) && RowFits(b, row, x0, y, c + 1))
  }

  /** The outer `piece.every(...)`, from shape row r on. */
  function RowsFit(b: seq<seq<int>>, s: seq<seq<int>>, p: Pos, r: nat): (ok: bool)
    requires r <= |s|
    ensures ok <==> forall i, j :: r <= i && Block(s, i, j) ==> Free(b, p.x + j, p.y + i)
    decreases |s| - r
  {
    if r == |s| then true
    else
      var here := RowFits(b, s[r], p.x, p.y + r, 0);
      var rest := RowsFit(b, s, p, r + 1);
      assert here <==> forall j :: Block(s, r, j) ==> Free(b, p.x + j, p.y + r) by {
        if forall j :: Block(s, r, j) ==> Free(b, p.x + j, p.y + r) {
          forall j | 0 <= j < |s[r]| && s[r][j] != 0
            ensures Free(b, p.x + j, p.y + r)
          {
            assert Block(s, r, j);
          }
        }
      }
      here && rest
  }

  /** `isValidPosition(piece, pos)` against board b: every occupied cell of
      the shape maps to a free cell of the board. */
  function IsValidPosition(b: seq<seq<int>>, s: seq<seq<int>>, p: Pos): (ok: bool)
    ensures ok <==> forall i, j :: Block(s, i, j) ==> Free(b, p.x + j, p.y + i)
  {
    RowsFit(b, s, p, 0)
  }

  /** Every occupied cell of the shape lies on the board (its cells may be
      taken). This is what writing the shape into the board needs. */
  ghost predicate InBounds(s: seq<seq<int>>, p: Pos) {
    forall i, j :: Block(s, i, j) ==> 0 <= p.x + j < Width && 0 <= p.y + i < Height
  }

  /** On a well-formed board the rule reads: every occupied shape cell (i, j)
      lands at column p.x + j in [0, Width) and row p.y + i in [0, Height), on
      a board cell that holds 0. Empty shape cells impose nothing. */
  lemma ValidIff(b: seq<seq<int>>, s: seq<seq<int>>, p: Pos)
    requires WellFormed(b)
    ensures IsValidPosition(b, s, p) <==>
      forall i, j :: Block(s, i, j) ==>
        0 <= p.x + j < Width && 0 <= p.y + i < Height && b[p.y + i][p.x + j] == 0
  {
  }

  /** A valid position keeps every block on the board. */
  lemma ValidInBounds(b: seq<seq<int>>, s: seq<seq<int>>, p: Pos)
    requires IsValidPosition(b, s, p)
    ensures InBounds(s, p)
  {
  }

  /** A shape with a block can only be valid above the floor: its top row is
      on the board. This bounds the hard drop. */
  lemma ValidAboveFloor(b: seq<seq<int>>, s: seq<seq<int>>, p: Pos)
    requires HasBlock(s) && IsValidPosition(b, s, p)
    ensures p.y < Height
  {
    var i, j :| Block(s, i, j);
    assert Free(b, p.x + j, p.y + i);
  }
}
