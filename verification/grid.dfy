/** The playing field: its fixed dimensions, board and shape matrices, and
    positions. Cells are integers; 0 is empty and every other value is occupied. */
module Grid {

  /** Number of columns (`boardWidth`). */
  const Width: nat := 10

  /** Number of rows (`boardHeight`); row 0 is the top. */
  const Height: nat := 20

  /** Board coordinates of a shape's top-left corner. */
  datatype Pos = Pos(x: int, y: int) {
    /** The same column, one row lower. */
    function Below(): Pos {
      Pos(x, y + 1)
    }
  }

  /** A board has Height rows of Width cells each. */
  predicate WellFormed(b: seq<seq<int>>) {
    |b| == Height && forall y :: 0 <= y < |b| ==> |b[y]| == Width
  }

  /** A shape is a non-empty rectangular matrix: at least one row, and every
      row as long as the first, which is itself non-empty. */
  predicate IsShape(s: seq<seq<int>>) {
    |s| > 0 && |s[0]| > 0 && forall r :: 0 <= r < |s| ==> |s[r]| == |s[0]|
  }

  /** (i, j) is an occupied cell of matrix s. */
  predicate Block(s: seq<seq<int>>, i: int, j: int) {
    0 <= i < |s| && 0 <= j < |s[i]| && s[i][j] != 0
  }

  /** The shape occupies at least one cell. */
  ghost predicate HasBlock(s: seq<seq<int>>) {
    exists i, j :: Block(s, i, j)
  }

  /** Reading `board[y]?.[x]`: a read outside the stored rows or columns
      yields no value, which counts as empty. */
  function Lookup(b: seq<seq<int>>, x: int, y: int): (v: int)
    ensures WellFormed(b) && 0 <= x < Width && 0 <= y < Height ==> v == b[y][x]
  {
    if 0 <= y < |b| && 0 <= x < |b[y]| then b[y][x] else 0
  }

  /** A row of Width empty cells. */
  function EmptyRow(): seq<int> {
    seq(Width, _ => 0)
  }

  /** k empty rows. */
  function Blank(k: nat): (rows: seq<seq<int>>)
    ensures |rows| == k
    ensures forall y :: 0 <= y < k ==> rows[y] == EmptyRow()
  {
    seq(k, _ => EmptyRow())
  }

  /** The board `resetGame` creates: Height empty rows. */
  function EmptyBoard(): (b: seq<seq<int>>)
    ensures WellFormed(b)
    ensures forall y, x :: 0 <= y < Height && 0 <= x < Width ==> b[y][x] == 0
  {
    Blank(Height)
  }
}
