/** The shape catalogue and the clockwise rotation. */
module Shapes {
  import opened Grid

  /** The seven tetrominoes, in catalogue order: I, O, T, S, Z, L, J. */
  const Pieces: seq<seq<seq<int>>> := [
    [[1, 1, 1, 1]],
    [[1, 1], [1, 1]],
    [[0, 1, 0], [1, 1, 1]],
    [[1, 1, 0], [0, 1, 1]],
    [[0, 1, 1], [1, 1, 0]],
    [[1, 0, 0], [1, 1, 1]],
    [[0, 0, 1], [1, 1, 1]]
  ]

  /** An index into the catalogue, standing in for the random draw. */
  type PieceIndex = i: int | 0 <= i < 7

  /** Every catalogue entry is a rectangular 0/1 matrix with a block, at most
      two rows high and four columns wide. */
  lemma CatalogueShapes(k: PieceIndex)
    ensures IsShape(Pieces[k]) && HasBlock(Pieces[k])
    ensures |Pieces[k]| <= 2 && |Pieces[k][0]| <= 4
    ensures forall i, j :: 0 <= i < |Pieces[k]| && 0 <= j < |Pieces[k][i]| ==>
      Pieces[k][i][j] == 0 || Pieces[k][i][j] == 1
  {
    var s := Pieces[k];
    assert Block(s, |s| - 1, 1);
  }

  /** The sequence read back to front (`Array.prototype.reverse`). */
  function Reverse(xs: seq<int>): (r: seq<int>)
    ensures |r| == |xs|
    ensures forall k :: 0 <= k < |xs| ==> r[k] == xs[|xs| - 1 - k]
  {
    if |xs| == 0 then [] else Reverse(xs[1..]) + [xs[0]]
  }

  /** Column c of a rectangular matrix, top to bottom (`s.map(row => row[c])`). */
  function Column(s: seq<seq<int>>, c: int): (col: seq<int>)
    requires IsShape(s) && 0 <= c < |s[0]|
    ensures |col| == |s|
    ensures forall r :: 0 <= r < |s| ==> col[r] == s[r][c]
  {
    seq(|s|, r requires 0 <= r < |s| => s[r][c])
  }

  /** Clockwise rotation: row i of the result is column i of the shape,
      reversed. An R x C shape becomes a C x R shape whose cell (i, j) is the
      shape's cell (R - 1 - j, i). */
  function Rotate(s: seq<seq<int>>): (t: seq<seq<int>>)
    requires IsShape(s)
    ensures IsShape(t)
    ensures |t| == |s[0]| && |t[0]| == |s|
    ensures forall i, j :: 0 <= i < |t| && 0 <= j < |s| ==> t[i][j] == s[|s| - 1 - j][i]
  {
    seq(|s[0]|, i requires 0 <= i < |s[0]| => Reverse(Column(s, i)))
  }

  /** Rotation keeps the blocks: a shape with a block rotates into one. */
  lemma RotateKeepsBlock(s: seq<seq<int>>)
    requires IsShape(s) && HasBlock(s)
    ensures HasBlock(Rotate(s))
  {
    var i, j :| Block(s, i, j);
    var t := Rotate(s);
    assert t[j][|s| - 1 - i] == s[i][j];
    assert Block(t, j, |s| - 1 - i);
  }

  /** u is s turned half way round: same dimensions, and cell (i, j) of u
      is cell (R - 1 - i, C - 1 - j) of s. */
  ghost predicate HalfTurn(u: seq<seq<int>>, s: seq<seq<int>>)
    requires IsShape(s)
  {
    && IsShape(u) && |u| == |s| && |u[0]| == |s[0]|
    && forall i, j :: 0 <= i < |s| && 0 <= j < |s[0]| ==> u[i][j] == s[|s| - 1 - i][|s[0]| - 1 - j]
  }

  /** Two half turns give back the original matrix. */
  lemma HalfTurnTwice(w: seq<seq<int>>, u: seq<seq<int>>, s: seq<seq<int>>)
    requires IsShape(s) && HalfTurn(u, s) && HalfTurn(w, u)
    ensures w == s
  {
    forall i | 0 <= i < |s|
      ensures w[i] == s[i]
    {
      forall j | 0 <= j < |s[0]|
        ensures w[i][j] == s[i][j]
      {
        assert w[i][j] == u[|s| - 1 - i][|s[0]| - 1 - j];
      }
    }
  }

  /** Two clockwise rotations turn the shape half way round. */
  lemma RotateTwice(s: seq<seq<int>>)
    requires IsShape(s)
    ensures HalfTurn(Rotate(Rotate(s)), s)
  {
    var t1 := Rotate(s);
    var t2 := Rotate(t1);
    forall i, j | 0 <= i < |s| && 0 <= j < |s[0]|
      ensures t2[i][j] == s[|s| - 1 - i][|s[0]| - 1 - j]
    {
      assert t2[i][j] == t1[|s[0]| - 1 - j][i];
    }
  }

  /** Four clockwise rotations give back the original shape. */
  lemma RotateFour(s: seq<seq<int>>)
    requires IsShape(s)
    ensures Rotate(Rotate(Rotate(Rotate(s)))) == s
  {
    var u := Rotate(Rotate(s));
    RotateTwice(s);
    RotateTwice(u);
    HalfTurnTwice(Rotate(Rotate(u)), u, s);
  }
}
