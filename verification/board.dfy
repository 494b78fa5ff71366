/** Board updates: writing a locked piece in (`mergePiece`) and clearing full
    rows (`removeLines`). */
module BoardOps {
  import opened Grid
  import opened Collision

  // ---------------------------------------------------------------------
  // mergePiece

  /** Cell (x, y) of the board lies under an occupied cell of shape s placed
      at p. */
  predicate Covers(s: seq<seq<int>>, p: Pos, x: int, y: int) {
    Block(s, y - p.y, x - p.x)
  }

  /** One assignment `board[y][x] = v`. */
  function Write(b: seq<seq<int>>, x: int, y: int, v: int): (r: seq<seq<int>>)
    requires WellFormed(b) && 0 <= x < Width && 0 <= y < Height
    ensures WellFormed(r)
    ensures forall yy, xx :: 0 <= yy < Height && 0 <= xx < Width ==>
      r[yy][xx] == if yy == y && xx == x then v else b[yy][xx]
  {
    b[y := b[y][x := v]]
  }

  /** The inner `row.forEach`: writes the occupied cells of `row`, from
      column c on, into board row y with the row's left edge at x0. */
  function MergeRow(b: seq<seq<int>>, row: seq<int>, x0: int, y: int, c: nat): (r: seq<seq<int>>)
    requires WellFormed(b) && c <= |row|
    requires forall j :: c <= j < |row| && row[j] != 0 ==> 0 <= x0 + j < Width && 0 <= y < Height
    ensures WellFormed(r)
    ensures forall yy, xx :: 0 <= yy < Height && 0 <= xx < Width ==>
      r[yy][xx] == if yy == y && x0 + c <= xx < x0 + |row| && row[xx - x0] != 0
                   then row[xx - x0] else b[yy][xx]
    decreases |row| - c
  {
    if c == |row| then b
    else
      var b' := if row[c] != 0 then Write(b, x0 + c, y, row[c]) else b;
      MergeRow(b', row, x0, y, c + 1)
  }

  /** The outer `piece.forEach`, from shape row i on. */
  function MergeRows(b: seq<seq<int>>, s: seq<seq<int>>, p: Pos, i: nat): (r: seq<seq<int>>)
    requires WellFormed(b) && i <= |s| && InBounds(s, p)
    ensures WellFormed(r)
    ensures forall yy, xx :: 0 <= yy < Height && 0 <= xx < Width ==>
      r[yy][xx] == if yy - p.y >= i && Covers(s, p, xx, yy)
                   then s[yy - p.y][xx - p.x] else b[yy][xx]
    decreases |s| - i
  {
    if i == |s| then b
    else
      assert forall j :: 0 <= j < |s[i]| && s[i][j] != 0 ==>
        0 <= p.x + j < Width && 0 <= p.y + i < Height by {
        forall j | 0 <= j < |s[i]| && s[i][j] != 0
          ensures 0 <= p.x + j < Width && 0 <= p.y + i < Height
        {
          assert Block(s, i, j);
        }
      }
      MergeRows(MergeRow(b, s[i], p.x, p.y + i, 0), s, p, i + 1)
  }

  /** `mergePiece`: every board cell under an occupied cell of the shape at p
      takes that shape cell's value; every other cell, and the board's
      dimensions, stay as they were. */
  function MergePiece(b: seq<seq<int>>, s: seq<seq<int>>, p: Pos): (r: seq<seq<int>>)
    requires WellFormed(b) && InBounds(s, p)
    ensures WellFormed(r)
    ensures forall y, x :: 0 <= y < Height && 0 <= x < Width ==>
      r[y][x] == if Covers(s, p, x, y) then s[y - p.y][x - p.x] else b[y][x]
  {
    MergeRows(b, s, p, 0)
  }

  /** After a merge at a valid position the piece's cells are taken, so the
      same shape can no longer stand there. */
  lemma MergeBlocksPosition(b: seq<seq<int>>, s: seq<seq<int>>, p: Pos)
    requires WellFormed(b) && HasBlock(s) && IsValidPosition(b, s, p)
    ensures InBounds(s, p)
    ensures !IsValidPosition(MergePiece(b, s, p), s, p)
  {
    var i, j :| Block(s, i, j);
    assert Free(b, p.x + j, p.y + i);
    var m := MergePiece(b, s, p);
    assert Covers(s, p, p.x + j, p.y + i);
    assert m[p.y + i][p.x + j] == s[i][j];
    assert !Free(m, p.x + j, p.y + i);
  }

  // ---------------------------------------------------------------------
  // removeLines

  /** `row.every(value => value)`: no cell of the row is empty. */
  predicate Full(row: seq<int>) {
    forall k :: 0 <= k < |row| ==> row[k] != 0
  }

  /** Number of full rows. */
  function CountFull(rows: seq<seq<int>>): nat {
    if |rows| == 0 then 0
    else (if Full(rows[0]) then 1 else 0) + CountFull(rows[1..])
  }

  /** The rows that are not full, in their original order. */
  function Kept(rows: seq<seq<int>>): seq<seq<int>> {
    if |rows| == 0 then []
    else (if Full(rows[0]) then [] else [rows[0]]) + Kept(rows[1..])
  }

  /** The `reduce` of `removeLines`: walks the rows top to bottom; a full row
      is dropped and an empty row is put at the front of the accumulator
      (`unshift`), any other row goes to its back (`push`). */
  function Sweep(rows: seq<seq<int>>, acc: seq<seq<int>>): seq<seq<int>>
    decreases |rows|
  {
    if |rows| == 0 then acc
    else
      var acc' := if Full(rows[0]) then [EmptyRow()] + acc else acc + [rows[0]];
      Sweep(rows[1..], acc')
  }

  /** One more empty row on top of j empty rows. */
  lemma BlankCons(j: nat)
    ensures [EmptyRow()] + Blank(j) == Blank(j + 1)
  {
  }

  /** An accumulator of j empty rows followed by kept rows stays of that form:
      the sweep adds one empty row per full row and appends the others. */
  lemma {:induction false} SweepSplits(rows: seq<seq<int>>, j: nat, kept: seq<seq<int>>)
    ensures Sweep(rows, Blank(j) + kept) == Blank(j + CountFull(rows)) + kept + Kept(rows)
    decreases |rows|
  {
    var acc := Blank(j) + kept;
    if |rows| == 0 {
      assert Kept(rows) == [];
      assert acc + [] == acc;
    } else if Full(rows[0]) {
      calc {
        Sweep(rows, acc);
        Sweep(rows[1..], [EmptyRow()] + acc);
        { BlankCons(j);
          assert [EmptyRow()] + acc == Blank(j + 1) + kept; }
        Sweep(rows[1..], Blank(j + 1) + kept);
        { SweepSplits(rows[1..], j + 1, kept); }
        Blank(j + 1 + CountFull(rows[1..])) + kept + Kept(rows[1..]);
        { assert CountFull(rows) == 1 + CountFull(rows[1..]);
          assert Kept(rows) == [] + Kept(rows[1..]) == Kept(rows[1..]); }
        Blank(j + CountFull(rows)) + kept + Kept(rows);
      }
    } else {
      var kept' := kept + [rows[0]];
      calc {
        Sweep(rows, acc);
        Sweep(rows[1..], acc + [rows[0]]);
        { assert acc + [rows[0]] == Blank(j) + kept'; }
        Sweep(rows[1..], Blank(j) + kept');
        { SweepSplits(rows[1..], j, kept'); }
        Blank(j + CountFull(rows[1..])) + kept' + Kept(rows[1..]);
        { assert CountFull(rows) == CountFull(rows[1..]);
          assert Kept(rows) == [rows[0]] + Kept(rows[1..]);
          assert kept' + Kept(rows[1..]) == kept + Kept(rows); }
        Blank(j + CountFull(rows)) + kept + Kept(rows);
      }
    }
  }

  /** Full rows and kept rows together account for every row. */
  lemma {:induction false} CountKept(rows: seq<seq<int>>)
    ensures CountFull(rows) + |Kept(rows)| == |rows|
    ensures forall k :: 0 <= k < |Kept(rows)| ==> Kept(rows)[k] in rows && !Full(Kept(rows)[k])
    decreases |rows|
  {
    if |rows| > 0 {
      CountKept(rows[1..]);
      var head := if Full(rows[0]) then [] else [rows[0]];
      forall k | 0 <= k < |Kept(rows)|
        ensures Kept(rows)[k] in rows && !Full(Kept(rows)[k])
      {
        if k >= |head| {
          assert Kept(rows)[k] == Kept(rows[1..])[k - |head|];
          assert Kept(rows[1..])[k - |head|] in rows[1..];
        }
      }
    }
  }

  /** No row of the board is full. */
  ghost predicate NoFullRow(b: seq<seq<int>>) {
    forall y :: 0 <= y < |b| ==> !Full(b[y])
  }

  /** `removeLines`: k empty rows on top of the rows that were not full, in
      their original order, where k is the number of full rows. The height
      is kept, a well-formed board stays well formed, and no row is left
      full. */
  function RemoveLines(b: seq<seq<int>>): (r: seq<seq<int>>)
    ensures r == Blank(CountFull(b)) + Kept(b)
    ensures |r| == |b|
    ensures NoFullRow(r)
    ensures WellFormed(b) ==> WellFormed(r)
  {
    SweepSplits(b, 0, []);
    CountKept(b);
    assert Blank(0) + [] == [];
    var r := Sweep(b, []);
    assert !Full(EmptyRow()) by {
      assert EmptyRow()[0] == 0;
    }
    assert forall y :: 0 <= y < CountFull(b) ==> r[y] == EmptyRow();
    assert forall y :: CountFull(b) <= y < |r| ==> r[y] == Kept(b)[y - CountFull(b)];
    r
  }

  /** A board without full rows has nothing to clear. */
  lemma {:induction false} NothingToClear(rows: seq<seq<int>>)
    requires NoFullRow(rows)
    ensures CountFull(rows) == 0 && Kept(rows) == rows
    decreases |rows|
  {
    if |rows| > 0 {
      assert !Full(rows[0]);
      NothingToClear(rows[1..]);
      assert [rows[0]] + rows[1..] == rows;
    }
  }

  /** Clearing lines twice is clearing them once. */
  lemma RemoveLinesIdempotent(b: seq<seq<int>>)
    ensures RemoveLines(RemoveLines(b)) == RemoveLines(b)
  {
    var r := RemoveLines(b);
    NothingToClear(r);
    assert Blank(0) + r == r;
  }

  /** Counting and keeping distribute over a split of the rows. */
  lemma {:induction false} SplitRows(a: seq<seq<int>>, c: seq<seq<int>>)
    ensures CountFull(a + c) == CountFull(a) + CountFull(c)
    ensures Kept(a + c) == Kept(a) + Kept(c)
    decreases |a|
  {
    if |a| == 0 {
      assert a + c == c;
    } else {
      assert (a + c)[0] == a[0];
      assert (a + c)[1..] == a[1..] + c;
      SplitRows(a[1..], c);
    }
  }

  /** With row y the only full row, clearing removes it, shifts the rows
      above it down by one, and puts one empty row on top. */
  lemma ClearSingleRow(b: seq<seq<int>>, y: int)
    requires 0 <= y < |b| && Full(b[y])
    requires forall z :: 0 <= z < |b| && z != y ==> !Full(b[z])
    ensures RemoveLines(b) == [EmptyRow()] + b[..y] + b[y + 1..]
  {
    var above, below := b[..y], b[y + 1..];
    assert b == above + ([b[y]] + below);
    NothingToClear(above);
    NothingToClear(below);
    SplitRows([b[y]], below);
    SplitRows(above, [b[y]] + below);
    assert Kept([b[y]]) == [] by {
      assert [b[y]][1..] == [];
    }
    assert CountFull([b[y]]) == 1 by {
      assert [b[y]][1..] == [];
    }
    assert Blank(1) == [EmptyRow()];
  }
}
