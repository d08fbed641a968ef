/** The 10-by-20 playfield (tetris.js:1-2, 89-91), the collision test
    (tetris.js:149-165), merging a piece (tetris.js:167-178), line removal
    (tetris.js:180-190), the landing row and the rotation kick search. */
module Grid {
  import opened Wrappers
  import opened Pieces

  const ROWS: int := 20
  const COLS: int := 10

  /** A cell is empty or holds the type of the piece that locked there. */
  type Cell = Option<PieceType>
  type Row = seq<Cell>
  type Board = seq<Row>

  /** A piece on the board: its current matrix, the board position of the
      matrix's top-left cell, and its type. */
  datatype Piece = Piece(matrix: Matrix, row: int, col: int, kind: PieceType)

  predicate IsBoard(b: Board) {
    |b| == ROWS && forall i :: 0 <= i < |b| ==> |b[i]| == COLS
  }

  function EmptyRow(): Row {
    seq(COLS, _ => None)
  }

  /** `createBoard`: ROWS rows of COLS empty cells. */
  function CreateBoard(): (b: Board)
    ensures IsBoard(b)
    ensures forall i, j :: 0 <= i < ROWS && 0 <= j < COLS ==> b[i][j] == None
  {
    seq(ROWS, _ => EmptyRow())
  }

  /** `boardState[newY]?.[newX]` is truthy. */
  predicate Occupied(b: Board, i: int, j: int) {
    0 <= i < |b| && 0 <= j < |b[i]| && b[i][j].Some?
  }

  /** A board position a filled piece cell may not take. */
  predicate Blocked(b: Board, i: int, j: int) {
    i < 0 || i >= ROWS || j < 0 || j >= COLS || Occupied(b, i, j)
  }

  /** `collides(piece, board, dr, dc)`: some filled cell (y, x) of the
      matrix, placed at (row + y + dr, col + x + dc), is off the grid or on
      an occupied cell. */
  predicate Collides(p: Piece, b: Board, dr: int, dc: int) {
    exists y, x | 0 <= y < |p.matrix| && 0 <= x < |p.matrix[y]| && p.matrix[y][x] != 0 ::
      Blocked(b, p.row + y + dr, p.col + x + dc)
  }

  /** The scan `collides` performs: row by row, cell by cell, returning at
      the first filled cell that is off the grid or on an occupied cell. */
  method CollidesScan(p: Piece, b: Board, dr: int, dc: int) returns (hit: bool)
    ensures hit == Collides(p, b, dr, dc)
  {
    var m := p.matrix;
    var y := 0;
    while y < |m|
      invariant 0 <= y <= |m|
      invariant forall y', x' :: 0 <= y' < y && 0 <= x' < |m[y']| && m[y'][x'] != 0 ==>
        !Blocked(b, p.row + y' + dr, p.col + x' + dc)
    {
      var x := 0;
      while x < |m[y]|
        invariant 0 <= x <= |m[y]|
        invariant forall y', x' :: 0 <= y' < y && 0 <= x' < |m[y']| && m[y'][x'] != 0 ==>
          !Blocked(b, p.row + y' + dr, p.col + x' + dc)
        invariant forall x' :: 0 <= x' < x && m[y][x'] != 0 ==>
          !Blocked(b, p.row + y + dr, p.col + x' + dc)
      {
        if m[y][x] != 0 {
          var newY, newX := p.row + y + dr, p.col + x + dc;
          if newY < 0 || newY >= ROWS || newX < 0 || newX >= COLS {
            return true;
          }
          if Occupied(b, newY, newX) {
            return true;
          }
        }
        x := x + 1;
      }
      y := y + 1;
    }
    return false;
  }

  /** The piece covers board cell (i, j) with a filled matrix cell. */
  predicate Covers(p: Piece, i: int, j: int) {
    0 <= i - p.row < |p.matrix| && 0 <= j - p.col < |p.matrix[i - p.row]| &&
    p.matrix[i - p.row][j - p.col] != 0
  }

  /** The board after `mergePiece`: every covered cell on the grid takes the
      piece's type, every other cell is as it was. */
  function Merged(b: Board, p: Piece): Board {
    seq(|b|, i requires 0 <= i < |b| =>
      seq(|b[i]|, j requires 0 <= j < |b[i]| =>
        if Covers(p, i, j) then Some(p.kind) else b[i][j]))
  }

  /** `row.every((cell) => cell)`. */
  predicate IsFull(r: Row) {
    forall j :: 0 <= j < |r| ==> r[j].Some?
  }

  predicate NoFullRow(b: Board) {
    forall i :: 0 <= i < |b| ==> !IsFull(b[i])
  }

  /** A fresh board has no full row. */
  lemma CreateBoardNotFull()
    ensures NoFullRow(CreateBoard())
  {
    forall i | 0 <= i < ROWS ensures !IsFull(CreateBoard()[i]) {
      assert CreateBoard()[i][0] == None;
    }
  }

  /** The number of full rows. */
  function FullCount(b: Board): nat {
    if b == [] then 0 else (if IsFull(b[0]) then 1 else 0) + FullCount(b[1..])
  }

  /** The rows that are not full, top to bottom. */
  function Kept(b: Board): Board {
    if b == [] then [] else (if IsFull(b[0]) then [] else [b[0]]) + Kept(b[1..])
  }

  function Blank(n: nat): (r: Board)
    ensures |r| == n
  {
    seq(n, _ => EmptyRow())
  }

  /** The board `clearLines` leaves behind: one empty row on top for every
      full row removed, then the remaining rows in their old order. */
  function ClearedBoard(b: Board): Board {
    Blank(FullCount(b)) + Kept(b)
  }

  /** Removing the full rows leaves exactly the others. */
  lemma {:induction false} KeptSize(b: Board)
    ensures |Kept(b)| + FullCount(b) == |b|
    ensures forall r :: r in Kept(b) <==> r in b && !IsFull(r)
  {
    if b != [] {
      KeptSize(b[1..]);
      assert b == [b[0]] + b[1..];
    }
  }

  /** Filtering keeps order: the kept rows of a board split in two are the
      kept rows of the upper part followed by those of the lower part. */
  lemma {:induction false} KeptAppend(upper: Board, lower: Board)
    ensures Kept(upper + lower) == Kept(upper) + Kept(lower)
    ensures FullCount(upper + lower) == FullCount(upper) + FullCount(lower)
  {
    if upper != [] {
      assert (upper + lower)[1..] == upper[1..] + lower;
      KeptAppend(upper[1..], lower);
    } else {
      assert upper + lower == lower;
    }
  }

  /** After clearing the board is still ROWS-by-COLS and has no full row. */
  lemma ClearedBoardOk(b: Board)
    requires IsBoard(b)
    ensures IsBoard(ClearedBoard(b))
    ensures NoFullRow(ClearedBoard(b))
  {
    KeptSize(b);
    var c := ClearedBoard(b);
    forall i | 0 <= i < |c| ensures |c[i]| == COLS && !IsFull(c[i]) {
      if i < FullCount(b) {
        assert c[i] == EmptyRow() && c[i][0] == None;
      } else {
        assert c[i] in Kept(b);
      }
    }
  }

  /** After clearing, the top `cleared` rows are empty and the rows below
      them are the non-full rows of the input in their order; with no full
      row the board is unchanged. */
  lemma ClearedBoardContents(b: Board)
    requires IsBoard(b)
    ensures forall i, j :: 0 <= i < FullCount(b) && 0 <= j < COLS ==> ClearedBoard(b)[i][j] == None
    ensures ClearedBoard(b)[FullCount(b)..] == Kept(b)
    ensures FullCount(b) == 0 ==> ClearedBoard(b) == b
  {
    KeptSize(b);
    var c := ClearedBoard(b);
    forall i, j | 0 <= i < FullCount(b) && 0 <= j < COLS ensures c[i][j] == None {
      assert c[i] == EmptyRow();
    }
    if FullCount(b) == 0 {
      NoFullKeepsAll(b);
    }
  }

  lemma {:induction false} NoFullKeepsAll(b: Board)
    requires FullCount(b) == 0
    ensures Kept(b) == b
  {
    if b != [] {
      NoFullKeepsAll(b[1..]);
    }
  }

  /** If every full row of b lies in rows [lo, hi), at most hi - lo rows
      are full. */
  lemma {:induction false} FullCountWithin(b: Board, lo: int, hi: int)
    requires lo <= hi
    requires forall i :: 0 <= i < |b| && IsFull(b[i]) ==> lo <= i < hi
    ensures FullCount(b) <= hi - lo
  {
    if b != [] {
      if IsFull(b[0]) {
        FullCountWithin(b[1..], 0, hi - 1);
      } else {
        FullCountWithin(b[1..], lo - 1, hi - 1);
      }
    }
  }

  /** Merging a piece into a board without full rows can only fill the rows
      the piece's matrix spans, so at most |matrix| rows become full. */
  lemma MergeFillsAtMostSpan(b: Board, p: Piece)
    requires NoFullRow(b)
    ensures FullCount(Merged(b, p)) <= |p.matrix|
  {
    var mb := Merged(b, p);
    forall i | 0 <= i < |mb| && !(p.row <= i < p.row + |p.matrix|) ensures !IsFull(mb[i]) {
      assert mb[i] == b[i];
    }
    FullCountWithin(mb, p.row, p.row + |p.matrix|);
  }

  /** Row r is where the piece comes to rest falling straight down: every
      step from its row down to r is free and one more step collides. */
  predicate IsLanding(p: Piece, b: Board, r: int) {
    p.row <= r &&
    (forall d :: 1 <= d <= r - p.row ==> !Collides(p, b, d, 0)) &&
    Collides(p, b, r - p.row + 1, 0)
  }

  /** The landing row is unique, so every search for it finds the same row. */
  lemma LandingUnique(p: Piece, b: Board, r1: int, r2: int)
    requires IsLanding(p, b, r1) && IsLanding(p, b, r2)
    ensures r1 == r2
  {
  }

  /** A piece with a filled cell that is free d rows further down is still
      above the floor there. */
  lemma FreeIsAboveFloor(p: Piece, b: Board, d: int)
    requires Cells(p.matrix) != {} && !Collides(p, b, d, 0)
    ensures p.row + d < ROWS
  {
    var cell :| cell in Cells(p.matrix);
    assert p.matrix[cell.0][cell.1] != 0;
  }

  /** The search `updateGhostPiece` and `hardDrop` both run: probe one row
      further down until that collides. */
  method LandingRow(p: Piece, b: Board) returns (row: int)
    requires Cells(p.matrix) != {}
    ensures IsLanding(p, b, row)
  {
    row := p.row;
    var hit := CollidesScan(p.(row := row), b, 1, 0);
    CollidesShift(p, b, 1, 0, 0, 0);
    while !hit
      invariant p.row <= row
      invariant forall d :: 1 <= d <= row - p.row ==> !Collides(p, b, d, 0)
      invariant hit == Collides(p, b, row - p.row + 1, 0)
      decreases ROWS - row
    {
      FreeIsAboveFloor(p, b, row - p.row + 1);
      row := row + 1;
      hit := CollidesScan(p.(row := row), b, 1, 0);
      CollidesShift(p, b, 1, 0, row - p.row, 0);
    }
  }

  /** A piece that fits where it is also fits at its landing row. */
  lemma LandingFits(p: Piece, b: Board, r: int)
    requires IsLanding(p, b, r) && !Collides(p, b, 0, 0)
    ensures !Collides(p.(row := r), b, 0, 0)
  {
    if r > p.row {
      assert !Collides(p, b, r - p.row, 0);
    }
  }

  /** Falling one free row keeps the landing row: the ghost computed before
      the fall is still right after it. */
  lemma FallKeepsLanding(p: Piece, b: Board, r: int)
    requires IsLanding(p, b, r) && !Collides(p, b, 1, 0)
    ensures IsLanding(p.(row := p.row + 1), b, r)
  {
    var q := p.(row := p.row + 1);
    assert r != p.row;
    forall d | 1 <= d <= r - q.row ensures !Collides(q, b, d, 0) {
      CollidesShift(p, b, d, 0, 1, 0);
      assert !Collides(p, b, d + 1, 0);
    }
    CollidesShift(p, b, r - q.row + 1, 0, 1, 0);
  }

  /** The column offsets `rotateActive` tries, in order. */
  const Kicks: seq<int> := [0, -1, 1, -2, 2]

  /** The index of the first offset at which p fits, if any. */
  function FirstFit(p: Piece, b: Board, offsets: seq<int>): (k: Option<nat>)
    ensures k.Some? ==> k.value < |offsets| && !Collides(p, b, 0, offsets[k.value])
    ensures k.Some? ==> forall i :: 0 <= i < k.value ==> Collides(p, b, 0, offsets[i])
    ensures k.None? <==> forall i :: 0 <= i < |offsets| ==> Collides(p, b, 0, offsets[i])
  {
    if offsets == [] then None
    else if !Collides(p, b, 0, offsets[0]) then Some(0)
    else match FirstFit(p, b, offsets[1..])
      case None => None
      case Some(k) => Some(k + 1)
  }

  /** The first offset that fits, after offsets that all collide, is the
      one FirstFit picks. */
  lemma {:induction false} FirstFitAt(p: Piece, b: Board, offsets: seq<int>, i: nat)
    requires i < |offsets| && !Collides(p, b, 0, offsets[i])
    requires forall i' :: 0 <= i' < i ==> Collides(p, b, 0, offsets[i'])
    ensures FirstFit(p, b, offsets) == Some(i)
  {
    if i > 0 {
      assert Collides(p, b, 0, offsets[0]);
      FirstFitAt(p, b, offsets[1..], i - 1);
    }
  }

  /** The loop of `rotateActive`: try the offsets in order and stop at the
      first one at which p fits. */
  method FirstFitScan(p: Piece, b: Board, offsets: seq<int>) returns (k: Option<nat>)
    ensures k == FirstFit(p, b, offsets)
  {
    for i := 0 to |offsets|
      invariant forall i' :: 0 <= i' < i ==> Collides(p, b, 0, offsets[i'])
    {
      var hit := CollidesScan(p, b, 0, offsets[i]);
      if !hit {
        FirstFitAt(p, b, offsets, i);
        return Some(i);
      }
    }
    return None;
  }

  /** Moving a piece and then probing equals probing at the summed offset. */
  lemma CollidesShift(p: Piece, b: Board, dr: int, dc: int, sr: int, sc: int)
    ensures Collides(p.(row := p.row + sr, col := p.col + sc), b, dr, dc) == Collides(p, b, dr + sr, dc + sc)
  {
    var q := p.(row := p.row + sr, col := p.col + sc);
    if Collides(q, b, dr, dc) {
      var y, x :| 0 <= y < |q.matrix| && 0 <= x < |q.matrix[y]| && q.matrix[y][x] != 0 &&
        Blocked(b, q.row + y + dr, q.col + x + dc);
      assert Blocked(b, p.row + y + (dr + sr), p.col + x + (dc + sc));
    }
    if Collides(p, b, dr + sr, dc + sc) {
      var y, x :| 0 <= y < |p.matrix| && 0 <= x < |p.matrix[y]| && p.matrix[y][x] != 0 &&
        Blocked(b, p.row + y + dr + sr, p.col + x + dc + sc);
      assert Blocked(b, q.row + y + dr, q.col + x + dc);
    }
  }

  /** The piece `spawnPiece` creates: the canonical matrix at row 0, in the
      column `floor((COLS - width) / 2)`. */
  function SpawnPlacement(t: PieceType): (p: Piece)
    ensures p.matrix == Canonical(t) && p.row == 0 && p.kind == t
    ensures 0 <= p.col && p.col <= COLS - |p.matrix| - p.col <= p.col + 1
  {
    Piece(Canonical(t), 0, (COLS - Width(t)) / 2, t)
  }

  /** On an empty board every spawn fits: the centred matrix lies inside
      the grid. */
  lemma SpawnFitsEmpty(t: PieceType)
    ensures !Collides(SpawnPlacement(t), CreateBoard(), 0, 0)
  {
    var p, b := SpawnPlacement(t), CreateBoard();
    forall y, x | 0 <= y < |p.matrix| && 0 <= x < |p.matrix[y]| && p.matrix[y][x] != 0
      ensures !Blocked(b, p.row + y, p.col + x)
    {
      assert |p.matrix[y]| == |p.matrix|;
    }
  }

  /** The board part-way through the bottom-up clearing scan: `c` empty
      rows, the rows of b above row k still unexamined, then the kept rows
      from row k down. */
  function Scanning(b: Board, c: nat, k: nat): Board
    requires k <= |b|
  {
    Blank(c) + b[..k] + Kept(b[k..])
  }

  /** Scan step on a full row: splicing it out and putting an empty row on
      top advances the scan by one row and one cleared line. */
  lemma ScanRemovesFull(b: Board, c: nat, k: nat)
    requires 0 < k <= |b| && IsFull(b[k - 1])
    ensures |Scanning(b, c, k)| > c + k - 1 && Scanning(b, c, k)[c + k - 1] == b[k - 1]
    ensures var s, y := Scanning(b, c, k), c + k - 1;
      [EmptyRow()] + (s[..y] + s[y + 1..]) == Scanning(b, c + 1, k - 1)
    ensures FullCount(b[k - 1..]) == 1 + FullCount(b[k..])
  {
    var s, y := Scanning(b, c, k), c + k - 1;
    assert b[k - 1..] == [b[k - 1]] + b[k..];
    assert s[..y] == Blank(c) + b[..k - 1];
    assert s[y + 1..] == Kept(b[k..]);
    assert [EmptyRow()] + Blank(c) == Blank(c + 1);
  }

  /** Scan step on a row that is not full: it joins the kept rows. */
  lemma ScanKeeps(b: Board, c: nat, k: nat)
    requires 0 < k <= |b| && !IsFull(b[k - 1])
    ensures |Scanning(b, c, k)| > c + k - 1 && Scanning(b, c, k)[c + k - 1] == b[k - 1]
    ensures Scanning(b, c, k) == Scanning(b, c, k - 1)
    ensures FullCount(b[k - 1..]) == FullCount(b[k..])
  {
    assert b[k - 1..] == [b[k - 1]] + b[k..];
    assert b[..k] == b[..k - 1] + [b[k - 1]];
  }

  /** One step of the scan at row y, which is row k - 1 of b while rows of
      b remain and one of the empty rows on top after that: a full row
      there can only be b[k - 1], and either outcome of the step leads to
      the next scan position. */
  lemma ScanStep(b: Board, c: nat, k: nat, y: int)
    requires k <= |b|
    requires if k > 0 then y == c + k - 1 else 0 <= y < c
    ensures 0 <= y < |Scanning(b, c, k)|
    ensures var s := Scanning(b, c, k);
      IsFull(s[y]) ==>
        0 < k && [EmptyRow()] + (s[..y] + s[y + 1..]) == Scanning(b, c + 1, k - 1) &&
        FullCount(b[k - 1..]) == 1 + FullCount(b[k..])
    ensures var s := Scanning(b, c, k);
      !IsFull(s[y]) && 0 < k ==>
        s == Scanning(b, c, k - 1) && FullCount(b[k - 1..]) == FullCount(b[k..])
  {
    if k == 0 {
      ScanTopNotFull(b, c, y);
    } else if IsFull(b[k - 1]) {
      ScanRemovesFull(b, c, k);
    } else {
      ScanKeeps(b, c, k);
    }
  }

  /** Once every row is examined, the scan has produced the cleared board. */
  lemma ScanDone(b: Board, c: nat)
    requires c == FullCount(b)
    ensures Scanning(b, c, 0) == ClearedBoard(b)
  {
    assert b[0..] == b;
  }

  /** The rows the scan has put on top are empty, so never full. */
  lemma ScanTopNotFull(b: Board, c: nat, y: int)
    requires 0 <= y < c
    ensures |Scanning(b, c, 0)| > y && !IsFull(Scanning(b, c, 0)[y])
  {
    assert Scanning(b, c, 0)[y] == EmptyRow();
    assert EmptyRow()[0] == None;
  }
}
