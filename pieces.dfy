/** The seven tetromino types, their canonical shape matrices (tetris.js:5-41),
    the exact 90-degree matrix turn and the 7-bag shuffle. */
module Pieces {

  datatype PieceType = I | J | L | O | S | T | Z

  /** A shape matrix: rows of cells, a cell is filled when it is non-zero. */
  type Matrix = seq<seq<int>>

  /** The order of the keys of the TETROMINOS table. */
  const AllTypes: seq<PieceType> := [I, J, L, O, S, T, Z]

  predicate IsSquare(m: Matrix) {
    forall y :: 0 <= y < |m| ==> |m[y]| == |m|
  }

  /** The set of filled cells of a matrix, as (row, column) pairs. */
  function Cells(m: Matrix): set<(int, int)> {
    set y, x | 0 <= y < |m| && 0 <= x < |m[y]| && m[y][x] != 0 :: (y, x)
  }

  /** What every shape the game handles satisfies: square, 2 to 4 wide,
      with at least one filled cell. */
  predicate ShapeOk(m: Matrix) {
    IsSquare(m) && 2 <= |m| <= 4 && Cells(m) != {}
  }

  function Canonical(t: PieceType): (m: Matrix)
    ensures ShapeOk(m)
  {
    var m := match t
      case I => [[0, 0, 0, 0], [1, 1, 1, 1], [0, 0, 0, 0], [0, 0, 0, 0]]
      case J => [[1, 0, 0], [1, 1, 1], [0, 0, 0]]
      case L => [[0, 0, 1], [1, 1, 1], [0, 0, 0]]
      case O => [[1, 1], [1, 1]]
      case S => [[0, 1, 1], [1, 1, 0], [0, 0, 0]]
      case T => [[0, 1, 0], [1, 1, 1], [0, 0, 0]]
      case Z => [[1, 1, 0], [0, 1, 1], [0, 0, 0]];
    assert (1, 1) in Cells(m);
    m
  }

  /** Spawn width: the length of the canonical matrix's first row. */
  function Width(t: PieceType): (w: nat)
    ensures 2 <= w <= 4 && w == |Canonical(t)|
  {
    |Canonical(t)[0]|
  }

  /** `rotate(matrix, dir)`: a clockwise turn when dir == 1, a
      counter-clockwise turn for any other dir. */
  function Rotate(m: Matrix, dir: int): (r: Matrix)
    requires IsSquare(m)
    ensures IsSquare(r) && |r| == |m|
  {
    var n := |m|;
    if dir == 1 then
      seq(n, i requires 0 <= i < n => seq(n, j requires 0 <= j < n => m[n - 1 - j][i]))
    else
      seq(n, i requires 0 <= i < n => seq(n, j requires 0 <= j < n => m[j][n - 1 - i]))
  }

  /** Where a cell (y, x) of an n-wide matrix goes under a clockwise turn. */
  function TurnCell(c: (int, int), n: int): (int, int) {
    (c.1, n - 1 - c.0)
  }

  /** Where a cell (y, x) goes under a counter-clockwise turn. */
  function UnturnCell(c: (int, int), n: int): (int, int) {
    (n - 1 - c.1, c.0)
  }

  /** The cell a turn in direction dir sends c to. */
  function Moved(c: (int, int), n: int, dir: int): (int, int) {
    if dir == 1 then TurnCell(c, n) else UnturnCell(c, n)
  }

  function Image(cs: set<(int, int)>, n: int, dir: int): set<(int, int)> {
    set c | c in cs :: Moved(c, n, dir)
  }

  /** A turn moves the filled cells and nothing else: a cell is filled
      after the turn exactly when its pre-image was filled before. */
  lemma RotateCells(m: Matrix, dir: int)
    requires IsSquare(m)
    ensures Cells(Rotate(m, dir)) == Image(Cells(m), |m|, dir)
  {
    var n, r := |m|, Rotate(m, dir);
    forall c | c in Cells(r) ensures c in Image(Cells(m), n, dir) {
      var pre := if dir == 1 then (n - 1 - c.1, c.0) else (c.1, n - 1 - c.0);
      assert pre in Cells(m) && Moved(pre, n, dir) == c;
    }
    forall c | c in Cells(m) ensures Moved(c, n, dir) in Cells(r) {
      var d := Moved(c, n, dir);
      assert r[d.0][d.1] == m[c.0][c.1];
    }
  }

  /** Turning is injective on cells, so the image has as many cells. */
  lemma {:induction false} ImageSize(cs: set<(int, int)>, n: int, dir: int)
    ensures |Image(cs, n, dir)| == |cs|
  {
    if cs != {} {
      var c :| c in cs;
      var rest := cs - {c};
      ImageSize(rest, n, dir);
      assert Image(cs, n, dir) == Image(rest, n, dir) + {Moved(c, n, dir)};
      assert Moved(c, n, dir) !in Image(rest, n, dir);
    }
  }

  /** rotate keeps the matrix n-by-n and keeps its number of filled cells. */
  lemma RotateKeepsCount(m: Matrix, dir: int)
    requires IsSquare(m)
    ensures IsSquare(Rotate(m, dir)) && |Rotate(m, dir)| == |m|
    ensures |Cells(Rotate(m, dir))| == |Cells(m)|
  {
    RotateCells(m, dir);
    ImageSize(Cells(m), |m|, dir);
  }

  /** Every shape the game can hold stays a valid shape under a turn. */
  lemma RotateKeepsShape(m: Matrix, dir: int)
    requires ShapeOk(m)
    ensures ShapeOk(Rotate(m, dir))
  {
    RotateKeepsCount(m, dir);
  }

  /** A clockwise turn followed by a counter-clockwise one, in either
      order, gives back the original matrix. */
  lemma RotateInverse(m: Matrix)
    requires IsSquare(m)
    ensures Rotate(Rotate(m, 1), -1) == m
    ensures Rotate(Rotate(m, -1), 1) == m
  {
    var n := |m|;
    var a, b := Rotate(Rotate(m, 1), -1), Rotate(Rotate(m, -1), 1);
    forall i | 0 <= i < n ensures a[i] == m[i] && b[i] == m[i] {
      assert forall j :: 0 <= j < n ==> a[i][j] == m[i][j] && b[i][j] == m[i][j];
    }
  }

  /** Four turns in the same direction give back the original matrix. */
  lemma FourTurns(m: Matrix, dir: int)
    requires IsSquare(m)
    ensures Rotate(Rotate(Rotate(Rotate(m, dir), dir), dir), dir) == m
  {
    var n := |m|;
    var r1 := Rotate(m, dir);
    var r2 := Rotate(r1, dir);
    var r3 := Rotate(r2, dir);
    var r4 := Rotate(r3, dir);
    forall i, j | 0 <= i < n && 0 <= j < n
      ensures r2[i][j] == m[n - 1 - i][n - 1 - j]
    {
    }
    forall i | 0 <= i < n ensures r4[i] == m[i] {
      assert forall j :: 0 <= j < n ==> r4[i][j] == r2[n - 1 - i][n - 1 - j];
    }
  }

  /** A bag: seven entries among which every piece type occurs. */
  predicate IsBag(s: seq<PieceType>) {
    |s| == 7 && forall t: PieceType :: t in s
  }

  /** An entry found neither before nor after a position occurs once. */
  lemma OnceBetween(pre: seq<PieceType>, t: PieceType, post: seq<PieceType>)
    requires t !in pre && t !in post
    ensures multiset(pre + [t] + post)[t] == 1
  {
    assert multiset(pre + [t] + post) == multiset(pre) + multiset{t} + multiset(post);
  }

  /** Each type occurs once in the key order of the shape table. */
  lemma AllTypesOnce(t: PieceType)
    ensures multiset(AllTypes)[t] == 1
  {
    var i := match t case I => 0 case J => 1 case L => 2 case O => 3 case S => 4 case T => 5 case Z => 6;
    assert AllTypes == AllTypes[..i] + [t] + AllTypes[i + 1..];
    OnceBetween(AllTypes[..i], t, AllTypes[i + 1..]);
  }

  /** A sequence is a bag exactly when it is a permutation of the seven
      types. */
  lemma {:induction false} BagIsPermutation(s: seq<PieceType>)
    ensures IsBag(s) <==> multiset(s) == multiset(AllTypes)
  {
    var all, ms := multiset(AllTypes), multiset(s);
    if ms == all {
      assert |s| == |ms| == |AllTypes| == 7;
      forall t: PieceType ensures t in s {
        AllTypesOnce(t);
        assert t in ms;
      }
    }
    if IsBag(s) {
      forall t: PieceType ensures all[t] <= ms[t] {
        AllTypesOnce(t);
        assert t in s;
      }
      var d := ms - all;
      assert ms == all + d;
      assert |d| == |ms| - |all| == 0;
    }
  }

  /** A bag holds every type exactly once. */
  lemma BagHasEachOnce(s: seq<PieceType>)
    requires IsBag(s)
    ensures forall t: PieceType :: multiset(s)[t] == 1
  {
    BagIsPermutation(s);
    forall t: PieceType ensures multiset(s)[t] == 1 {
      AllTypesOnce(t);
    }
  }

  /** One exchange step of the shuffle. */
  method Swap(a: array<PieceType>, i: int, j: int)
    requires 0 <= j <= i < a.Length
    modifies a
    ensures a[..] == old(a[..])[i := old(a[j])][j := old(a[i])]
    ensures multiset(a[..]) == old(multiset(a[..]))
  {
    a[i], a[j] := a[j], a[i];
  }

  /** `randomBag`: a Fisher-Yates shuffle of the seven types in place.
      The random index for step i is any j with 0 <= j <= i. */
  method RandomBag() returns (bag: seq<PieceType>)
    ensures multiset(bag) == multiset(AllTypes) && IsBag(bag)
  {
    var types := new PieceType[7];
    types[0], types[1], types[2], types[3], types[4], types[5], types[6] := I, J, L, O, S, T, Z;
    assert types[..] == AllTypes;
    var i := types.Length - 1;
    while i > 0
      invariant 0 <= i < types.Length
      invariant multiset(types[..]) == multiset(AllTypes)
    {
      var j :| 0 <= j <= i;
      Swap(types, i, j);
      i := i - 1;
    }
    bag := types[..];
    BagIsPermutation(bag);
  }
}
