/** The game state held in the module-level variables of tetris.js:72-87 and
    the functions that update it. */
module Game {
  import opened Wrappers
  import opened Pieces
  import opened Grid
  import opened Scoring
  import opened Keys

  const PREVIEW_COUNT: int := 3

  /** The queue after the refill `spawnPiece` performs when fewer than
      PREVIEW_COUNT + 1 types are waiting: one whole bag appended. */
  ghost predicate Refilled(before: seq<PieceType>, after: seq<PieceType>) {
    if |before| < PREVIEW_COUNT + 1 then
      |after| == |before| + 7 && after[..|before|] == before && IsBag(after[|before|..])
    else
      after == before
  }

  /** The part of the game state that moves, drops, locks and the hold
      act on: everything except the pause flag and the frame clock. */
  datatype Snapshot = Snapshot(board: Board, activePiece: Option<Piece>, ghostPiece: Option<Piece>,
                               queue: seq<PieceType>, hold: Option<PieceType>, holdUsed: bool,
                               isRunning: bool, isGameOver: bool, linesCleared: nat, level: nat,
                               score: nat, dropInterval: int)

  class Game {
    var board: Board
    var activePiece: Option<Piece>
    var ghostPiece: Option<Piece>
    var queue: seq<PieceType>
    var hold: Option<PieceType>
    var holdUsed: bool
    var isRunning: bool
    var isPaused: bool
    var isGameOver: bool
    var dropInterval: int
    var dropCounter: int
    var lastTime: int
    var linesCleared: nat
    var level: nat
    var score: nat

    /** What holds between any two events, even after the game has ended. */
    ghost predicate Stable()
      reads this`board, this`level, this`linesCleared, this`dropInterval, this`activePiece,
            this`isGameOver, this`isRunning
    {
      IsBoard(board) && NoFullRow(board) &&
      level == LevelFor(linesCleared) && dropInterval == GravityInterval(level) &&
      (activePiece.Some? ==> ShapeOk(activePiece.value.matrix)) &&
      (isGameOver ==> !isRunning)
    }

    /** While the game runs, the active piece lies on free cells of the grid. */
    ghost predicate Valid()
      reads this`board, this`level, this`linesCleared, this`dropInterval, this`activePiece,
            this`isGameOver, this`isRunning
    {
      Stable() && (isRunning ==> activePiece.Some? && !Collides(activePiece.value, board, 0, 0))
    }

    /** The ghost piece is the active piece moved down to its landing row. */
    ghost predicate GhostOk()
      reads this`activePiece, this`ghostPiece, this`board
    {
      activePiece.Some? && ghostPiece.Some? &&
      ghostPiece.value == activePiece.value.(row := ghostPiece.value.row) &&
      IsLanding(activePiece.value, board, ghostPiece.value.row)
    }

    /** The current play state. */
    ghost function State(): Snapshot
      reads this`board, this`activePiece, this`ghostPiece, this`queue, this`hold, this`holdUsed,
            this`isRunning, this`isGameOver, this`linesCleared, this`level, this`score, this`dropInterval
    {
      Snapshot(board, activePiece, ghostPiece, queue, hold, holdUsed, isRunning, isGameOver,
               linesCleared, level, score, dropInterval)
    }

    /** The script's state once loaded: the declarations followed by the
        `resetGame()` call at the end of the file. */
    constructor ()
      ensures Valid()
      ensures board == CreateBoard() && activePiece == None && ghostPiece == None
      ensures queue == [] && hold == None && !holdUsed
      ensures !isRunning && !isPaused && !isGameOver
      ensures score == 0 && linesCleared == 0 && level == 0
      ensures dropInterval == 1000 && dropCounter == 0 && lastTime == 0
    {
      board := CreateBoard();
      CreateBoardNotFull();
      activePiece, ghostPiece := None, None;
      queue, hold, holdUsed := [], None, false;
      isRunning, isPaused, isGameOver := false, false, false;
      score, linesCleared, level := 0, 0, 0;
      dropInterval, dropCounter, lastTime := 1000, 0, 0;
    }

    /** `refillQueue`: append one shuffled bag. */
    method RefillQueue()
      modifies this`queue
      ensures |queue| == |old(queue)| + 7 && queue[..|old(queue)|] == old(queue)
      ensures IsBag(queue[|old(queue)|..])
    {
      var bag := RandomBag();
      queue := queue + bag;
      assert queue[|old(queue)|..] == bag;
    }

    /** `updateGhostPiece`: probe one row further down until that collides. */
    method UpdateGhostPiece()
      requires activePiece.Some? ==> ShapeOk(activePiece.value.matrix)
      modifies this`ghostPiece
      ensures activePiece.None? ==> ghostPiece == old(ghostPiece)
      ensures activePiece.Some? ==> GhostOk()
    {
      if activePiece.None? {
        return;
      }
      var a := activePiece.value;
      var row := LandingRow(a, board);
      ghostPiece := Some(a.(row := row));
    }

    /** `endGame` (state part): the game is over and no longer runs. */
    method EndGame()
      requires Stable()
      modifies this`isGameOver, this`isRunning
      ensures Valid() && isGameOver && !isRunning
    {
      isGameOver := true;
      isRunning := false;
    }
  
    /** The end of `spawnPiece` for a piece that fits: it becomes the
        active piece, hold is allowed again and the ghost is recomputed. */
    method Activate(p: Piece)
      requires Stable() && ShapeOk(p.matrix) && !Collides(p, board, 0, 0)
      modifies this`activePiece, this`holdUsed, this`ghostPiece
      ensures Valid() && GhostOk() && activePiece == Some(p) && !holdUsed
    {
      activePiece := Some(p);
      holdUsed := false;
      UpdateGhostPiece();
    }

    /** The outcome of `spawnPiece` that took type `next` from the front,
        starting from a queue q0, an active piece a0 and run flags running0
        and over0: the queue is q0, refilled if short, less its front; if the
        spawn placement of `next` collides the game ends and the active piece
        stays, otherwise it becomes the active piece. */
    ghost predicate SpawnedFrom(next: PieceType, q0: seq<PieceType>, a0: Option<Piece>,
                                running0: bool, over0: bool)
      reads this`queue, this`board, this`isGameOver, this`isRunning, this`activePiece
    {
      Refilled(q0, [next] + queue) &&
      if Collides(SpawnPlacement(next), board, 0, 0) then
        isGameOver && !isRunning && activePiece == a0
      else
        activePiece == Some(SpawnPlacement(next)) && isRunning == running0 && isGameOver == over0
    }

    /** The queue part of `spawnPiece`: refill when fewer than
        PREVIEW_COUNT + 1 types wait, then shift the front type off. */
    method TakeNext() returns (t: PieceType)
      modifies this`queue
      ensures Refilled(old(queue), [t] + queue)
    {
      if |queue| < PREVIEW_COUNT + 1 {
        RefillQueue();
      }
      ghost var full := queue;
      t := queue[0];
      queue := queue[1..];
      assert [t] + queue == full;
    }

    /** `spawnPiece`; `next` is the type taken from the queue. */
    method SpawnPiece() returns (ghost next: PieceType)
      requires Stable()
      modifies this`queue, this`activePiece, this`holdUsed, this`ghostPiece, this`isGameOver, this`isRunning
      ensures Valid()
      ensures SpawnedFrom(next, old(queue), old(activePiece), old(isRunning), old(isGameOver))
      ensures holdUsed == (old(holdUsed) && Collides(SpawnPlacement(next), board, 0, 0))
      ensures !Collides(SpawnPlacement(next), board, 0, 0) ==> GhostOk()
      ensures Collides(SpawnPlacement(next), board, 0, 0) ==> ghostPiece == old(ghostPiece)
      ensures old(activePiece).Some? ==> activePiece.Some?
    {
      var t := TakeNext();
      next := t;
      var piece := SpawnPlacement(t);
      var hit := CollidesScan(piece, board, 0, 0);
      if hit {
        EndGame();
        return;
      }
      Activate(piece);
    }

    /** `mergePiece`: write the piece's type into every grid cell it covers. */
    method MergePiece(p: Piece)
      requires IsBoard(board)
      modifies this`board
      ensures board == Merged(old(board), p)
    {
      ghost var b0 := board;
      var m := p.matrix;
      for y := 0 to |m|
        invariant IsBoard(board)
        invariant forall i, j :: 0 <= i < ROWS && 0 <= j < COLS ==>
          board[i][j] == if Covers(p, i, j) && i - p.row < y then Some(p.kind) else b0[i][j]
      {
        for x := 0 to |m[y]|
          invariant IsBoard(board)
          invariant forall i, j :: 0 <= i < ROWS && 0 <= j < COLS ==>
            board[i][j] == if Covers(p, i, j) && (i - p.row < y || (i - p.row == y && j - p.col < x))
                           then Some(p.kind) else b0[i][j]
        {
          if m[y][x] != 0 {
            var boardY, boardX := p.row + y, p.col + x;
            if 0 <= boardY < ROWS && 0 <= boardX < COLS {
              board := board[boardY := board[boardY][boardX := Some(p.kind)]];
            }
          }
        }
      }
      assert forall i :: 0 <= i < ROWS ==> board[i] == Merged(b0, p)[i];
    }
  
    /** `updateLevel`: one level per ten lines; the gravity interval is
        recomputed only when the level changes. */
    method UpdateLevel()
      requires dropInterval == GravityInterval(level)
      modifies this`level, this`dropInterval
      ensures level == LevelFor(linesCleared) && dropInterval == GravityInterval(level)
    {
      var newLevel := linesCleared / 10;
      if newLevel != level {
        level := newLevel;
        dropInterval := GravityInterval(level);
      }
    }

    /** The labelled loop of `clearLines`: scan from the bottom row up; a
        full row is spliced out and an empty row put on top, and the same
        index is examined again. */
    method RemoveFullRows() returns (cleared: nat)
      requires IsBoard(board)
      modifies this`board
      ensures cleared == FullCount(old(board))
      ensures board == ClearedBoard(old(board))
    {
      ghost var b0 := board;
      cleared := 0;
      var y := ROWS - 1;
      ghost var k := ROWS;
      KeptSize(b0[k..]);
      while y >= 0
        invariant 0 <= k <= ROWS
        invariant board == Scanning(b0, cleared, k)
        invariant cleared == FullCount(b0[k..])
        invariant k > 0 ==> y == cleared + k - 1
        invariant k == 0 ==> -1 <= y < cleared
        decreases y + k
      {
        ScanStep(b0, cleared, k, y);
        if IsFull(board[y]) {
          board := [EmptyRow()] + (board[..y] + board[y + 1..]);
          cleared := cleared + 1;
          k := k - 1;
        } else {
          y := y - 1;
          if k > 0 {
            k := k - 1;
          }
        }
      }
      assert k == 0 && b0[k..] == b0;
      ScanDone(b0, cleared);
    }

    /** `clearLines`: remove the full rows, then bring the lines, the score
        and the level up to date. */
    method ClearLines() returns (cleared: nat)
      requires IsBoard(board) && FullCount(board) < |ScoreTable|
      requires level == LevelFor(linesCleared) && dropInterval == GravityInterval(level)
      modifies this`board, this`linesCleared, this`score, this`level, this`dropInterval
      ensures cleared == FullCount(old(board))
      ensures board == ClearedBoard(old(board))
      ensures linesCleared == old(linesCleared) + cleared
      ensures score == old(score) + LineClearAward(cleared, old(level))
      ensures level == LevelFor(linesCleared) && dropInterval == GravityInterval(level)
    {
      cleared := RemoveFullRows();
      if cleared > 0 {
        linesCleared := linesCleared + cleared;
        score := score + LineClearAward(cleared, level);
        UpdateLevel();
      }
    }
  
    /** The outcome of `lockPiece` from play state s0 with active piece a0:
        a0 is merged into the board, the full rows are removed and scored at
        the old level, and the next piece is spawned as SpawnedFrom
        describes; hold is allowed again unless that spawn ended the game,
        and the hold slot keeps its type. */
    ghost predicate LockedFrom(next: PieceType, s0: Snapshot, a0: Piece)
      reads this`queue, this`board, this`isGameOver, this`isRunning, this`activePiece, this`holdUsed,
            this`linesCleared, this`score, this`hold
    {
      var merged := Merged(s0.board, a0);
      var c := FullCount(merged);
      c < |ScoreTable| && board == ClearedBoard(merged) &&
      linesCleared == s0.linesCleared + c && score == s0.score + LineClearAward(c, s0.level) &&
      SpawnedFrom(next, s0.queue, Some(a0), s0.isRunning, s0.isGameOver) &&
      holdUsed == (s0.holdUsed && Collides(SpawnPlacement(next), board, 0, 0)) &&
      hold == s0.hold
    }

    /** The first two steps of `lockPiece`: merge the piece, then clear. */
    method MergeAndClear(p: Piece)
      requires Stable() && ShapeOk(p.matrix)
      modifies this`board, this`linesCleared, this`score, this`level, this`dropInterval
      ensures Stable()
      ensures var merged := Merged(old(board), p);
        FullCount(merged) < |ScoreTable| && board == ClearedBoard(merged) &&
        linesCleared == old(linesCleared) + FullCount(merged) &&
        score == old(score) + LineClearAward(FullCount(merged), old(level))
    {
      MergeFillsAtMostSpan(board, p);
      MergePiece(p);
      ghost var merged := board;
      var cleared := ClearLines();
      ClearedBoardOk(merged);
    }

    /** The last two steps of `lockPiece`: spawn the next piece, then
        recompute the ghost, of the new piece or, when the spawn ended the
        game, of the piece that stayed. */
    method SpawnAndTrack() returns (ghost next: PieceType)
      requires Stable() && activePiece.Some?
      modifies this`queue, this`activePiece, this`holdUsed, this`ghostPiece, this`isGameOver, this`isRunning
      ensures Valid() && GhostOk()
      ensures SpawnedFrom(next, old(queue), old(activePiece), old(isRunning), old(isGameOver))
      ensures holdUsed == (old(holdUsed) && Collides(SpawnPlacement(next), board, 0, 0))
    {
      next := SpawnPiece();
      UpdateGhostPiece();
    }

    /** `lockPiece`. */
    method LockPiece() returns (ghost next: PieceType)
      requires Valid() && activePiece.Some?
      modifies this`board, this`linesCleared, this`score, this`level, this`dropInterval
      modifies this`queue, this`activePiece, this`holdUsed, this`ghostPiece, this`isGameOver, this`isRunning
      ensures Valid() && GhostOk()
      ensures LockedFrom(next, old(State()), old(activePiece.value))
    {
      MergeAndClear(activePiece.value);
      next := SpawnAndTrack();
    }

    /** `activePiece = p` followed by `updateGhostPiece()`, for a piece
        that fits where it is put. */
    method Place(p: Piece)
      requires Stable() && ShapeOk(p.matrix) && !Collides(p, board, 0, 0)
      modifies this`activePiece, this`ghostPiece
      ensures Valid() && GhostOk() && activePiece == Some(p)
    {
      activePiece := Some(p);
      UpdateGhostPiece();
    }

    /** The outcome of `move(offset)` from play state s0: when the shifted
        piece fits it becomes the active piece with its ghost recomputed,
        and nothing else changes; otherwise nothing changes at all. */
    ghost predicate MovedFrom(offset: int, s0: Snapshot)
      requires s0.activePiece.Some?
      reads this`board, this`activePiece, this`ghostPiece, this`queue, this`hold, this`holdUsed,
            this`isRunning, this`isGameOver, this`linesCleared, this`level, this`score, this`dropInterval
    {
      var a := s0.activePiece.value;
      if !Collides(a, s0.board, 0, offset) then
        State() == s0.(activePiece := Some(a.(col := a.col + offset)), ghostPiece := ghostPiece) && GhostOk()
      else
        State() == s0
    }

    /** `move(offset)`: shift sideways when the shifted piece fits. */
    method Move(offset: int)
      requires Valid() && activePiece.Some?
      modifies this`activePiece, this`ghostPiece
      ensures Valid()
      ensures MovedFrom(offset, old(State()))
    {
      var a := activePiece.value;
      var hit := CollidesScan(a, board, 0, offset);
      if !hit {
        CollidesShift(a, board, 0, 0, 0, offset);
        Place(a.(col := a.col + offset));
      }
    }

    /** `activePiece.row++`, taken when the row below is free. The ghost
        piece is not recomputed, and stays right because the landing row
        does not change. */
    method Fall()
      requires Valid() && activePiece.Some? && !Collides(activePiece.value, board, 1, 0)
      modifies this`activePiece
      ensures Valid()
      ensures activePiece == Some(old(activePiece.value).(row := old(activePiece.value).row + 1))
      ensures old(GhostOk()) ==> GhostOk()
    {
      var a := activePiece.value;
      CollidesShift(a, board, 0, 0, 1, 0);
      if GhostOk() {
        FallKeepsLanding(a, board, ghostPiece.value.row);
      }
      activePiece := Some(a.(row := a.row + 1));
    }

    /** The outcome of `softDrop` from play state s0, where ghostOk0 says
        whether the ghost was right before: one row down for level + 1
        points when that row is free, leaving everything else and a right
        ghost as they were; otherwise the piece locks as LockedFrom
        describes. */
    ghost predicate SoftDroppedFrom(next: Option<PieceType>, s0: Snapshot, ghostOk0: bool)
      requires s0.activePiece.Some?
      reads this`board, this`activePiece, this`ghostPiece, this`queue, this`hold, this`holdUsed,
            this`isRunning, this`isGameOver, this`linesCleared, this`level, this`score, this`dropInterval
    {
      match next
      case None =>
        var a := s0.activePiece.value;
        !Collides(a, s0.board, 1, 0) &&
        score == s0.score + s0.level + 1 &&
        State() == s0.(activePiece := Some(a.(row := a.row + 1)), score := score) &&
        (ghostOk0 ==> GhostOk())
      case Some(t) =>
        var a := s0.activePiece.value;
        Collides(a, s0.board, 1, 0) && GhostOk() && LockedFrom(t, s0, a)
    }

    /** `softDrop`: one row down for level + 1 points, or lock when blocked. */
    method SoftDrop() returns (ghost next: Option<PieceType>)
      requires Valid() && activePiece.Some?
      modifies this`board, this`linesCleared, this`score, this`level, this`dropInterval
      modifies this`queue, this`activePiece, this`holdUsed, this`ghostPiece, this`isGameOver, this`isRunning
      ensures Valid()
      ensures SoftDroppedFrom(next, old(State()), old(GhostOk()))
    {
      var a := activePiece.value;
      var hit := CollidesScan(a, board, 1, 0);
      if !hit {
        ghost var s0 := State();
        Fall();
        score := score + level + 1;
        next := None;
        assert SoftDroppedFrom(next, s0, old(GhostOk()));
      } else {
        var t := LockPiece();
        next := Some(t);
      }
    }

    /** `hardDrop`: fall row by row while the next row is free, then lock at
        the landing row. */
    method HardDrop() returns (ghost landing: int, ghost next: PieceType)
      requires Valid() && activePiece.Some?
      modifies this`board, this`linesCleared, this`score, this`level, this`dropInterval
      modifies this`queue, this`activePiece, this`holdUsed, this`ghostPiece, this`isGameOver, this`isRunning
      ensures Valid() && GhostOk()
      ensures IsLanding(old(activePiece.value), old(board), landing)
      ensures LockedFrom(next, old(State()), old(activePiece.value).(row := landing))
    {
      var a := activePiece.value;
      var row := LandingRow(a, board);
      if isRunning {
        LandingFits(a, board, row);
      }
      activePiece := Some(a.(row := row));
      landing := row;
      next := LockPiece();
    }

    /** The outcome of `rotateActive(dir)` from play state s0: the turned
        piece, moved by the first kick offset at which it fits, becomes the
        active piece with its ghost recomputed and nothing else changes;
        when no offset fits nothing changes at all. */
    ghost predicate RotatedFrom(r: Piece, kick: Option<nat>, s0: Snapshot)
      reads this`board, this`activePiece, this`ghostPiece, this`queue, this`hold, this`holdUsed,
            this`isRunning, this`isGameOver, this`linesCleared, this`level, this`score, this`dropInterval
    {
      kick == FirstFit(r, s0.board, Kicks) &&
      State() == s0.(activePiece := activePiece, ghostPiece := ghostPiece) &&
      match kick
      case None => activePiece == s0.activePiece && ghostPiece == s0.ghostPiece
      case Some(k) => k < |Kicks| && activePiece == Some(r.(col := r.col + Kicks[k])) && GhostOk()
    }

    /** `rotateActive(dir)`: turn the matrix, then try the kick offsets in
        order and keep the first one at which the turned piece fits; when
        none fits the piece stays as it was. `turned` is the turned piece
        before any kick and `kick` the index of the offset taken. */
    method RotateActive(dir: int) returns (ghost turned: Piece, ghost kick: Option<nat>)
      requires Valid() && activePiece.Some?
      modifies this`activePiece, this`ghostPiece
      ensures Valid()
      ensures turned == old(activePiece.value).(matrix := Rotate(old(activePiece.value).matrix, dir))
      ensures RotatedFrom(turned, kick, old(State()))
    {
      var a := activePiece.value;
      var rotated := Rotate(a.matrix, dir);
      RotateKeepsShape(a.matrix, dir);
      var r := a.(matrix := rotated);
      turned := r;
      var k := FirstFitScan(r, board, Kicks);
      kick := k;
      PlaceKicked(r, k);
    }

    /** The end of `rotateActive` for the turned piece r and the kick
        index k the offset search found: commit r moved by that offset, or
        change nothing when no offset fits. */
    method PlaceKicked(r: Piece, k: Option<nat>)
      requires Stable() && ShapeOk(r.matrix) && k == FirstFit(r, board, Kicks)
      modifies this`activePiece, this`ghostPiece
      ensures k.None? ==> activePiece == old(activePiece) && ghostPiece == old(ghostPiece)
      ensures k.Some? ==> Valid() && GhostOk() && activePiece == Some(r.(col := r.col + Kicks[k.value]))
    {
      if k.Some? {
        PlaceShifted(r, Kicks[k.value]);
      }
    }

    /** The commit step of `rotateActive`: the turned piece r, shifted by
        an offset at which it fits, becomes the active piece. */
    method PlaceShifted(r: Piece, offset: int)
      requires Stable() && ShapeOk(r.matrix) && !Collides(r, board, 0, offset)
      modifies this`activePiece, this`ghostPiece
      ensures Valid() && GhostOk() && activePiece == Some(r.(col := r.col + offset))
    {
      CollidesShift(r, board, 0, 0, 0, offset);
      Place(r.(col := r.col + offset));
    }

    /** The outcome of `holdPiece` from play state s0. With hold already
        used nothing changes. Otherwise the active type goes on hold and
        either the next piece is spawned from the queue, when the hold was
        empty, or the held type comes in at its spawn placement; hold is
        spent unless that swapped-in piece collides and ends the game. The
        board, the lines, the level, the score and the interval stay, and
        so does the ghost whenever the incoming piece collides. */
    ghost predicate HeldFrom(next: Option<PieceType>, s0: Snapshot)
      requires s0.activePiece.Some?
      reads this`board, this`activePiece, this`ghostPiece, this`queue, this`hold, this`holdUsed,
            this`isRunning, this`isGameOver, this`linesCleared, this`level, this`score, this`dropInterval
    {
      if s0.holdUsed then
        next.None? && State() == s0
      else
        hold == Some(s0.activePiece.value.kind) &&
        State() == s0.(activePiece := activePiece, ghostPiece := ghostPiece, queue := queue, hold := hold,
                       holdUsed := holdUsed, isRunning := isRunning, isGameOver := isGameOver) &&
        match s0.hold
        case None =>
          next.Some? && holdUsed &&
          SpawnedFrom(next.value, s0.queue, s0.activePiece, s0.isRunning, s0.isGameOver) &&
          if Collides(SpawnPlacement(next.value), board, 0, 0) then ghostPiece == s0.ghostPiece
          else GhostOk()
        case Some(t) =>
          var p := SpawnPlacement(t);
          next.None? && queue == s0.queue && activePiece == Some(p) &&
          if Collides(p, board, 0, 0) then
            isGameOver && !isRunning && !holdUsed && ghostPiece == s0.ghostPiece
          else
            holdUsed && GhostOk() && isRunning == s0.isRunning && isGameOver == s0.isGameOver
    }

    /** The swap branch of `holdPiece` once the hold slot has taken the
        outgoing type: the held type t comes in at its spawn placement; when
        that collides the game ends (`ended`), otherwise the ghost is
        recomputed. */
    method SwapIn(t: PieceType) returns (ended: bool)
      requires Stable()
      modifies this`activePiece, this`ghostPiece, this`isGameOver, this`isRunning
      ensures Valid() && activePiece == Some(SpawnPlacement(t))
      ensures ended == Collides(SpawnPlacement(t), board, 0, 0)
      ensures ended ==> isGameOver && !isRunning && ghostPiece == old(ghostPiece)
      ensures !ended ==> GhostOk() && isRunning == old(isRunning) && isGameOver == old(isGameOver)
    {
      activePiece := Some(SpawnPlacement(t));
      var hit := CollidesScan(activePiece.value, board, 0, 0);
      if hit {
        EndGame();
        return true;
      }
      UpdateGhostPiece();
      return false;
    }

    /** `holdPiece`. */
    method HoldPiece() returns (ghost next: Option<PieceType>)
      requires Valid() && activePiece.Some?
      modifies this`hold, this`holdUsed, this`queue, this`activePiece, this`ghostPiece
      modifies this`isGameOver, this`isRunning
      ensures Valid()
      ensures HeldFrom(next, old(State()))
    {
      next := None;
      if holdUsed {
        return;
      }
      if hold.None? {
        var t := StashAndSpawn();
        next := Some(t);
      } else {
        StashAndSwap();
      }
    }

    /** The empty-hold branch of `holdPiece`: the active type goes on hold,
        the next piece is spawned from the queue and hold is spent. */
    method StashAndSpawn() returns (ghost next: PieceType)
      requires Stable() && activePiece.Some? && hold.None?
      modifies this`hold, this`holdUsed, this`queue, this`activePiece, this`ghostPiece
      modifies this`isGameOver, this`isRunning
      ensures Valid() && hold == Some(old(activePiece.value.kind)) && holdUsed
      ensures SpawnedFrom(next, old(queue), old(activePiece), old(isRunning), old(isGameOver))
      ensures if Collides(SpawnPlacement(next), board, 0, 0) then ghostPiece == old(ghostPiece) else GhostOk()
    {
      hold := Some(activePiece.value.kind);
      next := SpawnPiece();
      holdUsed := true;
    }

    /** The swap branch of `holdPiece`: the active type goes on hold and the
        held type comes in at its spawn placement; hold is spent unless the
        incoming piece collides and ends the game. */
    method StashAndSwap()
      requires Stable() && activePiece.Some? && hold.Some?
      modifies this`hold, this`holdUsed, this`activePiece, this`ghostPiece, this`isGameOver, this`isRunning
      ensures Valid() && hold == Some(old(activePiece.value.kind))
      ensures activePiece == Some(SpawnPlacement(old(hold.value)))
      ensures Collides(SpawnPlacement(old(hold.value)), board, 0, 0) ==>
        isGameOver && !isRunning && holdUsed == old(holdUsed) && ghostPiece == old(ghostPiece)
      ensures !Collides(SpawnPlacement(old(hold.value)), board, 0, 0) ==>
        holdUsed && GhostOk() && isRunning == old(isRunning) && isGameOver == old(isGameOver)
    {
      var temp := hold.value;
      hold := Some(activePiece.value.kind);
      var ended := SwapIn(temp);
      if ended {
        return;
      }
      holdUsed := true;
    }

    /** The outcome of one gravity step from play state s0, where ghostOk0
        says whether the ghost was right before: the piece falls one row when
        that row is free, leaving everything else and a right ghost as they
        were; otherwise it locks as LockedFrom describes. */
    ghost predicate FellFrom(next: Option<PieceType>, s0: Snapshot, ghostOk0: bool)
      requires s0.activePiece.Some?
      reads this`board, this`activePiece, this`ghostPiece, this`queue, this`hold, this`holdUsed,
            this`isRunning, this`isGameOver, this`linesCleared, this`level, this`score, this`dropInterval
    {
      match next
      case None =>
        var a := s0.activePiece.value;
        !Collides(a, s0.board, 1, 0) && State() == s0.(activePiece := Some(a.(row := a.row + 1))) &&
        (ghostOk0 ==> GhostOk())
      case Some(t) =>
        var a := s0.activePiece.value;
        Collides(a, s0.board, 1, 0) && GhostOk() && LockedFrom(t, s0, a)
    }

    /** The step `update` takes once the drop counter exceeds the gravity
        interval: fall one row, or lock when the row below is blocked. */
    method GravityStep() returns (ghost next: Option<PieceType>)
      requires Valid() && activePiece.Some?
      modifies this`board, this`linesCleared, this`score, this`level, this`dropInterval
      modifies this`queue, this`activePiece, this`holdUsed, this`ghostPiece, this`isGameOver, this`isRunning
      ensures Valid()
      ensures FellFrom(next, old(State()), old(GhostOk()))
    {
      var a := activePiece.value;
      var hit := CollidesScan(a, board, 1, 0);
      if !hit {
        Fall();
        next := None;
      } else {
        var t := LockPiece();
        next := Some(t);
      }
    }

    /** The outcome of `update` at clock reading `time` on a running,
        unpaused game whose play state, ghost check, clock and drop counter
        were s0, ghostOk0, lastTime0 and dropCounter0. */
    ghost predicate AdvancedFrom(next: Option<PieceType>, time: int, s0: Snapshot, ghostOk0: bool,
                                 lastTime0: int, dropCounter0: int)
      reads this`board, this`activePiece, this`ghostPiece, this`queue, this`hold, this`holdUsed,
            this`isRunning, this`isGameOver, this`linesCleared, this`level, this`score, this`dropInterval
      reads this`lastTime, this`dropCounter
    {
      lastTime == time &&
      if dropCounter0 + (time - lastTime0) <= s0.dropInterval then
        next.None? && State() == s0 && dropCounter == dropCounter0 + (time - lastTime0)
      else
        dropCounter == 0 && s0.activePiece.Some? && FellFrom(next, s0, ghostOk0)
    }

    /** The running part of `update`: advance the clock and the drop
        counter, and take a gravity step once the counter exceeds the
        gravity interval. */
    method Advance(time: int) returns (ghost next: Option<PieceType>)
      requires Valid() && isRunning
      modifies this`board, this`linesCleared, this`score, this`level, this`dropInterval
      modifies this`queue, this`activePiece, this`holdUsed, this`ghostPiece, this`isGameOver, this`isRunning
      modifies this`dropCounter, this`lastTime
      ensures Valid()
      ensures AdvancedFrom(next, time, old(State()), old(GhostOk()), old(lastTime), old(dropCounter))
    {
      next := None;
      var delta := time - lastTime;
      lastTime := time;
      dropCounter := dropCounter + delta;
      if dropCounter > dropInterval {
        next := GravityStep();
        dropCounter := 0;
      }
    }

    /** `update(time)`: one animation frame at clock reading `time`. Nothing
        happens unless the game runs unpaused. */
    method Update(time: int) returns (ghost next: Option<PieceType>)
      requires Valid()
      modifies this`board, this`linesCleared, this`score, this`level, this`dropInterval
      modifies this`queue, this`activePiece, this`holdUsed, this`ghostPiece, this`isGameOver, this`isRunning
      modifies this`dropCounter, this`lastTime
      ensures Valid()
      ensures !old(isRunning) || isPaused ==>
        next.None? && State() == old(State()) && lastTime == old(lastTime) && dropCounter == old(dropCounter)
      ensures old(isRunning) && !isPaused ==>
        AdvancedFrom(next, time, old(State()), old(GhostOk()), old(lastTime), old(dropCounter))
    {
      next := None;
      if !isRunning || isPaused {
        return;
      }
      next := Advance(time);
    }

    /** The assignments `startGame` makes before its first spawn: a fresh
        board, a queue of one shuffled bag, an empty hold, the counters back
        to their start values, the game running and unpaused. */
    method ClearForStart()
      requires Valid()
      modifies this`board, this`queue, this`hold, this`holdUsed, this`linesCleared, this`level, this`score
      modifies this`dropInterval, this`dropCounter, this`lastTime, this`isGameOver, this`isRunning, this`isPaused
      ensures Stable()
      ensures board == CreateBoard() && IsBag(queue) && hold == None && !holdUsed
      ensures isRunning && !isPaused && !isGameOver
      ensures score == 0 && linesCleared == 0 && level == 0
      ensures dropInterval == 1000 && dropCounter == 0 && lastTime == 0
    {
      ClearPlayfield();
      queue := [];
      RefillQueue();
      assert queue[0..] == queue;
      hold := None;
      holdUsed := false;
      isGameOver, isRunning, isPaused := false, true, false;
    }

    /** The board and counter part of ClearForStart. */
    method ClearPlayfield()
      modifies this`board, this`linesCleared, this`level, this`score
      modifies this`dropInterval, this`dropCounter, this`lastTime
      ensures board == CreateBoard() && IsBoard(board) && NoFullRow(board)
      ensures score == 0 && linesCleared == 0 && level == 0 && level == LevelFor(linesCleared)
      ensures dropInterval == 1000 && dropInterval == GravityInterval(level)
      ensures dropCounter == 0 && lastTime == 0
    {
      board := CreateBoard();
      CreateBoardNotFull();
      linesCleared, level, score := 0, 0, 0;
      dropInterval, dropCounter, lastTime := 1000, 0, 0;
    }

    /** `startGame`: reset as ClearForStart says, then spawn the first
        piece, which always fits on the empty board. */
    method StartGame() returns (ghost next: PieceType)
      requires Valid()
      modifies this`board, this`linesCleared, this`score, this`level, this`dropInterval
      modifies this`queue, this`activePiece, this`holdUsed, this`ghostPiece, this`isGameOver, this`isRunning
      modifies this`hold, this`isPaused, this`dropCounter, this`lastTime
      ensures Valid() && GhostOk()
      ensures board == CreateBoard() && activePiece == Some(SpawnPlacement(next))
      ensures IsBag([next] + queue) && hold == None && !holdUsed
      ensures isRunning && !isPaused && !isGameOver
      ensures score == 0 && linesCleared == 0 && level == 0
      ensures dropInterval == 1000 && dropCounter == 0 && lastTime == 0
    {
      ClearForStart();
      ghost var bag := queue;
      SpawnFitsEmpty(bag[0]);
      next := SpawnPiece();
      assert [next] + queue == bag;
    }

    /** `togglePause`; `now` is the clock reading `performance.now()`
        gives. Only a running game that is not over can be paused or
        resumed; resuming restarts the frame clock and the drop counter. */
    method TogglePause(now: int)
      modifies this`isPaused, this`lastTime, this`dropCounter
      ensures !isRunning || isGameOver ==>
        isPaused == old(isPaused) && lastTime == old(lastTime) && dropCounter == old(dropCounter)
      ensures isRunning && !isGameOver ==> isPaused == !old(isPaused)
      ensures isRunning && !isGameOver && !isPaused ==> lastTime == now && dropCounter == 0
      ensures isRunning && !isGameOver && isPaused ==>
        lastTime == old(lastTime) && dropCounter == old(dropCounter)
    {
      if !isRunning || isGameOver {
        return;
      }
      isPaused := !isPaused;
      if !isPaused {
        lastTime := now;
        dropCounter := 0;
      }
    }

    /** `resetGame`: stop, clear the board, the queue, the hold and the
        counters. The active piece, its ghost, the hold-used flag and the
        frame clock are left as they were. */
    method ResetGame()
      requires Valid()
      modifies this`isRunning, this`isPaused, this`isGameOver, this`board, this`queue, this`hold
      modifies this`score, this`linesCleared, this`level, this`dropInterval, this`dropCounter
      ensures Valid()
      ensures !isRunning && !isPaused && !isGameOver
      ensures board == CreateBoard() && queue == [] && hold == None
      ensures score == 0 && linesCleared == 0 && level == 0 && dropInterval == 1000 && dropCounter == 0
    {
      isRunning, isPaused, isGameOver := false, false, false;
      board := CreateBoard();
      CreateBoardNotFull();
      queue := [];
      hold := None;
      score, linesCleared, level := 0, 0, 0;
      dropInterval, dropCounter := 1000, 0;
    }

    /** The outcome of command c from play state s0 (ghostOk0 says whether
        the ghost was right): moves act as MovedFrom and turns as
        RotatedFrom say, a soft drop acts as SoftDroppedFrom says, a hard drop
        locks the piece at its landing row, a hold acts as HeldFrom says,
        and an ignored key changes nothing. */
    ghost predicate DispatchedFrom(c: Command, next: Option<PieceType>, landing: int, s0: Snapshot,
                                   ghostOk0: bool)
      requires s0.activePiece.Some? && IsSquare(s0.activePiece.value.matrix)
      reads this`board, this`activePiece, this`ghostPiece, this`queue, this`hold, this`holdUsed,
            this`isRunning, this`isGameOver, this`linesCleared, this`level, this`score, this`dropInterval
    {
      match c
      case Left => next.None? && MovedFrom(-1, s0)
      case Right => next.None? && MovedFrom(1, s0)
      case Clockwise =>
        var a := s0.activePiece.value;
        var r := a.(matrix := Rotate(a.matrix, 1));
        next.None? && RotatedFrom(r, FirstFit(r, s0.board, Kicks), s0)
      case CounterClockwise =>
        var a := s0.activePiece.value;
        var r := a.(matrix := Rotate(a.matrix, -1));
        next.None? && RotatedFrom(r, FirstFit(r, s0.board, Kicks), s0)
      case Down => SoftDroppedFrom(next, s0, ghostOk0)
      case Drop =>
        var a := s0.activePiece.value;
        next.Some? && GhostOk() && IsLanding(a, s0.board, landing) &&
        LockedFrom(next.value, s0, a.(row := landing))
      case HoldSwap => HeldFrom(next, s0)
      case Ignored => next.None? && State() == s0
    }

    /** The `switch` of `handleKeyDown`: run the operation bound to c.
        `next` is the type a drop or a hold took from the queue, `landing`
        the row a hard drop locked at. */
    method Dispatch(c: Command) returns (ghost next: Option<PieceType>, ghost landing: int)
      requires Valid() && isRunning
      modifies this`board, this`linesCleared, this`score, this`level, this`dropInterval
      modifies this`queue, this`activePiece, this`holdUsed, this`ghostPiece, this`isGameOver, this`isRunning
      modifies this`hold
      ensures Valid()
      ensures old(activePiece).Some? && DispatchedFrom(c, next, landing, old(State()), old(GhostOk()))
    {
      next, landing := None, 0;
      match c
      case Left => Move(-1);
      case Right => Move(1);
      case Down => next := SoftDrop();
      case Clockwise => ghost var r, k := RotateActive(1);
      case CounterClockwise => ghost var r, k := RotateActive(-1);
      case Drop =>
        ghost var t;
        landing, t := HardDrop();
        next := Some(t);
      case HoldSwap => next := HoldPiece();
      case Ignored =>
    }

    /** `handleKeyDown` for a key `key` at clock reading `now`. While the game
        is stopped, paused or over only a pause key acts, and only on a
        running game that is not over, where it resumes play; otherwise the
        key runs its command and the pause state and the clock stay. */
    method HandleKeyDown(key: string, now: int) returns (ghost next: Option<PieceType>, ghost landing: int)
      requires Valid()
      modifies this`board, this`linesCleared, this`score, this`level, this`dropInterval
      modifies this`queue, this`activePiece, this`holdUsed, this`ghostPiece, this`isGameOver, this`isRunning
      modifies this`hold, this`isPaused, this`lastTime, this`dropCounter
      ensures Valid()
      ensures !old(isRunning) || old(isPaused) || old(isGameOver) ==>
        next.None? && State() == old(State()) &&
        if IsPauseKey(key) && old(isRunning) && !old(isGameOver) then
          !isPaused && lastTime == now && dropCounter == 0
        else
          isPaused == old(isPaused) && lastTime == old(lastTime) && dropCounter == old(dropCounter)
      ensures old(isRunning) && !old(isPaused) && !old(isGameOver) ==>
        isPaused == old(isPaused) && lastTime == old(lastTime) && dropCounter == old(dropCounter) &&
        old(activePiece).Some? &&
        DispatchedFrom(CommandFor(key), next, landing, old(State()), old(GhostOk()))
    {
      next, landing := None, 0;
      if !isRunning || isPaused || isGameOver {
        KeyWhileHalted(key, now);
        return;
      }
      next, landing := Dispatch(CommandFor(key));
    }

    /** The gated branch of `handleKeyDown`: only a pause key on a running
        game that is not over acts, and it resumes play. */
    method KeyWhileHalted(key: string, now: int)
      requires !isRunning || isPaused || isGameOver
      modifies this`isPaused, this`lastTime, this`dropCounter
      ensures if IsPauseKey(key) && isRunning && !isGameOver then
          !isPaused && lastTime == now && dropCounter == 0
        else
          isPaused == old(isPaused) && lastTime == old(lastTime) && dropCounter == old(dropCounter)
    {
      if IsPauseKey(key) && isRunning && !isGameOver {
        TogglePause(now);
      }
    }

    /** `handleKeyUp`: a pause key toggles the pause. */
    method HandleKeyUp(key: string, now: int)
      modifies this`isPaused, this`lastTime, this`dropCounter
      ensures !IsPauseKey(key) || !isRunning || isGameOver ==>
        isPaused == old(isPaused) && lastTime == old(lastTime) && dropCounter == old(dropCounter)
      ensures IsPauseKey(key) && isRunning && !isGameOver ==>
        isPaused == !old(isPaused) &&
        if isPaused then lastTime == old(lastTime) && dropCounter == old(dropCounter)
        else lastTime == now && dropCounter == 0
    {
      if IsPauseKey(key) {
        TogglePause(now);
      }
    }

    /** One press of a pause key as the handlers are written: `keydown`,
        then `keyup`. On a running game that is not over, the game is paused
        afterwards whatever it was before: a press while paused resumes on
        keydown and pauses again on keyup, so the keyboard cannot resume. */
    method PressPauseKey(key: string, now: int)
      requires Valid() && IsPauseKey(key)
      modifies this`board, this`linesCleared, this`score, this`level, this`dropInterval
      modifies this`queue, this`activePiece, this`holdUsed, this`ghostPiece, this`isGameOver, this`isRunning
      modifies this`hold, this`isPaused, this`lastTime, this`dropCounter
      ensures Valid() && State() == old(State())
      ensures old(isRunning) && !old(isGameOver) ==> isPaused
      ensures !old(isRunning) || old(isGameOver) ==> isPaused == old(isPaused)
    {
      PauseKeysIgnored(key);
      ghost var next, landing := HandleKeyDown(key, now);
      HandleKeyUp(key, now);
    }

    /** `handleKeyDown` with the pause left to `handleKeyUp` alone: while
        the game is stopped, paused or over, every key is ignored. */
    method HandleKeyDownFixed(key: string, now: int) returns (ghost next: Option<PieceType>, ghost landing: int)
      requires Valid()
      modifies this`board, this`linesCleared, this`score, this`level, this`dropInterval
      modifies this`queue, this`activePiece, this`holdUsed, this`ghostPiece, this`isGameOver, this`isRunning
      modifies this`hold
      ensures Valid()
      ensures !old(isRunning) || old(isPaused) || old(isGameOver) ==> next.None? && State() == old(State())
      ensures old(isRunning) && !old(isPaused) && !old(isGameOver) ==>
        old(activePiece).Some? &&
        DispatchedFrom(CommandFor(key), next, landing, old(State()), old(GhostOk()))
    {
      next, landing := None, 0;
      if !isRunning || isPaused || isGameOver {
        return;
      }
      next, landing := Dispatch(CommandFor(key));
    }

    /** One press of a pause key with the corrected keydown handler: on a
        running game that is not over it toggles the pause exactly once,
        otherwise it changes nothing. */
    method PressPauseKeyFixed(key: string, now: int)
      requires Valid() && IsPauseKey(key)
      modifies this`board, this`linesCleared, this`score, this`level, this`dropInterval
      modifies this`queue, this`activePiece, this`holdUsed, this`ghostPiece, this`isGameOver, this`isRunning
      modifies this`hold, this`isPaused, this`lastTime, this`dropCounter
      ensures Valid() && State() == old(State())
      ensures old(isRunning) && !old(isGameOver) ==> isPaused == !old(isPaused)
      ensures !old(isRunning) || old(isGameOver) ==> isPaused == old(isPaused)
    {
      PauseKeysIgnored(key);
      ghost var next, landing := HandleKeyDownFixed(key, now);
      HandleKeyUp(key, now);
    }
  }
}
