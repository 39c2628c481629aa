/** The rules half of `adversarial_search/breakthrough_alpha.py`: the square
    board of rows of cells, the starting position, who wins, and the moves.
    White (`PLAYER_ONE`) moves towards row 0 and Black (`PLAYER_TWO`)
    towards the last row; a pawn steps straight ahead onto an empty cell or
    diagonally ahead onto an opposing pawn, which it captures. */
module BreakthroughRules {
  import opened SeqUtil

  /** `PLAYER_ONE`, `PLAYER_TWO` and `EMPTY`. */
  datatype Cell = White | Black | Empty

  type Board = seq<seq<Cell>>

  /** A square board with at least one row, so that `board[0]` and
      `board[-1]` exist. */
  predicate IsBoard(b: Board)
  {
    |b| >= 1 && forall r :: 0 <= r < |b| ==> |b[r]| == |b|
  }

  predicate IsPlayer(p: Cell)
  {
    p == White || p == Black
  }

  /** `get_opponent`: White for Black, and Black for anything else. */
  function Opponent(p: Cell): Cell
  {
    if p == Black then White else Black
  }

  /** On the two players `get_opponent` swaps sides and undoes itself. */
  lemma OpponentInvolution(p: Cell)
    requires IsPlayer(p)
    ensures IsPlayer(Opponent(p)) && Opponent(p) != p
    ensures Opponent(Opponent(p)) == p
  {
  }

  // ---------------------------------------------------------------------
  // initial_board

  /** The piece a fresh board holds in row `r`: the last row is written
      after row 0, so on a one-row board it wins. */
  function InitialCell(size: int, r: int): Cell
  {
    if r == size - 1 then White else if r == 0 then Black else Empty
  }

  /** What `initial_board(size)` returns. */
  function InitialBoard(size: nat): Board
  {
    seq(size, r => seq(size, c => InitialCell(size, r)))
  }

  /** `initial_board`: an empty `size` by `size` board, then column by
      column Black on row 0 and White on the last row. */
  method InitialBoardOf(size: nat) returns (board: Board)
    ensures board == InitialBoard(size)
  {
    board := seq(size, r => seq(size, c => Empty));
    for i := 0 to size
      invariant |board| == size
      invariant forall r :: 0 <= r < size ==> |board[r]| == size
      invariant forall r, c :: 0 <= r < size && 0 <= c < size ==>
        board[r][c] == if c < i then InitialCell(size, r) else Empty
    {
      board := board[0 := board[0][i := Black]];
      board := board[size - 1 := board[size - 1][i := White]];
    }
    forall r | 0 <= r < size ensures board[r] == InitialBoard(size)[r] {
    }
  }

  // ---------------------------------------------------------------------
  // Counting pieces

  predicate HasPiece(row: seq<Cell>, x: Cell)
  {
    x in row
  }

  /** How often `x` occurs in one row. */
  function CountRow(row: seq<Cell>, x: Cell): nat
    decreases |row|
  {
    if row == [] then 0 else CountRow(row[..|row| - 1], x) + (if row[|row| - 1] == x then 1 else 0)
  }

  /** How often `x` occurs on the board. */
  function CountBoard(b: Board, x: Cell): nat
    decreases |b|
  {
    if b == [] then 0 else CountBoard(b[..|b| - 1], x) + CountRow(b[|b| - 1], x)
  }

  lemma {:induction false} CountRowZero(row: seq<Cell>, x: Cell)
    ensures CountRow(row, x) == 0 <==> !HasPiece(row, x)
    decreases |row|
  {
    if row != [] {
      var init := row[..|row| - 1];
      CountRowZero(init, x);
      assert row == init + [row[|row| - 1]];
    }
  }

  /** No piece `x` on the board exactly when it is in no row. */
  lemma {:induction false} CountBoardZero(b: Board, x: Cell)
    ensures CountBoard(b, x) == 0 <==> forall r :: 0 <= r < |b| ==> !HasPiece(b[r], x)
    decreases |b|
  {
    if b != [] {
      var init := b[..|b| - 1];
      CountBoardZero(init, x);
      CountRowZero(b[|b| - 1], x);
      assert forall r :: 0 <= r < |init| ==> init[r] == b[r];
    }
  }

  /** Writing `v` into cell `c` of a row moves one occurrence from the old
      value to `v`. */
  lemma {:induction false} CountRowSet(row: seq<Cell>, c: int, v: Cell, x: Cell)
    requires 0 <= c < |row|
    ensures CountRow(row[c := v], x) == CountRow(row, x) - (if row[c] == x then 1 else 0) + (if v == x then 1 else 0)
    decreases |row|
  {
    var t := row[c := v];
    if c < |row| - 1 {
      assert t[..|t| - 1] == row[..|row| - 1][c := v];
      CountRowSet(row[..|row| - 1], c, v, x);
    } else {
      assert t[..|t| - 1] == row[..|row| - 1];
    }
  }

  /** `b` with cell `(r, c)` set to `v`. */
  function Set(b: Board, r: int, c: int, v: Cell): Board
    requires 0 <= r < |b| && 0 <= c < |b[r]|
  {
    b[r := b[r][c := v]]
  }

  lemma {:induction false} CountBoardSet(b: Board, r: int, c: int, v: Cell, x: Cell)
    requires 0 <= r < |b| && 0 <= c < |b[r]|
    ensures CountBoard(Set(b, r, c, v), x) == CountBoard(b, x) - (if b[r][c] == x then 1 else 0) + (if v == x then 1 else 0)
    decreases |b|
  {
    var t := Set(b, r, c, v);
    CountRowSet(b[r], c, v, x);
    if r < |b| - 1 {
      assert t[..|t| - 1] == Set(b[..|b| - 1], r, c, v);
      CountBoardSet(b[..|b| - 1], r, c, v, x);
    } else {
      assert t[..|t| - 1] == b[..|b| - 1];
    }
  }

  /** A row holding `v` in every cell counts `v` once per cell and
      nothing else. */
  lemma {:induction false} CountUniform(row: seq<Cell>, v: Cell, x: Cell)
    requires forall j :: 0 <= j < |row| ==> row[j] == v
    ensures CountRow(row, x) == if v == x then |row| else 0
    decreases |row|
  {
    if row != [] {
      CountUniform(row[..|row| - 1], v, x);
    }
  }

  lemma {:induction false} InitialPrefixCount(size: nat, k: int)
    requires 2 <= size && 0 <= k <= size
    ensures CountBoard(InitialBoard(size)[..k], White) == (if k == size then size else 0)
    ensures CountBoard(InitialBoard(size)[..k], Black) == (if k >= 1 then size else 0)
    decreases k
  {
    if k > 0 {
      var b := InitialBoard(size);
      InitialPrefixCount(size, k - 1);
      assert b[..k][..k - 1] == b[..k - 1];
      CountUniform(b[k - 1], InitialCell(size, k - 1), White);
      CountUniform(b[k - 1], InitialCell(size, k - 1), Black);
    }
  }

  /** A board of two rows or more starts with `size` pawns a side and is
      not over for either player; a one-row board is White's single pawn. */
  lemma InitialShape(size: nat)
    ensures size >= 1 ==> IsBoard(InitialBoard(size))
    ensures size == 1 ==> InitialBoard(size) == [[White]]
    ensures size >= 2 ==> CountBoard(InitialBoard(size), White) == size && CountBoard(InitialBoard(size), Black) == size
    ensures size >= 2 ==> !IsTerminal(InitialBoard(size), White) && !IsTerminal(InitialBoard(size), Black)
  {
    var b := InitialBoard(size);
    if size == 1 {
      assert b[0] == [White];
    }
    if size >= 2 {
      var last := b[size - 1];
      InitialPrefixCount(size, size);
      assert b[..size] == b;
      assert b[0][0] == Black && b[size - 1][0] == White;
      assert !HasPiece(b[0], White) by {
        forall j | 0 <= j < size ensures b[0][j] != White {}
      }
      assert !HasPiece(last, Black) by {
        forall j | 0 <= j < size ensures last[j] != Black {}
      }
      assert HasPiece(b[0], Opponent(White)) && HasPiece(b[size - 1], Opponent(Black));
    }
  }

  // ---------------------------------------------------------------------
  // is_terminal and utility_of

  /** The row a player's pawns are heading for. */
  function GoalRow(p: Cell, size: int): int
  {
    if p == White then 0 else size - 1
  }

  /** `is_terminal(board, player)`: the player has a pawn on the opposing
      back row, or the opponent has no pawn left. */
  predicate IsTerminal(b: Board, p: Cell)
    requires |b| >= 1
  {
    || (p == White && HasPiece(b[0], White))
    || (p == Black && HasPiece(b[|b| - 1], Black))
    || !exists r :: 0 <= r < |b| && HasPiece(b[r], Opponent(p))
  }

  /** For a player, the game is over in its favour exactly when one of its
      pawns stands on its goal row or the opponent's piece count is zero. */
  lemma TerminalByCount(b: Board, p: Cell)
    requires |b| >= 1 && IsPlayer(p)
    ensures IsTerminal(b, p) <==> HasPiece(b[GoalRow(p, |b|)], p) || CountBoard(b, Opponent(p)) == 0
  {
    CountBoardZero(b, Opponent(p));
  }

  /** `utility_of(board, player)`. */
  function UtilityOf(b: Board, p: Cell): int
    requires |b| >= 1
  {
    if IsTerminal(b, p) then 1 else if IsTerminal(b, Opponent(p)) then -1 else 0
  }

  /** The utility is a win, a loss or neither; seen from the opponent it
      is the negation, unless the board is a win for both. */
  lemma UtilitySigns(b: Board, p: Cell)
    requires |b| >= 1 && IsPlayer(p)
    ensures -1 <= UtilityOf(b, p) <= 1
    ensures UtilityOf(b, p) == 0 <==> !IsTerminal(b, p) && !IsTerminal(b, Opponent(p))
    ensures !(IsTerminal(b, p) && IsTerminal(b, Opponent(p))) ==> UtilityOf(b, Opponent(p)) == -UtilityOf(b, p)
  {
    OpponentInvolution(p);
  }

  // ---------------------------------------------------------------------
  // successors_of

  /** `direction`: -1 for White and +1 for anything else. */
  function Direction(p: Cell): int
  {
    if p == White then -1 else 1
  }

  /** The board after the pawn on `(r, c)` went to `(nr, nc)`: the deep
      copy with the old cell emptied and the new one taken. */
  function Step(b: Board, r: int, c: int, nr: int, nc: int, p: Cell): Board
    requires IsBoard(b) && 0 <= r < |b| && 0 <= c < |b| && 0 <= nr < |b| && 0 <= nc < |b|
  {
    Set(Set(b, r, c, Empty), nr, nc, p)
  }

  /** A move of `p` from `(r, c)` one row ahead and `dc` columns across:
      straight ahead onto an empty cell, or diagonally onto the opponent. */
  predicate Legal(b: Board, p: Cell, r: int, c: int, dc: int)
    requires IsBoard(b)
  {
    && 0 <= r < |b| && 0 <= c < |b| && b[r][c] == p
    && 0 <= r + Direction(p) < |b|
    && -1 <= dc <= 1 && 0 <= c + dc < |b|
    && b[r + Direction(p)][c + dc] == (if dc == 0 then Empty else Opponent(p))
  }

  function Moved(b: Board, p: Cell, r: int, c: int, dc: int): Board
    requires IsBoard(b) && Legal(b, p, r, c, dc)
  {
    Step(b, r, c, r + Direction(p), c + dc, p)
  }

  ghost predicate IsMove(b: Board, p: Cell, t: Board)
    requires IsBoard(b)
  {
    exists r, c, dc :: Legal(b, p, r, c, dc) && t == Moved(b, p, r, c, dc)
  }

  /** The straight move the loop appends for the pawn on `(r, c)`. */
  function Forward(b: Board, p: Cell, r: int, c: int): seq<Board>
    requires IsBoard(b) && 0 <= r < |b| && 0 <= c < |b| && 0 <= r + Direction(p) < |b|
  {
    if b[r + Direction(p)][c] == Empty then [Step(b, r, c, r + Direction(p), c, p)] else []
  }

  /** The columns `for dc in [-1, 1]` tries for captures. */
  const Diagonals: seq<int> := [-1, 1]

  /** The capture one row ahead and `dc` columns across, if there is one. */
  function Capture(b: Board, p: Cell, r: int, c: int, dc: int): seq<Board>
    requires IsBoard(b) && 0 <= r < |b| && 0 <= c < |b| && 0 <= r + Direction(p) < |b|
  {
    var nr := r + Direction(p);
    var nc := c + dc;
    if 0 <= nc < |b| && b[nr][nc] == Opponent(p) then [Step(b, r, c, nr, nc, p)] else []
  }

  /** The captures for the first `k` of the diagonals. */
  function CapturesUpTo(b: Board, p: Cell, r: int, c: int, k: int): seq<Board>
    requires IsBoard(b) && 0 <= r < |b| && 0 <= c < |b| && 0 <= r + Direction(p) < |b|
    requires 0 <= k <= |Diagonals|
    decreases k
  {
    if k == 0 then [] else CapturesUpTo(b, p, r, c, k - 1) + Capture(b, p, r, c, Diagonals[k - 1])
  }

  /** The boards the loop appends for cell `(r, c)`. */
  function CellMoves(b: Board, p: Cell, r: int, c: int): seq<Board>
    requires IsBoard(b) && 0 <= r < |b| && 0 <= c < |b|
  {
    if b[r][c] != p || !(0 <= r + Direction(p) < |b|) then []
    else Forward(b, p, r, c) + CapturesUpTo(b, p, r, c, |Diagonals|)
  }

  /** The boards of the cells of row `r`, column by column. */
  function RowCells(b: Board, p: Cell, r: int): seq<seq<Board>>
    requires IsBoard(b) && 0 <= r < |b|
  {
    seq(|b|, c requires 0 <= c < |b| => CellMoves(b, p, r, c))
  }

  /** The boards of each row, row by row. */
  function Rows(b: Board, p: Cell): seq<seq<Board>>
    requires IsBoard(b)
  {
    seq(|b|, r requires 0 <= r < |b| => Concat(RowCells(b, p, r)))
  }

  /** What `successors_of(board, player)` returns. */
  function Successors(b: Board, p: Cell): seq<Board>
    requires IsBoard(b)
  {
    Concat(Rows(b, p))
  }

  /** `successors_of`: row by row and column by column, for each pawn of
      the player the straight move, then the captures to the left and to
      the right. Each of its three nested loops is a method of its own. */
  method SuccessorsOf(board: Board, player: Cell) returns (successors: seq<Board>)
    requires IsBoard(board)
    ensures successors == Successors(board, player)
  {
    var size := |board|;
    successors := [];
    for r := 0 to size
      invariant successors == Concat(Rows(board, player)[..r])
    {
      ConcatStep(Rows(board, player), r);
      var row := RowSuccessorsOf(board, player, r);
      successors := successors + row;
    }
    assert Rows(board, player)[..size] == Rows(board, player);
  }

  /** The inner loop of `successors_of` over the columns of row `r`. */
  method RowSuccessorsOf(board: Board, player: Cell, r: int) returns (moves: seq<Board>)
    requires IsBoard(board) && 0 <= r < |board|
    ensures moves == Concat(RowCells(board, player, r))
  {
    moves := [];
    for c := 0 to |board|
      invariant moves == Concat(RowCells(board, player, r)[..c])
    {
      CellStep(board, player, r, c);
      var cell := CellSuccessorsOf(board, player, r, c);
      moves := moves + cell;
    }
    assert RowCells(board, player, r)[..|board|] == RowCells(board, player, r);
  }

  lemma CellStep(b: Board, p: Cell, r: int, c: int)
    requires IsBoard(b) && 0 <= r < |b| && 0 <= c < |b|
    ensures Concat(RowCells(b, p, r)[..c + 1]) == Concat(RowCells(b, p, r)[..c]) + CellMoves(b, p, r, c)
  {
    ConcatStep(RowCells(b, p, r), c);
  }

  /** One more diagonal appends its capture, if any. */
  lemma CaptureStep(b: Board, p: Cell, r: int, c: int, k: int, moves: seq<Board>, forward: seq<Board>)
    requires IsBoard(b) && 0 <= r < |b| && 0 <= c < |b| && 0 <= r + Direction(p) < |b|
    requires 0 <= k < |Diagonals| && moves == forward + CapturesUpTo(b, p, r, c, k)
    ensures moves + Capture(b, p, r, c, Diagonals[k]) == forward + CapturesUpTo(b, p, r, c, k + 1)
  {
  }

  /** The body of the inner loop of `successors_of` for cell `(r, c)`. */
  method CellSuccessorsOf(board: Board, player: Cell, r: int, c: int) returns (moves: seq<Board>)
    requires IsBoard(board) && 0 <= r < |board| && 0 <= c < |board|
    ensures moves == CellMoves(board, player, r, c)
  {
    var size := |board|;
    var direction := if player == White then -1 else 1;
    moves := [];
    if board[r][c] == player {
      var newR := r + direction;
      if 0 <= newR < size {
        if board[newR][c] == Empty {
          var newBoard := Set(board, r, c, Empty);
          newBoard := Set(newBoard, newR, c, player);
          moves := moves + [newBoard];
        }
        assert moves == Forward(board, player, r, c);
        moves := CapturesOf(board, player, r, c, moves);
      }
    }
  }

  /** The `for dc in [-1, 1]` loop for a pawn at `(r, c)` with a row ahead:
      appends each capture onto `forward`. */
  method CapturesOf(board: Board, player: Cell, r: int, c: int, forward: seq<Board>) returns (moves: seq<Board>)
    requires IsBoard(board) && 0 <= r < |board| && 0 <= c < |board| && 0 <= r + Direction(player) < |board|
    ensures moves == forward + CapturesUpTo(board, player, r, c, |Diagonals|)
  {
    var diagonals := Diagonals;
    moves := forward;
    for k := 0 to |diagonals|
      invariant moves == forward + CapturesUpTo(board, player, r, c, k)
    {
      CaptureStep(board, player, r, c, k, moves, forward);
      moves := AppendCapture(board, player, r, c, diagonals[k], moves);
    }
  }

  /** One pass of that loop: the capture `dc` columns across, if the
      opponent stands there. */
  method AppendCapture(board: Board, player: Cell, r: int, c: int, dc: int, before: seq<Board>) returns (moves: seq<Board>)
    requires IsBoard(board) && 0 <= r < |board| && 0 <= c < |board| && 0 <= r + Direction(player) < |board|
    ensures moves == before + Capture(board, player, r, c, dc)
  {
    var size := |board|;
    var newR := r + (if player == White then -1 else 1);
    var nc := c + dc;
    moves := before;
    if 0 <= nc < size && board[newR][nc] == Opponent(player) {
      var newBoard := Set(board, r, c, Empty);
      newBoard := Set(newBoard, newR, nc, player);
      CaptureTaken(board, player, r, c, dc);
      moves := moves + [newBoard];
    } else {
      CaptureNone(board, player, r, c, dc);
    }
  }

  lemma CaptureTaken(b: Board, p: Cell, r: int, c: int, dc: int)
    requires IsBoard(b) && 0 <= r < |b| && 0 <= c < |b| && 0 <= r + Direction(p) < |b|
    requires 0 <= c + dc < |b| && b[r + Direction(p)][c + dc] == Opponent(p)
    ensures Capture(b, p, r, c, dc) == [Set(Set(b, r, c, Empty), r + Direction(p), c + dc, p)]
  {
  }

  lemma CaptureNone(b: Board, p: Cell, r: int, c: int, dc: int)
    requires IsBoard(b) && 0 <= r < |b| && 0 <= c < |b| && 0 <= r + Direction(p) < |b|
    requires !(0 <= c + dc < |b| && b[r + Direction(p)][c + dc] == Opponent(p))
    ensures Capture(b, p, r, c, dc) == []
  {
  }

  /** The straight move, if listed, is the legal move with `dc == 0`. */
  lemma ForwardMember(b: Board, p: Cell, r: int, c: int, t: Board)
    requires IsBoard(b) && 0 <= r < |b| && 0 <= c < |b| && b[r][c] == p && 0 <= r + Direction(p) < |b|
    ensures t in Forward(b, p, r, c) <==> Legal(b, p, r, c, 0) && t == Moved(b, p, r, c, 0)
  {
  }

  /** A listed capture is the legal move with the same `dc`. */
  lemma CaptureMember(b: Board, p: Cell, r: int, c: int, dc: int, t: Board)
    requires IsBoard(b) && 0 <= r < |b| && 0 <= c < |b| && b[r][c] == p && 0 <= r + Direction(p) < |b|
    requires dc == -1 || dc == 1
    ensures t in Capture(b, p, r, c, dc) <==> Legal(b, p, r, c, dc) && t == Moved(b, p, r, c, dc)
  {
  }

  /** The boards listed for one cell are exactly the legal moves from it. */
  lemma CellMovesMember(b: Board, p: Cell, r: int, c: int, t: Board)
    requires IsBoard(b) && 0 <= r < |b| && 0 <= c < |b|
    ensures t in CellMoves(b, p, r, c) <==> exists dc :: Legal(b, p, r, c, dc) && t == Moved(b, p, r, c, dc)
  {
    if b[r][c] == p && 0 <= r + Direction(p) < |b| {
      var left := Capture(b, p, r, c, -1);
      var right := Capture(b, p, r, c, 1);
      assert CapturesUpTo(b, p, r, c, 1) == left;
      assert CellMoves(b, p, r, c) == Forward(b, p, r, c) + left + right;
      ForwardMember(b, p, r, c, t);
      CaptureMember(b, p, r, c, -1, t);
      CaptureMember(b, p, r, c, 1, t);
      if exists dc :: Legal(b, p, r, c, dc) && t == Moved(b, p, r, c, dc) {
        var dc :| Legal(b, p, r, c, dc) && t == Moved(b, p, r, c, dc);
        assert dc == -1 || dc == 0 || dc == 1;
      }
    }
  }

  /** `successors_of` lists exactly the legal moves of the player. */
  lemma SuccessorsMember(b: Board, p: Cell, t: Board)
    requires IsBoard(b)
    ensures t in Successors(b, p) <==> IsMove(b, p, t)
  {
    if t in Successors(b, p) {
      ListedIsMove(b, p, t);
    }
    if IsMove(b, p, t) {
      MoveIsListed(b, p, t);
    }
  }

  lemma ListedIsMove(b: Board, p: Cell, t: Board)
    requires IsBoard(b) && t in Successors(b, p)
    ensures IsMove(b, p, t)
  {
    var rows := Rows(b, p);
    ConcatMember(rows, t);
    var r :| 0 <= r < |rows| && t in rows[r];
    ConcatMember(RowCells(b, p, r), t);
    var c :| 0 <= c < |b| && t in RowCells(b, p, r)[c];
    CellMovesMember(b, p, r, c, t);
  }

  lemma MoveIsListed(b: Board, p: Cell, t: Board)
    requires IsBoard(b) && IsMove(b, p, t)
    ensures t in Successors(b, p)
  {
    var rows := Rows(b, p);
    var r, c, dc :| Legal(b, p, r, c, dc) && t == Moved(b, p, r, c, dc);
    CellMovesMember(b, p, r, c, t);
    assert t in RowCells(b, p, r)[c];
    ConcatMember(RowCells(b, p, r), t);
    assert t in rows[r];
    ConcatMember(rows, t);
  }

  /** A move keeps the board square and of the same size. */
  lemma MovedIsBoard(b: Board, p: Cell, r: int, c: int, dc: int)
    requires IsBoard(b) && Legal(b, p, r, c, dc)
    ensures IsBoard(Moved(b, p, r, c, dc)) && |Moved(b, p, r, c, dc)| == |b|
  {
  }

  /** Setting a cell changes that cell and no other. */
  lemma SetCells(b: Board, r: int, c: int, v: Cell)
    requires IsBoard(b) && 0 <= r < |b| && 0 <= c < |b|
    ensures IsBoard(Set(b, r, c, v))
    ensures forall i, j :: 0 <= i < |b| && 0 <= j < |b| ==>
      Set(b, r, c, v)[i][j] == if i == r && j == c then v else b[i][j]
  {
  }

  /** A move empties the cell it leaves, puts the pawn on the cell it
      reaches and changes no other cell. */
  lemma MoveCells(b: Board, p: Cell, r: int, c: int, dc: int)
    requires IsBoard(b) && Legal(b, p, r, c, dc)
    ensures var t := Moved(b, p, r, c, dc);
      && t[r][c] == Empty && t[r + Direction(p)][c + dc] == p
      && (forall i, j :: 0 <= i < |b| && 0 <= j < |b| && (i != r || j != c) && (i != r + Direction(p) || j != c + dc) ==>
            t[i][j] == b[i][j])
  {
    SetCells(b, r, c, Empty);
    SetCells(Set(b, r, c, Empty), r + Direction(p), c + dc, p);
  }

  /** The mover keeps its number of pawns and the opponent loses one
      exactly on a capture. */
  lemma MoveCounts(b: Board, p: Cell, r: int, c: int, dc: int)
    requires IsBoard(b) && IsPlayer(p) && Legal(b, p, r, c, dc)
    ensures CountBoard(Moved(b, p, r, c, dc), p) == CountBoard(b, p)
    ensures CountBoard(Moved(b, p, r, c, dc), Opponent(p)) == CountBoard(b, Opponent(p)) - (if dc == 0 then 0 else 1)
  {
    OpponentInvolution(p);
    MovedCount(b, p, r, c, dc, p);
    MovedCount(b, p, r, c, dc, Opponent(p));
  }

  /** The count of `x` after a move: the two overwritten cells traded. */
  lemma MovedCount(b: Board, p: Cell, r: int, c: int, dc: int, x: Cell)
    requires IsBoard(b) && Legal(b, p, r, c, dc)
    ensures CountBoard(Moved(b, p, r, c, dc), x) ==
      CountBoard(b, x) - (if b[r][c] == x then 1 else 0) + (if Empty == x then 1 else 0)
      - (if b[r + Direction(p)][c + dc] == x then 1 else 0) + (if p == x then 1 else 0)
  {
    var nr := r + Direction(p);
    var first := Set(b, r, c, Empty);
    CountBoardSet(b, r, c, Empty, x);
    SetCells(b, r, c, Empty);
    assert first[nr][c + dc] == b[nr][c + dc];
    CountBoardSet(first, nr, c + dc, p, x);
  }

  /** Every listed successor is a square board of the same size. */
  lemma SuccessorsAreBoards(b: Board, p: Cell)
    requires IsBoard(b)
    ensures forall k :: 0 <= k < |Successors(b, p)| ==> IsBoard(Successors(b, p)[k]) && |Successors(b, p)[k]| == |b|
  {
    forall k | 0 <= k < |Successors(b, p)|
      ensures IsBoard(Successors(b, p)[k]) && |Successors(b, p)[k]| == |b|
    {
      var t := Successors(b, p)[k];
      SuccessorsMember(b, p, t);
      var r, c, dc :| Legal(b, p, r, c, dc) && t == Moved(b, p, r, c, dc);
      MovedIsBoard(b, p, r, c, dc);
    }
  }

  /** The player has no successor exactly when it has no legal move. */
  lemma NoSuccessors(b: Board, p: Cell)
    requires IsBoard(b)
    ensures Successors(b, p) == [] <==> forall r, c, dc :: !Legal(b, p, r, c, dc)
  {
    if Successors(b, p) != [] {
      SuccessorsMember(b, p, Successors(b, p)[0]);
    } else {
      forall r, c, dc | Legal(b, p, r, c, dc) ensures false {
        SuccessorsMember(b, p, Moved(b, p, r, c, dc));
      }
    }
  }

  /** A move onto the goal row wins the game for the mover. */
  lemma GoalRowWins(b: Board, p: Cell, r: int, c: int, dc: int)
    requires IsBoard(b) && IsPlayer(p) && Legal(b, p, r, c, dc)
    requires r + Direction(p) == GoalRow(p, |b|)
    ensures IsTerminal(Moved(b, p, r, c, dc), p)
  {
    var t := Moved(b, p, r, c, dc);
    MoveCells(b, p, r, c, dc);
    assert t[GoalRow(p, |b|)][c + dc] == p;
    TerminalByCount(t, p);
  }

  /** Capturing the opponent's last pawn wins the game for the mover. */
  lemma LastCaptureWins(b: Board, p: Cell, r: int, c: int, dc: int)
    requires IsBoard(b) && IsPlayer(p) && Legal(b, p, r, c, dc)
    requires dc != 0 && CountBoard(b, Opponent(p)) == 1
    ensures IsTerminal(Moved(b, p, r, c, dc), p)
  {
    MoveCounts(b, p, r, c, dc);
    MovedIsBoard(b, p, r, c, dc);
    TerminalByCount(Moved(b, p, r, c, dc), p);
  }
}
