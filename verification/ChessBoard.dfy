/** The board of the chess example and its rules (example/chess/base/board.c). */
module ChessBoard {

  const NONE := 0
  const PAWN := 1
  const KNIGHT := 2
  const BISHOP := 3
  const ROOK := 4
  const QUEEN := 5
  const KING := 6

  const MININF := -32500
  const MAXINF := 32500

  /** Squares in row-major order: square (y, x) is index 8 * y + x. */
  type Board = b: seq<int> | |b| == 64 witness seq(64, _ => 0)

  datatype Pos = Pos(y: int, x: int) {
    predicate Valid() {
      0 <= y < 8 && 0 <= x < 8
    }
    function Index(): (i: nat)
      requires Valid()
    {
      8 * y + x
    }
  }

  datatype Move = Move(from: Pos, to: Pos)

  const MOVE_INVALID := Move(Pos(9, 9), Pos(9, 9))

  /** What the search reads and never changes: the previous move (en passant), the
      castling-rights mask and the leaf evaluation. */
  datatype Rules = Rules(last: Move, rochade: seq<bool>, leaf: (Board, int) -> int)

  ghost predicate ValidRules(g: Rules) {
    && |g.rochade| == 4
    && forall b: Board, player :: MININF <= g.leaf(b, player) <= MAXINF
  }

  predicate IsPlayer(player: int) {
    player == 1 || player == -1
  }

  predicate ValidPieces(b: Board) {
    forall i :: 0 <= i < 64 ==> -KING <= b[i] <= KING
  }

  function At(b: Board, y: int, x: int): (piece: int) {
    if Pos(y, x).Valid() then b[8 * y + x] else NONE
  }

  function Abs(v: int): (r: nat) {
    if v < 0 then -v else v
  }

  function Sign(v: int): (r: int) {
    if v > 0 then 1 else if v < 0 then -1 else 0
  }

  function Max(v: int, w: int): (r: int) {
    if v < w then w else v
  }

  predicate HasKing(b: Board, player: int) {
    exists i :: 0 <= i < 64 && b[i] == KING * player
  }

  // ---------------------------------------------------------------------------
  // Legality (board_capture, board_canMove)

  /** The square i steps from one square towards another. */
  function Towards(from: Pos, to: Pos, i: int): (p: Pos) {
    Pos(from.y + i * Sign(to.y - from.y), from.x + i * Sign(to.x - from.x))
  }

  /** Every square strictly between two squares of one row, column or diagonal is empty. */
  predicate PathClear(b: Board, from: Pos, to: Pos) {
    forall i {:trigger Towards(from, to, i)} :: 1 <= i < Max(Abs(to.y - from.y), Abs(to.x - from.x)) ==>
      At(b, Towards(from, to, i).y, Towards(from, to, i).x) == NONE
  }

  predicate Straight(from: Pos, to: Pos) {
    (from.x == to.x) != (from.y == to.y)
  }

  predicate Diagonal(from: Pos, to: Pos) {
    from != to && Abs(from.y - to.y) == Abs(from.x - to.x)
  }

  predicate KnightJump(from: Pos, to: Pos) {
    || (Abs(from.y - to.y) == 2 && Abs(from.x - to.x) == 1)
    || (Abs(from.y - to.y) == 1 && Abs(from.x - to.x) == 2)
  }

  predicate Adjacent(from: Pos, to: Pos) {
    from != to && Abs(from.y - to.y) <= 1 && Abs(from.x - to.x) <= 1
  }

  /** An opponent piece `fig` of `player` standing on `from` threatens `to`. */
  predicate Threatens(b: Board, fig: int, from: Pos, to: Pos, player: int) {
    || (fig == PAWN && to.y == from.y - player && Abs(to.x - from.x) == 1)
    || (fig == KNIGHT && KnightJump(from, to))
    || (fig == KING && Adjacent(from, to))
    || ((fig == ROOK || fig == QUEEN) && Straight(from, to) && PathClear(b, from, to))
    || ((fig == BISHOP || fig == QUEEN) && Diagonal(from, to) && PathClear(b, from, to))
  }

  /** What stands on `from` threatens `to`. */
  predicate Threat(b: Board, from: Pos, to: Pos, player: int)
    requires from.Valid()
  {
    Threatens(b, b[from.Index()] * player * -1, from, to, player)
  }

  /** Bit (y, x) of board_capture(player). */
  predicate Captured(b: Board, player: int, to: Pos) {
    exists y, x :: 0 <= y < 8 && 0 <= x < 8 && Threat(b, Pos(y, x), to, player)
  }

  predicate RochadePossible(g: Rules, x: int, player: int)
    requires |g.rochade| == 4 && 0 <= x
  {
    !g.rochade[(if player < 0 then 2 else 0) + x % 2]
  }

  predicate PawnMove(g: Rules, b: Board, m: Move, player: int)
    requires m.from.Valid() && m.to.Valid()
  {
    var to := At(b, m.to.y, m.to.x);
    if m.from.x == m.to.x && to == NONE &&
       (m.to.y - m.from.y == player ||
        (m.to.y - m.from.y == 2 * player && At(b, player + m.from.y, m.from.x) == NONE &&
         m.from.y == (if player > 0 then 1 else 6))) then
      true
    else
      && Abs(m.from.x - m.to.x) == 1
      && m.to.y - m.from.y == player
      && (to * player < 0 ||
          (g.last.to.Valid() && At(b, g.last.to.y, g.last.to.x) == -player &&
           Abs(g.last.to.y - g.last.from.y) == 2 && g.last.to.y == m.from.y &&
           g.last.to.x == g.last.from.x && g.last.to.x == m.to.x))
  }

  /** The rook for castling to column x stands and may castle, and the squares up to the king are empty. */
  predicate RookReady(g: Rules, b: Board, y: int, x: int, player: int)
    requires |g.rochade| == 4
  {
    if x == 2 then
      At(b, y, 0) == ROOK * player && At(b, y, 1) == NONE && At(b, y, 2) == NONE && At(b, y, 3) == NONE && RochadePossible(g, 0, player)
    else
      At(b, y, 7) == ROOK * player && At(b, y, 6) == NONE && At(b, y, 5) == NONE && RochadePossible(g, 7, player)
  }

  predicate Castling(g: Rules, b: Board, m: Move, player: int)
    requires m.from.Valid() && m.to.Valid() && |g.rochade| == 4
  {
    var y := m.from.y;
    && m.from.x == 4
    && y == (if player < 0 then 7 else 0)
    && m.to.y == y
    && !Captured(b, player, m.from)
    && (m.to.x == 2 || m.to.x == 6) && RookReady(g, b, y, m.to.x, player)
    && !Captured(b, player, Pos(y, if m.to.x == 2 then 3 else 5))
  }

  /** The part of board_canMove for each piece. */
  predicate Judged(g: Rules, b: Board, m: Move, player: int, piece: int)
    requires |g.rochade| == 4 && m.from.Valid() && m.to.Valid()
  {
    || (piece == PAWN && PawnMove(g, b, m, player))
    || ((piece == ROOK || piece == QUEEN) && Straight(m.from, m.to) && PathClear(b, m.from, m.to))
    || ((piece == BISHOP || piece == QUEEN) && Diagonal(m.from, m.to) && PathClear(b, m.from, m.to))
    || (piece == KNIGHT && KnightJump(m.from, m.to))
    || (piece == KING && !Captured(b, player, m.to) && (Castling(g, b, m, player) || Adjacent(m.from, m.to)))
  }

  /** board_canMove. */
  predicate CanMove(g: Rules, b: Board, m: Move, player: int)
    requires |g.rochade| == 4
  {
    && m.from.Valid() && m.to.Valid() && IsPlayer(player) && m.from != m.to
    && var piece := b[m.from.Index()] * player;
       && piece > 0
       && b[m.to.Index()] * player <= 0
       && Judged(g, b, m, player, piece)
  }

  // ---------------------------------------------------------------------------
  // What legality means on the squares of the board

  /** Strictly between two rows or columns. */
  predicate Between(a: int, i: int, c: int) {
    a < i < c || c < i < a
  }

  /** The player moves this piece to another square, which is empty or has a piece of the opponent. */
  predicate Moves(g: Rules, b: Board, m: Move, player: int, piece: int) {
    && |g.rochade| == 4 && IsPlayer(player) && m.from.Valid() && m.to.Valid() && m.from != m.to
    && b[8 * m.from.y + m.from.x] == piece * player && b[8 * m.to.y + m.to.x] * player <= 0
  }

  lemma TowardsIs(from: Pos, to: Pos, i: int)
    ensures var p := Towards(from, to, i);
            && p.y == (if to.y > from.y then from.y + i else if to.y < from.y then from.y - i else from.y)
            && p.x == (if to.x > from.x then from.x + i else if to.x < from.x then from.x - i else from.x)
  {
  }

  /** Squares on a line from one square to another, `slope` columns further per row. */
  predicate Line(from: Pos, to: Pos, slope: int) {
    from.Valid() && to.Valid() && from.y != to.y && -1 <= slope <= 1 && to.x == Crossing(from, slope, to.y)
  }

  /** The column in which such a line crosses a row. */
  function Crossing(from: Pos, slope: int, y: int): (x: int) {
    if slope == 0 then from.x else if slope > 0 then from.x + (y - from.y) else from.x - (y - from.y)
  }

  lemma LineSquare(from: Pos, to: Pos, slope: int, y: int)
    requires Line(from, to, slope) && Between(from.y, y, to.y)
    ensures 1 <= Abs(y - from.y) < Abs(to.y - from.y) && 0 <= Crossing(from, slope, y) < 8
    ensures Towards(from, to, Abs(y - from.y)) == Pos(y, Crossing(from, slope, y))
  {
    TowardsIs(from, to, Abs(y - from.y));
  }

  lemma LineStep(from: Pos, to: Pos, slope: int, i: int)
    requires Line(from, to, slope) && 1 <= i < Abs(to.y - from.y)
    ensures var p := Towards(from, to, i); Between(from.y, p.y, to.y) && p.x == Crossing(from, slope, p.y)
  {
    TowardsIs(from, to, i);
  }

  /** Every row that the line crosses before its end has an empty square there. */
  ghost predicate Empty(b: Board, from: Pos, to: Pos, slope: int) {
    forall y :: Between(from.y, y, to.y) ==> At(b, y, Crossing(from, slope, y)) == NONE
  }

  lemma LineClear(b: Board, from: Pos, to: Pos, slope: int)
    requires Line(from, to, slope)
    ensures PathClear(b, from, to) <==> Empty(b, from, to, slope)
  {
    assert Max(Abs(to.y - from.y), Abs(to.x - from.x)) == Abs(to.y - from.y);
    if PathClear(b, from, to) {
      forall y | Between(from.y, y, to.y) ensures At(b, y, Crossing(from, slope, y)) == NONE {
        LineSquare(from, to, slope, y);
      }
    }
    if Empty(b, from, to, slope) {
      forall i | 1 <= i < Abs(to.y - from.y) ensures At(b, Towards(from, to, i).y, Towards(from, to, i).x) == NONE {
        LineStep(from, to, slope, i);
      }
    }
  }

  lemma RisingClear(b: Board, from: Pos, to: Pos)
    requires Line(from, to, 1)
    ensures PathClear(b, from, to) <==> forall y :: Between(from.y, y, to.y) ==> b[8 * y + from.x + (y - from.y)] == NONE
  {
    LineClear(b, from, to, 1);
    forall y | Between(from.y, y, to.y) ensures At(b, y, Crossing(from, 1, y)) == b[8 * y + from.x + (y - from.y)] {
    }
  }

  lemma FallingClear(b: Board, from: Pos, to: Pos)
    requires Line(from, to, -1)
    ensures PathClear(b, from, to) <==> forall y :: Between(from.y, y, to.y) ==> b[8 * y + from.x - (y - from.y)] == NONE
  {
    LineClear(b, from, to, -1);
    forall y | Between(from.y, y, to.y) ensures At(b, y, Crossing(from, -1, y)) == b[8 * y + from.x - (y - from.y)] {
    }
  }

  ghost predicate EmptyRow(b: Board, from: Pos, to: Pos) {
    forall x :: Between(from.x, x, to.x) ==> At(b, from.y, x) == NONE
  }

  lemma RowStep(from: Pos, to: Pos, i: int)
    requires from.y == to.y && 1 <= i < Abs(to.x - from.x)
    ensures var p := Towards(from, to, i); Between(from.x, p.x, to.x) && p.y == from.y
  {
    TowardsIs(from, to, i);
  }

  lemma RowClear(b: Board, from: Pos, to: Pos)
    requires from.Valid() && to.Valid() && from.y == to.y
    ensures PathClear(b, from, to) <==> EmptyRow(b, from, to)
  {
    if PathClear(b, from, to) {
      forall x | Between(from.x, x, to.x) ensures At(b, from.y, x) == NONE {
        TowardsIs(from, to, Abs(x - from.x));
        assert Towards(from, to, Abs(x - from.x)) == Pos(from.y, x);
      }
    }
    if EmptyRow(b, from, to) {
      forall i | 1 <= i < Abs(to.x - from.x) ensures At(b, Towards(from, to, i).y, Towards(from, to, i).x) == NONE {
        RowStep(from, to, i);
      }
    }
  }

  /** Along a column or a row over empty squares. */
  ghost predicate ClearLine(b: Board, from: Pos, to: Pos)
    requires from.Valid() && to.Valid()
  {
    || (from.x == to.x && forall y :: Between(from.y, y, to.y) ==> b[8 * y + from.x] == NONE)
    || (from.y == to.y && forall x :: Between(from.x, x, to.x) ==> b[8 * from.y + x] == NONE)
  }

  /** Along one of the two diagonals over empty squares. */
  ghost predicate ClearDiagonal(b: Board, from: Pos, to: Pos)
    requires from.Valid() && to.Valid()
  {
    || (to.x - from.x == to.y - from.y && forall y :: Between(from.y, y, to.y) ==> b[8 * y + from.x + (y - from.y)] == NONE)
    || (to.x - from.x == from.y - to.y && forall y :: Between(from.y, y, to.y) ==> b[8 * y + from.x - (y - from.y)] == NONE)
  }

  lemma StraightIff(b: Board, from: Pos, to: Pos)
    requires from.Valid() && to.Valid() && from != to
    ensures Straight(from, to) && PathClear(b, from, to) <==> ClearLine(b, from, to)
  {
    if from.x == to.x {
      LineClear(b, from, to, 0);
    } else if from.y == to.y {
      RowClear(b, from, to);
    }
  }

  lemma DiagonalIff(b: Board, from: Pos, to: Pos)
    requires from.Valid() && to.Valid() && from != to
    ensures Diagonal(from, to) && PathClear(b, from, to) <==> ClearDiagonal(b, from, to)
  {
    if to.x - from.x == to.y - from.y {
      RisingClear(b, from, to);
    } else if to.x - from.x == from.y - to.y {
      FallingClear(b, from, to);
    }
  }

  lemma RookMovesIff(g: Rules, b: Board, m: Move, player: int)
    requires Moves(g, b, m, player, ROOK)
    ensures CanMove(g, b, m, player) <==> ClearLine(b, m.from, m.to)
  {
    MovesAs(g, b, m, player, ROOK);
    StraightIff(b, m.from, m.to);
  }

  lemma BishopMovesIff(g: Rules, b: Board, m: Move, player: int)
    requires Moves(g, b, m, player, BISHOP)
    ensures CanMove(g, b, m, player) <==> ClearDiagonal(b, m.from, m.to)
  {
    MovesAs(g, b, m, player, BISHOP);
    DiagonalIff(b, m.from, m.to);
  }

  lemma QueenMovesIff(g: Rules, b: Board, m: Move, player: int)
    requires Moves(g, b, m, player, QUEEN)
    ensures CanMove(g, b, m, player) <==> ClearLine(b, m.from, m.to) || ClearDiagonal(b, m.from, m.to)
  {
    MovesAs(g, b, m, player, QUEEN);
    StraightIff(b, m.from, m.to);
    DiagonalIff(b, m.from, m.to);
  }

  /** The piece of a player on a square. */
  lemma Owner(v: int, piece: int, player: int)
    requires IsPlayer(player)
    ensures v == piece * player <==> v * player == piece
    ensures v == -piece * player <==> v * player * -1 == piece
    ensures v * player * -1 == v * -player
  {
    if player == 1 {
    } else {
    }
  }

  /** Only moves of an own piece to another square without one are legal. */
  lemma LegalMoves(g: Rules, b: Board, m: Move, player: int)
    requires |g.rochade| == 4 && CanMove(g, b, m, player)
    ensures exists piece :: PAWN <= piece <= KING && Moves(g, b, m, player, piece)
  {
    var piece := b[m.from.Index()] * player;
    Owner(b[m.from.Index()], piece, player);
    assert Moves(g, b, m, player, piece);
  }

  /** How a move of this piece is judged. */
  lemma MovesAs(g: Rules, b: Board, m: Move, player: int, piece: int)
    requires Moves(g, b, m, player, piece)
    ensures PAWN <= piece ==> (CanMove(g, b, m, player) <==> Judged(g, b, m, player, piece))
  {
    Owner(b[m.from.Index()], piece, player);
  }

  /** A knight goes two squares one way and one the other, whatever stands between. */
  lemma KnightMovesIff(g: Rules, b: Board, m: Move, player: int)
    requires Moves(g, b, m, player, KNIGHT)
    ensures CanMove(g, b, m, player) <==>
              (m.to.y - m.from.y, m.to.x - m.from.x) in {(1, 2), (1, -2), (-1, 2), (-1, -2), (2, 1), (2, -1), (-2, 1), (-2, -1)}
  {
    MovesAs(g, b, m, player, KNIGHT);
  }

  /** The last move was two rows of a pawn of the opponent, and ended next to the moved piece in the target column. */
  predicate Passed(g: Rules, b: Board, m: Move, player: int) {
    && g.last.to == Pos(m.from.y, m.to.x) && g.last.from.x == m.to.x
    && (g.last.from.y == m.from.y + 2 || g.last.from.y == m.from.y - 2)
    && m.from.Valid() && m.to.Valid() && b[8 * m.from.y + m.to.x] == -player
  }

  /** A pawn advances by one row onto an empty square, by two from its first row over an empty square onto one, or
      diagonally by one row onto a piece of the opponent or behind a pawn that just passed. */
  lemma PawnMovesIff(g: Rules, b: Board, m: Move, player: int)
    requires Moves(g, b, m, player, PAWN)
    ensures var target := b[8 * m.to.y + m.to.x];
            CanMove(g, b, m, player) <==>
              || (m.to == Pos(m.from.y + player, m.from.x) && target == NONE)
              || (m.from.y == (if player == 1 then 1 else 6) && m.to == Pos(m.from.y + 2 * player, m.from.x) && target == NONE && At(b, m.from.y + player, m.from.x) == NONE)
              || (m.to == Pos(m.from.y + player, m.from.x + 1) && (target != NONE || Passed(g, b, m, player)))
              || (m.to == Pos(m.from.y + player, m.from.x - 1) && (target != NONE || Passed(g, b, m, player)))
  {
    MovesAs(g, b, m, player, PAWN);
  }

  /** A king goes to a square that is not captured: a neighbouring one, or the one for castling, if it is not captured
      either where it stands and on the square it crosses. */
  lemma KingMovesIff(g: Rules, b: Board, m: Move, player: int)
    requires Moves(g, b, m, player, KING)
    ensures CanMove(g, b, m, player) <==>
              && !Captured(b, player, m.to)
              && (|| (-1 <= m.to.y - m.from.y <= 1 && -1 <= m.to.x - m.from.x <= 1)
                  || (MayCastle(g, b, m, player) && !Captured(b, player, m.from) && !Captured(b, player, Pos(m.from.y, (m.from.x + m.to.x) / 2))))
  {
    MovesAs(g, b, m, player, KING);
    CastlesIff(g, b, m, player);
  }

  /** The king stands on its first square, the rook of the side it moves to is on its own one and never moved, and the
      squares between them are empty. */
  ghost predicate MayCastle(g: Rules, b: Board, m: Move, player: int)
    requires |g.rochade| == 4
  {
    var y := if player == 1 then 0 else 7;
    && m.from == Pos(y, 4)
    && (|| (m.to == Pos(y, 2) && b[8 * y] == ROOK * player && !g.rochade[if player == 1 then 0 else 2] && forall x :: Between(0, x, 4) ==> b[8 * y + x] == NONE)
        || (m.to == Pos(y, 6) && b[8 * y + 7] == ROOK * player && !g.rochade[if player == 1 then 1 else 3] && forall x :: Between(4, x, 7) ==> b[8 * y + x] == NONE))
  }

  lemma RookReadyIff(g: Rules, b: Board, player: int)
    requires |g.rochade| == 4 && IsPlayer(player)
    ensures var y := if player == 1 then 0 else 7;
            && (MayCastle(g, b, Move(Pos(y, 4), Pos(y, 2)), player) <==> RookReady(g, b, y, 2, player))
            && (MayCastle(g, b, Move(Pos(y, 4), Pos(y, 6)), player) <==> RookReady(g, b, y, 6, player))
  {
    assert Between(0, 1, 4) && Between(0, 2, 4) && Between(0, 3, 4) && Between(4, 5, 7) && Between(4, 6, 7);
  }

  lemma CastlesIff(g: Rules, b: Board, m: Move, player: int)
    requires |g.rochade| == 4 && IsPlayer(player) && m.from.Valid() && m.to.Valid()
    ensures Castling(g, b, m, player) <==>
              MayCastle(g, b, m, player) && !Captured(b, player, m.from) && !Captured(b, player, Pos(m.from.y, (m.from.x + m.to.x) / 2))
  {
    RookReadyIff(g, b, player);
    var y := if player == 1 then 0 else 7;
    if m == Move(Pos(y, 4), Pos(y, 2)) {
      assert Pos(m.from.y, (m.from.x + m.to.x) / 2) == Pos(y, 3);
    } else if m == Move(Pos(y, 4), Pos(y, 6)) {
      assert Pos(m.from.y, (m.from.x + m.to.x) / 2) == Pos(y, 5);
    } else {
      assert !MayCastle(g, b, m, player);
    }
  }

  // ---------------------------------------------------------------------------
  // Captured squares

  /** The opponent could take a piece of the player that stands on `to`; its king has to stand next to it. */
  ghost predicate CouldTake(g: Rules, b: Board, from: Pos, to: Pos, player: int)
    requires |g.rochade| == 4 && from.Valid() && to.Valid()
  {
    if b[from.Index()] == -KING * player then from != to && -1 <= to.y - from.y <= 1 && -1 <= to.x - from.x <= 1
    else from != to && CanMove(g, b[to.Index() := player], Move(from, to), -player)
  }

  /** What stands on the last square does not matter for the path. */
  lemma SamePath(b: Board, from: Pos, to: Pos, piece: int)
    requires from.Valid() && to.Valid()
    ensures PathClear(b[to.Index() := piece], from, to) <==> PathClear(b, from, to)
  {
    var c := b[to.Index() := piece];
    forall i | 1 <= i < Max(Abs(to.y - from.y), Abs(to.x - from.x))
      ensures At(c, Towards(from, to, i).y, Towards(from, to, i).x) == At(b, Towards(from, to, i).y, Towards(from, to, i).x)
    {
      TowardsIs(from, to, i);
      assert Towards(from, to, i) != to;
    }
  }

  /** Taking a piece of the player on `to` is judged like a threat. */
  lemma TakesIff(g: Rules, b: Board, from: Pos, to: Pos, player: int, fig: int)
    requires |g.rochade| == 4 && IsPlayer(player) && from.Valid() && to.Valid() && from != to && PAWN <= fig < KING
    ensures Judged(g, b[to.Index() := player], Move(from, to), -player, fig) <==> Threatens(b, fig, from, to, player)
  {
    SamePath(b, from, to, player);
    if fig == PAWN {
      assert At(b[to.Index() := player], to.y, to.x) * -player < 0;
    }
  }

  lemma ThreatensIff(g: Rules, b: Board, from: Pos, to: Pos, player: int)
    requires |g.rochade| == 4 && IsPlayer(player) && from.Valid() && to.Valid()
    ensures Threat(b, from, to, player) <==> CouldTake(g, b, from, to, player)
  {
    var fig := b[from.Index()] * player * -1;
    Owner(b[from.Index()], KING, player);
    Owner(b[from.Index()], fig, player);
    if from != to && fig != KING {
      var c := b[to.Index() := player];
      assert c[from.Index()] == b[from.Index()];
      if PAWN <= fig < KING {
        TakesIff(g, b, from, to, player, fig);
        assert Moves(g, c, Move(from, to), -player, fig);
        MovesAs(g, c, Move(from, to), -player, fig);
      }
    }
  }

  /** A square is captured if and only if the opponent could take a piece on it. */
  lemma CapturedIff(g: Rules, b: Board, player: int, to: Pos)
    requires |g.rochade| == 4 && IsPlayer(player) && to.Valid()
    ensures Captured(b, player, to) <==> exists from: Pos :: from.Valid() && CouldTake(g, b, from, to, player)
  {
    forall from: Pos | from.Valid() ensures Threat(b, from, to, player) <==> CouldTake(g, b, from, to, player) {
      ThreatensIff(g, b, from, to, player);
    }
    if from: Pos :| from.Valid() && Threat(b, from, to, player) {
      assert Threat(b, Pos(from.y, from.x), to, player);
    }
  }
}
