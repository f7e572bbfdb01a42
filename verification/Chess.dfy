/** The alpha-beta search of the chess example (example/chess/base/ai.c). */
module Chess {
  import opened ChessBoard

  // ---------------------------------------------------------------------------
  // Plain negamax: the reference

  /** Every legal move except the king's two-square castling step. */
  predicate Playable(g: Rules, b: Board, m: Move, player: int)
    requires |g.rochade| == 4
  {
    CanMove(g, b, m, player) && (b[m.from.Index()] * player == KING ==> Adjacent(m.from, m.to))
  }

  /** The board after a move, with promotion to a queen. */
  function Apply(b: Board, m: Move, player: int): (r: Board)
    requires m.from.Valid() && m.to.Valid()
  {
    var piece := b[m.from.Index()];
    var row := if player > 0 then 7 else 0;
    b[m.from.Index() := NONE][m.to.Index() := if piece == player && m.to.y == row then QUEEN * player else piece]
  }

  /** A move empties its first square and puts the piece on the second one, or a queen for a pawn that reaches the last
      row; no other square changes. */
  lemma AppliedSquare(b: Board, m: Move, player: int, p: Pos)
    requires IsPlayer(player) && m.from.Valid() && m.to.Valid() && m.from != m.to && p.Valid()
    ensures var piece := b[8 * m.from.y + m.from.x];
            Apply(b, m, player)[8 * p.y + p.x] ==
              if p == m.from then NONE
              else if p != m.to then b[8 * p.y + p.x]
              else if piece == PAWN * player && p.y == (if player == 1 then 7 else 0) then QUEEN * player
              else piece
  {
    assert m.from.Index() != m.to.Index();
  }

  function Square(i: nat): (p: Pos)
    requires i < 64
    ensures p.Valid() && p.Index() == i
  {
    Pos(i / 8, i % 8)
  }

  /** The moves numbered 0 .. 4095, one for each pair of squares. */
  function MoveOf(k: nat): (m: Move)
    requires k < 4096
    ensures m.from.Valid() && m.to.Valid()
  {
    Move(Square(k / 64), Square(k % 64))
  }

  function Nat(depth: int): (r: nat) {
    if depth < 0 then 0 else depth
  }

  /** Plain negamax over all playable moves, without a window. */
  ghost function Value(g: Rules, b: Board, depth: int, player: int): (v: int)
    requires ValidRules(g)
    ensures MININF <= v <= MAXINF
    decreases Nat(depth), 5000
  {
    if !HasKing(b, player) then MININF
    else if depth <= 0 then g.leaf(b, player)
    else BestOf(g, b, depth, player, 4096)
  }

  ghost function BestOf(g: Rules, b: Board, depth: int, player: int, k: nat): (v: int)
    requires ValidRules(g) && 0 < depth && k <= 4096
    ensures MININF <= v <= MAXINF
    decreases Nat(depth), k
  {
    if k == 0 then MININF
    else
      var m := MoveOf(k - 1);
      var rest := BestOf(g, b, depth, player, k - 1);
      if Playable(g, b, m, player) then Max(rest, MoveValue(g, b, depth, player, m)) else rest
  }

  /** What playing m is worth to the player. */
  ghost function MoveValue(g: Rules, b: Board, depth: int, player: int, m: Move): (v: int)
    requires ValidRules(g) && 0 < depth && m.from.Valid() && m.to.Valid()
    ensures MININF <= v <= MAXINF
    decreases Nat(depth), 0
  {
    -Value(g, Apply(b, m, player), depth - 1, -player)
  }

  lemma MoveOfOnto(m: Move) returns (k: nat)
    requires m.from.Valid() && m.to.Valid()
    ensures k < 4096 && MoveOf(k) == m
  {
    k := 64 * m.from.Index() + m.to.Index();
    SplitNumber(m.from.Index(), m.to.Index());
    SquareOfIndex(m.from);
    SquareOfIndex(m.to);
  }

  lemma SplitNumber(high: nat, low: nat)
    requires high < 64 && low < 64
    ensures 64 * high + low < 4096 && (64 * high + low) / 64 == high && (64 * high + low) % 64 == low
  {
  }

  lemma SquareOfIndex(p: Pos)
    requires p.Valid()
    ensures p.Index() < 64 && Square(p.Index()) == p
  {
  }

  lemma BestOfNext(g: Rules, b: Board, depth: int, player: int, k: nat, m: Move)
    requires ValidRules(g) && 0 < depth && 0 < k <= 4096 && m == MoveOf(k - 1)
    ensures BestOf(g, b, depth, player, k - 1) <= BestOf(g, b, depth, player, k)
    ensures Playable(g, b, m, player) ==> MoveValue(g, b, depth, player, m) <= BestOf(g, b, depth, player, k)
  {
  }

  lemma {:induction false} BestOfIsUpperBound(g: Rules, b: Board, depth: int, player: int, k: nat, j: nat)
    requires ValidRules(g) && 0 < depth && j < k <= 4096
    requires Playable(g, b, MoveOf(j), player)
    ensures MoveValue(g, b, depth, player, MoveOf(j)) <= BestOf(g, b, depth, player, k)
    decreases k
  {
    if j < k - 1 {
      BestOfIsUpperBound(g, b, depth, player, k - 1, j);
      BestOfNext(g, b, depth, player, k, MoveOf(k - 1));
    } else {
      BestOfNext(g, b, depth, player, k, MoveOf(j));
    }
  }

  lemma {:induction false} BestOfIsAttained(g: Rules, b: Board, depth: int, player: int, k: nat)
    requires ValidRules(g) && 0 < depth && k <= 4096
    ensures BestOf(g, b, depth, player, k) == MININF ||
            exists m :: Playable(g, b, m, player) &&
              MoveValue(g, b, depth, player, m) == BestOf(g, b, depth, player, k)
    decreases k
  {
    if k != 0 {
      BestOfIsAttained(g, b, depth, player, k - 1);
      if Playable(g, b, MoveOf(k - 1), player) &&
         BestOf(g, b, depth, player, k) == MoveValue(g, b, depth, player, MoveOf(k - 1)) {
      } else {
        assert BestOf(g, b, depth, player, k) == BestOf(g, b, depth, player, k - 1);
      }
    }
  }

  /** The reference value is the maximum over all playable moves. */
  lemma ValueIsMaximum(g: Rules, b: Board, depth: int, player: int)
    requires ValidRules(g) && 0 < depth && HasKing(b, player)
    ensures forall m :: Playable(g, b, m, player) ==>
              MoveValue(g, b, depth, player, m) <= Value(g, b, depth, player)
    ensures Value(g, b, depth, player) == MININF ||
            exists m :: Playable(g, b, m, player) &&
              MoveValue(g, b, depth, player, m) == Value(g, b, depth, player)
  {
    forall m | Playable(g, b, m, player)
      ensures MoveValue(g, b, depth, player, m) <= Value(g, b, depth, player)
    {
      var k := MoveOfOnto(m);
      BestOfIsUpperBound(g, b, depth, player, 4096, k);
    }
    BestOfIsAttained(g, b, depth, player, 4096);
  }

  // ---------------------------------------------------------------------------
  // Move generation (ai_negamax)

  function U8(v: int): (r: nat)
    ensures r < 256
  {
    v % 256
  }

  /** The cast from uint8_t to int8_t. */
  function I8(v: nat): (r: int)
    requires v < 256
  {
    if v < 128 then v else v - 256
  }

  /** AI_NEGAMAXMOV casts its target coordinates to uint8_t. */
  function Target(y: int, x: int): (p: Pos) {
    Pos(U8(y), U8(x))
  }

  /** The loop counter of round n of `for (i = -8; i <= 8; i++) if (i != 0)`. */
  function Reach(n: nat): (i: int) {
    if n < 8 then n - 8 else n - 7
  }

  /** Entry n of the four diagonal tries per round. */
  function DiagonalTarget(y: int, x: int, n: nat): (p: Pos) {
    var i := Reach(n / 4);
    if n % 4 == 0 then Target(y + i, x + i)
    else if n % 4 == 1 then Target(y - i, x - i)
    else if n % 4 == 2 then Target(y + i, x - i)
    else Target(y - i, x + i)
  }

  /** Entry n of the four straight tries per round. */
  function StraightTarget(y: int, x: int, n: nat): (p: Pos) {
    var i := Reach(n / 4);
    if n % 4 == 0 then Target(y + i, x)
    else if n % 4 == 1 then Target(y - i, x)
    else if n % 4 == 2 then Target(y, x + i)
    else Target(y, x - i)
  }

  /** The targets ai_negamax tries for the piece `fig` on (y, x), in its order. */
  function Targets(fig: int, player: int, y: int, x: int): (ts: seq<Pos>) {
    if fig == PAWN then
      [Target(player + y, x), Target(2 * player + y, x), Target(player + y, x + 1), Target(player + y, x - 1)]
    else if fig == KNIGHT then
      [Target(y - 1, x - 2), Target(y - 2, x - 1), Target(y - 1, x + 2), Target(y - 2, x + 1),
       Target(y + 1, x - 2), Target(y + 2, x - 1), Target(y + 1, x + 2), Target(y + 2, x + 1)]
    else if fig == KING then
      [Target(y - 1, x - 1), Target(y - 1, x), Target(y - 1, x + 1),
       Target(y, x - 1), Target(y, x), Target(y, x + 1),
       Target(y + 1, x - 1), Target(y + 1, x), Target(y + 1, x + 1)]
    else
      (if fig != ROOK then seq(64, n requires 0 <= n => DiagonalTarget(y, x, n)) else []) +
      (if fig != BISHOP then seq(64, n requires 0 <= n => StraightTarget(y, x, n)) else [])
  }

  /** The round and direction that reach a square on a straight line. */
  lemma StraightTry(from: Pos, to: Pos) returns (n: nat)
    requires from.Valid() && to.Valid() && Straight(from, to)
    ensures n < 64 && StraightTarget(from.y, from.x, n) == to
  {
    var dy, dx := to.y - from.y, to.x - from.x;
    var k := if dy == 0 then dx else dy;
    n := 4 * (if k < 0 then k + 8 else k + 7) + (if dx == 0 then 0 else 2);
    assert n / 4 == (if k < 0 then k + 8 else k + 7) && Reach(n / 4) == k;
  }

  lemma DiagonalTry(from: Pos, to: Pos) returns (n: nat)
    requires from.Valid() && to.Valid() && Diagonal(from, to) && !Straight(from, to)
    ensures n < 64 && DiagonalTarget(from.y, from.x, n) == to
  {
    var dy, dx := to.y - from.y, to.x - from.x;
    n := 4 * (if dy < 0 then dy + 8 else dy + 7) + (if dx == dy then 0 else 2);
    assert n / 4 == (if dy < 0 then dy + 8 else dy + 7) && Reach(n / 4) == dy;
  }

  lemma SliderTargetsHas(fig: int, player: int, from: Pos, to: Pos)
    requires from.Valid() && to.Valid()
    requires ((fig == ROOK || fig == QUEEN) && Straight(from, to)) || ((fig == BISHOP || fig == QUEEN) && Diagonal(from, to))
    ensures to in Targets(fig, player, from.y, from.x)
  {
    var ts := Targets(fig, player, from.y, from.x);
    if Straight(from, to) {
      var n := StraightTry(from, to);
      assert ts[if fig == QUEEN then 64 + n else n] == to;
    } else {
      var n := DiagonalTry(from, to);
      assert ts[n] == to;
    }
  }

  lemma KingTargetsHas(player: int, from: Pos, to: Pos)
    requires from.Valid() && to.Valid() && Adjacent(from, to)
    ensures to in Targets(KING, player, from.y, from.x)
  {
    var dy, dx := to.y - from.y, to.x - from.x;
    assert to == Target(from.y + dy, from.x + dx);
    assert Targets(KING, player, from.y, from.x)[3 * (dy + 1) + dx + 1] == to;
  }

  lemma KnightTargetsHas(player: int, from: Pos, to: Pos)
    requires from.Valid() && to.Valid() && KnightJump(from, to)
    ensures to in Targets(KNIGHT, player, from.y, from.x)
  {
    var dy, dx := to.y - from.y, to.x - from.x;
    var i := (if dy < 0 then 0 else 4) + (if dx < 0 then 0 else 2) + (if dy == 2 || dy == -2 then 1 else 0);
    assert to == Target(from.y + dy, from.x + dx);
    assert Targets(KNIGHT, player, from.y, from.x)[i] == to;
  }

  lemma PawnTargetsHas(g: Rules, b: Board, m: Move, player: int)
    requires m.from.Valid() && m.to.Valid() && IsPlayer(player) && PawnMove(g, b, m, player)
    ensures m.to in Targets(PAWN, player, m.from.y, m.from.x)
  {
    var dx := m.to.x - m.from.x;
    var i := if dx == 1 then 2 else if dx == -1 then 3 else if m.to.y - m.from.y == player then 0 else 1;
    assert Targets(PAWN, player, m.from.y, m.from.x)[i] == m.to;
  }

  /** The generator misses no legal move of the piece, apart from castling. */
  lemma TargetsComplete(g: Rules, b: Board, m: Move, player: int, fig: int)
    requires |g.rochade| == 4 && Playable(g, b, m, player)
    requires fig == b[m.from.Index()] * player
    ensures m.to in Targets(fig, player, m.from.y, m.from.x)
  {
    if fig == PAWN {
      PawnTargetsHas(g, b, m, player);
    } else if fig == KNIGHT {
      KnightTargetsHas(player, m.from, m.to);
    } else if fig == KING {
      KingTargetsHas(player, m.from, m.to);
    } else {
      SliderTargetsHas(fig, player, m.from, m.to);
    }
  }

  /** The two castling moves ai_negamax tries are never legal: it looks for the king on
      the far row, board_canMove allows castling on the home row. */
  lemma CastlingNeverTried(g: Rules, b: Board, y: int, x: int, player: int, toX: int)
    requires |g.rochade| == 4 && IsPlayer(player)
    requires x == 4 && y == (if player > 0 then 7 else 0) && (toX == 2 || toX == 6)
    requires At(b, y, x) * player == KING
    ensures !CanMove(g, b, Move(Pos(y, x), Pos(y, toX)), player)
  {
  }

  /** The king's targets are its neighbours (or its own square). */
  predicate KingSteps(fig: int, from: Pos, ts: seq<Pos>) {
    fig == KING ==> forall t :: t in ts && t.Valid() && t != from ==> Adjacent(from, t)
  }

  /** Where the tries of the king lead. */
  lemma KingTarget(player: int, from: Pos, i: nat) returns (dy: int, dx: int)
    requires from.Valid() && i < |Targets(KING, player, from.y, from.x)|
    ensures Abs(dy) <= 1 && Abs(dx) <= 1
    ensures Targets(KING, player, from.y, from.x)[i] == Target(from.y + dy, from.x + dx)
  {
    dy := if i < 3 then -1 else if i < 6 then 0 else 1;
    dx := if i == 0 || i == 3 || i == 6 then -1 else if i == 1 || i == 4 || i == 7 then 0 else 1;
  }

  lemma NeighbourTarget(from: Pos, dy: int, dx: int)
    requires from.Valid() && Target(from.y + dy, from.x + dx).Valid()
    requires Abs(dy) <= 1 && Abs(dx) <= 1
    ensures Target(from.y + dy, from.x + dx) == from || Adjacent(from, Target(from.y + dy, from.x + dx))
  {
  }

  lemma KingStep(player: int, from: Pos, i: nat)
    requires from.Valid() && i < |Targets(KING, player, from.y, from.x)|
    ensures var t := Targets(KING, player, from.y, from.x)[i]; t.Valid() && t != from ==> Adjacent(from, t)
  {
    var dy, dx := KingTarget(player, from, i);
    if Target(from.y + dy, from.x + dx).Valid() {
      NeighbourTarget(from, dy, dx);
    }
  }

  lemma TargetsKingSteps(fig: int, player: int, from: Pos)
    requires from.Valid()
    ensures KingSteps(fig, from, Targets(fig, player, from.y, from.x))
  {
    if fig == KING {
      var ts := Targets(KING, player, from.y, from.x);
      forall t | t in ts && t.Valid() && t != from ensures Adjacent(from, t) {
        var i :| 0 <= i < |ts| && ts[i] == t;
        KingStep(player, from, i);
      }
    }
  }

  // ---------------------------------------------------------------------------
  // The search

  /** A fail-soft result r for the window (a, b) and the true value v. */
  predicate FailSoft(r: int, v: int, a: int, b: int) {
    && (r <= a ==> v <= r)
    && (a < r < b ==> v == r)
    && (b <= r ==> r <= v)
  }

  /** The move starts on a square before number s, or on square s towards one of ts. */
  predicate Covered(m: Move, s: nat, ts: seq<Pos>) {
    m.from.Valid() && (m.from.Index() < s || (m.from.Index() == s && m.to in ts))
  }

  /** No cut-off so far: best dominates every covered move and is exact once above a0. */
  ghost predicate Progress(g: Rules, b: Board, depth: int, player: int, a0: int, beta: int, a: int, best: int,
                           s: nat, ts: seq<Pos>)
    requires ValidRules(g) && 0 < depth
  {
    && MININF <= best <= MAXINF
    && a == Max(a0, best)
    && a < beta
    && (forall m :: Playable(g, b, m, player) && Covered(m, s, ts) ==> MoveValue(g, b, depth, player, m) <= best)
    && (a0 < best ==> exists m :: Playable(g, b, m, player) && MoveValue(g, b, depth, player, m) == best)
  }

  /** A cut-off: some move is worth at least best, and best is at least beta. */
  ghost predicate CutOff(g: Rules, b: Board, depth: int, player: int, beta: int, best: int)
    requires ValidRules(g) && 0 < depth
  {
    && MININF <= best <= MAXINF
    && beta <= best
    && exists m :: Playable(g, b, m, player) && best <= MoveValue(g, b, depth, player, m)
  }

  /** What `selected` may hold when recording is on and best has been reached. */
  ghost predicate Recorded(g: Rules, b: Board, depth: int, player: int, a0: int, beta: int, best: int, sel0: Move, sel: Move)
    requires ValidRules(g) && 0 < depth
  {
    && (best == MININF ==> sel == sel0)
    && (MININF < best ==>
          && Playable(g, b, sel, player)
          && (a0 < best < beta ==> MoveValue(g, b, depth, player, sel) == best)
          && (beta <= best ==> best <= MoveValue(g, b, depth, player, sel)))
  }

  /** The child's answer, seen from the player who moved. */
  lemma TriedValue(val: int, worth: int, a: int, beta: int)
    requires FailSoft(-val, -worth, -beta, -a)
    ensures (val <= a ==> worth <= val) && (a < val < beta ==> worth == val) && (beta <= val ==> val <= worth)
  {
  }

  lemma TriedBounds(g: Rules, b: Board, depth: int, player: int, a0: int, beta: int, a: int, best: int,
                    s: nat, ts: seq<Pos>, m: Move, top: int, m': Move)
    requires ValidRules(g) && 0 < depth && Progress(g, b, depth, player, a0, beta, a, best, s, ts)
    requires m.from.Valid() && m.from.Index() == s && Playable(g, b, m, player)
    requires best <= top && MoveValue(g, b, depth, player, m) <= top
    requires Playable(g, b, m', player) && Covered(m', s, ts + [m.to])
    ensures MoveValue(g, b, depth, player, m') <= top
  {
    if !Covered(m', s, ts) {
      assert m'.from == m.from && m'.to == m.to;
    }
  }

  lemma TriedProgress(g: Rules, b: Board, depth: int, player: int, a0: int, beta: int, a: int, best: int,
                      s: nat, ts: seq<Pos>, m: Move, val: int)
    requires ValidRules(g) && 0 < depth && MININF <= val <= MAXINF && Max(a, val) < beta
    requires Progress(g, b, depth, player, a0, beta, a, best, s, ts)
    requires m.from.Valid() && m.from.Index() == s && Playable(g, b, m, player)
    requires FailSoft(-val, -MoveValue(g, b, depth, player, m), -beta, -a)
    ensures Progress(g, b, depth, player, a0, beta, Max(a, val), Max(best, val), s, ts + [m.to])
  {
    TriedValue(val, MoveValue(g, b, depth, player, m), a, beta);
    forall m' | Playable(g, b, m', player) && Covered(m', s, ts + [m.to])
      ensures MoveValue(g, b, depth, player, m') <= Max(best, val)
    {
      TriedBounds(g, b, depth, player, a0, beta, a, best, s, ts, m, Max(best, val), m');
    }
    if best < val && a0 < val {
      assert MoveValue(g, b, depth, player, m) == val;
    }
  }

  /** One tried move: what the child's fail-soft result says keeps Progress or justifies the cut-off. */
  lemma MoveTried(g: Rules, b: Board, depth: int, player: int, a0: int, beta: int, a: int, best: int,
                  s: nat, ts: seq<Pos>, m: Move, val: int)
    requires ValidRules(g) && 0 < depth && MININF <= a0 && MININF <= val <= MAXINF
    requires Progress(g, b, depth, player, a0, beta, a, best, s, ts)
    requires m.from.Valid() && m.from.Index() == s && Playable(g, b, m, player)
    requires FailSoft(-val, -MoveValue(g, b, depth, player, m), -beta, -a)
    ensures Max(a, val) < beta ==>
              Progress(g, b, depth, player, a0, beta, Max(a, val), Max(best, val), s, ts + [m.to])
    ensures beta <= Max(a, val) ==> CutOff(g, b, depth, player, beta, Max(best, val))
    ensures best < val && a0 < val < beta ==> MoveValue(g, b, depth, player, m) == val
    ensures beta <= val ==> val <= MoveValue(g, b, depth, player, m)
  {
    TriedValue(val, MoveValue(g, b, depth, player, m), a, beta);
    if Max(a, val) < beta {
      TriedProgress(g, b, depth, player, a0, beta, a, best, s, ts, m, val);
    }
  }

  /** A target that is not a legal move changes nothing. */
  lemma TargetSkipped(g: Rules, b: Board, depth: int, player: int, a0: int, beta: int, a: int, best: int,
                      from: Pos, ts: seq<Pos>, to: Pos)
    requires ValidRules(g) && 0 < depth && from.Valid()
    requires Progress(g, b, depth, player, a0, beta, a, best, from.Index(), ts)
    requires !CanMove(g, b, Move(from, to), player)
    ensures Progress(g, b, depth, player, a0, beta, a, best, from.Index(), ts + [to])
  {
    forall m | Playable(g, b, m, player) && Covered(m, from.Index(), ts + [to])
      ensures MoveValue(g, b, depth, player, m) <= best
    {
      assert Covered(m, from.Index(), ts) || m == Move(from, to);
    }
  }

  /** After all targets of a square, every playable move from it is covered. */
  lemma SquareDone(g: Rules, b: Board, depth: int, player: int, a0: int, beta: int, a: int, best: int, s: nat)
    requires ValidRules(g) && 0 < depth && s < 64
    requires var fig := b[s] * player;
             Progress(g, b, depth, player, a0, beta, a, best, s,
                      if fig > 0 then Targets(fig, player, Square(s).y, Square(s).x) else [])
    ensures Progress(g, b, depth, player, a0, beta, a, best, s + 1, [])
  {
    var fig := b[s] * player;
    forall m | Playable(g, b, m, player) && Covered(m, s + 1, [])
      ensures MoveValue(g, b, depth, player, m) <= best
    {
      if m.from.Index() == s {
        assert m.from == Square(s);
        TargetsComplete(g, b, m, player, fig);
        assert Covered(m, s, Targets(fig, player, Square(s).y, Square(s).x));
      } else {
        assert Covered(m, s, if fig > 0 then Targets(fig, player, Square(s).y, Square(s).x) else []);
      }
    }
  }

  /** A cut-off is a fail-soft answer. */
  lemma CutOffFailsSoft(g: Rules, b: Board, depth: int, player: int, a: int, beta: int, best: int)
    requires ValidRules(g) && 0 < depth && HasKing(b, player) && a < beta && CutOff(g, b, depth, player, beta, best)
    ensures FailSoft(best, Value(g, b, depth, player), a, beta)
  {
    ValueIsMaximum(g, b, depth, player);
    var m :| Playable(g, b, m, player) && best <= MoveValue(g, b, depth, player, m);
    assert MoveValue(g, b, depth, player, m) <= Value(g, b, depth, player);
  }

  /** So is the best value after all squares. */
  lemma SearchFailsSoft(g: Rules, b: Board, depth: int, player: int, a0: int, beta: int, a: int, best: int)
    requires ValidRules(g) && 0 < depth && HasKing(b, player) && Progress(g, b, depth, player, a0, beta, a, best, 64, [])
    ensures FailSoft(best, Value(g, b, depth, player), a0, beta)
  {
    ValueIsMaximum(g, b, depth, player);
    var v := Value(g, b, depth, player);
    if v != MININF {
      var m :| Playable(g, b, m, player) && MoveValue(g, b, depth, player, m) == v;
      assert Covered(m, 64, []);
      assert v <= best;
    }
    if a0 < best {
      var m :| Playable(g, b, m, player) && MoveValue(g, b, depth, player, m) == best;
      assert best <= v;
    }
  }

  class Search {
    const board: array<int>
    var selected: Move

    constructor (b: Board)
      ensures fresh(board) && board.Length == 64 && board[..] == b && selected == MOVE_INVALID
    {
      board := new int[64](i requires 0 <= i < 64 => b[i]);
      selected := MOVE_INVALID;
      new;
      assert board[..] == b;
    }

    /** ai_negamax. */
    method Negamax(g: Rules, depth: int, a: int, b: int, player: int, record: bool) returns (r: int)
      requires ValidRules(g) && board.Length == 64 && ValidPieces(board[..])
      requires IsPlayer(player) && MININF <= a < b <= MAXINF
      modifies board, `selected
      ensures board[..] == old(board[..])
      ensures MININF <= r <= MAXINF
      ensures FailSoft(r, Value(g, board[..], depth, player), a, b)
      ensures !record ==> selected == old(selected)
      ensures if HasKing(board[..], player) && 0 < depth && record then
                Recorded(g, board[..], depth, player, a, b, r, old(selected), selected)
              else selected == old(selected)
      decreases Nat(depth), 5
    {
      if !HasKing(board[..], player) {
        return MININF;
      } else if depth <= 0 {
        return g.leaf(board[..], player);
      }
      r := SearchBoard(g, depth, a, b, player, record, board[..]);
    }

    /** The loops over the board. */
    method SearchBoard(g: Rules, depth: int, a: int, b: int, player: int, record: bool, ghost b0: Board) returns (best: int)
      requires ValidRules(g) && board.Length == 64 && board[..] == b0 && ValidPieces(b0)
      requires IsPlayer(player) && MININF <= a < b <= MAXINF && 0 < depth && HasKing(b0, player)
      modifies board, `selected
      ensures board[..] == b0 && MININF <= best <= MAXINF
      ensures FailSoft(best, Value(g, b0, depth, player), a, b)
      ensures if record then Recorded(g, b0, depth, player, a, b, best, old(selected), selected) else selected == old(selected)
      decreases Nat(depth), 4
    {
      best := MININF;
      var lower := a;
      for s := 0 to 64
        invariant board[..] == b0
        invariant Progress(g, b0, depth, player, a, b, lower, best, s, [])
        invariant if record then Recorded(g, b0, depth, player, a, b, best, old(selected), selected)
                  else selected == old(selected)
      {
        var cut;
        lower, best, cut := SearchSquare(g, depth, a, b, player, record, s, lower, best, old(selected), b0);
        if cut {
          CutOffFailsSoft(g, b0, depth, player, a, b, best);
          return;
        }
      }
      SearchFailsSoft(g, b0, depth, player, a, b, lower, best);
    }

    /** One square of the board: the tries for an own piece on it. */
    method SearchSquare(g: Rules, depth: int, a0: int, beta: int, player: int, record: bool, s: nat,
                        lower: int, bestSoFar: int, ghost sel0: Move, ghost b0: Board)
      returns (a: int, best: int, cut: bool)
      requires ValidRules(g) && board.Length == 64 && board[..] == b0 && ValidPieces(b0)
      requires IsPlayer(player) && MININF <= a0 < beta <= MAXINF && 0 < depth && s < 64
      requires Progress(g, b0, depth, player, a0, beta, lower, bestSoFar, s, [])
      requires if record then Recorded(g, b0, depth, player, a0, beta, bestSoFar, sel0, selected)
               else selected == sel0
      modifies board, `selected
      ensures board[..] == b0
      ensures cut ==> CutOff(g, b0, depth, player, beta, best)
      ensures !cut ==> Progress(g, b0, depth, player, a0, beta, a, best, s + 1, [])
      ensures if record then Recorded(g, b0, depth, player, a0, beta, best, sel0, selected)
              else selected == sel0
      decreases Nat(depth), 3
    {
      a, best, cut := lower, bestSoFar, false;
      var fig := board[s] * player;
      if fig > 0 {
        var from := Square(s);
        var ts := Targets(fig, player, from.y, from.x);
        TargetsKingSteps(fig, player, from);
        a, best, cut := SearchFrom(g, depth, a0, beta, player, record, from, ts, lower, bestSoFar, sel0, b0);
        if cut {
          return;
        }
        if fig == KING {
          TryCastling(g, from, player);
        }
      }
      SquareDone(g, b0, depth, player, a0, beta, a, best, s);
    }

    /** The moves of the piece on `from`: the AI_NEGAMAXMOV expansions of one switch case. */
    method SearchFrom(g: Rules, depth: int, a0: int, beta: int, player: int, record: bool, from: Pos, ts: seq<Pos>,
                      lower: int, bestSoFar: int, ghost sel0: Move, ghost b0: Board)
      returns (a: int, best: int, cut: bool)
      requires ValidRules(g) && board.Length == 64 && board[..] == b0 && ValidPieces(b0)
      requires IsPlayer(player) && MININF <= a0 < beta <= MAXINF && 0 < depth && from.Valid()
      requires board[from.Index()] * player > 0
      requires KingSteps(board[from.Index()] * player, from, ts)
      requires Progress(g, b0, depth, player, a0, beta, lower, bestSoFar, from.Index(), [])
      requires if record then Recorded(g, b0, depth, player, a0, beta, bestSoFar, sel0, selected)
               else selected == sel0
      modifies board, `selected
      ensures board[..] == b0
      ensures cut ==> CutOff(g, b0, depth, player, beta, best)
      ensures !cut ==> Progress(g, b0, depth, player, a0, beta, a, best, from.Index(), ts)
      ensures if record then Recorded(g, b0, depth, player, a0, beta, best, sel0, selected)
              else selected == sel0
      decreases Nat(depth), 2
    {
      a, best, cut := lower, bestSoFar, false;
      for j := 0 to |ts|
        invariant board[..] == b0
        invariant Progress(g, b0, depth, player, a0, beta, a, best, from.Index(), ts[..j])
        invariant if record then Recorded(g, b0, depth, player, a0, beta, best, sel0, selected)
                  else selected == sel0
      {
        assert ts[..j] + [ts[j]] == ts[..j + 1];
        if ts[j].Valid() && CanMove(g, board[..], Move(from, ts[j]), player) {
          a, best := TryMove(g, depth, a0, beta, player, record, Move(from, ts[j]), a, best, ts[..j], sel0, b0);
          if a >= beta {
            cut := true;
            return;
          }
        } else {
          TargetSkipped(g, b0, depth, player, a0, beta, a, best, from, ts[..j], ts[j]);
        }
      }
      assert ts[..|ts|] == ts;
    }

    /** AI_NEGAMAXMOV_EVAL: raise bestVal, the recorded move and alpha. */
    method TryMove(g: Rules, depth: int, a0: int, beta: int, player: int, record: bool, m: Move,
                   lower: int, bestSoFar: int, ghost tried: seq<Pos>, ghost sel0: Move, ghost b0: Board)
      returns (a: int, best: int)
      requires ValidRules(g) && board.Length == 64 && board[..] == b0 && ValidPieces(b0)
      requires IsPlayer(player) && MININF <= a0 < beta <= MAXINF && 0 < depth
      requires Playable(g, b0, m, player)
      requires Progress(g, b0, depth, player, a0, beta, lower, bestSoFar, m.from.Index(), tried)
      requires if record then Recorded(g, b0, depth, player, a0, beta, bestSoFar, sel0, selected)
               else selected == sel0
      modifies board, `selected
      ensures board[..] == b0
      ensures a < beta ==> Progress(g, b0, depth, player, a0, beta, a, best, m.from.Index(), tried + [m.to])
      ensures beta <= a ==> CutOff(g, b0, depth, player, beta, best)
      ensures if record then Recorded(g, b0, depth, player, a0, beta, best, sel0, selected)
              else selected == sel0
      decreases Nat(depth), 1
    {
      a, best := lower, bestSoFar;
      var val := PlayAndUndo(g, depth, a, beta, player, m);
      MoveTried(g, b0, depth, player, a0, beta, a, best, m.from.Index(), tried, m, val);
      if val > best {
        best := val;
        if record {
          selected := m;
        }
      }
      if val > a {
        a := val;
      }
    }

    /** The castling tries of the king case. */
    method TryCastling(g: Rules, from: Pos, player: int)
      requires |g.rochade| == 4 && board.Length == 64 && IsPlayer(player) && from.Valid()
      requires board[from.Index()] * player == KING
    {
      var row := if player > 0 then 7 else 0;
      if from.x == 4 && from.y == row {
        CastlingNeverTried(g, board[..], from.y, from.x, player, 2);
        CastlingNeverTried(g, board[..], from.y, from.x, player, 6);
        if CanMove(g, board[..], Move(from, Pos(from.y, 2)), player) {
          assert false;
        }
        if CanMove(g, board[..], Move(from, Pos(from.y, 6)), player) {
          assert false;
        }
      }
    }

    /** AI_NEGAMAXMOV_NARROW and AI_NEGAMAXMOV_CALL: change the board in place, search, undo. */
    method PlayAndUndo(g: Rules, depth: int, a: int, beta: int, player: int, m: Move) returns (val: int)
      requires ValidRules(g) && board.Length == 64 && ValidPieces(board[..])
      requires IsPlayer(player) && MININF <= a < beta <= MAXINF && 0 < depth
      requires CanMove(g, board[..], m, player)
      modifies board, `selected
      ensures board[..] == old(board[..]) && selected == old(selected)
      ensures MININF <= val <= MAXINF
      ensures FailSoft(-val, -MoveValue(g, board[..], depth, player, m), -beta, -a)
      decreases Nat(depth), 0
    {
      ghost var b0 := board[..];
      var oldFrom := board[m.from.Index()];
      var oldTo := board[m.to.Index()];
      var row := if player > 0 then 7 else 0;
      board[m.from.Index()] := NONE;
      board[m.to.Index()] := oldFrom;
      if oldFrom == player && m.to.y == row {
        board[m.to.Index()] := QUEEN * player;
      }
      assert board[..] == Apply(b0, m, player);
      var v := Negamax(g, depth - 1, -beta, -a, -player, false);
      board[m.from.Index()] := oldFrom;
      board[m.to.Index()] := oldTo;
      assert board[..] == b0;
      val := -v;
    }

    /** ai_move when the opening book has no move. The level becomes a signed depth of 8 bits, so that nothing is
        searched for levels above 127. */
    method AiMove(g: Rules, player: int, level: nat) returns (r: int)
      requires ValidRules(g) && board.Length == 64 && ValidPieces(board[..])
      requires IsPlayer(player) && 0 < level < 256
      modifies board, `selected
      ensures board[..] == old(board[..])
      ensures r == Value(g, board[..], I8(level), player) * player
      ensures selected != MOVE_INVALID <==> level < 128 && MININF < r * player
      ensures selected != MOVE_INVALID ==>
                CanMove(g, board[..], selected, player) && MoveValue(g, board[..], level, player, selected) == r * player
    {
      selected := MOVE_INVALID;
      var v := Negamax(g, I8(level), MININF, MAXINF, player, true);
      r := v * player;
    }
  }
}
