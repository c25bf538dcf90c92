/** The rules the game controller enforces, stated on values: structural move
    application, king search and check detection, replay of the move history,
    and the effect of each controller operation on the whole game state. */
module Rules {
  import opened Pieces
  import opened Boards
  import opened Attacks

  /** A board coordinate (row, col). */
  datatype Position = Position(row: int, col: int)

  /** A move is a pair of coordinates and nothing else: no captured piece, no promotion. */
  datatype Move = Move(from: Position, to: Position)

  /** The side to move. */
  datatype Player = White | Black

  /** Checkmate and Stalemate exist in the domain but no operation produces them. */
  datatype GameState = Running | Check | Checkmate | Stalemate

  /** The verdict of a move: rejected, or accepted with the resulting value. */
  datatype Outcome<T> = Rejected | Accepted(value: T)

  /** The result of the king search: the first king square in scan order, if any. */
  datatype KingSearch = NotFound | Found(square: Position)

  /** `colorOf`: the piece colour a side plays with. */
  function ColorOf(p: Player): (c: PieceColor)
    ensures c != PieceColor.None
  {
    if p == Player.White then PieceColor.White else PieceColor.Black
  }

  /** `opposite`: the other side. */
  function Opposite(p: Player): (q: Player)
    ensures q != p
    ensures ColorOf(q) != ColorOf(p)
  {
    if p == Player.White then Player.Black else Player.White
  }

  /** The two sides play the two colours, one each, and flipping twice is the identity. */
  lemma PlayerFacts(p: Player, q: Player)
    ensures Opposite(Opposite(p)) == p
    ensures ColorOf(p) == ColorOf(q) <==> p == q
    ensures p == Player.White || p == Player.Black
  {
  }

  /** `applyMoveOnBoard` on a board value: the board after the relocation, or
      Rejected when a structural rule rejects the move. */
  function ApplyMove(g: Grid, side: Player, m: Move): (r: Outcome<Grid>)
    ensures r.Accepted? <==>
              IsValidCell(m.from.row, m.from.col) && IsValidCell(m.to.row, m.to.col) &&
              g[m.from.row][m.from.col].color == ColorOf(side) &&
              g[m.from.row][m.from.col].kind != PieceKind.None &&
              (g[m.to.row][m.to.col].IsEmpty() ||
               (g[m.to.row][m.to.col].color != ColorOf(side) && g[m.to.row][m.to.col].kind != PieceKind.King))
    ensures r.Accepted? ==> m.from != m.to
    ensures r.Accepted? ==>
              r.value[m.to.row][m.to.col] == g[m.from.row][m.from.col].(hasMoved := true) &&
              r.value[m.from.row][m.from.col] == Empty
    ensures r.Accepted? ==>
              forall i, j :: IsInsideArray(i, j) && Position(i, j) != m.from && Position(i, j) != m.to ==>
                r.value[i][j] == g[i][j]
  {
    var fr, fc, tr, tc := m.from.row, m.from.col, m.to.row, m.to.col;
    if !IsInsideArray(fr, fc) || !IsInsideArray(tr, tc) then Rejected
    else if !IsValidCell(fr, fc) || !IsValidCell(tr, tc) then Rejected
    else
      var fromPiece := g[fr][fc];
      if fromPiece.IsEmpty() then Rejected
      else if (side == Player.White && fromPiece.color != PieceColor.White) ||
              (side == Player.Black && fromPiece.color != PieceColor.Black) then Rejected
      else
        var toPiece := g[tr][tc];
        if !toPiece.IsEmpty() && toPiece.color == fromPiece.color then Rejected
        else if !toPiece.IsEmpty() && toPiece.kind == PieceKind.King then Rejected
        else Accepted(ClearedAt(SetAt(g, tr, tc, fromPiece.(hasMoved := true)), fr, fc))
  }

  /** Moving the piece on `from` to `to` (with any moved flag) and emptying
      `from`, where `to` held no piece of the counted colour and kind, keeps
      the number of such pieces. */
  lemma RelocationKeepsCount(g: Grid, g': Grid, fr: int, fc: int, tr: int, tc: int,
                             color: PieceColor, kind: PieceKind)
    requires IsInsideArray(fr, fc) && IsInsideArray(tr, tc) && (fr, fc) != (tr, tc)
    requires color != PieceColor.None
    requires g'[tr][tc].color == g[fr][fc].color && g'[tr][tc].kind == g[fr][fc].kind
    requires g'[fr][fc] == Empty
    requires !(g[tr][tc].color == color && g[tr][tc].kind == kind)
    requires forall i, j :: IsInsideArray(i, j) && (i, j) != (fr, fc) && (i, j) != (tr, tc) ==> g'[i][j] == g[i][j]
    ensures |Squares(g', color, kind)| == |Squares(g, color, kind)|
  {
    var s, s' := Squares(g, color, kind), Squares(g', color, kind);
    InSquares(g, color, kind, tr, tc);
    InSquares(g, color, kind, fr, fc);
    if g[fr][fc].color == color && g[fr][fc].kind == kind {
      RelocatedSquares(g, g', fr, fc, tr, tc, color, kind);
      ExchangeKeepsSize(s, s', (fr, fc), (tr, tc));
    } else {
      RelocatedSquares(g, g', fr, fc, tr, tc, color, kind);
    }
  }

  /** The counted squares after the relocation: `from` is replaced by `to`
      when `from` held a counted piece, otherwise `to` is dropped. */
  lemma RelocatedSquares(g: Grid, g': Grid, fr: int, fc: int, tr: int, tc: int,
                         color: PieceColor, kind: PieceKind)
    requires IsInsideArray(fr, fc) && IsInsideArray(tr, tc) && (fr, fc) != (tr, tc)
    requires g'[tr][tc].color == g[fr][fc].color && g'[tr][tc].kind == g[fr][fc].kind
    requires g'[fr][fc] == Empty && color != PieceColor.None
    requires forall i, j :: IsInsideArray(i, j) && (i, j) != (fr, fc) && (i, j) != (tr, tc) ==> g'[i][j] == g[i][j]
    ensures Squares(g', color, kind) ==
              if g[fr][fc].color == color && g[fr][fc].kind == kind
              then Squares(g, color, kind) - {(fr, fc)} + {(tr, tc)}
              else Squares(g, color, kind) - {(tr, tc)}
  {
    var moved := g[fr][fc].color == color && g[fr][fc].kind == kind;
    var s := Squares(g, color, kind);
    var t := if moved then s - {(fr, fc)} + {(tr, tc)} else s - {(tr, tc)};
    forall x | true
      ensures x in Squares(g', color, kind) <==> x in t
    {
      RelocatedSquare(g, g', fr, fc, tr, tc, color, kind, x.0, x.1);
    }
  }

  /** One square of the relocation: the counted set gains `to` exactly when
      `from` held a counted piece, loses `from`, and keeps every other square. */
  lemma RelocatedSquare(g: Grid, g': Grid, fr: int, fc: int, tr: int, tc: int,
                        color: PieceColor, kind: PieceKind, i: int, j: int)
    requires IsInsideArray(fr, fc) && IsInsideArray(tr, tc) && (fr, fc) != (tr, tc)
    requires g'[tr][tc].color == g[fr][fc].color && g'[tr][tc].kind == g[fr][fc].kind
    requires g'[fr][fc] == Empty && color != PieceColor.None
    requires forall i, j :: IsInsideArray(i, j) && (i, j) != (fr, fc) && (i, j) != (tr, tc) ==> g'[i][j] == g[i][j]
    ensures (i, j) in Squares(g', color, kind) <==>
              if (i, j) == (tr, tc) then g[fr][fc].color == color && g[fr][fc].kind == kind
              else (i, j) != (fr, fc) && (i, j) in Squares(g, color, kind)
  {
    InSquares(g, color, kind, i, j);
    InSquares(g', color, kind, i, j);
  }

  /** Exchanging a member for a non-member keeps the size of a set. */
  lemma ExchangeKeepsSize<T>(s: set<T>, s': set<T>, a: T, b: T)
    requires a in s && b !in s && s' == s - {a} + {b}
    ensures |s'| == |s|
  {
  }

  /** A structurally accepted move neither removes nor adds a king of either colour. */
  lemma ApplyMoveKeepsKings(g: Grid, side: Player, m: Move, color: PieceColor)
    requires color != PieceColor.None
    requires ApplyMove(g, side, m).Accepted?
    ensures |Squares(ApplyMove(g, side, m).value, color, PieceKind.King)| == |Squares(g, color, PieceKind.King)|
  {
    var g' := ApplyMove(g, side, m).value;
    RelocationKeepsCount(g, g', m.from.row, m.from.col, m.to.row, m.to.col, color, PieceKind.King);
  }

  /** The square (i, j) is playable and holds a king of the given colour. */
  predicate IsKingSquare(g: Grid, color: PieceColor, i: int, j: int) {
    IsValidCell(i, j) && !g[i][j].IsEmpty() && g[i][j].kind == PieceKind.King && g[i][j].color == color
  }

  /** (i, j) comes at or after (r, c) in the row-major scan order. */
  predicate ScannedFrom(r: int, c: int, i: int, j: int) {
    i > r || (i == r && j >= c)
  }

  /** The king search of `isKingInCheck`, from (r, c) on in row-major order. */
  function FindKingFrom(g: Grid, color: PieceColor, r: int, c: int): (found: KingSearch)
    requires 0 <= r <= Rows && 0 <= c <= Cols
    ensures found.Found? ==> IsKingSquare(g, color, found.square.row, found.square.col)
    ensures found.Found? ==> ScannedFrom(r, c, found.square.row, found.square.col)
    ensures found.Found? ==>
              forall i, j ::
                (IsInsideArray(i, j) && ScannedFrom(r, c, i, j) && !ScannedFrom(found.square.row, found.square.col, i, j))
                ==> !IsKingSquare(g, color, i, j)
    ensures found.NotFound? ==>
              forall i, j :: IsInsideArray(i, j) && ScannedFrom(r, c, i, j) ==> !IsKingSquare(g, color, i, j)
    decreases Rows - r, Cols - c
  {
    if r == Rows then NotFound
    else if c == Cols then FindKingFrom(g, color, r + 1, 0)
    else if IsKingSquare(g, color, r, c) then Found(Position(r, c))
    else FindKingFrom(g, color, r, c + 1)
  }

  /** The whole scan, from the array's top-left cell. */
  function FindKing(g: Grid, color: PieceColor): KingSearch {
    FindKingFrom(g, color, 0, 0)
  }

  /** The piece on (r, c) belongs to `color` and attacks (tr, tc). */
  predicate AttacksFrom(g: Grid, r: int, c: int, tr: int, tc: int, color: PieceColor) {
    IsValidCell(r, c) && !g[r][c].IsEmpty() && g[r][c].color == color &&
    PieceAttacksSquare(g, g[r][c], r, c, tr, tc)
  }

  /** `isSquareAttacked`: some piece of `bySide` on a playable square attacks (tr, tc). */
  predicate SquareAttacked(g: Grid, tr: int, tc: int, bySide: Player) {
    exists r, c :: 0 <= r < Rows && 0 <= c < Cols && AttacksFrom(g, r, c, tr, tc, ColorOf(bySide))
  }

  /** `isKingInCheck`: the first king of the side found in the scan is attacked by
      the other side; a side without a king counts as in check. */
  predicate KingInCheck(g: Grid, side: Player) {
    match FindKing(g, ColorOf(side))
    case NotFound => true
    case Found(k) => SquareAttacked(g, k.row, k.col, Opposite(side))
  }

  /** The king search looks only at playable squares; a side that has no king on
      a playable square is reported in check. */
  lemma NoKingMeansCheck(g: Grid, side: Player)
    requires forall i, j :: IsInsideArray(i, j) ==> !IsKingSquare(g, ColorOf(side), i, j)
    ensures KingInCheck(g, side)
  {
  }

  /** When a side has exactly one king, on a playable square, the search finds it. */
  lemma FindsTheKing(g: Grid, color: PieceColor, r: int, c: int)
    requires color != PieceColor.None && IsValidCell(r, c)
    requires Squares(g, color, PieceKind.King) == {(r, c)}
    ensures FindKing(g, color) == Found(Position(r, c))
  {
    InSquares(g, color, PieceKind.King, r, c);
    match FindKing(g, color)
    case NotFound =>
      assert IsKingSquare(g, color, r, c);
      assert false;
    case Found(k) =>
      InSquares(g, color, PieceKind.King, k.row, k.col);
  }

  /** `updateGameState`: Check when the side to move is in check, otherwise Running. */
  function StatusOf(g: Grid, side: Player): (state: GameState)
    ensures state in {GameState.Running, GameState.Check}
    ensures state == GameState.Check <==> KingInCheck(g, side)
  {
    if KingInCheck(g, side) then GameState.Check else GameState.Running
  }

  /** One move of the undo replay: apply it when the structural rules allow,
      keep the board otherwise, and hand the move to the other side either way. */
  function ReplayStep(g: Grid, side: Player, m: Move): (Grid, Player) {
    (match ApplyMove(g, side, m) case Accepted(g') => g' case Rejected => g, Opposite(side))
  }

  /** The board and side to move reached by replaying `moves` from the starting
      position, White first. */
  function Replay(moves: seq<Move>): (Grid, Player)
    decreases |moves|
  {
    if moves == [] then (InitialGrid(), Player.White)
    else
      var (g, side) := Replay(moves[..|moves| - 1]);
      ReplayStep(g, side, moves[|moves| - 1])
  }

  /** Replaying an extended history is one more step of replay. */
  lemma ReplaySnoc(moves: seq<Move>, m: Move)
    ensures Replay(moves + [m]) == ReplayStep(Replay(moves).0, Replay(moves).1, m)
  {
    assert (moves + [m])[..|moves|] == moves;
  }

  /** Replaying one more move of a history is one more replay step. */
  lemma ReplayPrefix(h: seq<Move>, i: int)
    requires 0 <= i < |h|
    ensures Replay(h[..i + 1]) == ReplayStep(Replay(h[..i]).0, Replay(h[..i]).1, h[i])
  {
    assert h[..i + 1][..i] == h[..i];
  }

  /** White moves after an even number of replayed moves, Black after an odd number. */
  lemma {:induction false} ReplayParity(moves: seq<Move>)
    ensures Replay(moves).1 == if |moves| % 2 == 0 then Player.White else Player.Black
    decreases |moves|
  {
    if moves != [] {
      ReplayParity(moves[..|moves| - 1]);
    }
  }

  /** King immunity along a replay: each side keeps exactly one king. */
  lemma {:induction false} ReplayKeepsKings(moves: seq<Move>, color: PieceColor)
    requires color != PieceColor.None
    ensures |Squares(Replay(moves).0, color, PieceKind.King)| == 1
    decreases |moves|
  {
    if moves == [] {
      InitialCounts(color, PieceKind.King);
    } else {
      var prefix := moves[..|moves| - 1];
      ReplayKeepsKings(prefix, color);
      var (g, side) := Replay(prefix);
      if ApplyMove(g, side, moves[|moves| - 1]).Accepted? {
        ApplyMoveKeepsKings(g, side, moves[|moves| - 1], color);
      }
    }
  }

  /** The whole state of the controller: the board, the side to move, the game
      state, the move history and the cursor into it. */
  datatype Game = Game(grid: Grid, player: Player, state: GameState, history: seq<Move>, cursor: nat)

  /** `0 <= cursor <= |history|`. */
  predicate WellFormed(s: Game) {
    s.cursor <= |s.history|
  }

  predicate CanUndo(s: Game) { s.cursor > 0 }

  predicate CanRedo(s: Game) { s.cursor < |s.history| }

  /** `startNewGame`. */
  function NewGame(): (s: Game)
    ensures WellFormed(s) && !CanUndo(s) && !CanRedo(s)
  {
    Game(InitialGrid(), Player.White, GameState.Running, [], 0)
  }

  /** `resetToInitialPosition` of the controller: position, side and state are
      reset; history and cursor are left as they were. */
  function AfterReset(s: Game): (s': Game)
    ensures s'.grid == InitialGrid() && s'.player == Player.White && s'.state == GameState.Running
    ensures s'.history == s.history && s'.cursor == s.cursor
  {
    s.(grid := InitialGrid(), player := Player.White, state := GameState.Running)
  }

  /** `makeMove`: Rejected, which leaves the whole state as it was, or Accepted
      with the state after the move. */
  function AfterMove(s: Game, m: Move): (r: Outcome<Game>)
    requires WellFormed(s)
    ensures r.Rejected? <==>
              ApplyMove(s.grid, s.player, m).Rejected? || KingInCheck(ApplyMove(s.grid, s.player, m).value, s.player)
    ensures r.Accepted? ==> ApplyMove(s.grid, s.player, m) == Accepted(r.value.grid)
    ensures r.Accepted? ==> !KingInCheck(r.value.grid, s.player)
    ensures r.Accepted? ==> r.value.player == Opposite(s.player)
    ensures r.Accepted? ==> r.value.state == StatusOf(r.value.grid, r.value.player)
    ensures r.Accepted? ==> r.value.history == s.history[..s.cursor] + [m] && r.value.cursor == s.cursor + 1
    ensures r.Accepted? ==> WellFormed(r.value) && CanUndo(r.value) && !CanRedo(r.value)
    ensures r.Accepted? ==>
              r.value.state in {GameState.Running, GameState.Check} &&
              (r.value.state == GameState.Check <==> KingInCheck(r.value.grid, r.value.player))
  {
    match ApplyMove(s.grid, s.player, m)
    case Rejected => Rejected
    case Accepted(g) =>
      if KingInCheck(g, s.player) then Rejected
      else
        var side := Opposite(s.player);
        var h := s.history[..s.cursor] + [m];
        Accepted(Game(g, side, StatusOf(g, side), h, |h|))
  }

  /** `undo`: step the cursor back and rebuild the board by replaying the moves
      before it from the starting position. */
  function AfterUndo(s: Game): (s': Game)
    requires WellFormed(s)
    ensures WellFormed(s') && s'.history == s.history
    ensures !CanUndo(s) ==> s' == s
    ensures CanUndo(s) ==> s'.cursor == s.cursor - 1 && CanRedo(s')
    ensures CanUndo(s) ==> (s'.grid, s'.player) == Replay(s.history[..s'.cursor])
    ensures CanUndo(s) ==> s'.state == StatusOf(s'.grid, s'.player)
  {
    if !CanUndo(s) then s
    else
      var cursor := s.cursor - 1;
      var (g, side) := Replay(s.history[..cursor]);
      Game(g, side, StatusOf(g, side), s.history, cursor)
  }

  /** `redo`: re-apply the move under the cursor with the structural rules only;
      when they reject it nothing changes. */
  function AfterRedo(s: Game): (s': Game)
    requires WellFormed(s)
    ensures WellFormed(s') && s'.history == s.history
    ensures !CanRedo(s) ==> s' == s
    ensures CanRedo(s) && ApplyMove(s.grid, s.player, s.history[s.cursor]).Rejected? ==> s' == s
    ensures CanRedo(s) && ApplyMove(s.grid, s.player, s.history[s.cursor]).Accepted? ==>
              s'.cursor == s.cursor + 1 && s'.player == Opposite(s.player) &&
              Accepted(s'.grid) == ApplyMove(s.grid, s.player, s.history[s.cursor]) &&
              s'.state == StatusOf(s'.grid, s'.player)
  {
    if !CanRedo(s) then s
    else
      match ApplyMove(s.grid, s.player, s.history[s.cursor])
      case Rejected => s
      case Accepted(g) =>
        var side := Opposite(s.player);
        Game(g, side, StatusOf(g, side), s.history, s.cursor + 1)
  }

  /** Move i of the history applies to the position reached by replaying the moves before it. */
  predicate Replays(h: seq<Move>, i: int)
    requires 0 <= i < |h|
  {
    var (g, side) := Replay(h[..i]);
    ApplyMove(g, side, h[i]).Accepted?
  }

  /** The controller's invariant: the board and side to move are the replay of
      the history up to the cursor, the state is the check status of the side to
      move, and every recorded move applies where it was recorded. */
  predicate Consistent(s: Game) {
    && s.cursor <= |s.history|
    && Replay(s.history[..s.cursor]) == (s.grid, s.player)
    && s.state == StatusOf(s.grid, s.player)
    && forall i :: 0 <= i < |s.history| ==> Replays(s.history, i)
  }

  /** The consistent state with history h and cursor k. */
  function Canonical(h: seq<Move>, k: nat): (s: Game)
    requires k <= |h|
    ensures WellFormed(s)
  {
    var (g, side) := Replay(h[..k]);
    Game(g, side, StatusOf(g, side), h, k)
  }

  lemma ConsistentIsCanonical(s: Game)
    requires Consistent(s)
    ensures s == Canonical(s.history, s.cursor)
  {
  }

  /** Two consistent states with the same history and cursor are the same state. */
  lemma ConsistentDeterminedByCursor(a: Game, b: Game)
    requires Consistent(a) && Consistent(b)
    requires a.history == b.history && a.cursor == b.cursor
    ensures a == b
  {
    ConsistentIsCanonical(a);
    ConsistentIsCanonical(b);
  }

  /** Every black piece stands where it started and White's only king is on its
      starting square: then White is not in check, because from rows 0..2 no
      black leaper reaches row 10 and no black slider is lined up with (10, 6). */
  lemma WhiteKingSafeAtHome(g: Grid)
    requires forall r, c :: IsInsideArray(r, c) && !g[r][c].IsEmpty() && g[r][c].color == PieceColor.Black ==>
               g[r][c] == InitialPieceAt(r, c)
    requires Squares(g, PieceColor.White, PieceKind.King) == {(10, 6)}
    ensures !KingInCheck(g, Player.White)
  {
    FindsTheKing(g, PieceColor.White, 10, 6);
    forall r, c | IsInsideArray(r, c)
      ensures !AttacksFrom(g, r, c, 10, 6, PieceColor.Black)
    {
      if IsValidCell(r, c) && !g[r][c].IsEmpty() && g[r][c].color == PieceColor.Black {
        var p := g[r][c];
        assert p == InitialPieceAt(r, c);
        assert r <= 2;
        if p.kind == PieceKind.Rook || p.kind == PieceKind.Queen {
          assert r == 1 && c != 6;
        }
      }
    }
  }

  /** The starting position does not put White in check. */
  lemma InitialNotInCheck()
    ensures !KingInCheck(InitialGrid(), Player.White)
    ensures StatusOf(InitialGrid(), Player.White) == GameState.Running
  {
    InitialSquaresExact(PieceColor.White, PieceKind.King);
    WhiteKingSafeAtHome(InitialGrid());
  }

  /** A new game satisfies the invariant. */
  lemma NewGameConsistent()
    ensures Consistent(NewGame())
  {
    InitialNotInCheck();
  }

  /** An accepted move keeps the invariant. */
  lemma AfterMoveConsistent(s: Game, m: Move)
    requires Consistent(s) && AfterMove(s, m).Accepted?
    ensures Consistent(AfterMove(s, m).value)
  {
    var t := AfterMove(s, m).value;
    var prefix := s.history[..s.cursor];
    assert t.history[..t.cursor] == prefix + [m];
    ReplaySnoc(prefix, m);
    assert Replay(t.history[..t.cursor]) == (t.grid, t.player);
    TruncateAndAppendReplays(s.history, s.cursor, m);
  }

  /** Cutting a replayable history at k and appending a move that applies
      there gives a replayable history. */
  lemma TruncateAndAppendReplays(h: seq<Move>, k: nat, m: Move)
    requires k <= |h| && forall i :: 0 <= i < |h| ==> Replays(h, i)
    requires ApplyMove(Replay(h[..k]).0, Replay(h[..k]).1, m).Accepted?
    ensures forall i :: 0 <= i < k + 1 ==> Replays(h[..k] + [m], i)
  {
    var h' := h[..k] + [m];
    forall i | 0 <= i < k + 1
      ensures Replays(h', i)
    {
      assert h'[..i] == h[..i];
      if i < k {
        assert h'[i] == h[i];
        assert Replays(h, i);
      }
    }
  }

  /** Undo keeps the invariant. */
  lemma AfterUndoConsistent(s: Game)
    requires Consistent(s)
    ensures Consistent(AfterUndo(s))
  {
  }

  /** From a consistent state redo always succeeds when there is a move to redo,
      and it keeps the invariant. */
  lemma AfterRedoConsistent(s: Game)
    requires Consistent(s)
    ensures CanRedo(s) ==> AfterRedo(s).cursor == s.cursor + 1
    ensures Consistent(AfterRedo(s))
  {
    if CanRedo(s) {
      var h, k := s.history, s.cursor;
      assert Replays(h, k);
      ReplayPrefix(h, k);
      var t := AfterRedo(s);
      assert t.cursor == k + 1 && t.history == h;
      assert Replay(h[..k + 1]) == (t.grid, t.player);
    }
  }

  /** In every consistent state each side has exactly one king, and the game
      state is Running or Check. */
  lemma KingImmunity(s: Game, color: PieceColor)
    requires Consistent(s) && color != PieceColor.None
    ensures |Squares(s.grid, color, PieceKind.King)| == 1
    ensures s.state in {GameState.Running, GameState.Check}
  {
    ReplayKeepsKings(s.history[..s.cursor], color);
  }

  function UndoTimes(s: Game, n: nat): (s': Game)
    requires WellFormed(s)
    ensures WellFormed(s')
    decreases n
  {
    if n == 0 then s else UndoTimes(AfterUndo(s), n - 1)
  }

  function RedoTimes(s: Game, n: nat): (s': Game)
    requires WellFormed(s)
    ensures WellFormed(s')
    decreases n
  {
    if n == 0 then s else RedoTimes(AfterRedo(s), n - 1)
  }

  /** n undos step the cursor back by n over the same history. */
  lemma {:induction false} UndoTimesCursor(s: Game, n: nat)
    requires WellFormed(s) && n <= s.cursor
    ensures UndoTimes(s, n).history == s.history && UndoTimes(s, n).cursor == s.cursor - n
    decreases n
  {
    if n > 0 {
      var u := AfterUndo(s);
      assert u.cursor == s.cursor - 1 && u.history == s.history;
      UndoTimesCursor(u, n - 1);
      assert UndoTimes(s, n) == UndoTimes(u, n - 1);
    }
  }

  /** Any property that one undo keeps holds after n undos. */
  lemma {:induction false} UndoTimesPreserves(s: Game, n: nat, P: Game -> bool)
    requires WellFormed(s) && P(s)
    requires forall t :: WellFormed(t) && P(t) ==> P(AfterUndo(t))
    ensures P(UndoTimes(s, n))
    decreases n
  {
    if n > 0 {
      var u := AfterUndo(s);
      assert WellFormed(u) && P(u);
      UndoTimesPreserves(u, n - 1, P);
      assert UndoTimes(s, n) == UndoTimes(u, n - 1);
    }
  }

  /** Any property that one successful redo keeps holds after n redos, and
      each of them advances the cursor by one. */
  lemma {:induction false} RedoTimesPreserves(s: Game, n: nat, P: Game -> bool)
    requires WellFormed(s) && P(s) && s.cursor + n <= |s.history|
    requires forall t :: WellFormed(t) && P(t) && CanRedo(t) ==>
               P(AfterRedo(t)) && AfterRedo(t).cursor == t.cursor + 1
    ensures P(RedoTimes(s, n))
    ensures RedoTimes(s, n).history == s.history && RedoTimes(s, n).cursor == s.cursor + n
    decreases n
  {
    if n > 0 {
      var u := AfterRedo(s);
      assert P(u) && u.cursor == s.cursor + 1 && u.history == s.history;
      RedoTimesPreserves(u, n - 1, P);
      assert RedoTimes(s, n) == RedoTimes(u, n - 1);
    }
  }

  /** n undos from a consistent state land on a consistent state. */
  lemma UndoTimesConsistent(s: Game, n: nat)
    requires Consistent(s)
    ensures Consistent(UndoTimes(s, n))
  {
    forall t | WellFormed(t) && Consistent(t)
      ensures Consistent(AfterUndo(t))
    {
      AfterUndoConsistent(t);
    }
    UndoTimesPreserves(s, n, Consistent);
  }

  /** n redos from a consistent state land on a consistent state n moves
      forward in the same history, as long as there are n moves to redo. */
  lemma RedoTimesConsistent(s: Game, n: nat)
    requires Consistent(s) && s.cursor + n <= |s.history|
    ensures Consistent(RedoTimes(s, n))
    ensures RedoTimes(s, n).history == s.history && RedoTimes(s, n).cursor == s.cursor + n
  {
    forall t | WellFormed(t) && Consistent(t) && CanRedo(t)
      ensures Consistent(AfterRedo(t)) && AfterRedo(t).cursor == t.cursor + 1
    {
      AfterRedoConsistent(t);
    }
    RedoTimesPreserves(s, n, Consistent);
  }

  /** Undoing n moves and then redoing n moves gives back exactly the state one
      started from: board, side to move, game state, history and cursor. */
  lemma UndoRedoRoundTrip(s: Game, n: nat)
    requires Consistent(s) && n <= s.cursor
    ensures RedoTimes(UndoTimes(s, n), n) == s
  {
    UndoTimesCursor(s, n);
    UndoTimesConsistent(s, n);
    var u := UndoTimes(s, n);
    RedoTimesConsistent(u, n);
    ConsistentDeterminedByCursor(RedoTimes(u, n), s);
  }

  /** The engine does not check a piece's movement pattern: from the starting
      position White's pawn on (9, 5) may jump to (5, 5). */
  lemma PawnLeapAccepted()
    ensures AfterMove(NewGame(), Move(Position(9, 5), Position(5, 5))).Accepted?
  {
    var m := Move(Position(9, 5), Position(5, 5));
    var g := ApplyMove(InitialGrid(), Player.White, m).value;
    InitialSquaresExact(PieceColor.White, PieceKind.King);
    forall x | true
      ensures x in Squares(g, PieceColor.White, PieceKind.King) <==> x == (10, 6)
    {
      InSquares(g, PieceColor.White, PieceKind.King, x.0, x.1);
      InSquares(InitialGrid(), PieceColor.White, PieceKind.King, x.0, x.1);
    }
    assert Squares(g, PieceColor.White, PieceKind.King) == {(10, 6)};
    WhiteKingSafeAtHome(g);
  }

  /** `resetToInitialPosition` alone breaks the invariant: after one accepted
      move, resetting leaves a history whose replay is not the board shown. */
  lemma ResetLeavesHistoryStale()
    ensures var s := AfterMove(NewGame(), Move(Position(9, 5), Position(5, 5)));
            s.Accepted? && Consistent(s.value) && !Consistent(AfterReset(s.value))
  {
    var m := Move(Position(9, 5), Position(5, 5));
    PawnLeapAccepted();
    NewGameConsistent();
    var s := AfterMove(NewGame(), m).value;
    AfterMoveConsistent(NewGame(), m);
    var t := AfterReset(s);
    assert t.history[..t.cursor] == [m];
    assert Replay([m]).0[5][5] != InitialGrid()[5][5];
  }

  /** A move from an empty square is rejected. */
  lemma EmptySourceRejected()
    ensures AfterMove(NewGame(), Move(Position(3, 3), Position(4, 3))).Rejected?
  {
  }
}
