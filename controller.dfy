/** The game controller: it owns one board, the side to move, the game state,
    the move history and the cursor into it, and every operation is proved to
    take the controller to the state the pure rules in module Rules prescribe. */
module Controller {
  import opened Pieces
  import opened Boards
  import opened Attacks
  import opened Rules

  class GameController {
    /** `m_board`: always present, never shared with another controller. */
    const board: Board
    var currentPlayer: Player
    var gameState: GameState
    var history: seq<Move>
    var historyIndex: nat

    /** The whole controller state as a value. */
    function Model(): Game
      reads this, board
    {
      Game(board.cells, currentPlayer, gameState, history, historyIndex)
    }

    /** `0 <= m_historyIndex <= m_history.size()`. */
    predicate Valid()
      reads this, board
    {
      WellFormed(Model())
    }

    /** The constructor: a new board, then `startNewGame`. */
    constructor ()
      ensures Valid() && Model() == NewGame()
      ensures Consistent(Model())
    {
      board := new Board();
      currentPlayer := Player.White;
      gameState := GameState.Running;
      history := [];
      historyIndex := 0;
      new;
      StartNewGame();
    }

    /** `startNewGame`: the starting position, White to move, Running, and an
        empty history. */
    method StartNewGame()
      modifies this, board
      ensures Valid() && Model() == NewGame()
      ensures Consistent(Model())
    {
      board.ResetToInitialPosition();
      currentPlayer := Player.White;
      gameState := GameState.Running;
      history := [];
      historyIndex := 0;
      NewGameConsistent();
    }

    /** `resetToInitialPosition`: position, side and state are reset, the
        history and the cursor are kept. */
    method ResetToInitialPosition()
      requires Valid()
      modifies this, board
      ensures Valid() && Model() == AfterReset(old(Model()))
    {
      board.ResetToInitialPosition();
      currentPlayer := Player.White;
      gameState := GameState.Running;
    }

    /** `makeMove(from, to)`: the same as `makeMove` on the move (from, to). */
    method MakeMoveAt(from: Position, to: Position) returns (ok: bool)
      requires Valid()
      modifies this, board
      ensures Valid()
      ensures ok <==> AfterMove(old(Model()), Move(from, to)).Accepted?
      ensures ok ==> Model() == AfterMove(old(Model()), Move(from, to)).value
      ensures !ok ==> Model() == old(Model())
      ensures old(Consistent(Model())) ==> Consistent(Model())
    {
      ok := MakeMove(Move(from, to));
    }

    /** `makeMove`: apply the move to the board; undo it again when it leaves
        the mover's king attacked; otherwise cut the redo tail off the history,
        append the move, hand the turn over and recompute the game state. */
    method MakeMove(m: Move) returns (ok: bool)
      requires Valid()
      modifies this, board
      ensures Valid()
      ensures ok <==> AfterMove(old(Model()), m).Accepted?
      ensures ok ==> Model() == AfterMove(old(Model()), m).value
      ensures !ok ==> Model() == old(Model())
      ensures old(Consistent(Model())) ==> Consistent(Model())
    {
      ghost var before := Model();
      var oldBoard := new Board.CopyOf(board);
      var movingSide := currentPlayer;
      ok := ApplyMoveOnBoard(m);
      if !ok {
        return;
      }
      var inCheck := IsKingInCheck(movingSide);
      if inCheck {
        board.Assign(oldBoard);
        ok := false;
        return;
      }
      if historyIndex < |history| {
        history := history[..historyIndex];
      }
      assert history == before.history[..before.cursor];
      history := history + [m];
      historyIndex := historyIndex + 1;
      SwitchPlayer();
      UpdateGameState();
      ghost var after := AfterMove(before, m);
      assert after.Accepted? && after.value.grid == board.cells;
      assert after.value.player == currentPlayer && after.value.state == gameState;
      assert after.value.history == history && after.value.cursor == historyIndex;
      if Consistent(before) {
        AfterMoveConsistent(before, m);
      }
    }

    /** `canUndo`. */
    predicate CanUndo()
      reads this, board
      ensures CanUndo() <==> Rules.CanUndo(Model())
    {
      historyIndex > 0
    }

    /** `canRedo`. */
    predicate CanRedo()
      reads this, board
      ensures CanRedo() <==> Rules.CanRedo(Model())
    {
      historyIndex < |history|
    }

    /** `undo`: step the cursor back, then rebuild the board from the starting
        position by replaying the moves before the cursor, each with the
        structural rules only and with the side flipping after every move. */
    method Undo()
      requires Valid()
      modifies this, board
      ensures Valid() && Model() == AfterUndo(old(Model()))
      ensures old(Consistent(Model())) ==> Consistent(Model())
    {
      if !CanUndo() {
        return;
      }
      ghost var before := Model();
      historyIndex := historyIndex - 1;
      board.ResetToInitialPosition();
      currentPlayer := Player.White;
      var i := 0;
      assert history[..0] == [];
      while i < historyIndex
        invariant 0 <= i <= historyIndex < |history|
        invariant history == before.history && historyIndex == before.cursor - 1
        invariant board.cells == Replay(history[..i]).0 && currentPlayer == Replay(history[..i]).1
      {
        var mv := history[i];
        ReplayOne(mv);
        ReplayPrefix(history, i);
        i := i + 1;
      }
      UpdateGameState();
      if Consistent(before) {
        AfterUndoConsistent(before);
      }
    }

    /** One step of the undo replay: `applyMoveOnBoard` with its verdict
        ignored, then `switchPlayer`. */
    method ReplayOne(mv: Move)
      modifies this, board
      ensures (board.cells, currentPlayer) == ReplayStep(old(board.cells), old(currentPlayer), mv)
      ensures gameState == old(gameState) && history == old(history) && historyIndex == old(historyIndex)
    {
      var _ := ApplyMoveOnBoard(mv);
      SwitchPlayer();
    }

    /** `redo`: re-apply the move under the cursor with the structural rules
        only (no king-safety filter); when they reject it nothing changes. */
    method Redo()
      requires Valid()
      modifies this, board
      ensures Valid() && Model() == AfterRedo(old(Model()))
      ensures old(Consistent(Model())) ==> Consistent(Model())
    {
      if !CanRedo() {
        return;
      }
      var mv := history[historyIndex];
      var ok := ApplyMoveOnBoard(mv);
      if !ok {
        return;
      }
      historyIndex := historyIndex + 1;
      SwitchPlayer();
      UpdateGameState();
      if old(Consistent(Model())) {
        AfterRedoConsistent(old(Model()));
      }
    }

    /** `applyMoveOnBoard`: the structural checks, then the relocation of the
        piece; only the board changes. */
    method ApplyMoveOnBoard(m: Move) returns (ok: bool)
      modifies board
      ensures ok <==> ApplyMove(old(board.cells), currentPlayer, m).Accepted?
      ensures ok ==> ApplyMove(old(board.cells), currentPlayer, m) == Accepted(board.cells)
      ensures !ok ==> board.cells == old(board.cells)
    {
      var fromRow, fromCol, toRow, toCol := m.from.row, m.from.col, m.to.row, m.to.col;
      if !IsInsideArray(fromRow, fromCol) || !IsInsideArray(toRow, toCol) {
        return false;
      }
      if !IsValidCell(fromRow, fromCol) || !IsValidCell(toRow, toCol) {
        return false;
      }
      var fromPiece := board.PieceAt(fromRow, fromCol);
      if fromPiece.IsEmpty() {
        return false;
      }
      if (currentPlayer == Player.White && fromPiece.color != PieceColor.White) ||
         (currentPlayer == Player.Black && fromPiece.color != PieceColor.Black) {
        return false;
      }
      var toPiece := board.PieceAt(toRow, toCol);
      if !toPiece.IsEmpty() && toPiece.color == fromPiece.color {
        return false;
      }
      if !toPiece.IsEmpty() && toPiece.kind == PieceKind.King {
        return false;
      }
      fromPiece := fromPiece.(hasMoved := true);
      board.SetPieceAt(toRow, toCol, fromPiece);
      board.ClearCell(fromRow, fromCol);
      return true;
    }

    /** `isKingInCheck`: scan the playable squares row by row for the side's
        king; without one the side counts as in check, otherwise ask whether
        the other side attacks the king's square. */
    method IsKingInCheck(side: Player) returns (inCheck: bool)
      ensures inCheck == KingInCheck(board.cells, side)
    {
      var g := board.cells;
      var myColor := ColorOf(side);
      var enemySide := Opposite(side);
      var kingRow, kingCol := -1, -1;
      for r := 0 to Rows
        invariant kingRow == -1 ==> FindKing(g, myColor) == FindKingFrom(g, myColor, r, 0)
        invariant kingRow != -1 ==> FindKing(g, myColor) == Found(Position(kingRow, kingCol))
        invariant kingRow != -1 ==> IsInsideArray(kingRow, kingCol)
      {
        for c := 0 to Cols
          invariant kingRow == -1 ==> FindKing(g, myColor) == FindKingFrom(g, myColor, r, c)
          invariant kingRow != -1 ==> FindKing(g, myColor) == Found(Position(kingRow, kingCol))
          invariant kingRow != -1 ==> IsInsideArray(kingRow, kingCol)
        {
          if IsValidCell(r, c) {
            var p := board.PieceAt(r, c);
            if !p.IsEmpty() && p.kind == PieceKind.King && p.color == myColor {
              kingRow, kingCol := r, c;
              break;
            }
          }
        }
        if kingRow != -1 {
          break;
        }
      }
      if kingRow == -1 {
        return true;
      }
      inCheck := IsSquareAttacked(kingRow, kingCol, enemySide);
    }

    /** `isSquareAttacked`: scan the playable squares row by row for a piece of
        `bySide` that attacks (row, col). */
    method IsSquareAttacked(row: int, col: int, bySide: Player) returns (attacked: bool)
      ensures attacked == SquareAttacked(board.cells, row, col, bySide)
    {
      var g := board.cells;
      var attackColor := ColorOf(bySide);
      for r := 0 to Rows
        invariant forall i, j :: 0 <= i < r && 0 <= j < Cols ==> !AttacksFrom(g, i, j, row, col, attackColor)
      {
        for c := 0 to Cols
          invariant forall i, j :: 0 <= i < r && 0 <= j < Cols ==> !AttacksFrom(g, i, j, row, col, attackColor)
          invariant forall j :: 0 <= j < c ==> !AttacksFrom(g, r, j, row, col, attackColor)
        {
          if IsValidCell(r, c) {
            var p := board.PieceAt(r, c);
            if !(p.IsEmpty() || p.color != attackColor) {
              if PieceAttacksSquare(board.cells, p, r, c, row, col) {
                assert AttacksFrom(g, r, c, row, col, attackColor);
                return true;
              }
            }
          }
        }
      }
      return false;
    }

    /** `switchPlayer`: hand the turn to the other side. */
    method SwitchPlayer()
      modifies this
      ensures currentPlayer == Opposite(old(currentPlayer))
      ensures gameState == old(gameState) && history == old(history) && historyIndex == old(historyIndex)
    {
      currentPlayer := Opposite(currentPlayer);
    }

    /** `updateGameState`: Check when the side to move is in check, otherwise
        Running; Checkmate and Stalemate are never set. */
    method UpdateGameState()
      modifies this
      ensures gameState == StatusOf(board.cells, currentPlayer)
      ensures gameState != GameState.Checkmate && gameState != GameState.Stalemate
      ensures currentPlayer == old(currentPlayer) && history == old(history) && historyIndex == old(historyIndex)
    {
      var inCheck := IsKingInCheck(currentPlayer);
      if inCheck {
        gameState := GameState.Check;
      } else {
        gameState := GameState.Running;
      }
    }
  }
}
