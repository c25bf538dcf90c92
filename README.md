# Omega Chess rules engine — a verified Dafny model

This project models the rules core of a small Omega Chess program: the piece
value, the 12×12 board with its 10×10 playing field and four corner squares,
the fixed starting layout, and the game controller that applies moves,
rejects moves that leave the mover's king attacked, keeps a move history with
a cursor for undo and redo, and reports whether the side to move is in check.

The model has five modules, one per file:

- `Pieces` (`pieces.dfy`): the colour and kind enumerations and the `Piece`
  record with its emptiness test and empty sentinel.
- `Boards` (`board.dfy`): the board geometry (`IsInsideArray`, `IsValidCell`),
  cell edits on a grid value, the starting layout, and the `Board` class. Its
  methods `Clear`, `SetPieceAt`, `ClearCell`, `ResetToInitialPosition` and
  `SetupInitialPieces` update the board's cells in place. The class also has a
  copy constructor and an assignment, which give the C++ value semantics the
  controller uses to snapshot and restore the board.
- `Attacks` (`attacks.dfy`): `pieceAttacksSquare`. The rook-like and
  bishop-like scans are the recursive walk `Ray`. The rest is proved about
  them: the leaper offset tables, a full characterisation of sliding attacks
  (same line, target playable, every cell in between playable and empty), and
  the fact that the leaper tests never read the board.
- `Rules` (`rules.dfy`): the controller's behaviour stated as pure functions
  on values. These are the structural move check `ApplyMove`, king search, the
  check test, replay of a history, and one function per controller operation
  on a `Game` value (board, side to move, state, history, cursor). The module
  also proves the invariant that ties the board to the replay of the history,
  king immunity, and the undo/redo round trip.
- `Controller` (`controller.dfy`): the `GameController` class with the fields
  of the C++ controller. Each method is proved to take the controller to
  exactly the `Game` value the corresponding `Rules` function gives. The
  undo replay loop and the nested row-by-row scans of `isKingInCheck` and
  `isSquareAttacked` are loops with their invariants.

Two behaviours of the engine are stated on purpose:

- Moves are checked only structurally. `PawnLeapAccepted` shows a pawn
  jumping four rows.
- `resetToInitialPosition` keeps the history, so calling it alone leaves a
  stale history (`ResetLeavesHistoryStale`).

## Model

| member | source | states |
|---|---|---|
| Pieces.EmptyIsEmpty | logic/Piece.hpp:25-39 | the empty sentinel (the default piece) has colour None, kind None and hasMoved false, and is empty |
| Pieces.EmptinessIgnoresMovedFlag | logic/Piece.hpp:31-34 | a piece is empty iff its colour or its kind is None; changing hasMoved never changes emptiness |
| Pieces.Domains | logic/Piece.hpp:5-23 | the colour domain is exactly {None, White, Black} and the kind domain exactly the nine kinds |
| Boards.IsValidCell | logic/Board.cpp:37-57 | a playable square is always inside the array |
| Boards.IsInsideArray | logic/Board.cpp:26-30 | the coordinate addresses one of the 12×12 array cells; `ValidCellGeometry` states it as 0 ≤ r, c < 12 and `IsValidCell`'s ensures shows every playable square passes it |
| Boards.ValidCellGeometry | logic/Board.cpp:26-57 | inside the array iff 0 ≤ r,c < 12; playable iff inside the 10×10 block 1..10 or one of the four array corners |
| Boards.GeometrySamples | logic/Board.hpp:9-17 | ROWS = COLS = 12, with the playable and unplayable sample squares (corners, edges, outside) |
| Boards.CellEmptiness | logic/Board.cpp:80-92 | off-array coordinates read as empty, in-array emptiness is the stored piece's, a cleared cell and a cleared board are empty |
| Boards.IsEmptyAt | logic/Board.cpp:87-92 | `isEmpty(row, col)`: true off the array, otherwise the stored piece's emptiness; `CellEmptiness` states both cases |
| Boards.SetAt | logic/Board.cpp:73-78 | writing a piece sets that cell and leaves every other cell unchanged |
| Boards.ClearedAt | logic/Board.cpp:80-85 | clearing empties the cell, is a no-op off the array, and leaves every other cell unchanged |
| Boards.EmptyGrid | logic/Board.cpp:12-21 | all 144 cells hold the empty sentinel |
| Boards.InitialGrid | logic/Board.cpp:125-201 | every array cell holds the piece the starting layout assigns to it |
| Boards.StartingSquare | logic/Board.cpp:125-201 | a square starts with a piece of a colour and kind exactly when it is one of that kind's listed starting squares |
| Boards.StartingBackRankSquare | logic/Board.cpp:143-153 | back-rank kinds stand on row 1 (Black) / row 10 (White) in the order Champion, Rook, Knight, Bishop, Queen, King, Bishop, Knight, Rook, Champion |
| Boards.StartingPawnSquare | logic/Board.cpp:155-159 | pawns stand exactly on columns 1..10 of row 2 (Black) / row 9 (White) |
| Boards.StartingWizardSquare | logic/Board.cpp:161-164 | wizards stand exactly on the array corners of row 0 (Black) / row 11 (White) |
| Boards.BackRankKinds | logic/Board.cpp:132-153 | the back rank holds no pawn, no wizard and no empty square |
| Boards.InitialSquaresExact | logic/Board.cpp:125-201 | the set of squares holding each colour's pieces of each kind after reset is exactly the listed set |
| Boards.InitialCounts | logic/Board.cpp:125-201 | after reset each side has 1 King, 1 Queen, 2 Rooks, 2 Bishops, 2 Knights, 2 Champions, 2 Wizards and 10 Pawns |
| Boards.InitialOccupiesValidCells | logic/Board.cpp:125-201 | every occupied square of the starting position is playable and no piece has moved |
| Boards.InitialMirror | logic/Board.cpp:125-201 | the starting position is symmetric across the middle rows with colours exchanged |
| Boards.Board.constructor | logic/Board.cpp:4-7 | a new board is all empty |
| Boards.Board.CopyOf | logic/Board.hpp:19-20 | the implicit copy holds all 144 cells of the original |
| Boards.Board.Assign | logic/Board.hpp:19-20 | the implicit assignment overwrites all 144 cells with the other board's |
| Boards.Board.Clear | logic/Board.cpp:12-21 | afterwards every cell is the empty sentinel |
| Boards.Board.PieceAt | logic/Board.cpp:59-71 | returns the stored piece of an in-array cell |
| Boards.Board.SetPieceAt | logic/Board.cpp:73-78 | the new cells are the old with only (row, col) replaced |
| Boards.Board.ClearCell | logic/Board.cpp:80-85 | the new cells are the old with (row, col) emptied, or unchanged off the array |
| Boards.Board.ResetToInitialPosition | logic/Board.cpp:97-101 | afterwards the board is exactly the starting position |
| Boards.Board.SetupInitialPieces | logic/Board.cpp:125-201 | every square the layout assigns gets its piece, all other cells keep their old contents |
| Boards.Board.PlaceBackRank | logic/Board.cpp:143-153 | the ten back-rank pieces of one side are written to columns 1..10 of the row, nothing else changes |
| Boards.Board.PlacePawns | logic/Board.cpp:155-159 | the pawn loop writes a pawn of the side to columns 1..10 of the row, nothing else changes |
| Attacks.Ray | controller/GameController.cpp:81-94 | a walk reports the target only when the target is a playable square |
| Attacks.RookLikeAttacks | controller/GameController.cpp:73-95 | the rook-like lambda: a walk along the row or column towards the target; `RookLikeSpec` states when it holds |
| Attacks.BishopLikeAttacks | controller/GameController.cpp:98-120 | the bishop-like lambda: a diagonal walk towards the target; `BishopLikeSpec` states when it holds |
| Attacks.PieceAttacksSquare | controller/GameController.cpp:27-183 | empty pieces attack nothing; a sliding attack lands on a playable square; a leaper attack lies 1 to 3 squares away |
| Attacks.RayWalk | controller/GameController.cpp:73-120 | a walk from step j reaches step n iff step n is playable and every step j..n-1 is playable and empty |
| Attacks.RayStep | controller/GameController.cpp:83-92 | away from the target a walk goes on exactly when the current cell is playable and empty |
| Attacks.RookLikeSpec | controller/GameController.cpp:73-95 | rook-like attack iff same row or column, target playable, all cells strictly between playable and empty (the target may be occupied) |
| Attacks.BishopLikeSpec | controller/GameController.cpp:98-120 | bishop-like attack iff same diagonal at non-zero distance, target playable, all cells strictly between playable and empty |
| Attacks.LeaperPatterns | controller/GameController.cpp:42-162 | pawn, knight, king, champion and wizard attack exactly their listed offsets, and the answer is the same on every board |
| Attacks.SlidingPatterns | controller/GameController.cpp:164-182 | rook = rook-like, bishop = bishop-like, queen = rook-like or bishop-like; empty pieces attack nothing |
| Attacks.OwnSquare | controller/GameController.cpp:73-95 | a rook or queen on a playable square counts as attacking its own square (the zero-step walk); no other piece does |
| Rules.ColorOf | controller/GameController.cpp:9-14 | a side's colour is never None |
| Rules.Opposite | controller/GameController.cpp:17-22 | the opposite side differs and plays the other colour |
| Rules.PlayerFacts | controller/GameController.hpp:31-34 | exactly two sides, one colour each, and flipping twice gives the same side |
| Rules.ApplyMove | controller/GameController.cpp:377-436 | accepted iff both ends playable, source holds a piece of the side to move, destination empty or an enemy non-king; then the piece moves with hasMoved set, the source is emptied, from ≠ to and no other cell changes |
| Rules.RelocationKeepsCount | controller/GameController.cpp:428-435 | relocating a piece onto a square without a counted piece keeps the number of pieces of each colour and kind |
| Rules.RelocatedSquares | controller/GameController.cpp:428-435 | after the relocation the squares of a colour and kind are the old ones with `from` exchanged for `to` when `from` held such a piece, and without `to` otherwise |
| Rules.ApplyMoveKeepsKings | controller/GameController.cpp:417-435 | an accepted move keeps the number of kings of each colour |
| Rules.FindKingFrom | controller/GameController.cpp:451-475 | from (r, c) on, the scan returns a playable square holding the side's king with no such square between (r, c) and it in row-major order, i.e. the first one, or NotFound when no such square remains |
| Rules.FindKing | controller/GameController.cpp:451-475 | the king search over the whole array; through `FindKingFrom` it gives the first king square in row-major order or NotFound, and `FindsTheKing` shows a single king is found |
| Rules.NoKingMeansCheck | controller/GameController.cpp:477-482 | a side without a king on a playable square is in check |
| Rules.KingInCheck | controller/GameController.cpp:442-485 | the side is in check when the scan finds no king, otherwise when the other side attacks the found king; `NoKingMeansCheck` and `IsKingInCheck` state it |
| Rules.SquareAttacked | controller/GameController.cpp:487-512 | some playable square holds a piece of the attacking side that attacks the target; `IsSquareAttacked` is proved equal to it |
| Rules.FindsTheKing | controller/GameController.cpp:455-475 | when a side has exactly one king, on a playable square, the scan finds it |
| Rules.StatusOf | controller/GameController.cpp:523-548 | the state is Check iff the side to move is in check, otherwise Running; never Checkmate or Stalemate |
| Rules.ReplayStep | controller/GameController.cpp:337-342 | one iteration of the undo replay: the move applied when the structural rules allow it (board kept otherwise), then the side flips; `ReplayOne` is proved equal to it |
| Rules.Replay | controller/GameController.cpp:331-342 | the board and side reached from the starting position, White first, by replaying the moves in order; `ReplayPrefix`, `ReplayParity` and `ReplayKeepsKings` state its properties |
| Rules.ReplaySnoc | controller/GameController.cpp:337-342 | replaying one more move is one more step of the replay loop |
| Rules.ReplayPrefix | controller/GameController.cpp:337-342 | replaying the prefix of length i+1 is the replay of length i followed by move i |
| Rules.ReplayParity | controller/GameController.cpp:335-342 | after an even number of replayed moves White is to move, after an odd number Black |
| Rules.ReplayKeepsKings | controller/GameController.cpp:325-342 | every replayed position has exactly one king per side |
| Rules.NewGame | controller/GameController.cpp:210-226 | a new game has cursor 0 and nothing to undo or redo |
| Rules.AfterReset | controller/GameController.cpp:228-240 | reset gives the starting position, White, Running, and keeps history and cursor |
| Rules.AfterMove | controller/GameController.cpp:250-293 | rejected iff structurally rejected or the mover's king is then attacked (then nothing changes); otherwise board = the applied move, mover not in check, side flipped, history = history[..cursor] + [move], cursor at its end, state Check iff the new side is in check |
| Rules.AfterUndo | controller/GameController.cpp:325-349 | no-op at cursor 0; otherwise cursor − 1, board and side = replay of history[..cursor − 1], state recomputed, history unchanged, a redo is then possible |
| Rules.AfterRedo | controller/GameController.cpp:351-371 | no-op at the end of history or when the move is structurally rejected; otherwise the move is applied without the king-safety filter, cursor + 1, side flipped, state recomputed, history unchanged |
| Rules.ConsistentDeterminedByCursor | controller/GameController.cpp:331-344 | two states that satisfy the invariant and share history and cursor are identical |
| Rules.WhiteKingSafeAtHome | controller/GameController.cpp:442-512 | when every black piece stands on its own starting square and White's only king is on (10, 6), White is not in check |
| Rules.InitialNotInCheck | controller/GameController.cpp:210-226 | in the starting position White is not in check, so the state is Running |
| Rules.NewGameConsistent | controller/GameController.cpp:210-226 | a new game satisfies the invariant (board = replay of history[..cursor], state = check status, every move replays) |
| Rules.AfterMoveConsistent | controller/GameController.cpp:271-285 | an accepted move keeps the invariant |
| Rules.TruncateAndAppendReplays | controller/GameController.cpp:271-279 | cutting the redo tail and appending a move that applies keeps every recorded move replayable |
| Rules.AfterUndoConsistent | controller/GameController.cpp:325-349 | undo keeps the invariant |
| Rules.AfterRedoConsistent | controller/GameController.cpp:351-371 | from a consistent state redo always succeeds when a move is pending, and keeps the invariant |
| Rules.KingImmunity | controller/GameController.cpp:422-426 | in every consistent state each side has exactly one king and the state is Running or Check |
| Rules.UndoTimes | controller/GameController.cpp:325-349 | repeated undos keep 0 ≤ cursor ≤ length of history |
| Rules.RedoTimes | controller/GameController.cpp:351-371 | repeated redos keep 0 ≤ cursor ≤ length of history |
| Rules.UndoTimesCursor | controller/GameController.cpp:325-349 | n undos step the cursor back by n and leave the history unchanged |
| Rules.UndoTimesConsistent | controller/GameController.cpp:325-349 | n undos keep the invariant |
| Rules.RedoTimesConsistent | controller/GameController.cpp:351-371 | n redos keep the invariant, advance the cursor by n and leave the history unchanged |
| Rules.UndoRedoRoundTrip | controller/GameController.cpp:325-371 | from a consistent state, n undos followed by n redos give back the same board, side, state, history and cursor |
| Rules.PawnLeapAccepted | controller/GameController.cpp:428-429 | no movement pattern is checked: White's pawn on (9, 5) may move to (5, 5) in the first move |
| Rules.ResetLeavesHistoryStale | controller/GameController.cpp:228-240 | after one accepted move, reset alone leaves a state whose history no longer replays to its board |
| Rules.EmptySourceRejected | controller/GameController.cpp:401-405 | a move from an empty square is rejected |
| Controller.GameController.constructor | controller/GameController.cpp:189-198 | a fresh controller is the new game: starting position, White, Running, empty history, cursor 0, and satisfies the invariant |
| Controller.GameController.StartNewGame | controller/GameController.cpp:210-226 | the controller becomes the new game and satisfies the invariant |
| Controller.GameController.ResetToInitialPosition | controller/GameController.cpp:228-240 | the controller becomes AfterReset of its old state |
| Controller.GameController.MakeMoveAt | controller/GameController.cpp:242-248 | the same result and new state as MakeMove on the move (from, to) |
| Controller.GameController.MakeMove | controller/GameController.cpp:250-293 | returns true iff AfterMove accepts; the new state is AfterMove's, or unchanged on rejection (board restored from the snapshot); the invariant is kept |
| Controller.GameController.CanUndo | controller/GameController.cpp:311-314 | true iff the cursor is above 0 |
| Controller.GameController.CanRedo | controller/GameController.cpp:316-319 | true iff the cursor is below the history length |
| Controller.GameController.Undo | controller/GameController.cpp:325-349 | the new state is AfterUndo of the old, the replay loop rebuilding the board; the invariant is kept |
| Controller.GameController.ReplayOne | controller/GameController.cpp:337-342 | one replay step: the move applied when structurally allowed (board kept otherwise), side flipped, nothing else changed |
| Controller.GameController.Redo | controller/GameController.cpp:351-371 | the new state is AfterRedo of the old; the invariant is kept |
| Controller.GameController.ApplyMoveOnBoard | controller/GameController.cpp:377-436 | returns true iff ApplyMove accepts, and then the board is ApplyMove's result; on false the board is unchanged; side, state, history and cursor never change |
| Controller.GameController.IsKingInCheck | controller/GameController.cpp:442-485 | the nested scan answers exactly KingInCheck of the board |
| Controller.GameController.IsSquareAttacked | controller/GameController.cpp:487-512 | the nested scan answers exactly whether some playable square holds a piece of the side that attacks the target |
| Controller.GameController.SwitchPlayer | controller/GameController.cpp:518-521 | the side to move flips, nothing else changes |
| Controller.GameController.UpdateGameState | controller/GameController.cpp:523-548 | the state becomes Check iff the side to move is in check, otherwise Running; never Checkmate or Stalemate |

## Left out

- The Qt user interface (`gui/`, `main.cpp`) and every signal emission, including `notifyHistoryChanged`. These only notify observers and change no engine state.
- The null-pointer guards on the board and the static dummy board returned by `board()`. The model's controller always owns its board, and `board()`, `currentPlayer()` and `gameState()` are plain reads of the fields `board`, `currentPlayer` and `gameState`.
- Heap ownership of the board: `new` in the constructor and `delete` in the destructor.
- The `std::out_of_range` throws of `pieceAt` and `setPieceAt`. They become the precondition that the coordinate lies inside the array.
- `logic/PieceKind.hpp` and `logic/PieceColor.hpp` are not part of this model. They are display wrappers that the engine never includes.
- `Boards.Board`: the C++ array `m_cells[12][12]` is a field of type `seq<seq<Piece>>` that has exactly 12 rows of 12 cells. Every mutator reassigns it. The pure attack functions must read the board as a value, so the cells are not a Dafny `array2`. As a result, aliasing of individual cells is not modelled.
- Integer widths: `int` coordinates and the `size_t` cursor are unbounded. All coordinates the engine stores are bounded by the array checks, so no wrap-around arises.
- Piece-specific move shapes, checkmate and stalemate detection, castling, en passant and promotion. The engine has none of them; `PawnLeapAccepted` and `StatusOf` state their absence.
