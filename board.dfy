/** The Omega Chess board: a 12x12 array of pieces of which only the central
    10x10 block and the four array corners are playable, the fixed starting
    layout, and the Board object whose cell mutators change it in place. */
module Boards {
  import opened Pieces

  const Rows: int := 12
  const Cols: int := 12

  /** The shape of `m_cells[ROWS][COLS]`: exactly Rows rows of exactly Cols cells. */
  predicate IsGrid(g: seq<seq<Piece>>) {
    |g| == Rows && forall r :: 0 <= r < Rows ==> |g[r]| == Cols
  }

  /** The contents of the cell array, one Piece per array coordinate. */
  type Grid = g: seq<seq<Piece>> | IsGrid(g) witness seq(12, _ => seq(12, _ => Empty))

  /** `isInsideArray`: the coordinate addresses a cell of the 12x12 array. */
  predicate IsInsideArray(r: int, c: int) {
    0 <= r < Rows && 0 <= c < Cols
  }

  /** `isValidCell`: the coordinate is a playable square. */
  function IsValidCell(r: int, c: int): (valid: bool)
    ensures valid ==> IsInsideArray(r, c)
  {
    if !IsInsideArray(r, c) then false
    else if 1 <= r <= 10 && 1 <= c <= 10 then true
    else if (r == 0 || r == Rows - 1) && (c == 0 || c == Cols - 1) then true
    else false
  }

  /** `isEmpty(row, col)`: coordinates outside the array count as empty. */
  predicate IsEmptyAt(g: Grid, r: int, c: int) {
    if !IsInsideArray(r, c) then true else g[r][c].IsEmpty()
  }

  /** Off the array every coordinate reads as empty; on it, emptiness is the
      stored piece's; a cleared cell and every cell of a cleared grid are empty. */
  lemma CellEmptiness(g: Grid, r: int, c: int)
    ensures !IsInsideArray(r, c) ==> IsEmptyAt(g, r, c)
    ensures IsInsideArray(r, c) ==> (IsEmptyAt(g, r, c) <==> g[r][c].IsEmpty())
    ensures IsEmptyAt(ClearedAt(g, r, c), r, c)
    ensures IsEmptyAt(EmptyGrid(), r, c)
  {
  }

  /** The grid after writing `p` into cell (r, c). */
  function SetAt(g: Grid, r: int, c: int, p: Piece): (g': Grid)
    requires IsInsideArray(r, c)
    ensures g'[r][c] == p
    ensures forall i, j :: 0 <= i < Rows && 0 <= j < Cols && (i != r || j != c) ==> g'[i][j] == g[i][j]
  {
    g[r := g[r][c := p]]
  }

  /** The grid after `clearCell(r, c)`: the cell becomes empty when it is in the
      array; a coordinate outside the array changes nothing. */
  function ClearedAt(g: Grid, r: int, c: int): (g': Grid)
    ensures !IsInsideArray(r, c) ==> g' == g
    ensures IsInsideArray(r, c) ==> g'[r][c] == Empty
    ensures forall i, j :: 0 <= i < Rows && 0 <= j < Cols && (i != r || j != c) ==> g'[i][j] == g[i][j]
  {
    if IsInsideArray(r, c) then SetAt(g, r, c, Empty) else g
  }

  /** The grid in which every one of the 144 cells holds the empty sentinel. */
  function EmptyGrid(): (g: Grid)
    ensures forall r, c :: 0 <= r < Rows && 0 <= c < Cols ==> g[r][c] == Empty
  {
    seq(Rows, _ => seq(Cols, _ => Empty))
  }

  /** Two grids that agree on every cell are the same grid. */
  lemma GridExtensionality(g1: Grid, g2: Grid)
    requires forall r, c :: 0 <= r < Rows && 0 <= c < Cols ==> g1[r][c] == g2[r][c]
    ensures g1 == g2
  {
    forall r | 0 <= r < Rows
      ensures g1[r] == g2[r]
    {
      assert forall c :: 0 <= c < Cols ==> g1[r][c] == g2[r][c];
    }
  }

  /** The order of the pieces on both back ranks, columns 1..10. */
  const BackRank: seq<PieceKind> :=
    [PieceKind.Champion, PieceKind.Rook, PieceKind.Knight, PieceKind.Bishop, PieceKind.Queen,
     PieceKind.King, PieceKind.Bishop, PieceKind.Knight, PieceKind.Rook, PieceKind.Champion]

  /** The piece the starting position puts on (r, c), or Empty. */
  function InitialPieceAt(r: int, c: int): Piece {
    if r == 1 && 1 <= c <= 10 then Piece(PieceColor.Black, BackRank[c - 1], false)
    else if r == 2 && 1 <= c <= 10 then Piece(PieceColor.Black, PieceKind.Pawn, false)
    else if r == 0 && (c == 0 || c == Cols - 1) then Piece(PieceColor.Black, PieceKind.Wizard, false)
    else if r == 10 && 1 <= c <= 10 then Piece(PieceColor.White, BackRank[c - 1], false)
    else if r == 9 && 1 <= c <= 10 then Piece(PieceColor.White, PieceKind.Pawn, false)
    else if r == Rows - 1 && (c == 0 || c == Cols - 1) then Piece(PieceColor.White, PieceKind.Wizard, false)
    else Empty
  }

  /** The starting position as a grid. */
  function InitialGrid(): (g: Grid)
    ensures forall r, c :: 0 <= r < Rows && 0 <= c < Cols ==> g[r][c] == InitialPieceAt(r, c)
  {
    seq(Rows, r => seq(Cols, c => InitialPieceAt(r, c)))
  }

  /** The playable geometry: the 10x10 block plus the four corners of the
      array, and nothing outside the array. */
  lemma ValidCellGeometry(r: int, c: int)
    ensures IsInsideArray(r, c) <==> 0 <= r < 12 && 0 <= c < 12
    ensures IsValidCell(r, c) <==>
              (1 <= r <= 10 && 1 <= c <= 10) || (r in {0, 11} && c in {0, 11})
    ensures IsValidCell(r, c) ==> IsInsideArray(r, c)
  {
  }

  /** The sample cells of the geometry test. */
  lemma GeometrySamples()
    ensures Rows == 12 && Cols == 12
    ensures IsInsideArray(0, 0) && IsInsideArray(11, 11)
    ensures !IsInsideArray(-1, 0) && !IsInsideArray(0, 12)
    ensures IsValidCell(0, 0) && IsValidCell(0, Cols - 1) && IsValidCell(Rows - 1, 0)
    ensures IsValidCell(Rows - 1, Cols - 1)
    ensures IsValidCell(1, 1) && IsValidCell(10, 10) && IsValidCell(5, 7)
    ensures !IsValidCell(0, 5) && !IsValidCell(5, 0) && !IsValidCell(11, 5) && !IsValidCell(5, 11)
    ensures !IsValidCell(-1, -1) && !IsValidCell(12, 12)
  {
  }

  /** The squares of the array that hold a piece of the given colour and kind
      (whatever its moved flag). */
  function Squares(g: Grid, color: PieceColor, kind: PieceKind): set<(int, int)> {
    set r: int, c: int | 0 <= r < Rows && 0 <= c < Cols && g[r][c].color == color && g[r][c].kind == kind :: (r, c)
  }

  lemma InSquares(g: Grid, color: PieceColor, kind: PieceKind, r: int, c: int)
    ensures (r, c) in Squares(g, color, kind) <==>
              IsInsideArray(r, c) && g[r][c].color == color && g[r][c].kind == kind
  {
    if IsInsideArray(r, c) && g[r][c].color == color && g[r][c].kind == kind {
      assert (r, c) in Squares(g, color, kind);
    }
  }

  /** The cells (row, lo), ..., (row, hi - 1). */
  function RowSpan(row: int, lo: int, hi: int): set<(int, int)> {
    set c: int | lo <= c < hi :: (row, c)
  }

  /** A span of hi - lo columns holds hi - lo cells. */
  lemma {:induction false} RowSpanSize(row: int, lo: int, hi: int)
    requires lo <= hi
    ensures |RowSpan(row, lo, hi)| == hi - lo
    decreases hi - lo
  {
    if lo < hi {
      assert RowSpan(row, lo, hi) == {(row, lo)} + RowSpan(row, lo + 1, hi);
      RowSpanSize(row, lo + 1, hi);
    }
  }

  /** The row of a colour's back rank, of its pawns and of its wizards. */
  function HomeRow(color: PieceColor): int { if color == PieceColor.Black then 1 else 10 }
  function PawnRow(color: PieceColor): int { if color == PieceColor.Black then 2 else 9 }
  function CornerRow(color: PieceColor): int { if color == PieceColor.Black then 0 else Rows - 1 }

  /** Where the starting position puts each piece of a colour, listed square by square. */
  function StartingSquares(color: PieceColor, kind: PieceKind): set<(int, int)> {
    var home := HomeRow(color);
    match kind
    case King => {(home, 6)}
    case Queen => {(home, 5)}
    case Rook => {(home, 2), (home, 9)}
    case Bishop => {(home, 4), (home, 7)}
    case Knight => {(home, 3), (home, 8)}
    case Champion => {(home, 1), (home, 10)}
    case Wizard => {(CornerRow(color), 0), (CornerRow(color), Cols - 1)}
    case Pawn => RowSpan(PawnRow(color), 1, 11)
    case None => {}
  }

  /** How many pieces of each kind a side starts with. */
  function StartingCount(kind: PieceKind): nat {
    match kind
    case King => 1
    case Queen => 1
    case Pawn => 10
    case None => 0
    case _ => 2
  }

  /** A square of the starting position holds a piece of the given colour and
      kind exactly when it is one of the listed squares. */
  lemma StartingSquare(color: PieceColor, kind: PieceKind, r: int, c: int)
    requires color != PieceColor.None && IsInsideArray(r, c)
    ensures (InitialPieceAt(r, c).color == color && InitialPieceAt(r, c).kind == kind) <==>
              (r, c) in StartingSquares(color, kind)
  {
    if kind == PieceKind.Pawn {
      StartingPawnSquare(color, r, c);
    } else if kind == PieceKind.Wizard {
      StartingWizardSquare(color, r, c);
    } else if kind == PieceKind.None {
      assert StartingSquares(color, kind) == {};
    } else {
      StartingBackRankSquare(color, kind, r, c);
    }
  }

  /** The pawn case of StartingSquare. */
  lemma StartingPawnSquare(color: PieceColor, r: int, c: int)
    requires color != PieceColor.None && IsInsideArray(r, c)
    ensures (InitialPieceAt(r, c).color == color && InitialPieceAt(r, c).kind == PieceKind.Pawn) <==>
              (r, c) in StartingSquares(color, PieceKind.Pawn)
  {
    var span := RowSpan(PawnRow(color), 1, 11);
    assert StartingSquares(color, PieceKind.Pawn) == span;
    assert (r, c) in span <==> r == PawnRow(color) && 1 <= c < 11;
    if 1 <= c <= 10 {
      BackRankKinds(c);
    }
  }

  /** The back rank holds no pawn, no wizard and no empty square. */
  lemma BackRankKinds(c: int)
    requires 1 <= c <= 10
    ensures BackRank[c - 1] !in {PieceKind.Pawn, PieceKind.Wizard, PieceKind.None}
  {
  }

  /** The wizard case of StartingSquare. */
  lemma StartingWizardSquare(color: PieceColor, r: int, c: int)
    requires color != PieceColor.None && IsInsideArray(r, c)
    ensures (InitialPieceAt(r, c).color == color && InitialPieceAt(r, c).kind == PieceKind.Wizard) <==>
              (r, c) in StartingSquares(color, PieceKind.Wizard)
  {
    assert StartingSquares(color, PieceKind.Wizard) == {(CornerRow(color), 0), (CornerRow(color), Cols - 1)};
    if 1 <= c <= 10 {
      BackRankKinds(c);
    }
  }

  /** The back-rank case of StartingSquare. */
  lemma StartingBackRankSquare(color: PieceColor, kind: PieceKind, r: int, c: int)
    requires color != PieceColor.None && IsInsideArray(r, c)
    requires kind != PieceKind.Pawn && kind != PieceKind.Wizard && kind != PieceKind.None
    ensures (InitialPieceAt(r, c).color == color && InitialPieceAt(r, c).kind == kind) <==>
              (r, c) in StartingSquares(color, kind)
  {
    var home := HomeRow(color);
    if r == home && 1 <= c <= 10 {
      assert InitialPieceAt(r, c) == Piece(color, BackRank[c - 1], false);
    } else {
      assert (r, c) !in StartingSquares(color, kind);
    }
  }

  /** The grid of the starting position holds each side's pieces exactly on the
      listed squares. */
  lemma InitialSquaresExact(color: PieceColor, kind: PieceKind)
    requires color != PieceColor.None
    ensures Squares(InitialGrid(), color, kind) == StartingSquares(color, kind)
  {
    var g, s, t := InitialGrid(), Squares(InitialGrid(), color, kind), StartingSquares(color, kind);
    forall x | x in s
      ensures x in t
    {
      InSquares(g, color, kind, x.0, x.1);
      StartingSquare(color, kind, x.0, x.1);
    }
    forall x | x in t
      ensures x in s
    {
      StartingCell(color, kind, x);
      StartingSquare(color, kind, x.0, x.1);
      InSquares(g, color, kind, x.0, x.1);
    }
  }

  lemma StartingCell(color: PieceColor, kind: PieceKind, x: (int, int))
    requires x in StartingSquares(color, kind)
    ensures IsInsideArray(x.0, x.1)
  {
  }

  /** The starting position gives each side 1 King, 1 Queen, 2 Rooks, 2 Bishops,
      2 Knights, 2 Champions, 2 Wizards and 10 Pawns. */
  lemma InitialCounts(color: PieceColor, kind: PieceKind)
    requires color != PieceColor.None
    ensures |Squares(InitialGrid(), color, kind)| == StartingCount(kind)
  {
    InitialSquaresExact(color, kind);
    StartingSquaresSize(color, kind);
  }

  /** The listed starting squares of a kind are as many as its starting count. */
  lemma StartingSquaresSize(color: PieceColor, kind: PieceKind)
    ensures |StartingSquares(color, kind)| == StartingCount(kind)
  {
    if kind == PieceKind.Pawn {
      RowSpanSize(PawnRow(color), 1, 11);
    }
  }

  /** Every occupied square of the starting position is playable, and no piece
      has moved yet. */
  lemma InitialOccupiesValidCells(r: int, c: int)
    requires IsInsideArray(r, c)
    ensures !InitialGrid()[r][c].IsEmpty() ==> IsValidCell(r, c)
    ensures !InitialGrid()[r][c].hasMoved
  {
  }

  /** The starting position is the mirror image of itself across the middle of
      the board, with the colours exchanged. */
  lemma InitialMirror(r: int, c: int)
    requires IsInsideArray(r, c)
    ensures var p, q := InitialGrid()[r][c], InitialGrid()[Rows - 1 - r][c];
            p.kind == q.kind &&
            (p.color == PieceColor.White <==> q.color == PieceColor.Black) &&
            (p.color == PieceColor.None <==> q.color == PieceColor.None)
  {
  }

  /** The Board object: the cell array and its mutators.  The array is held as a
      value, so assigning it copies all 144 cells as the C++ assignment does. */
  class Board {
    var cells: Grid

    /** `Board()`: a fresh board is cleared. */
    constructor ()
      ensures cells == EmptyGrid()
    {
      cells := EmptyGrid();
      new;
      Clear();
    }

    /** The implicit copy constructor: a snapshot of another board. */
    constructor CopyOf(other: Board)
      ensures cells == other.cells
    {
      cells := other.cells;
    }

    /** The implicit copy assignment: overwrite every cell with another board's. */
    method Assign(other: Board)
      modifies this
      ensures cells == old(other.cells)
    {
      cells := other.cells;
    }

    /** `clear()`: every one of the 144 cells becomes the empty sentinel. */
    method Clear()
      modifies this
      ensures cells == EmptyGrid()
    {
      var r := 0;
      while r < Rows
        invariant 0 <= r <= Rows
        invariant forall i, j :: 0 <= i < r && 0 <= j < Cols ==> cells[i][j] == Empty
      {
        var c := 0;
        while c < Cols
          invariant 0 <= c <= Cols
          invariant forall i, j :: 0 <= i < r && 0 <= j < Cols ==> cells[i][j] == Empty
          invariant forall j :: 0 <= j < c ==> cells[r][j] == Empty
        {
          cells := SetAt(cells, r, c, Empty);
          c := c + 1;
        }
        r := r + 1;
      }
      GridExtensionality(cells, EmptyGrid());
    }

    /** `pieceAt(row, col)`: the piece stored in an array cell. */
    method PieceAt(r: int, c: int) returns (p: Piece)
      requires IsInsideArray(r, c)
      ensures p == cells[r][c]
    {
      p := cells[r][c];
    }

    /** `setPieceAt(row, col, piece)`: overwrite one array cell, leaving every other cell. */
    method SetPieceAt(r: int, c: int, p: Piece)
      requires IsInsideArray(r, c)
      modifies this
      ensures cells == SetAt(old(cells), r, c, p)
    {
      cells := SetAt(cells, r, c, p);
    }

    /** `clearCell(row, col)`: empty one cell; silently nothing outside the array. */
    method ClearCell(r: int, c: int)
      modifies this
      ensures cells == ClearedAt(old(cells), r, c)
    {
      if !IsInsideArray(r, c) {
        return;
      }
      cells := SetAt(cells, r, c, Empty);
    }

    /** `resetToInitialPosition()`: clear, then lay out the starting position. */
    method ResetToInitialPosition()
      modifies this
      ensures cells == InitialGrid()
    {
      Clear();
      SetupInitialPieces();
      GridExtensionality(cells, InitialGrid());
    }

    /** `setupInitialPieces()`: write the starting pieces over the current board;
        every other cell keeps what it held. */
    method SetupInitialPieces()
      modifies this
      ensures forall r, c :: 0 <= r < Rows && 0 <= c < Cols ==>
                cells[r][c] == (if InitialPieceAt(r, c).IsEmpty() then old(cells)[r][c] else InitialPieceAt(r, c))
    {
      // Black at the top.
      PlaceBackRank(1, PieceColor.Black);
      PlacePawns(2, PieceColor.Black);
      SetPieceAt(0, 0, Piece(PieceColor.Black, PieceKind.Wizard, false));
      SetPieceAt(0, Cols - 1, Piece(PieceColor.Black, PieceKind.Wizard, false));
      // White at the bottom.
      PlaceBackRank(10, PieceColor.White);
      PlacePawns(9, PieceColor.White);
      SetPieceAt(Rows - 1, 0, Piece(PieceColor.White, PieceKind.Wizard, false));
      SetPieceAt(Rows - 1, Cols - 1, Piece(PieceColor.White, PieceKind.Wizard, false));
    }

    /** The ten back-rank writes of one side, columns 1..10. */
    method PlaceBackRank(row: int, color: PieceColor)
      requires 0 <= row < Rows
      modifies this
      ensures forall r, c :: 0 <= r < Rows && 0 <= c < Cols ==>
                cells[r][c] == (if r == row && 1 <= c <= 10 then Piece(color, BackRank[c - 1], false) else old(cells)[r][c])
    {
      SetPieceAt(row, 1, Piece(color, PieceKind.Champion, false));
      SetPieceAt(row, 2, Piece(color, PieceKind.Rook, false));
      SetPieceAt(row, 3, Piece(color, PieceKind.Knight, false));
      SetPieceAt(row, 4, Piece(color, PieceKind.Bishop, false));
      SetPieceAt(row, 5, Piece(color, PieceKind.Queen, false));
      SetPieceAt(row, 6, Piece(color, PieceKind.King, false));
      SetPieceAt(row, 7, Piece(color, PieceKind.Bishop, false));
      SetPieceAt(row, 8, Piece(color, PieceKind.Knight, false));
      SetPieceAt(row, 9, Piece(color, PieceKind.Rook, false));
      SetPieceAt(row, 10, Piece(color, PieceKind.Champion, false));
      forall r, c | 0 <= r < Rows && 0 <= c < Cols
        ensures cells[r][c] == (if r == row && 1 <= c <= 10 then Piece(color, BackRank[c - 1], false) else old(cells)[r][c])
      {
        if r != row || c < 1 || c > 10 {
        } else if c <= 5 {
          assert c == 1 || c == 2 || c == 3 || c == 4 || c == 5;
        } else {
          assert c == 6 || c == 7 || c == 8 || c == 9 || c == 10;
        }
      }
    }

    /** The pawn loop of one side: columns 1..10 of `row`. */
    method PlacePawns(row: int, color: PieceColor)
      requires 0 <= row < Rows
      modifies this
      ensures forall r, c :: 0 <= r < Rows && 0 <= c < Cols ==>
                cells[r][c] == (if r == row && 1 <= c <= 10 then Piece(color, PieceKind.Pawn, false) else old(cells)[r][c])
    {
      var col := 1;
      while col <= 10
        invariant 1 <= col <= 11
        invariant forall r, c :: 0 <= r < Rows && 0 <= c < Cols ==>
                    cells[r][c] == (if r == row && 1 <= c < col then Piece(color, PieceKind.Pawn, false) else old(cells)[r][c])
      {
        SetPieceAt(row, col, Piece(color, PieceKind.Pawn, false));
        col := col + 1;
      }
    }
  }
}
