/** The value that occupies one board square: a colour, a kind and a
    "has moved" flag.  A square with no piece holds the empty sentinel. */
module Pieces {

  /** PieceColor: the colour of a piece, None for an empty square. */
  datatype PieceColor = None | White | Black

  /** PieceKind: the nine kinds, None for an empty square. */
  datatype PieceKind = None | King | Queen | Rook | Bishop | Knight | Pawn | Champion | Wizard

  datatype Piece = Piece(color: PieceColor, kind: PieceKind, hasMoved: bool) {

    /** A piece is empty when either its colour or its kind is None. */
    predicate IsEmpty() {
      color == PieceColor.None || kind == PieceKind.None
    }
  }

  /** The empty sentinel `Piece::empty()`, which is the default-constructed piece. */
  const Empty: Piece := Piece(PieceColor.None, PieceKind.None, false)

  /** The empty sentinel is empty and carries no history. */
  lemma EmptyIsEmpty()
    ensures Empty.IsEmpty() && !Empty.hasMoved
    ensures Empty.color == PieceColor.None && Empty.kind == PieceKind.None
  {
  }

  /** Emptiness is decided by colour and kind alone: it is blind to the moved flag,
      and every piece with a real colour and a real kind is occupied. */
  lemma EmptinessIgnoresMovedFlag(p: Piece, moved: bool)
    ensures p.(hasMoved := moved).IsEmpty() == p.IsEmpty()
    ensures p.color != PieceColor.None && p.kind != PieceKind.None ==> !p.IsEmpty()
    ensures p.IsEmpty() <==> p.color == PieceColor.None || p.kind == PieceKind.None
  {
  }

  /** The colour domain has exactly three values and the kind domain exactly nine. */
  lemma Domains(c: PieceColor, k: PieceKind)
    ensures c in {PieceColor.None, PieceColor.White, PieceColor.Black}
    ensures k in {PieceKind.None, PieceKind.King, PieceKind.Queen, PieceKind.Rook, PieceKind.Bishop,
                  PieceKind.Knight, PieceKind.Pawn, PieceKind.Champion, PieceKind.Wizard}
  {
  }
}
