/** The attack pattern matcher `pieceAttacksSquare`: does piece p standing on
    (pr, pc) attack (tr, tc)?  Leapers and pawns are tests on the offset
    (dr, dc) = (tr - pr, tc - pc); rooks, bishops and queens walk a ray that
    stops at the first cell that is outside the array, unplayable or occupied. */
module Attacks {
  import opened Pieces
  import opened Boards

  function Abs(x: int): nat { if x < 0 then -x else x }

  function Max(a: int, b: int): int { if a < b then b else a }

  /** The unit step toward x: -1, 0 or 1. */
  function Sign(x: int): int { if x == 0 then 0 else if x > 0 then 1 else -1 }

  /** The coordinate k unit steps from x in direction s. */
  function Step(x: int, s: int, k: int): int {
    if s > 0 then x + k else if s < 0 then x - k else x
  }

  /** How many cells remain before a walk in direction (sr, sc) leaves the array. */
  function Remaining(r: int, c: int, sr: int, sc: int): int {
    if sr > 0 then Rows - r
    else if sr < 0 then r + 1
    else if sc > 0 then Cols - c
    else c + 1
  }

  /** A cell a sliding piece may pass over: playable and empty. */
  predicate Passable(g: Grid, r: int, c: int) {
    IsValidCell(r, c) && IsEmptyAt(g, r, c)
  }

  /** The walk of `rookLikeAttacks` / `bishopLikeAttacks` from (r, c) on: it reaches
      the target unless it first meets a cell outside the array, an unplayable
      cell or an occupied cell.  A zero step is only ever taken from the target
      itself, where the walk stops at once. */
  predicate Ray(g: Grid, r: int, c: int, sr: int, sc: int, tr: int, tc: int)
    requires -1 <= sr <= 1 && -1 <= sc <= 1
    requires sr != 0 || sc != 0 || (r == tr && c == tc)
    ensures Ray(g, r, c, sr, sc, tr, tc) ==> IsValidCell(tr, tc)
    decreases if sr == 0 && sc == 0 then 0 else Remaining(r, c, sr, sc)
  {
    if !(IsInsideArray(r, c) && IsValidCell(r, c)) then false
    else if r == tr && c == tc then true
    else if !IsEmptyAt(g, r, c) then false
    else Ray(g, r + sr, c + sc, sr, sc, tr, tc)
  }

  /** `rookLikeAttacks`: along a rank or a file.  When the target is the piece's
      own square the step is (0, 0) and the walk answers at once. */
  predicate RookLikeAttacks(g: Grid, pr: int, pc: int, tr: int, tc: int) {
    var dr, dc := tr - pr, tc - pc;
    if dr != 0 && dc != 0 then false
    else Ray(g, pr + Sign(dr), pc + Sign(dc), Sign(dr), Sign(dc), tr, tc)
  }

  /** `bishopLikeAttacks`: along a diagonal, never onto the piece's own square. */
  predicate BishopLikeAttacks(g: Grid, pr: int, pc: int, tr: int, tc: int) {
    var dr, dc := tr - pr, tc - pc;
    if Abs(dr) != Abs(dc) || dr == 0 then false
    else Ray(g, pr + Sign(dr), pc + Sign(dc), Sign(dr), Sign(dc), tr, tc)
  }

  /** `pieceAttacksSquare`. */
  function PieceAttacksSquare(g: Grid, p: Piece, pr: int, pc: int, tr: int, tc: int): (attacks: bool)
    ensures attacks ==> !p.IsEmpty()
    ensures attacks && p.kind in {PieceKind.Rook, PieceKind.Bishop, PieceKind.Queen} ==> IsValidCell(tr, tc)
    ensures attacks && p.kind !in {PieceKind.Rook, PieceKind.Bishop, PieceKind.Queen} ==>
              1 <= Max(Abs(tr - pr), Abs(tc - pc)) <= 3
  {
    if p.IsEmpty() then false
    else
      var dr, dc := tr - pr, tc - pc;
      match p.kind
      case Pawn =>
        if p.color == PieceColor.White then dr == -1 && (dc == -1 || dc == 1)
        else if p.color == PieceColor.Black then dr == 1 && (dc == -1 || dc == 1)
        else false
      case Knight =>
        (Abs(dr) == 1 && Abs(dc) == 2) || (Abs(dr) == 2 && Abs(dc) == 1)
      case King =>
        Max(Abs(dr), Abs(dc)) == 1
      case Champion =>
        if (Abs(dr) == 1 && Abs(dc) == 0) || (Abs(dr) == 0 && Abs(dc) == 1) then true
        else if (Abs(dr) == 2 && Abs(dc) == 0) || (Abs(dr) == 0 && Abs(dc) == 2) then true
        else Abs(dr) == 2 && Abs(dc) == 2
      case Wizard =>
        if Abs(dr) == 1 && Abs(dc) == 1 then true
        else (Abs(dr) == 1 && Abs(dc) == 3) || (Abs(dr) == 3 && Abs(dc) == 1)
      case Rook => RookLikeAttacks(g, pr, pc, tr, tc)
      case Bishop => BishopLikeAttacks(g, pr, pc, tr, tc)
      case Queen => RookLikeAttacks(g, pr, pc, tr, tc) || BishopLikeAttacks(g, pr, pc, tr, tc)
      case None => false
  }

  /** Every cell strictly between step j and step n of a line is passable. */
  predicate PathClear(g: Grid, pr: int, pc: int, sr: int, sc: int, j: int, n: int) {
    forall k :: j <= k < n ==> Passable(g, Step(pr, sr, k), Step(pc, sc, k))
  }

  /** The walk started j steps out reaches the cell n steps out exactly when that
      cell is playable and every cell from step j up to it is passable. */
  lemma {:induction false} RayWalk(g: Grid, pr: int, pc: int, sr: int, sc: int, j: int, n: int)
    requires -1 <= sr <= 1 && -1 <= sc <= 1 && (sr != 0 || sc != 0)
    requires 1 <= j <= n
    ensures Ray(g, Step(pr, sr, j), Step(pc, sc, j), sr, sc, Step(pr, sr, n), Step(pc, sc, n)) <==>
              IsValidCell(Step(pr, sr, n), Step(pc, sc, n)) && PathClear(g, pr, pc, sr, sc, j, n)
    decreases n - j
  {
    var r, c := Step(pr, sr, j), Step(pc, sc, j);
    var tr, tc := Step(pr, sr, n), Step(pc, sc, n);
    if j < n {
      assert r != tr || c != tc;
      var r', c' := Step(pr, sr, j + 1), Step(pc, sc, j + 1);
      assert r + sr == r' && c + sc == c';
      RayWalk(g, pr, pc, sr, sc, j + 1, n);
      RayStep(g, r, c, sr, sc, tr, tc);
      PathClearSplit(g, pr, pc, sr, sc, j, n);
      var here, rest := Ray(g, r, c, sr, sc, tr, tc), Ray(g, r', c', sr, sc, tr, tc);
      var clear, clearRest := PathClear(g, pr, pc, sr, sc, j, n), PathClear(g, pr, pc, sr, sc, j + 1, n);
      assert here == (Passable(g, r, c) && rest);
      assert rest == (IsValidCell(tr, tc) && clearRest);
      assert clear == (Passable(g, r, c) && clearRest);
    } else {
      assert r == tr && c == tc;
      assert Ray(g, r, c, sr, sc, tr, tc) == IsValidCell(tr, tc);
    }
  }

  /** Away from the target, a walk goes on exactly when the cell it stands on
      is passable. */
  lemma RayStep(g: Grid, r: int, c: int, sr: int, sc: int, tr: int, tc: int)
    requires -1 <= sr <= 1 && -1 <= sc <= 1 && (sr != 0 || sc != 0)
    requires r != tr || c != tc
    ensures Ray(g, r, c, sr, sc, tr, tc) == (Passable(g, r, c) && Ray(g, r + sr, c + sc, sr, sc, tr, tc))
  {
  }

  /** A clear path from step j is a passable cell at step j followed by a clear
      path from step j + 1. */
  lemma PathClearSplit(g: Grid, pr: int, pc: int, sr: int, sc: int, j: int, n: int)
    requires j < n
    ensures PathClear(g, pr, pc, sr, sc, j, n) <==>
              Passable(g, Step(pr, sr, j), Step(pc, sc, j)) && PathClear(g, pr, pc, sr, sc, j + 1, n)
  {
    if Passable(g, Step(pr, sr, j), Step(pc, sc, j)) && PathClear(g, pr, pc, sr, sc, j + 1, n) {
      forall k | j <= k < n
        ensures Passable(g, Step(pr, sr, k), Step(pc, sc, k))
      {
        if k > j {
          assert j + 1 <= k < n;
        }
      }
    }
  }

  lemma RookLikeSpec(g: Grid, pr: int, pc: int, tr: int, tc: int)
    ensures RookLikeAttacks(g, pr, pc, tr, tc) <==>
              (tr == pr || tc == pc) && IsValidCell(tr, tc) &&
              PathClear(g, pr, pc, Sign(tr - pr), Sign(tc - pc), 1, Abs(tr - pr) + Abs(tc - pc))
  {
    var dr, dc := tr - pr, tc - pc;
    if (dr == 0 || dc == 0) && (dr != 0 || dc != 0) {
      var n := Abs(dr) + Abs(dc);
      assert Step(pr, Sign(dr), 1) == pr + Sign(dr) && Step(pc, Sign(dc), 1) == pc + Sign(dc);
      assert Step(pr, Sign(dr), n) == tr && Step(pc, Sign(dc), n) == tc;
      RayWalk(g, pr, pc, Sign(dr), Sign(dc), 1, n);
    }
  }

  /** A bishop-like attack holds exactly when the target is on one of the piece's
      diagonals at a non-zero distance, is playable, and every cell in between is
      playable and empty. */
  lemma BishopLikeSpec(g: Grid, pr: int, pc: int, tr: int, tc: int)
    ensures BishopLikeAttacks(g, pr, pc, tr, tc) <==>
              Abs(tr - pr) == Abs(tc - pc) && tr != pr && IsValidCell(tr, tc) &&
              PathClear(g, pr, pc, Sign(tr - pr), Sign(tc - pc), 1, Abs(tr - pr))
  {
    var dr, dc := tr - pr, tc - pc;
    if Abs(dr) == Abs(dc) && dr != 0 {
      var n := Abs(dr);
      assert Step(pr, Sign(dr), 1) == pr + Sign(dr) && Step(pc, Sign(dc), 1) == pc + Sign(dc);
      assert Step(pr, Sign(dr), n) == tr && Step(pc, Sign(dc), n) == tc;
      RayWalk(g, pr, pc, Sign(dr), Sign(dc), 1, n);
    }
  }

  /** The offsets a pawn or a leaper attacks, listed one by one. */
  function LeaperOffsets(p: Piece): set<(int, int)> {
    match p.kind
    case Pawn =>
      if p.color == PieceColor.White then {(-1, -1), (-1, 1)}
      else if p.color == PieceColor.Black then {(1, -1), (1, 1)}
      else {}
    case Knight => {(1, 2), (2, 1), (-1, 2), (-2, 1), (1, -2), (2, -1), (-1, -2), (-2, -1)}
    case King => {(-1, -1), (-1, 0), (-1, 1), (0, -1), (0, 1), (1, -1), (1, 0), (1, 1)}
    case Champion => {(1, 0), (-1, 0), (0, 1), (0, -1), (2, 0), (-2, 0), (0, 2), (0, -2),
                      (2, 2), (2, -2), (-2, 2), (-2, -2)}
    case Wizard => {(1, 1), (1, -1), (-1, 1), (-1, -1), (1, 3), (1, -3), (-1, 3), (-1, -3),
                    (3, 1), (3, -1), (-3, 1), (-3, -1)}
    case _ => {}
  }

  /** A pawn, knight, king, champion or wizard attacks exactly the squares at its
      listed offsets, whatever stands on the board: these tests never read it. */
  lemma LeaperPatterns(g: Grid, g': Grid, p: Piece, pr: int, pc: int, tr: int, tc: int)
    requires !p.IsEmpty()
    requires p.kind !in {PieceKind.Rook, PieceKind.Bishop, PieceKind.Queen}
    ensures PieceAttacksSquare(g, p, pr, pc, tr, tc) <==> (tr - pr, tc - pc) in LeaperOffsets(p)
    ensures PieceAttacksSquare(g, p, pr, pc, tr, tc) == PieceAttacksSquare(g', p, pr, pc, tr, tc)
  {
  }

  /** Sliding pieces: a rook attacks rook-like, a bishop bishop-like, a queen both;
      an empty square attacks nothing. */
  lemma SlidingPatterns(g: Grid, p: Piece, pr: int, pc: int, tr: int, tc: int)
    ensures p.IsEmpty() ==> !PieceAttacksSquare(g, p, pr, pc, tr, tc)
    ensures !p.IsEmpty() && p.kind == PieceKind.Rook ==>
              PieceAttacksSquare(g, p, pr, pc, tr, tc) == RookLikeAttacks(g, pr, pc, tr, tc)
    ensures !p.IsEmpty() && p.kind == PieceKind.Bishop ==>
              PieceAttacksSquare(g, p, pr, pc, tr, tc) == BishopLikeAttacks(g, pr, pc, tr, tc)
    ensures !p.IsEmpty() && p.kind == PieceKind.Queen ==>
              PieceAttacksSquare(g, p, pr, pc, tr, tc) ==
              (RookLikeAttacks(g, pr, pc, tr, tc) || BishopLikeAttacks(g, pr, pc, tr, tc))
  {
  }

  /** The zero-step quirk: a rook or queen on a playable square "attacks" its own
      square, while no other piece does. */
  lemma OwnSquare(g: Grid, p: Piece, r: int, c: int)
    requires !p.IsEmpty()
    ensures PieceAttacksSquare(g, p, r, c, r, c) <==>
              p.kind in {PieceKind.Rook, PieceKind.Queen} && IsValidCell(r, c)
  {
    RookLikeSpec(g, r, c, r, c);
  }
}
