/** The Blokus Duo board library as the adapter sees it. The library's rules
    (legality, scoring, the move enumeration, move rotation, position keys)
    are not part of this model: they are the function-valued fields of a
    `Library` value, and the facts the adapter relies on are stated as
    predicates that its callers must establish. */
module BoardLibrary {

  /** B is the board type, M the move type, K the type of position keys. */
  datatype Library<!B, !M, K> = Library(
    /** Board::XSIZE and Board::YSIZE. */
    xSize: nat,
    ySize: nat,
    /** The tile bits of the two players, Board::VIOLET_TILE and Board::ORANGE_TILE. */
    violetTile: bv8,
    orangeTile: bv8,
    /** Board::all_possible_moves(): the enumeration of the action space. */
    allPossibleMoves: seq<M>,
    /** board.at(x, y): the tile byte of a cell. */
    at: (B, int, int) -> bv8,
    isVioletTurn: B -> bool,
    /** board.player(): the 0-indexed player to move. */
    player: B -> nat,
    isGameOver: B -> bool,
    /** board.score(p). */
    score: (B, nat) -> int,
    /** board.valid_moves(): the moves playable in this position. */
    validMoves: B -> seq<M>,
    isValidMove: (B, M) -> bool,
    playMove: (B, M) -> B,
    /** Board::rotate_move(m, r): move m in orientation r of the board. */
    rotateMove: (M, nat) -> M,
    /** board.key(): the identity of the position. */
    key: B -> K)

  /** No element occurs twice in the sequence. */
  ghost predicate Distinct<M>(s: seq<M>) {
    forall i, j :: 0 <= i < j < |s| ==> s[i] != s[j]
  }

  /** Every move the library lists as valid in position b is one of the
      enumerated moves. */
  ghost predicate ValidMovesEnumerated<B, M, K>(lib: Library<B, M, K>, b: B) {
    forall m :: m in lib.validMoves(b) ==> m in lib.allPossibleMoves
  }

  /** The list of valid moves and the legality test agree on every
      enumerated move. */
  ghost predicate ValidMovesAgree<B, M, K>(lib: Library<B, M, K>, b: B) {
    forall i :: 0 <= i < |lib.allPossibleMoves| ==>
      (lib.allPossibleMoves[i] in lib.validMoves(b) <==> lib.isValidMove(b, lib.allPossibleMoves[i]))
  }

  /** The 0-indexed player the board reports is violet (0) exactly on
      violet's turn, and orange (1) otherwise. */
  ghost predicate PlayerMatchesTurn<B, M, K>(lib: Library<B, M, K>, b: B) {
    lib.player(b) == if lib.isVioletTurn(b) then 0 else 1
  }

  /** Rotating by r maps the enumerated moves injectively into themselves,
      i.e. it permutes the action space. */
  ghost predicate RotationPermutes<M>(moves: seq<M>, rotate: (M, nat) -> M, r: nat) {
    && (forall i :: 0 <= i < |moves| ==> rotate(moves[i], r) in moves)
    && (forall i, j :: 0 <= i < |moves| && 0 <= j < |moves| && rotate(moves[i], r) == rotate(moves[j], r)
          ==> moves[i] == moves[j])
  }
}
