/** The Blokus Duo game state as the search engine sees it: the move-index
    view of the action space, the legal-move mask, the terminal result, the
    canonical board encoding and the symmetry augmentation of training
    records. */
module BlokusDuo {
  import opened BoardLibrary
  import opened MoveIndex
  import opened Tensors
  import opened Scatter

  const NUM_PLAYERS: nat := 2
  const NUM_SYMMETRIES: nat := 8

  datatype Option<T> = None | Some(value: T)

  /** CANONICAL_SHAPE: one channel per player, then the board's rows and columns. */
  function CanonicalShape<B, M, K>(lib: Library<B, M, K>): (shape: seq<nat>)
    ensures |shape| == 3 && shape[0] == NUM_PLAYERS
    ensures shape[1] == lib.ySize && shape[2] == lib.xSize
  {
    [2, lib.ySize, lib.xSize]
  }

  /** A training record: the canonical encoding, the target policy (one entry
      per move index) and the outcome label. F stands for the float type;
      its values are only copied and moved. */
  datatype PlayHistory<F> = PlayHistory(canonical: Tensor<F>, pi: seq<F>, v: F)

  /** The other side of `operator==`: a game state that is or is not a
      Blokus Duo state. */
  datatype AnyGameState<B> = BlokusDuoState(board: B) | OtherGameState

  /** dst is the policy src re-indexed for orientation r: every entry of src
      that no later entry overwrites sits at the index of its rotated move. */
  ghost predicate RotatedPolicy<M, F>(moves: seq<M>, rotate: (M, nat) -> M, r: nat, src: seq<F>, dst: seq<F>)
    requires |src| == |moves|
  {
    |dst| == |src| && ScatteredUpTo(src, dst, Targets(moves, rotate, r), |src|)
  }

  /** With distinct moves and a rotation that permutes them, every entry is
      carried to the index of its rotated move and the re-indexed policy is
      a permutation of the original. */
  lemma RotatedPolicyIsPermutation<M, F>(moves: seq<M>, rotate: (M, nat) -> M, r: nat, src: seq<F>, dst: seq<F>)
    requires |src| == |moves| && RotatedPolicy(moves, rotate, r, src, dst)
    requires Distinct(moves) && RotationPermutes(moves, rotate, r)
    ensures forall i :: 0 <= i < |src| ==>
              0 <= TargetIndex(moves, rotate, r, i) < |dst| && dst[TargetIndex(moves, rotate, r, i)] == src[i]
    ensures multiset(dst) == multiset(src)
  {
    var target := Targets(moves, rotate, r);
    forall i, j | 0 <= i < j < |moves| ensures target[i] != target[j] {
      TargetsInjective(moves, rotate, r, i, j);
    }
    InjectiveScatter(src, dst, target);
    ScatterIsPermutation(src, dst, target);
  }

  /** Round trip of the policy: when rotating by r2 undoes rotating by r on
      every enumerated move, re-indexing for r and then for r2 gives the
      original policy back. */
  lemma PolicyRoundTrip<M, F>(moves: seq<M>, rotate: (M, nat) -> M, r: nat, r2: nat,
                              src: seq<F>, mid: seq<F>, dst: seq<F>)
    requires |src| == |moves| && Distinct(moves)
    requires RotationPermutes(moves, rotate, r) && RotationPermutes(moves, rotate, r2)
    requires forall i :: 0 <= i < |moves| ==> rotate(rotate(moves[i], r), r2) == moves[i]
    requires RotatedPolicy(moves, rotate, r, src, mid)
    requires |mid| == |moves| && RotatedPolicy(moves, rotate, r2, mid, dst)
    ensures dst == src
  {
    RotatedPolicyIsPermutation(moves, rotate, r, src, mid);
    RotatedPolicyIsPermutation(moves, rotate, r2, mid, dst);
    forall i | 0 <= i < |src| ensures dst[i] == src[i] {
      TargetRoundTrip(moves, rotate, r, r2, i);
    }
  }

  /** Entry i is written to t under r, and entry t back to i under r2. */
  lemma TargetRoundTrip<M>(moves: seq<M>, rotate: (M, nat) -> M, r: nat, r2: nat, i: int)
    requires Distinct(moves) && 0 <= i < |moves|
    requires rotate(moves[i], r) in moves && rotate(rotate(moves[i], r), r2) == moves[i]
    ensures var t := TargetIndex(moves, rotate, r, i);
            0 <= t < |moves| && TargetIndex(moves, rotate, r2, t) == i
  {
    LookupInRange(moves, rotate(moves[i], r));
    IndexMapInverts(moves, i);
  }

  /** With distinct moves, a mask that marks only listed moves and marks
      every listed move at its table index is 1 exactly at the listed moves. */
  lemma MaskMarksExactly<M>(moves: seq<M>, listed: seq<M>, mask: seq<int>)
    requires |mask| == |moves| && Distinct(moves)
    requires forall i :: 0 <= i < |mask| && mask[i] == 1 ==> moves[i] in listed
    requires forall m :: m in listed ==>
               var i := Lookup(IndexMap(moves), m); 0 <= i < |mask| && mask[i] == 1
    ensures forall i :: 0 <= i < |mask| ==> (mask[i] == 1 <==> moves[i] in listed)
  {
    forall i | 0 <= i < |mask| && moves[i] in listed ensures mask[i] == 1 {
      IndexMapInverts(moves, i);
    }
  }

  /** BlokusDuoGS: a position of the board library, plus the shared move table. */
  class BlokusDuoGS<B, M(==), K(==)> {
    const lib: Library<B, M, K>
    /** The process-wide `all_possible_moves` / `move_to_index` globals. */
    const table: MoveTable<M>
    var board: B

    ghost predicate Valid()
      reads this, table
    {
      table.Valid() && table.enumerated == lib.allPossibleMoves
    }

    constructor (lib: Library<B, M, K>, table: MoveTable<M>, board: B)
      requires table.Valid() && table.enumerated == lib.allPossibleMoves
      ensures Valid()
      ensures this.lib == lib && this.table == table && this.board == board
    {
      this.lib := lib;
      this.table := table;
      this.board := board;
    }

    /** current_player: the 0-indexed player to move, as the board reports it. */
    function CurrentPlayer(): (p: nat)
      reads this
      ensures p == lib.player(board)
      // with a library that numbers the players by turn, the current player
      // is the one whose pieces canonicalized puts in channel 0
      ensures PlayerMatchesTurn(lib, board) ==> p < NUM_PLAYERS && Channel(p) == 0 && Tile(p) == MoverTile()
    {
      lib.player(board)
    }

    function NumPlayers(): (n: nat)
      ensures n == NUM_PLAYERS
    {
      2
    }

    function NumSymmetries(): (n: nat)
      ensures n == NUM_SYMMETRIES
    {
      NUM_SYMMETRIES
    }

    /** num_moves: the size of the action space, filling the table on first use. */
    method NumMoves() returns (n: nat)
      requires Valid()
      modifies table
      ensures Valid() && table.Ready()
      ensures n == |table.allMoves| == |lib.allPossibleMoves|
      ensures old(table.allMoves) != [] ==> unchanged(table)
    {
      n := table.NumPossibleMoves();
    }

    /** valid_moves: a 0/1 vector over the move indices with a 1 at the index
        of every move the board lists as valid. */
    method ValidMoves() returns (valids: seq<int>)
      requires Valid() && ValidMovesEnumerated(lib, board)
      modifies table
      ensures Valid() && table.Ready()
      ensures |valids| == |lib.allPossibleMoves|
      ensures forall i :: 0 <= i < |valids| ==> valids[i] == 0 || valids[i] == 1
      // a 1 marks a valid move ...
      ensures forall i :: 0 <= i < |valids| && valids[i] == 1 ==> lib.allPossibleMoves[i] in lib.validMoves(board)
      // ... and every valid move is marked at the index the table gives it
      ensures forall m :: m in lib.validMoves(board) ==>
                var i := Lookup(IndexMap(lib.allPossibleMoves), m); 0 <= i < |valids| && valids[i] == 1
      // exactly: entry i is 1 when move i is valid and i is the index the table gives it
      ensures forall i :: 0 <= i < |valids| ==>
                (valids[i] == 1 <==> lib.allPossibleMoves[i] in lib.validMoves(board)
                                     && Lookup(IndexMap(lib.allPossibleMoves), lib.allPossibleMoves[i]) == i)
      // with distinct moves: entry i is 1 exactly when move i is legal
      ensures Distinct(lib.allPossibleMoves) && ValidMovesAgree(lib, board) ==>
                forall i :: 0 <= i < |valids| ==> (valids[i] == 1 <==> lib.isValidMove(board, lib.allPossibleMoves[i]))
    {
      var n := NumMoves();
      valids := MarkMoves(lib.validMoves(board));
      if Distinct(lib.allPossibleMoves) && ValidMovesAgree(lib, board) {
        MaskMarksExactly(lib.allPossibleMoves, lib.validMoves(board), valids);
      }
    }

    /** The loop of valid_moves: start from all zeros and set the entry at
        `move_to_index[m]` to 1 for every listed move m. */
    method MarkMoves(moves: seq<M>) returns (valids: seq<int>)
      requires table.Ready() && table.enumerated == lib.allPossibleMoves
      requires forall m :: m in moves ==> m in lib.allPossibleMoves
      ensures |valids| == |lib.allPossibleMoves|
      ensures forall i :: 0 <= i < |valids| ==> valids[i] == 0 || valids[i] == 1
      ensures forall i :: 0 <= i < |valids| && valids[i] == 1 ==> lib.allPossibleMoves[i] in moves
      ensures forall m :: m in moves ==>
                var i := Lookup(IndexMap(lib.allPossibleMoves), m); 0 <= i < |valids| && valids[i] == 1
      ensures forall i :: 0 <= i < |valids| ==>
                (valids[i] == 1 <==> lib.allPossibleMoves[i] in moves
                                     && Lookup(IndexMap(lib.allPossibleMoves), lib.allPossibleMoves[i]) == i)
    {
      var n := |table.allMoves|;
      ghost var all, index := lib.allPossibleMoves, IndexMap(lib.allPossibleMoves);
      var mask := new int[n](_ => 0);
      var k := 0;
      while k < |moves|
        invariant 0 <= k <= |moves| && n == |all|
        invariant forall i :: 0 <= i < n ==> mask[i] == 0 || mask[i] == 1
        invariant forall i :: 0 <= i < n && mask[i] == 1 ==> all[i] in moves && Lookup(index, all[i]) == i
        invariant forall j :: 0 <= j < k ==> 0 <= Lookup(index, moves[j]) < n && mask[Lookup(index, moves[j])] == 1
      {
        var m := moves[k];
        assert m in all;
        LookupInRange(all, m);
        ghost var t := Lookup(index, m);
        assert table.IndexOf(m) == t && all[t] == m;
        ghost var prev := mask[..];
        mask[table.IndexOf(m)] := 1;
        assert mask[..] == prev[t := 1];
        k := k + 1;
      }
      valids := mask[..];
      forall m | m in moves
        ensures var i := Lookup(index, m); 0 <= i < |valids| && valids[i] == 1
      {
        var j :| 0 <= j < |moves| && moves[j] == m;
      }
    }

    /** play_move: apply the move with the given index, which must be in the
        (already filled) table and legal in this position. */
    method PlayMove(move: nat)
      requires Valid()
      requires move < |table.allMoves| && lib.isValidMove(board, table.allMoves[move])
      modifies this
      ensures Valid()
      ensures board == lib.playMove(old(board), table.allMoves[move])
    {
      var m := table.allMoves[move];
      board := lib.playMove(board, m);
    }

    /** scores: nothing while the game goes on; at the end a one-hot vector
        over (violet wins, orange wins, draw). */
    function Scores(): (r: Option<seq<int>>)
      reads this
      ensures r.None? <==> !lib.isGameOver(board)
      ensures r.Some? ==> |r.value| == NUM_PLAYERS + 1
      ensures r.Some? ==> forall i :: 0 <= i < |r.value| ==> r.value[i] == 0 || r.value[i] == 1
      ensures r.Some? ==> (r.value[0] == 1 <==> lib.score(board, 0) > lib.score(board, 1))
      ensures r.Some? ==> (r.value[1] == 1 <==> lib.score(board, 1) > lib.score(board, 0))
      ensures r.Some? ==> (r.value[NUM_PLAYERS] == 1 <==> lib.score(board, 0) == lib.score(board, 1))
    {
      if !lib.isGameOver(board) then None
      else
        var v := lib.score(board, 0) - lib.score(board, 1);
        Some(if v > 0 then [1, 0, 0] else if v < 0 then [0, 1, 0] else [0, 0, 1])
    }

    /** The channel player p's pieces are written to. */
    function Channel(p: nat): (ch: nat)
      requires p < NUM_PLAYERS
      reads this
      ensures ch < NUM_PLAYERS
      ensures ch == 0 <==> (p == 0) == lib.isVioletTurn(board)
    {
      if lib.isVioletTurn(board) then p else 1 - p
    }

    function Tile(p: nat): bv8 {
      if p == 0 then lib.violetTile else lib.orangeTile
    }

    /** The tile bit of the player to move and of the other player. */
    function MoverTile(): bv8
      reads this
    {
      if lib.isVioletTurn(board) then lib.violetTile else lib.orangeTile
    }

    function OpponentTile(): bv8
      reads this
    {
      if lib.isVioletTurn(board) then lib.orangeTile else lib.violetTile
    }

    function Occupied(tile: bv8, x: int, y: int): int
      reads this
    {
      if lib.at(board, x, y) & tile != 0 then 1 else 0
    }

    /** The two nested row/column loops of canonicalized: write the 0/1
        occupancy of `tile` into channel ch, leaving the other channel alone. */
    method FillChannel(a: array3<int>, ch: nat, tile: bv8)
      requires ch < a.Length0 && a.Length1 == lib.ySize && a.Length2 == lib.xSize
      modifies a
      ensures forall y, x :: 0 <= y < a.Length1 && 0 <= x < a.Length2 ==> a[ch, y, x] == Occupied(tile, x, y)
      ensures forall c, y, x :: 0 <= c < a.Length0 && c != ch && 0 <= y < a.Length1 && 0 <= x < a.Length2 ==>
                a[c, y, x] == old(a[c, y, x])
    {
      var y := 0;
      while y < lib.ySize
        invariant 0 <= y <= lib.ySize
        invariant forall y', x :: 0 <= y' < y && 0 <= x < a.Length2 ==> a[ch, y', x] == Occupied(tile, x, y')
        invariant forall c, y', x :: 0 <= c < a.Length0 && c != ch && 0 <= y' < a.Length1 && 0 <= x < a.Length2 ==>
                    a[c, y', x] == old(a[c, y', x])
      {
        var x := 0;
        while x < lib.xSize
          invariant 0 <= x <= lib.xSize
          invariant forall y', x' :: 0 <= y' < y && 0 <= x' < a.Length2 ==> a[ch, y', x'] == Occupied(tile, x', y')
          invariant forall x' :: 0 <= x' < x ==> a[ch, y, x'] == Occupied(tile, x', y)
          invariant forall c, y', x' :: 0 <= c < a.Length0 && c != ch && 0 <= y' < a.Length1 && 0 <= x' < a.Length2 ==>
                      a[c, y', x'] == old(a[c, y', x'])
        {
          a[ch, y, x] := if lib.at(board, x, y) & tile != 0 then 1 else 0;
          x := x + 1;
        }
        y := y + 1;
      }
    }

    /** canonicalized: a 2 x YSIZE x XSIZE 0/1 tensor; channel 0 holds the
        pieces of the player to move, channel 1 those of the other player. */
    method Canonicalized() returns (out: Tensor<int>)
      ensures out.Valid() && [out.d0, out.d1, out.d2] == CanonicalShape(lib)
      ensures forall p, y, x :: 0 <= p < NUM_PLAYERS && 0 <= y < lib.ySize && 0 <= x < lib.xSize ==>
                out.cells[Channel(p)][y][x] == Occupied(Tile(p), x, y)
      ensures forall y, x :: 0 <= y < lib.ySize && 0 <= x < lib.xSize ==>
                && out.cells[0][y][x] == Occupied(MoverTile(), x, y)
                && out.cells[1][y][x] == Occupied(OpponentTile(), x, y)
    {
      var ys, xs := lib.ySize, lib.xSize;
      var a := new int[2, ys, xs];
      var p := 0;
      while p < 2
        invariant 0 <= p <= 2
        invariant forall q, y, x :: 0 <= q < p && 0 <= y < ys && 0 <= x < xs ==>
                    a[Channel(q), y, x] == Occupied(Tile(q), x, y)
      {
        FillChannel(a, Channel(p), Tile(p));
        p := p + 1;
      }
      out := Tensor(2, ys, xs,
        seq(2, c requires 0 <= c < 2 reads a =>
          seq(ys, y requires 0 <= y < ys reads a =>
            seq(xs, x requires 0 <= x < xs reads a => a[c, y, x]))));
      assert Channel(0) != Channel(1);
    }

    /** symmetries: the eight orientations of a training record. Record 0 is
        the base itself; record r holds orientation r of the encoding, the
        base outcome, and the base policy re-indexed through rotate_move. */
    method Symmetries<F(0)>(base: PlayHistory<F>) returns (syms: seq<PlayHistory<F>>)
      requires Valid() && base.canonical.Valid()
      requires |base.pi| == |lib.allPossibleMoves|
      modifies table
      ensures Valid() && table.Ready()
      ensures |syms| == NumSymmetries() && syms[0] == base
      ensures forall r :: 0 <= r < NUM_SYMMETRIES ==> syms[r].canonical == Dihedral(base.canonical, r)
      ensures forall r :: 1 <= r < NUM_SYMMETRIES ==>
                && syms[r].v == base.v
                && RotatedPolicy(lib.allPossibleMoves, lib.rotateMove, r, base.pi, syms[r].pi)
      ensures forall r ::
                (1 <= r < NUM_SYMMETRIES && Distinct(lib.allPossibleMoves)
                 && RotationPermutes(lib.allPossibleMoves, lib.rotateMove, r)) ==>
                && multiset(syms[r].pi) == multiset(base.pi)
                && forall i :: 0 <= i < |base.pi| ==>
                     var t := TargetIndex(lib.allPossibleMoves, lib.rotateMove, r, i);
                     0 <= t < |syms[r].pi| && syms[r].pi[t] == base.pi[i]
    {
      var t0 := base.canonical;
      var t3 := Shuffle021(t0);
      var t2 := ReverseX(t3);
      var t5 := Shuffle021(t2);
      var t4 := ReverseX(t5);
      var t7 := Shuffle021(t4);
      var t6 := ReverseX(t7);
      var t1 := Shuffle021(t6);
      var canon := [t0, t1, t2, t3, t4, t5, t6, t7];
      DihedralChain(t0);
      DihedralIdentity(t0);
      assert forall r :: 0 <= r < 8 ==> canon[r] == Dihedral(t0, r);

      var n := NumMoves();
      syms := [base];
      var r := 1;
      while r < 8
        invariant 1 <= r <= 8 && |syms| == r && syms[0] == base
        invariant Valid() && table.Ready()
        invariant forall q :: 0 <= q < r ==> syms[q].canonical == canon[q]
        invariant forall q :: 1 <= q < r ==>
                    syms[q].v == base.v && RotatedPolicy(lib.allPossibleMoves, lib.rotateMove, q, base.pi, syms[q].pi)
      {
        var pi := RotatePolicy(base.pi, r);
        syms := syms + [PlayHistory(canon[r], pi, base.v)];
        r := r + 1;
      }
      forall q | 1 <= q < 8 && Distinct(lib.allPossibleMoves) && RotationPermutes(lib.allPossibleMoves, lib.rotateMove, q)
        ensures multiset(syms[q].pi) == multiset(base.pi)
        ensures forall i :: 0 <= i < |base.pi| ==>
                  var t := TargetIndex(lib.allPossibleMoves, lib.rotateMove, q, i);
                  0 <= t < |syms[q].pi| && syms[q].pi[t] == base.pi[i]
      {
        RotatedPolicyIsPermutation(lib.allPossibleMoves, lib.rotateMove, q, base.pi, syms[q].pi);
      }
    }

    /** The inner loop of symmetries for orientation r: a fresh vector of
        num_moves entries, entry i of the base policy written at the index of
        rotate_move(all_possible_moves[i], r). Entries nothing is written to
        keep whatever the fresh vector held. */
    method RotatePolicy<F(0)>(src: seq<F>, r: nat) returns (dst: seq<F>)
      requires table.Ready() && table.enumerated == lib.allPossibleMoves
      requires |src| == |lib.allPossibleMoves|
      ensures RotatedPolicy(lib.allPossibleMoves, lib.rotateMove, r, src, dst)
    {
      var n := |table.allMoves|;
      ghost var target := Targets(lib.allPossibleMoves, lib.rotateMove, r);
      var pi := new F[n];
      var i := 0;
      while i < n
        invariant 0 <= i <= n
        invariant ScatteredUpTo(src, pi[..], target, i)
      {
        var m := lib.rotateMove(table.allMoves[i], r);
        LookupInRange(lib.allPossibleMoves, m);
        assert table.IndexOf(m) == target[i];
        ScatterStep(src, pi[..], target, i);
        ghost var prev := pi[..];
        pi[table.IndexOf(m)] := src[i];
        assert pi[..] == prev[target[i] := src[i]];
        i := i + 1;
      }
      dst := pi[..];
    }

    /** operator==: never equal to a state of another game; otherwise equal
        exactly when the board keys are equal. */
    function Equals(other: AnyGameState<B>): (r: bool)
      reads this
      ensures !other.BlokusDuoState? ==> !r
      ensures other.BlokusDuoState? ==> (r <==> lib.key(board) == lib.key(other.board))
    {
      match other
      case OtherGameState => false
      case BlokusDuoState(b) => lib.key(board) == lib.key(b)
    }

    /** minimize_storage: a Blokus Duo state keeps nothing beyond its key. */
    method MinimizeStorage()
      ensures unchanged(this)
    {
    }
  }

  /** A state equals a state of the same board. */
  lemma EqualsReflexive<B, M, K>(gs: BlokusDuoGS<B, M, K>)
    ensures gs.Equals(BlokusDuoState(gs.board))
  {
  }

  /** A finished game has exactly one winner-or-draw slot set. */
  lemma ScoresOneHot<B, M, K>(gs: BlokusDuoGS<B, M, K>)
    requires gs.lib.isGameOver(gs.board)
    ensures gs.Scores().Some?
    ensures exists k :: 0 <= k <= NUM_PLAYERS && OneHotAt(gs.Scores().value, k)
  {
    var s0, s1 := gs.lib.score(gs.board, 0), gs.lib.score(gs.board, 1);
    var k := if s0 > s1 then 0 else if s0 < s1 then 1 else 2;
    assert OneHotAt(gs.Scores().value, k);
  }

  /** s is 1 at index k and 0 everywhere else. */
  ghost predicate OneHotAt(s: seq<int>, k: int) {
    forall i :: 0 <= i < |s| ==> s[i] == (if i == k then 1 else 0)
  }
}
