/** The process-wide move-index table of the adapter: the enumeration of all
    moves and its inverse, an index per move, filled on first use. */
module MoveIndex {
  import opened BoardLibrary

  /** The map the filling loop builds from the enumeration s: entry i writes
      `s[i] := i`, so a move ends up at the index of its last occurrence. */
  function IndexMap<M(==)>(s: seq<M>): map<M, int>
  {
    if |s| == 0 then map[] else IndexMap(s[..|s| - 1])[s[|s| - 1] := |s| - 1]
  }

  /** `move_to_index[m]` read through operator[]: a missing key reads 0. */
  function Lookup<M(==)>(index: map<M, int>, m: M): int
  {
    if m in index then index[m] else 0
  }

  /** The keys of the index are exactly the enumerated moves, and each one
      maps to the position of its last occurrence. */
  lemma {:induction false} IndexMapLastOccurrence<M>(s: seq<M>, m: M)
    ensures m in IndexMap(s) <==> m in s
    ensures m in s ==>
              var j := IndexMap(s)[m];
              0 <= j < |s| && s[j] == m && forall k :: j < k < |s| ==> s[k] != m
  {
    if |s| > 0 {
      var p := s[..|s| - 1];
      IndexMapLastOccurrence(p, m);
      assert s == p + [s[|s| - 1]];
      assert m in s <==> m in p || m == s[|s| - 1];
    }
  }

  /** With distinct moves the index inverts the enumeration:
      `move_to_index[all_possible_moves[i]] == i`. */
  lemma IndexMapInverts<M>(s: seq<M>, i: int)
    requires Distinct(s) && 0 <= i < |s|
    ensures s[i] in IndexMap(s) && IndexMap(s)[s[i]] == i
  {
    IndexMapLastOccurrence(s, s[i]);
  }

  /** Every lookup, also of a move that is not enumerated, lands inside a
      non-empty table; an enumerated move is found at an index holding it. */
  lemma LookupInRange<M>(s: seq<M>, m: M)
    requires |s| > 0
    ensures 0 <= Lookup(IndexMap(s), m) < |s|
    ensures m in s ==> s[Lookup(IndexMap(s), m)] == m
  {
    IndexMapLastOccurrence(s, m);
  }

  /** The index that entry i of a policy is written to under orientation r:
      `move_to_index[rotate_move(all_possible_moves[i], r)]`. */
  function TargetIndex<M(==)>(moves: seq<M>, rotate: (M, nat) -> M, r: nat, i: int): int
    requires 0 <= i < |moves|
  {
    Lookup(IndexMap(moves), rotate(moves[i], r))
  }

  /** The write index of every entry under orientation r. */
  function Targets<M(==)>(moves: seq<M>, rotate: (M, nat) -> M, r: nat): (t: seq<int>)
    ensures |t| == |moves|
    ensures forall i :: 0 <= i < |moves| ==> t[i] == TargetIndex(moves, rotate, r, i)
  {
    seq(|moves|, i requires 0 <= i < |moves| => TargetIndex(moves, rotate, r, i))
  }

  /** When the moves are distinct and rotation by r permutes them, distinct
      entries are written to distinct indices. */
  lemma TargetsInjective<M>(moves: seq<M>, rotate: (M, nat) -> M, r: nat, i: int, j: int)
    requires Distinct(moves) && RotationPermutes(moves, rotate, r)
    requires 0 <= i < |moves| && 0 <= j < |moves| && i != j
    ensures TargetIndex(moves, rotate, r, i) != TargetIndex(moves, rotate, r, j)
  {
    LookupInRange(moves, rotate(moves[i], r));
    LookupInRange(moves, rotate(moves[j], r));
  }

  /** The globals `all_possible_moves` and `move_to_index`. There is one
      table per process; every game state refers to the same object. */
  class MoveTable<M(==)> {
    /** What Board::all_possible_moves() returns. */
    const enumerated: seq<M>
    var allMoves: seq<M>
    var moveToIndex: map<M, int>

    /** The table is either untouched or completely filled. */
    ghost predicate Valid()
      reads this
    {
      (allMoves == [] && moveToIndex == map[]) || Ready()
    }

    ghost predicate Ready()
      reads this
    {
      allMoves == enumerated && moveToIndex == IndexMap(enumerated)
    }

    /** `move_to_index[m]` in the filled table. */
    function IndexOf(m: M): int
      reads this
    {
      Lookup(moveToIndex, m)
    }

    /** The globals before first use: both empty. */
    constructor (enumerated: seq<M>)
      ensures Valid()
      ensures this.enumerated == enumerated && allMoves == [] && moveToIndex == map[]
    {
      this.enumerated := enumerated;
      allMoves := [];
      moveToIndex := map[];
    }

    /** compute_possible_moves: copy the enumeration, then record each
        move's index in the map, overwriting what was there. */
    method ComputePossibleMoves()
      modifies this
      ensures allMoves == enumerated
      ensures moveToIndex == old(moveToIndex) + IndexMap(enumerated)
    {
      allMoves := enumerated;
      var i := 0;
      while i < |allMoves|
        invariant 0 <= i <= |allMoves| && allMoves == enumerated
        invariant moveToIndex == old(moveToIndex) + IndexMap(allMoves[..i])
      {
        assert allMoves[..i + 1][..i] == allMoves[..i];
        moveToIndex := moveToIndex[allMoves[i] := i];
        i := i + 1;
      }
      assert allMoves[..i] == allMoves;
    }

    /** num_possible_moves: fill the table only if the move vector is still
        empty, then report its size. Every call returns the size of the
        enumeration; once filled, the table never changes again. */
    method NumPossibleMoves() returns (n: nat)
      requires Valid()
      modifies this
      ensures Valid() && Ready()
      ensures n == |allMoves| == |enumerated|
      ensures old(allMoves) != [] ==> unchanged(this)
    {
      if allMoves == [] {
        ComputePossibleMoves();
        assert moveToIndex == IndexMap(enumerated);
      }
      n := |allMoves|;
    }
  }
}
