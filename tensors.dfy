/** Rank-3 tensors indexed (channel, row, column), and the two index
    remappings the symmetry augmentation is built from: the shuffle that
    swaps the last two dimensions and the reversal of the last dimension.
    Entries are opaque values: the transforms only move them around. */
module Tensors {

  /** A tensor of shape d0 x d1 x d2; `cells[c][y][x]` is the entry (c, y, x). */
  datatype Tensor<E> = Tensor(d0: nat, d1: nat, d2: nat, cells: seq<seq<seq<E>>>) {

    /** The nested sequences have exactly the declared shape. */
    ghost predicate Valid() {
      && |cells| == d0
      && (forall c :: 0 <= c < d0 ==> |cells[c]| == d1)
      && (forall c, y :: 0 <= c < d0 && 0 <= y < d1 ==> |cells[c][y]| == d2)
    }

    ghost predicate InRange(c: int, y: int, x: int) {
      0 <= c < d0 && 0 <= y < d1 && 0 <= x < d2
    }
  }

  /** Two valid tensors of the same shape that agree at every index are equal. */
  lemma Extensionality<E>(a: Tensor<E>, b: Tensor<E>)
    requires a.Valid() && b.Valid()
    requires a.d0 == b.d0 && a.d1 == b.d1 && a.d2 == b.d2
    requires forall c, y, x :: a.InRange(c, y, x) ==> a.cells[c][y][x] == b.cells[c][y][x]
    ensures a == b
  {
    forall c | 0 <= c < a.d0
      ensures a.cells[c] == b.cells[c]
    {
      forall y | 0 <= y < a.d1
        ensures a.cells[c][y] == b.cells[c][y]
      {
        assert forall x :: 0 <= x < a.d2 ==> a.cells[c][y][x] == b.cells[c][y][x] by {
          forall x | 0 <= x < a.d2 ensures a.cells[c][y][x] == b.cells[c][y][x] {
            assert a.InRange(c, y, x);
          }
        }
      }
    }
  }

  /** Eigen's `shuffle({0, 2, 1})`: output dimension k is input dimension
      {0, 2, 1}[k], so rows and columns trade places in every channel. */
  function Shuffle021<E>(t: Tensor<E>): (r: Tensor<E>)
    requires t.Valid()
    ensures r.Valid() && r.d0 == t.d0 && r.d1 == t.d2 && r.d2 == t.d1
    ensures forall c, y, x :: r.InRange(c, y, x) ==> r.cells[c][y][x] == t.cells[c][x][y]
  {
    Tensor(t.d0, t.d2, t.d1,
      seq(t.d0, c requires 0 <= c < t.d0 =>
        seq(t.d2, y requires 0 <= y < t.d2 =>
          seq(t.d1, x requires 0 <= x < t.d1 => t.cells[c][x][y]))))
  }

  /** Eigen's `reverse({false, false, true})`: the last dimension is read
      back to front, the shape is kept. */
  function ReverseX<E>(t: Tensor<E>): (r: Tensor<E>)
    requires t.Valid()
    ensures r.Valid() && r.d0 == t.d0 && r.d1 == t.d1 && r.d2 == t.d2
    ensures forall c, y, x :: r.InRange(c, y, x) ==> r.cells[c][y][x] == t.cells[c][y][t.d2 - 1 - x]
  {
    Tensor(t.d0, t.d1, t.d2,
      seq(t.d0, c requires 0 <= c < t.d0 =>
        seq(t.d1, y requires 0 <= y < t.d1 =>
          seq(t.d2, x requires 0 <= x < t.d2 => t.cells[c][y][t.d2 - 1 - x]))))
  }

  /** The shuffle is its own inverse. */
  lemma Shuffle021Involution<E>(t: Tensor<E>)
    requires t.Valid()
    ensures Shuffle021(Shuffle021(t)) == t
  {
    var r := Shuffle021(Shuffle021(t));
    forall c, y, x | r.InRange(c, y, x) ensures r.cells[c][y][x] == t.cells[c][y][x] {
      assert Shuffle021(t).InRange(c, x, y);
    }
    Extensionality(r, t);
  }

  /** Reversing the last dimension twice gives the tensor back. */
  lemma ReverseXInvolution<E>(t: Tensor<E>)
    requires t.Valid()
    ensures ReverseX(ReverseX(t)) == t
  {
    var r := ReverseX(ReverseX(t));
    forall c, y, x | r.InRange(c, y, x) ensures r.cells[c][y][x] == t.cells[c][y][x] {
      assert ReverseX(t).InRange(c, y, t.d2 - 1 - x);
    }
    Extensionality(r, t);
  }

  // ---------------------------------------------------------------------
  // The eight orientations of the dihedral group, defined independently
  // of the shuffle/reverse chain, by the cell of the original each output
  // cell is read from. For an input of h rows and w columns:
  //   0 identity                 out(y, x) = in(y, x)
  //   1 mirror in x              out(y, x) = in(y, w-1-x)
  //   2 quarter turn             out(y, x) = in(h-1-x, y)
  //   3 transpose                out(y, x) = in(x, y)
  //   4 half turn                out(y, x) = in(h-1-y, w-1-x)
  //   5 mirror in y              out(y, x) = in(h-1-y, x)
  //   6 three-quarter turn       out(y, x) = in(x, w-1-y)
  //   7 anti-transpose           out(y, x) = in(h-1-x, w-1-y)
  // Orientations 2, 3, 6 and 7 swap the numbers of rows and columns.
  // ---------------------------------------------------------------------

  predicate SwapsAxes(k: nat) {
    k == 2 || k == 3 || k == 6 || k == 7
  }

  function OutRows(k: nat, h: nat, w: nat): nat {
    if SwapsAxes(k) then w else h
  }

  function OutCols(k: nat, h: nat, w: nat): nat {
    if SwapsAxes(k) then h else w
  }

  /** The (row, column) of the original that output cell (y, x) of
      orientation k is read from. */
  function SourceCell(k: nat, h: nat, w: nat, y: int, x: int): (rc: (int, int))
    requires k < 8 && 0 <= y < OutRows(k, h, w) && 0 <= x < OutCols(k, h, w)
    ensures 0 <= rc.0 < h && 0 <= rc.1 < w
  {
    match k
    case 0 => (y, x)
    case 1 => (y, w - 1 - x)
    case 2 => (h - 1 - x, y)
    case 3 => (x, y)
    case 4 => (h - 1 - y, w - 1 - x)
    case 5 => (h - 1 - y, x)
    case 6 => (x, w - 1 - y)
    case 7 => (h - 1 - x, w - 1 - y)
  }

  /** Orientation k of the tensor, applied to every channel. */
  function Dihedral<E>(t: Tensor<E>, k: nat): (r: Tensor<E>)
    requires t.Valid() && k < 8
    ensures r.Valid() && r.d0 == t.d0
    ensures r.d1 == OutRows(k, t.d1, t.d2) && r.d2 == OutCols(k, t.d1, t.d2)
  {
    var rows, cols := OutRows(k, t.d1, t.d2), OutCols(k, t.d1, t.d2);
    Tensor(t.d0, rows, cols,
      seq(t.d0, c requires 0 <= c < t.d0 =>
        seq(rows, y requires 0 <= y < rows =>
          seq(cols, x requires 0 <= x < cols =>
            var rc := SourceCell(k, t.d1, t.d2, y, x); t.cells[c][rc.0][rc.1]))))
  }

  lemma DihedralAt<E>(t: Tensor<E>, k: nat, c: int, y: int, x: int)
    requires t.Valid() && k < 8 && Dihedral(t, k).InRange(c, y, x)
    ensures var rc := SourceCell(k, t.d1, t.d2, y, x);
            Dihedral(t, k).cells[c][y][x] == t.cells[c][rc.0][rc.1]
  {
  }

  /** Orientation 0 is the tensor itself. */
  lemma DihedralIdentity<E>(t: Tensor<E>)
    requires t.Valid()
    ensures Dihedral(t, 0) == t
  {
    var r := Dihedral(t, 0);
    forall c, y, x | r.InRange(c, y, x) ensures r.cells[c][y][x] == t.cells[c][y][x] {
      DihedralAt(t, 0, c, y, x);
    }
    Extensionality(r, t);
  }

  /** The orientation that undoes orientation k: the two quarter turns undo
      each other, every other element of the group is its own inverse. */
  function InverseOrientation(k: nat): (j: nat)
    requires k < 8
    ensures j < 8
  {
    if k == 2 then 6 else if k == 6 then 2 else k
  }

  /** Round trip: reorienting by k and then by its inverse restores the tensor. */
  lemma DihedralRoundTrip<E>(t: Tensor<E>, k: nat)
    requires t.Valid() && k < 8
    ensures Dihedral(Dihedral(t, k), InverseOrientation(k)) == t
  {
    var s := Dihedral(t, k);
    var j := InverseOrientation(k);
    var r := Dihedral(s, j);
    forall c, y, x | r.InRange(c, y, x) ensures r.cells[c][y][x] == t.cells[c][y][x] {
      DihedralAt(s, j, c, y, x);
      var rc := SourceCell(j, s.d1, s.d2, y, x);
      DihedralAt(t, k, c, rc.0, rc.1);
    }
    Extensionality(r, t);
  }

  /** Quarter turns compose: two make the half turn, three the
      three-quarter turn, four the identity. */
  lemma QuarterTurnsCompose<E>(t: Tensor<E>)
    requires t.Valid()
    ensures Dihedral(Dihedral(t, 2), 2) == Dihedral(t, 4)
    ensures Dihedral(Dihedral(t, 4), 2) == Dihedral(t, 6)
    ensures Dihedral(Dihedral(t, 6), 2) == t
  {
    ComposeWithQuarterTurn(t, 2, 4);
    ComposeWithQuarterTurn(t, 4, 6);
    ComposeWithQuarterTurn(t, 6, 0);
    DihedralIdentity(t);
  }

  /** `Dihedral(Dihedral(t, a), 2) == Dihedral(t, b)` whenever the cell maps agree. */
  lemma ComposeWithQuarterTurn<E>(t: Tensor<E>, a: nat, b: nat)
    requires t.Valid() && a < 8 && b < 8
    requires SwapsAxes(a) != SwapsAxes(b)
    requires forall y, x :: 0 <= y < OutRows(b, t.d1, t.d2) && 0 <= x < OutCols(b, t.d1, t.d2) ==>
               SourceCell(b, t.d1, t.d2, y, x) ==
               SourceCell(a, t.d1, t.d2, OutRows(a, t.d1, t.d2) - 1 - x, y)
    ensures Dihedral(Dihedral(t, a), 2) == Dihedral(t, b)
  {
    var s := Dihedral(t, a);
    var l := Dihedral(s, 2);
    var r := Dihedral(t, b);
    forall c, y, x | l.InRange(c, y, x) ensures l.cells[c][y][x] == r.cells[c][y][x] {
      DihedralAt(s, 2, c, y, x);
      DihedralAt(t, a, c, s.d1 - 1 - x, y);
      DihedralAt(t, b, c, y, x);
    }
    Extensionality(l, r);
  }

  /** One step of the chain: `Shuffle021(Dihedral(t, a)) == Dihedral(t, b)`
      whenever the cell maps agree. */
  lemma ShuffleStep<E>(t: Tensor<E>, a: nat, b: nat)
    requires t.Valid() && a < 8 && b < 8
    requires SwapsAxes(a) != SwapsAxes(b)
    requires forall y, x :: 0 <= y < OutRows(b, t.d1, t.d2) && 0 <= x < OutCols(b, t.d1, t.d2) ==>
               SourceCell(b, t.d1, t.d2, y, x) == SourceCell(a, t.d1, t.d2, x, y)
    ensures Shuffle021(Dihedral(t, a)) == Dihedral(t, b)
  {
    var s := Dihedral(t, a);
    var l := Shuffle021(s);
    var r := Dihedral(t, b);
    forall c, y, x | l.InRange(c, y, x) ensures l.cells[c][y][x] == r.cells[c][y][x] {
      DihedralAt(t, a, c, x, y);
      DihedralAt(t, b, c, y, x);
    }
    Extensionality(l, r);
  }

  /** One step of the chain: `ReverseX(Dihedral(t, a)) == Dihedral(t, b)`
      whenever the cell maps agree. */
  lemma ReverseStep<E>(t: Tensor<E>, a: nat, b: nat)
    requires t.Valid() && a < 8 && b < 8
    requires SwapsAxes(a) == SwapsAxes(b)
    requires forall y, x :: 0 <= y < OutRows(b, t.d1, t.d2) && 0 <= x < OutCols(b, t.d1, t.d2) ==>
               SourceCell(b, t.d1, t.d2, y, x) == SourceCell(a, t.d1, t.d2, y, OutCols(a, t.d1, t.d2) - 1 - x)
    ensures ReverseX(Dihedral(t, a)) == Dihedral(t, b)
  {
    var s := Dihedral(t, a);
    var l := ReverseX(s);
    var r := Dihedral(t, b);
    forall c, y, x | l.InRange(c, y, x) ensures l.cells[c][y][x] == r.cells[c][y][x] {
      DihedralAt(t, a, c, y, s.d2 - 1 - x);
      DihedralAt(t, b, c, y, x);
    }
    Extensionality(l, r);
  }

  /** Alternately transposing and reversing the last axis, starting from
      the base tensor, walks through all eight orientations in the order
      3, 2, 5, 4, 7, 6, 1 and then back to the base. */
  lemma {:induction false} DihedralChain<E>(t: Tensor<E>)
    requires t.Valid()
    ensures Shuffle021(t) == Dihedral(t, 3)
    ensures ReverseX(Dihedral(t, 3)) == Dihedral(t, 2)
    ensures Shuffle021(Dihedral(t, 2)) == Dihedral(t, 5)
    ensures ReverseX(Dihedral(t, 5)) == Dihedral(t, 4)
    ensures Shuffle021(Dihedral(t, 4)) == Dihedral(t, 7)
    ensures ReverseX(Dihedral(t, 7)) == Dihedral(t, 6)
    ensures Shuffle021(Dihedral(t, 6)) == Dihedral(t, 1)
    ensures ReverseX(Dihedral(t, 1)) == t
  {
    DihedralIdentity(t);
    ShuffleStep(t, 0, 3);
    ReverseStep(t, 3, 2);
    ShuffleStep(t, 2, 5);
    ReverseStep(t, 5, 4);
    ShuffleStep(t, 4, 7);
    ReverseStep(t, 7, 6);
    ShuffleStep(t, 6, 1);
    ReverseStep(t, 1, 0);
  }
}
