/** Writing every entry of a vector to its own distinct index of a vector of
    the same length produces a permutation of it. */
module Scatter {

  /** `dst[target[i]] == src[i]` for every i, each target inside dst. */
  ghost predicate ScatteredBy<F>(src: seq<F>, dst: seq<F>, target: seq<int>) {
    && |target| == |src|
    && (forall i :: 0 <= i < |target| ==> 0 <= target[i] < |dst| && dst[target[i]] == src[i])
  }

  ghost predicate Injective(target: seq<int>) {
    forall i, j :: 0 <= i < j < |target| ==> target[i] != target[j]
  }

  /** No entry after i, before `upto`, is written to the same index as entry i. */
  ghost predicate LastWriteAt(target: seq<int>, i: int, upto: int)
    requires 0 <= i < |target| && upto <= |target|
  {
    forall k :: i < k < upto ==> target[k] != target[i]
  }

  /** After the writes `dst[target[i]] := src[i]` for i < upto, in order:
      every entry that no later write overwrote is in place. */
  ghost predicate ScatteredUpTo<F>(src: seq<F>, dst: seq<F>, target: seq<int>, upto: int)
    requires |target| == |src| && 0 <= upto <= |src|
  {
    forall i :: 0 <= i < upto && LastWriteAt(target, i, upto) ==>
      0 <= target[i] < |dst| && dst[target[i]] == src[i]
  }

  /** One more write keeps the scatter in place. */
  lemma ScatterStep<F>(src: seq<F>, dst: seq<F>, target: seq<int>, i: int)
    requires |target| == |src| && 0 <= i < |src| && 0 <= target[i] < |dst|
    requires ScatteredUpTo(src, dst, target, i)
    ensures ScatteredUpTo(src, dst[target[i] := src[i]], target, i + 1)
  {
    var dst' := dst[target[i] := src[i]];
    forall j | 0 <= j < i + 1 && LastWriteAt(target, j, i + 1)
      ensures 0 <= target[j] < |dst'| && dst'[target[j]] == src[j]
    {
      if j < i {
        assert target[i] != target[j];
        assert LastWriteAt(target, j, i);
      }
    }
  }

  /** Through distinct indices no write is ever overwritten. */
  lemma InjectiveScatter<F>(src: seq<F>, dst: seq<F>, target: seq<int>)
    requires |target| == |src| && Injective(target)
    requires ScatteredUpTo(src, dst, target, |src|)
    ensures ScatteredBy(src, dst, target)
  {
    forall i | 0 <= i < |src| ensures 0 <= target[i] < |dst| && dst[target[i]] == src[i] {
      assert LastWriteAt(target, i, |src|);
    }
  }

  /** Removing one index from the target set: the targets above it move down one. */
  function Renumber(target: seq<int>, gone: int): (r: seq<int>)
    ensures |r| == |target|
    ensures forall i :: 0 <= i < |r| ==> r[i] == if target[i] < gone then target[i] else target[i] - 1
  {
    seq(|target|, i requires 0 <= i < |target| => if target[i] < gone then target[i] else target[i] - 1)
  }

  /** A scatter through distinct indices into a vector of the same length is
      a permutation of the source. */
  lemma {:induction false} ScatterIsPermutation<F>(src: seq<F>, dst: seq<F>, target: seq<int>)
    requires |dst| == |src|
    requires ScatteredBy(src, dst, target) && Injective(target)
    ensures multiset(dst) == multiset(src)
  {
    var n := |src|;
    if n > 0 {
      var k := n - 1;
      var j := target[k];
      var dst' := dst[..j] + dst[j + 1..];
      var src' := src[..k];
      var target' := Renumber(target[..k], j);
      forall i | 0 <= i < k
        ensures 0 <= target'[i] < |dst'| && dst'[target'[i]] == src'[i]
      {
        assert target[i] != j;
      }
      ScatterIsPermutation(src', dst', target');
      assert dst == dst[..j] + [dst[j]] + dst[j + 1..];
      assert src == src' + [src[k]];
    }
  }
}
