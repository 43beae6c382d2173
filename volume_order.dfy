/**
 The ordering half of the b=0 reordering step: which volumes are baselines,
 the index selection `np.where(mask)[0]`, the concatenated `new_order`, and
 fancy indexing of a per-volume sequence by that order.

 The specification of the order is `IsStablePartition`: a permutation of the
 volume indices in which baselines come first and each group keeps its
 acquisition order. `NewOrder` meets it, and no other order does.
 */
module VolumeOrder {

  /** b-values strictly below this (in s/mm^2) mark a baseline (b=0) volume. */
  const BaselineThreshold: real := 50.0

  predicate IsBaseline(bval: real) {
    bval < BaselineThreshold
  }

  /** The boolean array `bvals < 50`. */
  function BaselineMask(bvals: seq<real>): (mask: seq<bool>)
    ensures |mask| == |bvals|
    ensures forall i :: 0 <= i < |bvals| ==> (mask[i] <==> IsBaseline(bvals[i]))
  {
    seq(|bvals|, i requires 0 <= i < |bvals| => bvals[i] < BaselineThreshold)
  }

  /** The boolean array `bvals >= 50`: on real b-values, exactly the volumes that are not baselines. */
  function WeightedMask(bvals: seq<real>): (mask: seq<bool>)
    ensures |mask| == |bvals|
    ensures forall i :: 0 <= i < |bvals| ==> (mask[i] <==> !IsBaseline(bvals[i]))
  {
    seq(|bvals|, i requires 0 <= i < |bvals| => bvals[i] >= BaselineThreshold)
  }

  /** `np.where(mask)[0]`: the positions at which the mask holds, ascending. */
  function IndicesWhere(mask: seq<bool>): (r: seq<nat>)
    ensures forall k :: 0 <= k < |r| ==> r[k] < |mask| && mask[r[k]]
    ensures forall i :: 0 <= i < |mask| && mask[i] ==> i in r
    ensures forall p, q :: 0 <= p < q < |r| ==> r[p] < r[q]
  {
    if |mask| == 0 then []
    else
      var last := |mask| - 1;
      IndicesWhere(mask[..last]) + (if mask[last] then [last] else [])
  }

  /** `b0_idx`: every baseline index, ascending, and nothing else. */
  function BaselineIndices(bvals: seq<real>): (b0: seq<nat>)
    ensures forall k :: 0 <= k < |b0| ==> b0[k] < |bvals| && IsBaseline(bvals[b0[k]])
    ensures forall i :: 0 <= i < |bvals| && IsBaseline(bvals[i]) ==> i in b0
    ensures forall p, q :: 0 <= p < q < |b0| ==> b0[p] < b0[q]
  {
    IndicesWhere(BaselineMask(bvals))
  }

  /** `dwi_idx`: every weighted index, ascending, and nothing else. */
  function WeightedIndices(bvals: seq<real>): (dwi: seq<nat>)
    ensures forall k :: 0 <= k < |dwi| ==> dwi[k] < |bvals| && !IsBaseline(bvals[dwi[k]])
    ensures forall i :: 0 <= i < |bvals| && !IsBaseline(bvals[i]) ==> i in dwi
    ensures forall p, q :: 0 <= p < q < |dwi| ==> dwi[p] < dwi[q]
  {
    IndicesWhere(WeightedMask(bvals))
  }

  /**
   `new_order = np.concatenate([b0_idx, dwi_idx])`: one entry per volume,
   and position k holds a baseline exactly when k < len(b0_idx).
   */
  function NewOrder(bvals: seq<real>): (order: seq<nat>)
    ensures |order| == |bvals|
    ensures InRange(order, |bvals|)
    ensures forall k :: 0 <= k < |order| ==> (k < |BaselineIndices(bvals)| <==> IsBaseline(bvals[order[k]]))
  {
    var b0, dwi := BaselineIndices(bvals), WeightedIndices(bvals);
    SplitIndices(bvals);
    TwoAscendingBlocks(bvals, b0, dwi);
    b0 + dwi
  }

  /** Fancy indexing `xs[order]`: output position k holds `xs[order[k]]`. */
  function Gather<T>(xs: seq<T>, order: seq<nat>): (r: seq<T>)
    requires InRange(order, |xs|)
    ensures |r| == |order|
    ensures forall k :: 0 <= k < |order| ==> r[k] == xs[order[k]]
  {
    seq(|order|, k requires 0 <= k < |order| => xs[order[k]])
  }

  /** The identity order 0, 1, ..., n-1. */
  function Identity(n: nat): seq<nat> {
    seq(n, i requires 0 <= i < n => i)
  }

  // ---------------------------------------------------------------------
  // Specification of the order

  ghost predicate InRange(order: seq<nat>, n: nat) {
    forall k :: 0 <= k < |order| ==> order[k] < n
  }

  /** Every index 0..n-1 appears exactly once. */
  ghost predicate IsPermutation(order: seq<nat>, n: nat) {
    && |order| == n
    && InRange(order, n)
    && (forall p, q :: 0 <= p < q < |order| ==> order[p] != order[q])
    && (forall i :: 0 <= i < n ==> i in order)
  }

  /** No baseline volume follows a weighted one. */
  ghost predicate BaselinesFirst(order: seq<nat>, bvals: seq<real>)
    requires InRange(order, |bvals|)
  {
    forall p, q :: 0 <= p < q < |order| && IsBaseline(bvals[order[q]]) ==> IsBaseline(bvals[order[p]])
  }

  /** Two volumes of the same group keep their acquisition order. */
  ghost predicate StableWithinGroups(order: seq<nat>, bvals: seq<real>)
    requires InRange(order, |bvals|)
  {
    forall p, q :: 0 <= p < q < |order| && (IsBaseline(bvals[order[p]]) <==> IsBaseline(bvals[order[q]]))
      ==> order[p] < order[q]
  }

  ghost predicate IsStablePartition(order: seq<nat>, bvals: seq<real>) {
    && IsPermutation(order, |bvals|)
    && BaselinesFirst(order, bvals)
    && StableWithinGroups(order, bvals)
  }

  /** The b-values already have every baseline ahead of every weighted volume. */
  ghost predicate IsPartitioned(bvals: seq<real>) {
    forall i, j :: 0 <= i < j < |bvals| && IsBaseline(bvals[j]) ==> IsBaseline(bvals[i])
  }

  /** The order the stable partition puts volumes in: by group, then by index. */
  ghost predicate Precedes(bvals: seq<real>, i: nat, j: nat)
    requires i < |bvals| && j < |bvals|
  {
    if IsBaseline(bvals[i]) == IsBaseline(bvals[j]) then i < j else IsBaseline(bvals[i])
  }

  ghost predicate SortedByPrecedes(s: seq<nat>, bvals: seq<real>)
    requires InRange(s, |bvals|)
  {
    forall p, q :: 0 <= p < q < |s| ==> Precedes(bvals, s[p], s[q])
  }

  // ---------------------------------------------------------------------
  // Properties of np.where

  /** Two complementary masks select, between them, as many indices as there are volumes. */
  lemma {:induction false} ComplementaryCounts(m1: seq<bool>, m2: seq<bool>)
    requires |m1| == |m2|
    requires forall i :: 0 <= i < |m1| ==> m1[i] != m2[i]
    ensures |IndicesWhere(m1)| + |IndicesWhere(m2)| == |m1|
  {
    if |m1| > 0 {
      var last := |m1| - 1;
      ComplementaryCounts(m1[..last], m2[..last]);
      assert IndicesWhere(m1) == IndicesWhere(m1[..last]) + (if m1[last] then [last] else []);
      assert IndicesWhere(m2) == IndicesWhere(m2[..last]) + (if m2[last] then [last] else []);
    }
  }

  /** On real b-values the two masks are complementary. */
  lemma MasksComplementary(bvals: seq<real>)
    ensures |BaselineMask(bvals)| == |WeightedMask(bvals)| == |bvals|
    ensures forall i :: 0 <= i < |bvals| ==>
      BaselineMask(bvals)[i] == IsBaseline(bvals[i]) != WeightedMask(bvals)[i]
  {
  }

  // ---------------------------------------------------------------------
  // new_order is the stable partition

  /**
   A block of baselines followed by a block of weighted volumes, each block
   ascending, is a stable partition of whatever indices it holds.
   */
  lemma TwoAscendingBlocks(bvals: seq<real>, b0: seq<nat>, dwi: seq<nat>)
    requires forall k :: 0 <= k < |b0| ==> b0[k] < |bvals| && IsBaseline(bvals[b0[k]])
    requires forall k :: 0 <= k < |dwi| ==> dwi[k] < |bvals| && !IsBaseline(bvals[dwi[k]])
    requires forall p, q :: 0 <= p < q < |b0| ==> b0[p] < b0[q]
    requires forall p, q :: 0 <= p < q < |dwi| ==> dwi[p] < dwi[q]
    ensures InRange(b0 + dwi, |bvals|)
    ensures forall p, q :: 0 <= p < q < |b0 + dwi| ==> (b0 + dwi)[p] != (b0 + dwi)[q]
    ensures BaselinesFirst(b0 + dwi, bvals)
    ensures StableWithinGroups(b0 + dwi, bvals)
    ensures forall k :: 0 <= k < |b0 + dwi| ==> (k < |b0| <==> IsBaseline(bvals[(b0 + dwi)[k]]))
  {
  }

  /** Between them, `b0_idx` and `dwi_idx` hold as many indices as there are volumes. */
  lemma SplitIndices(bvals: seq<real>)
    ensures |BaselineIndices(bvals)| + |WeightedIndices(bvals)| == |bvals|
  {
    MasksComplementary(bvals);
    ComplementaryCounts(BaselineMask(bvals), WeightedMask(bvals));
  }

  lemma NewOrderIsPermutation(bvals: seq<real>)
    ensures IsPermutation(NewOrder(bvals), |bvals|)
  {
    SplitIndices(bvals);
    TwoAscendingBlocks(bvals, BaselineIndices(bvals), WeightedIndices(bvals));
    var order := NewOrder(bvals);
    forall i | 0 <= i < |bvals| ensures i in order {
      assert i in BaselineIndices(bvals) || i in WeightedIndices(bvals);
    }
  }

  lemma NewOrderIsStablePartition(bvals: seq<real>)
    ensures IsStablePartition(NewOrder(bvals), bvals)
  {
    NewOrderIsPermutation(bvals);
    SplitIndices(bvals);
    TwoAscendingBlocks(bvals, BaselineIndices(bvals), WeightedIndices(bvals));
  }

  /** A b-value of exactly 50 is not a baseline: it lands in the weighted block. */
  lemma ThresholdIsExclusive(bvals: seq<real>, i: nat)
    requires i < |bvals| && bvals[i] == 50.0
    ensures i in WeightedIndices(bvals) && i !in BaselineIndices(bvals)
    ensures forall k :: 0 <= k < |NewOrder(bvals)| && NewOrder(bvals)[k] == i ==> k >= |BaselineIndices(bvals)|
  {
    MasksComplementary(bvals);
  }

  // ---------------------------------------------------------------------
  // Uniqueness: the stable partition is determined by the b-values alone

  lemma PrecedesIsStrictOrder(bvals: seq<real>, i: nat, j: nat)
    requires i < |bvals| && j < |bvals|
    ensures !Precedes(bvals, i, i)
    ensures Precedes(bvals, i, j) ==> !Precedes(bvals, j, i)
    ensures i != j ==> Precedes(bvals, i, j) || Precedes(bvals, j, i)
  {
  }

  lemma StablePartitionIsSorted(order: seq<nat>, bvals: seq<real>)
    requires IsStablePartition(order, bvals)
    ensures SortedByPrecedes(order, bvals)
  {
  }

  /** Two sequences sorted by `Precedes` that hold the same indices are equal. */
  lemma {:induction false} SortedByPrecedesUnique(bvals: seq<real>, s: seq<nat>, t: seq<nat>)
    requires InRange(s, |bvals|) && InRange(t, |bvals|)
    requires SortedByPrecedes(s, bvals) && SortedByPrecedes(t, bvals)
    requires forall x :: x in s <==> x in t
    ensures s == t
    decreases |s|
  {
    assert s != [] ==> s[0] in t;
    assert t != [] ==> t[0] in s;
    if s != [] && t != [] {
      var a, b := s[0], t[0];
      var i :| 0 <= i < |s| && s[i] == b;
      var j :| 0 <= j < |t| && t[j] == a;
      assert i > 0 ==> Precedes(bvals, a, b);
      assert j > 0 ==> Precedes(bvals, b, a);
      PrecedesIsStrictOrder(bvals, a, b);
      assert a == b;
      SortedTail(bvals, s);
      SortedTail(bvals, t);
      SortedByPrecedesUnique(bvals, s[1..], t[1..]);
      assert s == [a] + s[1..] && t == [b] + t[1..];
    }
  }

  /** In a sequence sorted by `Precedes`, the tail holds every element but the head. */
  lemma SortedTail(bvals: seq<real>, s: seq<nat>)
    requires InRange(s, |bvals|) && SortedByPrecedes(s, bvals) && |s| > 0
    ensures InRange(s[1..], |bvals|) && SortedByPrecedes(s[1..], bvals)
    ensures forall x :: x in s[1..] <==> x in s && x != s[0]
  {
  }

  /** Any stable partition of the volume indices is exactly `new_order`. */
  lemma StablePartitionIsUnique(bvals: seq<real>, order: seq<nat>)
    requires IsStablePartition(order, bvals)
    ensures order == NewOrder(bvals)
  {
    NewOrderIsStablePartition(bvals);
    StablePartitionIsSorted(order, bvals);
    StablePartitionIsSorted(NewOrder(bvals), bvals);
    SortedByPrecedesUnique(bvals, order, NewOrder(bvals));
  }

  // ---------------------------------------------------------------------
  // Already-partitioned input, and the output of one run

  /** When baselines already precede weighted volumes, `new_order` is the identity. */
  lemma PartitionedKeepsOrder(bvals: seq<real>)
    requires IsPartitioned(bvals)
    ensures NewOrder(bvals) == Identity(|bvals|)
  {
    var id := Identity(|bvals|);
    forall i | 0 <= i < |bvals| ensures i in id {
      assert id[i] == i;
    }
    StablePartitionIsUnique(bvals, id);
  }

  /** All-baseline and no-baseline inputs are left in acquisition order. */
  lemma SingleGroupKeepsOrder(bvals: seq<real>)
    requires (forall i :: 0 <= i < |bvals| ==> IsBaseline(bvals[i]))
          || (forall i :: 0 <= i < |bvals| ==> !IsBaseline(bvals[i]))
    ensures NewOrder(bvals) == Identity(|bvals|)
  {
    PartitionedKeepsOrder(bvals);
  }

  /** The reordered b-values are partitioned, so a second run keeps them in place. */
  lemma ReorderedIsPartitioned(bvals: seq<real>)
    ensures InRange(NewOrder(bvals), |bvals|)
    ensures IsPartitioned(Gather(bvals, NewOrder(bvals)))
    ensures NewOrder(Gather(bvals, NewOrder(bvals))) == Identity(|bvals|)
  {
    NewOrderIsPermutation(bvals);
    NewOrderIsStablePartition(bvals);
    var out := Gather(bvals, NewOrder(bvals));
    assert |out| == |bvals|;
    assert IsPartitioned(out);
    PartitionedKeepsOrder(out);
  }

  lemma GatherIdentity<T>(xs: seq<T>)
    ensures InRange(Identity(|xs|), |xs|)
    ensures Gather(xs, Identity(|xs|)) == xs
  {
  }

  // ---------------------------------------------------------------------
  // Reordering only changes positions, never values

  lemma GatherConcat<T>(xs: seq<T>, u: seq<nat>, v: seq<nat>)
    requires InRange(u, |xs|) && InRange(v, |xs|)
    ensures InRange(u + v, |xs|)
    ensures Gather(xs, u + v) == Gather(xs, u) + Gather(xs, v)
  {
  }

  lemma {:induction false} GatherComplementaryMultiset<T>(xs: seq<T>, m1: seq<bool>, m2: seq<bool>)
    requires |m1| == |xs| && |m2| == |xs|
    requires forall i :: 0 <= i < |xs| ==> m1[i] != m2[i]
    ensures multiset(Gather(xs, IndicesWhere(m1))) + multiset(Gather(xs, IndicesWhere(m2))) == multiset(xs)
  {
    if |xs| > 0 {
      var last := |xs| - 1;
      GatherComplementaryMultiset(xs[..last], m1[..last], m2[..last]);
      var before1 := multiset(Gather(xs[..last], IndicesWhere(m1[..last])));
      var before2 := multiset(Gather(xs[..last], IndicesWhere(m2[..last])));
      MultisetOfLast(xs);
      GatherWhereLast(xs, m1);
      GatherWhereLast(xs, m2);
      var after1 := multiset(Gather(xs, IndicesWhere(m1)));
      var after2 := multiset(Gather(xs, IndicesWhere(m2)));
      MultisetStep(before1, before2, after1, after2, multiset(xs[..last]), xs[last], m1[last]);
    }
  }

  /** Bookkeeping for one step: the last value joins exactly one of the two sides. */
  lemma MultisetStep<T>(before1: multiset<T>, before2: multiset<T>, after1: multiset<T>, after2: multiset<T>,
                        init: multiset<T>, x: T, first: bool)
    requires before1 + before2 == init
    requires after1 == before1 + (if first then multiset{x} else multiset{})
    requires after2 == before2 + (if !first then multiset{x} else multiset{})
    ensures after1 + after2 == init + multiset{x}
  {
  }

  lemma MultisetOfLast<T>(xs: seq<T>)
    requires |xs| > 0
    ensures multiset(xs) == multiset(xs[..|xs| - 1]) + multiset{xs[|xs| - 1]}
  {
    assert xs == xs[..|xs| - 1] + [xs[|xs| - 1]];
  }

  /** Selecting by a mask adds the last value exactly when the mask holds there. */
  lemma GatherWhereLast<T>(xs: seq<T>, mask: seq<bool>)
    requires |mask| == |xs| > 0
    ensures multiset(Gather(xs, IndicesWhere(mask))) ==
      multiset(Gather(xs[..|xs| - 1], IndicesWhere(mask[..|xs| - 1])))
        + (if mask[|xs| - 1] then multiset{xs[|xs| - 1]} else multiset{})
  {
    var last := |xs| - 1;
    var init := IndicesWhere(mask[..last]);
    var tail: seq<nat> := if mask[last] then [last] else [];
    assert IndicesWhere(mask) == init + tail;
    GatherPrefix(xs, last, init);
    GatherConcat(xs, init, tail);
    assert Gather(xs, tail) == if mask[last] then [xs[last]] else [];
  }

  /** Indices below `n` pick the same values from `xs` as from its first `n` elements. */
  lemma GatherPrefix<T>(xs: seq<T>, n: nat, order: seq<nat>)
    requires n <= |xs| && InRange(order, n)
    ensures InRange(order, |xs|)
    ensures Gather(xs, order) == Gather(xs[..n], order)
  {
  }

  /** Fancy indexing by `new_order` permutes the values: the multiset is kept. */
  lemma GatherNewOrderMultiset<T>(xs: seq<T>, bvals: seq<real>)
    requires |xs| == |bvals|
    ensures InRange(NewOrder(bvals), |xs|)
    ensures multiset(Gather(xs, NewOrder(bvals))) == multiset(xs)
  {
    NewOrderIsPermutation(bvals);
    MasksComplementary(bvals);
    GatherConcat(xs, BaselineIndices(bvals), WeightedIndices(bvals));
    GatherComplementaryMultiset(xs, BaselineMask(bvals), WeightedMask(bvals));
  }

  /**
   The worked example: b-values [0, 1000, 0, 1000, 1000] give the order [0, 2, 1, 3, 4].
   The b-values come in as a parameter fixed by the requires clause, not as a
   literal, so that the verifier does not unfold `IndicesWhere` on a literal.
   */
  lemma WorkedExample(bvals: seq<real>)
    requires bvals == [0.0, 1000.0, 0.0, 1000.0, 1000.0]
    ensures NewOrder(bvals) == [0, 2, 1, 3, 4]
  {
    var b0: seq<nat>, dwi: seq<nat> := [0, 2], [1, 3, 4];
    var order := b0 + dwi;
    assert IsStablePartition(order, bvals) by {
      TwoAscendingBlocks(bvals, b0, dwi);
      forall i | 0 <= i < 5 ensures i in order {
        assert order[order[i]] == i;
      }
    }
    StablePartitionIsUnique(bvals, order);
  }
}
