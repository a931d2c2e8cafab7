/** The helpers of aemo/embedding.py: Bernoulli subsampling of a list, and
    the price offset applied to two curves before their Wasserstein distance
    is taken. The random generator is replaced by the sequence of draws it
    yields, and the distance itself is a parameter. */
module Embedding {
  import opened Seqs
  import opened DataExtraction

  // ---------------------------------------------------------------------------
  // Subsampling

  /** `subsample_list`: item i is kept when its draw `draws[i]` (the i-th
      `random.random()` after seeding) is below `probability`. */
  function Subsample<T>(data: seq<T>, probability: real, draws: seq<real>): (r: seq<T>)
    requires |draws| == |data|
    ensures |r| <= |data|
  {
    if data == [] then []
    else (if draws[0] < probability then [data[0]] else []) + Subsample(data[1..], probability, draws[1..])
  }

  /** The mask on draws: below the probability. */
  function Below(probability: real): real -> bool
  {
    (d: real) => d < probability
  }

  /** From position `lo` on, the kept items are the items at the positions
      whose draw is below the probability, in order. */
  lemma {:induction false} SubsampleFrom<T>(data: seq<T>, probability: real, draws: seq<real>, lo: nat)
    requires |draws| == |data| && lo <= |data|
    ensures var r, idx := Subsample(data[lo..], probability, draws[lo..]), IndicesFrom(draws, Below(probability), lo);
      && |r| == |idx|
      && forall k :: 0 <= k < |idx| ==> 0 <= idx[k] < |data| && r[k] == data[idx[k]]
    decreases |data| - lo
  {
    if lo < |data| {
      SubsampleFrom(data, probability, draws, lo + 1);
      assert data[lo..][1..] == data[lo + 1..] && draws[lo..][1..] == draws[lo + 1..];
      assert data[lo..][0] == data[lo] && draws[lo..][0] == draws[lo];
    }
  }

  /** Item i is kept exactly when draw i is below the probability, and the
      kept items keep their order. */
  lemma SubsampleSelects<T>(data: seq<T>, probability: real, draws: seq<real>)
    requires |draws| == |data|
    ensures var r, idx := Subsample(data, probability, draws), IndicesFrom(draws, Below(probability), 0);
      && IsOrderedEmbedding(r, data, idx)
      && forall i :: 0 <= i < |data| ==> (i in idx <==> draws[i] < probability)
  {
    SubsampleFrom(data, probability, draws, 0);
    IndicesFromEmbed(draws, Below(probability), 0);
    assert data[0..] == data && draws[0..] == draws;
  }

  /** Draws lie in [0, 1), as `random.random()` returns them. */
  ghost predicate UnitDraws(draws: seq<real>)
  {
    forall i :: 0 <= i < |draws| ==> 0.0 <= draws[i] < 1.0
  }

  /** A probability of zero or less keeps nothing. */
  lemma {:induction false} SubsampleNothing<T>(data: seq<T>, probability: real, draws: seq<real>)
    requires |draws| == |data| && UnitDraws(draws) && probability <= 0.0
    ensures Subsample(data, probability, draws) == []
  {
    if data != [] {
      assert draws[0] >= 0.0;
      SubsampleNothing(data[1..], probability, draws[1..]);
    }
  }

  /** A probability of one or more keeps everything. */
  lemma {:induction false} SubsampleEverything<T>(data: seq<T>, probability: real, draws: seq<real>)
    requires |draws| == |data| && UnitDraws(draws) && probability >= 1.0
    ensures Subsample(data, probability, draws) == data
  {
    if data != [] {
      assert draws[0] < 1.0;
      SubsampleEverything(data[1..], probability, draws[1..]);
      assert data == [data[0]] + data[1..];
    }
  }

  // ---------------------------------------------------------------------------
  // Price offset before the Wasserstein distance

  /** `curve[:, 0]`: the quantity column of a curve. */
  function Quantities(c: seq<Point>): (xs: seq<real>)
    ensures |xs| == |c|
    ensures forall i :: 0 <= i < |c| ==> xs[i] == c[i].qty
  {
    if c == [] then []
    else [c[0].qty] + Quantities(c[1..])
  }

  /** `min([y1.min(), y2.min()])`: the smallest price over both curves. */
  function JointMin(c1: seq<Point>, c2: seq<Point>): (m: real)
    requires c1 != [] && c2 != []
    ensures forall i :: 0 <= i < |c1| ==> m <= c1[i].price
    ensures forall j :: 0 <= j < |c2| ==> m <= c2[j].price
    ensures (exists i :: 0 <= i < |c1| && c1[i].price == m) || (exists j :: 0 <= j < |c2| && c2[j].price == m)
  {
    var p1, p2 := Prices(c1), Prices(c2);
    assert forall i :: 0 <= i < |c1| ==> p1[i] == c1[i].price;
    assert forall j :: 0 <= j < |c2| ==> p2[j] == c2[j].price;
    var a, b := MinOf(p1), MinOf(p2);
    if b < a then b else a
  }

  /** `y + d`, element by element. */
  function Shifted(ys: seq<real>, d: real): (zs: seq<real>)
    ensures |zs| == |ys|
    ensures forall i :: 0 <= i < |ys| ==> zs[i] == ys[i] + d
  {
    if ys == [] then []
    else [ys[0] + d] + Shifted(ys[1..], d)
  }

  /** The price columns as handed to the distance: raised by `|min|` when
      the joint minimum is negative, unchanged otherwise. */
  function Weights(c1: seq<Point>, c2: seq<Point>): (seq<real>, seq<real>)
    requires c1 != [] && c2 != []
  {
    var m := JointMin(c1, c2);
    if m < 0.0 then (Shifted(Prices(c1), Abs(m)), Shifted(Prices(c2), Abs(m)))
    else (Prices(c1), Prices(c2))
  }

  /** `wasserstein_distance` without its plotting: none when a curve is empty
      (`min` of an empty array raises); otherwise `distance` applied to the
      quantity columns as values and the offset price columns as weights. */
  function WassersteinDistance(c1: seq<Point>, c2: seq<Point>,
                               distance: (seq<real>, seq<real>, seq<real>, seq<real>) -> real): (r: Option<real>)
    ensures r.None? <==> c1 == [] || c2 == []
    ensures r.Some? ==> r.value == distance(Quantities(c1), Quantities(c2), Weights(c1, c2).0, Weights(c1, c2).1)
  {
    if c1 == [] || c2 == [] then None
    else
      var w := Weights(c1, c2);
      Some(distance(Quantities(c1), Quantities(c2), w.0, w.1))
  }

  /** After the offset every weight is non-negative, and when the prices
      dipped below zero the smallest weight is exactly zero. */
  lemma WeightsNonNegative(c1: seq<Point>, c2: seq<Point>)
    requires c1 != [] && c2 != []
    ensures var w := Weights(c1, c2);
      && |w.0| == |c1| && |w.1| == |c2|
      && (forall i :: 0 <= i < |c1| ==> w.0[i] >= 0.0)
      && (forall j :: 0 <= j < |c2| ==> w.1[j] >= 0.0)
      && (JointMin(c1, c2) < 0.0 ==> (exists i :: 0 <= i < |c1| && w.0[i] == 0.0) || (exists j :: 0 <= j < |c2| && w.1[j] == 0.0))
  {
    var m := JointMin(c1, c2);
    var w := Weights(c1, c2);
    if m < 0.0 {
      if i :| 0 <= i < |c1| && c1[i].price == m {
        assert w.0[i] == 0.0;
      } else {
        var j :| 0 <= j < |c2| && c2[j].price == m;
        assert w.1[j] == 0.0;
      }
    }
  }

  /** The offset moves both curves by the same amount: every difference
      between two prices, within a curve or across the two, is kept, and
      prices that were all non-negative are passed on unchanged. */
  lemma WeightsKeepDifferences(c1: seq<Point>, c2: seq<Point>)
    requires c1 != [] && c2 != []
    ensures var w := Weights(c1, c2);
      && |w.0| == |c1| && |w.1| == |c2|
      && (forall i, j :: 0 <= i < |c1| && 0 <= j < |c2| ==> w.0[i] - w.1[j] == c1[i].price - c2[j].price)
      && (forall i, k :: 0 <= i < |c1| && 0 <= k < |c1| ==> w.0[i] - w.0[k] == c1[i].price - c1[k].price)
      && (forall j, k :: 0 <= j < |c2| && 0 <= k < |c2| ==> w.1[j] - w.1[k] == c2[j].price - c2[k].price)
      && (JointMin(c1, c2) >= 0.0 ==> w.0 == Prices(c1) && w.1 == Prices(c2))
  {
    var m := JointMin(c1, c2);
    var d := if m < 0.0 then Abs(m) else 0.0;
    var w := Weights(c1, c2);
    assert forall i :: 0 <= i < |c1| ==> w.0[i] == c1[i].price + d;
    assert forall j :: 0 <= j < |c2| ==> w.1[j] == c2[j].price + d;
  }

  /** Swapping the curves swaps the weights: both get the same offset
      whichever curve comes first. */
  lemma WeightsSymmetric(c1: seq<Point>, c2: seq<Point>)
    requires c1 != [] && c2 != []
    ensures JointMin(c2, c1) == JointMin(c1, c2)
    ensures Weights(c2, c1) == (Weights(c1, c2).1, Weights(c1, c2).0)
  {
  }
}
