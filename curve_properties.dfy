/** What `build_offer_supply_curves` guarantees about the curves it emits:
    the layout of the price tiers, the point counts, the ordering, and the
    cumulative quantities as sums of the input quantities. */
module CurveProperties {
  import opened Seqs
  import opened Sorting
  import opened DataExtraction

  ghost function PriceSet(rs: seq<Row>): set<real>
  {
    set r | r in rs :: r.price
  }

  ghost predicate NonNegativeQuantities(rs: seq<Row>)
  {
    forall r :: r in rs ==> r.quantity >= 0.0
  }

  /** The side's rows sorted by price and accumulated (before discretising). */
  function Cum(dir: Dir, rs: seq<Row>): seq<Point>
  {
    CumSum(SortByPrice(dir, rs))
  }

  /** Rows at or before price `p` in the side's order: price <= p for offers, price >= p for bids. */
  function UpTo(dir: Dir, p: real): Row -> bool
  {
    (r: Row) => PriceBefore(dir, r.price, p)
  }

  function PricedAt(p: real): Row -> bool
  {
    (r: Row) => r.price == p
  }

  function OnDateInterval(day: int, interval: int): Row -> bool
  {
    (r: Row) => r.date == day && r.interval == interval
  }

  /** The rows one curve of (day, interval) is built from. */
  function Selects(day: int, interval: int, side: string): Row -> bool
  {
    (r: Row) => r.date == day && r.interval == interval && r.side == side
  }

  // ---------------------------------------------------------------------------
  // Sums of quantities

  lemma {:induction false} TotalAppend(a: seq<Row>, b: seq<Row>)
    ensures Total(a + b) == Total(a) + Total(b)
  {
    if a == [] {
      assert a + b == b;
    } else {
      assert (a + b)[0] == a[0] && (a + b)[1..] == a[1..] + b;
      TotalAppend(a[1..], b);
    }
  }

  lemma {:induction false} TotalNonNegative(s: seq<Row>)
    requires NonNegativeQuantities(s)
    ensures Total(s) >= 0.0
  {
    if s != [] {
      assert s[0] in s;
      assert NonNegativeQuantities(s[1..]) by {
        forall r | r in s[1..] ensures r.quantity >= 0.0 { assert r in s; }
      }
      TotalNonNegative(s[1..]);
    }
  }

  /** With non-negative quantities a longer prefix never sums to less. */
  lemma TotalPrefixMonotone(s: seq<Row>, i: int, j: int)
    requires NonNegativeQuantities(s) && 0 <= i <= j <= |s|
    ensures Total(s[..i]) <= Total(s[..j])
  {
    assert s[..j] == s[..i] + s[i..j];
    TotalAppend(s[..i], s[i..j]);
    assert NonNegativeQuantities(s[i..j]) by {
      forall r | r in s[i..j] ensures r.quantity >= 0.0 { assert r in s; }
    }
    TotalNonNegative(s[i..j]);
  }

  /** The total does not depend on the order of the rows. */
  lemma {:induction false} TotalPermutation(a: seq<Row>, b: seq<Row>)
    requires multiset(a) == multiset(b)
    ensures Total(a) == Total(b)
    decreases |a|
  {
    assert |a| == |multiset(a)| == |multiset(b)| == |b|;
    if a != [] {
      assert a[0] in multiset(b);
      var k :| 0 <= k < |b| && b[k] == a[0];
      var pre, post := b[..k], b[k + 1..];
      var rest := pre + post;
      assert Total(a[1..]) == Total(rest) by {
        MultisetRemove(b, k);
        MultisetTail(a);
        TotalPermutation(a[1..], rest);
      }
      assert Total(b) == Total(pre) + b[k].quantity + Total(post) by {
        assert b == pre + [b[k]] + post;
        TotalAppend(pre + [b[k]], post);
        TotalAppend(pre, [b[k]]);
      }
      TotalAppend(pre, post);
    }
  }

  // ---------------------------------------------------------------------------
  // The prices of the cumulative points

  /** The accumulated points carry exactly the prices of the rows. */
  lemma CumSumPrices(s: seq<Row>)
    ensures forall p :: p in Prices(CumSum(s)) <==> p in PriceSet(s)
  {
    var cs := CumSum(s);
    forall p ensures p in Prices(cs) <==> p in PriceSet(s) {
      if p in Prices(cs) {
        var i :| 0 <= i < |cs| && Prices(cs)[i] == p;
        assert s[i] in s;
      }
      if p in PriceSet(s) {
        var r :| r in s && r.price == p;
        var i :| 0 <= i < |s| && s[i] == r;
        assert Prices(cs)[i] == p;
      }
    }
  }

  lemma PriceSetPermutation(a: seq<Row>, b: seq<Row>)
    requires multiset(a) == multiset(b)
    ensures PriceSet(a) == PriceSet(b)
  {
    assert forall r :: r in a <==> r in b by {
      forall r ensures r in a <==> r in b {
        assert r in a <==> r in multiset(a);
        assert r in b <==> r in multiset(b);
      }
    }
  }

  /** Sorting and accumulating keep the set of prices. */
  lemma CumPrices(dir: Dir, rs: seq<Row>)
    ensures forall p :: p in Prices(Cum(dir, rs)) <==> p in PriceSet(rs)
  {
    SortByPriceSpec(dir, rs);
    CumSumPrices(SortByPrice(dir, rs));
    PriceSetPermutation(SortByPrice(dir, rs), rs);
  }

  /** Sorting keeps the quantities non-negative. */
  lemma SortedNonNegative(dir: Dir, rs: seq<Row>)
    requires NonNegativeQuantities(rs)
    ensures NonNegativeQuantities(SortByPrice(dir, rs))
  {
    var s := SortByPrice(dir, rs);
    SortByPriceSpec(dir, rs);
    forall r | r in s ensures r.quantity >= 0.0 {
      assert r in multiset(rs);
    }
  }

  /** The sum over the rows that pass a mask does not depend on the sort. */
  lemma SortedFilterTotal(dir: Dir, rs: seq<Row>, f: Row -> bool)
    ensures Total(Filter(SortByPrice(dir, rs), f)) == Total(Filter(rs, f))
  {
    SortByPriceSpec(dir, rs);
    FilterPermutation(SortByPrice(dir, rs), rs, f);
    TotalPermutation(Filter(SortByPrice(dir, rs), f), Filter(rs, f));
  }

  lemma TierMinAtMostMax(cs: seq<Point>, p: real)
    requires p in Prices(cs)
    ensures TierMin(cs, p) <= TierMax(cs, p)
  {
    AggregateSpec(cs, p, Min);
    AggregateSpec(cs, p, Max);
  }

  // ---------------------------------------------------------------------------
  // The tier layout of a discretised curve

  /** The min rows and the max rows of the discretisation (same keys, same
      order) laid out tier by tier in the side's order: supply lists the
      prices ascending, each as (min, max); demand lists them descending, each
      as (max, min). */
  function Layout(dir: Dir, mins: seq<Point>, maxs: seq<Point>): (t: seq<Point>)
    requires |mins| == |maxs|
    ensures |t| == 2 * |mins|
  {
    if mins == [] then []
    else
      var n := |mins| - 1;
      if dir == Ascending then Layout(dir, mins[..n], maxs[..n]) + [mins[n], maxs[n]]
      else [maxs[n], mins[n]] + Layout(dir, mins[..n], maxs[..n])
  }

  /** `mins` and `maxs` hold the same strictly ascending prices, and at each
      price the min row's quantity is at most the max row's. */
  ghost predicate Paired(mins: seq<Point>, maxs: seq<Point>)
  {
    && |mins| == |maxs|
    && (forall k :: 0 <= k < |mins| ==> mins[k].price == maxs[k].price && mins[k].qty <= maxs[k].qty)
    && (forall k, l :: 0 <= k < l < |mins| ==> mins[k].price < mins[l].price)
  }

  lemma PairedPrefix(mins: seq<Point>, maxs: seq<Point>, n: int)
    requires Paired(mins, maxs) && 0 <= n <= |mins|
    ensures Paired(mins[..n], maxs[..n])
  {
    assert forall k :: 0 <= k < n ==> mins[..n][k] == mins[k] && maxs[..n][k] == maxs[k];
  }

  lemma {:induction false} LayoutMultiset(dir: Dir, mins: seq<Point>, maxs: seq<Point>)
    requires |mins| == |maxs|
    ensures multiset(Layout(dir, mins, maxs)) == multiset(mins) + multiset(maxs)
  {
    if mins != [] {
      var n := |mins| - 1;
      LayoutMultiset(dir, mins[..n], maxs[..n]);
      LayoutUnfold(dir, mins, maxs);
      MultisetSnoc(mins);
      MultisetSnoc(maxs);
      Interleave(multiset(mins[..n]), multiset(maxs[..n]), mins[n], maxs[n]);
    }
  }

  /** One tier more adds its two points to the layout. */
  lemma LayoutUnfold(dir: Dir, mins: seq<Point>, maxs: seq<Point>)
    requires |mins| == |maxs| && mins != []
    ensures var n := |mins| - 1;
      multiset(Layout(dir, mins, maxs)) == multiset(Layout(dir, mins[..n], maxs[..n])) + multiset{mins[n], maxs[n]}
  {
  }

  lemma MultisetSnoc<T>(s: seq<T>)
    requires s != []
    ensures multiset(s) == multiset(s[..|s| - 1]) + multiset{s[|s| - 1]}
  {
    assert s == s[..|s| - 1] + [s[|s| - 1]];
  }

  lemma Interleave<T>(x: multiset<T>, y: multiset<T>, a: T, b: T)
    ensures (x + y) + multiset{a, b} == (x + multiset{a}) + (y + multiset{b})
  {
  }

  /** A layout of prices below `p` has only points priced below `p`. */
  lemma {:induction false} LayoutBelow(dir: Dir, mins: seq<Point>, maxs: seq<Point>, p: real)
    requires Paired(mins, maxs)
    requires forall k :: 0 <= k < |mins| ==> mins[k].price < p
    ensures forall i :: 0 <= i < |Layout(dir, mins, maxs)| ==> Layout(dir, mins, maxs)[i].price < p
  {
    if mins != [] {
      var n := |mins| - 1;
      PairedPrefix(mins, maxs, n);
      LayoutBelow(dir, mins[..n], maxs[..n], p);
    }
  }

  lemma {:induction false} LayoutSorted(dir: Dir, mins: seq<Point>, maxs: seq<Point>)
    requires Paired(mins, maxs)
    ensures Sorted(Layout(dir, mins, maxs), PointOrder(dir))
  {
    if mins != [] {
      var n := |mins| - 1;
      PairedPrefix(mins, maxs, n);
      LayoutSorted(dir, mins[..n], maxs[..n]);
      var rest := Layout(dir, mins[..n], maxs[..n]);
      LayoutBelow(dir, mins[..n], maxs[..n], mins[n].price);
      if dir == Ascending {
        SortedAppend(rest, [mins[n], maxs[n]], PointOrder(dir));
      } else {
        SortedAppend([maxs[n], mins[n]], rest, PointOrder(dir));
      }
    }
  }

  /** Positions i = 2k and i + 1 of the layout hold the k-th tier in the
      side's order: for demand that is group j = |mins| - 1 - k. */
  lemma {:induction false} LayoutAt(dir: Dir, mins: seq<Point>, maxs: seq<Point>, k: int, i: int, j: int)
    requires |mins| == |maxs| && 0 <= k < |mins| && i == 2 * k && j == |mins| - 1 - k
    ensures dir == Ascending ==>
      Layout(dir, mins, maxs)[i] == mins[k] && Layout(dir, mins, maxs)[i + 1] == maxs[k]
    ensures dir == Descending ==>
      Layout(dir, mins, maxs)[i] == maxs[j] && Layout(dir, mins, maxs)[i + 1] == mins[j]
  {
    var n := |mins| - 1;
    if dir == Ascending {
      if k < n {
        LayoutAt(dir, mins[..n], maxs[..n], k, i, j - 1);
        assert mins[..n][k] == mins[k] && maxs[..n][k] == maxs[k];
      }
    } else if k > 0 {
      LayoutAt(dir, mins[..n], maxs[..n], k - 1, i - 2, j);
      assert mins[..n][j] == mins[j] && maxs[..n][j] == maxs[j];
    }
  }

  /** The min rows and max rows of `groupby` are paired as the layout needs. */
  lemma GroupsPaired(cs: seq<Point>)
    ensures Paired(GroupBy(cs, Min), GroupBy(cs, Max))
  {
    var ks := GroupKeys(cs);
    forall k | 0 <= k < |ks| ensures TierMin(cs, ks[k]) <= TierMax(cs, ks[k]) {
      TierMinAtMostMax(cs, ks[k]);
    }
    forall k, l | 0 <= k < l < |ks| ensures ks[k] < ks[l] {
      assert InOrder(ks, RealLe, k, l) && Apart(ks, k, l);
    }
  }

  /** A discretised curve is exactly the layout of its min and max rows: the
      final sort is determined by the multiset of points it is given. */
  lemma DiscretiseLayout(dir: Dir, cs: seq<Point>)
    ensures |GroupBy(cs, Min)| == |GroupBy(cs, Max)|
    ensures Discretise(dir, cs) == Layout(dir, GroupBy(cs, Min), GroupBy(cs, Max))
  {
    var mins, maxs := GroupBy(cs, Min), GroupBy(cs, Max);
    GroupsPaired(cs);
    LayoutMultiset(dir, mins, maxs);
    LayoutSorted(dir, mins, maxs);
    OrdersAreTotal(dir);
    DiscretiseSorted(dir, cs);
    SortedPermutationUnique(Discretise(dir, cs), Layout(dir, mins, maxs), PointOrder(dir));
  }

  /** Two points per group key. */
  lemma DiscretiseLength(dir: Dir, cs: seq<Point>)
    ensures |Discretise(dir, cs)| == 2 * |GroupKeys(cs)|
  {
    DiscretiseLayout(dir, cs);
  }

  /** The key of tier `k` in the side's order: the k-th lowest price for
      supply, the k-th highest for demand. */
  function TierKey(dir: Dir, ks: seq<real>, k: int): (p: real)
    requires 0 <= k < |ks|
    ensures p in ks
  {
    if dir == Ascending then ks[k] else ks[|ks| - 1 - k]
  }

  /** Supply: in the layout of the groups of `cs`, positions i = 2k and
      i + 1 hold the min and the max at the k-th lowest price. */
  lemma AscendingLayoutTier(cs: seq<Point>, k: int, i: int)
    requires 0 <= k < |GroupKeys(cs)| && i == 2 * k
    ensures var ks, t := GroupKeys(cs), Layout(Ascending, GroupBy(cs, Min), GroupBy(cs, Max));
      && |t| == 2 * |ks|
      && t[i] == Point(TierMin(cs, ks[k]), ks[k]) && t[i + 1] == Point(TierMax(cs, ks[k]), ks[k])
  {
    LayoutAt(Ascending, GroupBy(cs, Min), GroupBy(cs, Max), k, i, |GroupKeys(cs)| - 1 - k);
  }

  /** Demand: in the layout of the groups of `cs`, positions i = 2k and
      i + 1 hold the max and the min at the k-th highest price, which is
      group j = |ks| - 1 - k. */
  lemma DescendingLayoutTier(cs: seq<Point>, k: int, i: int, j: int)
    requires 0 <= k < |GroupKeys(cs)| && i == 2 * k && j == |GroupKeys(cs)| - 1 - k
    ensures var ks, t := GroupKeys(cs), Layout(Descending, GroupBy(cs, Min), GroupBy(cs, Max));
      && |t| == 2 * |ks|
      && t[i] == Point(TierMax(cs, ks[j]), ks[j]) && t[i + 1] == Point(TierMin(cs, ks[j]), ks[j])
  {
    LayoutAt(Descending, GroupBy(cs, Min), GroupBy(cs, Max), k, i, j);
  }

  /** Points i = 2k and i + 1 of a discretised curve are its k-th price tier
      in the side's order: the k-th lowest price for supply, the k-th highest
      for demand; supply lists (min, max) and demand (max, min) of the
      cumulative quantities at that price. */
  lemma DiscretiseTier(dir: Dir, cs: seq<Point>, k: int, i: int)
    requires 0 <= k < |GroupKeys(cs)| && i == 2 * k
    ensures var curve, p := Discretise(dir, cs), TierKey(dir, GroupKeys(cs), k);
      && |curve| == 2 * |GroupKeys(cs)|
      && p in Prices(cs)
      && (dir == Ascending ==> curve[i] == Point(TierMin(cs, p), p) && curve[i + 1] == Point(TierMax(cs, p), p))
      && (dir == Descending ==> curve[i] == Point(TierMax(cs, p), p) && curve[i + 1] == Point(TierMin(cs, p), p))
  {
    DiscretiseLayout(dir, cs);
    if dir == Ascending {
      AscendingLayoutTier(cs, k, i);
    } else {
      var ks := GroupKeys(cs);
      DescendingLayoutTier(cs, k, i, |ks| - 1 - k);
    }
  }

  /** Both points of tier k are accumulated points of `cs`. */
  lemma DiscretiseTierPoints(dir: Dir, cs: seq<Point>, k: int, i: int)
    requires 0 <= k < |GroupKeys(cs)| && i == 2 * k
    ensures |Discretise(dir, cs)| == 2 * |GroupKeys(cs)|
    ensures Discretise(dir, cs)[i] in cs && Discretise(dir, cs)[i + 1] in cs
  {
    var curve := Discretise(dir, cs);
    DiscretiseTier(dir, cs, k, i);
    var p := TierKey(dir, GroupKeys(cs), k);
    var a := AggregateIndex(cs, p, Min);
    var b := AggregateIndex(cs, p, Max);
    if dir == Ascending {
      assert curve[i] == cs[a] && curve[i + 1] == cs[b];
    } else {
      assert curve[i] == cs[b] && curve[i + 1] == cs[a];
    }
  }

  /** Every point of a discretised curve is a point of `cs`. */
  lemma DiscretisePointsFrom(dir: Dir, cs: seq<Point>)
    ensures forall i :: 0 <= i < |Discretise(dir, cs)| ==> Discretise(dir, cs)[i] in cs
  {
    var curve, n := Discretise(dir, cs), |GroupKeys(cs)|;
    DiscretiseLength(dir, cs);
    forall k | 0 <= k < n ensures curve[2 * k] in cs && curve[2 * k + 1] in cs {
      DiscretiseTierPoints(dir, cs, k, 2 * k);
    }
    TierPointsIn(curve, n, cs);
  }

  // ---------------------------------------------------------------------------
  // Curves made of two-point tiers

  /** A curve of n two-point tiers whose quantity rises inside each tier and
      from each tier to the next rises all along. */
  lemma TiersRise(curve: seq<Point>, n: int)
    requires |curve| == 2 * n
    requires forall k :: 0 <= k < n ==> curve[2 * k].qty <= curve[2 * k + 1].qty
    requires forall k :: 0 <= k && k + 1 < n ==> curve[2 * k + 1].qty <= curve[2 * k + 2].qty
    ensures forall i :: 0 <= i < |curve| - 1 ==> curve[i].qty <= curve[i + 1].qty
  {
    forall i | 0 <= i < |curve| - 1 ensures curve[i].qty <= curve[i + 1].qty {
      var k := i / 2;
      if i % 2 == 0 {
        assert i == 2 * k && i + 1 == 2 * k + 1;
      } else {
        assert i == 2 * k + 1 && i + 1 == 2 * k + 2;
      }
    }
  }

  /** When both points of every tier lie in `cs`, every point does. */
  lemma TierPointsIn(curve: seq<Point>, n: int, cs: seq<Point>)
    requires |curve| == 2 * n
    requires forall k :: 0 <= k < n ==> curve[2 * k] in cs && curve[2 * k + 1] in cs
    ensures forall i :: 0 <= i < |curve| ==> curve[i] in cs
  {
    forall i | 0 <= i < |curve| ensures curve[i] in cs {
      var k := i / 2;
      if i % 2 == 0 {
        assert i == 2 * k;
      } else {
        assert i == 2 * k + 1;
      }
    }
  }

  /** A curve sorted on (price, quantity) in direction `dir` visits its
      prices in that direction. */
  lemma SortedPricesFollow(dir: Dir, curve: seq<Point>)
    requires Sorted(curve, PointOrder(dir))
    ensures forall i :: 0 <= i < |curve| - 1 ==> PriceBefore(dir, curve[i].price, curve[i + 1].price)
  {
    forall i | 0 <= i < |curve| - 1 ensures PriceBefore(dir, curve[i].price, curve[i + 1].price) {
      assert InOrder(curve, PointOrder(dir), i, i + 1);
    }
  }

  // ---------------------------------------------------------------------------
  // The shape of a discretised curve

  /** Across prices the cumulative quantities of `cs` do not overlap: at a
      price later in the side's order the smallest is no smaller than the
      largest at an earlier price. */
  ghost predicate TiersOrdered(dir: Dir, cs: seq<Point>)
  {
    forall p, q :: p in Prices(cs) && q in Prices(cs) && PriceBefore(dir, p, q) && p != q ==>
      TierMax(cs, p) <= TierMin(cs, q)
  }

  /** Supply: inside tier k the quantity rises from the tier's minimum to its
      maximum, and tier k + 1 starts no lower than tier k ends. */
  lemma AscendingTierSteps(cs: seq<Point>, k: int)
    requires TiersOrdered(Ascending, cs) && 0 <= k < |GroupKeys(cs)|
    ensures var curve := Discretise(Ascending, cs);
      && |curve| == 2 * |GroupKeys(cs)|
      && curve[2 * k].qty <= curve[2 * k + 1].qty
      && (k + 1 < |GroupKeys(cs)| ==> curve[2 * k + 1].qty <= curve[2 * k + 2].qty)
  {
    var ks, curve := GroupKeys(cs), Discretise(Ascending, cs);
    var p := TierKey(Ascending, ks, k);
    DiscretiseTier(Ascending, cs, k, 2 * k);
    assert curve[2 * k].qty <= curve[2 * k + 1].qty by { TierMinAtMostMax(cs, p); }
    if k + 1 < |ks| {
      var q := TierKey(Ascending, ks, k + 1);
      assert curve[2 * k + 2].qty == TierMin(cs, q) by {
        DiscretiseTier(Ascending, cs, k + 1, 2 * k + 2);
      }
      assert TierMax(cs, p) <= TierMin(cs, q) by {
        DiscretiseTier(Ascending, cs, k + 1, 2 * k + 2);
        TierKeysStrict(Ascending, ks, k);
      }
    }
  }

  /** Supply: given non-overlapping tiers, the quantity never decreases along
      the discretised curve. */
  lemma AscendingRises(cs: seq<Point>)
    requires TiersOrdered(Ascending, cs)
    ensures var curve := Discretise(Ascending, cs);
      forall i :: 0 <= i < |curve| - 1 ==> curve[i].qty <= curve[i + 1].qty
  {
    var curve, n := Discretise(Ascending, cs), |GroupKeys(cs)|;
    DiscretiseLength(Ascending, cs);
    forall k | 0 <= k < n
      ensures curve[2 * k].qty <= curve[2 * k + 1].qty
      ensures k + 1 < n ==> curve[2 * k + 1].qty <= curve[2 * k + 2].qty
    {
      AscendingTierSteps(cs, k);
    }
    TiersRise(curve, n);
  }

  /** Demand: inside tier k the larger quantity comes first, and tier k + 1
      ends no lower than tier k starts. */
  lemma DescendingTierSteps(cs: seq<Point>, k: int)
    requires TiersOrdered(Descending, cs) && 0 <= k < |GroupKeys(cs)|
    ensures var curve := Discretise(Descending, cs);
      && |curve| == 2 * |GroupKeys(cs)|
      && curve[2 * k].qty >= curve[2 * k + 1].qty
      && (k + 1 < |GroupKeys(cs)| ==> curve[2 * k].qty <= curve[2 * k + 3].qty)
  {
    var ks, curve := GroupKeys(cs), Discretise(Descending, cs);
    var p := TierKey(Descending, ks, k);
    DiscretiseTier(Descending, cs, k, 2 * k);
    assert curve[2 * k].qty >= curve[2 * k + 1].qty by { TierMinAtMostMax(cs, p); }
    if k + 1 < |ks| {
      var q := TierKey(Descending, ks, k + 1);
      assert curve[2 * k + 3].qty == TierMin(cs, q) by {
        DiscretiseTier(Descending, cs, k + 1, 2 * k + 2);
      }
      assert TierMax(cs, p) <= TierMin(cs, q) by {
        DiscretiseTier(Descending, cs, k + 1, 2 * k + 2);
        TierKeysStrict(Descending, ks, k);
      }
    }
  }

  /** Demand: given non-overlapping tiers, each tier steps down from its
      larger to its smaller quantity and ends no lower than the previous
      tier started. */
  lemma DescendingSteps(cs: seq<Point>)
    requires TiersOrdered(Descending, cs)
    ensures var curve := Discretise(Descending, cs);
      && (forall k :: 0 <= k && 2 * k + 1 < |curve| ==> curve[2 * k].qty >= curve[2 * k + 1].qty)
      && (forall k :: 0 <= k && 2 * k + 3 < |curve| ==> curve[2 * k].qty <= curve[2 * k + 3].qty)
  {
    var curve := Discretise(Descending, cs);
    DiscretiseLength(Descending, cs);
    forall k | 0 <= k && 2 * k + 1 < |curve|
      ensures curve[2 * k].qty >= curve[2 * k + 1].qty
      ensures 2 * k + 3 < |curve| ==> curve[2 * k].qty <= curve[2 * k + 3].qty
    {
      DescendingTierSteps(cs, k);
    }
  }

  /** The last tier in the side's order: the last point for supply, the
      last-but-one for demand, holds the largest quantity at the last key. */
  lemma DiscretiseLastTier(dir: Dir, cs: seq<Point>, k: int)
    requires 0 <= k == |GroupKeys(cs)| - 1
    ensures var curve, p := Discretise(dir, cs), TierKey(dir, GroupKeys(cs), k);
      && |curve| >= 2 && p in Prices(cs)
      && (dir == Ascending ==> curve[|curve| - 1].qty == TierMax(cs, p))
      && (dir == Descending ==> curve[|curve| - 2].qty == TierMax(cs, p))
  {
    DiscretiseLength(dir, cs);
    DiscretiseTier(dir, cs, k, |Discretise(dir, cs)| - 2);
  }

  // ---------------------------------------------------------------------------
  // Cumulative quantities of rows sorted by price

  /** In rows sorted by price, an earlier row is at or before a later one in
      the side's order. */
  lemma SortedPrices(dir: Dir, s: seq<Row>, a: int, b: int)
    requires Sorted(s, RowOrder(dir)) && 0 <= a < b < |s|
    ensures PriceBefore(dir, s[a].price, s[b].price)
  {
    assert InOrder(s, RowOrder(dir), a, b);
  }

  /** Along rows sorted by price, a row at a strictly later price has a
      cumulative quantity no smaller than a row at an earlier one. */
  lemma CumSumOrdered(dir: Dir, s: seq<Row>, i: int, j: int)
    requires Sorted(s, RowOrder(dir)) && NonNegativeQuantities(s)
    requires 0 <= i < |s| && 0 <= j < |s|
    requires PriceBefore(dir, s[i].price, s[j].price) && s[i].price != s[j].price
    ensures CumSum(s)[i].qty <= CumSum(s)[j].qty
  {
    if j < i {
      SortedPrices(dir, s, j, i);
      assert false;
    }
    CumSumAt(s, i);
    CumSumAt(s, j);
    TotalPrefixMonotone(s, i + 1, j + 1);
  }

  /** In rows sorted by price, the rows up to price `p` form a prefix; it
      ends with a row priced `p` and holds every row priced `p`. */
  lemma UpToPrefix(dir: Dir, s: seq<Row>, p: real, i0: int) returns (m: int)
    requires Sorted(s, RowOrder(dir)) && 0 <= i0 < |s| && s[i0].price == p
    ensures i0 < m <= |s| && Filter(s, UpTo(dir, p)) == s[..m] && s[m - 1].price == p
  {
    var f := UpTo(dir, p);
    forall i, j | 0 <= i < j < |s| && f(s[j]) ensures f(s[i]) {
      assert InOrder(s, RowOrder(dir), i, j);
    }
    FilterPrefix(s, f);
    m := |Filter(s, f)|;
    assert f(s[i0]);
    assert f(s[m - 1]);
    if i0 < m - 1 {
      assert InOrder(s, RowOrder(dir), i0, m - 1);
    }
  }

  /** In rows sorted by price, the largest cumulative quantity at `p` is the
      sum of the quantities up to `p`. */
  lemma SortedTierMax(dir: Dir, s: seq<Row>, p: real)
    requires Sorted(s, RowOrder(dir)) && NonNegativeQuantities(s) && p in Prices(CumSum(s))
    ensures TierMax(CumSum(s), p) == Total(Filter(s, UpTo(dir, p)))
  {
    var cs := CumSum(s);
    var i := AggregateIndex(cs, p, Max);
    var m := UpToPrefix(dir, s, p, i);
    var upToTop, upToAll := Total(s[..i + 1]), Total(s[..m]);
    assert TierMax(cs, p) == upToTop by { CumSumAt(s, i); }
    assert upToAll <= TierMax(cs, p) by {
      AggregateBound(cs, p, Max, m - 1);
      CumSumAt(s, m - 1);
    }
    assert upToTop <= upToAll by { TotalPrefixMonotone(s, i + 1, m); }
  }

  /** In rows sorted by price, a later price's smallest cumulative quantity
      is no smaller than an earlier price's largest. */
  lemma SortedTiersDoNotOverlap(dir: Dir, s: seq<Row>, p: real, q: real)
    requires Sorted(s, RowOrder(dir)) && NonNegativeQuantities(s)
    requires p in Prices(CumSum(s)) && q in Prices(CumSum(s))
    requires PriceBefore(dir, p, q) && p != q
    ensures TierMax(CumSum(s), p) <= TierMin(CumSum(s), q)
  {
    var cs := CumSum(s);
    var i := AggregateIndex(cs, p, Max);
    var j := AggregateIndex(cs, q, Min);
    CumSumOrdered(dir, s, i, j);
  }

  /** Rows sorted by price with non-negative quantities accumulate into
      non-overlapping tiers. */
  lemma SortedTiersOrdered(dir: Dir, s: seq<Row>)
    requires Sorted(s, RowOrder(dir)) && NonNegativeQuantities(s)
    ensures TiersOrdered(dir, CumSum(s))
  {
    var cs := CumSum(s);
    forall p, q | p in Prices(cs) && q in Prices(cs) && PriceBefore(dir, p, q) && p != q
      ensures TierMax(cs, p) <= TierMin(cs, q)
    {
      SortedTiersDoNotOverlap(dir, s, p, q);
    }
  }

  /** The tier layout visits prices in strictly increasing order for supply
      and strictly decreasing order for demand. */
  lemma TierKeysStrict(dir: Dir, ks: seq<real>, k: int)
    requires Sorted(ks, RealLe) && Distinct(ks)
    requires 0 <= k && k + 1 < |ks|
    ensures PriceBefore(dir, TierKey(dir, ks, k), TierKey(dir, ks, k + 1))
    ensures TierKey(dir, ks, k) != TierKey(dir, ks, k + 1)
  {
    if dir == Ascending {
      assert InOrder(ks, RealLe, k, k + 1) && Apart(ks, k, k + 1);
    } else {
      assert InOrder(ks, RealLe, |ks| - 2 - k, |ks| - 1 - k) && Apart(ks, |ks| - 2 - k, |ks| - 1 - k);
    }
  }

  /** Distinct keys holding exactly the prices of a set are as many as the set. */
  lemma KeyCount(ks: seq<real>, ps: set<real>)
    requires Distinct(ks) && forall x :: x in ks <==> x in ps
    ensures |ks| == |ps|
  {
    DistinctCardinality(ks);
    var held := set x | x in ks;
    assert forall x :: x in held <==> x in ps;
    assert held == ps;
  }

  /** Every row priced at a key of `ks` is at or before the last key in the
      side's order. */
  lemma LastKeyCoversAll(dir: Dir, ks: seq<real>, rs: seq<Row>, k: int)
    requires Sorted(ks, RealLe) && 0 <= k == |ks| - 1
    requires forall r :: r in rs ==> r.price in ks
    ensures Filter(rs, UpTo(dir, TierKey(dir, ks, k))) == rs
  {
    var n := |ks|;
    var p := TierKey(dir, ks, k);
    forall r | r in rs ensures UpTo(dir, p)(r) {
      var j :| 0 <= j < n && ks[j] == r.price;
      if dir == Ascending && j < n - 1 {
        assert InOrder(ks, RealLe, j, n - 1);
      } else if dir == Descending && 0 < j {
        assert InOrder(ks, RealLe, 0, j);
      }
    }
    FilterAll(rs, UpTo(dir, p));
  }

  // ---------------------------------------------------------------------------
  // Properties of the emitted curves

  /** The number of tiers is the number of distinct prices. */
  lemma CurveTierCount(dir: Dir, rs: seq<Row>)
    ensures |GroupKeys(Cum(dir, rs))| == |PriceSet(rs)|
  {
    CumPrices(dir, rs);
    KeyCount(GroupKeys(Cum(dir, rs)), PriceSet(rs));
  }

  /** Exactly two points per distinct price of the side's rows; no rows, no points. */
  lemma CurveLength(dir: Dir, rs: seq<Row>)
    ensures |SideCurve(dir, rs)| == 2 * |PriceSet(rs)|
  {
    DiscretiseLength(dir, Cum(dir, rs));
    CurveTierCount(dir, rs);
  }

  /** Points i = 2k and i + 1 of a side's curve are its k-th price tier in the
      side's order, one of the side's own prices; supply lists (min, max) and
      demand (max, min) of the cumulative quantities at that price. */
  lemma CurveTier(dir: Dir, rs: seq<Row>, k: int, i: int)
    requires 0 <= k < |PriceSet(rs)| && i == 2 * k
    ensures var curve, cs, ks := SideCurve(dir, rs), Cum(dir, rs), GroupKeys(Cum(dir, rs));
      && |curve| == 2 * |ks|
      && k < |ks|
      && var p := TierKey(dir, ks, k);
      && p in PriceSet(rs) && p in Prices(cs)
      && (dir == Ascending ==> curve[i] == Point(TierMin(cs, p), p) && curve[i + 1] == Point(TierMax(cs, p), p))
      && (dir == Descending ==> curve[i] == Point(TierMax(cs, p), p) && curve[i + 1] == Point(TierMin(cs, p), p))
  {
    CurveTierCount(dir, rs);
    DiscretiseTier(dir, Cum(dir, rs), k, i);
    CumPrices(dir, rs);
  }

  /** Prices move in the side's direction along the curve: never down for
      supply, never up for demand. */
  lemma CurvePricesMonotone(dir: Dir, rs: seq<Row>)
    ensures var curve := SideCurve(dir, rs);
      forall i :: 0 <= i < |curve| - 1 ==> PriceBefore(dir, curve[i].price, curve[i + 1].price)
  {
    DiscretiseSorted(dir, Cum(dir, rs));
    SortedPricesFollow(dir, SideCurve(dir, rs));
  }

  /** The largest cumulative quantity at price `p` is the sum of the side's
      quantities at prices up to `p` in the side's order (price <= p for
      supply, price >= p for demand), whatever the order among equal prices. */
  lemma TierMaxIsCumulativeTotal(dir: Dir, rs: seq<Row>, p: real)
    requires NonNegativeQuantities(rs) && p in PriceSet(rs)
    ensures p in Prices(Cum(dir, rs))
    ensures TierMax(Cum(dir, rs), p) == Total(Filter(rs, UpTo(dir, p)))
  {
    CumPrices(dir, rs);
    SortedNonNegative(dir, rs);
    SortByPriceSpec(dir, rs);
    SortedTierMax(dir, SortByPrice(dir, rs), p);
    SortedFilterTotal(dir, rs, UpTo(dir, p));
  }

  /** The same holds whatever order the rows of equal price are put in: for
      every price-sorted arrangement `s` of the side's rows, with
      non-negative quantities. */
  lemma TierMaxAnyTieOrder(dir: Dir, rs: seq<Row>, s: seq<Row>, p: real)
    requires NonNegativeQuantities(rs) && p in PriceSet(rs)
    requires multiset(s) == multiset(rs) && Sorted(s, RowOrder(dir))
    ensures p in Prices(CumSum(s))
    ensures TierMax(CumSum(s), p) == Total(Filter(rs, UpTo(dir, p)))
  {
    PriceSetPermutation(s, rs);
    CumSumPrices(s);
    assert NonNegativeQuantities(s) by {
      forall r | r in s ensures r.quantity >= 0.0 {
        assert r in multiset(rs);
      }
    }
    SortedTierMax(dir, s, p);
    FilterPermutation(s, rs, UpTo(dir, p));
    TotalPermutation(Filter(s, UpTo(dir, p)), Filter(rs, UpTo(dir, p)));
  }

  /** Without non-negative quantities the tie order does matter: two offers
      at the same price, of 5 and -3, give a tier maximum of 5 in one order
      and of 2 in the other. */
  lemma NegativeQuantityTierMaxDependsOnOrder()
    ensures var a, b := Row(0, 1, OFFER, 10.0, 5.0), Row(0, 1, OFFER, 10.0, -3.0);
      && Sorted([a, b], RowOrder(Ascending)) && Sorted([b, a], RowOrder(Ascending))
      && 10.0 in Prices(CumSum([a, b])) && TierMax(CumSum([a, b]), 10.0) == 5.0
      && 10.0 in Prices(CumSum([b, a])) && TierMax(CumSum([b, a]), 10.0) == 2.0
  {
    var a, b := Row(0, 1, OFFER, 10.0, 5.0), Row(0, 1, OFFER, 10.0, -3.0);
    assert Sorted([a, b], RowOrder(Ascending)) by {
      forall i, j | 0 <= i < j < 2 ensures InOrder([a, b], RowOrder(Ascending), i, j) { }
    }
    assert Sorted([b, a], RowOrder(Ascending)) by {
      forall i, j | 0 <= i < j < 2 ensures InOrder([b, a], RowOrder(Ascending), i, j) { }
    }
    CumSumAt([a, b], 0);
    CumSumAt([a, b], 1);
    CumSumAt([b, a], 0);
    CumSumAt([b, a], 1);
    assert [a, b][..1] == [a] && [b, a][..1] == [b];
    assert [a, b][..2] == [a, b] && [b, a][..2] == [b, a];
    assert [a, b][1..] == [b] && [b, a][1..] == [a];
    assert Total([a]) == 5.0 && Total([b]) == -3.0;
    assert Total([a, b]) == 2.0 && Total([b, a]) == 2.0;
    assert CumSum([a, b]) == [Point(5.0, 10.0), Point(2.0, 10.0)];
    assert CumSum([b, a]) == [Point(-3.0, 10.0), Point(2.0, 10.0)];
    assert Prices([Point(5.0, 10.0), Point(2.0, 10.0)]) == [10.0, 10.0];
    assert Prices([Point(-3.0, 10.0), Point(2.0, 10.0)]) == [10.0, 10.0];
  }

  /** With non-negative quantities, the accumulated points of a side have
      non-overlapping tiers: a later price in the side's order starts no
      lower than an earlier one ends. */
  lemma CumTiersOrdered(dir: Dir, rs: seq<Row>)
    requires NonNegativeQuantities(rs)
    ensures TiersOrdered(dir, Cum(dir, rs))
  {
    SortedNonNegative(dir, rs);
    SortByPriceSpec(dir, rs);
    SortedTiersOrdered(dir, SortByPrice(dir, rs));
  }

  /** The last tier in the side's order (the highest price for supply, the
      lowest for demand) has the side's whole total as its largest
      cumulative quantity. */
  lemma LastTierTotal(dir: Dir, rs: seq<Row>, k: int)
    requires NonNegativeQuantities(rs) && rs != [] && k == |PriceSet(rs)| - 1
    ensures var cs, ks := Cum(dir, rs), GroupKeys(Cum(dir, rs));
      && 0 <= k == |ks| - 1
      && TierKey(dir, ks, k) in Prices(cs)
      && TierMax(cs, TierKey(dir, ks, k)) == Total(rs)
  {
    var ks := GroupKeys(Cum(dir, rs));
    CurveTierCount(dir, rs);
    CumPrices(dir, rs);
    forall r | r in rs ensures r.price in ks {
      assert r.price in PriceSet(rs);
    }
    assert rs[0].price in ks;
    LastKeyCoversAll(dir, ks, rs, k);
    TierMaxIsCumulativeTotal(dir, rs, TierKey(dir, ks, k));
  }

  /** A quantity `t` that is the largest cumulative quantity of the last
      tier sits at the last point for supply and at the last-but-one for
      demand. */
  lemma LastTierQuantity(dir: Dir, cs: seq<Point>, k: int, t: real, curve: seq<Point>)
    requires 0 <= k == |GroupKeys(cs)| - 1
    requires TierKey(dir, GroupKeys(cs), k) in Prices(cs)
    requires TierMax(cs, TierKey(dir, GroupKeys(cs), k)) == t
    requires curve == Discretise(dir, cs)
    ensures && |curve| >= 2
      && (dir == Ascending ==> curve[|curve| - 1].qty == t)
      && (dir == Descending ==> curve[|curve| - 2].qty == t)
  {
    DiscretiseLastTier(dir, cs, k);
  }

  /** The total of the side is carried by the last tier in the side's order:
      by the last point for supply and by the last-but-one for demand. */
  lemma LastTierCarriesTotal(dir: Dir, rs: seq<Row>)
    requires NonNegativeQuantities(rs) && rs != []
    ensures var curve := SideCurve(dir, rs);
      && |curve| >= 2
      && (dir == Ascending ==> curve[|curve| - 1].qty == Total(rs))
      && (dir == Descending ==> curve[|curve| - 2].qty == Total(rs))
  {
    var k := |PriceSet(rs)| - 1;
    LastTierTotal(dir, rs, k);
    LastTierQuantity(dir, Cum(dir, rs), k, Total(rs), SideCurve(dir, rs));
  }

  /** Supply: with non-negative quantities the cumulative quantity never
      decreases along the curve, and the last point carries the total offered. */
  lemma SupplyCumulativeNonDecreasing(rs: seq<Row>)
    requires NonNegativeQuantities(rs)
    ensures var curve := SideCurve(Ascending, rs);
      && (forall i :: 0 <= i < |curve| - 1 ==> curve[i].qty <= curve[i + 1].qty)
      && (rs != [] ==> |curve| >= 2 && curve[|curve| - 1].qty == Total(rs))
  {
    if rs != [] {
      LastTierCarriesTotal(Ascending, rs);
    }
    SupplyRises(rs, SideCurve(Ascending, rs));
  }

  /** The step of `SupplyCumulativeNonDecreasing` about neighbouring points. */
  lemma SupplyRises(rs: seq<Row>, curve: seq<Point>)
    requires NonNegativeQuantities(rs) && curve == SideCurve(Ascending, rs)
    ensures forall i :: 0 <= i < |curve| - 1 ==> curve[i].qty <= curve[i + 1].qty
  {
    CumTiersOrdered(Ascending, rs);
    AscendingRises(Cum(Ascending, rs));
  }

  /** Demand: inside a tier the larger cumulative quantity comes first, so the
      quantity steps back down; with non-negative quantities each tier ends no
      lower than the previous one started, and the last tier's first point
      carries the total bid. */
  lemma DemandShape(rs: seq<Row>)
    requires NonNegativeQuantities(rs)
    ensures var curve := SideCurve(Descending, rs);
      && (forall k :: 0 <= k && 2 * k + 1 < |curve| ==> curve[2 * k].qty >= curve[2 * k + 1].qty)
      && (forall k :: 0 <= k && 2 * k + 3 < |curve| ==> curve[2 * k].qty <= curve[2 * k + 3].qty)
      && (rs != [] ==> |curve| >= 2 && curve[|curve| - 2].qty == Total(rs))
  {
    if rs != [] {
      LastTierCarriesTotal(Descending, rs);
    }
    CumTiersOrdered(Descending, rs);
    DescendingSteps(Cum(Descending, rs));
  }

  /** Every accumulated point has one of the side's prices. */
  lemma CumPointPrices(dir: Dir, rs: seq<Row>)
    ensures forall x :: x in Cum(dir, rs) ==> x.price in PriceSet(rs)
  {
    var cs := Cum(dir, rs);
    CumPrices(dir, rs);
    forall x | x in cs ensures x.price in PriceSet(rs) {
      var i :| 0 <= i < |cs| && cs[i] == x;
      assert Prices(cs)[i] == x.price;
    }
  }

  /** Every emitted point is one of the accumulated points of the side's
      sorted rows: its price is an input price and its quantity a prefix sum. */
  lemma CurvePointsComeFromCumSum(dir: Dir, rs: seq<Row>)
    ensures var curve := SideCurve(dir, rs);
      forall i :: 0 <= i < |curve| ==> curve[i] in Cum(dir, rs) && curve[i].price in PriceSet(rs)
  {
    DiscretisePointsFrom(dir, Cum(dir, rs));
    CumPointPrices(dir, rs);
  }

  /** A price held by a single row gives a tier whose two points coincide. */
  lemma SingleRowTierRepeatsPoint(dir: Dir, rs: seq<Row>, p: real)
    requires |Filter(rs, PricedAt(p))| == 1
    ensures p in Prices(Cum(dir, rs))
    ensures TierMin(Cum(dir, rs), p) == TierMax(Cum(dir, rs), p)
  {
    var s := SortByPrice(dir, rs);
    var cs := Cum(dir, rs);
    assert Filter(rs, PricedAt(p))[0] in rs;
    CumPrices(dir, rs);
    SortByPriceSpec(dir, rs);
    FilterLengthPermutation(s, rs, PricedAt(p));
    var i := AggregateIndex(cs, p, Min);
    var j := AggregateIndex(cs, p, Max);
    FilterSingle(s, PricedAt(p), i, j);
  }

  // ---------------------------------------------------------------------------
  // Which rows a (day, interval) entry depends on

  /** The supply curve of (day, interval) is built from exactly the rows of
      that day and interval whose side is "Offer", the demand curve from those
      whose side is "Bid". */
  lemma CurvesUseSelectedRows(data: seq<Row>, day: int, interval: int)
    ensures CurvesFor(Filter(data, OnDate(day)), interval)
         == Curves(SideCurve(Ascending, Filter(data, Selects(day, interval, OFFER))),
                   SideCurve(Descending, Filter(data, Selects(day, interval, BID))))
  {
    FilterFilter(data, OnDate(day), AtInterval(interval), OnDateInterval(day, interval));
    var rows := Filter(data, OnDateInterval(day, interval));
    FilterFilter(data, OnDateInterval(day, interval), OnSide(OFFER), Selects(day, interval, OFFER));
    FilterFilter(data, OnDateInterval(day, interval), OnSide(BID), Selects(day, interval, BID));
  }

  /** A row of another day, another interval, or another side label does not
      change the entry of (day, interval), wherever it sits in the table. */
  lemma UnrelatedRowIgnored(a: seq<Row>, r: Row, b: seq<Row>, day: int, interval: int)
    requires !(r.date == day && r.interval == interval && (r.side == OFFER || r.side == BID))
    ensures CurvesFor(Filter(a + [r] + b, OnDate(day)), interval)
         == CurvesFor(Filter(a + b, OnDate(day)), interval)
  {
    CurvesUseSelectedRows(a + [r] + b, day, interval);
    CurvesUseSelectedRows(a + b, day, interval);
    FilterSkip(a, r, b, Selects(day, interval, OFFER));
    FilterSkip(a, r, b, Selects(day, interval, BID));
  }

  /** An interval gets two empty curves exactly when the day has no "Offer"
      and no "Bid" row at that interval; it is never an error. */
  lemma EmptyIntervalCurves(data: seq<Row>, day: int, interval: int)
    ensures CurvesFor(Filter(data, OnDate(day)), interval) == Curves([], [])
        <==> forall r :: r in data && r.date == day && r.interval == interval ==>
               r.side != OFFER && r.side != BID
  {
    CurvesUseSelectedRows(data, day, interval);
    EmptyCurve(Ascending, Filter(data, Selects(day, interval, OFFER)));
    EmptyCurve(Descending, Filter(data, Selects(day, interval, BID)));
    FilterEmpty(data, Selects(day, interval, OFFER));
    FilterEmpty(data, Selects(day, interval, BID));
  }

  /** A side has an empty curve exactly when it has no rows. */
  lemma EmptyCurve(dir: Dir, rs: seq<Row>)
    ensures SideCurve(dir, rs) == [] <==> rs == []
  {
    CurveLength(dir, rs);
    if rs != [] {
      assert rs[0].price in PriceSet(rs);
    }
  }
}
