/** `build_offer_supply_curves`: bid/offer rows become, for every trading date
    and every interval number, a supply curve (offers) and a demand curve
    (bids), each a list of `[cumulative_quantity, price]` points.

    Per (date, interval) the rows of one side are sorted by price, their
    quantities are accumulated, every distinct price is replaced by two points
    (the smallest and the largest cumulative quantity at that price), and the
    points are sorted again on (price, cumulative quantity), ascending for
    supply and descending for demand. The per-interval pipeline is pure; the
    outer double loop fills a dictionary and is a method. */
module DataExtraction {
  import opened Seqs
  import opened Sorting

  /** A row of the input table: `Trading Date` (a day number), `Interval
      Number`, `Bid or Offer`, `Price ($/MWh)` and `Quantity (MWh)`. */
  datatype Row = Row(date: int, interval: int, side: string, price: real, quantity: real)

  /** A curve point, in the column order of the output: cumulative quantity, then price. */
  datatype Point = Point(qty: real, price: real)

  /** The order a side is traversed in: offers (supply) by ascending price,
      bids (demand) by descending price. */
  datatype Dir = Ascending | Descending

  /** The two curves of one (date, interval). */
  datatype Curves = Curves(supply: seq<Point>, demand: seq<Point>)

  /** The aggregations of the discretisation step. */
  datatype Agg = Min | Max

  const OFFER: string := "Offer"
  const BID: string := "Bid"

  /** `a` comes no later than `b` when walking prices in direction `dir`. */
  predicate PriceBefore(dir: Dir, a: real, b: real)
  {
    if dir == Ascending then a <= b else b <= a
  }

  /** Sort key of the first sort: price only (`sort_values("Price ($/MWh)")`). */
  function RowOrder(dir: Dir): (Row, Row) -> bool
  {
    (a: Row, b: Row) => PriceBefore(dir, a.price, b.price)
  }

  /** Sort key of the final sort: price, then cumulative quantity, both in direction `dir`. */
  function PointOrder(dir: Dir): (Point, Point) -> bool
  {
    (a: Point, b: Point) =>
      if a.price == b.price then PriceBefore(dir, a.qty, b.qty) else PriceBefore(dir, a.price, b.price)
  }

  lemma OrdersAreTotal(dir: Dir)
    ensures TotalPreorder(RowOrder(dir))
    ensures TotalPreorder(PointOrder(dir)) && Antisymmetric(PointOrder(dir))
  {
  }

  /** Row masks of the source: `data["Trading Date"] == day`,
      `daily_data["Interval Number"] == interval`, `["Bid or Offer"] == side`. */
  function OnDate(day: int): Row -> bool
  {
    (r: Row) => r.date == day
  }

  function AtInterval(interval: int): Row -> bool
  {
    (r: Row) => r.interval == interval
  }

  function OnSide(side: string): Row -> bool
  {
    (r: Row) => r.side == side
  }

  /** Sum of the quantities of `rs`. */
  function Total(rs: seq<Row>): real
  {
    if rs == [] then 0.0 else rs[0].quantity + Total(rs[1..])
  }

  /** The rows of one side in traversal order; rows of equal price keep their
      input order. */
  function SortByPrice(dir: Dir, rs: seq<Row>): (s: seq<Row>)
    ensures |s| == |rs|
  {
    InsertionSort(rs, RowOrder(dir))
  }

  /** The sorted rows are a permutation of `rs`, in the side's price order. */
  lemma SortByPriceSpec(dir: Dir, rs: seq<Row>)
    ensures multiset(SortByPrice(dir, rs)) == multiset(rs)
    ensures Sorted(SortByPrice(dir, rs), RowOrder(dir))
  {
    OrdersAreTotal(dir);
    InsertionSortSpec(rs, RowOrder(dir));
  }

  /** `cumsum` started from `acc`: one point per row, with that row's price. */
  function CumSumFrom(rs: seq<Row>, acc: real): (cs: seq<Point>)
    ensures |cs| == |rs|
    ensures forall i {:trigger cs[i]} :: 0 <= i < |rs| ==> cs[i].price == rs[i].price
  {
    if rs == [] then []
    else [Point(acc + rs[0].quantity, rs[0].price)] + CumSumFrom(rs[1..], acc + rs[0].quantity)
  }

  /** Point i of the running sum from `acc` carries `acc` plus the first
      i + 1 quantities. */
  lemma {:induction false} CumSumFromAt(rs: seq<Row>, acc: real, i: int)
    requires 0 <= i < |rs|
    ensures CumSumFrom(rs, acc)[i] == Point(acc + Total(rs[..i + 1]), rs[i].price)
  {
    assert rs[..i + 1][1..] == rs[1..][..i];
    if i > 0 {
      CumSumFromAt(rs[1..], acc + rs[0].quantity, i - 1);
    }
  }

  /** `offers["cumulative_quantity"] = offers["Quantity (MWh)"].cumsum()`. */
  function CumSum(rs: seq<Row>): (cs: seq<Point>)
    ensures |cs| == |rs|
    ensures forall i :: 0 <= i < |rs| ==> cs[i].price == rs[i].price
  {
    CumSumFrom(rs, 0.0)
  }

  /** Point i of the cumulative sum carries the sum of the first i + 1
      quantities, at row i's price. */
  lemma CumSumAt(rs: seq<Row>, i: int)
    requires 0 <= i < |rs|
    ensures CumSum(rs)[i] == Point(Total(rs[..i + 1]), rs[i].price)
  {
    CumSumFromAt(rs, 0.0, i);
  }

  /** The price column of a sequence of points. */
  function Prices(cs: seq<Point>): (ps: seq<real>)
    ensures |ps| == |cs|
    ensures forall i {:trigger ps[i]} :: 0 <= i < |cs| ==> ps[i] == cs[i].price
  {
    if cs == [] then []
    else
      var rest := Prices(cs[1..]);
      assert forall i :: 1 <= i < |cs| ==> cs[i] == cs[1..][i - 1];
      [cs[0].price] + rest
  }

  /** `groupby("Price ($/MWh)")["cumulative_quantity"].min()` (or `.max()`)
      at one price `p` that occurs in `cs`. */
  function Aggregate(cs: seq<Point>, p: real, agg: Agg): real
    requires p in Prices(cs)
  {
    if cs[0].price != p then Aggregate(cs[1..], p, agg)
    else if p !in Prices(cs[1..]) then cs[0].qty
    else Pick(agg, cs[0].qty, Aggregate(cs[1..], p, agg))
  }

  /** The smaller (Min) or larger (Max) of two quantities. */
  function Pick(agg: Agg, a: real, b: real): (r: real)
    ensures r == a || r == b
    ensures agg == Min ==> r <= a && r <= b
    ensures agg == Max ==> a <= r && b <= r
  {
    if agg == Min then (if a <= b then a else b) else (if a >= b then a else b)
  }

  /** The aggregate is a cumulative quantity recorded at `p`, and no
      quantity recorded at `p` is below the minimum or above the maximum. */
  lemma {:induction false} AggregateSpec(cs: seq<Point>, p: real, agg: Agg)
    requires p in Prices(cs)
    ensures exists i :: 0 <= i < |cs| && cs[i] == Point(Aggregate(cs, p, agg), p)
    ensures forall i :: 0 <= i < |cs| && cs[i].price == p ==>
              (agg == Min ==> Aggregate(cs, p, agg) <= cs[i].qty) && (agg == Max ==> cs[i].qty <= Aggregate(cs, p, agg))
  {
    var r := Aggregate(cs, p, agg);
    var t := cs[1..];
    assert forall i :: 1 <= i < |cs| ==> cs[i] == t[i - 1];
    if cs[0].price != p {
      AggregateSpec(t, p, agg);
      var j :| 0 <= j < |t| && t[j] == Point(r, p);
      assert cs[j + 1] == Point(r, p);
    } else if p !in Prices(t) {
      assert cs[0] == Point(r, p);
      forall i | 1 <= i < |cs| ensures cs[i].price != p {
        assert Prices(t)[i - 1] == t[i - 1].price;
      }
    } else {
      AggregateSpec(t, p, agg);
      var j :| 0 <= j < |t| && t[j] == Point(Aggregate(t, p, agg), p);
      assert cs[j + 1] == t[j];
      assert cs[0] == Point(cs[0].qty, p);
    }
  }

  /** A position holding the aggregate at `p`. */
  lemma AggregateIndex(cs: seq<Point>, p: real, agg: Agg) returns (i: int)
    requires p in Prices(cs)
    ensures 0 <= i < |cs| && cs[i] == Point(Aggregate(cs, p, agg), p)
  {
    AggregateSpec(cs, p, agg);
    i :| 0 <= i < |cs| && cs[i] == Point(Aggregate(cs, p, agg), p);
  }

  /** The aggregate bounds the quantity of one point priced `p`. */
  lemma AggregateBound(cs: seq<Point>, p: real, agg: Agg, i: int)
    requires p in Prices(cs) && 0 <= i < |cs| && cs[i].price == p
    ensures agg == Min ==> Aggregate(cs, p, agg) <= cs[i].qty
    ensures agg == Max ==> cs[i].qty <= Aggregate(cs, p, agg)
  {
    AggregateSpec(cs, p, agg);
  }

  function TierMin(cs: seq<Point>, p: real): real
    requires p in Prices(cs)
  {
    Aggregate(cs, p, Min)
  }

  function TierMax(cs: seq<Point>, p: real): real
    requires p in Prices(cs)
  {
    Aggregate(cs, p, Max)
  }

  /** The group keys: the distinct prices, ascending, as `groupby` lists them. */
  function GroupKeys(cs: seq<Point>): (ks: seq<real>)
    ensures forall p :: p in ks <==> p in Prices(cs)
    ensures Sorted(ks, RealLe) && Distinct(ks)
  {
    NumberOrders();
    SortedDistinct(Prices(cs), RealLe)
  }

  /** One aggregated row per key of `ks`, in the order of `ks`. */
  function GroupOver(cs: seq<Point>, ks: seq<real>, agg: Agg): (g: seq<Point>)
    requires forall p :: p in ks ==> p in Prices(cs)
    ensures |g| == |ks|
    ensures forall k {:trigger g[k]} :: 0 <= k < |ks| ==> g[k] == Point(Aggregate(cs, ks[k], agg), ks[k])
  {
    if ks == [] then []
    else
      var n := |ks| - 1;
      assert forall k :: 0 <= k < n ==> ks[..n][k] == ks[k];
      GroupOver(cs, ks[..n], agg) + [Point(Aggregate(cs, ks[n], agg), ks[n])]
  }

  /** `groupby("Price ($/MWh)", as_index=False)["cumulative_quantity"].min()` / `.max()`. */
  function GroupBy(cs: seq<Point>, agg: Agg): seq<Point>
  {
    GroupOver(cs, GroupKeys(cs), agg)
  }

  /** The discretisation: the min rows and the max rows concatenated, then
      sorted on (price, cumulative quantity) in direction `dir`. */
  function Discretise(dir: Dir, cs: seq<Point>): seq<Point>
  {
    InsertionSort(GroupBy(cs, Min) + GroupBy(cs, Max), PointOrder(dir))
  }

  /** The discretised curve holds exactly the min and max rows, sorted in
      the side's order. */
  lemma DiscretiseSorted(dir: Dir, cs: seq<Point>)
    ensures multiset(Discretise(dir, cs)) == multiset(GroupBy(cs, Min) + GroupBy(cs, Max))
    ensures Sorted(Discretise(dir, cs), PointOrder(dir))
  {
    OrdersAreTotal(dir);
    InsertionSortSpec(GroupBy(cs, Min) + GroupBy(cs, Max), PointOrder(dir));
  }

  /** The curve of one side: sort by price, accumulate, discretise. */
  function SideCurve(dir: Dir, rs: seq<Row>): seq<Point>
  {
    Discretise(dir, CumSum(SortByPrice(dir, rs)))
  }

  /** The body of the inner loop for one interval of one day's rows. */
  function CurvesFor(daily: seq<Row>, interval: int): Curves
  {
    var rows := Filter(daily, AtInterval(interval));
    Curves(SideCurve(Ascending, Filter(rows, OnSide(OFFER))),
           SideCurve(Descending, Filter(rows, OnSide(BID))))
  }

  function Dates(data: seq<Row>): (ds: seq<int>)
    ensures forall d :: d in ds <==> d in DateSet(data)
  {
    var ds := seq(|data|, i requires 0 <= i < |data| => data[i].date);
    assert forall r :: r in data ==> r.date in ds by {
      forall r | r in data ensures r.date in ds {
        var i :| 0 <= i < |data| && data[i] == r;
        assert ds[i] == r.date;
      }
    }
    ds
  }

  function Intervals(data: seq<Row>): (ivs: seq<int>)
    ensures forall iv :: iv in ivs <==> iv in IntervalSet(data)
  {
    var ivs := seq(|data|, i requires 0 <= i < |data| => data[i].interval);
    assert forall r :: r in data ==> r.interval in ivs by {
      forall r | r in data ensures r.interval in ivs {
        var i :| 0 <= i < |data| && data[i] == r;
        assert ivs[i] == r.interval;
      }
    }
    ivs
  }

  /** `np.sort(xs.unique())`: each value once, ascending. */
  function UniqueSorted(xs: seq<int>): (u: seq<int>)
    ensures forall x :: x in u <==> x in xs
    ensures Sorted(u, IntLe) && Distinct(u)
  {
    NumberOrders();
    SortedDistinct(xs, IntLe)
  }

  /** `data["Trading Date"].unique()` and `data["Interval Number"].unique()` as sets. */
  ghost function DateSet(data: seq<Row>): set<int>
  {
    set r | r in data :: r.date
  }

  ghost function IntervalSet(data: seq<Row>): set<int>
  {
    set r | r in data :: r.interval
  }

  /** The entry of one day is complete: one key per interval number of the
      whole table, each holding that interval's curves for the day. */
  ghost predicate DayFilled(data: seq<Row>, day: int, m: map<int, Curves>)
  {
    && m.Keys == IntervalSet(data)
    && forall iv :: iv in m ==> m[iv] == CurvesFor(Filter(data, OnDate(day)), iv)
  }

  /** The whole procedure: for every distinct trading date (ascending) and
      every distinct interval number of the WHOLE table (ascending), the
      curves of that date's rows at that interval. An interval with no rows
      on a date still gets an entry. */
  method BuildOfferSupplyCurves(data: seq<Row>) returns (curves: map<int, map<int, Curves>>)
    ensures curves.Keys == DateSet(data)
    ensures forall day :: day in curves ==> curves[day].Keys == IntervalSet(data)
    ensures forall day, iv :: day in curves && iv in curves[day] ==>
              curves[day][iv] == CurvesFor(Filter(data, OnDate(day)), iv)
  {
    curves := map[];
    var days := UniqueSorted(Dates(data));
    var intervals := UniqueSorted(Intervals(data));
    assert intervals[..|intervals|] == intervals;
    for i := 0 to |days|
      invariant forall d :: d in curves <==> d in days[..i]
      invariant forall d :: d in curves ==> DayFilled(data, d, curves[d])
    {
      var day := days[i];
      var dayCurves := FillDay(Filter(data, OnDate(day)), intervals);
      KeysFromSequence(dayCurves, intervals, IntervalSet(data));
      KeysStep(curves, days, i);
      curves := curves[day := dayCurves];
    }
    assert days[..|days|] == days;
    KeysFromSequence(curves, days, DateSet(data));
  }

  /** The inner loop over one day's rows: one entry per interval number. */
  method FillDay(daily: seq<Row>, intervals: seq<int>) returns (dayCurves: map<int, Curves>)
    ensures forall iv :: iv in dayCurves <==> iv in intervals
    ensures forall iv :: iv in dayCurves ==> dayCurves[iv] == CurvesFor(daily, iv)
  {
    dayCurves := map[];
    for j := 0 to |intervals|
      invariant forall iv :: iv in dayCurves <==> iv in intervals[..j]
      invariant MapsBy(dayCurves, EntryOf(daily))
    {
      var interval := intervals[j];
      var entry := CurvesFor(daily, interval);
      KeysStep(dayCurves, intervals, j);
      MapsByStep(dayCurves, interval, entry, EntryOf(daily));
      dayCurves := dayCurves[interval := entry];
    }
    assert intervals[..|intervals|] == intervals;
  }

  /** The entry the inner loop stores for an interval of `daily`. */
  function EntryOf(daily: seq<Row>): int -> Curves
  {
    (iv: int) => CurvesFor(daily, iv)
  }

  /** Every stored value is `f` of its key. */
  ghost predicate MapsBy<V>(m: map<int, V>, f: int -> V)
  {
    forall k :: k in m ==> m[k] == f(k)
  }

  lemma MapsByStep<V>(m: map<int, V>, k: int, v: V, f: int -> V)
    requires MapsBy(m, f) && v == f(k)
    ensures MapsBy(m[k := v], f)
  {
  }

  /** Taking one more element of `keys` adds exactly that element as a key. */
  lemma KeysStep<V>(m: map<int, V>, keys: seq<int>, j: int)
    requires 0 <= j < |keys|
    requires forall k :: k in m <==> k in keys[..j]
    ensures forall k :: k in keys[..j + 1] <==> k in m || k == keys[j]
  {
    assert keys[..j + 1] == keys[..j] + [keys[j]];
  }

  lemma KeysFromSequence<V>(m: map<int, V>, keys: seq<int>, expected: set<int>)
    requires forall k :: k in m <==> k in keys
    requires forall k :: k in keys <==> k in expected
    ensures m.Keys == expected
  {
    assert forall k :: k in m.Keys <==> k in expected;
  }
}
