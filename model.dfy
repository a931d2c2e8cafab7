/** The forecasting helpers of aemo/model.py: the split of the feature table
    into train and test arrays at a date, and the mean absolute error of the
    persistence baseline that predicts each value by the one a whole number
    of days earlier. */
module Model {
  import opened Seqs

  // ---------------------------------------------------------------------------
  // Train/test split

  /** One row of the feature table: its date and its numeric cells by column. */
  datatype Record = Record(date: int, cells: map<string, real>)

  /** A data frame: its column names and its rows. */
  datatype Frame = Frame(columns: set<string>, rows: seq<Record>)

  /** The four arrays returned by the split. */
  datatype Split = Split(xTrain: seq<seq<real>>, yTrain: seq<seq<real>>,
                         xTest: seq<seq<real>>, yTest: seq<seq<real>>)

  /** The frame has a `date` column, and every row holds a cell for each
      column of the frame and for no other, its `date` cell being the row's
      date. */
  ghost predicate WellFormed(f: Frame)
  {
    && "date" in f.columns
    && forall r :: r in f.rows ==>
      && r.cells.Keys == f.columns
      && r.cells["date"] == r.date as real
  }

  /** The masks `data["date"] < test_date` and `data["date"] >= test_date`. */
  function Before(t: int): Record -> bool
  {
    (r: Record) => r.date < t
  }

  function NotBefore(t: int): Record -> bool
  {
    (r: Record) => r.date >= t
  }

  /** The rows dated before `t`, in their order. */
  function TrainRows(rows: seq<Record>, t: int): (train: seq<Record>)
    ensures forall r :: r in train <==> r in rows && r.date < t
  {
    Filter(rows, Before(t))
  }

  /** The rows dated `t` or later, in their order. */
  function TestRows(rows: seq<Record>, t: int): (test: seq<Record>)
    ensures forall r :: r in test <==> r in rows && r.date >= t
  {
    Filter(rows, NotBefore(t))
  }

  /** Every name of `cols` is a column of the frame; otherwise selecting the
      columns raises a `KeyError`. */
  predicate HasColumns(f: Frame, cols: seq<string>)
  {
    forall j :: 0 <= j < |cols| ==> cols[j] in f.columns
  }

  /** `row[cols].values`: the cells of `cols`, in the order of `cols`. */
  function Values(r: Record, cols: seq<string>): (v: seq<real>)
    requires forall j :: 0 <= j < |cols| ==> cols[j] in r.cells
    ensures |v| == |cols|
  {
    seq(|cols|, j requires 0 <= j < |cols| => r.cells[cols[j]])
  }

  /** `t` is the array `rows[cols].values`: one array row per frame row,
      holding that row's cells of `cols` in the order of `cols`. */
  ghost predicate Tabulates(t: seq<seq<real>>, rows: seq<Record>, cols: seq<string>)
  {
    && |t| == |rows|
    && forall k :: 0 <= k < |rows| ==> RowTabulates(t[k], rows[k], cols)
  }

  ghost predicate RowTabulates(v: seq<real>, r: Record, cols: seq<string>)
  {
    && |v| == |cols|
    && forall j :: 0 <= j < |cols| ==> cols[j] in r.cells && v[j] == r.cells[cols[j]]
  }

  /** `frame[cols].values`. */
  function Table(rows: seq<Record>, cols: seq<string>): (t: seq<seq<real>>)
    requires forall r, j :: r in rows && 0 <= j < |cols| ==> cols[j] in r.cells
    ensures Tabulates(t, rows, cols)
  {
    if rows == [] then []
    else
      var rest := Table(rows[1..], cols);
      assert forall k :: 1 <= k < |rows| ==> rows[k] == rows[1..][k - 1];
      [Values(rows[0], cols)] + rest
  }

  /** `get_train_test_split`: the feature and target arrays of the rows before
      `t` and of the rows from `t` on; none when a column is missing. Row k of
      the feature array and row k of the target array come from the same row
      of the frame. */
  function TrainTestSplit(f: Frame, t: int, features: seq<string>, targets: seq<string>): (r: Option<Split>)
    requires WellFormed(f)
    ensures r.Some? <==> HasColumns(f, features) && HasColumns(f, targets)
    ensures r.Some? ==>
      var train, test := TrainRows(f.rows, t), TestRows(f.rows, t);
      && Tabulates(r.value.xTrain, train, features) && Tabulates(r.value.yTrain, train, targets)
      && Tabulates(r.value.xTest, test, features) && Tabulates(r.value.yTest, test, targets)
  {
    if !HasColumns(f, features) || !HasColumns(f, targets) then None
    else
      var train, test := TrainRows(f.rows, t), TestRows(f.rows, t);
      Some(Split(Table(train, features), Table(train, targets), Table(test, features), Table(test, targets)))
  }

  /** A `date` feature column reads the date the split compares: in the
      training features, that column of row k is the date of training row k,
      which is before `t`. */
  lemma DateFeatureIsSplitDate(f: Frame, t: int, features: seq<string>, targets: seq<string>, j: int)
    requires WellFormed(f) && 0 <= j < |features| && features[j] == "date"
    requires TrainTestSplit(f, t, features, targets).Some?
    ensures var x, train := TrainTestSplit(f, t, features, targets).value.xTrain, TrainRows(f.rows, t);
      forall k :: 0 <= k < |x| ==> |x[k]| == |features| && x[k][j] == train[k].date as real && x[k][j] < t as real
  {
    var x, train := TrainTestSplit(f, t, features, targets).value.xTrain, TrainRows(f.rows, t);
    forall k | 0 <= k < |x| ensures |x[k]| == |features| && x[k][j] == train[k].date as real && x[k][j] < t as real {
      assert RowTabulates(x[k], train[k], features);
      assert train[k] in train;
    }
  }

  /** Selecting only the `date` column never fails, and its training
      features are the dates of the rows before `t`, one per row. */
  lemma DateColumnAlwaysSelectable(f: Frame, t: int)
    requires WellFormed(f)
    ensures var r := TrainTestSplit(f, t, ["date"], ["date"]);
      && r.Some?
      && |r.value.xTrain| == |TrainRows(f.rows, t)|
      && forall k :: 0 <= k < |r.value.xTrain| ==> r.value.xTrain[k] == [TrainRows(f.rows, t)[k].date as real]
  {
    var r := TrainTestSplit(f, t, ["date"], ["date"]);
    var train := TrainRows(f.rows, t);
    assert HasColumns(f, ["date"]);
    forall k | 0 <= k < |r.value.xTrain| ensures r.value.xTrain[k] == [train[k].date as real] {
      assert RowTabulates(r.value.xTrain[k], train[k], ["date"]);
      assert train[k] in train;
    }
  }

  /** Every row lands in exactly one of the two parts, and the parts together
      are as long as the frame. */
  lemma SplitPartitions(rows: seq<Record>, t: int)
    ensures multiset(TrainRows(rows, t)) + multiset(TestRows(rows, t)) == multiset(rows)
    ensures |TrainRows(rows, t)| + |TestRows(rows, t)| == |rows|
  {
    FilterPartition(rows, Before(t), NotBefore(t));
  }

  /** Both parts keep the frame's row order. */
  lemma SplitKeepsOrder(rows: seq<Record>, t: int)
    ensures IsSubsequence(TrainRows(rows, t), rows)
    ensures IsSubsequence(TestRows(rows, t), rows)
  {
    FilterIsSubsequence(rows, Before(t));
    FilterIsSubsequence(rows, NotBefore(t));
  }

  // ---------------------------------------------------------------------------
  // Persistence baseline

  /** Half-hour trading intervals per day. */
  const INTERVALS_PER_DAY: int := 48

  /** Python's `s[:stop]`: a negative `stop` counts from the end. */
  function SliceTo(s: seq<real>, stop: int): seq<real>
  {
    if stop < 0 then s[..if |s| + stop < 0 then 0 else |s| + stop]
    else s[..if stop < |s| then stop else |s|]
  }

  /** Python's `s[start:]`: a negative `start` counts from the end. */
  function SliceFrom(s: seq<real>, start: int): seq<real>
  {
    if start < 0 then s[if |s| + start < 0 then 0 else |s| + start..]
    else s[if start < |s| then start else |s|..]
  }

  /** `np.abs(a - b)`, element by element. */
  function AbsDiffs(a: seq<real>, b: seq<real>): (d: seq<real>)
    requires |a| == |b|
    ensures |d| == |a|
    ensures forall i :: 0 <= i < |a| ==> d[i] == Abs(a[i] - b[i])
  {
    if a == [] then []
    else [Abs(a[0] - b[0])] + AbsDiffs(a[1..], b[1..])
  }

  /** `np.mean` of a non-empty array. */
  function Mean(xs: seq<real>): real
    requires xs != []
  {
    Sum(xs) / (|xs| as real)
  }

  /** `compute_baseline_mae`: the mean absolute difference between
      `data[:-shift]` and `data[shift:]` for `shift = 48 * shiftDays`. Empty
      slices give NaN and slices of different lengths do not broadcast; both
      are none. */
  function BaselineMae(data: seq<real>, shiftDays: int): Option<real>
  {
    var shift := shiftDays * INTERVALS_PER_DAY;
    var predictions, actuals := SliceTo(data, -shift), SliceFrom(data, shift);
    if |predictions| != |actuals| || predictions == [] then None
    else Some(Mean(AbsDiffs(predictions, actuals)))
  }

  /** A baseline exists exactly when the shift is forward and the series is
      longer than it, or the shift is backward and the series is not empty
      (Python's negative slicing then pairs the head with the tail). A zero
      shift never gives one: `data[:-0]` is empty. */
  lemma BaselineDefined(data: seq<real>, shiftDays: int)
    ensures BaselineMae(data, shiftDays).Some? <==>
      (shiftDays > 0 && |data| > shiftDays * INTERVALS_PER_DAY) || (shiftDays < 0 && data != [])
  {
    var shift := shiftDays * INTERVALS_PER_DAY;
    if shiftDays > 0 {
      assert shift > 0;
    } else if shiftDays < 0 {
      assert shift < 0;
    }
  }

  /** With a forward shift, prediction i is `data[i]` and its actual value is
      `data[i + shift]`, for each of the `|data| - shift` positions. */
  lemma BaselinePairs(data: seq<real>, shiftDays: int)
    requires shiftDays >= 1
    ensures var shift := shiftDays * INTERVALS_PER_DAY;
      var predictions, actuals := SliceTo(data, -shift), SliceFrom(data, shift);
      && |predictions| == |actuals| == (if |data| > shift then |data| - shift else 0)
      && (forall i :: 0 <= i < |predictions| ==> predictions[i] == data[i] && actuals[i] == data[i + shift])
  {
    var shift := shiftDays * INTERVALS_PER_DAY;
    assert shift >= 48;
  }

  /** With a backward shift, `data[:-shift]` is the head and `data[shift:]`
      the tail of the series, each of `min(|data|, -shift)` values: prediction
      i is paired with the value that many positions before the end. */
  lemma BaselineBackwardPairs(data: seq<real>, shiftDays: int)
    requires shiftDays <= -1
    ensures var shift := shiftDays * INTERVALS_PER_DAY;
      var n := if |data| < -shift then |data| else -shift;
      var predictions, actuals := SliceTo(data, -shift), SliceFrom(data, shift);
      && |predictions| == |actuals| == n
      && (forall i :: 0 <= i < n ==> predictions[i] == data[i] && actuals[i] == data[|data| - n + i])
  {
    var shift := shiftDays * INTERVALS_PER_DAY;
    assert shift <= -48;
  }

  /** A sum of non-negative terms is non-negative, and zero exactly when every
      term is. */
  lemma {:induction false} SumNonNegative(xs: seq<real>)
    requires forall i :: 0 <= i < |xs| ==> xs[i] >= 0.0
    ensures Sum(xs) >= 0.0
    ensures Sum(xs) == 0.0 <==> forall i :: 0 <= i < |xs| ==> xs[i] == 0.0
  {
    if xs != [] {
      SumNonNegative(xs[1..]);
      assert forall i :: 1 <= i < |xs| ==> xs[i] == xs[1..][i - 1];
    }
  }

  /** The mean of non-negative terms is non-negative, and zero exactly when
      every term is. */
  lemma MeanNonNegative(xs: seq<real>)
    requires xs != [] && forall i :: 0 <= i < |xs| ==> xs[i] >= 0.0
    ensures Mean(xs) >= 0.0
    ensures Mean(xs) == 0.0 <==> forall i :: 0 <= i < |xs| ==> xs[i] == 0.0
  {
    SumNonNegative(xs);
    var n := |xs| as real;
    assert Mean(xs) * n == Sum(xs);
  }

  /** The baseline error is never negative, and with a forward shift it is
      zero exactly when the series repeats itself after `shift` intervals. */
  lemma BaselineZeroIffPeriodic(data: seq<real>, shiftDays: int)
    requires shiftDays >= 1 && |data| > shiftDays * INTERVALS_PER_DAY
    ensures var shift := shiftDays * INTERVALS_PER_DAY;
      && BaselineMae(data, shiftDays).Some?
      && BaselineMae(data, shiftDays).value >= 0.0
      && (BaselineMae(data, shiftDays).value == 0.0 <==>
            forall i :: 0 <= i < |data| - shift ==> data[i] == data[i + shift])
  {
    var shift := shiftDays * INTERVALS_PER_DAY;
    BaselinePairs(data, shiftDays);
    var d := AbsDiffs(SliceTo(data, -shift), SliceFrom(data, shift));
    MeanNonNegative(d);
    forall i | 0 <= i < |d| ensures d[i] == 0.0 <==> data[i] == data[i + shift] {
      assert d[i] == Abs(data[i] - data[i + shift]);
    }
  }

  /** The error of any baseline that exists is non-negative. */
  lemma BaselineNonNegative(data: seq<real>, shiftDays: int)
    requires BaselineMae(data, shiftDays).Some?
    ensures BaselineMae(data, shiftDays).value >= 0.0
  {
    var shift := shiftDays * INTERVALS_PER_DAY;
    MeanNonNegative(AbsDiffs(SliceTo(data, -shift), SliceFrom(data, shift)));
  }
}
