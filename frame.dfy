/**
 * One station's table and the value-level meaning of every cleaning step of
 * `clean_air_quality_data` and `outliers`. A table is a sequence of rows; a
 * row holds the six pollutant cells (`None` is NaN), the time fields (the four
 * raw fields until `date_time` replaces them), the wind direction (`None` is
 * a missing category) and the remaining meteorological and station cells,
 * which cleaning never touches.
 */
module Frame {
  import opened Wrappers
  import opened Stats
  import opened Calendar
  import opened Distinct

  /** The pollutant columns, in the order both cleaning loops visit them. */
  const POLLUTANTS: seq<string> := ["PM2.5", "PM10", "SO2", "NO2", "CO", "O3"]
  const POLLUTANT_COUNT: nat := 6

  /** A cell of a column that cleaning does not touch (TEMP, PRES, DEWP, RAIN, WSPM, station, ...). */
  datatype Cell = Number(x: real) | Text(s: string) | NaN

  /** The four raw time fields, or the `date_time` timestamp that replaces them. */
  datatype When = Fields(parts: Parts) | DateTime(at: Timestamp)

  datatype Row = Row(pollutants: seq<Option<real>>, when: When, wd: Option<string>, rest: seq<Cell>)

  /**
   * A station table: whether `date_time` has replaced year/month/day/hour,
   * whether a `wd` column exists, and the rows.
   */
  datatype Table = Table(dated: bool, hasWd: bool, rows: seq<Row>)

  /** Every row has the six pollutant cells. */
  predicate Wide(rows: seq<Row>) {
    forall i :: 0 <= i < |rows| ==> |rows[i].pollutants| == POLLUTANT_COUNT
  }

  /** The row has the time fields the table says it has, and no direction when there is no `wd` column. */
  predicate RowFits(r: Row, dated: bool, hasWd: bool) {
    && r.when.DateTime? == dated
    && (!hasWd ==> r.wd.None?)
  }

  predicate WellFormed(t: Table) {
    && Wide(t.rows)
    && forall i :: 0 <= i < |t.rows| ==> RowFits(t.rows[i], t.dated, t.hasWd)
  }

  /** Pollutant column `c`. */
  function Column(rows: seq<Row>, c: nat): (col: seq<Option<real>>)
    requires Wide(rows) && c < POLLUTANT_COUNT
    ensures |col| == |rows|
    ensures forall i :: 0 <= i < |rows| ==> col[i] == rows[i].pollutants[c]
  {
    seq(|rows|, i requires 0 <= i < |rows| => rows[i].pollutants[c])
  }

  /** The non-missing values of a column, in row order (what pandas' statistics skip NaN down to). */
  function Present(col: seq<Option<real>>): (vals: seq<real>)
    ensures |vals| <= |col|
  {
    if col == [] then []
    else (if col[0].Some? then [col[0].value] else []) + Present(col[1..])
  }

  /**
   * A value occurs among the present values as often as some cell holds it,
   * so it is present exactly when some cell holds it.
   */
  lemma {:induction false} PresentMembers(col: seq<Option<real>>)
    ensures forall x :: multiset(Present(col))[x] == multiset(col)[Some(x)]
    ensures forall x :: x in Present(col) <==> Some(x) in col
  {
    if col != [] {
      PresentMembers(col[1..]);
      assert col == [col[0]] + col[1..];
      assert multiset(col) == multiset([col[0]]) + multiset(col[1..]);
      assert Present(col) == (if col[0].Some? then [col[0].value] else []) + Present(col[1..]);
    }
  }

  /** A column with at least one known value has a median. */
  lemma PresentOfObserved(col: seq<Option<real>>, i: nat)
    requires i < |col| && col[i].Some?
    ensures Present(col) != []
  {
    PresentMembers(col);
    var v := col[i].value;
    assert Some(v) in col;
  }

  /** Every pollutant column has at least one value, so each has a median. */
  predicate AllColumnsObserved(rows: seq<Row>)
    requires Wide(rows)
  {
    forall c :: 0 <= c < POLLUTANT_COUNT ==> Present(Column(rows, c)) != []
  }

  /** No pollutant cell is missing. */
  predicate NoMissingPollutants(rows: seq<Row>)
    requires Wide(rows)
  {
    forall i, c :: 0 <= i < |rows| && 0 <= c < POLLUTANT_COUNT ==> rows[i].pollutants[c].Some?
  }

  function SetPollutant(r: Row, c: nat, v: Option<real>): Row
    requires c < |r.pollutants|
  {
    r.(pollutants := r.pollutants[c := v])
  }

  // ---------------------------------------------------------------------
  // Step 1: fill missing pollutant values with the column median.

  /** The value `fillna` writes into missing cells of column `c`. */
  function ColumnMedian(rows: seq<Row>, c: nat): real
    requires Wide(rows) && c < POLLUTANT_COUNT && Present(Column(rows, c)) != []
  {
    Median(Present(Column(rows, c)))
  }

  function FillCell(x: Option<real>, m: real): Option<real> {
    if x.None? then Some(m) else x
  }

  /** `df[col].fillna(m)` for pollutant column `c`. */
  function FillColumn(rows: seq<Row>, c: nat, m: real): (r: seq<Row>)
    requires Wide(rows) && c < POLLUTANT_COUNT
    ensures |r| == |rows| && Wide(r)
    ensures forall i :: 0 <= i < |rows| ==> r[i].pollutants[c].Some?
    ensures forall i :: 0 <= i < |rows| && rows[i].pollutants[c].Some? ==> r[i].pollutants[c] == rows[i].pollutants[c]
    ensures forall i :: 0 <= i < |rows| && rows[i].pollutants[c].None? ==> r[i].pollutants[c] == Some(m)
    ensures forall i, d :: 0 <= i < |rows| && 0 <= d < POLLUTANT_COUNT && d != c ==>
              r[i].pollutants[d] == rows[i].pollutants[d]
    ensures forall i :: 0 <= i < |rows| ==> r[i].when == rows[i].when && r[i].wd == rows[i].wd && r[i].rest == rows[i].rest
  {
    seq(|rows|, i requires 0 <= i < |rows| => SetPollutant(rows[i], c, FillCell(rows[i].pollutants[c], m)))
  }

  /** The median of every pollutant column, in loop order. */
  function Medians(rows: seq<Row>): (ms: seq<real>)
    requires Wide(rows) && AllColumnsObserved(rows)
    ensures |ms| == POLLUTANT_COUNT
    ensures forall c :: 0 <= c < POLLUTANT_COUNT ==> ms[c] == ColumnMedian(rows, c)
  {
    seq(POLLUTANT_COUNT, c requires 0 <= c < POLLUTANT_COUNT => ColumnMedian(rows, c))
  }

  /**
   * The table after the fill loop has visited the first `k` pollutants,
   * column `c` being filled with `ms[c]`.
   */
  function FillUpTo(rows: seq<Row>, ms: seq<real>, k: nat): (r: seq<Row>)
    requires Wide(rows) && |ms| == POLLUTANT_COUNT && k <= POLLUTANT_COUNT
    ensures |r| == |rows| && Wide(r)
  {
    if k == 0 then rows
    else FillColumn(FillUpTo(rows, ms, k - 1), k - 1, ms[k - 1])
  }

  /**
   * After `k` rounds of the fill loop the first `k` columns are filled and
   * the other columns and fields are as they were.
   */
  lemma {:induction false} FillUpToCells(rows: seq<Row>, ms: seq<real>, k: nat)
    requires Wide(rows) && |ms| == POLLUTANT_COUNT && k <= POLLUTANT_COUNT
    ensures forall i, c {:trigger FillUpTo(rows, ms, k)[i].pollutants[c]} ::
              0 <= i < |rows| && 0 <= c < POLLUTANT_COUNT ==>
              FillUpTo(rows, ms, k)[i].pollutants[c]
              == if c < k then FillCell(rows[i].pollutants[c], ms[c]) else rows[i].pollutants[c]
    ensures forall i :: 0 <= i < |rows| ==>
              var r := FillUpTo(rows, ms, k);
              r[i].when == rows[i].when && r[i].wd == rows[i].wd && r[i].rest == rows[i].rest
  {
    if k > 0 {
      FillUpToCells(rows, ms, k - 1);
    }
  }

  /**
   * Round `k` of the fill loop finds column `k` as it was originally, so the
   * median it takes is that of the original column.
   */
  lemma FillUpToKeepsLaterColumn(rows: seq<Row>, ms: seq<real>, k: nat)
    requires Wide(rows) && |ms| == POLLUTANT_COUNT && k < POLLUTANT_COUNT
    ensures Column(FillUpTo(rows, ms, k), k) == Column(rows, k)
  {
    FillUpToCells(rows, ms, k);
  }

  /** Step 1 over all six pollutant columns. */
  function FillMissing(rows: seq<Row>): (r: seq<Row>)
    requires Wide(rows) && AllColumnsObserved(rows)
    ensures |r| == |rows| && Wide(r) && NoMissingPollutants(r)
  {
    var ms := Medians(rows);
    FillUpToCells(rows, ms, |ms|);
    FillUpTo(rows, ms, |ms|)
  }

  /**
   * After median imputation no pollutant cell is missing, every present value
   * is unchanged, every filled cell holds the median of the column's present
   * values, and the row count and all other fields are unchanged.
   */
  lemma FillMissingSpec(rows: seq<Row>)
    requires Wide(rows) && AllColumnsObserved(rows)
    ensures |FillMissing(rows)| == |rows| && Wide(FillMissing(rows))
    ensures NoMissingPollutants(FillMissing(rows))
    ensures forall i, c :: 0 <= i < |rows| && 0 <= c < POLLUTANT_COUNT && rows[i].pollutants[c].Some? ==>
              FillMissing(rows)[i].pollutants[c] == rows[i].pollutants[c]
    ensures forall i, c :: 0 <= i < |rows| && 0 <= c < POLLUTANT_COUNT && rows[i].pollutants[c].None? ==>
              FillMissing(rows)[i].pollutants[c] == Some(Median(Present(Column(rows, c))))
    ensures forall i :: 0 <= i < |rows| ==>
              var r := FillMissing(rows);
              r[i].when == rows[i].when && r[i].wd == rows[i].wd && r[i].rest == rows[i].rest
  {
    FillUpToCells(rows, Medians(rows), POLLUTANT_COUNT);
  }

  // ---------------------------------------------------------------------
  // Step 2: combine year, month, day and hour into date_time.

  datatype CleanError =
    | MissingDateColumns      // the four time fields are gone (a KeyError)
    | BadDate(reason: DateError)
    | NoWindMode              // `wd` has no value at all, so `mode()[0]` fails

  predicate Undated(rows: seq<Row>) {
    forall i :: 0 <= i < |rows| ==> rows[i].when.Fields?
  }

  /** Row `r` with its four time fields replaced by the instant `at`. */
  function Stamped(r: Row, at: Timestamp): Row {
    r.(when := DateTime(at))
  }

  /**
   * The `date_time` column for all rows, or the error of the first row whose
   * fields do not form a representable date.
   */
  function StampRows(rows: seq<Row>): (r: Result<seq<Row>, DateError>)
    requires Undated(rows)
    ensures r.Ok? ==> |r.value| == |rows|
    ensures r.Ok? ==> forall i :: 0 <= i < |rows| ==>
              ToTimestamp(rows[i].when.parts).Ok? && r.value[i] == Stamped(rows[i], ToTimestamp(rows[i].when.parts).value)
  {
    if rows == [] then Ok([])
    else
      assert forall i :: 1 <= i < |rows| ==> rows[i] == rows[1..][i - 1];
      var first := ToTimestamp(rows[0].when.parts);
      if first.Err? then Err(first.error)
      else
        var tail := StampRows(rows[1..]);
        if tail.Err? then tail
        else Ok([Stamped(rows[0], first.value)] + tail.value)
  }

  /**
   * Conversion succeeds exactly when every row converts; it then stamps every
   * row with its own instant, and otherwise fails with the error of some row.
   */
  lemma {:induction false} StampRowsSpec(rows: seq<Row>)
    requires Undated(rows)
    ensures StampRows(rows).Ok? <==> forall i :: 0 <= i < |rows| ==> ToTimestamp(rows[i].when.parts).Ok?
    ensures StampRows(rows).Ok? ==> forall i :: 0 <= i < |rows| ==>
              StampRows(rows).value[i] == Stamped(rows[i], ToTimestamp(rows[i].when.parts).value)
    ensures StampRows(rows).Err? ==>
              exists i :: 0 <= i < |rows| && ToTimestamp(rows[i].when.parts) == Err(StampRows(rows).error)
  {
    if rows != [] {
      var tail := rows[1..];
      StampRowsSpec(tail);
      assert forall i :: 1 <= i < |rows| ==> rows[i] == tail[i - 1];
      var r := StampRows(rows);
      if ToTimestamp(rows[0].when.parts).Ok? && StampRows(tail).Err? {
        var j :| 0 <= j < |tail| && ToTimestamp(tail[j].when.parts) == Err(r.error);
        assert ToTimestamp(rows[j + 1].when.parts) == Err(r.error);
      }
    }
  }

  /** When rows before `i` convert and row `i` does not, conversion fails with row `i`'s error. */
  lemma {:induction false} StampRowsFirstError(rows: seq<Row>, i: nat)
    requires Undated(rows) && i < |rows|
    requires forall k :: 0 <= k < i ==> ToTimestamp(rows[k].when.parts).Ok?
    requires ToTimestamp(rows[i].when.parts).Err?
    ensures StampRows(rows) == Err(ToTimestamp(rows[i].when.parts).error)
  {
    if i > 0 {
      var tail := rows[1..];
      assert forall k :: 0 <= k < |tail| ==> tail[k] == rows[k + 1];
      StampRowsFirstError(tail, i - 1);
    }
  }

  /** `pd.to_datetime(df[['year', 'month', 'day', 'hour']])` followed by dropping the four fields. */
  function ConvertDates(t: Table): (r: Result<Table, CleanError>)
    requires WellFormed(t)
    ensures r.Ok? ==>
              && WellFormed(r.value) && r.value.dated && r.value.hasWd == t.hasWd && |r.value.rows| == |t.rows|
              && forall i :: 0 <= i < |t.rows| ==>
                   && r.value.rows[i].pollutants == t.rows[i].pollutants
                   && r.value.rows[i].wd == t.rows[i].wd && r.value.rows[i].rest == t.rows[i].rest
  {
    if t.dated then Err(MissingDateColumns)
    else
      StampRowsSpec(t.rows);
      match StampRows(t.rows)
      case Err(e) => Err(BadDate(e))
      case Ok(rows) =>
        var u := t.(dated := true, rows := rows);
        assert forall i :: 0 <= i < |t.rows| ==> RowFits(t.rows[i], false, t.hasWd);
        Ok(u)
  }

  /**
   * On the raw table, conversion succeeds exactly when every row's fields are
   * a valid, representable date; when it fails, the error is that of some
   * row, so a nonexistent date always makes it fail.
   */
  lemma ConvertDatesOutcome(t: Table)
    requires WellFormed(t) && !t.dated
    ensures ConvertDates(t).Ok? <==>
              forall i :: 0 <= i < |t.rows| ==>
                ValidParts(t.rows[i].when.parts) && InTimestampRange(EpochHours(t.rows[i].when.parts))
    ensures ConvertDates(t).Err? ==>
              && ConvertDates(t).error.BadDate?
              && exists i :: 0 <= i < |t.rows| && ToTimestamp(t.rows[i].when.parts) == Err(ConvertDates(t).error.reason)
    ensures (exists i :: 0 <= i < |t.rows| && !ValidParts(t.rows[i].when.parts)) ==> ConvertDates(t).Err?
  {
    StampRowsSpec(t.rows);
  }

  /**
   * After a successful conversion every row's `date_time` decomposes back
   * into its original year, month, day and hour.
   */
  lemma ConvertDatesRoundTrip(t: Table)
    requires WellFormed(t) && !t.dated && ConvertDates(t).Ok?
    ensures forall i :: 0 <= i < |t.rows| ==>
              Decompose(ConvertDates(t).value.rows[i].when.at) == t.rows[i].when.parts
  {
    StampRowsSpec(t.rows);
    var r := StampRows(t.rows);
    forall i | 0 <= i < |t.rows|
      ensures Decompose(r.value[i].when.at) == t.rows[i].when.parts
    {
      ToTimestampDecompose(t.rows[i].when.parts);
    }
  }

  /** A table whose time fields were already replaced cannot be converted again. */
  lemma ConvertDatesNeedsFields(t: Table)
    requires WellFormed(t) && t.dated
    ensures ConvertDates(t) == Err(MissingDateColumns)
  {
  }

  // ---------------------------------------------------------------------
  // Step 3: fill missing wind directions with a mode.

  /** The non-missing wind directions, in row order. */
  function PresentWd(rows: seq<Row>): (vals: seq<string>)
    ensures forall v :: v in vals <==> exists i :: 0 <= i < |rows| && rows[i].wd == Some(v)
  {
    if rows == [] then []
    else
      var tail := PresentWd(rows[1..]);
      assert forall i :: 1 <= i < |rows| ==> rows[i] == rows[1..][i - 1];
      (if rows[0].wd.Some? then [rows[0].wd.value] else []) + tail
  }

  /** The `wd` column. */
  function WdColumn(rows: seq<Row>): (col: seq<Option<string>>)
    ensures |col| == |rows|
    ensures forall i :: 0 <= i < |rows| ==> col[i] == rows[i].wd
  {
    seq(|rows|, i requires 0 <= i < |rows| => rows[i].wd)
  }

  /**
   * A direction occurs among the known ones as often as the `wd` column holds
   * it, so `mode()` counts exactly what `value_counts` would.
   */
  lemma {:induction false} PresentWdCounts(rows: seq<Row>)
    ensures forall v :: multiset(PresentWd(rows))[v] == multiset(WdColumn(rows))[Some(v)]
  {
    if rows != [] {
      PresentWdCounts(rows[1..]);
      assert WdColumn(rows) == [rows[0].wd] + WdColumn(rows[1..]);
      assert multiset(WdColumn(rows)) == multiset([rows[0].wd]) + multiset(WdColumn(rows[1..]));
    }
  }

  /** With no direction known, there is no value to take a mode of. */
  lemma {:induction false} PresentWdNone(rows: seq<Row>)
    requires forall i :: 0 <= i < |rows| ==> rows[i].wd.None?
    ensures PresentWd(rows) == []
  {
    if rows != [] {
      PresentWdNone(rows[1..]);
    }
  }

  /**
   * `df['wd'] = df['wd'].fillna(df['wd'].mode()[0])` when the column exists;
   * with no known direction `mode()` is empty and `[0]` fails.
   */
  function FillWind(t: Table): (r: Result<Table, CleanError>)
    requires WellFormed(t)
    ensures r.Ok? ==> WellFormed(r.value) && r.value.dated == t.dated && r.value.hasWd == t.hasWd
    ensures r.Err? <==> t.hasWd && PresentWd(t.rows) == []
    ensures r.Err? ==> r.error == NoWindMode
    ensures r.Ok? ==> |r.value.rows| == |t.rows|
    ensures r.Ok? ==> forall i :: 0 <= i < |t.rows| ==>
              && (t.hasWd ==> r.value.rows[i].wd.Some?)
              && (t.rows[i].wd.Some? ==> r.value.rows[i].wd == t.rows[i].wd)
              && r.value.rows[i].pollutants == t.rows[i].pollutants
              && r.value.rows[i].when == t.rows[i].when && r.value.rows[i].rest == t.rows[i].rest
  {
    if !t.hasWd then Ok(t)
    else if PresentWd(t.rows) == [] then Err(NoWindMode)
    else
      var mode := Mode(PresentWd(t.rows));
      Ok(t.(rows := seq(|t.rows|, i requires 0 <= i < |t.rows| =>
                          t.rows[i].(wd := Some(t.rows[i].wd.GetOr(mode))))))
  }

  /**
   * Without a `wd` column nothing changes. With one, no direction is missing
   * afterwards, known directions are kept, and every filled cell holds the
   * mode of the known ones (`ModeIsSmallestMode`: the smallest direction of
   * maximal frequency); the row count and all other fields are unchanged.
   */
  lemma FillWindSpec(t: Table)
    requires WellFormed(t)
    ensures !t.hasWd ==> FillWind(t) == Ok(t)
    ensures t.hasWd ==> (FillWind(t).Err? <==> PresentWd(t.rows) == [])
    ensures FillWind(t).Ok? ==>
              var u := FillWind(t).value;
              && WellFormed(u) && u.dated == t.dated && u.hasWd == t.hasWd && |u.rows| == |t.rows|
              && forall i :: 0 <= i < |t.rows| ==>
                   && (t.hasWd ==> u.rows[i].wd.Some?)
                   && (t.rows[i].wd.Some? ==> u.rows[i].wd == t.rows[i].wd)
                   && (t.hasWd && t.rows[i].wd.None? ==> u.rows[i].wd == Some(Mode(PresentWd(t.rows))))
                   && u.rows[i].pollutants == t.rows[i].pollutants
                   && u.rows[i].when == t.rows[i].when && u.rows[i].rest == t.rows[i].rest
  {
    if t.hasWd && PresentWd(t.rows) != [] {
      var u := FillWind(t).value;
      forall i | 0 <= i < |t.rows|
        ensures RowFits(u.rows[i], u.dated, u.hasWd)
      {
        assert RowFits(t.rows[i], t.dated, t.hasWd);
      }
    }
  }

  // ---------------------------------------------------------------------
  // Step 5: replace outliers of each pollutant column by its median.

  /**
   * The fences and median of column `c`, or `None` when the column has no
   * value (its quantiles are NaN and every comparison is false).
   */
  function ColumnFences(rows: seq<Row>, c: nat): (f: Option<Fences>)
    requires Wide(rows) && c < POLLUTANT_COUNT
    ensures f.Some? <==> Present(Column(rows, c)) != []
    ensures f.Some? ==> f.value == OutlierFences(Present(Column(rows, c)))
  {
    var vals := Present(Column(rows, c));
    if vals == [] then None else Some(OutlierFences(vals))
  }

  /** The lambda of `outliers` applied to one cell. */
  function ReplaceCell(x: Option<real>, f: Option<Fences>): Option<real> {
    match f
    case None => x
    case Some(g) => OutlierRule(x, g)
  }

  /** `df[column] = df[column].apply(...)` with the fences `f` taken once from the column. */
  function ReplaceColumn(rows: seq<Row>, c: nat, f: Option<Fences>): (r: seq<Row>)
    requires Wide(rows) && c < POLLUTANT_COUNT
    ensures |r| == |rows| && Wide(r)
    ensures forall i :: 0 <= i < |rows| ==> r[i].pollutants[c].Some? == rows[i].pollutants[c].Some?
    ensures f.Some? ==> forall i :: 0 <= i < |rows| && rows[i].pollutants[c].Some? ==>
              var v := rows[i].pollutants[c].value;
              f.value.lower <= v <= f.value.upper ==> r[i].pollutants[c] == rows[i].pollutants[c]
    ensures f.Some? && f.value.lower <= f.value.median <= f.value.upper ==>
              forall i :: 0 <= i < |rows| && r[i].pollutants[c].Some? ==>
                f.value.lower <= r[i].pollutants[c].value <= f.value.upper
    ensures forall i, d :: 0 <= i < |rows| && 0 <= d < POLLUTANT_COUNT && d != c ==>
              r[i].pollutants[d] == rows[i].pollutants[d]
    ensures forall i :: 0 <= i < |rows| ==> r[i].when == rows[i].when && r[i].wd == rows[i].wd && r[i].rest == rows[i].rest
  {
    seq(|rows|, i requires 0 <= i < |rows| => SetPollutant(rows[i], c, ReplaceCell(rows[i].pollutants[c], f)))
  }

  /** The fences of every pollutant column, in loop order. */
  function AllFences(rows: seq<Row>): (fs: seq<Option<Fences>>)
    requires Wide(rows)
    ensures |fs| == POLLUTANT_COUNT
    ensures forall c :: 0 <= c < POLLUTANT_COUNT ==> fs[c] == ColumnFences(rows, c)
  {
    seq(POLLUTANT_COUNT, c requires 0 <= c < POLLUTANT_COUNT => ColumnFences(rows, c))
  }

  /**
   * The table after the outlier loop has visited the first `k` pollutants,
   * column `c` being mapped with the fences `fs[c]`.
   */
  function ReplaceUpTo(rows: seq<Row>, fs: seq<Option<Fences>>, k: nat): (r: seq<Row>)
    requires Wide(rows) && |fs| == POLLUTANT_COUNT && k <= POLLUTANT_COUNT
    ensures |r| == |rows| && Wide(r)
  {
    if k == 0 then rows
    else ReplaceColumn(ReplaceUpTo(rows, fs, k - 1), k - 1, fs[k - 1])
  }

  /**
   * After `k` rounds of the outlier loop the first `k` columns are mapped cell
   * by cell and the other columns and fields are as they were.
   */
  lemma {:induction false} ReplaceUpToCells(rows: seq<Row>, fs: seq<Option<Fences>>, k: nat)
    requires Wide(rows) && |fs| == POLLUTANT_COUNT && k <= POLLUTANT_COUNT
    ensures forall i, c {:trigger ReplaceUpTo(rows, fs, k)[i].pollutants[c]} ::
              0 <= i < |rows| && 0 <= c < POLLUTANT_COUNT ==>
              ReplaceUpTo(rows, fs, k)[i].pollutants[c]
              == if c < k then ReplaceCell(rows[i].pollutants[c], fs[c]) else rows[i].pollutants[c]
    ensures forall i :: 0 <= i < |rows| ==>
              var r := ReplaceUpTo(rows, fs, k);
              r[i].when == rows[i].when && r[i].wd == rows[i].wd && r[i].rest == rows[i].rest
  {
    if k > 0 {
      ReplaceUpToCells(rows, fs, k - 1);
    }
  }

  /**
   * Round `k` of the outlier loop finds column `k` as it was originally, so
   * the fences and median it takes are those of the original column.
   */
  lemma ReplaceUpToKeepsLaterColumn(rows: seq<Row>, fs: seq<Option<Fences>>, k: nat)
    requires Wide(rows) && |fs| == POLLUTANT_COUNT && k < POLLUTANT_COUNT
    ensures Column(ReplaceUpTo(rows, fs, k), k) == Column(rows, k)
  {
    ReplaceUpToCells(rows, fs, k);
  }

  /** Step 5: `outliers(df, pollutant)` for each pollutant in turn. */
  function ReplaceOutliers(rows: seq<Row>): (r: seq<Row>)
    requires Wide(rows)
    ensures |r| == |rows| && Wide(r)
    ensures forall i, c :: 0 <= i < |rows| && 0 <= c < POLLUTANT_COUNT ==>
              r[i].pollutants[c].Some? == rows[i].pollutants[c].Some?
    ensures forall i :: 0 <= i < |rows| ==> r[i].when == rows[i].when && r[i].wd == rows[i].wd && r[i].rest == rows[i].rest
  {
    var fs := AllFences(rows);
    ReplaceUpToCells(rows, fs, |fs|);
    ReplaceUpTo(rows, fs, |fs|)
  }

  /**
   * After `outliers`, every known value of every pollutant column lies within
   * the fences computed from that column before replacement; a value is kept
   * exactly when it was within them, and replaced by the median otherwise;
   * missing cells stay missing.
   */
  lemma ReplaceOutliersWithinFences(rows: seq<Row>, i: nat, c: nat)
    requires Wide(rows) && i < |rows| && c < POLLUTANT_COUNT && Present(Column(rows, c)) != []
    ensures var y, f, x := ReplaceOutliers(rows)[i].pollutants[c], ColumnFences(rows, c).value, rows[i].pollutants[c];
            && |ReplaceOutliers(rows)| == |rows|
            && y.Some? == x.Some?
            && (y.Some? ==> f.lower <= y.value <= f.upper)
            && (x.Some? && f.lower <= x.value <= f.upper ==> y == x)
            && (x.Some? && !(f.lower <= x.value <= f.upper) ==> y == Some(f.median))
  {
    ReplaceUpToCells(rows, AllFences(rows), POLLUTANT_COUNT);
    OutlierRuleWithinFences(rows[i].pollutants[c], ColumnFences(rows, c).value);
  }

  /** Cell `i` of column `c` after the outlier loop, and the fields it does not touch. */
  lemma ReplaceOutliersAt(rows: seq<Row>, i: nat, c: nat)
    requires Wide(rows) && i < |rows| && c < POLLUTANT_COUNT
    ensures |ReplaceOutliers(rows)| == |rows|
    ensures ReplaceOutliers(rows)[i].pollutants[c] == ReplaceCell(rows[i].pollutants[c], ColumnFences(rows, c))
    ensures var r := ReplaceOutliers(rows)[i];
            r.when == rows[i].when && r.wd == rows[i].wd && r.rest == rows[i].rest
  {
    ReplaceUpToCells(rows, AllFences(rows), POLLUTANT_COUNT);
  }

  /** Row `i` after the outlier loop with fences `fs`: each pollutant cell mapped with its column's fences. */
  lemma ReplaceUpToRow(rows: seq<Row>, fs: seq<Option<Fences>>, i: nat)
    requires Wide(rows) && |fs| == POLLUTANT_COUNT && i < |rows|
    ensures ReplaceUpTo(rows, fs, POLLUTANT_COUNT)[i]
            == rows[i].(pollutants := seq(POLLUTANT_COUNT, d requires 0 <= d < POLLUTANT_COUNT =>
                                            ReplaceCell(rows[i].pollutants[d], fs[d])))
  {
    ReplaceUpToCells(rows, fs, POLLUTANT_COUNT);
    var p := seq(POLLUTANT_COUNT, d requires 0 <= d < POLLUTANT_COUNT => ReplaceCell(rows[i].pollutants[d], fs[d]));
    assert ReplaceUpTo(rows, fs, POLLUTANT_COUNT)[i].pollutants == p;
  }

  /** Rows mapped one by one with the rule and the fences `f` are the replaced column. */
  lemma ReplaceColumnByRule(before: seq<Row>, after: seq<Row>, c: nat, f: Fences)
    requires Wide(before) && c < POLLUTANT_COUNT && |after| == |before|
    requires forall k :: 0 <= k < |before| ==>
               after[k] == SetPollutant(before[k], c, OutlierRule(before[k].pollutants[c], f))
    ensures after == ReplaceColumn(before, c, Some(f))
  {
  }

  /** Without fences (a column with no value) `outliers` changes nothing. */
  lemma ReplaceColumnWithoutFences(rows: seq<Row>, c: nat)
    requires Wide(rows) && c < POLLUTANT_COUNT
    ensures ReplaceColumn(rows, c, None) == rows
  {
    forall i | 0 <= i < |rows|
      ensures ReplaceColumn(rows, c, None)[i] == rows[i]
    {
      assert rows[i].pollutants[c := rows[i].pollutants[c]] == rows[i].pollutants;
    }
  }

  /** `outliers` keeps a table well-formed. */
  lemma ReplaceColumnWellFormed(t: Table, c: nat, f: Option<Fences>)
    requires WellFormed(t) && c < POLLUTANT_COUNT
    ensures WellFormed(t.(rows := ReplaceColumn(t.rows, c, f)))
  {
    var u := t.(rows := ReplaceColumn(t.rows, c, f));
    forall i | 0 <= i < |u.rows|
      ensures RowFits(u.rows[i], u.dated, u.hasWd)
    {
      assert RowFits(t.rows[i], t.dated, t.hasWd);
    }
  }

  /** The column -10, 0, 0, 0, 10 has Q1 = Q3 = median = 0, so both fences are 0. */
  lemma DegenerateFences(col: seq<real>)
    requires col == [-10.0, 0.0, 0.0, 0.0, 10.0]
    ensures OutlierFences(col) == Fences(0.0, 0.0, 0.0)
  {
    assert Sort(col) == col by {
      assert Sorted(col);
      SortedUnique(Sort(col), col);
    }
    QuartilesOfFive(col);
  }

  /** The present values of a column without missing cells are the column's values. */
  lemma {:induction false} PresentOfAllSome(col: seq<Option<real>>)
    requires forall i :: 0 <= i < |col| ==> col[i].Some?
    ensures Present(col) == seq(|col|, i requires 0 <= i < |col| => col[i].value)
  {
    if col != [] {
      PresentOfAllSome(col[1..]);
    }
  }

  /** The rows of the example below. */
  predicate SkewedRows(rows: seq<Row>) {
    rows == [
      Row([Some(-10.0), None, None, None, None, None], DateTime(Timestamp(0)), None, []),
      Row([Some(0.0), None, None, None, None, None], DateTime(Timestamp(0)), None, [Number(1.0)]),
      Row([Some(0.0), None, None, None, None, None], DateTime(Timestamp(0)), None, [Number(2.0)]),
      Row([Some(0.0), None, None, None, None, None], DateTime(Timestamp(0)), None, [Number(3.0)]),
      Row([Some(10.0), None, None, None, None, None], DateTime(Timestamp(0)), None, [])]
  }

  lemma SkewedRowsDistinct(rows: seq<Row>)
    requires SkewedRows(rows)
    ensures NoDuplicates(rows)
  {
  }

  lemma SkewedShape(rows: seq<Row>)
    requires SkewedRows(rows)
    ensures Wide(rows) && SameButColumn(rows[0], rows[4], 0)
    ensures rows[0].pollutants[0] == Some(-10.0) && rows[4].pollutants[0] == Some(10.0)
  {
  }

  lemma SkewedFirstColumn(rows: seq<Row>)
    requires SkewedRows(rows)
    ensures Wide(rows) && ColumnFences(rows, 0) == Some(Fences(0.0, 0.0, 0.0))
  {
    var c0 := Column(rows, 0);
    assert c0 == [Some(-10.0), Some(0.0), Some(0.0), Some(0.0), Some(10.0)];
    PresentOfAllSome(c0);
    DegenerateFences(Present(c0));
  }

  // ---------------------------------------------------------------------
  // Step 4 and the whole pipeline.

  /** `df.drop_duplicates()`: keep the rows that have no equal row before them. */
  function DropDuplicates(t: Table): (u: Table)
    requires WellFormed(t)
    ensures WellFormed(u) && u.dated == t.dated && u.hasWd == t.hasWd
  {
    var r := KeepFirst(t.rows);
    assert forall i :: 0 <= i < |r| ==> r[i] in t.rows;
    t.(rows := r)
  }

  /** The table `clean_air_quality_data` leaves behind, and the error it raised if any. */
  datatype Outcome = Outcome(table: Table, error: Option<CleanError>)

  /** Step 1 on a table. */
  function Filled(t: Table): (u: Table)
    requires WellFormed(t) && AllColumnsObserved(t.rows)
    ensures WellFormed(u) && u.dated == t.dated && u.hasWd == t.hasWd && |u.rows| == |t.rows|
    ensures forall i :: 0 <= i < |t.rows| ==>
              u.rows[i].when == t.rows[i].when && u.rows[i].wd == t.rows[i].wd && u.rows[i].rest == t.rows[i].rest
  {
    FillMissingSpec(t.rows);
    t.(rows := FillMissing(t.rows))
  }

  /**
   * Steps 1 to 4. A failing step leaves the table as the steps before it
   * made it: the fill is done in place before the conversion can fail.
   */
  function Prepare(t: Table): (o: Outcome)
    requires WellFormed(t) && AllColumnsObserved(t.rows)
    ensures WellFormed(o.table)
    ensures o.error.Some? ==> |o.table.rows| == |t.rows|
    ensures o.error.None? ==> o.table.dated && NoDuplicates(o.table.rows) && |o.table.rows| <= |t.rows|
  {
    var filled := Filled(t);
    match ConvertDates(filled)
    case Err(e) => Outcome(filled, Some(e))
    case Ok(stamped) =>
      match FillWind(stamped)
      case Err(e) => Outcome(stamped, Some(e))
      case Ok(windy) => Outcome(DropDuplicates(windy), None)
  }

  /** `clean_air_quality_data(df)`: steps 1 to 4, then `outliers` for each pollutant in turn. */
  function CleanRun(t: Table): (o: Outcome)
    requires WellFormed(t) && AllColumnsObserved(t.rows)
    ensures o.error == Prepare(t).error
  {
    var p := Prepare(t);
    if p.error.Some? then p
    else Outcome(p.table.(rows := ReplaceOutliers(p.table.rows)), None)
  }

  /** The known wind directions depend on the `wd` cells only. */
  lemma {:induction false} PresentWdOfSameWd(a: seq<Row>, b: seq<Row>)
    requires |a| == |b| && forall i :: 0 <= i < |a| ==> a[i].wd == b[i].wd
    ensures PresentWd(a) == PresentWd(b)
  {
    if a != [] {
      PresentWdOfSameWd(a[1..], b[1..]);
    }
  }

  /** The run fails with a `KeyError` exactly when the time fields are already gone. */
  lemma CleanFailsWithoutTimeFields(t: Table)
    requires WellFormed(t) && AllColumnsObserved(t.rows)
    ensures CleanRun(t).error == Some(MissingDateColumns) <==> t.dated
  {
  }

  /** The run fails in the conversion exactly when some row's fields are not a valid, representable date. */
  lemma CleanFailsOnBadDate(t: Table)
    requires WellFormed(t) && AllColumnsObserved(t.rows)
    ensures (CleanRun(t).error.Some? && CleanRun(t).error.value.BadDate?) <==>
              !t.dated && exists i :: 0 <= i < |t.rows| && ToTimestamp(t.rows[i].when.parts).Err?
  {
    var filled := Filled(t);
    if t.dated {
      assert ConvertDates(filled) == Err(MissingDateColumns);
    } else {
      StampRowsSpec(filled.rows);
      assert forall i :: 0 <= i < |t.rows| ==> filled.rows[i].when == t.rows[i].when;
    }
  }

  /**
   * The run fails at the mode lookup exactly when the dates convert and a `wd`
   * column exists but holds no direction.
   */
  lemma CleanFailsWithoutDirections(t: Table)
    requires WellFormed(t) && AllColumnsObserved(t.rows)
    ensures CleanRun(t).error == Some(NoWindMode) <==>
              && !t.dated && (forall i :: 0 <= i < |t.rows| ==> ToTimestamp(t.rows[i].when.parts).Ok?)
              && t.hasWd && PresentWd(t.rows) == []
  {
    var filled := Filled(t);
    if !t.dated {
      ConvertDatesOutcome(filled);
      if ConvertDates(filled).Ok? {
        PresentWdOfSameWd(ConvertDates(filled).value.rows, t.rows);
      }
    }
  }

  /** The table after steps 1 to 3, or the error of the step that failed. */
  function Windy(t: Table): (r: Result<Table, CleanError>)
    requires WellFormed(t) && AllColumnsObserved(t.rows)
    ensures r.Ok? ==> !t.dated && WellFormed(r.value)
  {
    match ConvertDates(Filled(t))
    case Err(e) => Err(e)
    case Ok(stamped) => FillWind(stamped)
  }

  /** Step 4 runs exactly when steps 1 to 3 succeed, on the table they produce. */
  lemma PrepareAfterWindy(t: Table)
    requires WellFormed(t) && AllColumnsObserved(t.rows)
    ensures Prepare(t).error.None? <==> Windy(t).Ok?
    ensures Windy(t).Ok? ==> Prepare(t).table == DropDuplicates(Windy(t).value)
  {
  }

  /**
   * `w` is `t` after steps 1 to 3: row `i` is input row `i` dated, with no
   * missing pollutant and, with a `wd` column, a direction that was known before.
   */
  predicate StagedFrom(t: Table, w: Table)
    requires WellFormed(t) && !t.dated && WellFormed(w)
  {
    && w.dated && w.hasWd == t.hasWd && |w.rows| == |t.rows| && NoMissingPollutants(w.rows)
    && forall i :: 0 <= i < |t.rows| ==>
         && (w.hasWd ==> w.rows[i].wd.Some? && w.rows[i].wd.value in PresentWd(t.rows))
         && w.rows[i].rest == t.rows[i].rest
         && Decompose(w.rows[i].when.at) == t.rows[i].when.parts
  }

  /** Steps 1 to 3, when they succeed, stage the table as `StagedFrom` says. */
  lemma WindySpec(t: Table)
    requires WellFormed(t) && AllColumnsObserved(t.rows) && Windy(t).Ok?
    ensures StagedFrom(t, Windy(t).value)
  {
    StampedSpec(t);
    StagedOfStamped(t, ConvertDates(Filled(t)).value);
  }

  /**
   * `s` is `t` after steps 1 and 2: row `i` is input row `i` with its
   * pollutants filled and its time converted.
   */
  predicate StampedFrom(t: Table, s: Table)
    requires WellFormed(t) && !t.dated && WellFormed(s)
  {
    && s.dated && s.hasWd == t.hasWd && |s.rows| == |t.rows| && NoMissingPollutants(s.rows)
    && forall i :: 0 <= i < |t.rows| ==>
         && s.rows[i].wd == t.rows[i].wd && s.rows[i].rest == t.rows[i].rest
         && Decompose(s.rows[i].when.at) == t.rows[i].when.parts
  }

  /** Steps 1 and 2, when they succeed, stamp the table as `StampedFrom` says. */
  lemma StampedSpec(t: Table)
    requires WellFormed(t) && AllColumnsObserved(t.rows) && ConvertDates(Filled(t)).Ok?
    ensures !t.dated && StampedFrom(t, ConvertDates(Filled(t)).value)
  {
    var filled := Filled(t);
    FillMissingSpec(t.rows);
    ConvertDatesRoundTrip(filled);
  }

  /** Filling the directions of a stamped table, with the mode of its known directions, stages it. */
  lemma StagedOfStamped(t: Table, s: Table)
    requires WellFormed(t) && !t.dated && WellFormed(s) && StampedFrom(t, s) && FillWind(s).Ok?
    ensures StagedFrom(t, FillWind(s).value)
  {
    PresentWdOfSameWd(s.rows, t.rows);
    FillWindSpec(s);
    var w := FillWind(s).value;
    forall i | 0 <= i < |t.rows|
      ensures w.hasWd ==> w.rows[i].wd.Some? && w.rows[i].wd.value in PresentWd(t.rows)
    {
      if t.hasWd {
        var v := w.rows[i].wd.value;
        if s.rows[i].wd.None? {
          assert v == Mode(PresentWd(s.rows));
        } else {
          assert t.rows[i].wd == Some(v);
        }
      }
    }
    assert NoMissingPollutants(w.rows) by {
      assert forall i :: 0 <= i < |w.rows| ==> w.rows[i].pollutants == s.rows[i].pollutants;
    }
  }

  /**
   * Duplicate removal keeps a non-empty table non-empty, leaves no two equal
   * rows, does not grow the table, and keeps only rows of its input.
   */
  lemma DropDuplicatesSpec(t: Table)
    requires WellFormed(t)
    ensures var u := DropDuplicates(t);
            && (t.rows != [] ==> u.rows != []) && |u.rows| <= |t.rows| && NoDuplicates(u.rows)
            && forall i :: 0 <= i < |u.rows| ==> exists j :: 0 <= j < |t.rows| && u.rows[i] == t.rows[j]
  {
    var u := DropDuplicates(t);
    if t.rows != [] {
      assert t.rows[0] in u.rows;
    }
    forall i | 0 <= i < |u.rows|
      ensures exists j :: 0 <= j < |t.rows| && u.rows[i] == t.rows[j]
    {
      assert u.rows[i] in t.rows;
    }
  }

  /**
   * What a successful run of steps 1 to 4 guarantees: the table is dated, has
   * no missing pollutant and, with a `wd` column, no missing direction, each
   * direction being one that was known before; it has no duplicate rows, is
   * not empty and no longer than the input; and every row is an input row
   * with its filled and converted cells.
   */
  predicate PreparedFrom(t: Table, p: Table)
    requires WellFormed(t) && !t.dated && WellFormed(p)
  {
    && p.dated && p.hasWd == t.hasWd && 0 < |p.rows| <= |t.rows|
    && NoDuplicates(p.rows) && NoMissingPollutants(p.rows)
    && (p.hasWd ==> forall i :: 0 <= i < |p.rows| ==> p.rows[i].wd.Some? && p.rows[i].wd.value in PresentWd(t.rows))
    && forall i :: 0 <= i < |p.rows| ==>
         exists j :: 0 <= j < |t.rows| && p.rows[i].rest == t.rows[j].rest
                     && Decompose(p.rows[i].when.at) == t.rows[j].when.parts
  }

  /** Removing duplicates from a staged, non-empty table gives a prepared one. */
  lemma DropDuplicatesOfStaged(t: Table, w: Table)
    requires WellFormed(t) && !t.dated && WellFormed(w) && StagedFrom(t, w) && t.rows != []
    ensures PreparedFrom(t, DropDuplicates(w))
  {
    DropDuplicatesSpec(w);
    var p := DropDuplicates(w);
    forall i | 0 <= i < |p.rows|
      ensures forall c :: 0 <= c < POLLUTANT_COUNT ==> p.rows[i].pollutants[c].Some?
      ensures p.hasWd ==> p.rows[i].wd.Some? && p.rows[i].wd.value in PresentWd(t.rows)
      ensures exists j :: 0 <= j < |t.rows| && p.rows[i].rest == t.rows[j].rest
                          && Decompose(p.rows[i].when.at) == t.rows[j].when.parts
    {
      var j :| 0 <= j < |w.rows| && p.rows[i] == w.rows[j];
    }
  }

  /** A successful run of steps 1 to 4 prepares the table as `PreparedFrom` says. */
  lemma PrepareSpec(t: Table)
    requires WellFormed(t) && AllColumnsObserved(t.rows) && Prepare(t).error.None?
    ensures !t.dated && PreparedFrom(t, Prepare(t).table)
  {
    PrepareAfterWindy(t);
    WindySpec(t);
    assert t.rows != [] by {
      assert Present(Column(t.rows, 0)) != [];
    }
    DropDuplicatesOfStaged(t, Windy(t).value);
  }

  /**
   * The outlier loop on a table without missing pollutants: the row count and
   * every field but the pollutants are unchanged, nothing becomes missing, and
   * every value lies within the fences of its column before the loop.
   */
  lemma ReplaceOutliersSpec(rows: seq<Row>)
    requires Wide(rows) && rows != [] && NoMissingPollutants(rows)
    ensures var r := ReplaceOutliers(rows);
            && |r| == |rows| && Wide(r) && NoMissingPollutants(r)
            && (forall c :: 0 <= c < POLLUTANT_COUNT ==> ColumnFences(rows, c).Some?)
            && (forall i, c :: 0 <= i < |rows| && 0 <= c < POLLUTANT_COUNT ==>
                  ColumnFences(rows, c).value.lower <= r[i].pollutants[c].value <= ColumnFences(rows, c).value.upper)
            && forall i :: 0 <= i < |rows| ==>
                 r[i].when == rows[i].when && r[i].wd == rows[i].wd && r[i].rest == rows[i].rest
  {
    forall c | 0 <= c < POLLUTANT_COUNT
      ensures Present(Column(rows, c)) != []
    {
      PresentOfObserved(Column(rows, c), 0);
    }
    forall i, c | 0 <= i < |rows| && 0 <= c < POLLUTANT_COUNT
      ensures ReplaceOutliers(rows)[i].pollutants[c].Some?
      ensures ColumnFences(rows, c).value.lower <= ReplaceOutliers(rows)[i].pollutants[c].value <= ColumnFences(rows, c).value.upper
    {
      ReplaceOutliersWithinFences(rows, i, c);
    }
    ReplaceUpToCells(rows, AllFences(rows), POLLUTANT_COUNT);
  }

  /**
   * `u` is the prepared table `p` after the outlier loop: dated, keeping the
   * `wd` column if `t` had one, as long as `p`, which has no duplicate rows
   * and is no longer than `t`; no pollutant or direction is missing, and every
   * pollutant value lies within the fences computed from its column of `p`.
   */
  predicate CleanedFrom(t: Table, p: Table, u: Table)
    requires Wide(p.rows) && WellFormed(u)
  {
    && u.dated && u.hasWd == t.hasWd
    && |u.rows| == |p.rows| <= |t.rows| && NoDuplicates(p.rows)
    && NoMissingPollutants(u.rows)
    && (u.hasWd ==> forall i :: 0 <= i < |u.rows| ==> u.rows[i].wd.Some?)
    && (forall c :: 0 <= c < POLLUTANT_COUNT ==> ColumnFences(p.rows, c).Some?)
    && forall i, c :: 0 <= i < |u.rows| && 0 <= c < POLLUTANT_COUNT ==>
         ColumnFences(p.rows, c).value.lower <= u.rows[i].pollutants[c].value <= ColumnFences(p.rows, c).value.upper
  }

  /** A successful run cleans the table as `CleanedFrom` says, `p` being the table after steps 1 to 4. */
  lemma CleanGuarantees(t: Table)
    requires WellFormed(t) && AllColumnsObserved(t.rows) && CleanRun(t).error.None?
    ensures WellFormed(CleanRun(t).table)
    ensures CleanedFrom(t, Prepare(t).table, CleanRun(t).table)
  {
    PrepareSpec(t);
    CleanRunAfterPrepare(t);
    CleanedOfPrepared(t, Prepare(t).table);
  }

  /** The outlier loop cleans a prepared table. */
  lemma CleanedOfPrepared(t: Table, p: Table)
    requires WellFormed(t) && !t.dated && WellFormed(p) && PreparedFrom(t, p)
    ensures WellFormed(p.(rows := ReplaceOutliers(p.rows)))
    ensures CleanedFrom(t, p, p.(rows := ReplaceOutliers(p.rows)))
  {
    ReplaceOutliersOnTable(p);
  }

  /** Step 5 runs on the table steps 1 to 4 produce. */
  lemma CleanRunAfterPrepare(t: Table)
    requires WellFormed(t) && AllColumnsObserved(t.rows) && CleanRun(t).error.None?
    ensures var p := Prepare(t).table;
            CleanRun(t).table == p.(rows := ReplaceOutliers(p.rows))
  {
  }

  /** The outlier loop on a well-formed table without missing pollutants keeps it well-formed. */
  lemma ReplaceOutliersOnTable(p: Table)
    requires WellFormed(p) && p.rows != [] && NoMissingPollutants(p.rows)
    ensures var u := p.(rows := ReplaceOutliers(p.rows));
            && WellFormed(u) && |u.rows| == |p.rows| && NoMissingPollutants(u.rows)
            && (p.hasWd ==> forall i :: 0 <= i < |u.rows| ==> u.rows[i].wd == p.rows[i].wd)
            && (forall c :: 0 <= c < POLLUTANT_COUNT ==> ColumnFences(p.rows, c).Some?)
            && forall i, c :: 0 <= i < |u.rows| && 0 <= c < POLLUTANT_COUNT ==>
                 ColumnFences(p.rows, c).value.lower <= u.rows[i].pollutants[c].value <= ColumnFences(p.rows, c).value.upper
  {
    ReplaceOutliersSpec(p.rows);
    var u := p.(rows := ReplaceOutliers(p.rows));
    forall i | 0 <= i < |u.rows|
      ensures RowFits(u.rows[i], u.dated, u.hasWd)
    {
      assert RowFits(p.rows[i], p.dated, p.hasWd);
    }
  }

  /**
   * The cleaned table no longer has year, month, day and hour, so cleaning it
   * again fails with a `KeyError` right after filling: the pipeline is not
   * idempotent.
   */
  lemma CleanTwiceFails(t: Table)
    requires WellFormed(t) && AllColumnsObserved(t.rows) && CleanRun(t).error.None?
    ensures WellFormed(CleanRun(t).table) && AllColumnsObserved(CleanRun(t).table.rows)
    ensures CleanRun(CleanRun(t).table).error == Some(MissingDateColumns)
  {
    CleanGuarantees(t);
    var u := CleanRun(t).table;
    assert u.rows != [];
    forall c | 0 <= c < POLLUTANT_COUNT
      ensures Present(Column(u.rows, c)) != []
    {
      PresentOfObserved(Column(u.rows, c), 0);
    }
    CleanFailsWithoutTimeFields(u);
  }

  /** Rows `a` and `b` agree in every field and every pollutant except pollutant `c`. */
  predicate SameButColumn(a: Row, b: Row, c: nat)
    requires |a.pollutants| == POLLUTANT_COUNT == |b.pollutants|
  {
    && (forall d :: 0 <= d < POLLUTANT_COUNT && d != c ==> a.pollutants[d] == b.pollutants[d])
    && a.when == b.when && a.wd == b.wd && a.rest == b.rest
  }

  /**
   * Two rows that agree everywhere except in column `c`, where both values lie
   * outside that column's fences, are equal after the outlier loop: both
   * outliers become the same median.
   */
  lemma OutliersMerge(rows: seq<Row>, fs: seq<Option<Fences>>, i: nat, j: nat, c: nat)
    requires Wide(rows) && |fs| == POLLUTANT_COUNT && i < |rows| && j < |rows| && c < POLLUTANT_COUNT
    requires SameButColumn(rows[i], rows[j], c)
    requires fs[c].Some?
    requires var f := fs[c].value;
             && rows[i].pollutants[c].Some? && !(f.lower <= rows[i].pollutants[c].value <= f.upper)
             && rows[j].pollutants[c].Some? && !(f.lower <= rows[j].pollutants[c].value <= f.upper)
    ensures ReplaceUpTo(rows, fs, POLLUTANT_COUNT)[i] == ReplaceUpTo(rows, fs, POLLUTANT_COUNT)[j]
  {
    ReplaceUpToRow(rows, fs, i);
    ReplaceUpToRow(rows, fs, j);
    var pi := seq(POLLUTANT_COUNT, d requires 0 <= d < POLLUTANT_COUNT => ReplaceCell(rows[i].pollutants[d], fs[d]));
    var pj := seq(POLLUTANT_COUNT, d requires 0 <= d < POLLUTANT_COUNT => ReplaceCell(rows[j].pollutants[d], fs[d]));
    assert pi == pj;
  }

  /**
   * So two distinct rows of that shape make the table after the outlier loop
   * contain a duplicate.
   */
  lemma OutliersMergeRows(rows: seq<Row>, i: nat, j: nat, c: nat)
    requires Wide(rows) && i < j < |rows| && c < POLLUTANT_COUNT
    requires SameButColumn(rows[i], rows[j], c)
    requires ColumnFences(rows, c).Some?
    requires var f := ColumnFences(rows, c).value;
             && rows[i].pollutants[c].Some? && !(f.lower <= rows[i].pollutants[c].value <= f.upper)
             && rows[j].pollutants[c].Some? && !(f.lower <= rows[j].pollutants[c].value <= f.upper)
    ensures !NoDuplicates(ReplaceOutliers(rows))
  {
    OutliersMerge(rows, AllFences(rows), i, j, c);
  }

  /**
   * Duplicate removal comes before outlier replacement, so replacing two
   * outliers of one column by the median can make two rows equal again.
   */
  lemma OutliersCanRecreateDuplicates(rows: seq<Row>)
    requires SkewedRows(rows)
    ensures NoDuplicates(rows)
    ensures !NoDuplicates(ReplaceOutliers(rows))
  {
    SkewedRowsDistinct(rows);
    SkewedShape(rows);
    SkewedFirstColumn(rows);
    OutliersMergeRows(rows, 0, 4, 0);
  }
}
