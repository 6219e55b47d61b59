/**
 * `clean_air_quality_data` and `outliers` as they run: each step changes one
 * station's table in place. `StationTable` holds the rows in an array, and
 * each method is proved to leave exactly the table that the corresponding
 * function of `Frame` describes.
 */
module Cleaning {
  import opened Wrappers
  import opened Stats
  import opened Calendar
  import opened Distinct
  import opened Frame

  class StationTable {
    var rows: array<Row>
    /** `date_time` has replaced year, month, day and hour. */
    var dated: bool
    /** The table has a `wd` column. */
    var hasWd: bool

    /** The table this object holds. */
    ghost function Model(): Table
      reads this, rows
    {
      Table(dated, hasWd, rows[..])
    }

    ghost predicate Valid()
      reads this, rows
    {
      WellFormed(Model())
    }

    /** A table as `pd.read_csv` loads it. */
    constructor (t: Table)
      requires WellFormed(t)
      ensures Valid() && Model() == t && fresh(rows)
    {
      rows := new Row[|t.rows|](i requires 0 <= i < |t.rows| => t.rows[i]);
      dated := t.dated;
      hasWd := t.hasWd;
    }

    /**
     * Step 1: for each pollutant in turn, `df[col].fillna(df[col].median(), inplace=True)`.
     * The median is taken when the column is reached; earlier rounds touch
     * other columns only, so it is the median of the column as loaded.
     */
    method FillMissingPollutants()
      requires Valid() && AllColumnsObserved(rows[..])
      modifies rows
      ensures Model() == Filled(old(Model()))
    {
      ghost var orig := rows[..];
      ghost var ms := Medians(orig);
      var c := 0;
      while c < POLLUTANT_COUNT
        invariant 0 <= c <= POLLUTANT_COUNT
        invariant rows[..] == FillUpTo(orig, ms, c)
      {
        FillUpToKeepsLaterColumn(orig, ms, c);
        var m := Median(Present(Column(rows[..], c)));
        assert m == ms[c];
        ghost var before := rows[..];
        FillColumnWith(c, m);
        assert rows[..] == FillColumn(before, c, ms[c]) == FillUpTo(orig, ms, c + 1);
        c := c + 1;
      }
    }

    /** `df[col].fillna(m, inplace=True)` for pollutant column `c`. */
    method FillColumnWith(c: nat, m: real)
      requires Wide(rows[..]) && c < POLLUTANT_COUNT
      modifies rows
      ensures rows[..] == FillColumn(old(rows[..]), c, m)
    {
      ghost var before := rows[..];
      var i := 0;
      while i < rows.Length
        invariant 0 <= i <= rows.Length
        invariant forall k :: 0 <= k < i ==> rows[k] == SetPollutant(before[k], c, FillCell(before[k].pollutants[c], m))
        invariant forall k :: i <= k < rows.Length ==> rows[k] == before[k]
      {
        if rows[i].pollutants[c].None? {
          rows[i] := SetPollutant(rows[i], c, Some(m));
        }
        i := i + 1;
      }
      assert rows[..] == FillColumn(before, c, m);
    }

    /**
     * The instants of all rows, or the error of the first row whose fields do
     * not form a representable date: what `pd.to_datetime` computes before
     * anything is assigned.
     */
    method ComputeInstants() returns (r: Result<seq<Timestamp>, DateError>)
      requires Undated(rows[..])
      ensures r.Err? ==> StampRows(rows[..]) == Err(r.error)
      ensures r.Ok? ==> StampRows(rows[..]).Ok?
      ensures r.Ok? ==> |r.value| == rows.Length
      ensures r.Ok? ==> forall k :: 0 <= k < rows.Length ==> ToTimestamp(rows[k].when.parts) == Ok(r.value[k])
    {
      var stamps: seq<Timestamp> := [];
      var i := 0;
      while i < rows.Length
        invariant 0 <= i <= rows.Length && |stamps| == i
        invariant forall k :: 0 <= k < i ==> ToTimestamp(rows[k].when.parts) == Ok(stamps[k])
      {
        var at := ToTimestamp(rows[i].when.parts);
        if at.Err? {
          StampRowsFirstError(rows[..], i);
          return Err(at.error);
        }
        stamps := stamps + [at.value];
        i := i + 1;
      }
      StampRowsSpec(rows[..]);
      return Ok(stamps);
    }

    /**
     * Step 2: `df['date_time'] = pd.to_datetime(...)`, then the four fields
     * are dropped. The conversion of the whole column happens before either
     * assignment, so a failure leaves the table as it was.
     */
    method ConvertDateTime() returns (err: Option<CleanError>)
      requires Valid()
      modifies this, rows
      ensures rows == old(rows)
      ensures ConvertDates(old(Model())).Err? ==>
                err == Some(ConvertDates(old(Model())).error) && Model() == old(Model())
      ensures ConvertDates(old(Model())).Ok? ==>
                err.None? && Model() == ConvertDates(old(Model())).value
    {
      if dated {
        return Some(MissingDateColumns);
      }
      ghost var orig := rows[..];
      assert Undated(orig) by {
        assert forall k :: 0 <= k < |orig| ==> RowFits(orig[k], false, hasWd);
      }
      var instants := ComputeInstants();
      if instants.Err? {
        return Some(BadDate(instants.error));
      }
      StampAll(instants.value);
      StampRowsSpec(orig);
      assert rows[..] == StampRows(orig).value;
      dated := true;
      err := None;
    }

    /** Replace every row's time fields by its instant in `stamps`. */
    method StampAll(stamps: seq<Timestamp>)
      requires |stamps| == rows.Length
      modifies rows
      ensures forall k :: 0 <= k < rows.Length ==> rows[k] == Stamped(old(rows[k]), stamps[k])
    {
      var i := 0;
      while i < rows.Length
        invariant 0 <= i <= rows.Length
        invariant forall k :: 0 <= k < i ==> rows[k] == Stamped(old(rows[k]), stamps[k])
        invariant forall k :: i <= k < rows.Length ==> rows[k] == old(rows[k])
      {
        rows[i] := Stamped(rows[i], stamps[i]);
        i := i + 1;
      }
    }

    /**
     * Step 3: when the table has a `wd` column,
     * `df['wd'] = df['wd'].fillna(df['wd'].mode()[0])`; with no known
     * direction the lookup `[0]` fails and nothing changes.
     */
    method FillWindDirection() returns (err: Option<CleanError>)
      requires Valid()
      modifies rows
      ensures FillWind(old(Model())).Err? ==>
                err == Some(FillWind(old(Model())).error) && Model() == old(Model())
      ensures FillWind(old(Model())).Ok? ==>
                err.None? && Model() == FillWind(old(Model())).value
    {
      if !hasWd {
        return None;
      }
      var i := 0;
      while i < rows.Length && rows[i].wd.None?
        invariant 0 <= i <= rows.Length
        invariant forall k :: 0 <= k < i ==> rows[k].wd.None?
      {
        i := i + 1;
      }
      if i == rows.Length {
        PresentWdNone(rows[..]);
        return Some(NoWindMode);
      }
      assert rows[..][i].wd.value in PresentWd(rows[..]);
      var mode := Mode(PresentWd(rows[..]));
      FillWdWith(mode);
      err := None;
    }

    /** `df['wd'].fillna(mode)`: every missing direction becomes `mode`. */
    method FillWdWith(mode: string)
      modifies rows
      ensures forall k :: 0 <= k < rows.Length ==> rows[k] == old(rows[k]).(wd := Some(old(rows[k]).wd.GetOr(mode)))
    {
      var i := 0;
      while i < rows.Length
        invariant 0 <= i <= rows.Length
        invariant forall k :: 0 <= k < i ==> rows[k] == old(rows[k]).(wd := Some(old(rows[k]).wd.GetOr(mode)))
        invariant forall k :: i <= k < rows.Length ==> rows[k] == old(rows[k])
      {
        if rows[i].wd.None? {
          rows[i] := rows[i].(wd := Some(mode));
        }
        i := i + 1;
      }
    }

    /** Step 4: `df.drop_duplicates(inplace=True)`, keeping the first of equal rows. */
    method DropDuplicates()
      requires Valid()
      modifies this
      ensures fresh(rows)
      ensures Model() == Frame.DropDuplicates(old(Model()))
    {
      var kept: seq<Row> := [];
      var i := 0;
      while i < rows.Length
        invariant 0 <= i <= rows.Length
        invariant kept == KeepFirst(rows[..i])
      {
        assert rows[..i + 1][..i] == rows[..i];
        if rows[i] !in kept {
          kept := kept + [rows[i]];
        }
        i := i + 1;
      }
      assert rows[..rows.Length] == rows[..];
      rows := new Row[|kept|](k requires 0 <= k < |kept| => kept[k]);
    }

    /**
     * `outliers(df, column)` for pollutant column `c`: the quartiles, bounds
     * and median (`OutlierFences`) are taken from the column once, then every
     * value outside the bounds becomes the median. A missing value, and every
     * value of a column without any, compares false and stays.
     */
    method Outliers(c: nat)
      requires Valid() && c < POLLUTANT_COUNT
      modifies rows
      ensures Valid()
      ensures rows[..] == ReplaceColumn(old(rows[..]), c, ColumnFences(old(rows[..]), c))
    {
      ghost var orig := rows[..];
      ReplaceColumnWellFormed(Model(), c, ColumnFences(orig, c));
      var vals := Present(Column(rows[..], c));
      if vals == [] {
        ReplaceColumnWithoutFences(orig, c);
        return;
      }
      var f := OutlierFences(vals);
      ReplaceOutside(c, f.lower, f.upper, f.median);
      ReplaceColumnByRule(orig, rows[..], c, f);
    }

    /** The lambda of `outliers` over column `c`: a value outside `lower`..`upper` becomes `median`. */
    method ReplaceOutside(c: nat, lower: real, upper: real, median: real)
      requires Wide(rows[..]) && c < POLLUTANT_COUNT
      modifies rows
      ensures forall k :: 0 <= k < rows.Length ==>
                rows[k] == SetPollutant(old(rows[k]), c, OutlierRule(old(rows[k]).pollutants[c], Fences(lower, upper, median)))
    {
      ghost var before := rows[..];
      var i := 0;
      while i < rows.Length
        invariant 0 <= i <= rows.Length
        invariant forall k :: 0 <= k < i ==>
                    rows[k] == SetPollutant(before[k], c, OutlierRule(before[k].pollutants[c], Fences(lower, upper, median)))
        invariant forall k :: i <= k < rows.Length ==> rows[k] == before[k]
      {
        var x := rows[i].pollutants[c];
        if x.Some? && (x.value < lower || x.value > upper) {
          rows[i] := SetPollutant(rows[i], c, Some(median));
        }
        i := i + 1;
      }
    }

    /** Steps 1 to 4; the first step that fails stops and keeps the changes made before it. */
    method Prepare() returns (err: Option<CleanError>)
      requires Valid() && AllColumnsObserved(rows[..])
      modifies this, rows
      ensures Model() == Frame.Prepare(old(Model())).table
      ensures err == Frame.Prepare(old(Model())).error
      ensures err.None? ==> fresh(rows)
      ensures err.Some? ==> rows == old(rows)
    {
      FillMissingPollutants();
      err := ConvertDateTime();
      if err.Some? {
        return;
      }
      err := FillWindDirection();
      if err.Some? {
        return;
      }
      DropDuplicates();
    }

    /**
     * `clean_air_quality_data(df)`: steps 1 to 4, then `outliers` for each
     * pollutant in turn. The first step that fails stops the run and the
     * table keeps the changes made before it.
     */
    method Clean() returns (err: Option<CleanError>)
      requires Valid() && AllColumnsObserved(rows[..])
      modifies this, rows
      ensures Model() == CleanRun(old(Model())).table
      ensures err == CleanRun(old(Model())).error
    {
      ghost var t := Model();
      err := Prepare();
      if err.Some? {
        return;
      }
      OutliersForEachPollutant();
      CleanRunAfterPrepare(t);
    }

    /** `for pollutant in pollutants: outliers(df, pollutant)`. */
    method OutliersForEachPollutant()
      requires Valid()
      modifies rows
      ensures Valid()
      ensures rows[..] == ReplaceOutliers(old(rows[..]))
    {
      ghost var orig := rows[..];
      ghost var fs := AllFences(orig);
      var c := 0;
      while c < POLLUTANT_COUNT
        invariant 0 <= c <= POLLUTANT_COUNT
        invariant Valid()
        invariant rows[..] == ReplaceUpTo(orig, fs, c)
      {
        ReplaceUpToKeepsLaterColumn(orig, fs, c);
        ghost var before := rows[..];
        Outliers(c);
        assert rows[..] == ReplaceColumn(before, c, fs[c]) == ReplaceUpTo(orig, fs, c + 1);
        c := c + 1;
      }
    }
  }
}
