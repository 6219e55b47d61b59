/**
 * The column statistics the cleaning pipeline asks pandas for: the median
 * (`Series.median`), linearly interpolated quantiles (`Series.quantile`,
 * numpy's default "linear" method), the interquartile fences of the outlier
 * rule and the mode of a categorical column. Values are mathematical reals;
 * missing cells are filtered out before any statistic is taken.
 */
module Stats {
  import opened Wrappers

  predicate Sorted(s: seq<real>) {
    forall i, j :: 0 <= i <= j < |s| ==> s[i] <= s[j]
  }

  /** Insert `x` into the sorted sequence `s`, keeping it sorted. */
  function Insert(x: real, s: seq<real>): (r: seq<real>)
    requires Sorted(s)
    ensures Sorted(r)
    ensures multiset(r) == multiset(s) + multiset{x}
    ensures r != [] && (r[0] == x || (s != [] && r[0] == s[0]))
  {
    if s == [] then [x]
    else if x <= s[0] then [x] + s
    else
      var rest := Insert(x, s[1..]);
      assert s == [s[0]] + s[1..];
      ConsSorted(s[0], rest);
      [s[0]] + rest
  }

  /** A value no larger than the head of a sorted sequence can go in front of it. */
  lemma ConsSorted(a: real, s: seq<real>)
    requires Sorted(s) && s != [] && a <= s[0]
    ensures Sorted([a] + s)
  {
  }

  /** The values of `s` in ascending order (insertion sort). */
  function Sort(s: seq<real>): (r: seq<real>)
    ensures Sorted(r)
    ensures multiset(r) == multiset(s)
    ensures |r| == |s|
  {
    if s == [] then []
    else
      assert s == [s[0]] + s[1..];
      Insert(s[0], Sort(s[1..]))
  }

  /** A sorted sequence is determined by its multiset of values. */
  lemma {:induction false} SortedUnique(a: seq<real>, b: seq<real>)
    requires Sorted(a) && Sorted(b)
    requires multiset(a) == multiset(b)
    ensures a == b
  {
    assert |a| == |multiset(a)| == |multiset(b)| == |b|;
    if a != [] {
      assert b[0] <= a[0] by {
        assert a[0] in multiset(b);
        var i :| 0 <= i < |b| && b[i] == a[0];
      }
      assert a[0] <= b[0] by {
        assert b[0] in multiset(a);
        var j :| 0 <= j < |a| && a[j] == b[0];
      }
      assert a == [a[0]] + a[1..] && b == [b[0]] + b[1..];
      assert multiset(a[1..]) == multiset(b[1..]) by {
        assert multiset(a) == multiset{a[0]} + multiset(a[1..]);
        assert multiset(b) == multiset{b[0]} + multiset(b[1..]);
        assert multiset(a[1..]) == multiset(a) - multiset{a[0]};
        assert multiset(b[1..]) == multiset(b) - multiset{b[0]};
      }
      SortedTail(a);
      SortedTail(b);
      SortedUnique(a[1..], b[1..]);
    }
  }

  lemma SortedTail(a: seq<real>)
    requires Sorted(a) && a != []
    ensures Sorted(a[1..])
  {
    forall i, j | 0 <= i <= j < |a| - 1
      ensures a[1..][i] <= a[1..][j]
    {
      assert a[1..][i] == a[i + 1] && a[1..][j] == a[j + 1];
    }
  }

  /** Sorting sees only the multiset of values, so every statistic below is independent of row order. */
  lemma SortIsOrderIndependent(s: seq<real>, s': seq<real>)
    requires multiset(s) == multiset(s')
    ensures Sort(s) == Sort(s')
  {
    SortedUnique(Sort(s), Sort(s'));
  }

  /**
   * Linear interpolation `r` quarters of the way from `a` to `b`, that is
   * `a + (b - a) * r / 4`, written out per quarter so that it stays linear.
   */
  function Lerp(a: real, b: real, r: nat): real
    requires r < 4
  {
    if r == 0 then a
    else if r == 1 then a + (b - a) / 4.0
    else if r == 2 then a + (b - a) / 2.0
    else a + 3.0 * (b - a) / 4.0
  }

  lemma LerpBetween(a: real, b: real, r: nat)
    requires a <= b && r < 4
    ensures a <= Lerp(a, b, r) <= b
  {
  }

  lemma LerpMonotone(a: real, b: real, r: nat, r': nat)
    requires a <= b && r <= r' < 4
    ensures Lerp(a, b, r) <= Lerp(a, b, r')
  {
  }

  /**
   * The value at virtual index `p / 4` of the sorted sequence `t`: the element
   * below that index plus the fractional part of the way to the next one. The
   * quartile positions `q (n - 1)` for q = 0.25, 0.5, 0.75 are all multiples of
   * a quarter, so a numerator over 4 represents them exactly.
   */
  function Interpolate(t: seq<real>, p: nat): real
    requires t != [] && p <= 4 * (|t| - 1)
  {
    var k := p / 4;
    if k + 1 < |t| then Lerp(t[k], t[k + 1], p % 4) else t[k]
  }

  lemma InterpolateBetween(t: seq<real>, p: nat)
    requires t != [] && p <= 4 * (|t| - 1)
    requires Sorted(t)
    ensures t[p / 4] <= Interpolate(t, p)
    ensures p / 4 + 1 < |t| ==> Interpolate(t, p) <= t[p / 4 + 1]
    ensures t[0] <= Interpolate(t, p) <= t[|t| - 1]
  {
    var k := p / 4;
    if k + 1 < |t| {
      LerpBetween(t[k], t[k + 1], p % 4);
    }
  }

  lemma InterpolateMonotone(t: seq<real>, p: nat, q: nat)
    requires t != [] && p <= q <= 4 * (|t| - 1)
    requires Sorted(t)
    ensures Interpolate(t, p) <= Interpolate(t, q)
  {
    var k, l := p / 4, q / 4;
    if k == l {
      if k + 1 < |t| {
        LerpMonotone(t[k], t[k + 1], p % 4, q % 4);
      }
    } else {
      InterpolateBetween(t, p);
      InterpolateBetween(t, q);
    }
  }

  /** The 0.25 quantile with linear interpolation (numpy's default method). */
  function FirstQuartile(s: seq<real>): (q: real)
    requires s != []
    ensures Sort(s)[0] <= q <= Sort(s)[|s| - 1]
  {
    InterpolateBetween(Sort(s), |s| - 1);
    Interpolate(Sort(s), |s| - 1)
  }

  /** The 0.75 quantile with linear interpolation. */
  function ThirdQuartile(s: seq<real>): (q: real)
    requires s != []
    ensures Sort(s)[0] <= q <= Sort(s)[|s| - 1]
  {
    InterpolateBetween(Sort(s), 3 * (|s| - 1));
    Interpolate(Sort(s), 3 * (|s| - 1))
  }

  /** The median: the middle value, or the mean of the two middle values. */
  function Median(s: seq<real>): (m: real)
    requires s != []
    ensures Sort(s)[0] <= m <= Sort(s)[|s| - 1]
  {
    MiddleIsHalfQuantile(Sort(s));
    InterpolateBetween(Sort(s), 2 * (|s| - 1));
    Middle(Sort(s))
  }

  /** The middle value of a sequence, or the mean of its two middle values. */
  function Middle(t: seq<real>): real
    requires t != []
  {
    var n := |t|;
    if n % 2 == 1 then t[n / 2] else (t[n / 2 - 1] + t[n / 2]) / 2.0
  }

  /** On a sorted sequence the middle value(s) sit at the 0.5 quantile position. */
  lemma MiddleIsHalfQuantile(t: seq<real>)
    requires t != []
    ensures Middle(t) == Interpolate(t, 2 * (|t| - 1))
  {
    var n := |t|;
    var p := 2 * (n - 1);
    if n % 2 == 1 {
      assert p / 4 == n / 2 && p % 4 == 0;
    } else {
      assert p / 4 == n / 2 - 1 && p % 4 == 2;
    }
  }

  /** The median is the 0.5 quantile under the same linear interpolation. */
  lemma MedianIsHalfQuantile(s: seq<real>)
    requires s != []
    ensures Median(s) == Interpolate(Sort(s), 2 * (|s| - 1))
  {
    MiddleIsHalfQuantile(Sort(s));
  }

  /** Minimum <= Q1 <= median <= Q3 <= maximum, so the interquartile range is not negative. */
  lemma QuartilesOrdered(s: seq<real>)
    requires s != []
    ensures Sort(s)[0] <= FirstQuartile(s) <= Median(s) <= ThirdQuartile(s) <= Sort(s)[|s| - 1]
    ensures ThirdQuartile(s) - FirstQuartile(s) >= 0.0
  {
    var t, n := Sort(s), |s|;
    MedianIsHalfQuantile(s);
    InterpolateMonotone(t, n - 1, 2 * (n - 1));
    InterpolateMonotone(t, 2 * (n - 1), 3 * (n - 1));
    InterpolateBetween(t, n - 1);
    InterpolateBetween(t, 3 * (n - 1));
  }

  /** The interval outside which a value is an outlier, and the value that replaces it. */
  datatype Fences = Fences(lower: real, upper: real, median: real)

  /** Tukey's fences `Q1 - 1.5 IQR` and `Q3 + 1.5 IQR` of a non-empty column. */
  function OutlierFences(s: seq<real>): (f: Fences)
    requires s != []
    ensures f.lower <= f.median <= f.upper
    ensures f.lower <= FirstQuartile(s) && ThirdQuartile(s) <= f.upper
    ensures f.upper - f.lower == 4.0 * (ThirdQuartile(s) - FirstQuartile(s))
    ensures f.median == Median(s)
  {
    QuartilesOrdered(s);
    var q1, q3 := FirstQuartile(s), ThirdQuartile(s);
    var iqr := q3 - q1;
    Fences(q1 - 1.5 * iqr, q3 + 1.5 * iqr, Median(s))
  }

  /**
   * The replacement rule of the outlier step: a value strictly below the lower
   * or strictly above the upper fence becomes the median, every other value is
   * kept; a missing value compares false with both fences and stays missing.
   */
  function OutlierRule(x: Option<real>, f: Fences): (r: Option<real>)
    ensures r.Some? == x.Some?
    ensures x.Some? && f.lower <= x.value <= f.upper ==> r == x
    ensures f.lower <= f.median <= f.upper && r.Some? ==> f.lower <= r.value <= f.upper
  {
    match x
    case None => None
    case Some(v) => if v < f.lower || v > f.upper then Some(f.median) else x
  }

  /** With the median inside the fences, the rule lands inside them and a second pass changes nothing. */
  lemma OutlierRuleWithinFences(x: Option<real>, f: Fences)
    requires f.lower <= f.median <= f.upper
    ensures OutlierRule(x, f).Some? == x.Some?
    ensures OutlierRule(x, f).Some? ==> f.lower <= OutlierRule(x, f).value <= f.upper
    ensures OutlierRule(OutlierRule(x, f), f) == OutlierRule(x, f)
  {
  }

  /** Number of occurrences of `v` in `s`. */
  function Count<T(==)>(s: seq<T>, v: T): nat {
    multiset(s)[v]
  }

  /** `v` occurs in `s` and no value occurs more often. */
  predicate IsMode<T(==)>(s: seq<T>, v: T) {
    v in s && forall w :: w in s ==> Count(s, w) <= Count(s, v)
  }

  /** Python's `<` on strings: code point by code point, a proper prefix first. */
  predicate StringLess(a: string, b: string) {
    if a == [] then b != []
    else if b == [] then false
    else if a[0] != b[0] then a[0] < b[0]
    else StringLess(a[1..], b[1..])
  }

  lemma {:induction false} StringLessIrreflexive(a: string)
    ensures !StringLess(a, a)
  {
    if a != [] {
      StringLessIrreflexive(a[1..]);
    }
  }

  lemma {:induction false} StringLessTransitive(a: string, b: string, c: string)
    requires StringLess(a, b) && StringLess(b, c)
    ensures StringLess(a, c)
  {
    if a != [] && b != [] && c != [] && a[0] == b[0] == c[0] {
      StringLessTransitive(a[1..], b[1..], c[1..]);
    }
  }

  lemma {:induction false} StringLessTotal(a: string, b: string)
    ensures a == b || StringLess(a, b) || StringLess(b, a)
  {
    if a != [] && b != [] && a[0] == b[0] {
      StringLessTotal(a[1..], b[1..]);
      if a[1..] == b[1..] {
        assert a == [a[0]] + a[1..] && b == [b[0]] + b[1..];
      }
    }
  }

  /** As a mode of `s`, `v` wins over `w`: it is more frequent, or as frequent and sorts first. */
  predicate Beats(s: seq<string>, v: string, w: string) {
    Count(s, v) > Count(s, w) || (Count(s, v) == Count(s, w) && StringLess(v, w))
  }

  /** The candidate of `cands` that wins over all the others. */
  function BestOf(s: seq<string>, cands: seq<string>): (b: string)
    requires cands != []
    ensures b in cands
  {
    if |cands| == 1 then cands[0]
    else
      var rest := BestOf(s, cands[1..]);
      if Beats(s, cands[0], rest) then cands[0] else rest
  }

  /** No candidate is more frequent than `BestOf`, and none as frequent sorts before it. */
  lemma {:induction false} BestOfWins(s: seq<string>, cands: seq<string>)
    requires cands != []
    ensures forall w :: w in cands ==> Count(s, w) <= Count(s, BestOf(s, cands))
    ensures forall w :: w in cands && Count(s, w) == Count(s, BestOf(s, cands)) ==> !StringLess(w, BestOf(s, cands))
  {
    var b := BestOf(s, cands);
    StringLessIrreflexive(b);
    if |cands| > 1 {
      var tail := cands[1..];
      var rest := BestOf(s, tail);
      BestOfWins(s, tail);
      assert cands == [cands[0]] + tail;
      if Beats(s, cands[0], rest) {
        forall w | w in tail && Count(s, w) == Count(s, b)
          ensures !StringLess(w, b)
        {
          if StringLess(w, b) {
            StringLessTransitive(w, b, rest);
          }
        }
      }
    }
  }

  /**
   * `Series.mode()[0]`: `mode()` lists the most frequent values in sorted
   * order, so its first entry is the smallest value of maximal count.
   */
  function Mode(s: seq<string>): (m: string)
    requires s != []
    ensures m in s
  {
    BestOf(s, s)
  }

  /** The mode has maximal count, and no other value of maximal count sorts before it. */
  lemma ModeIsSmallestMode(s: seq<string>)
    requires s != []
    ensures IsMode(s, Mode(s))
    ensures forall w :: IsMode(s, w) ==> !StringLess(w, Mode(s))
  {
    BestOfWins(s, s);
  }

  /** `Mode` is the only value of maximal count that no other such value sorts before. */
  lemma ModeUnique(s: seq<string>, v: string)
    requires s != [] && IsMode(s, v)
    requires forall w :: IsMode(s, w) ==> !StringLess(w, v)
    ensures v == Mode(s)
  {
    ModeIsSmallestMode(s);
    StringLessTotal(v, Mode(s));
  }

  /** Of `"N"` twice and `"E"` and `"S"` once each, the mode is `"N"`. */
  lemma ModeOfMajority()
    ensures Mode(["N", "E", "N", "S"]) == "N"
  {
    var s := ["N", "E", "N", "S"];
    assert Count(s, "N") == 2 && Count(s, "E") == 1 && Count(s, "S") == 1;
    ModeIsSmallestMode(s);
    var m := Mode(s);
    assert m in s && Count(s, m) >= Count(s, "N");
  }

  /** Of one `"S"` and one `"E"`, the mode is `"E"`, which sorts first. */
  lemma ModeOfTie()
    ensures Mode(["S", "E"]) == "E"
  {
    var t := ["S", "E"];
    assert Count(t, "S") == 1 && Count(t, "E") == 1;
    assert StringLess("E", "S");
    assert IsMode(t, "E");
    ModeIsSmallestMode(t);
    var m := Mode(t);
    assert m in t;
  }

  /** With five values, Q1, the median and Q3 are the second, third and fourth smallest. */
  lemma QuartilesOfFive(s: seq<real>)
    requires |s| == 5
    ensures FirstQuartile(s) == Sort(s)[1] && Median(s) == Sort(s)[2] && ThirdQuartile(s) == Sort(s)[3]
  {
    var t := Sort(s);
    assert Interpolate(t, 4) == t[1];
    assert Interpolate(t, 12) == t[3];
  }

  /** The column 1, 2, 3, 4, 100 has Q1 = 2, Q3 = 4, fences -1 and 7 and median 3. */
  lemma ConcreteQuartiles(col: seq<real>)
    requires col == [1.0, 2.0, 3.0, 4.0, 100.0]
    ensures FirstQuartile(col) == 2.0 && ThirdQuartile(col) == 4.0 && Median(col) == 3.0
    ensures OutlierFences(col) == Fences(-1.0, 7.0, 3.0)
  {
    assert Sort(col) == col by {
      assert Sorted(col);
      SortedUnique(Sort(col), col);
    }
    QuartilesOfFive(col);
  }
}
