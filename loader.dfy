/**
 * The key under which each station's table is stored: the file names have
 * the form `PRSA_Data_<station>_<period>.csv`, and the key is
 * `name.split('_')[2]`, which raises an `IndexError` when the name has fewer
 * than three pieces.
 */
module Loader {
  import opened Wrappers

  /** Python's `s.split(sep)` with an explicit separator: every piece, empty ones included. */
  function Split(s: string, sep: char): (parts: seq<string>)
    ensures parts != []
  {
    if s == [] then [""]
    else
      var rest := Split(s[1..], sep);
      if s[0] == sep then [""] + rest else [[s[0]] + rest[0]] + rest[1..]
  }

  /** `sep.join(parts)`. */
  function Join(parts: seq<string>, sep: char): string
    requires parts != []
  {
    if |parts| == 1 then parts[0] else parts[0] + [sep] + Join(parts[1..], sep)
  }

  /** No piece of a split contains the separator. */
  lemma {:induction false} SplitPiecesHaveNoSeparator(s: string, sep: char)
    ensures forall k :: 0 <= k < |Split(s, sep)| ==> sep !in Split(s, sep)[k]
  {
    if s != [] {
      SplitPiecesHaveNoSeparator(s[1..], sep);
    }
  }

  /** Joining the pieces with the separator gives the string back. */
  lemma {:induction false} JoinSplit(s: string, sep: char)
    ensures Join(Split(s, sep), sep) == s
  {
    if s != [] {
      var rest := Split(s[1..], sep);
      JoinSplit(s[1..], sep);
      assert s == [s[0]] + s[1..];
      if s[0] != sep && |rest| > 1 {
        assert ([s[0]] + rest[0]) + [sep] + Join(rest[1..], sep) == [s[0]] + (rest[0] + [sep] + Join(rest[1..], sep));
      }
    }
  }

  /** A piece without the separator, then the separator, splits off as the first piece. */
  lemma {:induction false} SplitAfterPiece(a: string, sep: char, s: string)
    requires sep !in a
    ensures Split(a + [sep] + s, sep) == [a] + Split(s, sep)
  {
    if a != [] {
      SplitAfterPiece(a[1..], sep, s);
      assert (a + [sep] + s)[1..] == a[1..] + [sep] + s;
      assert [a[0]] + a[1..] == a;
    } else {
      assert a + [sep] + s == [sep] + s;
    }
  }

  /** A string without the separator is a single piece. */
  lemma {:induction false} SplitWithoutSeparator(a: string, sep: char)
    requires sep !in a
    ensures Split(a, sep) == [a]
  {
    if a != [] {
      SplitWithoutSeparator(a[1..], sep);
      assert a == [a[0]] + a[1..];
    }
  }

  /** Splitting the join of pieces without the separator gives the pieces back. */
  lemma {:induction false} SplitJoin(parts: seq<string>, sep: char)
    requires parts != [] && forall k :: 0 <= k < |parts| ==> sep !in parts[k]
    ensures Split(Join(parts, sep), sep) == parts
  {
    if |parts| == 1 {
      SplitWithoutSeparator(parts[0], sep);
    } else {
      SplitJoin(parts[1..], sep);
      SplitAfterPiece(parts[0], sep, Join(parts[1..], sep));
    }
  }

  /** `name.split('_')[2]`, or `None` where the index raises an `IndexError`. */
  function StationName(name: string): (r: Option<string>)
    ensures r.Some? <==> |Split(name, '_')| >= 3
    ensures r.Some? ==> '_' !in r.value
  {
    SplitPiecesHaveNoSeparator(name, '_');
    var parts := Split(name, '_');
    if |parts| < 3 then None else Some(parts[2])
  }

  /** A name `a_b_c_rest` whose first three pieces have no underscore is keyed by `c`. */
  lemma StationNameOfPieces(a: string, b: string, c: string, rest: string)
    requires '_' !in a && '_' !in b && '_' !in c
    ensures StationName(a + ['_'] + (b + ['_'] + (c + ['_'] + rest))) == Some(c)
  {
    SplitAfterPiece(c, '_', rest);
    SplitAfterPiece(b, '_', c + ['_'] + rest);
    SplitAfterPiece(a, '_', b + ['_'] + (c + ['_'] + rest));
  }

  /** The first station file, `PRSA_Data_Aotizhongxin_20130301-20170228.csv`, is keyed by its station. */
  lemma FirstStationKey()
    ensures StationName("PRSA" + ['_'] + ("Data" + ['_'] + ("Aotizhongxin" + ['_'] + "20130301-20170228.csv")))
            == Some("Aotizhongxin")
  {
    StationNameOfPieces("PRSA", "Data", "Aotizhongxin", "20130301-20170228.csv");
  }

  /** A name with fewer than two underscores has no third piece. */
  lemma StationNameNeedsTwoUnderscores(a: string, b: string)
    requires '_' !in a && '_' !in b
    ensures StationName(a).None?
    ensures StationName(a + ['_'] + b).None?
  {
    SplitWithoutSeparator(a, '_');
    SplitWithoutSeparator(b, '_');
    SplitAfterPiece(a, '_', b);
  }
}
