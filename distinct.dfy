/**
 * Duplicate removal as `DataFrame.drop_duplicates()` does it by default
 * (`keep="first"`): a row is dropped exactly when an equal row comes earlier.
 * Rows are compared as whole values, so two missing cells compare equal, as
 * they do in pandas.
 */
module Distinct {

  /** No value occurs twice. */
  predicate NoDuplicates<T(==)>(s: seq<T>) {
    forall i, j :: 0 <= i < j < |s| ==> s[i] != s[j]
  }

  /** `s[i]` is the first occurrence of its value. */
  predicate IsFirstOccurrence<T(==)>(s: seq<T>, i: int)
    requires 0 <= i < |s|
  {
    s[i] !in s[..i]
  }

  /** The rows of `s` that have no equal row before them, in their original order. */
  function KeepFirst<T(==,!new)>(s: seq<T>): (r: seq<T>)
    ensures forall x :: x in r <==> x in s
    ensures NoDuplicates(r)
    ensures |r| <= |s|
  {
    if s == [] then []
    else
      var init, last := s[..|s| - 1], s[|s| - 1];
      assert s == init + [last];
      var kept := KeepFirst(init);
      if last in init then kept else kept + [last]
  }

  /** The indices of the rows that `KeepFirst` keeps. */
  function KeptIndices<T(==)>(s: seq<T>): seq<int> {
    if s == [] then []
    else
      var init := s[..|s| - 1];
      if s[|s| - 1] in init then KeptIndices(init) else KeptIndices(init) + [|s| - 1]
  }

  /**
   * `KeepFirst(s)` is the subsequence of `s` at strictly increasing indices
   * that are exactly the first occurrences of their values.
   */
  lemma {:induction false} KeepFirstIsFirstOccurrences<T(!new)>(s: seq<T>)
    ensures var idx, r := KeptIndices(s), KeepFirst(s);
            && |idx| == |r|
            && (forall k :: 0 <= k < |idx| ==> 0 <= idx[k] < |s| && r[k] == s[idx[k]])
            && (forall k, l :: 0 <= k < l < |idx| ==> idx[k] < idx[l])
            && (forall k :: 0 <= k < |idx| ==> IsFirstOccurrence(s, idx[k]))
            && (forall i :: 0 <= i < |s| && IsFirstOccurrence(s, i) ==> i in idx)
  {
    if s != [] {
      var n := |s|;
      var init := s[..n - 1];
      KeepFirstIsFirstOccurrences(init);
      var idx, r := KeptIndices(s), KeepFirst(s);
      var idx0 := KeptIndices(init);
      assert forall i :: 0 <= i < n - 1 ==> init[..i] == s[..i] && init[i] == s[i];
      assert s[..n - 1] == init;
      forall k | 0 <= k < |idx|
        ensures 0 <= idx[k] < |s| && r[k] == s[idx[k]] && IsFirstOccurrence(s, idx[k])
      {
        if k < |idx0| {
          assert idx[k] == idx0[k];
        }
      }
      forall i | 0 <= i < |s| && IsFirstOccurrence(s, i)
        ensures i in idx
      {
        if i < n - 1 {
          assert IsFirstOccurrence(init, i);
        }
      }
    }
  }

  /** Two identical rows leave exactly one. */
  lemma TwoIdenticalRowsLeaveOne<T(!new)>(x: T)
    ensures KeepFirst([x, x]) == [x]
  {
    assert [x, x][..1] == [x];
    assert [x][..0] == [];
  }
}
