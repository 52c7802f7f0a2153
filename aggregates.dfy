/** Column aggregates over integer columns: the sum, maximum and minimum that
    the analyser takes of the `Overlap Length` column. */
module Aggregates {

  /** The sum of a column; 0 for an empty column. */
  function Sum(s: seq<int>): int
  {
    if s == [] then 0 else s[0] + Sum(s[1..])
  }

  /** The largest value of a non-empty column. */
  function MaxOf(s: seq<int>): (m: int)
    requires s != []
    ensures forall k :: 0 <= k < |s| ==> s[k] <= m
    ensures exists k :: 0 <= k < |s| && s[k] == m
  {
    if |s| == 1 then s[0]
    else
      var rest := MaxOf(s[1..]);
      assert forall k :: 1 <= k < |s| ==> s[k] == s[1..][k - 1];
      if s[0] >= rest then s[0] else rest
  }

  /** The smallest value of a non-empty column. */
  function MinOf(s: seq<int>): (m: int)
    requires s != []
    ensures forall k :: 0 <= k < |s| ==> m <= s[k]
    ensures exists k :: 0 <= k < |s| && s[k] == m
  {
    if |s| == 1 then s[0]
    else
      var rest := MinOf(s[1..]);
      assert forall k :: 1 <= k < |s| ==> s[k] == s[1..][k - 1];
      if s[0] <= rest then s[0] else rest
  }

  /** A column of non-negative values has a non-negative sum that is at
      least each of its values. */
  lemma {:induction false} SumDominatesElements(s: seq<int>)
    requires forall k :: 0 <= k < |s| ==> 0 <= s[k]
    ensures 0 <= Sum(s)
    ensures forall k :: 0 <= k < |s| ==> s[k] <= Sum(s)
  {
    if s != [] {
      assert forall k :: 1 <= k < |s| ==> s[k] == s[1..][k - 1];
      SumDominatesElements(s[1..]);
    }
  }

  /** Appending a value to a column adds it to the sum. */
  lemma {:induction false} SumAppend(s: seq<int>, x: int)
    ensures Sum(s + [x]) == Sum(s) + x
  {
    if s != [] {
      assert (s + [x])[1..] == s[1..] + [x];
      SumAppend(s[1..], x);
    }
  }

  /** The maximum of a non-negative column never exceeds its sum. */
  lemma {:induction false} MaxAtMostSum(s: seq<int>)
    requires s != []
    requires forall k :: 0 <= k < |s| ==> 0 <= s[k]
    ensures MaxOf(s) <= Sum(s)
  {
    SumDominatesElements(s);
  }

  /** Bounding every value of a column bounds its sum: |s| * lo <= Sum(s) <= |s| * hi. */
  lemma {:induction false} SumBetweenBounds(s: seq<int>, lo: int, hi: int)
    requires forall k :: 0 <= k < |s| ==> lo <= s[k] <= hi
    ensures |s| * lo <= Sum(s) <= |s| * hi
  {
    if s != [] {
      assert forall k :: 1 <= k < |s| ==> s[k] == s[1..][k - 1];
      SumBetweenBounds(s[1..], lo, hi);
      assert |s| * lo == (|s| - 1) * lo + lo;
      assert |s| * hi == (|s| - 1) * hi + hi;
    }
  }

  /** The mean of a non-empty column, Sum(s) / |s|, lies between its minimum
      and its maximum. */
  lemma MeanBetweenMinAndMax(s: seq<int>)
    requires s != []
    ensures |s| * MinOf(s) <= Sum(s) <= |s| * MaxOf(s)
  {
    SumBetweenBounds(s, MinOf(s), MaxOf(s));
  }
}
