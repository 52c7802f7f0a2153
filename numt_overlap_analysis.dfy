/** The NUMT overlap analyser: which NUMT records meet a query region of the
    mitochondrial genome, where each overlap lies, how it is classified, and
    the summary statistics over all overlaps. */
module NumtOverlapAnalysis {
  import opened Aggregates

  /** One input row: `NumtS Code`, `Chr`, `Mt Start`, `Mt End`. Nothing
      forces mtStart <= mtEnd (see WellFormed). */
  datatype NumtRecord = NumtRecord(code: string, chr: string, mtStart: int, mtEnd: int)

  /** An exact quotient num / den, standing for a quotient the Python analyser
      takes in floating point. The denominator is not constrained. An empty
      query (qe == qs) gives den == 0, where pandas yields an infinite or
      not-a-number value; a reversed query (qe < qs) gives den < 0, a finite
      but meaningless value. */
  datatype Ratio = Ratio(num: int, den: int) {
    predicate IsZero() { num == 0 && den != 0 }
  }

  /** The four overlap types, in the priority order of the classification. */
  datatype OverlapType = Complete | PartialLeft | PartialRight | Internal

  /** An output row: the original record and the derived columns. */
  datatype OverlapRow = OverlapRow(
    record: NumtRecord,
    overlapStart: int,
    overlapEnd: int,
    overlapLength: int,
    overlapPercentage: Ratio,
    overlapType: OverlapType)

  /** The summary dictionary. */
  datatype SummaryStats = SummaryStats(
    totalOverlaps: nat,
    totalBasesCovered: int,
    percentQueryCovered: Ratio,
    maxOverlapLength: int,
    minOverlapLength: int,
    meanOverlapLength: Ratio)

  /** The default query region. */
  const DefaultQueryStart: int := 10761
  const DefaultQueryEnd: int := 12137

  /** The default query region is a proper interval of 1376 positions. */
  lemma DefaultQueryIsProper()
    ensures DefaultQueryStart < DefaultQueryEnd
    ensures DefaultQueryEnd - DefaultQueryStart == 1376
  {
  }

  /** The inclusive integer interval [lo, hi] contains x. */
  predicate InInterval(x: int, lo: int, hi: int) { lo <= x <= hi }

  /** The record's interval is not reversed. */
  predicate WellFormed(r: NumtRecord) { r.mtStart <= r.mtEnd }

  /** The filter mask: inclusive at both ends. */
  predicate Overlaps(r: NumtRecord, qs: int, qe: int)
  {
    r.mtStart <= qe && r.mtEnd >= qs
  }

  /** For well-formed intervals the mask holds exactly when the record and the
      query share a coordinate (a single shared coordinate is enough). */
  lemma OverlapsIffSharedPosition(r: NumtRecord, qs: int, qe: int)
    requires WellFormed(r) && qs <= qe
    ensures Overlaps(r, qs, qe) <==>
      exists x :: InInterval(x, r.mtStart, r.mtEnd) && InInterval(x, qs, qe)
  {
    if Overlaps(r, qs, qe) {
      var x := if r.mtStart >= qs then r.mtStart else qs;
      assert InInterval(x, r.mtStart, r.mtEnd) && InInterval(x, qs, qe);
    }
  }

  /** The classification: the first matching rule wins. Each result is
      characterised here by the conditions under which it is chosen. */
  function Categorize(r: NumtRecord, qs: int, qe: int): (t: OverlapType)
    ensures t == Complete <==> r.mtStart <= qs && r.mtEnd >= qe
    ensures t == PartialLeft <==> r.mtStart <= qs && r.mtEnd < qe
    ensures t == PartialRight <==> r.mtStart > qs && r.mtEnd >= qe
    ensures t == Internal <==> qs < r.mtStart && r.mtEnd < qe
  {
    if r.mtStart <= qs && r.mtEnd >= qe then Complete
    else if r.mtStart <= qs then PartialLeft
    else if r.mtEnd >= qe then PartialRight
    else Internal
  }

  /** The derived columns of one row. The overlap interval is exactly the
      intersection of the record and the query, its bounds are bounds of one
      of the two, and its length is bounded by either interval's length. */
  function Enrich(r: NumtRecord, qs: int, qe: int): (row: OverlapRow)
    ensures row.record == r
    ensures row.overlapStart >= r.mtStart && row.overlapStart >= qs
    ensures row.overlapStart == r.mtStart || row.overlapStart == qs
    ensures row.overlapEnd <= r.mtEnd && row.overlapEnd <= qe
    ensures row.overlapEnd == r.mtEnd || row.overlapEnd == qe
    ensures forall x :: InInterval(x, row.overlapStart, row.overlapEnd) <==>
      InInterval(x, r.mtStart, r.mtEnd) && InInterval(x, qs, qe)
    ensures row.overlapLength == row.overlapEnd - row.overlapStart
    ensures row.overlapLength <= qe - qs && row.overlapLength <= r.mtEnd - r.mtStart
    ensures row.overlapPercentage == Ratio(100 * row.overlapLength, qe - qs)
    ensures row.overlapType == Categorize(r, qs, qe)
  {
    var os := if r.mtStart >= qs then r.mtStart else qs;
    var oe := if r.mtEnd <= qe then r.mtEnd else qe;
    OverlapRow(r, os, oe, oe - os, Ratio(100 * (oe - os), qe - qs), Categorize(r, qs, qe))
  }

  /** For a well-formed record that passes the mask and a query with
      qs <= qe, the overlap interval is not reversed and its length is
      non-negative. */
  lemma OverlapNonNegative(r: NumtRecord, qs: int, qe: int)
    requires WellFormed(r) && qs <= qe && Overlaps(r, qs, qe)
    ensures Enrich(r, qs, qe).overlapStart <= Enrich(r, qs, qe).overlapEnd
    ensures 0 <= Enrich(r, qs, qe).overlapLength
  {
  }

  /** For a proper query the overlap percentage is at most 100, and for a
      well-formed overlapping record it is at least 0. */
  lemma PercentageWithinBounds(r: NumtRecord, qs: int, qe: int)
    requires qs < qe
    ensures Enrich(r, qs, qe).overlapPercentage.den > 0
    ensures Enrich(r, qs, qe).overlapPercentage.num <= 100 * Enrich(r, qs, qe).overlapPercentage.den
    ensures WellFormed(r) && Overlaps(r, qs, qe) ==> 0 <= Enrich(r, qs, qe).overlapPercentage.num
  {
  }

  /** A record that meets the query only at its first or its last coordinate
      passes the mask, with overlap length 0. */
  lemma TouchingRecordHasZeroLength(r: NumtRecord, qs: int, qe: int)
    requires WellFormed(r) && qs <= qe
    requires r.mtEnd == qs || r.mtStart == qe
    ensures Overlaps(r, qs, qe)
    ensures Enrich(r, qs, qe).overlapLength == 0
  {
  }

  /** A Complete record covers the whole query; an Internal one lies inside
      it, so the overlap is the record itself. */
  lemma LengthOfCompleteAndInternal(r: NumtRecord, qs: int, qe: int)
    ensures Categorize(r, qs, qe) == Complete ==> Enrich(r, qs, qe).overlapLength == qe - qs
    ensures Categorize(r, qs, qe) == Internal ==> Enrich(r, qs, qe).overlapLength == r.mtEnd - r.mtStart
  {
  }

  /** The records that pass the mask, in input order. */
  function Filter(records: seq<NumtRecord>, qs: int, qe: int): (f: seq<NumtRecord>)
    ensures |f| <= |records|
    ensures forall x :: x in f <==> x in records && Overlaps(x, qs, qe)
  {
    if records == [] then []
    else
      var tail := Filter(records[1..], qs, qe);
      assert forall x :: x in records <==> x == records[0] || x in records[1..];
      if Overlaps(records[0], qs, qe) then [records[0]] + tail else tail
  }

  /** xs is obtained from ys by deleting elements, without reordering. */
  predicate IsSubsequence<T(==)>(xs: seq<T>, ys: seq<T>)
    decreases |ys|
  {
    if xs == [] then true
    else if ys == [] then false
    else if xs[0] == ys[0] && IsSubsequence(xs[1..], ys[1..]) then true
    else IsSubsequence(xs, ys[1..])
  }

  /** The filter keeps the input order. */
  lemma {:induction false} FilterIsSubsequence(records: seq<NumtRecord>, qs: int, qe: int)
    ensures IsSubsequence(Filter(records, qs, qe), records)
  {
    if records != [] {
      FilterIsSubsequence(records[1..], qs, qe);
      var f := Filter(records, qs, qe);
      if Overlaps(records[0], qs, qe) {
        assert f[1..] == Filter(records[1..], qs, qe);
      }
    }
  }

  /** The filter keeps every copy of an overlapping record and no copy of any
      other record. */
  lemma {:induction false} FilterMultiplicity(records: seq<NumtRecord>, qs: int, qe: int, x: NumtRecord)
    ensures multiset(Filter(records, qs, qe))[x] ==
      if Overlaps(x, qs, qe) then multiset(records)[x] else 0
  {
    if records != [] {
      FilterMultiplicity(records[1..], qs, qe, x);
      assert records == [records[0]] + records[1..];
      assert multiset(records) == multiset([records[0]]) + multiset(records[1..]);
    }
  }

  /** Appending a record to the input appends it to the filter exactly when it
      passes the mask. */
  lemma {:induction false} FilterAppend(records: seq<NumtRecord>, r: NumtRecord, qs: int, qe: int)
    ensures Filter(records + [r], qs, qe) ==
      Filter(records, qs, qe) + (if Overlaps(r, qs, qe) then [r] else [])
  {
    if records == [] {
      assert records + [r] == [r];
    } else {
      assert (records + [r])[1..] == records[1..] + [r];
      FilterAppend(records[1..], r, qs, qe);
    }
  }

  /** The overlap table: one enriched row per record that passes the mask, in
      input order, with the original columns unchanged. */
  function Table(records: seq<NumtRecord>, qs: int, qe: int): (rows: seq<OverlapRow>)
    ensures |rows| <= |records|
    ensures forall k :: 0 <= k < |rows| ==>
      rows[k].record in records && Overlaps(rows[k].record, qs, qe)
    ensures forall k :: 0 <= k < |rows| ==> rows[k] == Enrich(rows[k].record, qs, qe)
    ensures |rows| == |Filter(records, qs, qe)|
    ensures forall k :: 0 <= k < |rows| ==> rows[k].record == Filter(records, qs, qe)[k]
  {
    var f := Filter(records, qs, qe);
    seq(|f|, k requires 0 <= k < |f| => Enrich(f[k], qs, qe))
  }

  /** A record of the input has a row in the table exactly when it passes the
      mask, and every row carries a record of the input. */
  lemma TableMembership(records: seq<NumtRecord>, qs: int, qe: int, r: NumtRecord)
    ensures (exists k :: 0 <= k < |Table(records, qs, qe)| && Table(records, qs, qe)[k].record == r)
      <==> r in records && Overlaps(r, qs, qe)
  {
    var f := Filter(records, qs, qe);
    var rows := Table(records, qs, qe);
    if r in records && Overlaps(r, qs, qe) {
      var k :| 0 <= k < |f| && f[k] == r;
      assert rows[k].record == r;
    }
  }

  /** Appending a record to the input appends its row to the table exactly
      when it passes the mask. */
  lemma TableAppend(records: seq<NumtRecord>, r: NumtRecord, qs: int, qe: int)
    ensures Table(records + [r], qs, qe) ==
      Table(records, qs, qe) + (if Overlaps(r, qs, qe) then [Enrich(r, qs, qe)] else [])
  {
    FilterAppend(records, r, qs, qe);
  }

  /** When the records are well-formed and qs <= qe, every length in the
      table is non-negative. */
  lemma TableLengthsNonNegative(records: seq<NumtRecord>, qs: int, qe: int)
    requires forall i :: 0 <= i < |records| ==> WellFormed(records[i])
    requires qs <= qe
    ensures forall k :: 0 <= k < |Table(records, qs, qe)| ==> 0 <= Table(records, qs, qe)[k].overlapLength
  {
    var f := Filter(records, qs, qe);
    forall k | 0 <= k < |f|
      ensures 0 <= Enrich(f[k], qs, qe).overlapLength
    {
      assert f[k] in f;
      OverlapNonNegative(f[k], qs, qe);
    }
  }

  /** The `Overlap Length` column. */
  function Lengths(rows: seq<OverlapRow>): (ls: seq<int>)
    ensures |ls| == |rows|
    ensures forall k :: 0 <= k < |rows| ==> ls[k] == rows[k].overlapLength
  {
    seq(|rows|, k requires 0 <= k < |rows| => rows[k].overlapLength)
  }

  /** Adding a row to the table adds its length to the bases covered. */
  lemma SumOfLengthsAppend(rows: seq<OverlapRow>, row: OverlapRow)
    ensures Sum(Lengths(rows + [row])) == Sum(Lengths(rows)) + row.overlapLength
  {
    assert Lengths(rows + [row]) == Lengths(rows) + [row.overlapLength];
    SumAppend(Lengths(rows), row.overlapLength);
  }

  /** The summary statistics. An empty table gives zero in every field;
      otherwise the count is the number of rows, the bases covered are the
      raw sum of the lengths (overlapping rows are counted twice), and the
      maximum and minimum bound every length and are lengths of some row. */
  function Summarize(rows: seq<OverlapRow>, qs: int, qe: int): (s: SummaryStats)
    ensures rows == [] ==>
      s.totalOverlaps == 0 && s.totalBasesCovered == 0 && s.percentQueryCovered.IsZero()
      && s.maxOverlapLength == 0 && s.minOverlapLength == 0 && s.meanOverlapLength.IsZero()
    ensures rows != [] ==>
      && s.totalOverlaps == |rows|
      && s.totalBasesCovered == Sum(Lengths(rows))
      && s.percentQueryCovered == Ratio(100 * s.totalBasesCovered, qe - qs)
      && s.meanOverlapLength == Ratio(s.totalBasesCovered, |rows|)
      && (forall k :: 0 <= k < |rows| ==>
            s.minOverlapLength <= rows[k].overlapLength <= s.maxOverlapLength)
      && (exists k :: 0 <= k < |rows| && rows[k].overlapLength == s.maxOverlapLength)
      && (exists k :: 0 <= k < |rows| && rows[k].overlapLength == s.minOverlapLength)
  {
    if rows == [] then
      SummaryStats(0, 0, Ratio(0, 1), 0, 0, Ratio(0, 1))
    else
      var ls := Lengths(rows);
      var total := Sum(ls);
      SummaryStats(|rows|, total, Ratio(100 * total, qe - qs), MaxOf(ls), MinOf(ls), Ratio(total, |rows|))
  }

  /** With non-negative lengths the longest overlap never exceeds the bases
      covered, and the bases covered are non-negative. */
  lemma MaxWithinTotal(rows: seq<OverlapRow>, qs: int, qe: int)
    requires forall k :: 0 <= k < |rows| ==> 0 <= rows[k].overlapLength
    ensures 0 <= Summarize(rows, qs, qe).totalBasesCovered
    ensures Summarize(rows, qs, qe).maxOverlapLength <= Summarize(rows, qs, qe).totalBasesCovered
  {
    if rows != [] {
      SumDominatesElements(Lengths(rows));
    }
  }

  /** The mean overlap length lies between the minimum and the maximum. */
  lemma MeanBetweenExtremes(rows: seq<OverlapRow>, qs: int, qe: int)
    requires rows != []
    ensures Summarize(rows, qs, qe).meanOverlapLength.den > 0
    ensures var s := Summarize(rows, qs, qe);
      s.meanOverlapLength.den * s.minOverlapLength <= s.meanOverlapLength.num
        <= s.meanOverlapLength.den * s.maxOverlapLength
  {
    MeanBetweenMinAndMax(Lengths(rows));
  }

  /** Everything the analyser promises for well-formed records and a query
      with qs <= qe: lengths are non-negative and the longest overlap is at
      most the bases covered. */
  lemma AnalysisOfWellFormedRecords(records: seq<NumtRecord>, qs: int, qe: int)
    requires forall i :: 0 <= i < |records| ==> WellFormed(records[i])
    requires qs <= qe
    ensures var rows := Table(records, qs, qe);
      var s := Summarize(rows, qs, qe);
      && (forall k :: 0 <= k < |rows| ==> 0 <= rows[k].overlapLength <= qe - qs)
      && 0 <= s.minOverlapLength
      && s.maxOverlapLength <= s.totalBasesCovered
      && s.maxOverlapLength <= qe - qs
  {
    var rows := Table(records, qs, qe);
    TableLengthsNonNegative(records, qs, qe);
    MaxWithinTotal(rows, qs, qe);
  }

  /** The analyser: applies the mask, fills in the derived columns of each
      kept row, then computes the summary statistics. */
  method AnalyzeNumtOverlaps(records: seq<NumtRecord>, qs: int, qe: int)
    returns (rows: seq<OverlapRow>, stats: SummaryStats)
    ensures rows == Table(records, qs, qe)
    ensures stats == Summarize(rows, qs, qe)
  {
    rows := [];
    var i := 0;
    while i < |records|
      invariant 0 <= i <= |records|
      invariant rows == Table(records[..i], qs, qe)
    {
      var r := records[i];
      TableAppend(records[..i], r, qs, qe);
      assert records[..i + 1] == records[..i] + [r];
      if r.mtStart <= qe && r.mtEnd >= qs {
        var overlapStart := if r.mtStart >= qs then r.mtStart else qs;
        var overlapEnd := if r.mtEnd <= qe then r.mtEnd else qe;
        var overlapLength := overlapEnd - overlapStart;
        var percentage := Ratio(100 * overlapLength, qe - qs);
        var overlapType := Categorize(r, qs, qe);
        rows := rows + [OverlapRow(r, overlapStart, overlapEnd, overlapLength, percentage, overlapType)];
      }
      i := i + 1;
    }
    assert records[..i] == records;
    stats := Summarize(rows, qs, qe);
  }
}
