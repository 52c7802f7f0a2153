/** Worked examples on the default query region [10761, 12137] (length 1376),
    and three inputs the analyser does not guard against: a reversed record,
    a reversed query and duplicate records. */
module NumtScenarios {
  import opened NumtOverlapAnalysis
  import Aggregates

  const QueryStart: int := DefaultQueryStart
  const QueryEnd: int := DefaultQueryEnd

  const RecordA: NumtRecord := NumtRecord("A", "chr1", 10000, 12137)
  const RecordB: NumtRecord := NumtRecord("B", "chr2", 11000, 11500)
  const RecordC: NumtRecord := NumtRecord("C", "chr3", 12000, 13000)
  const RecordD: NumtRecord := NumtRecord("D", "chr4", 5000, 9000)

  /** The percentage num / den lies within 1/200 of hundredths / 100, so it
      shows as hundredths / 100 at two decimals. */
  predicate ShowsAs(r: Ratio, hundredths: int)
  {
    r.den > 0 && (2 * hundredths - 1) * r.den <= 200 * r.num <= (2 * hundredths + 1) * r.den
  }

  /** A contains the query: Complete, the whole query length, 100 percent. */
  lemma ScenarioComplete()
    ensures Overlaps(RecordA, QueryStart, QueryEnd)
    ensures Enrich(RecordA, QueryStart, QueryEnd).overlapType == Complete
    ensures Enrich(RecordA, QueryStart, QueryEnd).overlapLength == 1376
    ensures ShowsAs(Enrich(RecordA, QueryStart, QueryEnd).overlapPercentage, 10000)
  {
  }

  /** B lies inside the query: Internal, length 500, shown as 36.34 percent. */
  lemma ScenarioInternal()
    ensures Overlaps(RecordB, QueryStart, QueryEnd)
    ensures Enrich(RecordB, QueryStart, QueryEnd).overlapType == Internal
    ensures Enrich(RecordB, QueryStart, QueryEnd).overlapLength == 500
    ensures ShowsAs(Enrich(RecordB, QueryStart, QueryEnd).overlapPercentage, 3634)
  {
  }

  /** C runs past the query's right end: Partial (Right), overlap [12000, 12137]. */
  lemma ScenarioPartialRight()
    ensures Overlaps(RecordC, QueryStart, QueryEnd)
    ensures Enrich(RecordC, QueryStart, QueryEnd).overlapType == PartialRight
    ensures Enrich(RecordC, QueryStart, QueryEnd).overlapStart == 12000
    ensures Enrich(RecordC, QueryStart, QueryEnd).overlapEnd == 12137
    ensures Enrich(RecordC, QueryStart, QueryEnd).overlapLength == 137
  {
  }

  /** D ends before the query starts and is dropped; the table of all four
      records holds A, B and C in input order. */
  lemma ScenarioTable()
    ensures !Overlaps(RecordD, QueryStart, QueryEnd)
    ensures Table([RecordA, RecordB, RecordC, RecordD], QueryStart, QueryEnd) ==
      [Enrich(RecordA, QueryStart, QueryEnd), Enrich(RecordB, QueryStart, QueryEnd),
       Enrich(RecordC, QueryStart, QueryEnd)]
  {
    var f := Filter([RecordA, RecordB, RecordC, RecordD], QueryStart, QueryEnd);
    assert Filter([RecordD], QueryStart, QueryEnd) == [];
    assert Filter([RecordC, RecordD], QueryStart, QueryEnd) == [RecordC];
    assert Filter([RecordB, RecordC, RecordD], QueryStart, QueryEnd) == [RecordB, RecordC];
    assert f == [RecordA, RecordB, RecordC];
    var rows := Table([RecordA, RecordB, RecordC, RecordD], QueryStart, QueryEnd);
    assert |rows| == 3;
    assert rows[0].record == RecordA && rows[1].record == RecordB && rows[2].record == RecordC;
  }

  /** The summary of that table: count 3, bases covered 2013, longest 1376,
      shortest 137. */
  lemma ScenarioSummary()
    ensures var s := Summarize(Table([RecordA, RecordB, RecordC, RecordD], QueryStart, QueryEnd), QueryStart, QueryEnd);
      s.totalOverlaps == 3 && s.totalBasesCovered == 2013
      && s.maxOverlapLength == 1376 && s.minOverlapLength == 137
  {
    ScenarioTable();
    ScenarioComplete();
    ScenarioInternal();
    ScenarioPartialRight();
    var rows := [Enrich(RecordA, QueryStart, QueryEnd), Enrich(RecordB, QueryStart, QueryEnd),
                 Enrich(RecordC, QueryStart, QueryEnd)];
    assert Lengths(rows) == [1376, 500, 137];
    assert Aggregates.Sum([137]) == 137;
    assert Aggregates.Sum([500, 137]) == 637;
    assert Aggregates.Sum([1376, 500, 137]) == 2013;
  }

  /** The bases covered are a raw sum: two records that both contain the query
      cover "200 percent" of it. */
  lemma ScenarioDoubleCounting()
    ensures var s := Summarize(Table([RecordA, RecordA], QueryStart, QueryEnd), QueryStart, QueryEnd);
      s.totalBasesCovered == 2752 && ShowsAs(s.percentQueryCovered, 20000)
  {
    assert Filter([RecordA], QueryStart, QueryEnd) == [RecordA];
    assert Filter([RecordA, RecordA], QueryStart, QueryEnd) == [RecordA, RecordA];
    var rows := Table([RecordA, RecordA], QueryStart, QueryEnd);
    ScenarioComplete();
    assert Lengths(rows) == [1376, 1376];
    assert Aggregates.Sum([1376]) == 1376;
    assert Aggregates.Sum([1376, 1376]) == 2752;
  }

  /** A reversed record passes the mask and gets a negative overlap length. */
  lemma ScenarioReversedRecord()
    ensures Overlaps(NumtRecord("R", "chr5", 8, 2), 0, 10)
    ensures Enrich(NumtRecord("R", "chr5", 8, 2), 0, 10).overlapLength == -6
  {
  }

  /** A reversed query (end before start) is not rejected: a record still
      passes the mask, and its percentage is the finite quotient -500 / -5,
      that is 100. */
  lemma ScenarioReversedQuery()
    ensures Overlaps(NumtRecord("Q", "chr6", 5, 20), 15, 10)
    ensures Enrich(NumtRecord("Q", "chr6", 5, 20), 15, 10).overlapLength == -5
    ensures Enrich(NumtRecord("Q", "chr6", 5, 20), 15, 10).overlapPercentage == Ratio(-500, -5)
  {
  }
}
