/** Monthly severity trends: one severity row per creation month, reported
    in ascending month order. Months without records get no row. */
module Trends {
  import opened Text
  import opened Collections
  import opened Sorting
  import opened Defects
  import opened SeverityTable

  /** The `'%Y-%m'` key of a record's creation instant. */
  function MonthOf(d: Defect): string
  {
    d.createdMonth
  }

  /** `sorted(severity_trends.items())`: the keys are distinct, so rows are
      ordered by their month string. */
  predicate MonthLe(a: SeverityRow<string>, b: SeverityRow<string>)
  {
    LexLe(a.key, b.key)
  }

  lemma MonthLeIsPreorder()
    ensures TotalPreorder(MonthLe)
  {
    forall a: SeverityRow<string>, b: SeverityRow<string> ensures MonthLe(a, b) || MonthLe(b, a) {
      LexLeTotal(a.key, b.key);
    }
    forall a: SeverityRow<string>, b: SeverityRow<string>, c: SeverityRow<string>
      | MonthLe(a, b) && MonthLe(b, c) ensures MonthLe(a, c) {
      LexLeTransitive(a.key, b.key, c.key);
    }
  }

  /** The reported timeline. */
  function SeverityTimeline(defects: seq<Defect>): seq<SeverityRow<string>>
  {
    SortBy(Rows(defects, MonthOf), MonthLe)
  }

  /** Months strictly increase down the timeline. */
  lemma TimelineAscending(defects: seq<Defect>)
    ensures forall i, j :: 0 <= i < j < |SeverityTimeline(defects)| ==>
              LexLe(SeverityTimeline(defects)[i].key, SeverityTimeline(defects)[j].key) &&
              SeverityTimeline(defects)[i].key != SeverityTimeline(defects)[j].key
  {
    MonthLeIsPreorder();
    SortBySorted(Rows(defects, MonthOf), MonthLe);
    RowsExact(defects, MonthOf);
    SortByDistinct(Rows(defects, MonthOf), MonthLe, (r: SeverityRow<string>) => r.key);
  }

  /** A month has a row exactly when some record was created in it, and the
      row holds the severity counts of that month's records. */
  lemma TimelineMonths(defects: seq<Defect>, m: string)
    ensures (exists r :: r in SeverityTimeline(defects) && r.key == m) <==> HasKey(defects, MonthOf, m)
    ensures forall r :: r in SeverityTimeline(defects) ==> r.counts == RowCounts(defects, MonthOf, r.key)
  {
    var rows := Rows(defects, MonthOf);
    var timeline := SeverityTimeline(defects);
    SortByPermutes(rows, MonthLe);
    RowsExact(defects, MonthOf);
    assert forall r :: r in timeline <==> r in rows by {
      forall r ensures r in timeline <==> r in rows {
        assert r in timeline <==> r in multiset(timeline);
        assert r in rows <==> r in multiset(rows);
      }
    }
    if HasKey(defects, MonthOf, m) {
      var i :| 0 <= i < |defects| && MonthOf(defects[i]) == m;
      var r :| r in rows && r.key == MonthOf(defects[i]);
      assert r in timeline;
    }
  }

  /** What each column counts: the month's records whose severity reads
      "critical", "high", "med" or "low", ignoring case. */
  lemma TimelineColumns(defects: seq<Defect>, m: string)
    ensures RowCounts(defects, MonthOf, m).critical == Count(Group(defects, MonthOf, m), IsCritical)
    ensures RowCounts(defects, MonthOf, m).high == Count(Group(defects, MonthOf, m), SpelledHigh)
    ensures RowCounts(defects, MonthOf, m).medium == Count(Group(defects, MonthOf, m), SpelledMed)
    ensures RowCounts(defects, MonthOf, m).low == Count(Group(defects, MonthOf, m), SpelledLow)
  {
    SeverityTallyColumns(Group(defects, MonthOf, m));
  }

  /** Every record with a recognised severity is counted once across the
      timeline. */
  lemma TimelineTotal(defects: seq<Defect>)
    ensures SumOf(SeverityTimeline(defects), RowTotal) == Count(defects, HasSeverityKey)
  {
    SortByPermutes(Rows(defects, MonthOf), MonthLe);
    SumOfPermutation(SeverityTimeline(defects), Rows(defects, MonthOf), RowTotal);
    RowsTotal(defects, MonthOf);
  }
}
