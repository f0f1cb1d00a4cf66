/** The component × severity heatmap: one severity row per component value
    (a missing component is a key of its own), the ten rows with the most
    counted records reported, largest first. */
module Heatmap {
  import opened Wrappers
  import opened Collections
  import opened Sorting
  import opened Defects
  import opened SeverityTable

  /** How many rows the heatmap reports at most. */
  const TopComponents: nat := 10

  /** The dictionary key: the component as recorded, `None` included. */
  function ComponentOf(d: Defect): Option<string>
  {
    d.component
  }

  /** `key=lambda x: sum(x[1].values()), reverse=True`. */
  predicate TotalAtLeast(a: SeverityRow<Option<string>>, b: SeverityRow<Option<string>>)
  {
    RowTotal(a) >= RowTotal(b)
  }

  lemma TotalAtLeastIsPreorder()
    ensures TotalPreorder(TotalAtLeast)
  {
  }

  /** The reported heatmap. */
  function ComponentHeatmap(defects: seq<Defect>): seq<SeverityRow<Option<string>>>
  {
    TopBy(Rows(defects, ComponentOf), TotalAtLeast, TopComponents)
  }

  /** Ten rows, or one per component value when there are fewer. */
  lemma HeatmapLength(defects: seq<Defect>)
    ensures |ComponentHeatmap(defects)| == Min(TopComponents, |Keys(defects, ComponentOf)|)
  {
  }

  /** Each reported row is the row of a component of the records. */
  lemma HeatmapRows(defects: seq<Defect>)
    ensures forall r :: r in ComponentHeatmap(defects) ==>
              HasKey(defects, ComponentOf, r.key) && r.counts == RowCounts(defects, ComponentOf, r.key)
  {
    var rows := Rows(defects, ComponentOf);
    RowsExact(defects, ComponentOf);
    TopByFromInput(rows, TotalAtLeast, TopComponents);
    forall r | r in ComponentHeatmap(defects)
      ensures HasKey(defects, ComponentOf, r.key) && r.counts == RowCounts(defects, ComponentOf, r.key)
    {
      assert r in multiset(ComponentHeatmap(defects));
      assert r in rows;
    }
  }

  /** No component is reported twice. */
  lemma HeatmapDistinct(defects: seq<Defect>)
    ensures DistinctBy(ComponentHeatmap(defects), (r: SeverityRow<Option<string>>) => r.key)
  {
    var rows := Rows(defects, ComponentOf);
    RowsExact(defects, ComponentOf);
    SortByDistinct(rows, TotalAtLeast, (r: SeverityRow<Option<string>>) => r.key);
  }

  /** The row totals never increase down the list. */
  lemma HeatmapRanked(defects: seq<Defect>)
    ensures forall i, j :: 0 <= i < j < |ComponentHeatmap(defects)| ==>
              RowTotal(ComponentHeatmap(defects)[i]) >= RowTotal(ComponentHeatmap(defects)[j])
  {
    TotalAtLeastIsPreorder();
    TopBySorted(Rows(defects, ComponentOf), TotalAtLeast, TopComponents);
  }

  /** The ten largest: a component left out has no more counted records
      than any reported one. */
  lemma HeatmapIsTop(defects: seq<Defect>, c: Option<string>)
    requires HasKey(defects, ComponentOf, c)
    ensures (exists r :: r in ComponentHeatmap(defects) && r.key == c) ||
            forall r :: r in ComponentHeatmap(defects) ==>
              RowTotal(r) >= RowCounts(defects, ComponentOf, c).Total()
  {
    var rows := Rows(defects, ComponentOf);
    RowsExact(defects, ComponentOf);
    var i :| 0 <= i < |defects| && ComponentOf(defects[i]) == c;
    var x :| x in rows && x.key == c;
    TotalAtLeastIsPreorder();
    TopByDominates(rows, TotalAtLeast, TopComponents);
    if x in multiset(ComponentHeatmap(defects)) {
      assert x in ComponentHeatmap(defects);
    }
  }

  /** Components whose totals tie are reported in the order they first
      appear in the records. */
  lemma HeatmapStable(defects: seq<Defect>, c: SeverityRow<Option<string>>)
    ensures |Ties(ComponentHeatmap(defects), TotalAtLeast, c)| <= |Ties(Rows(defects, ComponentOf), TotalAtLeast, c)|
    ensures Ties(Rows(defects, ComponentOf), TotalAtLeast, c)[..|Ties(ComponentHeatmap(defects), TotalAtLeast, c)|] ==
            Ties(ComponentHeatmap(defects), TotalAtLeast, c)
  {
    TotalAtLeastIsPreorder();
    TopByStable(Rows(defects, ComponentOf), TotalAtLeast, TopComponents, c);
  }

  /** No record is counted twice: the reported rows together count at most
      the records with a recognised severity. */
  lemma HeatmapTotalBound(defects: seq<Defect>)
    ensures SumOf(ComponentHeatmap(defects), RowTotal) <= Count(defects, HasSeverityKey)
  {
    var rows := Rows(defects, ComponentOf);
    var sorted := SortBy(rows, TotalAtLeast);
    SortByPermutes(rows, TotalAtLeast);
    forall r | r in sorted ensures RowTotal(r) >= 0 {
    }
    SumOfPrefix(sorted, Min(TopComponents, |rows|), RowTotal);
    SumOfPermutation(sorted, rows, RowTotal);
    RowsTotal(defects, ComponentOf);
  }
}
