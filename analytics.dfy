/** The `GET /defects/analytics` payload: the headline figures, the
    recurrence ranking, the monthly severity trends, the component heatmap,
    the release calendar and the data-quality block, all computed in one
    pass of the endpoint over the records. */
module Analytics {
  import opened Wrappers
  import opened Collections
  import opened Sorting
  import opened Defects
  import opened Kpis
  import opened Recurrence
  import opened SeverityTable
  import opened Trends
  import opened Heatmap
  import opened Releases

  /** The `"kpis"` block, rates unrounded. */
  datatype KeyFigures = KeyFigures(
    totalDefects: nat,
    openDefects: nat,
    criticalDefects: nat,
    recurrenceRate: real,
    avgResolutionTime: real,
    missingRequiredFieldsPct: real)

  datatype DefectAnalytics = DefectAnalytics(
    kpis: KeyFigures,
    recurrenceAnalysis: seq<RecurrenceEntry>,
    severityTrends: seq<SeverityRow<string>>,
    componentSeverityHeatmap: seq<SeverityRow<Option<string>>>,
    releaseCalendar: seq<ReleaseRow>,
    dataQuality: DataQuality)

  /** What the endpoint answers for `defects`: the payload, or the division
      by zero the missing-fields percentage raises when there are no
      records. */
  function AnalyticsOf(defects: seq<Defect>): (r: Result<DefectAnalytics, AnalyticsError>)
    ensures r.Failure? <==> |defects| == 0
    ensures r.Success? ==>
              && r.value.kpis.totalDefects == r.value.dataQuality.totalRecords == |defects|
              && r.value.kpis.openDefects <= |defects|
              && r.value.kpis.criticalDefects <= |defects|
              && 0.0 <= r.value.kpis.recurrenceRate <= 100.0
              && 0.0 <= r.value.kpis.missingRequiredFieldsPct <= 100.0
              && |r.value.recurrenceAnalysis| <= TopTitles
              && |r.value.componentSeverityHeatmap| <= TopComponents
  {
    match MissingRequiredFieldsPct(defects)
    case Failure(e) => Failure(e)
    case Success(pct) =>
      Success(DefectAnalytics(
        KeyFigures(|defects|, Count(defects, IsOpen), Count(defects, IsCritical),
                   RecurrenceRate(defects), AvgResolutionTime(defects), pct),
        RecurrenceAnalysis(defects),
        SeverityTimeline(defects),
        ComponentHeatmap(defects),
        ReleaseCalendar(defects),
        DataQualityOf(defects)))
  }

  /** `avg_resolution_time`: the running total of whole days over the
      resolved records, divided by their number. */
  method AverageResolution(defects: seq<Defect>) returns (avg: real)
    ensures avg == AvgResolutionTime(defects)
  {
    var resolved := ResolvedDefects(defects);
    var total := TotalResolutionTime(resolved);
    avg := if resolved != [] then total as real / |resolved| as real else 0.0;
  }

  /** `recurrence_data`: the title dictionary filled by its loop, its items
      ranked and cut to ten. */
  method RecurrenceSection(defects: seq<Defect>) returns (entries: seq<RecurrenceEntry>)
    ensures entries == RecurrenceAnalysis(defects)
  {
    var titles, totals := TallyRecurrence(defects);
    var items := seq(|titles|, i requires 0 <= i < |titles| => RecurrenceEntry(titles[i], totals[titles[i]]));
    assert items == RecurrenceEntries(defects);
    entries := TopBy(items, RanksAtLeast, TopTitles);
  }

  /** `severity_timeline`: the month dictionary filled by its loop, its
      items sorted by month. */
  method TrendSection(defects: seq<Defect>) returns (timeline: seq<SeverityRow<string>>)
    ensures timeline == SeverityTimeline(defects)
  {
    var months, table := TallySeverities(defects, MonthOf);
    ItemsOfTallied(defects, MonthOf, months, table);
    timeline := SortBy(ItemsOf(months, table), MonthLe);
  }

  /** `heatmap_data`: the component dictionary filled by its loop, its items
      ranked by row total and cut to ten. */
  method HeatmapSection(defects: seq<Defect>) returns (heatmap: seq<SeverityRow<Option<string>>>)
    ensures heatmap == ComponentHeatmap(defects)
  {
    var components, table := TallySeverities(defects, ComponentOf);
    ItemsOfTallied(defects, ComponentOf, components, table);
    heatmap := TopBy(ItemsOf(components, table), TotalAtLeast, TopComponents);
  }

  /** `release_calendar`: the release dictionary filled by its loop, its
      items sorted by release. */
  method CalendarSection(defects: seq<Defect>) returns (calendar: seq<ReleaseRow>)
    ensures calendar == ReleaseCalendar(defects)
  {
    var releases, table := TallyReleases(defects);
    ReleaseItemsOfTallied(Scheduled(defects), releases, table);
    calendar := SortBy(ReleaseItemsOf(releases, table), ReleaseLe);
  }

  /** The endpoint, section by section in the order it computes them; it
      stops at the missing-fields division when there are no records. */
  method GetDefectAnalytics(defects: seq<Defect>) returns (r: Result<DefectAnalytics, AnalyticsError>)
    ensures r == AnalyticsOf(defects)
  {
    var total := |defects|;
    var open := Count(defects, IsOpen);
    var critical := Count(defects, IsCritical);
    var rate := RecurrenceRate(defects);
    var avg := AverageResolution(defects);
    var pct := MissingRequiredFieldsPct(defects);
    if pct.Failure? {
      return Failure(pct.error);
    }
    var recurrence := RecurrenceSection(defects);
    var timeline := TrendSection(defects);
    var heatmap := HeatmapSection(defects);
    var calendar := CalendarSection(defects);
    r := Success(DefectAnalytics(
      KeyFigures(total, open, critical, rate, avg, pct.value),
      recurrence, timeline, heatmap, calendar, DataQualityOf(defects)));
  }

  /** The counted severities agree across the payload: the records counted
      in the monthly trend are those counted in the component dictionary,
      and the heatmap shows at most that many. */
  lemma AnalyticsSeverityTotals(defects: seq<Defect>)
    requires |defects| > 0
    ensures var a := AnalyticsOf(defects).value;
            SumOf(a.severityTrends, RowTotal) == Count(defects, HasSeverityKey) &&
            SumOf(a.componentSeverityHeatmap, RowTotal) <= Count(defects, HasSeverityKey)
  {
    TimelineTotal(defects);
    HeatmapTotalBound(defects);
  }
}
