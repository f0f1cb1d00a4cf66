/** The headline figures of the analytics endpoint: record counts, the
    recurrence rate, the average resolution time and the data-quality
    counts. Rates are exact ratios; the endpoint rounds them for display. */
module Kpis {
  import opened Wrappers
  import opened Collections
  import opened Defects

  /** Why the analytics cannot be computed: the missing-fields percentage
      divides by twice the number of records, unguarded. */
  datatype AnalyticsError = DivisionByZero

  datatype DataQuality = DataQuality(
    missingComponent: nat,
    missingOwner: nat,
    missingDescription: nat,
    totalRecords: nat)

  /** A count out of a positive total is a fraction of at most one. */
  lemma FractionAtMostOne(part: int, whole: int)
    requires 0 <= part <= whole && 0 < whole
    ensures 0.0 <= part as real / whole as real <= 1.0
  {
    assert part as real <= whole as real;
  }

  /** Percentage of records that recur; 0 when there are none. */
  function RecurrenceRate(defects: seq<Defect>): (rate: real)
    ensures 0.0 <= rate <= 100.0
    ensures |defects| == 0 ==> rate == 0.0
    ensures rate * (|defects| as real) == (Count(defects, IsRecurring) as real) * 100.0
  {
    if |defects| > 0 then
      FractionAtMostOne(Count(defects, IsRecurring), |defects|);
      var n, k := |defects| as real, Count(defects, IsRecurring) as real;
      k / n * 100.0
    else 0.0
  }

  /** The records that have a resolution instant. */
  function ResolvedDefects(defects: seq<Defect>): (resolved: seq<Defect>)
    ensures forall d :: d in resolved <==> d in defects && IsResolved(d)
  {
    FilterMembers(defects, IsResolved);
    Filter(defects, IsResolved)
  }

  /** The running total `total_resolution_time += (resolved - created).days`. */
  method TotalResolutionTime(resolved: seq<Defect>) returns (total: int)
    ensures total == SumOf(resolved, ResolutionDays)
  {
    total := 0;
    var i := 0;
    while i < |resolved|
      invariant 0 <= i <= |resolved|
      invariant total == SumOf(resolved[..i], ResolutionDays)
    {
      assert resolved[..i + 1][..i] == resolved[..i];
      total := total + ResolutionDays(resolved[i]);
      i := i + 1;
    }
    assert resolved[..i] == resolved;
  }

  /** The time a record took to resolve, in microseconds. */
  function Elapsed(d: Defect): int
  {
    match d.resolvedAt
    case None => 0
    case Some(resolved) => resolved - d.createdAt
  }

  /** Whole days lose less than one day per record: the day total is the
      elapsed total rounded down per record. */
  lemma {:induction false} ResolutionTotalBounds(resolved: seq<Defect>)
    requires forall d :: d in resolved ==> IsResolved(d)
    ensures SumOf(resolved, ResolutionDays) * MicrosPerDay <= SumOf(resolved, Elapsed)
    ensures SumOf(resolved, Elapsed) < (SumOf(resolved, ResolutionDays) + |resolved|) * MicrosPerDay
            || resolved == []
    decreases |resolved|
  {
    if resolved != [] {
      var init, d := resolved[..|resolved| - 1], resolved[|resolved| - 1];
      assert d in resolved;
      assert forall x :: x in init ==> x in resolved;
      ResolutionTotalBounds(init);
      var days := ResolutionDays(d);
      assert days * MicrosPerDay <= Elapsed(d) < (days + 1) * MicrosPerDay;
    }
  }

  /** Mean whole days to resolution over the resolved records; 0 when none
      is resolved. */
  function AvgResolutionTime(defects: seq<Defect>): (avg: real)
    ensures ResolvedDefects(defects) == [] ==> avg == 0.0
    ensures avg * (|ResolvedDefects(defects)| as real) ==
            SumOf(ResolvedDefects(defects), ResolutionDays) as real
  {
    var resolved := ResolvedDefects(defects);
    if resolved == [] then 0.0
    else SumOf(resolved, ResolutionDays) as real / |resolved| as real
  }

  lemma RealOfProduct(a: int, b: int)
    ensures (a * b) as real == a as real * b as real
  {
  }

  /** A mean of terms in [lo, hi] lies in [lo, hi]. */
  lemma MeanBounds(sum: int, n: int, lo: int, hi: int)
    requires n > 0 && lo * n <= sum <= hi * n
    ensures lo as real <= sum as real / n as real <= hi as real
  {
    RealOfProduct(lo, n);
    RealOfProduct(hi, n);
    var r := n as real;
    assert (lo as real * r) / r == lo as real && (hi as real * r) / r == hi as real;
  }

  /** The average lies between the fastest and the slowest resolution. */
  lemma AvgResolutionTimeBounds(defects: seq<Defect>, lo: int, hi: int)
    requires forall d :: d in defects && IsResolved(d) ==> lo <= ResolutionDays(d) <= hi
    requires ResolvedDefects(defects) != []
    ensures lo as real <= AvgResolutionTime(defects) <= hi as real
  {
    var resolved := ResolvedDefects(defects);
    assert forall d :: d in resolved ==> lo <= ResolutionDays(d) <= hi;
    SumOfBounds(resolved, ResolutionDays, lo, hi);
    MeanBounds(SumOf(resolved, ResolutionDays), |resolved|, lo, hi);
  }

  function MissingComponentCount(defects: seq<Defect>): nat
  {
    Count(defects, MissingComponent)
  }

  function MissingOwnerCount(defects: seq<Defect>): nat
  {
    Count(defects, MissingOwner)
  }

  /** `(missing_component + missing_owner) / (total * 2) * 100`: the share
      of the two required fields that are missing. With no records the
      division fails. */
  function MissingRequiredFieldsPct(defects: seq<Defect>): (r: Result<real, AnalyticsError>)
    ensures r.Failure? <==> |defects| == 0
    ensures r.Success? ==> 0.0 <= r.value <= 100.0
    ensures r.Success? ==>
              r.value * ((2 * |defects|) as real) ==
              ((MissingComponentCount(defects) + MissingOwnerCount(defects)) as real) * 100.0
  {
    if |defects| == 0 then Failure(DivisionByZero)
    else
      FractionAtMostOne(MissingComponentCount(defects) + MissingOwnerCount(defects), |defects| * 2);
      var missing := (MissingComponentCount(defects) + MissingOwnerCount(defects)) as real;
      var slots := (|defects| * 2) as real;
      Success(missing / slots * 100.0)
  }

  /** The data-quality block: each count is a count of records, so none
      exceeds the number of records. */
  function DataQualityOf(defects: seq<Defect>): (q: DataQuality)
    ensures q.totalRecords == |defects|
    ensures q.missingComponent <= q.totalRecords
    ensures q.missingOwner <= q.totalRecords
    ensures q.missingDescription <= q.totalRecords
  {
    DataQuality(
      MissingComponentCount(defects),
      MissingOwnerCount(defects),
      Count(defects, MissingDescription),
      |defects|)
  }

  /** The data quality is perfect, and the missing-fields percentage 0,
      exactly when every record has a component and a real owner. */
  lemma NothingMissingIff(defects: seq<Defect>)
    requires |defects| > 0
    ensures MissingRequiredFieldsPct(defects) == Success(0.0) <==>
            forall i :: 0 <= i < |defects| ==> !MissingComponent(defects[i]) && !MissingOwner(defects[i])
  {
    CountZeroIff(defects, MissingComponent);
    CountZeroIff(defects, MissingOwner);
  }
}
