/** The `GET /defects` listing: up to four optional query parameters, each
    applied in turn as a list comprehension over the records, and the page
    `{"defects": ..., "total": ...}` it answers with. */
module DefectFilters {
  import opened Wrappers
  import opened Text
  import opened Collections
  import opened Defects

  /** The query parameters; `None` where the parameter is absent. */
  datatype DefectQuery = DefectQuery(
    severity: Option<string>,
    status: Option<string>,
    component: Option<string>,
    release: Option<string>)

  datatype DefectPage = DefectPage(defects: seq<Defect>, total: nat)

  /** Python's `if param:` on an optional string: present and not empty. */
  predicate Given(o: Option<string>)
  {
    o.Some? && o.value != ""
  }

  /** The severity equals the parameter, ignoring letter case. */
  function SeverityIs(severity: string): Defect -> bool
  {
    (d: Defect) => Lower(d.severity) == Lower(severity)
  }

  /** The status equals the parameter, ignoring letter case. */
  function StatusIs(status: string): Defect -> bool
  {
    (d: Defect) => Lower(d.status) == Lower(status)
  }

  /** The record has a non-empty component containing the parameter,
      ignoring letter case. */
  function ComponentHas(component: string): Defect -> bool
  {
    (d: Defect) => d.component.Some? && d.component.value != "" &&
         Contains(Lower(d.component.value), Lower(component))
  }

  /** The release equals the parameter exactly. */
  function ReleaseIs(release: string): Defect -> bool
  {
    (d: Defect) => d.release == Some(release)
  }

  /** One stage of the chain: filter by `p` when the parameter is given. */
  function Stage(defects: seq<Defect>, param: Option<string>, p: string -> (Defect -> bool)): seq<Defect>
  {
    if Given(param) then Filter(defects, p(param.value)) else defects
  }

  /** The listing as the endpoint computes it: severity, then status, then
      component, then release. */
  function GetDefects(defects: seq<Defect>, q: DefectQuery): (page: DefectPage)
    ensures page.total == |page.defects| <= |defects|
  {
    var byRelease := Stage(AfterComponent(defects, q), q.release, ReleaseIs);
    DefectPage(byRelease, |byRelease|)
  }

  predicate SeverityPasses(q: DefectQuery, d: Defect)
  {
    Given(q.severity) ==> SeverityIs(q.severity.value)(d)
  }

  predicate StatusPasses(q: DefectQuery, d: Defect)
  {
    Given(q.status) ==> StatusIs(q.status.value)(d)
  }

  predicate ComponentPasses(q: DefectQuery, d: Defect)
  {
    Given(q.component) ==> ComponentHas(q.component.value)(d)
  }

  predicate ReleasePasses(q: DefectQuery, d: Defect)
  {
    Given(q.release) ==> ReleaseIs(q.release.value)(d)
  }

  /** The reference reading of a query: a record is listed when it passes
      every test whose parameter is given. */
  predicate Matches(q: DefectQuery, d: Defect)
  {
    SeverityPasses(q, d) && StatusPasses(q, d) && ComponentPasses(q, d) && ReleasePasses(q, d)
  }

  function MatchesQuery(q: DefectQuery): Defect -> bool
  {
    (d: Defect) => Matches(q, d)
  }

  /** A stage keeps exactly the records passing its test, or all of them
      when its parameter is not given. */
  lemma StageIsFilter(defects: seq<Defect>, param: Option<string>, p: string -> (Defect -> bool),
                      test: Defect -> bool)
    requires forall d :: test(d) == (Given(param) ==> p(param.value)(d))
    ensures Stage(defects, param, p) == Filter(defects, test)
  {
    if !Given(param) {
      FilterKeepsAll(defects, test);
    } else {
      FilterTwice(defects, x => true, p(param.value), test);
      FilterKeepsAll(defects, x => true);
    }
  }

  function AfterSeverity(defects: seq<Defect>, q: DefectQuery): seq<Defect>
  {
    Stage(defects, q.severity, SeverityIs)
  }

  function AfterStatus(defects: seq<Defect>, q: DefectQuery): seq<Defect>
  {
    Stage(AfterSeverity(defects, q), q.status, StatusIs)
  }

  function AfterComponent(defects: seq<Defect>, q: DefectQuery): seq<Defect>
  {
    Stage(AfterStatus(defects, q), q.component, ComponentHas)
  }

  lemma AfterSeverityIsFilter(defects: seq<Defect>, q: DefectQuery)
    ensures AfterSeverity(defects, q) == Filter(defects, (d: Defect) => SeverityPasses(q, d))
  {
    StageIsFilter(defects, q.severity, SeverityIs, (d: Defect) => SeverityPasses(q, d));
  }

  lemma AfterStatusIsFilter(defects: seq<Defect>, q: DefectQuery)
    ensures AfterStatus(defects, q) ==
            Filter(defects, (d: Defect) => SeverityPasses(q, d) && StatusPasses(q, d))
  {
    AfterSeverityIsFilter(defects, q);
    StageIsFilter(AfterSeverity(defects, q), q.status, StatusIs, (d: Defect) => StatusPasses(q, d));
    FilterTwice(defects, (d: Defect) => SeverityPasses(q, d), (d: Defect) => StatusPasses(q, d),
                (d: Defect) => SeverityPasses(q, d) && StatusPasses(q, d));
  }

  lemma AfterComponentIsFilter(defects: seq<Defect>, q: DefectQuery)
    ensures AfterComponent(defects, q) ==
            Filter(defects, (d: Defect) => SeverityPasses(q, d) && StatusPasses(q, d) && ComponentPasses(q, d))
  {
    AfterStatusIsFilter(defects, q);
    StageIsFilter(AfterStatus(defects, q), q.component, ComponentHas, (d: Defect) => ComponentPasses(q, d));
    FilterTwice(defects, (d: Defect) => SeverityPasses(q, d) && StatusPasses(q, d),
                (d: Defect) => ComponentPasses(q, d),
                (d: Defect) => SeverityPasses(q, d) && StatusPasses(q, d) && ComponentPasses(q, d));
  }

  /** The chained filters select, in their original order, exactly the
      records that match the whole query: the order in which the stages run
      does not matter. */
  lemma GetDefectsSelectsMatches(defects: seq<Defect>, q: DefectQuery)
    ensures GetDefects(defects, q).defects == Filter(defects, MatchesQuery(q))
  {
    AfterComponentIsFilter(defects, q);
    StageIsFilter(AfterComponent(defects, q), q.release, ReleaseIs, (d: Defect) => ReleasePasses(q, d));
    FilterTwice(defects, (d: Defect) => SeverityPasses(q, d) && StatusPasses(q, d) && ComponentPasses(q, d),
                (d: Defect) => ReleasePasses(q, d), MatchesQuery(q));
  }

  /** A record is listed exactly when it is one of the records and matches
      the query. */
  lemma GetDefectsMembership(defects: seq<Defect>, q: DefectQuery, d: Defect)
    ensures d in GetDefects(defects, q).defects <==> d in defects && Matches(q, d)
  {
    GetDefectsSelectsMatches(defects, q);
    FilterMembers(defects, MatchesQuery(q));
  }

  /** With no parameter given, every record is listed, in order. */
  lemma GetDefectsNoFilters(defects: seq<Defect>, q: DefectQuery)
    requires !Given(q.severity) && !Given(q.status) && !Given(q.component) && !Given(q.release)
    ensures GetDefects(defects, q) == DefectPage(defects, |defects|)
  {
  }

  /** Asking again with the same query over the answer changes nothing. */
  lemma GetDefectsIdempotent(defects: seq<Defect>, q: DefectQuery)
    ensures GetDefects(GetDefects(defects, q).defects, q) == GetDefects(defects, q)
  {
    var listed := GetDefects(defects, q).defects;
    GetDefectsSelectsMatches(defects, q);
    GetDefectsSelectsMatches(listed, q);
    FilterMembers(defects, MatchesQuery(q));
    FilterKeepsAll(listed, MatchesQuery(q));
  }
}
