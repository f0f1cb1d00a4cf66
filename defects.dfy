/** A defect record as the analytics endpoint reads it, and the per-record
    tests the aggregation applies to it: the open-status test, the severity
    normalisation `lower().replace('med', 'medium')`, the missing-field tests
    and the whole-day resolution time. */
module Defects {
  import opened Wrappers
  import opened Text
  import opened Collections

  /** Timestamps are instants in whole microseconds; a day is this many. */
  const MicrosPerDay: int := 86_400_000_000

  /** One defect record. `title`, `severity` and `status` are always
      present; the optional fields are `None` where the record holds Python's
      `None`. `createdMonth` is the `'%Y-%m'` rendering of `createdAt`.
      `resolvedAt` is `None` where `resolved_at` is `None` or empty.
      `recurrenceCount` is `None` where the record has no `recurrence_count`
      key, which the code reads as 1. */
  datatype Defect = Defect(
    id: string,
    title: string,
    component: Option<string>,
    severity: string,
    status: string,
    owner: Option<string>,
    release: Option<string>,
    createdAt: int,
    createdMonth: string,
    resolvedAt: Option<int>,
    description: Option<string>,
    recurrenceCount: Option<int>)

  /** The statuses that count as open, after lower-casing. */
  const OpenStatuses: seq<string> := ["open", "in progress", "in-progress"]

  predicate IsOpen(d: Defect)
  {
    Lower(d.status) in OpenStatuses
  }

  predicate IsCritical(d: Defect)
  {
    Lower(d.severity) == "critical"
  }

  /** `d.get('recurrence_count', 1)`. */
  function RecurrenceOf(d: Defect): int
  {
    match d.recurrenceCount
    case None => 1
    case Some(n) => n
  }

  predicate IsRecurring(d: Defect)
  {
    RecurrenceOf(d) > 1
  }

  /** Python's `not x` for an optional string: `None` or empty. */
  predicate Falsy(o: Option<string>)
  {
    o.None? || o.value == ""
  }

  predicate MissingComponent(d: Defect)
  {
    Falsy(d.component)
  }

  /** An owner of `unassigned` is as good as none. */
  predicate MissingOwner(d: Defect)
  {
    Falsy(d.owner) || d.owner == Some("unassigned")
  }

  predicate MissingDescription(d: Defect)
  {
    Falsy(d.description)
  }

  predicate IsResolved(d: Defect)
  {
    d.resolvedAt.Some?
  }

  /** `(resolved - created).days`: the whole days elapsed, rounded towards
      minus infinity as `timedelta.days` is. A record without `resolvedAt`
      is never passed here by the aggregation; it gets 0. */
  function ResolutionDays(d: Defect): (days: int)
    ensures d.resolvedAt.Some? ==>
              days * MicrosPerDay <= d.resolvedAt.value - d.createdAt < (days + 1) * MicrosPerDay
  {
    match d.resolvedAt
    case None => 0
    case Some(resolved) => (resolved - d.createdAt) / MicrosPerDay
  }

  /** The four keys of a severity row. */
  const SeverityKeys: seq<string> := ["critical", "high", "medium", "low"]

  /** `severity.lower().replace('med', 'medium')`. */
  function NormalizeSeverity(raw: string): string
  {
    ReplaceAll(Lower(raw), "med", "medium")
  }

  lemma {:induction false} ReplaceAllGrows(s: string, pattern: string, replacement: string)
    requires pattern != [] && |replacement| >= |pattern|
    ensures |ReplaceAll(s, pattern, replacement)| >= |s|
    decreases |s|
  {
    if |s| >= |pattern| {
      if StartsWith(s, pattern) {
        ReplaceAllGrows(s[|pattern|..], pattern, replacement);
      } else {
        ReplaceAllGrows(s[1..], pattern, replacement);
      }
    }
  }

  /** The only string that the replacement turns into "medium" is "med". */
  lemma {:induction false} OnlyMedBecomesMedium(t: string)
    ensures ReplaceAll(t, "med", "medium") == "medium" ==> t == "med"
  {
    var r := ReplaceAll(t, "med", "medium");
    if StartsWith(t, "med") {
      ReplaceAllGrows(t[3..], "med", "medium");
      assert t == t[..3] + t[3..];
    } else if t != [] {
      ReplaceAllHead(t, "med", "medium");
      var u := t[1..];
      var ru := ReplaceAll(u, "med", "medium");
      assert r[1..] == ru;
      if u == [] {
        assert |r| == 1;
      } else if StartsWith(u, "med") {
        assert ru[0] == 'm';
      } else {
        ReplaceAllHead(u, "med", "medium");
        var v := u[1..];
        var rv := ReplaceAll(v, "med", "medium");
        assert ru[1..] == rv;
        if v == [] {
          assert |r| == 2;
        } else if StartsWith(v, "med") {
          assert rv[0] == 'm';
        } else {
          ReplaceAllHead(v, "med", "medium");
          assert rv[0] == v[0];
          assert t[..3] == [t[0], u[0], v[0]];
        }
      }
    }
  }

  /** The records counted under "medium" are exactly those whose severity
      is "med" in some letter case. */
  lemma NormalizedMedium(raw: string)
    ensures NormalizeSeverity(raw) == "medium" <==> Lower(raw) == "med"
  {
    if NormalizeSeverity(raw) == "medium" {
      OnlyMedBecomesMedium(Lower(raw));
    }
    if Lower(raw) == "med" {
      assert StartsWith("med", "med");
      assert ReplaceAll("med"[3..], "med", "medium") == "";
    }
  }

  /** A word without the letter 'm' cannot contain "med". */
  lemma NoMedIn(key: string)
    requires 'm' !in key
    ensures !Contains(key, "med")
  {
    ContainsFirst(key, "med");
  }

  /** For the other three keys, normalisation changes nothing: a record
      counts under "critical", "high" or "low" exactly when its severity
      is that word in some letter case. */
  lemma NormalizedPlain(raw: string, key: string)
    requires key in ["critical", "high", "low"]
    ensures NormalizeSeverity(raw) == key <==> Lower(raw) == key
  {
    NoMedIn(key);
    if Contains(Lower(raw), "med") {
      ReplaceAllKeepsPattern(Lower(raw), "med", "medium");
    } else {
      ReplaceAllWithoutPattern(Lower(raw), "med", "medium");
    }
  }

  /** A severity spelled out as "medium" (in any letter case) becomes
      "mediumium", which is none of the four keys: such records are counted
      in no severity column. */
  lemma SpelledOutMediumIsDropped(raw: string)
    requires Lower(raw) == "medium"
    ensures NormalizeSeverity(raw) == "mediumium"
    ensures NormalizeSeverity(raw) !in SeverityKeys
  {
    var t := Lower(raw);
    assert StartsWith(t, "med");
    assert t[3..] == "ium";
    assert !StartsWith("ium", "med");
    assert ReplaceAll("ium", "med", "medium") == "i" + ReplaceAll("um", "med", "medium");
  }

  /** Counts per severity key, as in `{'critical': 0, 'high': 0, 'medium': 0, 'low': 0}`. */
  datatype SeverityCounts = SeverityCounts(critical: nat, high: nat, medium: nat, low: nat)
  {
    function Total(): nat
    {
      critical + high + medium + low
    }
  }

  const NoSeverities := SeverityCounts(0, 0, 0, 0)

  /** `if severity in counts: counts[severity] += 1`. */
  function Bump(c: SeverityCounts, severity: string): SeverityCounts
  {
    if severity == "critical" then c.(critical := c.critical + 1)
    else if severity == "high" then c.(high := c.high + 1)
    else if severity == "medium" then c.(medium := c.medium + 1)
    else if severity == "low" then c.(low := c.low + 1)
    else c
  }

  /** A record whose normalised severity is one of the four keys. */
  predicate HasSeverityKey(d: Defect)
  {
    NormalizeSeverity(d.severity) in SeverityKeys
  }

  /** The counts a severity row holds after its records are folded in. */
  function SeverityTally(g: seq<Defect>): (c: SeverityCounts)
    ensures c.Total() == Count(g, HasSeverityKey)
    ensures c.Total() <= |g|
  {
    if g == [] then NoSeverities
    else Bump(SeverityTally(g[..|g| - 1]), NormalizeSeverity(g[|g| - 1].severity))
  }

  /** Folding one more record into a row bumps the column of its severity. */
  lemma SeverityTallySnoc(g: seq<Defect>, d: Defect)
    ensures SeverityTally(g + [d]) == Bump(SeverityTally(g), NormalizeSeverity(d.severity))
  {
    assert (g + [d])[..|g|] == g;
  }

  predicate SpelledHigh(d: Defect) { Lower(d.severity) == "high" }
  predicate SpelledMed(d: Defect) { Lower(d.severity) == "med" }
  predicate SpelledLow(d: Defect) { Lower(d.severity) == "low" }

  /** One record moves exactly the column its severity spells. */
  lemma BumpColumns(c: SeverityCounts, raw: string)
    ensures Bump(c, NormalizeSeverity(raw)).critical == c.critical + (if Lower(raw) == "critical" then 1 else 0)
    ensures Bump(c, NormalizeSeverity(raw)).high == c.high + (if Lower(raw) == "high" then 1 else 0)
    ensures Bump(c, NormalizeSeverity(raw)).medium == c.medium + (if Lower(raw) == "med" then 1 else 0)
    ensures Bump(c, NormalizeSeverity(raw)).low == c.low + (if Lower(raw) == "low" then 1 else 0)
  {
    NormalizedPlain(raw, "critical");
    NormalizedPlain(raw, "high");
    NormalizedPlain(raw, "low");
    NormalizedMedium(raw);
  }

  /** What each column of a severity row counts: the records whose severity
      reads "critical", "high", "med" or "low" ignoring case. "medium" itself
      is not among them (see SpelledOutMediumIsDropped). */
  lemma SeverityTallyColumns(g: seq<Defect>)
    ensures SeverityTally(g).critical == Count(g, IsCritical)
    ensures SeverityTally(g).high == Count(g, SpelledHigh)
    ensures SeverityTally(g).medium == Count(g, SpelledMed)
    ensures SeverityTally(g).low == Count(g, SpelledLow)
  {
    CriticalColumn(g);
    HighColumn(g);
    MediumColumn(g);
    LowColumn(g);
  }

  lemma {:induction false} CriticalColumn(g: seq<Defect>)
    ensures SeverityTally(g).critical == Count(g, IsCritical)
    decreases |g|
  {
    if g != [] {
      CriticalColumn(g[..|g| - 1]);
      BumpColumns(SeverityTally(g[..|g| - 1]), g[|g| - 1].severity);
    }
  }

  lemma {:induction false} HighColumn(g: seq<Defect>)
    ensures SeverityTally(g).high == Count(g, SpelledHigh)
    decreases |g|
  {
    if g != [] {
      HighColumn(g[..|g| - 1]);
      BumpColumns(SeverityTally(g[..|g| - 1]), g[|g| - 1].severity);
    }
  }

  lemma {:induction false} MediumColumn(g: seq<Defect>)
    ensures SeverityTally(g).medium == Count(g, SpelledMed)
    decreases |g|
  {
    if g != [] {
      MediumColumn(g[..|g| - 1]);
      BumpColumns(SeverityTally(g[..|g| - 1]), g[|g| - 1].severity);
    }
  }

  lemma {:induction false} LowColumn(g: seq<Defect>)
    ensures SeverityTally(g).low == Count(g, SpelledLow)
    decreases |g|
  {
    if g != [] {
      LowColumn(g[..|g| - 1]);
      BumpColumns(SeverityTally(g[..|g| - 1]), g[|g| - 1].severity);
    }
  }
}
