/** The release calendar: the records with a usable release are grouped by
    release, each group counted as total, open and closed, and the groups
    reported in ascending release order. */
module Releases {
  import opened Wrappers
  import opened Text
  import opened Collections
  import opened Sorting
  import opened Defects

  /** Release values that do not name a release. */
  const ExcludedReleases: seq<string> := ["", "TBD", "unknown"]

  /** `release and release not in ['', 'TBD', 'unknown', None]`. */
  predicate HasValidRelease(d: Defect)
  {
    d.release.Some? && d.release.value !in ExcludedReleases
  }

  function ReleaseOf(d: Defect): string
  {
    if d.release.Some? then d.release.value else ""
  }

  /** The records the calendar counts, in order. */
  function Scheduled(defects: seq<Defect>): seq<Defect>
  {
    Filter(defects, HasValidRelease)
  }

  datatype ReleaseCounts = ReleaseCounts(total: nat, open: nat, closed: nat)

  /** One record added to a release's counts. */
  function AddTo(c: ReleaseCounts, d: Defect): ReleaseCounts
  {
    if IsOpen(d) then c.(total := c.total + 1, open := c.open + 1)
    else c.(total := c.total + 1, closed := c.closed + 1)
  }

  /** The counts a release's records add up to: every record is counted
      once in the total and once as either open or closed. */
  function ReleaseCountsOf(g: seq<Defect>): (c: ReleaseCounts)
    ensures c.total == |g|
    ensures c.open == Count(g, IsOpen)
    ensures c.total == c.open + c.closed
  {
    if g == [] then ReleaseCounts(0, 0, 0)
    else AddTo(ReleaseCountsOf(g[..|g| - 1]), g[|g| - 1])
  }

  /** The dictionary value for release `r`, over the records `kept` that
      passed the release test. */
  function ReleaseTotals(kept: seq<Defect>, r: string): ReleaseCounts
  {
    ReleaseCountsOf(Group(kept, ReleaseOf, r))
  }

  lemma ScheduledSnoc(defects: seq<Defect>, d: Defect)
    ensures Scheduled(defects + [d]) == Scheduled(defects) + (if HasValidRelease(d) then [d] else [])
  {
    FilterAppend(defects, [d], HasValidRelease);
    assert [d][..0] == [];
  }

  lemma ReleaseTotalsSnoc(kept: seq<Defect>, d: Defect, r: string)
    ensures ReleaseTotals(kept + [d], r) ==
            if ReleaseOf(d) == r then AddTo(ReleaseTotals(kept, r), d) else ReleaseTotals(kept, r)
  {
    var g := Group(kept, ReleaseOf, r);
    GroupSnoc(kept, d, ReleaseOf, r);
    if ReleaseOf(d) == r {
      assert (g + [d])[..|g|] == g;
    } else {
      assert g + [] == g;
    }
  }

  /** `order` and `table` are the dictionary filled from the records `kept`
      that passed the release test: its keys in insertion order and its
      counts. */
  ghost predicate Tallied(kept: seq<Defect>, order: seq<string>, table: map<string, ReleaseCounts>)
  {
    && order == Keys(kept, ReleaseOf)
    && (forall r :: r in table <==> r in order)
    && (forall r :: r in order ==> table[r] == ReleaseTotals(kept, r))
  }

  lemma StepKnown(kept: seq<Defect>, order: seq<string>, table: map<string, ReleaseCounts>, d: Defect)
    requires Tallied(kept, order, table)
    requires ReleaseOf(d) in table
    ensures Tallied(kept + [d], order, table[ReleaseOf(d) := AddTo(table[ReleaseOf(d)], d)])
  {
    var table' := table[ReleaseOf(d) := AddTo(table[ReleaseOf(d)], d)];
    assert order == Keys(kept + [d], ReleaseOf) by {
      KeysSnoc(kept, d, ReleaseOf);
    }
    assert forall r :: r in order ==> table'[r] == ReleaseTotals(kept + [d], r) by {
      forall r | r in order ensures table'[r] == ReleaseTotals(kept + [d], r) {
        ReleaseTotalsSnoc(kept, d, r);
        if r == ReleaseOf(d) {
          assert table'[r] == AddTo(ReleaseTotals(kept, r), d);
        } else {
          assert table'[r] == table[r];
        }
      }
    }
    assert forall r :: r in table' <==> r in order;
    assert Tallied(kept + [d], order, table');
  }

  lemma StepNew(kept: seq<Defect>, order: seq<string>, table: map<string, ReleaseCounts>, d: Defect)
    requires Tallied(kept, order, table)
    requires ReleaseOf(d) !in table
    ensures Tallied(kept + [d], order + [ReleaseOf(d)],
                    table[ReleaseOf(d) := AddTo(ReleaseCounts(0, 0, 0), d)])
  {
    var order' := order + [ReleaseOf(d)];
    var table' := table[ReleaseOf(d) := AddTo(ReleaseCounts(0, 0, 0), d)];
    assert order' == Keys(kept + [d], ReleaseOf) by {
      KeysSnoc(kept, d, ReleaseOf);
    }
    assert forall r :: r in order' ==> table'[r] == ReleaseTotals(kept + [d], r) by {
      GroupOfUnlisted(kept, ReleaseOf, ReleaseOf(d));
      forall r | r in order' ensures table'[r] == ReleaseTotals(kept + [d], r) {
        ReleaseTotalsSnoc(kept, d, r);
        if r == ReleaseOf(d) {
          assert ReleaseTotals(kept, r) == ReleaseCounts(0, 0, 0);
        } else {
          assert r in order && table'[r] == table[r];
        }
      }
    }
    assert forall r :: r in table' <==> r in order';
    assert Tallied(kept + [d], order', table');
  }

  /** The loop body: a record with a usable release creates its release's
      entry if missing, then counts towards its total and towards open or
      closed; any other record changes nothing. */
  method AddRelease(ghost kept: seq<Defect>, order: seq<string>, table: map<string, ReleaseCounts>, d: Defect)
    returns (order': seq<string>, table': map<string, ReleaseCounts>)
    requires Tallied(kept, order, table)
    ensures Tallied(kept + (if HasValidRelease(d) then [d] else []), order', table')
  {
    if d.release.Some? && d.release.value !in ExcludedReleases {
      var r := d.release.value;
      var c: ReleaseCounts;
      if r in table {
        StepKnown(kept, order, table, d);
        order', c := order, table[r];
      } else {
        StepNew(kept, order, table, d);
        order', c := order + [r], ReleaseCounts(0, 0, 0);
      }
      ghost var before := c;
      c := c.(total := c.total + 1);
      if IsOpen(d) {
        c := c.(open := c.open + 1);
      } else {
        c := c.(closed := c.closed + 1);
      }
      assert c == AddTo(before, d);
      table' := table[r := c];
      assert Tallied(kept + [d], order', table');
      assert kept + (if HasValidRelease(d) then [d] else []) == kept + [d];
    } else {
      order', table' := order, table;
      assert kept + (if HasValidRelease(d) then [d] else []) == kept;
    }
  }

  /** The loop over all records. */
  method TallyReleases(defects: seq<Defect>) returns (order: seq<string>, table: map<string, ReleaseCounts>)
    ensures Tallied(Scheduled(defects), order, table)
  {
    order, table := [], map[];
    ghost var kept: seq<Defect> := [];
    var i := 0;
    while i < |defects|
      invariant 0 <= i <= |defects|
      invariant kept == Scheduled(defects[..i])
      invariant Tallied(kept, order, table)
    {
      order, table := AddRelease(kept, order, table, defects[i]);
      ScheduledSnoc(defects[..i], defects[i]);
      assert defects[..i + 1] == defects[..i] + [defects[i]];
      kept := kept + (if HasValidRelease(defects[i]) then [defects[i]] else []);
      i := i + 1;
    }
    assert defects[..i] == defects;
  }

  /** One calendar entry. */
  datatype ReleaseRow = ReleaseRow(release: string, counts: ReleaseCounts)

  /** The rows of the releases `rs`, in that order. */
  function ReleaseRowsFor(kept: seq<Defect>, rs: seq<string>): (rows: seq<ReleaseRow>)
    ensures |rows| == |rs|
    ensures forall i :: 0 <= i < |rs| ==> rows[i] == ReleaseRow(rs[i], ReleaseTotals(kept, rs[i]))
    decreases |rs|
  {
    if rs == [] then []
    else
      var r := rs[|rs| - 1];
      ReleaseRowsFor(kept, rs[..|rs| - 1]) + [ReleaseRow(r, ReleaseTotals(kept, r))]
  }

  /** The dictionary's items, in insertion order. */
  function ReleaseRows(kept: seq<Defect>): seq<ReleaseRow>
  {
    ReleaseRowsFor(kept, Keys(kept, ReleaseOf))
  }

  /** `dict.items()` read off a filled dictionary. */
  function ReleaseItemsOf(order: seq<string>, table: map<string, ReleaseCounts>): (rows: seq<ReleaseRow>)
    requires forall r :: r in order ==> r in table
    ensures |rows| == |order|
    ensures forall i :: 0 <= i < |order| ==> rows[i] == ReleaseRow(order[i], table[order[i]])
    decreases |order|
  {
    if order == [] then []
    else
      var r := order[|order| - 1];
      ReleaseItemsOf(order[..|order| - 1], table) + [ReleaseRow(r, table[r])]
  }

  /** The items of the dictionary the loop fills are the rows of its keys. */
  lemma ReleaseItemsOfTallied(kept: seq<Defect>, order: seq<string>, table: map<string, ReleaseCounts>)
    requires Tallied(kept, order, table)
    ensures forall r :: r in order ==> r in table
    ensures ReleaseItemsOf(order, table) == ReleaseRows(kept)
  {
  }

  /** `sorted(release_data.items())`: keys are distinct, so by release. */
  predicate ReleaseLe(a: ReleaseRow, b: ReleaseRow)
  {
    LexLe(a.release, b.release)
  }

  lemma ReleaseLeIsPreorder()
    ensures TotalPreorder(ReleaseLe)
  {
    forall a: ReleaseRow, b: ReleaseRow ensures ReleaseLe(a, b) || ReleaseLe(b, a) {
      LexLeTotal(a.release, b.release);
    }
    forall a: ReleaseRow, b: ReleaseRow, c: ReleaseRow | ReleaseLe(a, b) && ReleaseLe(b, c)
      ensures ReleaseLe(a, c) {
      LexLeTransitive(a.release, b.release, c.release);
    }
  }

  /** The reported calendar, over the records that passed the release test. */
  function CalendarOf(kept: seq<Defect>): seq<ReleaseRow>
  {
    SortBy(ReleaseRows(kept), ReleaseLe)
  }

  /** The reported calendar. */
  function ReleaseCalendar(defects: seq<Defect>): seq<ReleaseRow>
  {
    CalendarOf(Scheduled(defects))
  }

  /** Releases strictly increase down the calendar. */
  lemma CalendarAscending(defects: seq<Defect>)
    ensures forall i, j :: 0 <= i < j < |ReleaseCalendar(defects)| ==>
              LexLe(ReleaseCalendar(defects)[i].release, ReleaseCalendar(defects)[j].release) &&
              ReleaseCalendar(defects)[i].release != ReleaseCalendar(defects)[j].release
  {
    var kept := Scheduled(defects);
    ReleaseLeIsPreorder();
    SortBySorted(ReleaseRows(kept), ReleaseLe);
    KeysDistinct(kept, ReleaseOf);
    assert DistinctBy(ReleaseRows(kept), (r: ReleaseRow) => r.release);
    SortByDistinct(ReleaseRows(kept), ReleaseLe, (r: ReleaseRow) => r.release);
  }

  /** The calendar holds the same rows as the dictionary, reordered. */
  lemma CalendarHoldsRows(kept: seq<Defect>, row: ReleaseRow)
    ensures row in CalendarOf(kept) <==> row in ReleaseRows(kept)
  {
    SortByPermutes(ReleaseRows(kept), ReleaseLe);
    assert row in CalendarOf(kept) <==> row in multiset(CalendarOf(kept));
    assert row in ReleaseRows(kept) <==> row in multiset(ReleaseRows(kept));
  }

  /** A release has an entry in the calendar exactly when some record that
      passed the release test names it. */
  lemma CalendarListsKept(kept: seq<Defect>, r: string)
    ensures (exists row :: row in CalendarOf(kept) && row.release == r) <==> HasKey(kept, ReleaseOf, r)
  {
    if exists row :: row in CalendarOf(kept) && row.release == r {
      var row :| row in CalendarOf(kept) && row.release == r;
      CalendarEntryIsKept(kept, row);
    }
    if HasKey(kept, ReleaseOf, r) {
      KeptIsCalendarEntry(kept, r);
    }
  }

  lemma CalendarEntryIsKept(kept: seq<Defect>, row: ReleaseRow)
    requires row in CalendarOf(kept)
    ensures HasKey(kept, ReleaseOf, row.release)
  {
    var ks := Keys(kept, ReleaseOf);
    var rows := ReleaseRows(kept);
    KeysExact(kept, ReleaseOf);
    CalendarHoldsRows(kept, row);
    var j :| 0 <= j < |rows| && rows[j] == row;
    assert ks[j] in ks;
  }

  lemma KeptIsCalendarEntry(kept: seq<Defect>, r: string)
    requires HasKey(kept, ReleaseOf, r)
    ensures exists row :: row in CalendarOf(kept) && row.release == r
  {
    var ks := Keys(kept, ReleaseOf);
    var rows := ReleaseRows(kept);
    KeysExact(kept, ReleaseOf);
    assert r in ks;
    var j :| 0 <= j < |ks| && ks[j] == r;
    CalendarHoldsRows(kept, rows[j]);
    assert rows[j] in CalendarOf(kept) && rows[j].release == r;
  }

  /** A release has an entry exactly when some record names it and it is
      not one of the excluded values. */
  lemma CalendarReleases(defects: seq<Defect>, r: string)
    ensures (exists row :: row in ReleaseCalendar(defects) && row.release == r) <==>
            (r !in ExcludedReleases && exists i :: 0 <= i < |defects| && defects[i].release == Some(r))
  {
    CalendarListsKept(Scheduled(defects), r);
    KeptReleases(defects, r);
  }

  /** A release names some record that passed the release test exactly when
      it is not excluded and some record names it. */
  lemma KeptReleases(defects: seq<Defect>, r: string)
    ensures HasKey(Scheduled(defects), ReleaseOf, r) <==>
            (r !in ExcludedReleases && exists i :: 0 <= i < |defects| && defects[i].release == Some(r))
  {
    var kept := Scheduled(defects);
    FilterMembers(defects, HasValidRelease);
    if HasKey(kept, ReleaseOf, r) {
      var k :| 0 <= k < |kept| && ReleaseOf(kept[k]) == r;
      assert kept[k] in kept;
      var i :| 0 <= i < |defects| && defects[i] == kept[k];
    }
    if r !in ExcludedReleases && exists i :: 0 <= i < |defects| && defects[i].release == Some(r) {
      var i :| 0 <= i < |defects| && defects[i].release == Some(r);
      assert defects[i] in kept;
      var k :| 0 <= k < |kept| && kept[k] == defects[i];
      assert ReleaseOf(kept[k]) == r;
    }
  }

  /** Each entry counts its release's records, each once in the total and
      once as either open or closed. */
  lemma CalendarCounts(defects: seq<Defect>, row: ReleaseRow)
    requires row in ReleaseCalendar(defects)
    ensures var g := Group(Scheduled(defects), ReleaseOf, row.release);
            row.counts.total == |g| == row.counts.open + row.counts.closed &&
            row.counts.open == Count(g, IsOpen)
  {
    var kept := Scheduled(defects);
    CalendarHoldsRows(kept, row);
  }

  /** Every record with a usable release is counted once across the
      calendar, and every open one once among the open counts. */
  lemma CalendarTotals(defects: seq<Defect>)
    ensures SumOf(ReleaseCalendar(defects), (row: ReleaseRow) => row.counts.total) == Count(defects, HasValidRelease)
    ensures SumOf(ReleaseCalendar(defects), (row: ReleaseRow) => row.counts.open) == Count(Scheduled(defects), IsOpen)
  {
    var kept := Scheduled(defects);
    var rows := ReleaseRows(kept);
    SortByPermutes(rows, ReleaseLe);
    SumOfPermutation(CalendarOf(kept), rows, (row: ReleaseRow) => row.counts.total);
    SumOfPermutation(CalendarOf(kept), rows, (row: ReleaseRow) => row.counts.open);
    RowsSums(kept, Keys(kept, ReleaseOf));
    GroupsPartition(kept, ReleaseOf, (d: Defect) => true);
    GroupsPartition(kept, ReleaseOf, IsOpen);
    CountAllIff(kept, (d: Defect) => true);
  }

  lemma {:induction false} RowsSums(kept: seq<Defect>, rs: seq<string>)
    ensures SumOf(ReleaseRowsFor(kept, rs), (row: ReleaseRow) => row.counts.total) ==
            GroupCounts(kept, ReleaseOf, rs, (d: Defect) => true)
    ensures SumOf(ReleaseRowsFor(kept, rs), (row: ReleaseRow) => row.counts.open) ==
            GroupCounts(kept, ReleaseOf, rs, IsOpen)
    decreases |rs|
  {
    if rs != [] {
      var init := rs[..|rs| - 1];
      var g := Group(kept, ReleaseOf, rs[|rs| - 1]);
      RowsSums(kept, init);
      assert ReleaseRowsFor(kept, rs)[..|rs| - 1] == ReleaseRowsFor(kept, init);
      CountAllIff(g, (d: Defect) => true);
    }
  }
}
