/** Recurrence analysis: the recurrence counts of the records are added up
    per title in a dictionary, and the ten titles with the largest totals
    are reported, largest first. */
module Recurrence {
  import opened Collections
  import opened Sorting
  import opened Defects

  datatype RecurrenceEntry = RecurrenceEntry(title: string, count: int)

  /** How many entries the analysis reports at most. */
  const TopTitles: nat := 10

  function TitleOf(d: Defect): string
  {
    d.title
  }

  /** The dictionary value for title `t`: the recurrence counts of the
      records with that title, added up. */
  function TitleTotal(defects: seq<Defect>, t: string): int
  {
    SumOf(Group(defects, TitleOf, t), RecurrenceOf)
  }

  lemma TitleTotalSnoc(defects: seq<Defect>, d: Defect, t: string)
    ensures TitleTotal(defects + [d], t) ==
            TitleTotal(defects, t) + (if d.title == t then RecurrenceOf(d) else 0)
  {
    GroupSnoc(defects, d, TitleOf, t);
    SumOfAppend(Group(defects, TitleOf, t), if d.title == t then [d] else [], RecurrenceOf);
    assert SumOf([d], RecurrenceOf) == RecurrenceOf(d) by { assert [d][..0] == []; }
  }

  /** `titles` and `totals` are the dictionary filled from `defects`: its
      keys in insertion order and its values. */
  ghost predicate Tallied(defects: seq<Defect>, titles: seq<string>, totals: map<string, int>)
  {
    && titles == Keys(defects, TitleOf)
    && (forall t :: t in totals <==> t in titles)
    && (forall t :: t in titles ==> totals[t] == TitleTotal(defects, t))
  }

  /** One pass of the loop body over a title already in the dictionary
      keeps it in step with the records read so far. */
  lemma TallyStepKnown(defects: seq<Defect>, d: Defect, titles: seq<string>, totals: map<string, int>)
    requires Tallied(defects, titles, totals)
    requires d.title in totals
    ensures Tallied(defects + [d], titles, totals[d.title := totals[d.title] + RecurrenceOf(d)])
  {
    var totals' := totals[d.title := totals[d.title] + RecurrenceOf(d)];
    assert titles == Keys(defects + [d], TitleOf) by {
      KeysSnoc(defects, d, TitleOf);
    }
    assert forall t :: t in titles ==> totals'[t] == TitleTotal(defects + [d], t) by {
      forall t | t in titles ensures totals'[t] == TitleTotal(defects + [d], t) {
        TitleTotalSnoc(defects, d, t);
        if t != d.title {
          assert totals'[t] == totals[t];
        }
      }
    }
    assert forall t :: t in totals' <==> t in titles;
    assert Tallied(defects + [d], titles, totals');
  }

  /** One pass of the loop body over a new title adds it to the dictionary. */
  lemma TallyStepNew(defects: seq<Defect>, d: Defect, titles: seq<string>, totals: map<string, int>)
    requires Tallied(defects, titles, totals)
    requires d.title !in totals
    ensures Tallied(defects + [d], titles + [d.title], totals[d.title := RecurrenceOf(d)])
  {
    var totals' := totals[d.title := RecurrenceOf(d)];
    assert titles + [d.title] == Keys(defects + [d], TitleOf) by {
      KeysSnoc(defects, d, TitleOf);
    }
    assert forall t :: t in titles + [d.title] ==> totals'[t] == TitleTotal(defects + [d], t) by {
      GroupOfUnlisted(defects, TitleOf, d.title);
      forall t | t in titles + [d.title] ensures totals'[t] == TitleTotal(defects + [d], t) {
        TitleTotalSnoc(defects, d, t);
        if t != d.title {
          assert t in titles && totals'[t] == totals[t];
        }
      }
    }
    assert forall t :: t in totals' <==> t in titles + [d.title];
    assert Tallied(defects + [d], titles + [d.title], totals');
  }

  /** The loop body: adds the recurrence of `d` to its title's entry,
      creating the entry when the title is new. */
  method AddRecurrence(ghost seen: seq<Defect>, titles: seq<string>, totals: map<string, int>, d: Defect)
    returns (titles': seq<string>, totals': map<string, int>)
    requires Tallied(seen, titles, totals)
    ensures Tallied(seen + [d], titles', totals')
  {
    if d.title in totals {
      TallyStepKnown(seen, d, titles, totals);
      titles', totals' := titles, totals[d.title := totals[d.title] + RecurrenceOf(d)];
    } else {
      TallyStepNew(seen, d, titles, totals);
      titles', totals' := titles + [d.title], totals[d.title := RecurrenceOf(d)];
    }
  }

  /** The loop that fills the dictionary: `titles` is its key order, `totals`
      its contents. */
  method TallyRecurrence(defects: seq<Defect>) returns (titles: seq<string>, totals: map<string, int>)
    ensures Tallied(defects, titles, totals)
  {
    titles, totals := [], map[];
    ghost var seen: seq<Defect> := [];
    var i := 0;
    while i < |defects|
      invariant 0 <= i <= |defects|
      invariant seen == defects[..i]
      invariant Tallied(seen, titles, totals)
    {
      assert defects[..i + 1] == seen + [defects[i]];
      titles, totals := AddRecurrence(seen, titles, totals, defects[i]);
      seen := defects[..i + 1];
      i := i + 1;
    }
    assert seen == defects;
  }

  /** `[{"type": t, "count": totals[t]} for t in ts]`, over the totals of
      the records. */
  function EntriesFor(defects: seq<Defect>, ts: seq<string>): (es: seq<RecurrenceEntry>)
    ensures |es| == |ts|
    ensures forall i :: 0 <= i < |ts| ==> es[i] == RecurrenceEntry(ts[i], TitleTotal(defects, ts[i]))
  {
    if ts == [] then []
    else EntriesFor(defects, ts[..|ts| - 1]) + [RecurrenceEntry(ts[|ts| - 1], TitleTotal(defects, ts[|ts| - 1]))]
  }

  /** The dictionary's items, in insertion order. */
  function RecurrenceEntries(defects: seq<Defect>): seq<RecurrenceEntry>
  {
    EntriesFor(defects, Keys(defects, TitleOf))
  }

  /** The sort order `key=lambda x: x[1], reverse=True`: larger totals
      first; equal totals are tied. */
  predicate RanksAtLeast(a: RecurrenceEntry, b: RecurrenceEntry)
  {
    a.count >= b.count
  }

  lemma RanksAtLeastIsPreorder()
    ensures TotalPreorder(RanksAtLeast)
  {
  }

  /** The reported recurrence analysis. */
  function RecurrenceAnalysis(defects: seq<Defect>): seq<RecurrenceEntry>
  {
    TopBy(RecurrenceEntries(defects), RanksAtLeast, TopTitles)
  }

  /** Ten entries, or one per title when there are fewer titles. */
  lemma RecurrenceAnalysisLength(defects: seq<Defect>)
    ensures |RecurrenceAnalysis(defects)| == Min(TopTitles, |Keys(defects, TitleOf)|)
  {
  }

  /** Each reported entry names a title of the records with the added-up
      recurrence of that title. */
  lemma RecurrenceAnalysisEntries(defects: seq<Defect>)
    ensures forall e :: e in RecurrenceAnalysis(defects) ==>
              HasKey(defects, TitleOf, e.title) && e.count == TitleTotal(defects, e.title)
  {
    var entries := RecurrenceEntries(defects);
    var ranked := RecurrenceAnalysis(defects);
    var ts := Keys(defects, TitleOf);
    TopByFromInput(entries, RanksAtLeast, TopTitles);
    KeysExact(defects, TitleOf);
    forall e | e in ranked
      ensures HasKey(defects, TitleOf, e.title) && e.count == TitleTotal(defects, e.title)
    {
      assert e in multiset(ranked);
      var i :| 0 <= i < |entries| && entries[i] == e;
      assert ts[i] in ts;
    }
  }

  /** No title is reported twice. */
  lemma RecurrenceAnalysisDistinct(defects: seq<Defect>)
    ensures DistinctBy(RecurrenceAnalysis(defects), (e: RecurrenceEntry) => e.title)
  {
    var entries := RecurrenceEntries(defects);
    KeysDistinct(defects, TitleOf);
    assert DistinctBy(entries, (e: RecurrenceEntry) => e.title);
    SortByDistinct(entries, RanksAtLeast, (e: RecurrenceEntry) => e.title);
  }

  /** The totals never increase down the list. */
  lemma RecurrenceAnalysisRanked(defects: seq<Defect>)
    ensures forall i, j :: 0 <= i < j < |RecurrenceAnalysis(defects)| ==>
              RecurrenceAnalysis(defects)[i].count >= RecurrenceAnalysis(defects)[j].count
  {
    RanksAtLeastIsPreorder();
    TopBySorted(RecurrenceEntries(defects), RanksAtLeast, TopTitles);
  }

  /** The ten largest: a title left out of the report has a total no larger
      than any reported total. */
  lemma RecurrenceAnalysisIsTop(defects: seq<Defect>, t: string)
    requires HasKey(defects, TitleOf, t)
    ensures (exists e :: e in RecurrenceAnalysis(defects) && e.title == t) ||
            forall e :: e in RecurrenceAnalysis(defects) ==> e.count >= TitleTotal(defects, t)
  {
    var entries := RecurrenceEntries(defects);
    var ts := Keys(defects, TitleOf);
    KeysExact(defects, TitleOf);
    var j :| 0 <= j < |defects| && TitleOf(defects[j]) == t;
    assert t in ts;
    var i :| 0 <= i < |ts| && ts[i] == t;
    var x := entries[i];
    RanksAtLeastIsPreorder();
    TopByDominates(entries, RanksAtLeast, TopTitles);
    assert x in entries;
    if x in multiset(RecurrenceAnalysis(defects)) {
      assert x in RecurrenceAnalysis(defects);
    }
  }

  /** Totals that tie are reported in the order their titles first appear
      in the records. */
  lemma RecurrenceAnalysisStable(defects: seq<Defect>, c: RecurrenceEntry)
    ensures |Ties(RecurrenceAnalysis(defects), RanksAtLeast, c)| <= |Ties(RecurrenceEntries(defects), RanksAtLeast, c)|
    ensures Ties(RecurrenceEntries(defects), RanksAtLeast, c)[..|Ties(RecurrenceAnalysis(defects), RanksAtLeast, c)|] ==
            Ties(RecurrenceAnalysis(defects), RanksAtLeast, c)
  {
    RanksAtLeastIsPreorder();
    TopByStable(RecurrenceEntries(defects), RanksAtLeast, TopTitles, c);
  }

  /** Records without a `recurrence_count` count once each: when no record
      carries one, a title's total is its number of records. */
  lemma TitleTotalWithoutCounts(defects: seq<Defect>, t: string)
    requires forall d :: d in defects ==> d.recurrenceCount.None?
    ensures TitleTotal(defects, t) == |Group(defects, TitleOf, t)|
  {
    GroupExact(defects, TitleOf, t);
    SumOfBounds(Group(defects, TitleOf, t), RecurrenceOf, 1, 1);
  }
}
