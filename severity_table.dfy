/** The dictionary both the monthly trend and the component heatmap fill:
    for each record, the entry for its key is created as
    `{'critical': 0, 'high': 0, 'medium': 0, 'low': 0}` if missing, and the
    column of its normalised severity, if it has one, is bumped. Only the
    key differs between the two: the creation month, or the component. */
module SeverityTable {
  import opened Collections
  import opened Defects
  import opened Sorting

  /** The dictionary value for key `k`: the severity row of the records with
      that key. */
  function RowCounts<K(==)>(defects: seq<Defect>, key: Defect -> K, k: K): SeverityCounts
  {
    SeverityTally(Group(defects, key, k))
  }

  lemma RowCountsSnoc<K>(defects: seq<Defect>, d: Defect, key: Defect -> K, k: K)
    ensures RowCounts(defects + [d], key, k) ==
            if key(d) == k then Bump(RowCounts(defects, key, k), NormalizeSeverity(d.severity))
            else RowCounts(defects, key, k)
  {
    GroupSnoc(defects, d, key, k);
    if key(d) == k {
      SeverityTallySnoc(Group(defects, key, k), d);
    } else {
      assert Group(defects, key, k) + [] == Group(defects, key, k);
    }
  }

  /** `order` and `table` are the dictionary filled from `defects`: its keys
      in insertion order and its rows. */
  ghost predicate Tallied<K(!new)>(defects: seq<Defect>, key: Defect -> K,
                                   order: seq<K>, table: map<K, SeverityCounts>)
  {
    && order == Keys(defects, key)
    && (forall k :: k in table <==> k in order)
    && (forall k :: k in order ==> table[k] == RowCounts(defects, key, k))
  }

  lemma StepKnown<K(!new)>(defects: seq<Defect>, key: Defect -> K, order: seq<K>,
                           table: map<K, SeverityCounts>, d: Defect)
    requires Tallied(defects, key, order, table)
    requires key(d) in table
    ensures Tallied(defects + [d], key, order,
                    table[key(d) := Bump(table[key(d)], NormalizeSeverity(d.severity))])
  {
    var table' := table[key(d) := Bump(table[key(d)], NormalizeSeverity(d.severity))];
    assert order == Keys(defects + [d], key) by {
      KeysSnoc(defects, d, key);
    }
    assert forall k :: k in order ==> table'[k] == RowCounts(defects + [d], key, k) by {
      forall k | k in order ensures table'[k] == RowCounts(defects + [d], key, k) {
        RowCountsSnoc(defects, d, key, k);
      }
    }
    assert forall k :: k in table' <==> k in order;
    assert Tallied(defects + [d], key, order, table');
  }

  lemma StepNew<K(!new)>(defects: seq<Defect>, key: Defect -> K, order: seq<K>,
                         table: map<K, SeverityCounts>, d: Defect)
    requires Tallied(defects, key, order, table)
    requires key(d) !in table
    ensures Tallied(defects + [d], key, order + [key(d)],
                    table[key(d) := Bump(NoSeverities, NormalizeSeverity(d.severity))])
  {
    var order' := order + [key(d)];
    var table' := table[key(d) := Bump(NoSeverities, NormalizeSeverity(d.severity))];
    assert order' == Keys(defects + [d], key) by {
      KeysSnoc(defects, d, key);
    }
    assert forall k :: k in order' ==> table'[k] == RowCounts(defects + [d], key, k) by {
      GroupOfUnlisted(defects, key, key(d));
      forall k | k in order' ensures table'[k] == RowCounts(defects + [d], key, k) {
        RowCountsSnoc(defects, d, key, k);
      }
    }
    assert forall k :: k in table' <==> k in order';
    assert Tallied(defects + [d], key, order', table');
  }

  /** The loop body: creates the entry for the record's key if missing, then
      bumps the column of its severity. */
  method AddRecord<K(!new)>(ghost seen: seq<Defect>, key: Defect -> K, order: seq<K>,
                            table: map<K, SeverityCounts>, d: Defect)
    returns (order': seq<K>, table': map<K, SeverityCounts>)
    requires Tallied(seen, key, order, table)
    ensures Tallied(seen + [d], key, order', table')
  {
    var k := key(d);
    var row: SeverityCounts;
    if k in table {
      StepKnown(seen, key, order, table, d);
      order', row := order, table[k];
    } else {
      StepNew(seen, key, order, table, d);
      order', row := order + [k], NoSeverities;
    }
    table' := table[k := Bump(row, NormalizeSeverity(d.severity))];
  }

  /** The loop over all records. */
  method TallySeverities<K(!new)>(defects: seq<Defect>, key: Defect -> K)
    returns (order: seq<K>, table: map<K, SeverityCounts>)
    ensures Tallied(defects, key, order, table)
  {
    order, table := [], map[];
    ghost var seen: seq<Defect> := [];
    var i := 0;
    while i < |defects|
      invariant 0 <= i <= |defects|
      invariant seen == defects[..i]
      invariant Tallied(seen, key, order, table)
    {
      assert defects[..i + 1] == seen + [defects[i]];
      order, table := AddRecord(seen, key, order, table, defects[i]);
      seen := defects[..i + 1];
      i := i + 1;
    }
    assert seen == defects;
  }

  /** One item of the dictionary: a key and its severity row. */
  datatype SeverityRow<K> = SeverityRow(key: K, counts: SeverityCounts)

  /** `sum(row.values())`: the records counted in a row. */
  function RowTotal<K>(r: SeverityRow<K>): int
  {
    r.counts.Total()
  }

  /** `dict.items()` read off a dictionary: its keys in insertion order,
      each with its row. */
  function ItemsOf<K(==)>(order: seq<K>, table: map<K, SeverityCounts>): (rows: seq<SeverityRow<K>>)
    requires forall k :: k in order ==> k in table
    ensures |rows| == |order|
    ensures forall i :: 0 <= i < |order| ==> rows[i] == SeverityRow(order[i], table[order[i]])
    decreases |order|
  {
    if order == [] then []
    else
      var k := order[|order| - 1];
      ItemsOf(order[..|order| - 1], table) + [SeverityRow(k, table[k])]
  }

  /** The dictionary filled from `defects`, as a map. */
  function TableOf<K(==)>(defects: seq<Defect>, key: Defect -> K): map<K, SeverityCounts>
  {
    map k | k in Keys(defects, key) :: RowCounts(defects, key, k)
  }

  /** The dictionary's items, in insertion order. */
  function Rows<K(==)>(defects: seq<Defect>, key: Defect -> K): seq<SeverityRow<K>>
  {
    ItemsOf(Keys(defects, key), TableOf(defects, key))
  }

  /** The dictionary the loop fills is the one of the records, so its items
      are their rows. */
  lemma ItemsOfTallied<K(!new)>(defects: seq<Defect>, key: Defect -> K, order: seq<K>, table: map<K, SeverityCounts>)
    requires Tallied(defects, key, order, table)
    ensures forall k :: k in order ==> k in table
    ensures ItemsOf(order, table) == Rows(defects, key)
  {
    var t := TableOf(defects, key);
    assert forall k :: k in order ==> k in t && t[k] == table[k];
    ItemsOfAgree(order, table, t);
  }

  /** Items depend only on the rows of the listed keys. */
  lemma ItemsOfAgree<K>(order: seq<K>, a: map<K, SeverityCounts>, b: map<K, SeverityCounts>)
    requires forall k :: k in order ==> k in a && k in b && a[k] == b[k]
    ensures ItemsOf(order, a) == ItemsOf(order, b)
  {
    var mine, theirs := ItemsOf(order, a), ItemsOf(order, b);
    assert forall i :: 0 <= i < |order| ==> mine[i] == theirs[i];
  }

  /** The rows of the keys `ks` count, together, the records of those keys
      whose severity is one of the four. */
  lemma {:induction false} ItemsTotal<K>(defects: seq<Defect>, key: Defect -> K, ks: seq<K>)
    requires forall k :: k in ks ==> k in Keys(defects, key)
    ensures SumOf(ItemsOf(ks, TableOf(defects, key)), RowTotal) == GroupCounts(defects, key, ks, HasSeverityKey)
    decreases |ks|
  {
    if ks != [] {
      var init := ks[..|ks| - 1];
      var rows := ItemsOf(ks, TableOf(defects, key));
      var k := ks[|ks| - 1];
      ItemsTotal(defects, key, init);
      assert rows[..|ks| - 1] == ItemsOf(init, TableOf(defects, key));
      assert k in Keys(defects, key);
      assert rows[|ks| - 1].counts == RowCounts(defects, key, k);
      assert RowTotal(rows[|ks| - 1]) == Count(Group(defects, key, k), HasSeverityKey);
    }
  }

  /** Every record whose severity is one of the four keys is counted in
      exactly one row. */
  lemma RowsTotal<K>(defects: seq<Defect>, key: Defect -> K)
    ensures SumOf(Rows(defects, key), RowTotal) == Count(defects, HasSeverityKey)
  {
    ItemsTotal(defects, key, Keys(defects, key));
    GroupsPartition(defects, key, HasSeverityKey);
  }

  /** There is one row per key of the records, and no other. */
  lemma RowsExact<K>(defects: seq<Defect>, key: Defect -> K)
    ensures DistinctBy(Rows(defects, key), (r: SeverityRow<K>) => r.key)
    ensures forall r :: r in Rows(defects, key) ==>
              HasKey(defects, key, r.key) && r.counts == RowCounts(defects, key, r.key)
    ensures forall i :: 0 <= i < |defects| ==> exists r :: r in Rows(defects, key) && r.key == key(defects[i])
  {
    RowsDistinct(defects, key);
    RowsOfRecords(defects, key);
    RowsCoverRecords(defects, key);
  }

  lemma RowsDistinct<K>(defects: seq<Defect>, key: Defect -> K)
    ensures DistinctBy(Rows(defects, key), (r: SeverityRow<K>) => r.key)
  {
    KeysDistinct(defects, key);
  }

  lemma RowsOfRecords<K>(defects: seq<Defect>, key: Defect -> K)
    ensures forall r :: r in Rows(defects, key) ==>
              HasKey(defects, key, r.key) && r.counts == RowCounts(defects, key, r.key)
  {
    KeysExact(defects, key);
  }

  lemma RowsCoverRecords<K>(defects: seq<Defect>, key: Defect -> K)
    ensures forall i :: 0 <= i < |defects| ==> exists r :: r in Rows(defects, key) && r.key == key(defects[i])
  {
    var ks := Keys(defects, key);
    var rows := Rows(defects, key);
    KeysExact(defects, key);
    forall i | 0 <= i < |defects| ensures exists r :: r in rows && r.key == key(defects[i]) {
      var j :| 0 <= j < |ks| && ks[j] == key(defects[i]);
      assert rows[j] in rows;
    }
  }
}
