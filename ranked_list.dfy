/**
 The ranked-list reconciler of RepoStats, used for the top referral sources
 and the top referral paths: the snapshot of the fetched list
 (_create_referral_snapshot) and the merge into the persisted ranked table
 (_create_referral_dataframe): concatenate, drop duplicate keys keeping the
 last occurrence, sort by count descending.
 */
module RankedList {
  import opened Wrappers

  /** The two ranked metrics; they differ in their key column and in whether rows have a title. */
  datatype MetricKind = ReferralSources | ReferralPaths

  /**
   One row of a ranked table: the key column (referrer for sources, path for
   paths), the title (paths only), count and uniques. None stands for a
   missing value (pandas' NaN).
   */
  datatype Entry = Entry(key: Option<string>, title: Option<string>, count: int, uniques: int)

  /**
   pd.DataFrame(data, columns=...): the fetched items in the order received,
   none dropped, none added, none reordered; only the kind's columns are kept,
   so a referral source has no title.
   */
  function Frame(kind: MetricKind, items: seq<Entry>): (rows: seq<Entry>)
    ensures |rows| == |items|
    ensures forall i :: 0 <= i < |items| ==>
              rows[i].key == items[i].key && rows[i].count == items[i].count && rows[i].uniques == items[i].uniques
    ensures kind == ReferralPaths ==> rows == items
    ensures kind == ReferralSources ==> forall i :: 0 <= i < |rows| ==> rows[i].title == None
  {
    match kind
    case ReferralPaths => items
    case ReferralSources => seq(|items|, i requires 0 <= i < |items| => items[i].(title := None))
  }

  /** The keys that occur in a list of rows. */
  function KeysOf(rows: seq<Entry>): set<Option<string>>
  {
    if rows == [] then {} else {rows[0].key} + KeysOf(rows[1..])
  }

  lemma {:induction false} KeysOfMember(rows: seq<Entry>, k: Option<string>)
    ensures k in KeysOf(rows) <==> exists i :: 0 <= i < |rows| && rows[i].key == k
  {
    if rows != [] {
      KeysOfMember(rows[1..], k);
      if exists i :: 0 <= i < |rows| && rows[i].key == k {
        var i :| 0 <= i < |rows| && rows[i].key == k;
        if i > 0 { assert rows[1..][i - 1] == rows[i]; }
      }
    }
  }

  lemma {:induction false} KeysOfAppend(a: seq<Entry>, b: seq<Entry>)
    ensures KeysOf(a + b) == KeysOf(a) + KeysOf(b)
  {
    if a == [] {
      assert a + b == b;
    } else {
      assert (a + b)[1..] == a[1..] + b;
      KeysOfAppend(a[1..], b);
    }
  }

  /** At most one row per key. */
  ghost predicate DistinctKeys(rows: seq<Entry>)
  {
    forall i, j :: 0 <= i < j < |rows| ==> rows[i].key != rows[j].key
  }

  /** Row j is the last row of the list with its key. */
  ghost predicate IsLastOccurrence(rows: seq<Entry>, j: int)
  {
    0 <= j < |rows| && forall k :: j < k < |rows| ==> rows[k].key != rows[j].key
  }

  /** drop_duplicates(subset=[key], keep="last"): a row survives when no later row has its key; survivors keep their order. */
  function DropDuplicatesKeepLast(rows: seq<Entry>): seq<Entry>
  {
    if rows == [] then []
    else if rows[0].key in KeysOf(rows[1..]) then DropDuplicatesKeepLast(rows[1..])
    else [rows[0]] + DropDuplicatesKeepLast(rows[1..])
  }

  /**
   After dropping duplicates, every key of the input occurs exactly once, and
   the rows kept are exactly the last occurrence of each key.
   */
  lemma {:induction false} DropDuplicatesSpec(rows: seq<Entry>)
    ensures DistinctKeys(DropDuplicatesKeepLast(rows))
    ensures KeysOf(DropDuplicatesKeepLast(rows)) == KeysOf(rows)
    ensures forall e :: e in DropDuplicatesKeepLast(rows) <==> exists j :: IsLastOccurrence(rows, j) && rows[j] == e
  {
    if rows != [] {
      var x, tail := rows[0], rows[1..];
      var kept := DropDuplicatesKeepLast(tail);
      DropDuplicatesSpec(tail);
      KeysOfMember(tail, x.key);
      forall j | 0 < j < |rows| ensures IsLastOccurrence(rows, j) <==> IsLastOccurrence(tail, j - 1) {
        forall k | j < k < |rows| ensures rows[k] == tail[k - 1] { }
      }
      if x.key in KeysOf(tail) {
        assert !IsLastOccurrence(rows, 0);
        forall e ensures e in kept <==> exists j :: IsLastOccurrence(rows, j) && rows[j] == e {
          if e in kept {
            var j :| IsLastOccurrence(tail, j) && tail[j] == e;
            assert IsLastOccurrence(rows, j + 1) && rows[j + 1] == e;
          }
        }
      } else {
        assert IsLastOccurrence(rows, 0);
        var result := [x] + kept;
        assert result[1..] == kept;
        KeysOfMember(kept, x.key);
        forall i, j | 0 <= i < j < |result| ensures result[i].key != result[j].key {
          if i == 0 { assert result[j] == kept[j - 1]; }
        }
        forall e ensures e in result <==> exists j :: IsLastOccurrence(rows, j) && rows[j] == e {
          if e in kept {
            var j :| IsLastOccurrence(tail, j) && tail[j] == e;
            assert IsLastOccurrence(rows, j + 1) && rows[j + 1] == e;
          }
        }
      }
    }
  }

  /** The rows of a appear in b in the same order, possibly with rows of b in between. */
  ghost predicate IsSubsequence(a: seq<Entry>, b: seq<Entry>)
    decreases |b|
  {
    a == [] || (b != [] && ((a[0] == b[0] && IsSubsequence(a[1..], b[1..])) || IsSubsequence(a, b[1..])))
  }

  /** Dropping duplicates only removes rows: the survivors keep their input order. */
  lemma {:induction false} DropDuplicatesKeepsOrder(rows: seq<Entry>)
    ensures IsSubsequence(DropDuplicatesKeepLast(rows), rows)
  {
    if rows != [] {
      var kept := DropDuplicatesKeepLast(rows[1..]);
      DropDuplicatesKeepsOrder(rows[1..]);
      if rows[0].key !in KeysOf(rows[1..]) {
        var result := [rows[0]] + kept;
        assert result[0] == rows[0] && result[1..] == kept;
      }
    }
  }

  /** Count never increases along the table. */
  ghost predicate SortedByCountDesc(rows: seq<Entry>)
  {
    forall i, j :: 0 <= i < j < |rows| ==> rows[i].count >= rows[j].count
  }

  /** The keys of a list depend only on which rows it holds. */
  lemma KeysOfPermutation(a: seq<Entry>, b: seq<Entry>)
    requires multiset(a) == multiset(b)
    ensures KeysOf(a) == KeysOf(b)
  {
    forall k ensures k in KeysOf(a) ==> k in KeysOf(b) {
      KeysOfMember(a, k);
      KeysOfMember(b, k);
      if k in KeysOf(a) {
        var i :| 0 <= i < |a| && a[i].key == k;
        assert a[i] in multiset(b);
        var j :| 0 <= j < |b| && b[j] == a[i];
      }
    }
    forall k ensures k in KeysOf(b) ==> k in KeysOf(a) {
      KeysOfMember(a, k);
      KeysOfMember(b, k);
      if k in KeysOf(b) {
        var i :| 0 <= i < |b| && b[i].key == k;
        assert b[i] in multiset(a);
        var j :| 0 <= j < |a| && a[j] == b[i];
      }
    }
  }

  /** Inserts a row into a table sorted by count descending, before the first row whose count is not greater. */
  function InsertByCount(x: Entry, rows: seq<Entry>): (r: seq<Entry>)
    ensures multiset(r) == multiset(rows) + multiset{x}
  {
    if rows == [] || x.count >= rows[0].count then [x] + rows
    else
      assert rows == [rows[0]] + rows[1..];
      [rows[0]] + InsertByCount(x, rows[1..])
  }

  /** A row in front of a sorted table keeps it sorted exactly when its count is at least every count there. */
  lemma ConsSorted(x: Entry, rows: seq<Entry>)
    requires SortedByCountDesc(rows)
    requires forall e :: e in multiset(rows) ==> x.count >= e.count
    ensures SortedByCountDesc([x] + rows)
  {
    var r := [x] + rows;
    forall i, j | 0 <= i < j < |r| ensures r[i].count >= r[j].count {
      assert r[j] == rows[j - 1];
      if i == 0 {
        assert rows[j - 1] in multiset(rows);
      } else {
        assert r[i] == rows[i - 1];
      }
    }
  }

  /** A row in front of a table with distinct keys keeps them distinct exactly when its key is new. */
  lemma ConsDistinct(x: Entry, rows: seq<Entry>)
    ensures DistinctKeys([x] + rows) <==> DistinctKeys(rows) && x.key !in KeysOf(rows)
  {
    var r := [x] + rows;
    KeysOfMember(rows, x.key);
    assert r[1..] == rows;
    if DistinctKeys(r) {
      forall i, j | 0 <= i < j < |rows| ensures rows[i].key != rows[j].key {
        assert rows[i] == r[i + 1] && rows[j] == r[j + 1];
      }
      forall k | 0 <= k < |rows| ensures rows[k].key != x.key {
        assert r[0] == x && rows[k] == r[k + 1];
      }
    }
    if DistinctKeys(rows) && x.key !in KeysOf(rows) {
      forall i, j | 0 <= i < j < |r| ensures r[i].key != r[j].key {
        assert r[j] == rows[j - 1];
        if i > 0 { assert r[i] == rows[i - 1]; }
      }
    }
  }

  lemma {:induction false} InsertByCountSorted(x: Entry, rows: seq<Entry>)
    requires SortedByCountDesc(rows)
    ensures SortedByCountDesc(InsertByCount(x, rows))
  {
    if rows == [] || x.count >= rows[0].count {
      forall e: Entry | e in multiset(rows) ensures x.count >= e.count {
        var k :| 0 <= k < |rows| && rows[k] == e;
        assert rows[0].count >= rows[k].count;
      }
      ConsSorted(x, rows);
    } else {
      var tail := rows[1..];
      assert SortedByCountDesc(tail) by {
        forall i, j | 0 <= i < j < |tail| ensures tail[i].count >= tail[j].count {
          assert tail[i] == rows[i + 1] && tail[j] == rows[j + 1];
        }
      }
      InsertByCountSorted(x, tail);
      var rest := InsertByCount(x, tail);
      forall e: Entry | e in multiset(rest) ensures rows[0].count >= e.count {
        if e != x {
          assert e in multiset(tail);
          var k :| 0 <= k < |tail| && tail[k] == e;
          assert rows[k + 1] == e;
        }
      }
      ConsSorted(rows[0], rest);
    }
  }

  lemma {:induction false} InsertByCountDistinct(x: Entry, rows: seq<Entry>)
    requires DistinctKeys(rows) && x.key !in KeysOf(rows)
    ensures DistinctKeys(InsertByCount(x, rows))
  {
    if rows == [] || x.count >= rows[0].count {
      ConsDistinct(x, rows);
    } else {
      var tail := rows[1..];
      assert rows == [rows[0]] + tail;
      ConsDistinct(rows[0], tail);
      InsertByCountDistinct(x, tail);
      var rest := InsertByCount(x, tail);
      KeysOfPermutation(rest, tail + [x]);
      KeysOfAppend(tail, [x]);
      assert KeysOf([x]) == {x.key} by {
        assert [x][1..] == [];
      }
      ConsDistinct(rows[0], rest);
    }
  }

  /** sort_values("count", ascending=False), as a stable insertion sort. */
  function SortByCountDesc(rows: seq<Entry>): (r: seq<Entry>)
    ensures multiset(r) == multiset(rows)
  {
    if rows == [] then []
    else
      assert rows == [rows[0]] + rows[1..];
      InsertByCount(rows[0], SortByCountDesc(rows[1..]))
  }

  /**
   Sorting gives a permutation of the table with count non-increasing; it has
   the same keys, and distinct keys stay distinct.
   */
  lemma {:induction false} SortByCountDescSpec(rows: seq<Entry>)
    ensures SortedByCountDesc(SortByCountDesc(rows))
    ensures multiset(SortByCountDesc(rows)) == multiset(rows)
    ensures KeysOf(SortByCountDesc(rows)) == KeysOf(rows)
    ensures DistinctKeys(rows) ==> DistinctKeys(SortByCountDesc(rows))
  {
    KeysOfPermutation(SortByCountDesc(rows), rows);
    if rows != [] {
      var tail := rows[1..];
      SortByCountDescSpec(tail);
      InsertByCountSorted(rows[0], SortByCountDesc(tail));
      if DistinctKeys(rows) {
        assert DistinctKeys(tail) by {
          forall i, j | 0 <= i < j < |tail| ensures tail[i].key != tail[j].key {
            assert tail[i] == rows[i + 1] && tail[j] == rows[j + 1];
          }
        }
        KeysOfMember(tail, rows[0].key);
        forall k | 0 <= k < |tail| ensures tail[k].key != rows[0].key {
          assert tail[k] == rows[k + 1];
        }
        InsertByCountDistinct(rows[0], SortByCountDesc(tail));
      }
    }
  }

  // ---------------------------------------------------------------------------
  // _create_referral_dataframe

  /**
   The cumulative ranked table. With a readable prior table, the prior rows and
   the fetched rows are concatenated, duplicate keys are dropped keeping the
   last occurrence, and the result is sorted by count descending. Without one
   (file missing or unreadable), the table is the fetched rows as they are.
   */
  function ReferralTable(kind: MetricKind, file: Option<seq<Entry>>, items: seq<Entry>): seq<Entry>
  {
    var fetched := Frame(kind, items);
    match file
    case None => fetched
    case Some(prior) => SortByCountDesc(DropDuplicatesKeepLast(prior + fetched))
  }

  /**
   With a prior table: one row per key, the keys of both tables, count
   non-increasing, and the rows kept are exactly the last occurrence of each
   key in prior rows followed by fetched rows. Without one: the fetched rows,
   unsorted and with any duplicates they have.
   */
  lemma ReferralTableSpec(kind: MetricKind, file: Option<seq<Entry>>, items: seq<Entry>)
    ensures file.None? ==> ReferralTable(kind, file, items) == Frame(kind, items)
    ensures file.Some? ==>
              var table, all := ReferralTable(kind, file, items), file.value + Frame(kind, items);
              && DistinctKeys(table)
              && KeysOf(table) == KeysOf(file.value) + KeysOf(Frame(kind, items))
              && SortedByCountDesc(table)
              && forall e :: e in table <==> exists j :: IsLastOccurrence(all, j) && all[j] == e
  {
    if file.Some? {
      var all := file.value + Frame(kind, items);
      var kept := DropDuplicatesKeepLast(all);
      DropDuplicatesSpec(all);
      SortByCountDescSpec(kept);
      KeysOfAppend(file.value, Frame(kind, items));
      forall e ensures e in SortByCountDesc(kept) <==> e in kept {
        assert e in SortByCountDesc(kept) <==> e in multiset(SortByCountDesc(kept));
      }
    }
  }

  /**
   The fetched row wins outright: every row of the merged table whose key was
   fetched is a fetched row, and when the fetched list has one row per key,
   every fetched row is in the merged table.
   */
  lemma FetchedRowsWin(kind: MetricKind, prior: seq<Entry>, items: seq<Entry>)
    ensures forall e :: e in ReferralTable(kind, Some(prior), items) && e.key in KeysOf(Frame(kind, items)) ==>
              e in Frame(kind, items)
    ensures DistinctKeys(Frame(kind, items)) ==>
              forall e :: e in Frame(kind, items) ==> e in ReferralTable(kind, Some(prior), items)
  {
    var fetched := Frame(kind, items);
    var all := prior + fetched;
    ReferralTableSpec(kind, Some(prior), items);
    forall e | e in ReferralTable(kind, Some(prior), items) && e.key in KeysOf(fetched) ensures e in fetched {
      var j :| IsLastOccurrence(all, j) && all[j] == e;
      KeysOfMember(fetched, e.key);
      var k :| 0 <= k < |fetched| && fetched[k].key == e.key;
      assert all[|prior| + k] == fetched[k];
      assert j >= |prior|;
      assert fetched[j - |prior|] == e;
    }
    if DistinctKeys(fetched) {
      forall e | e in fetched ensures e in ReferralTable(kind, Some(prior), items) {
        var k :| 0 <= k < |fetched| && fetched[k] == e;
        forall m | |prior| + k < m < |all| ensures all[m].key != e.key {
          assert all[m] == fetched[m - |prior|];
        }
        assert IsLastOccurrence(all, |prior| + k) && all[|prior| + k] == e;
      }
    }
  }

  /**
   A prior row K with count 5 and a fetched row K with count 10 leave exactly
   one row for K, the fetched one.
   */
  lemma FetchedRowReplacesPriorExample()
    ensures ReferralTable(ReferralSources, Some([Entry(Some("K"), None, 5, 2)]), [Entry(Some("K"), None, 10, 4)])
              == [Entry(Some("K"), None, 10, 4)]
  {
    var prior := [Entry(Some("K"), None, 5, 2)];
    var fetched := Frame(ReferralSources, [Entry(Some("K"), None, 10, 4)]);
    assert fetched == [Entry(Some("K"), None, 10, 4)];
    var all := prior + fetched;
    assert all[1..] == fetched && fetched[1..] == [];
    assert DropDuplicatesKeepLast(all) == fetched;
    assert fetched == [fetched[0]] + [];
  }

  /** A stored table with one row per key and sorted by count, read back and merged with nothing fetched, comes back unchanged. */
  lemma ReferralTableRoundTrip(kind: MetricKind, table: seq<Entry>)
    requires DistinctKeys(table) && SortedByCountDesc(table)
    ensures ReferralTable(kind, Some(table), []) == table
  {
    assert table + Frame(kind, []) == table;
    DropDuplicatesOfDistinct(table);
    SortOfSorted(table);
  }

  lemma {:induction false} DropDuplicatesOfDistinct(rows: seq<Entry>)
    requires DistinctKeys(rows)
    ensures DropDuplicatesKeepLast(rows) == rows
  {
    if rows != [] {
      var tail := rows[1..];
      forall k | 0 <= k < |tail| ensures tail[k].key != rows[0].key {
        assert tail[k] == rows[k + 1];
      }
      KeysOfMember(tail, rows[0].key);
      assert DistinctKeys(tail) by {
        forall i, j | 0 <= i < j < |tail| ensures tail[i].key != tail[j].key {
          assert tail[i] == rows[i + 1] && tail[j] == rows[j + 1];
        }
      }
      DropDuplicatesOfDistinct(tail);
      assert rows == [rows[0]] + tail;
    }
  }

  lemma {:induction false} SortOfSorted(rows: seq<Entry>)
    requires SortedByCountDesc(rows)
    ensures SortByCountDesc(rows) == rows
  {
    if rows != [] {
      var tail := rows[1..];
      assert SortedByCountDesc(tail) by {
        forall i, j | 0 <= i < j < |tail| ensures tail[i].count >= tail[j].count {
          assert tail[i] == rows[i + 1] && tail[j] == rows[j + 1];
        }
      }
      SortOfSorted(tail);
      if tail != [] {
        assert rows[0].count >= tail[0].count by {
          assert tail[0] == rows[1];
        }
      }
      assert rows == [rows[0]] + tail;
    }
  }

  // ---------------------------------------------------------------------------
  // The prior table as the source reads it

  /**
   What read_csv(file, index_col=0) followed by reset_index(drop=True) leaves
   of a ranked table written with index=False in the fetched frame's column
   order, as a first run writes it: the first column, which is the key, is
   taken as the index and then dropped, so every prior row comes back with a
   missing key. Column order is not modelled; a file written by an as-written
   merge starts with another column, which is the one dropped instead.
   */
  function ReadRankedAsWritten(file: Option<seq<Entry>>): (r: Option<seq<Entry>>)
    ensures r.Some? <==> file.Some?
    ensures r.Some? ==> |r.value| == |file.value|
    ensures r.Some? ==> forall i :: 0 <= i < |r.value| ==>
              r.value[i].key == None && r.value[i].title == file.value[i].title && r.value[i].count == file.value[i].count && r.value[i].uniques == file.value[i].uniques
  {
    match file
    case None => None
    case Some(rows) => Some(seq(|rows|, i requires 0 <= i < |rows| => rows[i].(key := None)))
  }

  /** _create_referral_dataframe as written: the merge runs on the prior rows with their keys lost. */
  function ReferralTableAsWritten(kind: MetricKind, file: Option<seq<Entry>>, items: seq<Entry>): seq<Entry>
  {
    ReferralTable(kind, ReadRankedAsWritten(file), items)
  }

  /**
   As written, on a prior file a first run wrote, no prior key survives: the merged table's keys are the fetched
   keys plus at most one missing key, the last prior row, which
   drop_duplicates keeps because missing values compare equal.
   */
  lemma AsWrittenDropsPriorKeys(kind: MetricKind, file: Option<seq<Entry>>, items: seq<Entry>)
    requires file.Some?
    ensures KeysOf(ReferralTableAsWritten(kind, file, items)) <= KeysOf(Frame(kind, items)) + {None}
  {
    var prior := ReadRankedAsWritten(file).value;
    ReferralTableSpec(kind, Some(prior), items);
    forall k | k in KeysOf(prior) ensures k == None {
      KeysOfMember(prior, k);
    }
  }

  /**
   A prior table holding a.com (5, 3) and a fetch of b.com (7, 4): as written,
   the stored table becomes b.com and a key-less (5, 3) row.
   */
  lemma AsWrittenLosesReferrerExample()
    ensures ReferralTableAsWritten(ReferralSources, Some([Entry(Some("a.com"), None, 5, 3)]), [Entry(Some("b.com"), None, 7, 4)])
              == [Entry(Some("b.com"), None, 7, 4), Entry(None, None, 5, 3)]
  {
    var lost := Entry(None, None, 5, 3);
    var read := ReadRankedAsWritten(Some([Entry(Some("a.com"), None, 5, 3)])).value;
    assert |read| == 1 && read[0] == lost;
    assert read == [lost];
    KeylessPriorExample();
  }

  /** The merge of a key-less prior row (5, 3) with a fetched b.com (7, 4). */
  lemma KeylessPriorExample()
    ensures ReferralTable(ReferralSources, Some([Entry(None, None, 5, 3)]), [Entry(Some("b.com"), None, 7, 4)])
              == [Entry(Some("b.com"), None, 7, 4), Entry(None, None, 5, 3)]
  {
    var b := Entry(Some("b.com"), None, 7, 4);
    var lost := Entry(None, None, 5, 3);
    assert Frame(ReferralSources, [b]) == [b];
    assert [lost] + [b] == [lost, b];
    assert [lost, b][1..] == [b] && [b][1..] == [];
    assert KeysOf([b]) == {Some("b.com")};
    assert DropDuplicatesKeepLast([b]) == [b] + DropDuplicatesKeepLast([]);
    assert DropDuplicatesKeepLast([lost, b]) == [lost] + DropDuplicatesKeepLast([b]);
    assert SortByCountDesc([b]) == [b];
    assert SortByCountDesc([lost, b]) == InsertByCount(lost, [b]);
  }

  /**
   As written, a stored table a (5, 1), c (3, 1) read back and merged with
   nothing fetched does not round-trip: it becomes the single key-less row (3, 1).
   */
  lemma AsWrittenRoundTripFailsExample()
    ensures ReferralTableAsWritten(ReferralSources, Some([Entry(Some("a"), None, 5, 1), Entry(Some("c"), None, 3, 1)]), [])
              == [Entry(None, None, 3, 1)]
  {
    var a := Entry(None, None, 5, 1);
    var c := Entry(None, None, 3, 1);
    var read := ReadRankedAsWritten(Some([Entry(Some("a"), None, 5, 1), Entry(Some("c"), None, 3, 1)])).value;
    assert |read| == 2 && read[0] == a && read[1] == c;
    assert read == [a, c];
    assert Frame(ReferralSources, []) == [];
    assert [a, c] + [] == [a, c];
    assert [a, c][1..] == [c] && [c][1..] == [];
    assert KeysOf([c]) == {None};
    assert DropDuplicatesKeepLast([c]) == [c] + DropDuplicatesKeepLast([]);
    assert DropDuplicatesKeepLast([a, c]) == DropDuplicatesKeepLast([c]);
    assert SortByCountDesc([c]) == [c];
  }

  /** The same inputs through the corrected read keep both referrers, b.com first. */
  lemma CorrectedKeepsReferrerExample()
    ensures ReferralTable(ReferralSources, Some([Entry(Some("a.com"), None, 5, 3)]), [Entry(Some("b.com"), None, 7, 4)])
              == [Entry(Some("b.com"), None, 7, 4), Entry(Some("a.com"), None, 5, 3)]
  {
    var a := Entry(Some("a.com"), None, 5, 3);
    var b := Entry(Some("b.com"), None, 7, 4);
    assert Frame(ReferralSources, [b]) == [b];
    assert [a] + [b] == [a, b];
    assert [a, b][1..] == [b] && [b][1..] == [];
    assert KeysOf([b]) == {Some("b.com")};
    assert DropDuplicatesKeepLast([b]) == [b] + DropDuplicatesKeepLast([]);
    assert DropDuplicatesKeepLast([a, b]) == [a] + DropDuplicatesKeepLast([b]);
    assert SortByCountDesc([b]) == [b];
    assert SortByCountDesc([a, b]) == InsertByCount(a, [b]);
  }
}
