/**
 Daily tables: the shape shared by the views and clones metrics. A table maps a
 UTC calendar day (an integer day number) to its two columns, total_<metric>
 and unique_<metric>. This module holds the table-level operations the
 time-series reconciler is built from: grouping rows by date and summing,
 listing a table in date order, and densifying a table over its date range.
 */
module DailyTables {

  /** The two columns of a daily table. */
  datatype Counts = Counts(total: int, unique: int)
  {
    function Plus(other: Counts): Counts
    {
      Counts(total + other.total, unique + other.unique)
    }
  }

  /** The (0, 0) row that fills a day with no data. */
  const Zero := Counts(0, 0)

  /** One row of a table indexed by date. */
  datatype Row = Row(date: int, counts: Counts)

  /** The value of day d in m, or Zero when m has no row for d (reindex with fill_value=0). */
  function CountsOn(m: map<int, Counts>, d: int): Counts
  {
    if d in m then m[d] else Zero
  }

  /** The dates that occur in a list of rows. */
  function Dates(rows: seq<Row>): set<int>
  {
    if rows == [] then {} else Dates(rows[..|rows| - 1]) + {rows[|rows| - 1].date}
  }

  lemma {:induction false} DatesMember(rows: seq<Row>, d: int)
    ensures d in Dates(rows) <==> exists i :: 0 <= i < |rows| && rows[i].date == d
  {
    if rows != [] {
      var init := rows[..|rows| - 1];
      DatesMember(init, d);
      if d in Dates(init) {
        var i :| 0 <= i < |init| && init[i].date == d;
        assert rows[i] == init[i];
      }
      if exists i :: 0 <= i < |rows| && rows[i].date == d {
        var i :| 0 <= i < |rows| && rows[i].date == d;
        if i < |init| { assert init[i] == rows[i]; }
      }
    }
  }

  /** Strictly increasing dates: sorted and at most one row per day. */
  ghost predicate Ascending(rows: seq<Row>)
  {
    forall i, j :: 0 <= i < j < |rows| ==> rows[i].date < rows[j].date
  }

  /** Ascending by exactly one day per row: no day between the first and the last is missing. */
  ghost predicate Dense(rows: seq<Row>)
  {
    forall i :: 0 <= i < |rows| ==> rows[i].date == rows[0].date + i
  }

  predicate IsLeast(s: set<int>, m: int)
  {
    m in s && forall k :: k in s ==> m <= k
  }

  predicate IsGreatest(s: set<int>, m: int)
  {
    m in s && forall k :: k in s ==> k <= m
  }

  lemma EmptyOrMember(s: set<int>)
    ensures s == {} || exists k :: k in s
  {
    if forall k :: k !in s {
      assert forall k :: k in s <==> k in {};
    }
  }

  lemma {:induction false} ExtremesExist(s: set<int>)
    requires s != {}
    ensures exists m :: IsLeast(s, m)
    ensures exists m :: IsGreatest(s, m)
    decreases |s|
  {
    EmptyOrMember(s);
    var x :| x in s;
    if s != {x} {
      var rest := s - {x};
      ExtremesExist(rest);
      var lo :| IsLeast(rest, lo);
      var hi :| IsGreatest(rest, hi);
      var least := if x < lo then x else lo;
      var greatest := if x > hi then x else hi;
      forall k | k in s ensures least <= k <= greatest {
        if k != x { assert k in rest; }
      }
      assert IsLeast(s, least) && IsGreatest(s, greatest);
    } else {
      assert IsLeast(s, x) && IsGreatest(s, x);
    }
  }

  /** The earliest day of a non-empty table (dataframe.index.min()). */
  function MinDate(s: set<int>): (m: int)
    requires s != {}
    ensures IsLeast(s, m)
  {
    ExtremesExist(s);
    var m :| IsLeast(s, m);
    m
  }

  /** The latest day of a non-empty table (dataframe.index.max()). */
  function MaxDate(s: set<int>): (m: int)
    requires s != {}
    ensures IsGreatest(s, m)
  {
    ExtremesExist(s);
    var m :| IsGreatest(s, m);
    m
  }

  /** The sum of the counts of every row dated d; Zero when there is none. */
  function DateSum(rows: seq<Row>, d: int): Counts
  {
    if rows == [] then Zero
    else
      var before := DateSum(rows[..|rows| - 1], d);
      var last := rows[|rows| - 1];
      if last.date == d then before.Plus(last.counts) else before
  }

  /** groupby(index).sum(): one entry per date that occurs, holding the sum of that date's rows. */
  function GroupBySum(rows: seq<Row>): map<int, Counts>
  {
    map d | d in Dates(rows) :: DateSum(rows, d)
  }

  lemma {:induction false} DateSumAbsent(rows: seq<Row>, d: int)
    requires d !in Dates(rows)
    ensures DateSum(rows, d) == Zero
  {
    if rows != [] {
      DateSumAbsent(rows[..|rows| - 1], d);
    }
  }

  /** Summing, not overwriting: the sum over two batches of rows is the sum of the sums. */
  lemma {:induction false} DateSumAppend(a: seq<Row>, b: seq<Row>, d: int)
    ensures DateSum(a + b, d) == DateSum(a, d).Plus(DateSum(b, d))
  {
    if b == [] {
      assert a + b == a;
    } else {
      var b' := b[..|b| - 1];
      assert (a + b)[..|a + b| - 1] == a + b';
      DateSumAppend(a, b', d);
    }
  }

  lemma DatesSnoc(rows: seq<Row>, r: Row)
    ensures Dates(rows + [r]) == Dates(rows) + {r.date}
  {
    assert (rows + [r])[..|rows|] == rows;
  }

  lemma AscendingSnoc(rows: seq<Row>, r: Row)
    requires Ascending(rows)
    requires forall d :: d in Dates(rows) ==> d < r.date
    ensures Ascending(rows + [r])
  {
    forall i, j | 0 <= i < j < |rows| + 1 ensures (rows + [r])[i].date < (rows + [r])[j].date {
      DatesMember(rows, rows[i].date);
    }
  }

  /** Adding one row to a grouped table adds its counts to its date, creating the date at (0, 0) if new. */
  lemma GroupBySumSnoc(rows: seq<Row>, r: Row)
    ensures GroupBySum(rows + [r]) == GroupBySum(rows)[r.date := CountsOn(GroupBySum(rows), r.date).Plus(r.counts)]
  {
    var all := rows + [r];
    assert all[..|all| - 1] == rows;
    DatesSnoc(rows, r);
    if r.date !in Dates(rows) {
      DateSumAbsent(rows, r.date);
    }
  }

  /** Two rows for the same day are summed, not one of them kept. */
  lemma GroupBySumSumsDuplicates(d: int, a: Counts, b: Counts)
    ensures GroupBySum([Row(d, a), Row(d, b)]) == map[d := a.Plus(b)]
  {
    GroupBySumSnoc([Row(d, a)], Row(d, b));
    GroupBySumSnoc([], Row(d, a));
    assert [] + [Row(d, a)] == [Row(d, a)];
    assert [Row(d, a)] + [Row(d, b)] == [Row(d, a), Row(d, b)];
    assert GroupBySum([]) == map[] by {
      assert Dates([]) == {};
    }
  }

  /**
   The rows of a table in ascending date order, one per entry: the frame that
   pd.DataFrame.from_dict(orient="index") builds, listed after sort_index().
   */
  function SortedRows(m: map<int, Counts>): seq<Row>
    decreases |m.Keys|
  {
    if m.Keys == {} then []
    else
      var latest := MaxDate(m.Keys);
      var earlier := m - {latest};
      assert earlier.Keys == m.Keys - {latest};
      SortedRows(earlier) + [Row(latest, m[latest])]
  }

  /** The last sorted row is the latest entry; every earlier entry has an earlier date. */
  lemma SortedRowsLast(m: map<int, Counts>, latest: int)
    requires m.Keys != {} && latest == MaxDate(m.Keys)
    ensures (m - {latest}).Keys == m.Keys - {latest}
    ensures SortedRows(m) == SortedRows(m - {latest}) + [Row(latest, m[latest])]
    ensures forall d :: d in m - {latest} ==> d < latest
  {
    assert (m - {latest}).Keys == m.Keys - {latest};
  }

  /** The sorted rows of a table are in ascending date order and are exactly its entries. */
  lemma {:induction false} SortedRowsSpec(m: map<int, Counts>)
    ensures Ascending(SortedRows(m))
    ensures Dates(SortedRows(m)) == m.Keys
    ensures forall i :: 0 <= i < |SortedRows(m)| ==> SortedRows(m)[i].date in m && SortedRows(m)[i].counts == m[SortedRows(m)[i].date]
    decreases |m.Keys|
  {
    if m.Keys != {} {
      var latest := MaxDate(m.Keys);
      var earlier := m - {latest};
      SortedRowsLast(m, latest);
      SortedRowsSpec(earlier);
      var init := SortedRows(earlier);
      var last := Row(latest, m[latest]);
      DatesSnoc(init, last);
      AscendingSnoc(init, last);
      forall i | 0 <= i < |init| ensures (init + [last])[i] == init[i] && init[i].date in m && init[i].counts == m[init[i].date] {
        assert init[i].date in earlier;
      }
    } else {
      assert m.Keys == {};
    }
  }

  /** Grouping the rows of a table, which has one row per date, gives the table back. */
  lemma {:induction false} GroupBySumSortedRows(m: map<int, Counts>)
    ensures GroupBySum(SortedRows(m)) == m
    decreases |m.Keys|
  {
    if m.Keys != {} {
      var latest := MaxDate(m.Keys);
      var earlier := m - {latest};
      assert earlier.Keys == m.Keys - {latest};
      GroupBySumSortedRows(earlier);
      GroupBySumSnoc(SortedRows(earlier), Row(latest, m[latest]));
      assert latest !in GroupBySum(SortedRows(earlier));
    } else {
      assert m == map[];
    }
  }

  /** The sorted rows of a table whose dates are exactly lo, lo+1, ..., lo+n-1 are those n days in order. */
  lemma {:induction false} SortedRowsOfRange(m: map<int, Counts>, lo: int, n: nat)
    requires forall d :: d in m <==> lo <= d < lo + n
    ensures SortedRows(m) == seq(n, i => Row(lo + i, CountsOn(m, lo + i)))
    decreases n
  {
    if n == 0 {
      EmptyOrMember(m.Keys);
      assert m.Keys == {};
    } else {
      assert lo in m;
      var latest := MaxDate(m.Keys);
      assert latest == lo + n - 1 by {
        assert lo + n - 1 in m.Keys;
      }
      var earlier := m - {latest};
      assert earlier.Keys == m.Keys - {latest};
      SortedRowsOfRange(earlier, lo, n - 1);
      var want := seq(n, i => Row(lo + i, CountsOn(m, lo + i)));
      assert SortedRows(m) == SortedRows(earlier) + [Row(latest, m[latest])];
      forall i | 0 <= i < n ensures SortedRows(m)[i] == want[i] {
        assert want[i] == Row(lo + i, CountsOn(m, lo + i));
        if i < n - 1 {
          assert SortedRows(m)[i] == SortedRows(earlier)[i];
          assert SortedRows(earlier)[i] == Row(lo + i, CountsOn(earlier, lo + i));
          assert CountsOn(earlier, lo + i) == CountsOn(m, lo + i);
        } else {
          assert SortedRows(m)[i] == Row(latest, m[latest]);
          assert latest == lo + i && latest in m;
        }
      }
    }
  }

  /**
   reindex(date_range(min, max), fill_value=0): one row per day from the
   earliest to the latest date of a non-empty table, (0, 0) where the table
   has no row.
   */
  function Densify(m: map<int, Counts>): (rows: seq<Row>)
    requires m.Keys != {}
  {
    var lo, hi := MinDate(m.Keys), MaxDate(m.Keys);
    seq(hi - lo + 1, i => Row(lo + i, CountsOn(m, lo + i)))
  }

  /**
   A densified table is dense, runs from the table's earliest to its latest
   date, carries every entry of the table at its day, and holds (0, 0) on
   every other day.
   */
  lemma DensifySpec(m: map<int, Counts>, table: seq<Row>)
    requires m.Keys != {} && table == Densify(m)
    ensures |table| == MaxDate(m.Keys) - MinDate(m.Keys) + 1
    ensures Dense(table)
    ensures table[0].date == MinDate(m.Keys)
    ensures table[|table| - 1].date == MaxDate(m.Keys)
    ensures forall d :: d in m ==> 0 <= d - table[0].date < |table| && table[d - table[0].date] == Row(d, m[d])
    ensures forall i :: 0 <= i < |table| && table[i].date !in m ==> table[i].counts == Zero
  {
    var lo, hi := MinDate(m.Keys), MaxDate(m.Keys);
    assert lo in m.Keys;
    assert table == seq(hi - lo + 1, i => Row(lo + i, CountsOn(m, lo + i)));
    forall i | 0 <= i < |table| ensures table[i] == Row(lo + i, CountsOn(m, lo + i)) { }
    forall d | d in m ensures 0 <= d - lo < |table| && table[d - lo] == Row(d, m[d]) {
      assert d in m.Keys;
      assert table[d - lo] == Row(lo + (d - lo), CountsOn(m, lo + (d - lo)));
    }
  }

  /** At most one row per date. */
  predicate DistinctDates(rows: seq<Row>)
  {
    forall i, j :: 0 <= i < j < |rows| ==> rows[i].date != rows[j].date
  }

  /** to_dict(orient="index"): each row's date mapped to its counts. */
  function TableOf(rows: seq<Row>): map<int, Counts>
  {
    if rows == [] then map[]
    else TableOf(rows[..|rows| - 1])[rows[|rows| - 1].date := rows[|rows| - 1].counts]
  }

  /** The table of rows with distinct dates has exactly their dates, each with its row's counts. */
  lemma {:induction false} TableOfSpec(rows: seq<Row>)
    requires DistinctDates(rows)
    ensures TableOf(rows).Keys == Dates(rows)
    ensures forall i :: 0 <= i < |rows| ==> rows[i].date in TableOf(rows) && TableOf(rows)[rows[i].date] == rows[i].counts
  {
    if rows != [] {
      var init := rows[..|rows| - 1];
      assert DistinctDates(init) by {
        forall i, j | 0 <= i < j < |init| ensures init[i].date != init[j].date {
          assert init[i] == rows[i] && init[j] == rows[j];
        }
      }
      TableOfSpec(init);
      forall i | 0 <= i < |init| ensures init[i] == rows[i] && rows[i].date != rows[|rows| - 1].date { }
    }
  }

  /** The table of a dense listing has exactly the days the listing spans. */
  lemma DenseTableKeys(rows: seq<Row>)
    requires rows != [] && Dense(rows)
    ensures DistinctDates(rows)
    ensures forall d :: d in TableOf(rows) <==> rows[0].date <= d < rows[0].date + |rows|
    ensures forall i :: 0 <= i < |rows| ==> TableOf(rows)[rows[i].date] == rows[i].counts
  {
    var lo := rows[0].date;
    assert DistinctDates(rows);
    TableOfSpec(rows);
    forall d | d in TableOf(rows) ensures lo <= d < lo + |rows| {
      DatesMember(rows, d);
    }
    forall d | lo <= d < lo + |rows| ensures d in TableOf(rows) {
      assert rows[d - lo].date == d;
    }
  }

  /** Densify runs over exactly the span between a table's least and greatest date. */
  lemma DensifyBetween(m: map<int, Counts>, lo: int, hi: int)
    requires IsLeast(m.Keys, lo) && IsGreatest(m.Keys, hi)
    ensures m.Keys != {} && lo <= hi
    ensures Densify(m) == seq(hi - lo + 1, i => Row(lo + i, CountsOn(m, lo + i)))
  {
    assert lo in m.Keys;
    assert MinDate(m.Keys) == lo;
    assert MaxDate(m.Keys) == hi;
  }

  /** Densifying the table of a dense listing gives that listing back. */
  lemma DensifyTableOf(rows: seq<Row>)
    requires rows != [] && Dense(rows)
    ensures rows[0].date in TableOf(rows)
    ensures Densify(TableOf(rows)) == rows
  {
    var lo := rows[0].date;
    DenseTableKeys(rows);
    var m := TableOf(rows);
    assert rows[|rows| - 1].date == lo + |rows| - 1;
    DensifyBetween(m, lo, lo + |rows| - 1);
    var dense := Densify(m);
    forall i | 0 <= i < |rows| ensures dense[i] == rows[i] {
      assert rows[i].date == lo + i;
      assert dense[i] == Row(lo + i, CountsOn(m, lo + i));
      assert lo + i in m && m[lo + i] == rows[i].counts;
    }
  }
}
