/**
 The time-series reconciler of RepoStats, used for the views and clones
 metrics: bucketing the fetched events by UTC day (_get_counts), the 14-day
 snapshot (_create_snapshot_dataframe), merging into the persisted history
 (_merge_dict) and building the dense cumulative table
 (_create_cumulative_dataframe).

 Days are integer day numbers (days since the Unix epoch); "today" is a
 parameter, the UTC day the run happens on.
 */
module TimeSeries {
  import opened Wrappers
  import opened DailyTables

  /** Seconds in one UTC day. */
  const SecondsPerDay := 86400

  /** Number of days in the snapshot window that ends today. */
  const WindowDays := 14

  /** One element of the "views" or "clones" list the traffic endpoint returns; timestamp in seconds since the epoch, UTC. */
  datatype Event = Event(timestamp: int, count: int, uniques: int)

  /** The UTC calendar day of a timestamp: pd.to_datetime(timestamp, utc=True).date(). */
  function DayOf(timestamp: int): (day: int)
    ensures day * SecondsPerDay <= timestamp < (day + 1) * SecondsPerDay
  {
    timestamp / SecondsPerDay
  }

  /** Each event as a row on its UTC day, in fetch order. */
  function Bucketed(events: seq<Event>): seq<Row>
  {
    seq(|events|, i requires 0 <= i < |events| => Row(DayOf(events[i].timestamp), Counts(events[i].count, events[i].uniques)))
  }

  /** The n consecutive days starting at first: pd.date_range(first, first + n - 1, freq="D"). */
  function DayRange(first: int, n: nat): set<int>
  {
    if n == 0 then {} else DayRange(first, n - 1) + {first + n - 1}
  }

  lemma {:induction false} DayRangeMember(first: int, n: nat, d: int)
    ensures d in DayRange(first, n) <==> first <= d < first + n
  {
    if n > 0 {
      DayRangeMember(first, n - 1, d);
    }
  }

  /** The first day of the snapshot window that ends today. */
  function WindowStart(today: int): int
  {
    today - WindowDays + 1
  }

  /** The 14 days from today - 13 up to and including today. */
  function Window(today: int): set<int>
  {
    DayRange(WindowStart(today), WindowDays)
  }

  /**
   What _get_counts returns: every day that some event falls on, plus every day
   of the window; each day holds the sums of count and uniques over its events,
   which is (0, 0) for a window day without events.
   */
  function DailyCounts(events: seq<Event>, today: int): map<int, Counts>
  {
    var rows := Bucketed(events);
    map d | d in Dates(rows) + Window(today) :: DateSum(rows, d)
  }

  lemma BucketedSnoc(events: seq<Event>, i: nat)
    requires i < |events|
    ensures Bucketed(events[..i + 1]) == Bucketed(events[..i]) + [Row(DayOf(events[i].timestamp), Counts(events[i].count, events[i].uniques))]
  {
  }

  /**
   _get_counts: sum each event into the entry of its UTC day, creating the
   entry at (0, 0) on first sight, then add (0, 0) for every window day that
   has none.
   */
  method GetCounts(events: seq<Event>, today: int) returns (counts: map<int, Counts>)
    ensures counts == DailyCounts(events, today)
  {
    counts := map[];
    var i := 0;
    while i < |events|
      invariant 0 <= i <= |events|
      invariant counts == GroupBySum(Bucketed(events[..i]))
    {
      var item := events[i];
      var date := DayOf(item.timestamp);
      BucketStep(events, i, counts);
      if date !in counts {
        counts := counts[date := Zero];
      }
      counts := counts[date := counts[date].Plus(Counts(item.count, item.uniques))];
      i := i + 1;
    }
    assert events[..i] == events;
    var rows := Bucketed(events);
    var k := 0;
    while k < WindowDays
      invariant 0 <= k <= WindowDays
      invariant counts == map d | d in Dates(rows) + DayRange(WindowStart(today), k) :: DateSum(rows, d)
    {
      var date := WindowStart(today) + k;
      ZeroFillStep(rows, WindowStart(today), k, counts);
      if date !in counts {
        counts := counts[date := Zero];
      }
      k := k + 1;
    }
  }

  /** Summing the next event into its day's entry, created at (0, 0) on first sight, groups one more event. */
  lemma BucketStep(events: seq<Event>, i: nat, counts: map<int, Counts>)
    requires i < |events| && counts == GroupBySum(Bucketed(events[..i]))
    ensures var date, c := DayOf(events[i].timestamp), Counts(events[i].count, events[i].uniques);
            var created := if date in counts then counts else counts[date := Zero];
            created[date := created[date].Plus(c)] == GroupBySum(Bucketed(events[..i + 1]))
  {
    var r := Row(DayOf(events[i].timestamp), Counts(events[i].count, events[i].uniques));
    BucketedSnoc(events, i);
    GroupBySumSnoc(Bucketed(events[..i]), r);
  }

  /** Zero-filling the next window day extends the table by that day, with the sum of its events (none when it was absent). */
  lemma ZeroFillStep(rows: seq<Row>, start: int, k: nat, counts: map<int, Counts>)
    requires counts == map d | d in Dates(rows) + DayRange(start, k) :: DateSum(rows, d)
    ensures (if start + k in counts then counts else counts[start + k := Zero])
              == map d | d in Dates(rows) + DayRange(start, k + 1) :: DateSum(rows, d)
  {
    var date := start + k;
    assert DayRange(start, k + 1) == DayRange(start, k) + {date};
    if date !in counts {
      DateSumAbsent(rows, date);
    }
  }

  lemma BucketedAppend(a: seq<Event>, b: seq<Event>)
    ensures Bucketed(a + b) == Bucketed(a) + Bucketed(b)
  {
  }

  lemma BucketedDates(events: seq<Event>, d: int)
    ensures d in Dates(Bucketed(events)) <==> exists i :: 0 <= i < |events| && DayOf(events[i].timestamp) == d
  {
    DatesMember(Bucketed(events), d);
    assert forall i :: 0 <= i < |events| ==> Bucketed(events)[i].date == DayOf(events[i].timestamp);
  }

  /**
   The days of _get_counts: every day of the window ending today, and every
   day some event falls on, also when it lies outside the window; no other day.
   A day without events holds (0, 0).
   */
  lemma DailyCountsDays(events: seq<Event>, today: int)
    ensures forall d :: WindowStart(today) <= d <= today ==> d in DailyCounts(events, today)
    ensures forall i :: 0 <= i < |events| ==> DayOf(events[i].timestamp) in DailyCounts(events, today)
    ensures forall d :: d in DailyCounts(events, today) ==>
              WindowStart(today) <= d <= today || exists i :: 0 <= i < |events| && DayOf(events[i].timestamp) == d
    ensures forall d :: d in DailyCounts(events, today) && (forall i :: 0 <= i < |events| ==> DayOf(events[i].timestamp) != d) ==>
              DailyCounts(events, today)[d] == Zero
  {
    var rows := Bucketed(events);
    forall d ensures d in Window(today) <==> WindowStart(today) <= d <= today {
      DayRangeMember(WindowStart(today), WindowDays, d);
    }
    forall d ensures d in Dates(rows) <==> exists i :: 0 <= i < |events| && DayOf(events[i].timestamp) == d {
      BucketedDates(events, d);
    }
    forall d | d !in Dates(rows) ensures DateSum(rows, d) == Zero {
      DateSumAbsent(rows, d);
    }
  }

  /** One event on its own gives its day its count and uniques. */
  lemma DailyCountsSingle(e: Event, today: int)
    ensures DailyCounts([e], today)[DayOf(e.timestamp)] == Counts(e.count, e.uniques)
  {
    var rows := Bucketed([e]);
    assert rows == [Row(DayOf(e.timestamp), Counts(e.count, e.uniques))];
    assert rows[..0] == [];
    assert DayOf(e.timestamp) in Dates(rows);
    assert DateSum(rows, DayOf(e.timestamp)) == Zero.Plus(Counts(e.count, e.uniques));
  }

  /**
   Events on the same day are summed, not overwritten: on every window day, the
   counts of two batches of events fetched together are the sums of the
   counts of each batch.
   */
  lemma DailyCountsAdditive(a: seq<Event>, b: seq<Event>, today: int, d: int)
    requires WindowStart(today) <= d <= today
    ensures d in DailyCounts(a + b, today) && d in DailyCounts(a, today) && d in DailyCounts(b, today)
    ensures DailyCounts(a + b, today)[d] == DailyCounts(a, today)[d].Plus(DailyCounts(b, today)[d])
  {
    DailyCountsDays(a + b, today);
    DailyCountsDays(a, today);
    DailyCountsDays(b, today);
    BucketedAppend(a, b);
    DateSumAppend(Bucketed(a), Bucketed(b), d);
  }

  // ---------------------------------------------------------------------------
  // _merge_dict

  /** The conflict rule: a fetched row replaces the stored one when either of its fields is strictly greater. */
  predicate Replaces(fetched: Counts, stored: Counts)
  {
    fetched.total > stored.total || fetched.unique > stored.unique
  }

  /** The history after folding a fetched table into it under the conflict rule; the whole row is taken. */
  function Merged(history: map<int, Counts>, fetched: map<int, Counts>): map<int, Counts>
  {
    map d | d in history.Keys + fetched.Keys ::
      if d in fetched && (d !in history || Replaces(fetched[d], history[d])) then fetched[d] else history[d]
  }

  /**
   _merge_dict: for every fetched day, insert it when the history lacks it, and
   overwrite the stored row when the fetched one wins the conflict rule.
   */
  method MergeDict(history: map<int, Counts>, fetched: map<int, Counts>) returns (merged: map<int, Counts>)
    ensures merged == Merged(history, fetched)
  {
    merged := history;
    var pending := fetched.Keys;
    while pending != {}
      invariant pending <= fetched.Keys
      invariant merged == Merged(history, fetched - pending)
      decreases pending
    {
      EmptyOrMember(pending);
      var key :| key in pending;
      if key !in merged {
        merged := merged[key := fetched[key]];
      } else if Replaces(fetched[key], merged[key]) {
        merged := merged[key := fetched[key]];
      }
      pending := pending - {key};
    }
    assert fetched - pending == fetched;
  }

  /**
   The days of the merged history are those of both tables. A day only in the
   history keeps its row, a day only in the fetched table takes the fetched
   row, and a day in both takes the fetched row exactly when it is strictly
   greater in total or in unique, and otherwise keeps the stored row.
   */
  lemma MergedSpec(history: map<int, Counts>, fetched: map<int, Counts>)
    ensures Merged(history, fetched).Keys == history.Keys + fetched.Keys
    ensures forall d :: d in history && d !in fetched ==> Merged(history, fetched)[d] == history[d]
    ensures forall d :: d !in history && d in fetched ==> Merged(history, fetched)[d] == fetched[d]
    ensures forall d :: d in history && d in fetched ==>
              Merged(history, fetched)[d] ==
                if fetched[d].total > history[d].total || fetched[d].unique > history[d].unique
                then fetched[d] else history[d]
  {
  }

  /** After a merge, no fetched row beats the merged row of its day. */
  lemma MergedDominates(history: map<int, Counts>, fetched: map<int, Counts>)
    ensures forall d :: d in fetched ==> d in Merged(history, fetched) && !Replaces(fetched[d], Merged(history, fetched)[d])
  {
  }

  /** A history that already holds, for every fetched day, a row the fetched one does not beat is left as it is. */
  lemma MergedAbsorbed(history: map<int, Counts>, fetched: map<int, Counts>)
    requires forall d :: d in fetched ==> d in history && !Replaces(fetched[d], history[d])
    ensures Merged(history, fetched) == history
  {
    var merged := Merged(history, fetched);
    assert forall d :: d in merged.Keys <==> d in history.Keys;
    assert merged.Keys == history.Keys;
    forall d | d in history ensures merged[d] == history[d] { }
  }

  /** Merging the same fetched table a second time changes nothing. */
  lemma MergedIdempotent(history: map<int, Counts>, fetched: map<int, Counts>)
    ensures Merged(Merged(history, fetched), fetched) == Merged(history, fetched)
  {
    MergedDominates(history, fetched);
    MergedAbsorbed(Merged(history, fetched), fetched);
  }

  /**
   A stored row is only ever replaced by one that is strictly greater in at
   least one field; no day of the history is dropped.
   */
  lemma MergedNeverWorseInBoth(history: map<int, Counts>, fetched: map<int, Counts>)
    ensures forall d :: d in history ==>
              d in Merged(history, fetched) &&
              (Merged(history, fetched)[d] == history[d] || Replaces(Merged(history, fetched)[d], history[d]))
  {
  }

  /**
   The whole row is replaced, not each field maximised: a stored (5, 10) met by
   a fetched (6, 3) becomes (6, 3), so the unique count of that day drops.
   */
  lemma MergedTakesWholeRow(d: int)
    ensures Merged(map[d := Counts(5, 10)], map[d := Counts(6, 3)])[d] == Counts(6, 3)
  {
  }

  // ---------------------------------------------------------------------------
  // _create_snapshot_dataframe

  /** The entries of a non-empty table dated after its latest day minus 14 days. */
  function Recent(data: map<int, Counts>): map<int, Counts>
    requires data.Keys != {}
  {
    var latest := MaxDate(data.Keys);
    map d | d in data && d > latest - WindowDays :: data[d]
  }

  /**
   The table's rows in date order, keeping those within 14 days of its latest
   date: DataFrame.last("14D") keeps the rows dated after latest - 14 days.
   */
  function Snapshot(data: map<int, Counts>): seq<Row>
  {
    if data.Keys == {} then [] else SortedRows(Recent(data))
  }

  /**
   The snapshot is in ascending date order, holds the table's own rows, and
   holds exactly the days of the table that lie within 14 days of its latest
   day; an empty table gives an empty snapshot.
   */
  lemma SnapshotSpec(data: map<int, Counts>)
    ensures data.Keys == {} ==> Snapshot(data) == []
    ensures Ascending(Snapshot(data))
    ensures forall i :: 0 <= i < |Snapshot(data)| ==>
              Snapshot(data)[i].date in data && Snapshot(data)[i].counts == data[Snapshot(data)[i].date]
    ensures data.Keys != {} ==>
              forall d :: d in Dates(Snapshot(data)) <==> d in data && d > MaxDate(data.Keys) - WindowDays
  {
    if data.Keys != {} {
      var recent := Recent(data);
      SortedRowsSpec(recent);
      assert Snapshot(data) == SortedRows(recent);
      forall i | 0 <= i < |Snapshot(data)|
        ensures Snapshot(data)[i].date in data && Snapshot(data)[i].counts == data[Snapshot(data)[i].date]
      {
        assert Snapshot(data)[i].date in recent;
      }
    } else {
      assert Snapshot(data) == [];
    }
  }

  /**
   On the output of _get_counts for events none of which is dated after today,
   the snapshot is exactly the 14 days of the window, in order, each with its
   counts (zero for a day without events): older event days are cut.
   */
  lemma SnapshotOfDailyCounts(events: seq<Event>, today: int)
    requires forall i :: 0 <= i < |events| ==> DayOf(events[i].timestamp) <= today
    ensures Snapshot(DailyCounts(events, today)) ==
              seq(WindowDays, i => Row(WindowStart(today) + i, CountsOn(DailyCounts(events, today), WindowStart(today) + i)))
  {
    var data := DailyCounts(events, today);
    DailyCountsDays(events, today);
    assert today in data;
    assert IsGreatest(data.Keys, today) by {
      forall d | d in data ensures d <= today {
        if !(WindowStart(today) <= d <= today) {
          var i :| 0 <= i < |events| && DayOf(events[i].timestamp) == d;
        }
      }
    }
    var recent := Recent(data);
    forall d ensures d in recent <==> WindowStart(today) <= d < WindowStart(today) + WindowDays { }
    SortedRowsOfRange(recent, WindowStart(today), WindowDays);
    var start := WindowStart(today);
    var fromRecent := seq(WindowDays, i => Row(start + i, CountsOn(recent, start + i)));
    var fromData := seq(WindowDays, i => Row(start + i, CountsOn(data, start + i)));
    forall i | 0 <= i < WindowDays ensures fromRecent[i] == fromData[i] {
      assert start + i in recent;
      assert recent[start + i] == data[start + i];
      assert fromRecent[i] == Row(start + i, CountsOn(recent, start + i));
      assert fromData[i] == Row(start + i, CountsOn(data, start + i));
    }
    assert fromRecent == fromData;
  }

  /**
   Events on 2024-01-01 (10, 8) and 2024-01-02 (5, 3), fetched on 2024-01-02
   (day 19724 of the epoch): the snapshot has 14 rows, the last two carry
   the events and the twelve before them are (0, 0).
   */
  lemma SnapshotExample()
    ensures var snapshot := Snapshot(DailyCounts([Event(1704067200, 10, 8), Event(1704153600, 5, 3)], 19724));
            && |snapshot| == 14
            && snapshot[12] == Row(19723, Counts(10, 8))
            && snapshot[13] == Row(19724, Counts(5, 3))
            && forall i :: 0 <= i < 12 ==> snapshot[i] == Row(19711 + i, Zero)
  {
    var events := [Event(1704067200, 10, 8), Event(1704153600, 5, 3)];
    assert DayOf(1704067200) == 19723 && DayOf(1704153600) == 19724;
    SnapshotOfDailyCounts(events, 19724);
    ExampleEventDays();
    ExampleQuietDays();
  }

  /** The two event days of the example carry their events' counts. */
  lemma ExampleEventDays()
    ensures var data := DailyCounts([Event(1704067200, 10, 8), Event(1704153600, 5, 3)], 19724);
            CountsOn(data, 19723) == Counts(10, 8) && CountsOn(data, 19724) == Counts(5, 3)
  {
    var events := [Event(1704067200, 10, 8), Event(1704153600, 5, 3)];
    var data := DailyCounts(events, 19724);
    assert DayOf(1704067200) == 19723 && DayOf(1704153600) == 19724;
    DailyCountsDays(events, 19724);
    var rows := Bucketed(events);
    assert rows == [Row(19723, Counts(10, 8)), Row(19724, Counts(5, 3))];
    assert rows[..1] == [Row(19723, Counts(10, 8))];
    assert rows[..1][..0] == [];
    assert DateSum(rows[..1], 19723) == Zero.Plus(Counts(10, 8));
    assert DateSum(rows, 19723) == DateSum(rows[..1], 19723);
    assert DateSum(rows[..1], 19724) == DateSum(rows[..1][..0], 19724);
    assert DateSum(rows, 19724) == Zero.Plus(Counts(5, 3));
  }

  /** The twelve earlier days of the example's window have no events. */
  lemma ExampleQuietDays()
    ensures var data := DailyCounts([Event(1704067200, 10, 8), Event(1704153600, 5, 3)], 19724);
            forall d :: 19711 <= d < 19723 ==> CountsOn(data, d) == Zero
  {
    var events := [Event(1704067200, 10, 8), Event(1704153600, 5, 3)];
    assert DayOf(1704067200) == 19723 && DayOf(1704153600) == 19724;
    DailyCountsDays(events, 19724);
    forall d | 19711 <= d < 19723 ensures CountsOn(DailyCounts(events, 19724), d) == Zero {
      assert forall j :: 0 <= j < |events| ==> DayOf(events[j].timestamp) != d;
    }
  }

  // ---------------------------------------------------------------------------
  // _create_cumulative_dataframe

  /**
   The persisted history as read back: None when the file is missing or
   cannot be parsed, and also when it repeats a date, because
   to_dict(orient="index") raises on a repeated index and the caller treats
   that like an unreadable file.
   */
  function ReadCumulative(file: Option<seq<Row>>): (r: Option<map<int, Counts>>)
    ensures r.Some? <==> file.Some? && DistinctDates(file.value)
    ensures r.Some? ==> r.value.Keys == Dates(file.value)
    ensures r.Some? ==> forall i :: 0 <= i < |file.value| ==>
              file.value[i].date in r.value && r.value[file.value[i].date] == file.value[i].counts
  {
    if file.Some? && DistinctDates(file.value) then
      TableOfSpec(file.value);
      Some(TableOf(file.value))
    else None
  }

  /** The table built before densifying: the merge into the readable history, or the fetched table alone. */
  function Reconciled(file: Option<seq<Row>>, data: map<int, Counts>): map<int, Counts>
  {
    match ReadCumulative(file)
    case Some(history) => Merged(history, data)
    case None => data
  }

  /**
   _create_cumulative_dataframe: the reconciled rows grouped by date and summed,
   then densified from the earliest to the latest date. None stands for the
   error raised when the table is empty, since date_range has no bounds then.
   */
  function Cumulative(file: Option<seq<Row>>, data: map<int, Counts>): Option<seq<Row>>
  {
    var grouped := GroupBySum(SortedRows(Reconciled(file, data)));
    if grouped.Keys == {} then None else Some(Densify(grouped))
  }

  /** With one row per date, grouping is the identity, so the cumulative table is the densified reconciled table. */
  lemma CumulativeIsDensified(file: Option<seq<Row>>, data: map<int, Counts>)
    ensures Cumulative(file, data) ==
              if Reconciled(file, data).Keys == {} then None else Some(Densify(Reconciled(file, data)))
  {
    GroupBySumSortedRows(Reconciled(file, data));
  }

  /** The cumulative step fails exactly when neither a readable history nor the fetched data has a day. */
  lemma CumulativeFailsOnlyWhenEmpty(file: Option<seq<Row>>, data: map<int, Counts>)
    ensures Cumulative(file, data).None? <==> Reconciled(file, data).Keys == {}
  {
    CumulativeIsDensified(file, data);
  }

  /**
   The cumulative table has exactly one row per day from the earliest to the
   latest reconciled day, in ascending order; each reconciled day carries its
   row and every gap day is (0, 0).
   */
  lemma CumulativeSpec(file: Option<seq<Row>>, data: map<int, Counts>, table: seq<Row>)
    requires Cumulative(file, data) == Some(table)
    ensures Reconciled(file, data).Keys != {}
    ensures Dense(table)
    ensures table[0].date == MinDate(Reconciled(file, data).Keys)
    ensures table[|table| - 1].date == MaxDate(Reconciled(file, data).Keys)
    ensures forall d :: d in Reconciled(file, data) ==> table[d - table[0].date] == Row(d, Reconciled(file, data)[d])
    ensures forall i :: 0 <= i < |table| && table[i].date !in Reconciled(file, data) ==> table[i].counts == Zero
  {
    CumulativeIsDensified(file, data);
    DensifySpec(Reconciled(file, data), table);
  }

  /**
   A stored history that repeats a date cannot be read, so the run falls back
   to the fetched data alone: the whole stored history is discarded.
   */
  lemma RepeatedDateDiscardsHistory(rows: seq<Row>, data: map<int, Counts>)
    requires !DistinctDates(rows)
    ensures Reconciled(Some(rows), data) == data
    ensures Cumulative(Some(rows), data) == Cumulative(None, data)
  {
    assert ReadCumulative(Some(rows)) == None;
  }

  /** A history with day 1 stored twice and a fetch of day 2 leave only day 2. */
  lemma RepeatedDateExample()
    ensures Reconciled(Some([Row(1, Counts(5, 5)), Row(1, Counts(1, 1))]), map[2 := Counts(1, 1)]) == map[2 := Counts(1, 1)]
  {
    var rows := [Row(1, Counts(5, 5)), Row(1, Counts(1, 1))];
    assert rows[0].date == rows[1].date;
    RepeatedDateDiscardsHistory(rows, map[2 := Counts(1, 1)]);
  }

  /** Without a readable history, the cumulative table is the fetched table densified the same way. */
  lemma CumulativeFirstRun(file: Option<seq<Row>>, data: map<int, Counts>)
    requires ReadCumulative(file) == None
    requires data.Keys != {}
    ensures Cumulative(file, data) == Some(Densify(data))
  {
    CumulativeIsDensified(file, data);
  }

  /** A dense table written out and read back, merged with nothing fetched, comes back unchanged. */
  lemma CumulativeRoundTrip(table: seq<Row>)
    requires table != [] && Dense(table)
    ensures Cumulative(Some(table), map[]) == Some(table)
  {
    DenseTableKeys(table);
    DensifyTableOf(table);
    var history := TableOf(table);
    MergedAbsorbed(history, map[]);
    CumulativeIsDensified(Some(table), map[]);
  }

  /** Whatever the history, every fetched day ends up reconciled to a row the fetched one does not beat. */
  lemma ReconciledDominates(file: Option<seq<Row>>, data: map<int, Counts>)
    ensures forall d :: d in data ==> d in Reconciled(file, data) && !Replaces(data[d], Reconciled(file, data)[d])
  {
    match ReadCumulative(file)
    case Some(history) => MergedDominates(history, data);
    case None =>
  }

  /** The cumulative table, read back, gives every reconciled day its reconciled row. */
  lemma CumulativeReadsBack(file: Option<seq<Row>>, data: map<int, Counts>, table: seq<Row>)
    requires Cumulative(file, data) == Some(table)
    ensures table != [] && Dense(table)
    ensures ReadCumulative(Some(table)) == Some(TableOf(table))
    ensures forall d :: d in Reconciled(file, data) ==> d in TableOf(table) && TableOf(table)[d] == Reconciled(file, data)[d]
  {
    var m := Reconciled(file, data);
    CumulativeIsDensified(file, data);
    DensifySpec(m, table);
    DenseTableKeys(table);
    forall d | d in m ensures d in TableOf(table) && TableOf(table)[d] == m[d] {
      var i := d - table[0].date;
      assert table[i] == Row(d, m[d]);
    }
  }

  /** Running the cumulative step again on its own output with the same fetched table changes nothing. */
  lemma CumulativeIdempotent(file: Option<seq<Row>>, data: map<int, Counts>, table: seq<Row>)
    requires Cumulative(file, data) == Some(table)
    ensures Cumulative(Some(table), data) == Some(table)
  {
    CumulativeReadsBack(file, data, table);
    ReconciledDominates(file, data);
    var history := TableOf(table);
    MergedAbsorbed(history, data);
    DensifyTableOf(table);
    CumulativeIsDensified(Some(table), data);
  }
}
