/** The storage layer's unread statistics: the three result types and the
    code that turns what the database returns for each query into them. */
module UnreadCounts {
  import opened Wrappers
  import opened Schema
  import opened Aggregation

  /** A `time.Time` as the statistics use it: `ZeroTime` is the zero value
      a stat's `Newest` keeps when the query gave NULL. */
  datatype Time = ZeroTime | At(instant: int)

  /** Unread count and newest unread publication time of the reading list. */
  datatype GlobalUnreadStat = GlobalUnreadStat(count: int, newest: Time)

  /** Unread count and newest unread publication time of one feed. */
  datatype FeedUnreadStat = FeedUnreadStat(feedId: int, count: int, newest: Time)

  /** Unread count and newest unread publication time of one category. */
  datatype CategoryUnreadStat = CategoryUnreadStat(categoryId: int, title: string, count: int, newest: Time)

  /** Why a statistics call returned an error; the wrapped message text is
      not modelled. */
  datatype StoreError =
    | QueryFailed   // the query could not be run
    | ScanFailed    // a row could not be read into the stat's fields
    | CursorFailed  // the cursor stopped with an error before its last row

  /** A row as the scan into the stat's fields sees it. */
  datatype Scanned<T> = Decoded(row: T) | Undecodable

  /** What running a query hands back: an error, or a cursor over rows that
      either ends normally or stops with an error (`interrupted`). */
  datatype Cursor<T> = QueryError | Rows(rows: seq<Scanned<T>>, interrupted: bool)

  predicate AllDecoded<T>(rows: seq<Scanned<T>>)
  {
    forall i :: 0 <= i < |rows| ==> rows[i].Decoded?
  }

  /** A cursor that streams the query answer `full`: the rows it delivers
      are the first rows of `full`, all of them unless it was interrupted,
      each either decodable as that row or not decodable at all. */
  ghost predicate StreamOf<T>(rows: seq<Scanned<T>>, interrupted: bool, full: seq<T>)
  {
    && |rows| <= |full|
    && (!interrupted ==> |rows| == |full|)
    && forall i :: 0 <= i < |rows| && rows[i].Decoded? ==> rows[i].row == full[i]
  }

  /** The NULL check on the scanned MAX: a NULL leaves the zero time. */
  function NewestTime(newest: Option<int>): Time
  {
    match newest
    case None => ZeroTime
    case Some(t) => At(t)
  }

  /** The reading-list statistic from the outcome of scanning the one row
      of the ungrouped query: a failed query or scan is passed on as the
      error, otherwise the count is kept and a NULL newest becomes the zero
      time. */
  function VisibleUnreadGlobalStat(scanned: Result<GlobalRow, StoreError>): (r: Result<GlobalUnreadStat, StoreError>)
    ensures r.Err? <==> scanned.Err?
    ensures scanned.Err? ==> r.error == scanned.error
    ensures scanned.Ok? ==> r.value.count == scanned.value.count
    ensures scanned.Ok? ==> (r.value.newest == ZeroTime <==> scanned.value.newest.None?)
    ensures scanned.Ok? && scanned.value.newest.Some? ==> r.value.newest == At(scanned.value.newest.value)
  {
    match scanned
    case Err(e) => Err(e)
    case Ok(row) => Ok(GlobalUnreadStat(row.count, NewestTime(row.newest)))
  }

  /** For the row the ungrouped query computes, the statistic counts exactly
      the visible entries, and its newest time is the zero time exactly
      when there is none, otherwise the newest visible publication time. */
  lemma GlobalStatOfSnapshot(s: Snapshot, userId: int)
    ensures VisibleUnreadGlobalStat(Ok(GlobalQuery(s, userId))).Ok?
    ensures var st := VisibleUnreadGlobalStat(Ok(GlobalQuery(s, userId))).value;
      && st.count == |VisibleEntries(s, userId)|
      && (st.count == 0 <==> st.newest == ZeroTime)
      && (st.newest == ZeroTime <==> forall e :: e in s.entries ==> !Visible(s.subs, userId, e))
      && (st.newest.At? ==> IsNewestVisible(s, userId, st.newest.instant))
  {
  }

  /** The row loop as the source writes it: stop at the first row that does
      not scan, otherwise convert every delivered row, without asking the
      cursor whether it stopped because of an error. */
  function CollectAsWritten<R, S>(c: Cursor<R>, convert: R -> S): (r: Result<seq<S>, StoreError>)
    ensures c.QueryError? ==> r == Err(QueryFailed)
    ensures c.Rows? ==> (r.Ok? <==> AllDecoded(c.rows))
    ensures r.Ok? ==> |r.value| == |c.rows|
    ensures r.Ok? ==> forall i :: 0 <= i < |c.rows| ==> r.value[i] == convert(c.rows[i].row)
  {
    match c
    case QueryError => Err(QueryFailed)
    case Rows(rows, _) =>
      if AllDecoded(rows) then Ok(seq(|rows|, i requires 0 <= i < |rows| => convert(rows[i].row)))
      else Err(ScanFailed)
  }

  /** The row loop followed by the check of the cursor's own error: a list
      is returned only when the query ran, every row scanned and the cursor
      ended normally, and it then holds one stat per row, in row order. */
  function Collect<R, S>(c: Cursor<R>, convert: R -> S): (r: Result<seq<S>, StoreError>)
    ensures r.Ok? <==> c.Rows? && AllDecoded(c.rows) && !c.interrupted
    ensures c.QueryError? ==> r == Err(QueryFailed)
    ensures c.Rows? && !AllDecoded(c.rows) ==> r == Err(ScanFailed)
    ensures r.Ok? ==> |r.value| == |c.rows|
    ensures r.Ok? ==> forall i :: 0 <= i < |c.rows| ==> r.value[i] == convert(c.rows[i].row)
  {
    if c.Rows? && AllDecoded(c.rows) && c.interrupted then Err(CursorFailed)
    else CollectAsWritten(c, convert)
  }

  /** No partial lists: whatever rows a cursor streaming `full` fails on,
      a returned list is the conversion of the whole answer, and a cursor
      that delivers the whole answer readably always gives one. */
  lemma {:induction false} StreamedListIsWholeAnswer<R, S>(c: Cursor<R>, full: seq<R>, convert: R -> S)
    requires c.Rows? && StreamOf(c.rows, c.interrupted, full)
    ensures !c.interrupted && AllDecoded(c.rows) ==> Collect(c, convert).Ok?
    ensures Collect(c, convert).Ok? ==>
      Collect(c, convert).value == seq(|full|, i requires 0 <= i < |full| => convert(full[i]))
  {
    var r := Collect(c, convert);
    if r.Ok? {
      var whole := seq(|full|, i requires 0 <= i < |full| => convert(full[i]));
      assert |r.value| == |whole|;
      forall i | 0 <= i < |whole| ensures r.value[i] == whole[i] {
        assert c.rows[i].Decoded?;
      }
    }
  }

  function ToFeedStat(row: FeedRow): FeedUnreadStat
  {
    FeedUnreadStat(row.feedId, row.count, NewestTime(row.newest))
  }

  function ToCategoryStat(row: CategoryRow): CategoryUnreadStat
  {
    CategoryUnreadStat(row.categoryId, row.title, row.count, NewestTime(row.newest))
  }

  /** The stats of a whole grouped answer, in the answer's order. */
  function FeedStats(rows: seq<FeedRow>): seq<FeedUnreadStat>
  {
    seq(|rows|, i requires 0 <= i < |rows| => ToFeedStat(rows[i]))
  }

  function CategoryStats(rows: seq<CategoryRow>): seq<CategoryUnreadStat>
  {
    seq(|rows|, i requires 0 <= i < |rows| => ToCategoryStat(rows[i]))
  }

  function FeedTotal(stats: seq<FeedUnreadStat>): int
  {
    Sum(seq(|stats|, i requires 0 <= i < |stats| => stats[i].count))
  }

  function CategoryTotal(stats: seq<CategoryUnreadStat>): int
  {
    Sum(seq(|stats|, i requires 0 <= i < |stats| => stats[i].count))
  }

  lemma FeedStatsKeys(full: seq<FeedRow>)
    ensures (set st | st in FeedStats(full) :: st.feedId) == (set k | k in FeedKeys(full))
  {
    var stats := FeedStats(full);
    forall k | k in FeedKeys(full) ensures k in (set st | st in stats :: st.feedId) {
      var i :| 0 <= i < |full| && FeedKeys(full)[i] == k;
      assert stats[i] in stats;
    }
    forall st | st in stats ensures st.feedId in FeedKeys(full) {
      var i :| 0 <= i < |stats| && stats[i] == st;
      assert FeedKeys(full)[i] == st.feedId;
    }
  }

  lemma CategoryStatsKeys(full: seq<CategoryRow>)
    ensures (set st | st in CategoryStats(full) :: st.categoryId) == (set k | k in CategoryKeys(full))
  {
    var stats := CategoryStats(full);
    forall k | k in CategoryKeys(full) ensures k in (set st | st in stats :: st.categoryId) {
      var i :| 0 <= i < |full| && CategoryKeys(full)[i] == k;
      assert stats[i] in stats;
    }
    forall st | st in stats ensures st.categoryId in CategoryKeys(full) {
      var i :| 0 <= i < |stats| && stats[i] == st;
      assert CategoryKeys(full)[i] == st.categoryId;
    }
  }

  /** Sum invariant: the feed stats of a whole answer of the query grouped
      by feed add up to the reading-list count. */
  lemma FeedStatsSumToGlobal(s: Snapshot, userId: int, full: seq<FeedRow>)
    requires FeedQueryAnswer(s, userId, full)
    ensures FeedTotal(FeedStats(full)) == VisibleUnreadGlobalStat(Ok(GlobalQuery(s, userId))).value.count
  {
    var stats := FeedStats(full);
    assert seq(|stats|, i requires 0 <= i < |stats| => stats[i].count) == FeedCounts(full);
    FeedAnswerSumsToGlobal(s, userId, full);
  }

  /** Sum invariant: the category stats of a whole answer of the query
      grouped by category add up to the reading-list count. */
  lemma CategoryStatsSumToGlobal(s: Snapshot, userId: int, full: seq<CategoryRow>)
    requires CategoryQueryAnswer(s, userId, full)
    ensures CategoryTotal(CategoryStats(full)) == VisibleUnreadGlobalStat(Ok(GlobalQuery(s, userId))).value.count
  {
    var stats := CategoryStats(full);
    assert seq(|stats|, i requires 0 <= i < |stats| => stats[i].count) == CategoryCounts(full);
    CategoryAnswerSumsToGlobal(s, userId, full);
  }

  /** The feed stats of a whole answer name exactly the feeds that have a
      visible entry, no feed twice, each counting the feed's visible
      entries (at least one) and giving their newest publication time. */
  lemma FeedStatsOnePerVisibleFeed(s: Snapshot, userId: int, full: seq<FeedRow>)
    requires FeedQueryAnswer(s, userId, full)
    ensures var stats := FeedStats(full);
      && (forall i, j :: 0 <= i < j < |stats| ==> stats[i].feedId != stats[j].feedId)
      && (set st | st in stats :: st.feedId)
         == (set e | e in s.entries && Visible(s.subs, userId, e) :: e.feedId)
      && (forall i :: 0 <= i < |stats| ==> stats[i].count == |Members(s, userId, ByFeed, stats[i].feedId)|)
      && (forall i :: 0 <= i < |stats| ==> stats[i].count >= 1 && stats[i].newest.At?)
      && (forall i :: 0 <= i < |stats| ==> IsNewestInGroup(s, userId, ByFeed, stats[i].feedId, stats[i].newest.instant))
  {
    var stats := FeedStats(full);
    FeedAnswerRows(s, userId, full);
    FeedStatsKeys(full);
    forall i | 0 <= i < |stats|
      ensures stats[i].count == |Members(s, userId, ByFeed, stats[i].feedId)|
      ensures stats[i].count >= 1 && stats[i].newest.At?
      ensures IsNewestInGroup(s, userId, ByFeed, stats[i].feedId, stats[i].newest.instant)
    {
      assert stats[i] == ToFeedStat(full[i]);
    }
  }

  /** The category stats of a whole answer name exactly the categories
      that have a visible entry, no category twice, each with the
      category's own title, the number of its visible entries (at least
      one) and their newest publication time. */
  lemma CategoryStatsOnePerVisibleCategory(s: Snapshot, userId: int, full: seq<CategoryRow>)
    requires CategoryQueryAnswer(s, userId, full)
    ensures var stats := CategoryStats(full);
      && (forall i, j :: 0 <= i < j < |stats| ==> stats[i].categoryId != stats[j].categoryId)
      && (set st | st in stats :: st.categoryId)
         == (set e | e in s.entries && Visible(s.subs, userId, e) :: s.subs.feeds[e.feedId].categoryId)
      && (forall i :: 0 <= i < |stats| ==>
            stats[i].categoryId in s.subs.categories && stats[i].title == s.subs.categories[stats[i].categoryId].title)
      && (forall i :: 0 <= i < |stats| ==> stats[i].count == |Members(s, userId, ByCategory, stats[i].categoryId)|)
      && (forall i :: 0 <= i < |stats| ==> stats[i].count >= 1 && stats[i].newest.At?)
      && (forall i :: 0 <= i < |stats| ==> IsNewestInGroup(s, userId, ByCategory, stats[i].categoryId, stats[i].newest.instant))
  {
    var stats := CategoryStats(full);
    CategoryAnswerRows(s, userId, full);
    CategoryStatsKeys(full);
    forall i | 0 <= i < |stats|
      ensures stats[i].count == |Members(s, userId, ByCategory, stats[i].categoryId)|
      ensures stats[i].count >= 1 && stats[i].newest.At?
      ensures IsNewestInGroup(s, userId, ByCategory, stats[i].categoryId, stats[i].newest.instant)
    {
      assert stats[i] == ToCategoryStat(full[i]);
    }
  }

  /** With no visible entry, the reading-list stat is a zero count with the
      zero time, and a cursor that streams either grouped answer to its end
      gives an empty list, not an error. */
  lemma NoVisibleEntriesEmptyStats(s: Snapshot, userId: int, feedRows: seq<FeedRow>, categoryRows: seq<CategoryRow>,
                                   feedCursor: Cursor<FeedRow>, categoryCursor: Cursor<CategoryRow>)
    requires forall e :: e in s.entries ==> !Visible(s.subs, userId, e)
    requires FeedQueryAnswer(s, userId, feedRows) && CategoryQueryAnswer(s, userId, categoryRows)
    requires feedCursor.Rows? && !feedCursor.interrupted && StreamOf(feedCursor.rows, false, feedRows)
    requires categoryCursor.Rows? && !categoryCursor.interrupted && StreamOf(categoryCursor.rows, false, categoryRows)
    ensures VisibleUnreadGlobalStat(Ok(GlobalQuery(s, userId))) == Ok(GlobalUnreadStat(0, ZeroTime))
    ensures Collect(feedCursor, ToFeedStat) == Ok([])
    ensures Collect(categoryCursor, ToCategoryStat) == Ok([])
  {
    FeedAnswerRows(s, userId, feedRows);
    assert (set k | k in FeedKeys(feedRows)) == {};
    FirstKeyPresent(FeedKeys(feedRows));
    CategoryAnswerRows(s, userId, categoryRows);
    assert (set k | k in CategoryKeys(categoryRows)) == {};
    FirstKeyPresent(CategoryKeys(categoryRows));
  }

  /** A cursor that delivers all rows of `full` but the last and then
      stops with an error. */
  function CutBeforeLast<T>(full: seq<T>): Cursor<T>
    requires full != []
  {
    Rows(seq(|full| - 1, i requires 0 <= i < |full| - 1 => Decoded(full[i])), true)
  }

  /** On such a cursor the row loop as written returns the stats of all rows
      but the last; with the cursor's error checked, the call fails. */
  lemma {:induction false} CutBeforeLastCollected(full: seq<FeedRow>)
    requires full != []
    ensures StreamOf(CutBeforeLast(full).rows, CutBeforeLast(full).interrupted, full)
    ensures CollectAsWritten(CutBeforeLast(full), ToFeedStat).Ok?
    ensures FeedTotal(CollectAsWritten(CutBeforeLast(full), ToFeedStat).value) == Sum(FeedCounts(full)) - full[|full| - 1].count
    ensures Collect(CutBeforeLast(full), ToFeedStat) == Err(CursorFailed)
  {
    var n := |full|;
    var partial := CollectAsWritten(CutBeforeLast(full), ToFeedStat).value;
    var prefix := full[..n - 1];
    assert seq(|partial|, i requires 0 <= i < |partial| => partial[i].count) == FeedCounts(prefix);
    assert FeedCounts(full) == FeedCounts(prefix) + [full[n - 1].count];
    SumAppend(FeedCounts(prefix), [full[n - 1].count]);
    assert Sum([full[n - 1].count]) == full[n - 1].count;
  }

  /** The row loop as written returns a list, and no error, when the cursor
      delivers every row of a non-empty answer but the last and then stops
      with an error; that list falls short of the reading-list count. With
      the cursor's error checked, the call reports it instead. */
  lemma AsWrittenReturnsPartialFeedStats(s: Snapshot, userId: int, full: seq<FeedRow>)
    requires FeedQueryAnswer(s, userId, full) && full != []
    ensures StreamOf(CutBeforeLast(full).rows, CutBeforeLast(full).interrupted, full)
    ensures CollectAsWritten(CutBeforeLast(full), ToFeedStat).Ok?
    ensures FeedTotal(CollectAsWritten(CutBeforeLast(full), ToFeedStat).value)
            < VisibleUnreadGlobalStat(Ok(GlobalQuery(s, userId))).value.count
    ensures Collect(CutBeforeLast(full), ToFeedStat) == Err(CursorFailed)
  {
    CutBeforeLastCollected(full);
    FeedAnswerSumsToGlobal(s, userId, full);
    FeedAnswerRows(s, userId, full);
    assert full[|full| - 1].count >= 1;
  }

  /** Scans the rows of the query grouped by feed into stats; any failure
      returns an error and no list. */
  method VisibleUnreadFeedStats(cursor: Cursor<FeedRow>) returns (r: Result<seq<FeedUnreadStat>, StoreError>)
    ensures r == Collect(cursor, ToFeedStat)
  {
    if cursor.QueryError? {
      return Err(QueryFailed);
    }
    var stats: seq<FeedUnreadStat> := [];
    var i := 0;
    while i < |cursor.rows|
      invariant 0 <= i <= |cursor.rows|
      invariant |stats| == i
      invariant forall k :: 0 <= k < i ==> cursor.rows[k].Decoded? && stats[k] == ToFeedStat(cursor.rows[k].row)
    {
      match cursor.rows[i]
      case Undecodable =>
        return Err(ScanFailed);
      case Decoded(row) =>
        var stat := FeedUnreadStat(row.feedId, row.count, ZeroTime);
        if row.newest.Some? {
          stat := stat.(newest := At(row.newest.value));
        }
        stats := stats + [stat];
      i := i + 1;
    }
    if cursor.interrupted {
      return Err(CursorFailed);
    }
    assert stats == Collect(cursor, ToFeedStat).value;
    return Ok(stats);
  }

  /** Scans the rows of the query grouped by category into stats; any
      failure returns an error and no list. */
  method VisibleUnreadCategoryStats(cursor: Cursor<CategoryRow>) returns (r: Result<seq<CategoryUnreadStat>, StoreError>)
    ensures r == Collect(cursor, ToCategoryStat)
  {
    if cursor.QueryError? {
      return Err(QueryFailed);
    }
    var stats: seq<CategoryUnreadStat> := [];
    var i := 0;
    while i < |cursor.rows|
      invariant 0 <= i <= |cursor.rows|
      invariant |stats| == i
      invariant forall k :: 0 <= k < i ==> cursor.rows[k].Decoded? && stats[k] == ToCategoryStat(cursor.rows[k].row)
    {
      match cursor.rows[i]
      case Undecodable =>
        return Err(ScanFailed);
      case Decoded(row) =>
        var stat := CategoryUnreadStat(row.categoryId, row.title, row.count, ZeroTime);
        if row.newest.Some? {
          stat := stat.(newest := At(row.newest.value));
        }
        stats := stats + [stat];
      i := i + 1;
    }
    if cursor.interrupted {
      return Err(CursorFailed);
    }
    assert stats == Collect(cursor, ToCategoryStat).value;
    return Ok(stats);
  }
}
