# Unread statistics of the storage layer, in Dafny

This project models how the feed reader's storage layer computes a user's
unread statistics (`internal/storage/unread_counts.go`). There are three of
them:

- `VisibleUnreadGlobalStat`: the reading list's unread count and the newest
  unread publication time;
- `VisibleUnreadFeedStats`: the same pair for each feed;
- `VisibleUnreadCategoryStats`: the same pair for each category, with the
  category's title.

All three run the same join of `entries`, `feeds` and `categories`, with the
same WHERE clause. An entry counts only if all of these hold:

- it belongs to the user;
- it is unread;
- its feed exists and is not hidden globally;
- its category exists and is not hidden globally.

The Go code then turns a NULL `MAX(published_at)` into the zero time. For the
grouped queries it collects the rows into a list. A failed query or a row that
cannot be scanned returns an error with no list. An error that ends the cursor
is not checked (see Findings).

Layout:

- `wrappers.dfy` (`Wrappers`): `Option` for SQL NULL, and `Result`.
- `schema.dfy` (`Schema`): the table rows and the shared filter.
  - `Entry`, `Feed` and `Category` are the rows. The `feeds` and `categories`
    tables are maps keyed by their primary key, so an inner join on that key
    finds at most one row.
  - `Visible` is the join-and-WHERE predicate, written once.
  - `VisibleAmong` is the filtered table.
- `aggregation.dfy` (`Aggregation`): what the SQL computes.
  - `MaxPublished` is `MAX`, NULL over no rows.
  - `GlobalQuery` is the ungrouped row.
  - `Groups` is the grouped query, as a map from group key to
    `Aggregate(count, newest)`.
  - `FeedQueryAnswer` and `CategoryQueryAnswer` say that a row list is a
    result of a grouped query. Neither query has an `ORDER BY`, so any order
    qualifies.
- `unread_counts.dfy` (`UnreadCounts`): the Go side.
  - The three stat types, and `Time`, whose `ZeroTime` is Go's zero
    `time.Time`.
  - The global statistic as a function.
  - The two `for rows.Next()` loops as methods with loop invariants. Each
    method is proved equal to `Collect`.
  - Lemmas that tie each statistic back to the entries.

The database is a parameter:

- `Snapshot` is the tables one query reads.
- A `Cursor` is what `db.Query` returns. It is either a query error, or rows
  that each scan or fail to scan, ending normally or with an error.
- `StreamOf` says that a cursor faithfully delivers a query result, possibly
  cut short.

The global row is passed in as the outcome of `QueryRow(...).Scan`.

## Model

| member | source | states |
|---|---|---|
| `Schema.VisibleAmong` | internal/storage/unread_counts.go:44-50 | the filtered rows keep each entry exactly as often as the table holds it when it passes the join and WHERE clause, and drop it otherwise; an entry is kept iff it is in the table and visible |
| `Aggregation.MaxPublished` | internal/storage/unread_counts.go:43 | MAX is NULL exactly over no rows, otherwise it is the publication time of some row and no row is newer |
| `Aggregation.GlobalQuery` | internal/storage/unread_counts.go:40-51 | COUNT(*) is the number of visible entries, so it is 0 exactly when no entry is visible, and exactly then MAX is NULL; a non-NULL MAX is the newest visible publication time |
| `Aggregation.Members` | internal/storage/unread_counts.go:66-79 | the entries of one group are exactly the visible entries with that key, each as often as the entries table holds it |
| `Aggregation.GroupKeys` | internal/storage/unread_counts.go:66-79 | GROUP BY yields a row for a key exactly when some visible entry has that key: no row for a feed or category with nothing visible |
| `Aggregation.GroupAggregateOf` | internal/storage/unread_counts.go:108-122 | every grouped row counts the visible entries of its group, at least one, and its MAX is non-NULL and the newest publication time in the group |
| `Aggregation.GroupCountsSumToGlobal` | internal/storage/unread_counts.go:66-79 | for the keys of a grouped result listed once each, the group counts add up to the ungrouped COUNT(*) |
| `Aggregation.FeedAnswerSumsToGlobal` | internal/storage/unread_counts.go:66-79 | the counts of any result of the per-feed query add up to the global count, because the WHERE clauses are the same |
| `Aggregation.CategoryAnswerSumsToGlobal` | internal/storage/unread_counts.go:108-122 | the counts of any result of the per-category query add up to the global count |
| `Aggregation.FeedAnswerRows` | internal/storage/unread_counts.go:66-79 | a per-feed result has rows for exactly the feeds with a visible entry; each row's count is the number of visible entries of its feed, at least 1, and its MAX is the feed's newest visible publication time |
| `Aggregation.CategoryAnswerRows` | internal/storage/unread_counts.go:108-122 | a per-category result has rows for exactly the categories with a visible entry; each row carries the category's own title, its count is the number of visible entries of the category, at least 1, and its MAX is their newest publication time |
| `Aggregation.InsertRejectedEntry` | internal/storage/unread_counts.go:47-50 | inserting an entry that fails the filter anywhere in the table leaves the filtered rows unchanged |
| `Aggregation.ExcludedEntryContributesNothing` | internal/storage/unread_counts.go:44-50 | an entry whose feed is hidden, whose category is hidden, or whose feed or category row is missing changes none of the three query results |
| `UnreadCounts.VisibleUnreadGlobalStat` | internal/storage/unread_counts.go:53-61 | a failed query or scan returns its error; otherwise the count is kept, a NULL MAX gives the zero time and a non-NULL MAX gives that instant |
| `UnreadCounts.GlobalStatOfSnapshot` | internal/storage/unread_counts.go:40-59 | on the query's row, the stat counts exactly the visible entries; its newest time is the zero time iff none is visible, and otherwise the newest visible publication time |
| `UnreadCounts.CollectAsWritten` | internal/storage/unread_counts.go:87-103 | the loop as written: a query error or an unscannable row gives an error and no list, and otherwise every delivered row becomes a stat in order, even when the cursor stopped with an error |
| `UnreadCounts.Collect` | internal/storage/unread_counts.go:81-103 | a list comes back iff the query ran, every row scanned and the cursor ended normally; the list then holds one converted stat per row, in order |
| `UnreadCounts.StreamedListIsWholeAnswer` | internal/storage/unread_counts.go:81-103 | no partial lists: a list returned from a cursor that streams a result is the whole result converted, and a cursor that delivers the whole result readably always yields one |
| `UnreadCounts.VisibleUnreadFeedStats` | internal/storage/unread_counts.go:81-103 | the row loop over the per-feed cursor returns exactly what `Collect` specifies |
| `UnreadCounts.VisibleUnreadCategoryStats` | internal/storage/unread_counts.go:124-146 | the row loop over the per-category cursor returns exactly what `Collect` specifies |
| `UnreadCounts.FeedStatsSumToGlobal` | internal/storage/unread_counts.go:66-103 | the feed stats of a whole per-feed result add up to the global stat's count |
| `UnreadCounts.CategoryStatsSumToGlobal` | internal/storage/unread_counts.go:108-146 | the category stats of a whole per-category result add up to the global stat's count |
| `UnreadCounts.FeedStatsOnePerVisibleFeed` | internal/storage/unread_counts.go:66-101 | the feed stats name exactly the feeds with a visible entry, none twice; each stat's count is the number of visible entries of its feed, at least 1, and its newest time is a real instant, the newest visible publication time of that feed |
| `UnreadCounts.CategoryStatsOnePerVisibleCategory` | internal/storage/unread_counts.go:108-144 | the category stats name exactly the categories with a visible entry, none twice; each has the category's own title, a count equal to the number of visible entries of the category, at least 1, and the newest visible publication time of that category |
| `UnreadCounts.NoVisibleEntriesEmptyStats` | internal/storage/unread_counts.go:87-103 | with no visible entry, the global stat is count 0 with the zero time, and both grouped calls return an empty list, not an error |
| `UnreadCounts.CutBeforeLastCollected` | internal/storage/unread_counts.go:88-103 | on a cursor that delivers all rows but the last and then fails, the loop as written returns the stats of those rows, and `Collect` returns the cursor error |
| `UnreadCounts.AsWrittenReturnsPartialFeedStats` | internal/storage/unread_counts.go:88-103 | for every non-empty per-feed result, the loop as written returns a list without error whose total falls short of the global count when the last row is lost to a cursor error |

## Left out

- `internal/ui/feed_clear_entries.go` is not part of this model. It is an HTTP handler: route and session access, calls into store operations that are not shown, and HTML responses.
- The `database/sql` plumbing is a parameter. This covers `QueryRow`, `Query`, `rows.Next`, `rows.Scan`, `rows.Close` and its ignored error, and the `defer`. Errors are the abstract `StoreError` kinds, without the wrapped message text.
- VisibleUnreadGlobalStat: on an error, the Go function also returns the partly filled `GlobalUnreadStat`, which callers ignore. The model returns only the error.
- Timestamps are integers. `ZeroTime` is a value of its own. In Go the zero `time.Time` is a real instant (January 1 of year 1, UTC), and a stored `published_at` could in principle equal it. The model does not capture that collision.
- Counts are unbounded integers. The 64-bit `int` and SQL `bigint` cannot overflow for any real table.
- `published_at` is modelled as NOT NULL (`Entry.publishedAt` is an `int`). A group therefore always has a non-NULL MAX, and the lemmas that say every grouped row and stat has a real newest time rely on this. The `newest.Valid` checks of the grouped loops matter here only when a row could carry NULL, and `Collect` still handles that case through `NewestTime`. With a nullable column, a group of entries that all lack a date would come back with the zero time.
- `hide_globally` columns are non-NULL booleans here. A NULL would fail `IS FALSE`, and such rows are not modelled.
- `Category.userId`, and the chain of ownership from entry to feed to category, are carried but not used. The queries filter only on `entries.user_id`, and so does the model.
- The result order of the grouped queries is unspecified. Results are maps, or row lists in any order.
- Snapshot isolation and concurrent callers are not modelled. Each call reads one `Snapshot`. Idempotence holds because every query is a function of the snapshot.
- VisibleUnreadFeedStats and VisibleUnreadCategoryStats check the cursor's own error after the loop. The source does not. See Findings.

## Findings

| source | as written | input that shows it | evidently intended | confidence | as-written member | corrected member |
|---|---|---|---|---|---|---|
| internal/storage/unread_counts.go:88-103 | the `for rows.Next()` loop returns the collected stats with a nil error. It never checks `rows.Err()`, so a cursor that stops on an error looks like a normal end. The loop at lines 131-146 does the same | a non-empty per-feed result whose cursor delivers every row but the last, then stops with a connection error: the call returns a shorter list with no error, and its counts no longer sum to the global count | such a call returns an error and no stats, as it does for a row that fails to scan | medium; not executed | `UnreadCounts.CollectAsWritten`, exhibited by `UnreadCounts.AsWrittenReturnsPartialFeedStats` | `UnreadCounts.Collect`, used by both scan methods and proved by `UnreadCounts.StreamedListIsWholeAnswer` |
