/** The rows of the `entries`, `feeds` and `categories` tables that the
    unread statistics read, and the join-and-filter that all three
    statistics queries share. */
module Schema {

  datatype EntryStatus = Unread | Read | Removed

  /** One row of `entries`; `publishedAt` is a timestamp as a whole number. */
  datatype Entry = Entry(id: int, userId: int, feedId: int, status: EntryStatus, publishedAt: int)

  /** One row of `feeds`; its id is its key in `Subscriptions.feeds`. */
  datatype Feed = Feed(categoryId: int, hideGlobally: bool)

  /** One row of `categories`; its id is its key in `Subscriptions.categories`. */
  datatype Category = Category(userId: int, title: string, hideGlobally: bool)

  /** The `feeds` and `categories` tables, each keyed by its primary key. */
  datatype Subscriptions = Subscriptions(feeds: map<int, Feed>, categories: map<int, Category>)

  /** The state of the database that one query reads. */
  datatype Snapshot = Snapshot(entries: seq<Entry>, subs: Subscriptions)

  /** The entry survives both inner joins: its feed row exists, and so does
      that feed's category row. */
  predicate Joins(subs: Subscriptions, e: Entry)
  {
    e.feedId in subs.feeds && subs.feeds[e.feedId].categoryId in subs.categories
  }

  /** The entry's feed is hidden, or the feed's category is. */
  predicate GloballyHidden(subs: Subscriptions, e: Entry)
  {
    && e.feedId in subs.feeds
    && var f := subs.feeds[e.feedId];
       f.hideGlobally || (f.categoryId in subs.categories && subs.categories[f.categoryId].hideGlobally)
  }

  /** The join and WHERE clause shared by the three statistics queries:
      the user's own unread entry, whose feed and category both exist and
      are not hidden globally. */
  predicate Visible(subs: Subscriptions, userId: int, e: Entry)
  {
    && e.userId == userId
    && e.status == Unread
    && Joins(subs, e)
    && !subs.feeds[e.feedId].hideGlobally
    && !subs.categories[subs.feeds[e.feedId].categoryId].hideGlobally
  }

  /** The entries of `es` that pass the filter, each as often as it occurs. */
  function VisibleAmong(subs: Subscriptions, userId: int, es: seq<Entry>): (vs: seq<Entry>)
    ensures forall e :: multiset(vs)[e] == if Visible(subs, userId, e) then multiset(es)[e] else 0
    ensures forall e :: e in vs <==> e in es && Visible(subs, userId, e)
  {
    if es == [] then []
    else
      assert es == [es[0]] + es[1..];
      (if Visible(subs, userId, es[0]) then [es[0]] else []) + VisibleAmong(subs, userId, es[1..])
  }

  /** The rows the three queries aggregate over. */
  function VisibleEntries(s: Snapshot, userId: int): seq<Entry>
  {
    VisibleAmong(s.subs, userId, s.entries)
  }

  /** Filtering commutes with concatenating tables. */
  lemma {:induction false} VisibleAmongConcat(subs: Subscriptions, userId: int, a: seq<Entry>, b: seq<Entry>)
    ensures VisibleAmong(subs, userId, a + b) == VisibleAmong(subs, userId, a) + VisibleAmong(subs, userId, b)
  {
    if a == [] {
      assert a + b == b;
    } else {
      assert (a + b)[0] == a[0];
      assert (a + b)[1..] == a[1..] + b;
      VisibleAmongConcat(subs, userId, a[1..], b);
    }
  }
}
