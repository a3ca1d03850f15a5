/** What the three statistics queries compute: COUNT(*) and
    MAX(published_at) over the visible entries, overall, grouped by feed
    and grouped by category. */
module Aggregation {
  import opened Wrappers
  import opened Schema

  /** MAX(published_at): NULL over no rows, else the largest timestamp. */
  function MaxPublished(es: seq<Entry>): (m: Option<int>)
    ensures m.None? <==> es == []
    ensures m.Some? ==> exists e :: e in es && e.publishedAt == m.value
    ensures m.Some? ==> forall e :: e in es ==> e.publishedAt <= m.value
  {
    if es == [] then None
    else
      match MaxPublished(es[1..])
      case None => Some(es[0].publishedAt)
      case Some(t) => Some(if es[0].publishedAt > t then es[0].publishedAt else t)
  }

  /** `t` is the newest publication time among the visible entries. */
  predicate IsNewestVisible(s: Snapshot, userId: int, t: int)
  {
    && (exists e :: e in s.entries && Visible(s.subs, userId, e) && e.publishedAt == t)
    && forall e :: e in s.entries && Visible(s.subs, userId, e) ==> e.publishedAt <= t
  }

  /** The one row of the ungrouped query: COUNT(*) and MAX(published_at). */
  datatype GlobalRow = GlobalRow(count: int, newest: Option<int>)

  /** The ungrouped query. COUNT(*) is never NULL, so its COALESCE has no effect. */
  function GlobalQuery(s: Snapshot, userId: int): (r: GlobalRow)
    ensures r.count == |VisibleEntries(s, userId)|
    ensures r.count == 0 <==> forall e :: e in s.entries ==> !Visible(s.subs, userId, e)
    ensures r.count == 0 <==> r.newest.None?
    ensures r.newest.Some? ==> IsNewestVisible(s, userId, r.newest.value)
  {
    var vs := VisibleEntries(s, userId);
    assert forall e :: e in s.entries && Visible(s.subs, userId, e) ==> e in vs;
    GlobalRow(|vs|, MaxPublished(vs))
  }

  /** The GROUP BY key: `e.feed_id`, or `c.id` (with `c.title` dependent on it). */
  datatype Grouping = ByFeed | ByCategory

  function GroupKey(subs: Subscriptions, g: Grouping, e: Entry): int
    requires Joins(subs, e)
  {
    match g
    case ByFeed => e.feedId
    case ByCategory => subs.feeds[e.feedId].categoryId
  }

  predicate AllJoin(subs: Subscriptions, es: seq<Entry>)
  {
    forall e :: e in es ==> Joins(subs, e)
  }

  /** The entries of `es` whose group key is in `keys`. */
  function KeyedAmong(subs: Subscriptions, g: Grouping, es: seq<Entry>, keys: set<int>): (r: seq<Entry>)
    requires AllJoin(subs, es)
    ensures forall e :: e in r <==> e in es && GroupKey(subs, g, e) in keys
    ensures forall e :: e in es ==> multiset(r)[e] == if GroupKey(subs, g, e) in keys then multiset(es)[e] else 0
  {
    if es == [] then []
    else
      assert es == [es[0]] + es[1..];
      (if GroupKey(subs, g, es[0]) in keys then [es[0]] else []) + KeyedAmong(subs, g, es[1..], keys)
  }

  /** `e` is a visible entry in the group with key `k`. */
  predicate InGroup(s: Snapshot, userId: int, g: Grouping, k: int, e: Entry)
  {
    e in s.entries && Visible(s.subs, userId, e) && GroupKey(s.subs, g, e) == k
  }

  /** `t` is the newest publication time in the group with key `k`. */
  ghost predicate IsNewestInGroup(s: Snapshot, userId: int, g: Grouping, k: int, t: int)
  {
    && (exists e :: InGroup(s, userId, g, k, e) && e.publishedAt == t)
    && forall e :: InGroup(s, userId, g, k, e) ==> e.publishedAt <= t
  }

  /** COUNT(*) and MAX(published_at) of one group. */
  datatype Aggregate = Aggregate(count: int, newest: Option<int>)

  /** COUNT(*) and MAX(published_at) over the entries of `vs` with key `k`. */
  function AggregateAmong(subs: Subscriptions, g: Grouping, vs: seq<Entry>, k: int): Aggregate
    requires AllJoin(subs, vs)
  {
    var ms := KeyedAmong(subs, g, vs, {k});
    Aggregate(|ms|, MaxPublished(ms))
  }

  /** The visible entries that make up the group with key `k`. */
  function Members(s: Snapshot, userId: int, g: Grouping, k: int): (ms: seq<Entry>)
    ensures forall e :: e in ms <==> InGroup(s, userId, g, k, e)
    ensures forall e :: multiset(ms)[e] == if InGroup(s, userId, g, k, e) then multiset(s.entries)[e] else 0
  {
    KeyedAmong(s.subs, g, VisibleEntries(s, userId), {k})
  }

  /** The grouped query as a map from group key to aggregate. */
  function Groups(s: Snapshot, userId: int, g: Grouping): map<int, Aggregate>
  {
    var vs := VisibleEntries(s, userId);
    map k | k in (set e | e in vs :: GroupKey(s.subs, g, e)) :: AggregateAmong(s.subs, g, vs, k)
  }

  /** GROUP BY makes a row for a key exactly when some visible entry has
      that key: no row for an empty group. */
  lemma GroupKeys(s: Snapshot, userId: int, g: Grouping)
    ensures forall k :: k in Groups(s, userId, g) <==> exists e :: InGroup(s, userId, g, k, e)
  {
    var vs := VisibleEntries(s, userId);
    forall k ensures k in Groups(s, userId, g) ==> exists e :: InGroup(s, userId, g, k, e) {
      if k in Groups(s, userId, g) {
        var e :| e in vs && GroupKey(s.subs, g, e) == k;
        assert InGroup(s, userId, g, k, e);
      }
    }
    forall k, e | InGroup(s, userId, g, k, e) ensures k in Groups(s, userId, g) {
      assert e in vs;
    }
  }

  /** Every row of the grouped query counts the visible entries of its
      group, at least one, and carries the newest publication time among
      them, never NULL. */
  lemma GroupAggregateOf(s: Snapshot, userId: int, g: Grouping, k: int)
    requires k in Groups(s, userId, g)
    ensures Groups(s, userId, g)[k].count == |Members(s, userId, g, k)|
    ensures Groups(s, userId, g)[k].count >= 1
    ensures Groups(s, userId, g)[k].newest.Some?
    ensures IsNewestInGroup(s, userId, g, k, Groups(s, userId, g)[k].newest.value)
  {
    var vs := VisibleEntries(s, userId);
    var e :| e in vs && GroupKey(s.subs, g, e) == k;
    assert e in Members(s, userId, g, k);
  }

  /** One row of the query grouped by feed. */
  datatype FeedRow = FeedRow(feedId: int, count: int, newest: Option<int>)

  /** One row of the query grouped by category. */
  datatype CategoryRow = CategoryRow(categoryId: int, title: string, count: int, newest: Option<int>)

  /** `rows` list the groups of `m` in some order: one row per group, no
      key twice, each with its group's aggregate. */
  predicate ListsFeedGroups(rows: seq<FeedRow>, m: map<int, Aggregate>)
  {
    && (forall i, j :: 0 <= i < j < |rows| ==> rows[i].feedId != rows[j].feedId)
    && (forall i :: 0 <= i < |rows| ==> rows[i].feedId in m)
    && (forall i :: 0 <= i < |rows| ==> Aggregate(rows[i].count, rows[i].newest) == m[rows[i].feedId])
    && forall k :: k in m ==> exists i :: 0 <= i < |rows| && rows[i].feedId == k
  }

  /** The same for category rows, which also carry their category's title. */
  predicate ListsCategoryGroups(rows: seq<CategoryRow>, m: map<int, Aggregate>, categories: map<int, Category>)
  {
    && (forall i, j :: 0 <= i < j < |rows| ==> rows[i].categoryId != rows[j].categoryId)
    && (forall i :: 0 <= i < |rows| ==> rows[i].categoryId in m && rows[i].categoryId in categories)
    && (forall i :: 0 <= i < |rows| ==> Aggregate(rows[i].count, rows[i].newest) == m[rows[i].categoryId])
    && (forall i :: 0 <= i < |rows| ==> rows[i].title == categories[rows[i].categoryId].title)
    && forall k :: k in m ==> exists i :: 0 <= i < |rows| && rows[i].categoryId == k
  }

  /** `rows` are a result of the query grouped by feed; there is no ORDER BY,
      so any order is one. */
  predicate FeedQueryAnswer(s: Snapshot, userId: int, rows: seq<FeedRow>)
  {
    ListsFeedGroups(rows, Groups(s, userId, ByFeed))
  }

  /** `rows` are a result of the query grouped by category, in any order. */
  predicate CategoryQueryAnswer(s: Snapshot, userId: int, rows: seq<CategoryRow>)
  {
    ListsCategoryGroups(rows, Groups(s, userId, ByCategory), s.subs.categories)
  }

  function Sum(xs: seq<int>): int
  {
    if xs == [] then 0 else xs[0] + Sum(xs[1..])
  }

  lemma {:induction false} SumAppend(a: seq<int>, b: seq<int>)
    ensures Sum(a + b) == Sum(a) + Sum(b)
  {
    if a == [] {
      assert a + b == b;
    } else {
      assert (a + b)[1..] == a[1..] + b;
      SumAppend(a[1..], b);
    }
  }

  predicate Distinct(keys: seq<int>)
  {
    forall i, j :: 0 <= i < j < |keys| ==> keys[i] != keys[j]
  }

  function FeedKeys(rows: seq<FeedRow>): seq<int>
  {
    seq(|rows|, i requires 0 <= i < |rows| => rows[i].feedId)
  }

  function FeedCounts(rows: seq<FeedRow>): seq<int>
  {
    seq(|rows|, i requires 0 <= i < |rows| => rows[i].count)
  }

  function CategoryKeys(rows: seq<CategoryRow>): seq<int>
  {
    seq(|rows|, i requires 0 <= i < |rows| => rows[i].categoryId)
  }

  function CategoryCounts(rows: seq<CategoryRow>): seq<int>
  {
    seq(|rows|, i requires 0 <= i < |rows| => rows[i].count)
  }

  /** A non-empty sequence has a non-empty set of elements. Stated apart so
      that callers with an empty key set never index into an empty sequence. */
  lemma FirstKeyPresent(keys: seq<int>)
    ensures keys != [] ==> keys[0] in (set k | k in keys)
  {
  }

  /** A listing of the groups names each key of the map exactly once and
      copies its count. */
  lemma FeedListingKeys(rows: seq<FeedRow>, m: map<int, Aggregate>)
    requires ListsFeedGroups(rows, m)
    ensures Distinct(FeedKeys(rows))
    ensures (set k | k in FeedKeys(rows)) == m.Keys
    ensures forall i :: 0 <= i < |rows| ==> FeedCounts(rows)[i] == m[FeedKeys(rows)[i]].count
  {
    var keys := FeedKeys(rows);
    forall k | k in m ensures k in keys {
      var i :| 0 <= i < |rows| && rows[i].feedId == k;
      assert keys[i] == k;
    }
    forall i | 0 <= i < |rows| ensures FeedCounts(rows)[i] == m[keys[i]].count {
      assert Aggregate(rows[i].count, rows[i].newest) == m[rows[i].feedId];
    }
  }

  lemma CategoryListingKeys(rows: seq<CategoryRow>, m: map<int, Aggregate>, categories: map<int, Category>)
    requires ListsCategoryGroups(rows, m, categories)
    ensures Distinct(CategoryKeys(rows))
    ensures (set k | k in CategoryKeys(rows)) == m.Keys
    ensures forall i :: 0 <= i < |rows| ==> CategoryCounts(rows)[i] == m[CategoryKeys(rows)[i]].count
  {
    var keys := CategoryKeys(rows);
    forall k | k in m ensures k in keys {
      var i :| 0 <= i < |rows| && rows[i].categoryId == k;
      assert keys[i] == k;
    }
    forall i | 0 <= i < |rows| ensures CategoryCounts(rows)[i] == m[keys[i]].count {
      assert Aggregate(rows[i].count, rows[i].newest) == m[rows[i].categoryId];
    }
  }

  /** The counts of any result of the query grouped by feed add up to the
      ungrouped COUNT(*): the WHERE clauses are the same. */
  lemma FeedAnswerSumsToGlobal(s: Snapshot, userId: int, rows: seq<FeedRow>)
    requires FeedQueryAnswer(s, userId, rows)
    ensures Sum(FeedCounts(rows)) == GlobalQuery(s, userId).count
  {
    FeedListingKeys(rows, Groups(s, userId, ByFeed));
    GroupCountsSumToGlobal(s, userId, ByFeed, FeedKeys(rows), FeedCounts(rows));
  }

  /** The counts of any result of the query grouped by category add up to
      the ungrouped COUNT(*). */
  lemma CategoryAnswerSumsToGlobal(s: Snapshot, userId: int, rows: seq<CategoryRow>)
    requires CategoryQueryAnswer(s, userId, rows)
    ensures Sum(CategoryCounts(rows)) == GlobalQuery(s, userId).count
  {
    CategoryListingKeys(rows, Groups(s, userId, ByCategory), s.subs.categories);
    GroupCountsSumToGlobal(s, userId, ByCategory, CategoryKeys(rows), CategoryCounts(rows));
  }

  /** Any result of the query grouped by feed has a row for exactly the
      feeds with a visible entry, each counting the feed's visible entries
      (at least one) and giving their newest publication time. */
  lemma FeedAnswerRows(s: Snapshot, userId: int, rows: seq<FeedRow>)
    requires FeedQueryAnswer(s, userId, rows)
    ensures (set k | k in FeedKeys(rows)) == (set e | e in s.entries && Visible(s.subs, userId, e) :: e.feedId)
    ensures forall i :: 0 <= i < |rows| ==> rows[i].count == |Members(s, userId, ByFeed, rows[i].feedId)|
    ensures forall i :: 0 <= i < |rows| ==> rows[i].count >= 1 && rows[i].newest.Some?
    ensures forall i :: 0 <= i < |rows| ==> IsNewestInGroup(s, userId, ByFeed, rows[i].feedId, rows[i].newest.value)
  {
    var m := Groups(s, userId, ByFeed);
    FeedListingKeys(rows, m);
    GroupKeys(s, userId, ByFeed);
    var visible := set e | e in s.entries && Visible(s.subs, userId, e) :: e.feedId;
    forall k | k in visible ensures k in m {
      var e :| e in s.entries && Visible(s.subs, userId, e) && e.feedId == k;
      assert InGroup(s, userId, ByFeed, k, e);
    }
    forall k | k in m ensures k in visible {
      var e :| InGroup(s, userId, ByFeed, k, e);
    }
    forall i | 0 <= i < |rows|
      ensures rows[i].count == |Members(s, userId, ByFeed, rows[i].feedId)|
      ensures rows[i].count >= 1 && rows[i].newest.Some?
      ensures IsNewestInGroup(s, userId, ByFeed, rows[i].feedId, rows[i].newest.value)
    {
      GroupAggregateOf(s, userId, ByFeed, rows[i].feedId);
    }
  }

  /** Any result of the query grouped by category has a row for exactly the
      categories with a visible entry, each with the category's title,
      counting the category's visible entries (at least one) and giving
      their newest publication time. */
  lemma CategoryAnswerRows(s: Snapshot, userId: int, rows: seq<CategoryRow>)
    requires CategoryQueryAnswer(s, userId, rows)
    ensures (set k | k in CategoryKeys(rows))
            == (set e | e in s.entries && Visible(s.subs, userId, e) :: s.subs.feeds[e.feedId].categoryId)
    ensures forall i :: 0 <= i < |rows| ==>
              rows[i].categoryId in s.subs.categories && rows[i].title == s.subs.categories[rows[i].categoryId].title
    ensures forall i :: 0 <= i < |rows| ==> rows[i].count == |Members(s, userId, ByCategory, rows[i].categoryId)|
    ensures forall i :: 0 <= i < |rows| ==> rows[i].count >= 1 && rows[i].newest.Some?
    ensures forall i :: 0 <= i < |rows| ==> IsNewestInGroup(s, userId, ByCategory, rows[i].categoryId, rows[i].newest.value)
  {
    var m := Groups(s, userId, ByCategory);
    CategoryListingKeys(rows, m, s.subs.categories);
    GroupKeys(s, userId, ByCategory);
    var visible := set e | e in s.entries && Visible(s.subs, userId, e) :: s.subs.feeds[e.feedId].categoryId;
    forall k | k in visible ensures k in m {
      var e :| e in s.entries && Visible(s.subs, userId, e) && s.subs.feeds[e.feedId].categoryId == k;
      assert InGroup(s, userId, ByCategory, k, e);
    }
    forall k | k in m ensures k in visible {
      var e :| InGroup(s, userId, ByCategory, k, e);
    }
    forall i | 0 <= i < |rows|
      ensures rows[i].count == |Members(s, userId, ByCategory, rows[i].categoryId)|
      ensures rows[i].count >= 1 && rows[i].newest.Some?
      ensures IsNewestInGroup(s, userId, ByCategory, rows[i].categoryId, rows[i].newest.value)
    {
      GroupAggregateOf(s, userId, ByCategory, rows[i].categoryId);
    }
  }

  /** Selecting by a key set that is `{k}` plus a disjoint rest splits the count. */
  lemma {:induction false} KeyedAmongSplit(subs: Subscriptions, g: Grouping, es: seq<Entry>, k: int, rest: set<int>)
    requires AllJoin(subs, es)
    requires k !in rest
    ensures |KeyedAmong(subs, g, es, {k} + rest)| == |KeyedAmong(subs, g, es, {k})| + |KeyedAmong(subs, g, es, rest)|
  {
    if es != [] {
      KeyedAmongSplit(subs, g, es[1..], k, rest);
    }
  }

  /** Selecting by no key keeps nothing. */
  lemma {:induction false} KeyedAmongNoKeys(subs: Subscriptions, g: Grouping, es: seq<Entry>)
    requires AllJoin(subs, es)
    ensures KeyedAmong(subs, g, es, {}) == []
  {
    if es != [] {
      KeyedAmongNoKeys(subs, g, es[1..]);
    }
  }

  /** Selecting by a key set that covers every key keeps every entry. */
  lemma {:induction false} KeyedAmongAll(subs: Subscriptions, g: Grouping, es: seq<Entry>, keys: set<int>)
    requires AllJoin(subs, es)
    requires forall e :: e in es ==> GroupKey(subs, g, e) in keys
    ensures KeyedAmong(subs, g, es, keys) == es
  {
    if es != [] {
      KeyedAmongAll(subs, g, es[1..], keys);
      assert es == [es[0]] + es[1..];
    }
  }

  /** The sizes of the groups named by distinct keys add up to the number
      of visible entries whose key is one of them. */
  lemma {:induction false} GroupSizesAdd(s: Snapshot, userId: int, g: Grouping, keys: seq<int>, counts: seq<int>)
    requires |counts| == |keys| && Distinct(keys)
    requires forall i :: 0 <= i < |keys| ==> counts[i] == |Members(s, userId, g, keys[i])|
    ensures Sum(counts) == |KeyedAmong(s.subs, g, VisibleEntries(s, userId), set k | k in keys)|
  {
    var vs := VisibleEntries(s, userId);
    if keys == [] {
      assert (set k | k in keys) == {};
      KeyedAmongNoKeys(s.subs, g, vs);

    } else {
      assert forall i :: 0 <= i < |keys| - 1 ==> keys[1..][i] == keys[i + 1];
      GroupSizesAdd(s, userId, g, keys[1..], counts[1..]);
      assert (set k | k in keys) == {keys[0]} + (set k | k in keys[1..]) by {
        assert keys == [keys[0]] + keys[1..];
      }
      assert keys[0] !in (set k | k in keys[1..]) by {
        forall i | 0 <= i < |keys[1..]| ensures keys[1..][i] != keys[0] {
          assert keys[1..][i] == keys[i + 1];
        }
      }
      KeyedAmongSplit(s.subs, g, vs, keys[0], set k | k in keys[1..]);
    }
  }

  /** Partition: for the keys of a complete grouped answer, listed once
      each, the group counts add up to the ungrouped COUNT(*). */
  lemma {:induction false} GroupCountsSumToGlobal(s: Snapshot, userId: int, g: Grouping, keys: seq<int>, counts: seq<int>)
    requires |counts| == |keys| && Distinct(keys)
    requires (set k | k in keys) == Groups(s, userId, g).Keys
    requires forall i :: 0 <= i < |keys| ==> counts[i] == Groups(s, userId, g)[keys[i]].count
    ensures Sum(counts) == GlobalQuery(s, userId).count
  {
    var vs := VisibleEntries(s, userId);
    var m := Groups(s, userId, g);
    forall i | 0 <= i < |keys| ensures counts[i] == |Members(s, userId, g, keys[i])| {
      assert keys[i] in m;
      GroupAggregateOf(s, userId, g, keys[i]);
    }
    GroupSizesAdd(s, userId, g, keys, counts);
    GroupKeys(s, userId, g);
    forall e | e in vs ensures GroupKey(s.subs, g, e) in (set k | k in keys) {
      assert InGroup(s, userId, g, GroupKey(s.subs, g, e), e);
    }
    KeyedAmongAll(s.subs, g, vs, set k | k in keys);
  }

  /** Inserting an entry the filter rejects leaves the filtered rows unchanged. */
  lemma InsertRejectedEntry(subs: Subscriptions, userId: int, before: seq<Entry>, after: seq<Entry>, e: Entry)
    requires !Visible(subs, userId, e)
    ensures VisibleAmong(subs, userId, before + [e] + after) == VisibleAmong(subs, userId, before + after)
  {
    var a := VisibleAmong(subs, userId, before);
    var b := VisibleAmong(subs, userId, after);
    assert VisibleAmong(subs, userId, before + [e]) == a by {
      VisibleAmongConcat(subs, userId, before, [e]);
      assert [e][1..] == [];
    }
    assert VisibleAmong(subs, userId, before + [e] + after) == a + b by {
      VisibleAmongConcat(subs, userId, before + [e], after);
    }
    VisibleAmongConcat(subs, userId, before, after);
  }

  /** An entry whose feed or category is hidden, or that a join drops, can
      be inserted anywhere without changing any of the three results. */
  lemma ExcludedEntryContributesNothing(s: Snapshot, userId: int, before: seq<Entry>, after: seq<Entry>, e: Entry)
    requires s.entries == before + after
    requires GloballyHidden(s.subs, e) || !Joins(s.subs, e)
    ensures var s' := s.(entries := before + [e] + after);
      && GlobalQuery(s', userId) == GlobalQuery(s, userId)
      && Groups(s', userId, ByFeed) == Groups(s, userId, ByFeed)
      && Groups(s', userId, ByCategory) == Groups(s, userId, ByCategory)
  {
    var s' := s.(entries := before + [e] + after);
    InsertRejectedEntry(s.subs, userId, before, after, e);
    assert VisibleEntries(s', userId) == VisibleEntries(s, userId);
  }
}
