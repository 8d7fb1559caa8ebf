/** The Go-side parts of the home page queries (internal/store/home_queries.go):
    the grouping of recently added chapters by series, and the final ordering
    of "next up" suggestions. The SQL that produces the rows, and the folder
    walk that finds each suggestion, are inputs. Times are integers. */
module HomeQueries {
  import opened Results
  import opened Sorting

  /** One row of the recently-added query: a chapter with its folder. */
  datatype Row = Row(seriesId: int, seriesTitle: string, coverArt: string,
                     chapterId: int, chapterTitle: string, createdAt: int)

  /** `models.HomeSectionItem` as far as these queries fill it in. */
  datatype Item = Item(seriesId: int, seriesTitle: string, coverArt: string,
                       chapterId: Option<int>, chapterTitle: string, updatedAt: int,
                       newChapterCount: int)

  function RowSeries(rows: seq<Row>): (r: seq<int>)
    ensures |r| == |rows| && forall i :: 0 <= i < |rows| ==> r[i] == rows[i].seriesId
  {
    Apply(rows, (row: Row) => row.seriesId)
  }

  function ItemSeries(items: seq<Item>): (r: seq<int>)
    ensures |r| == |items| && forall i :: 0 <= i < |items| ==> r[i] == items[i].seriesId
  {
    Apply(items, (it: Item) => it.seriesId)
  }

  // ---------------------------------------------------------------------------
  // The grouping loop as written
  // ---------------------------------------------------------------------------

  /** Index of the item for `id`, or -1 (the `folderMap` lookup). */
  function ItemIndex(items: seq<Item>, id: int): (k: int)
    ensures -1 <= k < |items|
    ensures k == -1 <==> id !in ItemSeries(items)
    ensures k >= 0 ==> items[k].seriesId == id
  {
    if |items| == 0 then -1
    else if items[|items| - 1].seriesId == id then |items| - 1
    else
      var k := ItemIndex(items[..|items| - 1], id);
      assert ItemSeries(items[..|items| - 1]) == ItemSeries(items)[..|items| - 1];
      k
  }

  /** One iteration: a new series gets an item keeping this chapter; a series
      seen before counts one more chapter and loses its chapter details. */
  function AddRow(items: seq<Item>, r: Row): seq<Item> {
    var k := ItemIndex(items, r.seriesId);
    if k == -1 then
      items + [Item(r.seriesId, r.seriesTitle, r.coverArt, Some(r.chapterId), r.chapterTitle, r.createdAt, 1)]
    else
      items[k := items[k].(newChapterCount := items[k].newChapterCount + 1, chapterId := None, chapterTitle := "")]
  }

  /** The loop over the fetched rows, newest first. */
  function Group(rows: seq<Row>): seq<Item>
    decreases |rows|
  {
    if |rows| == 0 then [] else AddRow(Group(rows[..|rows| - 1]), rows[|rows| - 1])
  }

  // ---------------------------------------------------------------------------
  // Reference definition: one summary per distinct series
  // ---------------------------------------------------------------------------

  /** The distinct elements of `s`, in order of first appearance. */
  function Distinct(s: seq<int>): (d: seq<int>)
    ensures NoDuplicates(d)
    ensures forall x :: x in d <==> x in s
    decreases |s|
  {
    if |s| == 0 then []
    else
      var d := Distinct(s[..|s| - 1]);
      assert forall x :: x in s <==> x in s[..|s| - 1] || x == s[|s| - 1] by {
        assert s == s[..|s| - 1] + [s[|s| - 1]];
      }
      if s[|s| - 1] in d then d else d + [s[|s| - 1]]
  }

  /** What the page shows for series `id`: the newest row's series fields,
      the number of rows of that series, and that row's chapter only when it
      is the only one. */
  function Summary(rows: seq<Row>, id: int): (item: Item)
    requires id in RowSeries(rows)
    ensures item.seriesId == id && item.newChapterCount >= 1
  {
    var s := RowSeries(rows);
    var r := rows[Position(s, id)];
    var n := multiset(s)[id];
    Item(id, r.seriesTitle, r.coverArt, if n == 1 then Some(r.chapterId) else None,
         if n == 1 then r.chapterTitle else "", r.createdAt, n)
  }

  function Summaries(rows: seq<Row>): (items: seq<Item>)
    ensures ItemSeries(items) == Distinct(RowSeries(rows))
  {
    var d := Distinct(RowSeries(rows));
    seq(|d|, k requires 0 <= k < |d| => Summary(rows, d[k]))
  }

  lemma PositionAppend(s: seq<int>, x: int, y: int)
    requires y in s
    ensures Position(s + [x], y) == Position(s, y)
  {
    var p := Position(s, y);
    assert (s + [x])[p] == y;
    var q := Position(s + [x], y);
    assert q <= p;
    assert s[q] == y;
  }

  lemma PositionNew(s: seq<int>, x: int)
    requires x !in s
    ensures Position(s + [x], x) == |s|
  {
    var q := Position(s + [x], x);
    if q < |s| {
      assert s[q] == x;
    }
  }

  /** Another row of a different series leaves a summary as it was. */
  lemma SummaryOtherRow(front: seq<Row>, r: Row, y: int)
    requires y in RowSeries(front) && y != r.seriesId
    ensures y in RowSeries(front + [r]) && Summary(front + [r], y) == Summary(front, y)
  {
    var s := RowSeries(front);
    assert RowSeries(front + [r]) == s + [r.seriesId];
    assert multiset(s + [r.seriesId]) == multiset(s) + multiset{r.seriesId};
    PositionAppend(s, r.seriesId, y);
    assert (front + [r])[Position(s, y)] == front[Position(s, y)];
  }

  /** Another row of the same series adds one to its count and drops the chapter. */
  lemma SummarySameRow(front: seq<Row>, r: Row)
    requires r.seriesId in RowSeries(front)
    ensures var old_ := Summary(front, r.seriesId);
      r.seriesId in RowSeries(front + [r])
      && Summary(front + [r], r.seriesId)
         == old_.(newChapterCount := old_.newChapterCount + 1, chapterId := None, chapterTitle := "")
  {
    var s := RowSeries(front);
    assert RowSeries(front + [r]) == s + [r.seriesId];
    assert multiset(s + [r.seriesId]) == multiset(s) + multiset{r.seriesId};
    PositionAppend(s, r.seriesId, r.seriesId);
    assert (front + [r])[Position(s, r.seriesId)] == front[Position(s, r.seriesId)];
  }

  /** The first row of a series gives a summary that keeps its chapter. */
  lemma SummaryNewRow(front: seq<Row>, r: Row)
    requires r.seriesId !in RowSeries(front)
    ensures r.seriesId in RowSeries(front + [r])
      && Summary(front + [r], r.seriesId)
         == Item(r.seriesId, r.seriesTitle, r.coverArt, Some(r.chapterId), r.chapterTitle, r.createdAt, 1)
  {
    var s := RowSeries(front);
    assert RowSeries(front + [r]) == s + [r.seriesId];
    assert multiset(s + [r.seriesId]) == multiset(s) + multiset{r.seriesId};
    assert multiset(s)[r.seriesId] == 0;
    PositionNew(s, r.seriesId);
    assert (front + [r])[|s|] == r;
  }

  /** `AddRow` for a series already seen agrees with the summaries. */
  lemma AddSeenRow(front: seq<Row>, r: Row)
    requires r.seriesId in RowSeries(front)
    ensures Summaries(front + [r]) == AddRow(Summaries(front), r)
  {
    var rows := front + [r];
    var x := r.seriesId;
    DistinctSeen(front, r);
    var d := Distinct(RowSeries(front));
    var items := Summaries(front);
    var k := ItemIndex(items, x);
    assert k >= 0 && d[k] == x;
    var changed := items[k].(newChapterCount := items[k].newChapterCount + 1, chapterId := None, chapterTitle := "");
    assert AddRow(items, r) == items[k := changed];
    var lhs := Summaries(rows);
    assert |lhs| == |d|;
    forall j | 0 <= j < |d|
      ensures lhs[j] == items[k := changed][j]
    {
      assert lhs[j] == Summary(rows, d[j]);
      assert items[j] == Summary(front, d[j]);
      if j == k {
        SummarySameRow(front, r);
      } else {
        assert d[j] != d[k];
        SummaryOtherRow(front, r, d[j]);
      }
    }
  }

  /** A row of a series already seen adds no new series. */
  lemma DistinctSeen(front: seq<Row>, r: Row)
    requires r.seriesId in RowSeries(front)
    ensures Distinct(RowSeries(front + [r])) == Distinct(RowSeries(front))
  {
    var rows := front + [r];
    assert RowSeries(rows) == RowSeries(front) + [r.seriesId];
    assert RowSeries(rows)[..|rows| - 1] == RowSeries(front);
  }

  /** `AddRow` for a new series agrees with the summaries. */
  lemma AddNewRow(front: seq<Row>, r: Row)
    requires r.seriesId !in RowSeries(front)
    ensures Summaries(front + [r]) == AddRow(Summaries(front), r)
  {
    var rows := front + [r];
    var x := r.seriesId;
    assert RowSeries(rows) == RowSeries(front) + [x];
    assert RowSeries(rows)[..|rows| - 1] == RowSeries(front);
    var d := Distinct(RowSeries(front));
    assert Distinct(RowSeries(rows)) == d + [x];
    var items := Summaries(front);
    assert ItemIndex(items, x) == -1;
    var lhs := Summaries(rows);
    var rhs := AddRow(items, r);
    assert |lhs| == |rhs|;
    forall j | 0 <= j < |lhs|
      ensures lhs[j] == rhs[j]
    {
      if j == |d| {
        SummaryNewRow(front, r);
      } else {
        SummaryOtherRow(front, r, d[j]);
      }
    }
  }

  /** The loop computes exactly the per-series summaries, in order of each
      series' newest chapter. */
  lemma {:induction false} GroupIsSummaries(rows: seq<Row>)
    ensures Group(rows) == Summaries(rows)
    decreases |rows|
  {
    if |rows| > 0 {
      var front := rows[..|rows| - 1];
      var r := rows[|rows| - 1];
      assert rows == front + [r];
      GroupIsSummaries(front);
      if r.seriesId in RowSeries(front) {
        AddSeenRow(front, r);
      } else {
        AddNewRow(front, r);
      }
    }
  }

  // ---------------------------------------------------------------------------
  // GetRecentlyAdded
  // ---------------------------------------------------------------------------

  /** The output loop: items are appended until there are `limit` of them,
      the check coming after the append (so at least one item is returned
      whenever there is one). */
  function TakeUntilLimit(items: seq<Item>, limit: int): (r: seq<Item>)
    ensures |items| == 0 ==> r == []
    ensures |items| > 0 ==> r == items[..if limit < 1 then 1 else if limit < |items| then limit else |items|]
  {
    if |items| == 0 then []
    else if limit <= 1 then items[..1]
    else [items[0]] + TakeUntilLimit(items[1..], limit - 1)
  }

  /** `GetRecentlyAdded(limit)`, given every chapter row newest first: the
      query fetches `2 * limit` rows (`LIMIT` with a negative count means no
      limit), which are grouped by series and cut to `limit` series. */
  function GetRecentlyAdded(stream: seq<Row>, limit: int): (r: seq<Item>)
    ensures limit >= 1 ==> |r| <= limit
    ensures limit < 1 ==> |r| <= 1
  {
    TakeUntilLimit(Group(Limit(stream, 2 * limit)), limit)
  }

  /** One item per distinct series among the fetched rows, in order of first
      appearance, each counting that series' rows, with the chapter kept only
      for a series with one new chapter; at most `limit` items for a positive
      limit. */
  lemma RecentlyAddedMeaning(stream: seq<Row>, limit: int)
    requires limit >= 1
    ensures var fetched := Limit(stream, 2 * limit); var r := GetRecentlyAdded(stream, limit);
      |fetched| <= 2 * limit && |r| <= limit
      && NoDuplicates(ItemSeries(r))
      && (forall k :: 0 <= k < |r| ==> r[k].seriesId in RowSeries(fetched) && r[k] == Summary(fetched, r[k].seriesId))
      && (forall k :: 0 <= k < |r| ==> r[k].newChapterCount == multiset(RowSeries(fetched))[r[k].seriesId])
      && (forall k :: 0 <= k < |r| ==> (r[k].chapterId.Some? <==> r[k].newChapterCount == 1))
      && (forall k, l :: 0 <= k < l < |r| ==>
            Position(RowSeries(fetched), r[k].seriesId) < Position(RowSeries(fetched), r[l].seriesId))
  {
    var fetched := Limit(stream, 2 * limit);
    GroupIsSummaries(fetched);
    var r := GetRecentlyAdded(stream, limit);
    assert forall k :: 0 <= k < |r| ==> r[k] == Summaries(fetched)[k];
    SummaryPrefixContents(fetched, r);
    SummaryPrefixOrder(fetched, r);
  }

  /** A prefix of the summaries holds each series' summary. */
  lemma SummaryPrefixContents(rows: seq<Row>, r: seq<Item>)
    requires |r| <= |Summaries(rows)| && forall k :: 0 <= k < |r| ==> r[k] == Summaries(rows)[k]
    ensures forall k :: 0 <= k < |r| ==> r[k].seriesId in RowSeries(rows) && r[k] == Summary(rows, r[k].seriesId)
    ensures forall k :: 0 <= k < |r| ==> r[k].newChapterCount == multiset(RowSeries(rows))[r[k].seriesId]
    ensures forall k :: 0 <= k < |r| ==> (r[k].chapterId.Some? <==> r[k].newChapterCount == 1)
  {
    var d := Distinct(RowSeries(rows));
    forall k | 0 <= k < |r|
      ensures r[k].seriesId in RowSeries(rows) && r[k] == Summary(rows, r[k].seriesId)
    {
      assert ItemSeries(Summaries(rows))[k] == d[k];
      assert d[k] in d;
    }
  }

  /** A prefix of the summaries names each series once, by first appearance. */
  lemma SummaryPrefixOrder(rows: seq<Row>, r: seq<Item>)
    requires |r| <= |Summaries(rows)| && forall k :: 0 <= k < |r| ==> r[k] == Summaries(rows)[k]
    ensures NoDuplicates(ItemSeries(r))
    ensures forall k, l :: 0 <= k < l < |r| ==>
      r[k].seriesId in RowSeries(rows) && r[l].seriesId in RowSeries(rows)
      && Position(RowSeries(rows), r[k].seriesId) < Position(RowSeries(rows), r[l].seriesId)
  {
    var d := Distinct(RowSeries(rows));
    FirstAppearanceOrder(RowSeries(rows));
    assert forall k :: 0 <= k < |r| ==> ItemSeries(r)[k] == d[k] && d[k] in d;
  }

  /** `Distinct` lists the elements by their first position. */
  lemma {:induction false} FirstAppearanceOrder(s: seq<int>)
    ensures forall k, l :: 0 <= k < l < |Distinct(s)| ==> Position(s, Distinct(s)[k]) < Position(s, Distinct(s)[l])
    decreases |s|
  {
    if |s| > 0 {
      var front := s[..|s| - 1];
      var x := s[|s| - 1];
      assert s == front + [x];
      FirstAppearanceOrder(front);
      var d := Distinct(front);
      forall y | y in front
        ensures Position(s, y) == Position(front, y)
      {
        PositionAppend(front, x, y);
      }
      if x !in d {
        PositionNew(front, x);
        forall k | 0 <= k < |d|
          ensures Position(s, d[k]) < |front|
        {
          assert d[k] in front;
        }
      }
    }
  }

  /** A negative limit fetches every row (a negative SQL `LIMIT` is no limit)
      and still returns the newest series, as the length check follows the append. */
  lemma NegativeLimitReturnsOne(stream: seq<Row>, limit: int)
    requires limit < 0 && |stream| > 0
    ensures |GetRecentlyAdded(stream, limit)| == 1
  {
    var fetched := Limit(stream, 2 * limit);
    GroupIsSummaries(fetched);
    assert RowSeries(fetched)[0] in Distinct(RowSeries(fetched));
  }

  // ---------------------------------------------------------------------------
  // GetNextUp (final step)
  // ---------------------------------------------------------------------------

  /** A suggestion and the time its series was last read. */
  datatype Candidate = Candidate(item: Item, lastRead: int)

  /** The final step of `GetNextUp`: candidates sorted by last-read time,
      newest first, and the first `limit` kept (none for a limit below 1).
      The candidates arrive in map iteration order, which is any order. */
  function GetNextUp(candidates: seq<Candidate>, limit: int): (r: seq<Item>)
    ensures |r| == if limit < 0 then 0 else if limit < |candidates| then limit else |candidates|
  {
    var sorted := SortByKey(candidates, (c: Candidate) => -c.lastRead);
    var n := if limit < 0 then 0 else if limit < |sorted| then limit else |sorted|;
    seq(n, i requires 0 <= i < n => sorted[i].item)
  }

  /** The result is drawn from the candidates, newest first, and no candidate
      left out was read more recently than one kept. */
  lemma NextUpNewestFirst(candidates: seq<Candidate>, limit: int)
    ensures var sorted := SortByKey(candidates, (c: Candidate) => -c.lastRead);
      var r := GetNextUp(candidates, limit);
      (forall i :: 0 <= i < |r| ==> r[i] == sorted[i].item)
      && (forall i, j :: 0 <= i <= j < |r| ==> sorted[i].lastRead >= sorted[j].lastRead)
      && (forall i, j :: 0 <= i < |r| <= j < |sorted| ==> sorted[i].lastRead >= sorted[j].lastRead)
      && multiset(sorted) == multiset(candidates)
  {
  }
}
