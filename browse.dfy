/** The read-only browse queries: the newest items, and the chunks of one item
    in text order. Both are functions of the database value, so neither changes it. */
module Browse {
  import opened Strings
  import opened Sorting
  import opened Store

  const DefaultBrowseLimit := 50

  datatype ItemSummary = ItemSummary(id: string, source: Source, title: string, timestamp: Option<string>)

  datatype ChunkSummary = ChunkSummary(chunkId: string, text: string, start: Option<int>, end: Option<int>)

  function ItemSummaryOf(r: ItemRow): ItemSummary {
    ItemSummary(r.id, r.source, r.title, r.timestamp)
  }

  function ChunkSummaryOf(r: ChunkRow): ChunkSummary {
    ChunkSummary(r.chunkId, r.text, r.start, r.end)
  }

  function Timestamp(r: ItemRow): Option<string> { r.timestamp }

  /** `ORDER BY timestamp DESC`: later text first, NULL (the lowest value) last. */
  predicate Newer(a: Option<string>, b: Option<string>) {
    a.Some? && (b.None? || StrLess(b.value, a.value))
  }

  lemma NewerOrder()
    ensures StrictTotalOrder(Newer)
  {
    forall a: Option<string> ensures !Newer(a, a) {
      if a.Some? { StrLessIrreflexive(a.value); }
    }
    forall a: Option<string>, b: Option<string>, c: Option<string> | Newer(a, b) && Newer(b, c)
      ensures Newer(a, c)
    {
      if c.Some? { StrLessTransitive(c.value, b.value, a.value); }
    }
    forall a: Option<string>, b: Option<string> | a != b ensures Newer(a, b) || Newer(b, a) {
      if a.Some? && b.Some? { StrLessTotal(a.value, b.value); }
    }
  }

  /** `listItems(db, limit)`. */
  function ListItems(db: Db, limit: int): seq<ItemSummary> {
    var sorted := SortBy(Rows(db.items), Timestamp, Newer);
    SqlLimit(Project(sorted, ItemSummaryOf), limit)
  }

  /** `limit` rows, or every item when there are fewer (or the limit is negative). */
  lemma ListItemsCount(db: Db, limit: int)
    requires DbValid(db)
    ensures |ListItems(db, limit)| == if limit < 0 then |db.items.rows| else Min(limit, |db.items.rows|)
  {
    RowsCount(db.items);
  }

  /** Each row is the summary of a stored item. */
  lemma ListItemsFromTable(db: Db, limit: int)
    requires DbValid(db)
    ensures forall x :: x in ListItems(db, limit) ==>
              exists k :: k in db.items.rows && x == ItemSummaryOf(db.items.rows[k])
  {
    var rows := Rows(db.items);
    var sorted := SortBy(rows, Timestamp, Newer);
    var all := Project(sorted, ItemSummaryOf);
    var r := ListItems(db, limit);
    assert r == SqlLimit(all, limit);
    RowsMembers(db.items);
    SortByPermutes(rows, Timestamp, Newer);
    forall x | x in r ensures exists k :: k in db.items.rows && x == ItemSummaryOf(db.items.rows[k]) {
      var i :| 0 <= i < |r| && r[i] == x;
      assert r[i] == all[i];
      var row := sorted[i];
      assert row in multiset(rows);
      assert row in rows;
      var k :| k in db.items.rows && db.items.rows[k] == row;
      assert x == ItemSummaryOf(db.items.rows[k]);
    }
  }

  /** With no limit in the way every stored item is listed. */
  lemma ListItemsComplete(db: Db, limit: int)
    requires DbValid(db)
    requires limit < 0 || |db.items.rows| <= limit
    ensures forall k :: k in db.items.rows ==> ItemSummaryOf(db.items.rows[k]) in ListItems(db, limit)
  {
    var rows := Rows(db.items);
    var sorted := SortBy(rows, Timestamp, Newer);
    var all := Project(sorted, ItemSummaryOf);
    RowsCount(db.items);
    assert ListItems(db, limit) == all;
    RowsMembers(db.items);
    SortByPermutes(rows, Timestamp, Newer);
    forall k | k in db.items.rows ensures ItemSummaryOf(db.items.rows[k]) in all {
      var row := db.items.rows[k];
      assert row in rows;
      assert row in multiset(sorted);
      ProjectMember(sorted, row, ItemSummaryOf);
    }
  }

  function SummaryTimestamp(x: ItemSummary): Option<string> { x.timestamp }

  /** Newest first: timestamps never increase down the list, and items without a
      timestamp come after all items with one. The list holds the newest items:
      it is a sub-multiset of the summaries of the stored items, and no item left
      out by `LIMIT` is newer than a listed one. */
  lemma ListItemsNewestFirst(db: Db, limit: int)
    ensures forall i, j :: 0 <= i < j < |ListItems(db, limit)| ==>
              var a := ListItems(db, limit)[i].timestamp;
              var b := ListItems(db, limit)[j].timestamp;
              (a.None? ==> b.None?) && (a.Some? && b.Some? ==> !StrLess(a.value, b.value))
    ensures multiset(ListItems(db, limit)) <= multiset(Project(Rows(db.items), ItemSummaryOf))
    ensures forall x, y ::
              x in ListItems(db, limit) &&
              y in multiset(Project(Rows(db.items), ItemSummaryOf)) - multiset(ListItems(db, limit))
              ==> !Newer(y.timestamp, x.timestamp)
  {
    var rows := Rows(db.items);
    var sorted := SortBy(rows, Timestamp, Newer);
    var all := Project(sorted, ItemSummaryOf);
    NewerOrder();
    SortBySorted(rows, Timestamp, Newer);
    assert SortedBy(all, SummaryTimestamp, Newer) by {
      forall i, j | 0 <= i < j < |all| ensures !Newer(SummaryTimestamp(all[j]), SummaryTimestamp(all[i])) {
        assert all[i].timestamp == sorted[i].timestamp && all[j].timestamp == sorted[j].timestamp;
      }
    }
    var r := ListItems(db, limit);
    assert r == all[..|r|];
    forall i, j | 0 <= i < j < |r|
      ensures (r[i].timestamp.None? ==> r[j].timestamp.None?) &&
              (r[i].timestamp.Some? && r[j].timestamp.Some? ==> !StrLess(r[i].timestamp.value, r[j].timestamp.value))
    {
      assert r[i] == all[i] && r[j] == all[j];
    }
    SortByPermutes(rows, Timestamp, Newer);
    ProjectPermutes(sorted, rows, ItemSummaryOf);
    SortedPrefixTop(all, |r|, SummaryTimestamp, Newer);
  }

  function ItemIdOf(r: ChunkRow): string { r.itemId }

  function Start(r: ChunkRow): Option<int> { r.start }

  /** `ORDER BY start ASC`: NULL (the lowest value) first, then increasing offsets. */
  predicate Earlier(a: Option<int>, b: Option<int>) {
    b.Some? && (a.None? || a.value < b.value)
  }

  lemma EarlierOrder()
    ensures StrictTotalOrder(Earlier)
  {
  }

  /** `listChunks(db, itemId, limit)`. */
  function ListChunks(db: Db, itemId: string, limit: int): seq<ChunkSummary> {
    var sorted := SortBy(WithKey(Rows(db.chunks), ItemIdOf, itemId), Start, Earlier);
    SqlLimit(Project(sorted, ChunkSummaryOf), limit)
  }

  /** Only chunks of the requested item are listed, each the summary of a stored chunk row. */
  lemma ListChunksOfItem(db: Db, itemId: string, limit: int)
    requires DbValid(db)
    ensures forall x :: x in ListChunks(db, itemId, limit) ==>
              exists k :: k in db.chunks.rows && db.chunks.rows[k].itemId == itemId &&
                x == ChunkSummaryOf(db.chunks.rows[k])
  {
    var matching := WithKey(Rows(db.chunks), ItemIdOf, itemId);
    var sorted := SortBy(matching, Start, Earlier);
    var all := Project(sorted, ChunkSummaryOf);
    var r := ListChunks(db, itemId, limit);
    assert r == SqlLimit(all, limit);
    RowsMembers(db.chunks);
    WithKeyMembers(Rows(db.chunks), ItemIdOf, itemId);
    SortByPermutes(matching, Start, Earlier);
    forall x | x in r
      ensures exists k :: k in db.chunks.rows && db.chunks.rows[k].itemId == itemId && x == ChunkSummaryOf(db.chunks.rows[k])
    {
      var i :| 0 <= i < |r| && r[i] == x;
      assert r[i] == all[i];
      var c := sorted[i];
      assert c in multiset(matching);
      assert c in Rows(db.chunks) && c.itemId == itemId;
      var k :| k in db.chunks.rows && db.chunks.rows[k] == c;
      assert x == ChunkSummaryOf(c);
    }
  }

  /** With no limit in the way every stored chunk of the item is listed. */
  lemma ListChunksComplete(db: Db, itemId: string, limit: int)
    requires DbValid(db)
    requires limit < 0 || |KeysWhere(db.chunks, ItemIdOf, itemId)| <= limit
    ensures forall k :: k in db.chunks.rows && db.chunks.rows[k].itemId == itemId ==>
              ChunkSummaryOf(db.chunks.rows[k]) in ListChunks(db, itemId, limit)
  {
    var matching := WithKey(Rows(db.chunks), ItemIdOf, itemId);
    var sorted := SortBy(matching, Start, Earlier);
    var all := Project(sorted, ChunkSummaryOf);
    WithKeyCount(db.chunks, ItemIdOf, itemId);
    assert ListChunks(db, itemId, limit) == all;
    RowsMembers(db.chunks);
    WithKeyMembers(Rows(db.chunks), ItemIdOf, itemId);
    SortByPermutes(matching, Start, Earlier);
    forall k | k in db.chunks.rows && db.chunks.rows[k].itemId == itemId
      ensures ChunkSummaryOf(db.chunks.rows[k]) in all
    {
      var row := db.chunks.rows[k];
      assert row in Rows(db.chunks);
      assert row in multiset(sorted);
      ProjectMember(sorted, row, ChunkSummaryOf);
    }
  }

  /** `limit` rows, or every chunk of the item when there are fewer (or the limit is negative). */
  lemma ListChunksCount(db: Db, itemId: string, limit: int)
    requires DbValid(db)
    ensures var n := |KeysWhere(db.chunks, ItemIdOf, itemId)|;
            |ListChunks(db, itemId, limit)| == if limit < 0 then n else Min(limit, n)
  {
    var matching := WithKey(Rows(db.chunks), ItemIdOf, itemId);
    WithKeyCount(db.chunks, ItemIdOf, itemId);
    assert |SortBy(matching, Start, Earlier)| == |matching|;
  }

  function SummaryStart(x: ChunkSummary): Option<int> { x.start }

  /** In text order: start offsets never decrease, and chunks without a start
      come first. The list holds the item's first chunks: it is a sub-multiset of
      the summaries of the item's stored chunks, and no chunk left out by `LIMIT`
      starts before a listed one. */
  lemma ListChunksInTextOrder(db: Db, itemId: string, limit: int)
    ensures forall i, j :: 0 <= i < j < |ListChunks(db, itemId, limit)| ==>
              var a := ListChunks(db, itemId, limit)[i].start;
              var b := ListChunks(db, itemId, limit)[j].start;
              (b.None? ==> a.None?) && (a.Some? && b.Some? ==> a.value <= b.value)
    ensures multiset(ListChunks(db, itemId, limit)) <=
            multiset(Project(WithKey(Rows(db.chunks), ItemIdOf, itemId), ChunkSummaryOf))
    ensures forall x, y ::
              x in ListChunks(db, itemId, limit) &&
              y in multiset(Project(WithKey(Rows(db.chunks), ItemIdOf, itemId), ChunkSummaryOf)) -
                   multiset(ListChunks(db, itemId, limit))
              ==> !Earlier(y.start, x.start)
  {
    var matching := WithKey(Rows(db.chunks), ItemIdOf, itemId);
    var sorted := SortBy(matching, Start, Earlier);
    var all := Project(sorted, ChunkSummaryOf);
    EarlierOrder();
    SortBySorted(matching, Start, Earlier);
    assert SortedBy(all, SummaryStart, Earlier) by {
      forall i, j | 0 <= i < j < |all| ensures !Earlier(SummaryStart(all[j]), SummaryStart(all[i])) {
        assert all[i].start == sorted[i].start && all[j].start == sorted[j].start;
      }
    }
    var r := ListChunks(db, itemId, limit);
    assert r == all[..|r|];
    forall i, j | 0 <= i < j < |r|
      ensures (r[j].start.None? ==> r[i].start.None?) &&
              (r[i].start.Some? && r[j].start.Some? ==> r[i].start.value <= r[j].start.value)
    {
      assert r[i] == all[i] && r[j] == all[j];
    }
    SortByPermutes(matching, Start, Earlier);
    ProjectPermutes(sorted, matching, ChunkSummaryOf);
    SortedPrefixTop(all, |r|, SummaryStart, Earlier);
  }

  /** With the default limit of 50, each query lists at most 50 rows. */
  lemma DefaultBrowseLimits(db: Db, itemId: string)
    ensures |ListItems(db, DefaultBrowseLimit)| <= 50
    ensures |ListChunks(db, itemId, DefaultBrowseLimit)| <= 50
  {
  }
}
