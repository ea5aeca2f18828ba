/** `ingestText`: one item row plus one chunk row per chunk of its content,
    written by key inside one transaction. */
module IngestText {
  import opened Strings
  import opened Chunker
  import opened Store
  import opened Search

  /** The defaults `chunkText` is called with. */
  const DefaultMaxLength := 1200
  const DefaultOverlap := 150

  /** The `params` record; the optional fields are `Option`s. */
  datatype TextParams = TextParams(
    id: string, source: Source, title: string, content: string,
    author: Option<string>, timestamp: Option<string>, metadata: Option<Json>)

  /** The item row written for `p`: metadata defaults to `{}`, permissions are `[]`. */
  function ItemOf(p: TextParams): ItemRow {
    ItemRow(p.id, p.source, p.title, p.author, p.timestamp, p.content,
            if p.metadata.Some? then p.metadata.value else JObj([]), JArr([]))
  }

  /** The keys of the object passed to the item insert: the item (with `author`
      and `timestamp` present even when undefined) spread, plus `metadata` and
      `permissions`. */
  const TextItemKeys: set<string> :=
    {"id", "source", "title", "author", "timestamp", "content", "metadata", "permissions"}

  /** The keys of the object passed to the chunk insert. */
  const ChunkRunKeys: set<string> := {"chunkId", "itemId", "text", "start", "end", "citations"}

  /** Both inserts of `ingestText` find every named parameter they need. */
  lemma TextWritesBind()
    ensures Binds(ItemParameters, TextItemKeys) && Binds(ChunkParameters, ChunkRunKeys)
  {
  }

  /** `${itemId}:chunk:${index}`. */
  function ChunkId(itemId: string, index: nat): string {
    itemId + ":chunk:" + NatToString(index)
  }

  /** The row written for the chunk at `index`. */
  function ChunkRowOf(itemId: string, index: nat, c: TextChunk): ChunkRow {
    ChunkRow(ChunkId(itemId, index), itemId, c.text, Some(c.start), Some(c.end), JArr([]))
  }

  /** The chunk rows, in the order they are written. */
  function ChunkRows(itemId: string, cs: seq<TextChunk>): (rs: seq<ChunkRow>)
    ensures |rs| == |cs|
  {
    seq(|cs|, i requires 0 <= i < |cs| => ChunkRowOf(itemId, i, cs[i]))
  }

  /** The chunks of `p.content`, as the ingestion cuts them. */
  function ContentChunks(p: TextParams): seq<TextChunk> {
    Chunks(p.content, DefaultMaxLength, DefaultOverlap)
  }

  /** The database after a committed `ingestText(db, p)`. */
  function Ingested(db: Db, p: TextParams): Db {
    PutChunkRows(PutItemRow(db, ItemOf(p)), ChunkRows(p.id, ContentChunks(p)))
  }

  /** The `forEach` over the chunks inside the transaction: upserts the row of
      each chunk in turn. A write that throws (`fault == Some(i + 1)` for chunk
      `i`) ends it, with the rows of the earlier chunks written. */
  method PutChunks(store: Store, itemId: string, chunks: seq<TextChunk>, fault: Option<nat>) returns (ok: bool)
    requires store.Valid()
    modifies store
    ensures store.Valid()
    ensures ok <==> fault.None? || fault.value == 0 || fault.value > |chunks|
    ensures ok ==> store.State() == PutChunkRows(old(store.State()), ChunkRows(itemId, chunks))
    ensures !ok ==> store.State() == PutChunkRows(old(store.State()), ChunkRows(itemId, chunks)[..fault.value - 1])
  {
    ghost var base := store.State();
    ghost var rows := ChunkRows(itemId, chunks);
    var index := 0;
    while index < |chunks|
      invariant 0 <= index <= |chunks|
      invariant fault.Some? && fault.value != 0 ==> fault.value > index
      invariant store.Valid()
      invariant store.State() == PutChunkRows(base, rows[..index])
    {
      if fault == Some(index + 1) {
        return false;
      }
      var row := ChunkRowOf(itemId, index, chunks[index]);
      store.PutChunk(row);
      PutChunkRowsStep(base, rows, index);
      index := index + 1;
    }
    assert rows[..index] == rows;
    ok := true;
  }

  /** `ingestText(db, params)`. A write that throws is named by `fault`: `Some(0)`
      is the item row, `Some(i + 1)` the row of chunk `i`. The transaction then
      rolls back and the exception propagates, which `ok == false` stands for. */
  method IngestText(store: Store, p: TextParams, fault: Option<nat>) returns (ok: bool)
    requires store.Valid()
    modifies store
    ensures store.Valid()
    ensures ok <==> fault.None? || fault.value > |ContentChunks(p)|
    ensures ok ==> store.State() == Ingested(old(store.State()), p)
    ensures !ok ==> store.State() == old(store.State())
  {
    var item := ItemOf(p);
    var chunks := ChunkText(p.content, DefaultMaxLength, DefaultOverlap);
    var saved := store.State();
    if fault == Some(0) {
      return false;
    }
    store.PutItem(item);
    ok := PutChunks(store, p.id, chunks, fault);
    if !ok {
      store.Restore(saved);
    }
  }

  // ---- chunk keys ----

  lemma ChunkIdShape(itemId: string, index: nat)
    ensures var s := ChunkId(itemId, index);
            var n := |NatToString(index)|;
            && |s| == |itemId| + 7 + n
            && s[|s| - n - 1] == ':'
            && s[..|itemId|] == itemId
            && s[|s| - n..] == NatToString(index)
            && forall k :: |s| - n <= k < |s| ==> '0' <= s[k] <= '9'
  {
    var s := ChunkId(itemId, index);
    var n := |NatToString(index)|;
    NatToStringDigits(index);
    assert forall k :: |s| - n <= k < |s| ==> s[k] == NatToString(index)[k - (|s| - n)];
  }

  /** Chunk ids never collide: equal ids mean the same item and the same index. */
  lemma ChunkIdInjective(a: string, i: nat, b: string, j: nat)
    requires ChunkId(a, i) == ChunkId(b, j)
    ensures a == b && i == j
  {
    var s := ChunkId(a, i);
    var m := |NatToString(i)|;
    var n := |NatToString(j)|;
    ChunkIdShape(a, i);
    ChunkIdShape(b, j);
    assert m == n;
    NatToStringInjective(i, j);
  }

  /** The rows of one ingestion have pairwise different keys. */
  lemma ChunkKeysDistinct(itemId: string, cs: seq<TextChunk>)
    ensures Distinct(Keys(ChunkRows(itemId, cs), ChunkKey))
  {
    var ks := Keys(ChunkRows(itemId, cs), ChunkKey);
    forall i, j | 0 <= i < j < |ks| ensures ks[i] != ks[j] {
      if ks[i] == ks[j] {
        assert ks[i] == ChunkId(itemId, i) && ks[j] == ChunkId(itemId, j);
        ChunkIdInjective(itemId, i, itemId, j);
      }
    }
  }

  /** `k` is the id of one of the first `n` chunks of `itemId`. */
  predicate IsChunkKey(k: string, itemId: string, n: nat) {
    exists i :: 0 <= i < n && k == ChunkId(itemId, i)
  }

  lemma KeysOfChunkRows(itemId: string, cs: seq<TextChunk>, k: string)
    requires k in Keys(ChunkRows(itemId, cs), ChunkKey)
    ensures IsChunkKey(k, itemId, |cs|)
  {
    var i :| 0 <= i < |cs| && Keys(ChunkRows(itemId, cs), ChunkKey)[i] == k;
    assert Keys(ChunkRows(itemId, cs), ChunkKey)[i] == ChunkKey(ChunkRows(itemId, cs)[i]);
    assert ChunkRows(itemId, cs)[i] == ChunkRowOf(itemId, i, cs[i]);
    assert k == ChunkId(itemId, i);
  }

  // ---- what a committed ingestion stores ----

  /** The item row stored under `p.id` copies the parameters, with metadata
      defaulting to `{}` and permissions `[]`; every other item is unchanged. */
  lemma IngestedItem(db: Db, p: TextParams)
    ensures var after := Ingested(db, p).items.rows;
            && p.id in after
            && after[p.id].id == p.id && after[p.id].source == p.source && after[p.id].title == p.title
            && after[p.id].author == p.author && after[p.id].timestamp == p.timestamp
            && after[p.id].content == p.content
            && after[p.id].metadata == (if p.metadata.None? then JObj([]) else p.metadata.value)
            && after[p.id].permissions == JArr([])
    ensures forall k :: k != p.id ==>
              (k in Ingested(db, p).items.rows <==> k in db.items.rows) &&
              (k in db.items.rows ==> Ingested(db, p).items.rows[k] == db.items.rows[k])
  {
  }

  /** Chunk row `i` is stored under `${p.id}:chunk:${i}` and carries the item id,
      the text and span of chunk `i`, and no citations. */
  lemma IngestedChunks(db: Db, p: TextParams)
    ensures var cs := ContentChunks(p);
            var after := Ingested(db, p).chunks.rows;
            forall i :: 0 <= i < |cs| ==>
              ChunkId(p.id, i) in after &&
              after[ChunkId(p.id, i)] == ChunkRow(ChunkId(p.id, i), p.id, cs[i].text, Some(cs[i].start), Some(cs[i].end), JArr([]))
  {
    var cs := ContentChunks(p);
    var rs := ChunkRows(p.id, cs);
    ChunkKeysDistinct(p.id, cs);
    UpsertAllRows(PutItemRow(db, ItemOf(p)).chunks, rs, ChunkKey);
    forall i | 0 <= i < |cs|
      ensures ChunkKey(rs[i]) == ChunkId(p.id, i)
    {
    }
  }

  /** Chunk rows with any other key, including stale chunks of the same item from
      an earlier, longer ingestion, are left as they were. */
  lemma IngestedKeepsOtherChunks(db: Db, p: TextParams)
    ensures forall k :: !IsChunkKey(k, p.id, |ContentChunks(p)|) ==>
              (k in Ingested(db, p).chunks.rows <==> k in db.chunks.rows) &&
              (k in db.chunks.rows ==> Ingested(db, p).chunks.rows[k] == db.chunks.rows[k])
  {
    var cs := ContentChunks(p);
    var rs := ChunkRows(p.id, cs);
    ChunkKeysDistinct(p.id, cs);
    UpsertAllRows(PutItemRow(db, ItemOf(p)).chunks, rs, ChunkKey);
    forall k | k in Keys(rs, ChunkKey) ensures IsChunkKey(k, p.id, |cs|) {
      KeysOfChunkRows(p.id, cs, k);
    }
  }

  /** In particular `${p.id}:chunk:${k}` with `k` past the new chunk count is untouched. */
  lemma IngestedKeepsStaleChunks(db: Db, p: TextParams, k: nat)
    requires k >= |ContentChunks(p)|
    ensures var key := ChunkId(p.id, k);
            (key in Ingested(db, p).chunks.rows <==> key in db.chunks.rows) &&
            (key in db.chunks.rows ==> Ingested(db, p).chunks.rows[key] == db.chunks.rows[key])
  {
    IngestedKeepsOtherChunks(db, p);
    if IsChunkKey(ChunkId(p.id, k), p.id, |ContentChunks(p)|) {
      var i :| 0 <= i < |ContentChunks(p)| && ChunkId(p.id, k) == ChunkId(p.id, i);
      ChunkIdInjective(p.id, k, p.id, i);
    }
  }

  /** A consistent database stays consistent. */
  lemma IngestedValid(db: Db, p: TextParams)
    requires DbValid(db)
    ensures DbValid(Ingested(db, p))
  {
    var item := ItemOf(p);
    UpsertValid(db.items, item.id, item, ItemKey);
    UpsertAllValid(db.chunks, ChunkRows(p.id, ContentChunks(p)), ChunkKey);
  }

  /** Ingesting the same record twice leaves the same database as ingesting it once. */
  lemma IngestTwice(db: Db, p: TextParams)
    ensures Ingested(Ingested(db, p), p) == Ingested(db, p)
  {
    var item := ItemOf(p);
    var rs := ChunkRows(p.id, ContentChunks(p));
    var once := Ingested(db, p);
    UpsertTwice(db.items, p.id, item);
    ChunkKeysDistinct(p.id, ContentChunks(p));
    UpsertAllTwice(db.chunks, rs, ChunkKey);
    assert Ingested(once, p).items == Upsert(Upsert(db.items, p.id, item), p.id, item);
    assert Ingested(once, p).chunks == UpsertAll(UpsertAll(db.chunks, rs, ChunkKey), rs, ChunkKey);
  }

  /** After ingestion each chunk explains to its own text joined with the new item. */
  lemma ExplainAfterIngest(db: Db, p: TextParams, i: nat)
    requires DbValid(db)
    requires i < |ContentChunks(p)|
    ensures var c := ContentChunks(p)[i];
            ExplainChunk(Ingested(db, p), ChunkId(p.id, i)) ==
              Some(ExplainResult(ChunkId(p.id, i), p.id, c.text, p.title, p.timestamp, ItemOf(p).metadata))
  {
    IngestedValid(db, p);
    IngestedChunks(db, p);
    IngestedItem(db, p);
    ExplainLookup(Ingested(db, p), ChunkId(p.id, i));
  }
}
