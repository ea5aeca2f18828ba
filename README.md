# LumenTrail text pipeline, in Dafny

LumenTrail indexes documents (local files and connector records) into a
two-table SQLite store and searches them. This project models the pipeline
between raw documents and that store:

- the **chunker** `chunkText`, which cuts a text into overlapping windows
  (`chunker.dfy`: the `while` loop as the method `ChunkText`, proved equal to
  the recursive specification `Chunks`);
- **ingestion**: `ingestText`, which writes one item row and one chunk row per
  chunk inside one transaction (`ingest_text.dfy`), and `ingestFile`, which
  checks the extension and writes one item row and one truncated chunk row,
  with no transaction (`ingest_file.dfy`);
- **search**: `countOccurrences` (a `while` loop, as the method
  `CountOccurrences`), the `LIKE '%query%'` pre-filter, the stable sort by
  score and the slice to `limit` (`search.dfy`);
- the **explain join** `explainChunk` (`search.dfy`);
- the **browse queries** `listItems` and `listChunks` (`browse.dfy`).

The store (`store.dfy`) is a class `Store` that owns two tables, `items` keyed
by `id` and `chunks` keyed by `chunk_id`. Each table is a map from primary key
to row plus the scan order of the keys, which is SQLite's rowid order.
`INSERT OR REPLACE` is `Upsert`: it updates the map and moves the key to the
end of the scan order, because SQLite deletes the old row and inserts a new
one. The store's methods (`PutItem`, `PutChunk`, `Restore`) are stated against
the pure functions `PutItemRow`, `PutChunkRow` and `PutChunkRows` on a `Db`
value. The queries are pure functions of a `Db`, so they cannot change either
table.

Supporting modules:

- `strings.dfy`: the JavaScript string operations the code uses (`trim`,
  `toLowerCase`, `indexOf`, `lastIndexOf`, decimal formatting of an index) and
  SQLite's binary text order.
- `sorting.dfy`: a stable insertion sort, which models `Array.prototype.sort`
  and `ORDER BY`. It is proved to be a permutation, sorted and stable.

A storage write that throws is modelled by a `fault` parameter that names the
failing write. `ingestText` then rolls back. `ingestFile` keeps whatever it
already wrote.

## Behaviour worth knowing

- The window cut looks for `"\n\n"` and then `"\n"` and takes the larger
  index. That is always the last single newline (`Strings.DoubleBreakNotLater`),
  so a paragraph break is never preferred.
- The candidate filter is SQLite `LIKE`. It ignores ASCII case, and `%` and
  `_` in the query are wildcards, so a candidate can score 0
  (`Search.WildcardCandidateScoresZero`).
- For `searchChunks("")` every chunk passes the `'%%'` filter and scores 0
  (`Search.EmptyQuery`), so up to `limit` rows come back, each with score 0.
  The HTTP layer filters empty queries, and it is not modelled here.
- `ingestFile` does not call the chunker. Its one chunk is the untrimmed first
  4000 characters. Its two writes are not in a transaction.
- `ingestFile`'s item object has no `author` key while its insert binds
  `@author`, so the item insert throws for every supported, readable file
  (see "## Findings").
- `LIMIT n` keeps the first `min(n, count)` rows of the ordered result and
  all of them when `n` is negative (`Store.SqlLimit`); `slice(0, n)` keeps the
  first `min(n, len)` results, or `max(len + n, 0)` for a negative `n`
  (`Search.JsSlice`).
- Re-ingesting a text with fewer chunks leaves the old rows with higher
  indices in place (`IngestText.IngestedKeepsStaleChunks`).

## Model

| member | source | states |
|---|---|---|
| Strings.TrimStartShape | packages/pipelines/src/chunk.ts:28 | trimming the start drops exactly a whitespace prefix; the result is a suffix of the input that is empty or starts with a non-whitespace character |
| Strings.TrimEndShape | packages/pipelines/src/chunk.ts:28 | trimming the end drops exactly a whitespace suffix; the result is a prefix that is empty or ends with a non-whitespace character |
| Strings.TrimEmptyIff | packages/pipelines/src/chunk.ts:12 | `trim()` gives the empty string if and only if every character is whitespace |
| Strings.TrimNoWhitespace | packages/pipelines/src/chunk.ts:28 | a string without whitespace is its own trim |
| Strings.ToLowerAt | packages/pipelines/src/search.ts:54-55 | lower-casing maps each character on its own and keeps the length |
| Strings.IndexOfFirst | packages/pipelines/src/search.ts:59 | `indexOf(t, from)` is a match at or after `from` with no match between `from` and it, or -1 when there is no match from `from` on |
| Strings.LastIndexOfFromLast | packages/pipelines/src/chunk.ts:22 | the backward search returns a match with no later match up to its start bound, or -1 |
| Strings.LastIndexOfLast | packages/pipelines/src/chunk.ts:22 | `lastIndexOf(t)` is a match with no later match, or -1 when there is none |
| Strings.DoubleBreakNotLater | packages/pipelines/src/chunk.ts:22 | the last `"\n\n"` never lies after the last `"\n"`, so the larger of the two is always the last `"\n"` |
| Strings.NoBreakWithoutNewline | packages/pipelines/src/chunk.ts:22 | a window without `'\n'` has no break of either kind |
| Strings.ParseNatToString | packages/pipelines/src/ingest-text.ts:47 | the decimal text of an index reads back as that index |
| Strings.NatToStringDigits | packages/pipelines/src/ingest-text.ts:47 | the decimal text of an index consists of digits only |
| Strings.NatToStringInjective | packages/pipelines/src/ingest-text.ts:47 | different indices have different decimal texts |
| Strings.StrLessIrreflexive | packages/pipelines/src/browse.ts:19 | no timestamp text sorts before itself |
| Strings.StrLessTransitive | packages/pipelines/src/browse.ts:19 | the text order is transitive |
| Strings.StrLessTotal | packages/pipelines/src/browse.ts:19 | of two different texts one sorts before the other |
| Sorting.SortByPermutes | packages/pipelines/src/search.ts:24 | the sort returns a permutation of its input (same multiset) |
| Sorting.SortBySorted | packages/pipelines/src/search.ts:24 | under a strict total order on keys, no element is followed by one that sorts strictly before it |
| Sorting.SortByStable | packages/pipelines/src/search.ts:24 | the elements with any one key keep their input order |
| Sorting.SortedPrefixTop | packages/pipelines/src/search.ts:24 | a prefix of a sorted sequence is a sub-multiset of it, and no element outside the prefix sorts strictly before one inside it |
| Sorting.ProjectPermutes | packages/pipelines/src/browse.ts:17-20 | mapping each row to its selected columns keeps two permutations permutations of each other |
| Store.Upsert | packages/pipelines/src/ingest-text.ts:26-34 | `INSERT OR REPLACE` of one row: the row under its key, the key moved to the end of the scan order; its properties are stated by `Store.UpsertValid` and `Store.UpsertTwice` |
| Store.UpsertAll | packages/pipelines/src/ingest-text.ts:44-59 | the rows written one after the other; its properties are stated by `Store.UpsertAllRows`, `Store.UpsertAllOrder`, `Store.UpsertAllValid` and `Store.UpsertAllTwice` |
| Store.UpsertValid | packages/pipelines/src/ingest-text.ts:26-34 | `INSERT OR REPLACE` keeps a table consistent: each stored key once in scan order, every row under its own primary key |
| Store.UpsertTwice | packages/pipelines/src/ingest-text.ts:26-34 | replacing a row with itself a second time changes nothing |
| Store.UpsertAllRows | packages/pipelines/src/ingest-text.ts:44-59 | after upserting rows with distinct keys, each is stored under its key, and every other key is present exactly when it was before and holds the same row |
| Store.UpsertAllOrder | packages/pipelines/src/ingest-text.ts:44-59 | the written keys move to the end of the scan order in write order; the other keys keep their relative order |
| Store.UpsertAllValid | packages/pipelines/src/ingest-text.ts:44-59 | a sequence of upserts keeps a table consistent |
| Store.UpsertAllTwice | packages/pipelines/src/ingest-text.ts:44-59 | writing the same rows (distinct keys) a second time leaves the table as after the first time |
| Store.Binds | packages/pipelines/src/ingest-text.ts:38-42 | a named-parameter statement runs only when the object passed to it has a key for every `@name` it uses |
| Store.RowsCount | packages/pipelines/src/db.ts:17-35 | a full scan returns one row per stored key, in scan order |
| Store.RowsMembers | packages/pipelines/src/db.ts:17-35 | a row is in the scan exactly when it is stored under some key |
| Store.WithKeyRows | packages/pipelines/src/search.ts:46 | filtering a scan on the primary key gives that key's row, or nothing when the key is absent |
| Store.WithKeyMembers | packages/pipelines/src/browse.ts:29 | a `WHERE` filter keeps exactly the scanned rows with that column value |
| Store.WithKeyCount | packages/pipelines/src/browse.ts:29 | the filter returns as many rows as there are stored keys whose row has that value |
| Store.PutChunkRowsStep | packages/pipelines/src/ingest-text.ts:44-59 | writing chunk row `i` after rows `0..i` gives the table with rows `0..i+1` written |
| Store.Store.constructor | packages/pipelines/src/db.ts:16-37 | a new store holds two empty, consistent tables |
| Store.Store.PutItem | packages/pipelines/src/ingest-text.ts:38-42 | the item insert upserts the row by `id` and changes nothing else |
| Store.Store.PutChunk | packages/pipelines/src/ingest-text.ts:51-58 | the chunk insert upserts the row by `chunk_id` and changes nothing else |
| Store.Store.Restore | packages/pipelines/src/ingest-text.ts:37-62 | a rolled-back transaction puts back the state from before it began |
| Search.OccurrenceCount | packages/pipelines/src/search.ts:52-65 | the score of a text for a query; its properties are stated by `Search.CountOccurrences`, `Search.CountBound`, `Search.CountPositiveIff`, `Search.CountIgnoresCase` and the two example lemmas |
| Search.CountOccurrences | packages/pipelines/src/search.ts:52-65 | the loop's count equals `OccurrenceCount`: 0 for a blank needle, otherwise the number of left-to-right, non-overlapping matches of the lower-cased needle in the lower-cased text |
| Search.CountFromStep | packages/pipelines/src/search.ts:58-63 | one round of the loop: no further match ends the count; a match adds one and resumes just past the matched span |
| Search.CountFromBound | packages/pipelines/src/search.ts:58-63 | the matches counted from a cursor fit, end to end, in the rest of the text |
| Search.CountBound | packages/pipelines/src/search.ts:52-65 | count × needle length ≤ text length |
| Search.CountFromPositive | packages/pipelines/src/search.ts:58-63 | the count from a cursor is positive exactly when a match starts at or after it |
| Search.CountPositiveIff | packages/pipelines/src/search.ts:52-65 | the score is positive if and only if the needle is not blank and occurs in the text, case ignored |
| Search.CountNonOverlapping | packages/pipelines/src/search.ts:58-63 | `"aa"` occurs twice in `"aaaa"`: matches do not overlap |
| Search.CountResumesAfterMatch | packages/pipelines/src/search.ts:58-63 | `"aa"` occurs once in `"aaa"`: the scan resumes after the matched span |
| Search.BlankIgnoresCase | packages/pipelines/src/search.ts:53 | two needles that lower-case alike are both blank or both not |
| Search.CountIgnoresCase | packages/pipelines/src/search.ts:52-55 | texts and needles that lower-case alike get the same score |
| Search.Like | packages/pipelines/src/search.ts:12-15 | SQLite `LIKE` with `%` and `_` wildcards, ASCII case ignored; its properties are stated by `Search.LikeOfMatch`, `Search.ScoredPassesFilter`, `Search.WildcardCandidateScoresZero` and `Search.EmptyQuery` |
| Search.LikeOfMatch | packages/pipelines/src/search.ts:12-15 | a text containing the query, ASCII case ignored, matches `LIKE '%query%'` |
| Search.ScoredPassesFilter | packages/pipelines/src/search.ts:12-22 | every chunk the scorer would give a positive score passes the `LIKE` filter |
| Search.WildcardCandidateScoresZero | packages/pipelines/src/search.ts:12-22 | `_` in a query is a `LIKE` wildcard: `"abc"` is a candidate for `"a_c"` yet scores 0 |
| Search.EmptyQuery | packages/pipelines/src/search.ts:15-22 | the empty query lets every chunk through the filter and scores each 0 |
| Search.HigherOrder | packages/pipelines/src/search.ts:24 | "higher score first" is a strict total order on scores |
| Search.Matching | packages/pipelines/src/search.ts:9-14 | the scan keeps exactly the chunk rows whose text matches the pattern |
| Search.SearchChunks | packages/pipelines/src/search.ts:8-25 | candidates scored, sorted by score and sliced to `limit`; its properties are stated by `Search.SearchCounts`, `Search.SearchResultsScored`, `Search.SearchRanked`, `Search.SearchTopScores` and `Search.SearchStable` |
| Search.SearchCounts | packages/pipelines/src/search.ts:13-24 | at most `5 × limit` candidates are fetched and `min(limit, candidates)` results are returned |
| Search.SearchDefaultLimit | packages/pipelines/src/search.ts:8 | with the default limit of 20, at most 100 candidates are fetched and at most 20 results returned |
| Search.CandidatesAreMatches | packages/pipelines/src/search.ts:9-15 | every candidate is a stored chunk passing `LIKE`; when the limit does not cut, every such chunk is a candidate |
| Search.SearchResultsScored | packages/pipelines/src/search.ts:20-23 | each result is a candidate's id, item id and text, unchanged, with the score `countOccurrences(text, query)` |
| Search.SearchRanked | packages/pipelines/src/search.ts:24 | results are in non-increasing score order |
| Search.SearchTopScores | packages/pipelines/src/search.ts:24 | the results are a sub-multiset of the scored candidates, and no left-out candidate scores higher than any result |
| Search.SearchStable | packages/pipelines/src/search.ts:24 | among equal scores, the results are the first candidates of that score, in candidate order |
| Search.ExplainChunk | packages/pipelines/src/search.ts:36-50 | the chunk joined with its item, or nothing; its properties are stated by `Search.JoinItemsWithKey` and `Search.ExplainLookup` |
| Search.JoinItemsWithKey | packages/pipelines/src/search.ts:45 | the inner join pairs a chunk with exactly the item rows whose `id` is its `item_id` |
| Search.ExplainLookup | packages/pipelines/src/search.ts:36-50 | `explainChunk` is absent when no chunk has the id or its item row is missing; otherwise it is the chunk's id, item id and text with the item's title, timestamp and metadata |
| Chunker.Step | packages/pipelines/src/chunk.ts:15 | `step` is at least 200 and at least `maxLength - overlap` |
| Chunker.NextStart | packages/pipelines/src/chunk.ts:34 | the next cursor is at least 200 past the current one and at least `end - overlap` |
| Chunker.WindowEnd | packages/pipelines/src/chunk.ts:19-26 | a window ends within `[start, min(start + maxLength, len)]`, and a shortened window keeps more than 200 characters |
| Chunker.WindowEndCut | packages/pipelines/src/chunk.ts:20-25 | a window is shortened if and only if it does not reach the end of the text and its last `'\n'` lies more than 200 in; it then ends at that newline, with no later `'\n'` in the window |
| Chunker.Windows | packages/pipelines/src/chunk.ts:18-35 | the cursors the loop visits: the first at `start` with its window, all inside the text |
| Chunker.KeptWindowsStep | packages/pipelines/src/chunk.ts:28-34 | one iteration: the window's chunk (if its trimmed slice is not empty), then stop at the end of the text or go on from the next cursor |
| Chunker.Chunks | packages/pipelines/src/chunk.ts:7-38 | the chunks of a text, as the kept windows; its properties are stated by `Chunker.ChunkText`, `Chunker.ChunksWellFormed`, `Chunker.ChunksOrdered`, `Chunker.LastWindowReachesEnd` and `Chunker.ThreeChunks` |
| Chunker.ChunkText | packages/pipelines/src/chunk.ts:7-38 | the loop returns `Chunks(text, maxLength, overlap)`, and nothing for blank text |
| Chunker.WindowsFollowWindowEnd | packages/pipelines/src/chunk.ts:19-25 | every window ends where the cut rule puts it |
| Chunker.WindowsAdvance | packages/pipelines/src/chunk.ts:34 | each later window starts at least 200 after an earlier one and no earlier than that one's end minus `overlap` |
| Chunker.LastWindowReachesEnd | packages/pipelines/src/chunk.ts:18-35 | with `maxLength ≥ 200` and `overlap ≥ 0`, the last window ends at the end of the text |
| Chunker.ThreeWindows | packages/pipelines/src/chunk.ts:18-35 | 3000 characters without newlines give the windows [0,1200), [1050,2250), [2100,3000) |
| Chunker.ThreeWholeWindows | packages/pipelines/src/chunk.ts:28-31 | if the text also has no whitespace, those three windows are each kept whole |
| Chunker.ThreeChunks | packages/pipelines/src/chunk.ts:7-38 | such a text gives exactly those three chunks |
| Chunker.PushedWhole | packages/pipelines/src/chunk.ts:28-31 | a window of a text without whitespace becomes one chunk holding its whole slice |
| Chunker.ChunksWellFormed | packages/pipelines/src/chunk.ts:19-31 | every chunk has `0 ≤ start < end ≤ len`, `end - start ≤ maxLength`, its window's end, and text equal to the non-empty trim of its slice |
| Chunker.ChunksOrdered | packages/pipelines/src/chunk.ts:34 | chunk starts strictly increase, and each start is at least every earlier chunk's end minus `overlap` |
| IngestText.ChunkRows | packages/pipelines/src/ingest-text.ts:44-59 | one chunk row per chunk |
| IngestText.PutChunks | packages/pipelines/src/ingest-text.ts:44-59 | the `forEach` upserts the rows of all chunks in order; a throwing write at chunk `i` stops it with rows `0..i-1` written |
| IngestText.IngestText | packages/pipelines/src/ingest-text.ts:4-65 | without a failing write it succeeds and the store is `Ingested(old, params)`; when any write throws nothing is changed |
| IngestText.ChunkIdShape | packages/pipelines/src/ingest-text.ts:47 | a chunk id is the item id, `":chunk:"` and the decimal index |
| IngestText.ChunkIdInjective | packages/pipelines/src/ingest-text.ts:47 | equal chunk ids mean the same item id and the same index |
| IngestText.ChunkKeysDistinct | packages/pipelines/src/ingest-text.ts:44-48 | the chunk rows of one call have distinct keys |
| IngestText.KeysOfChunkRows | packages/pipelines/src/ingest-text.ts:44-48 | every key written is `${id}:chunk:${i}` for an index below the chunk count |
| IngestText.Ingested | packages/pipelines/src/ingest-text.ts:4-65 | the store after a completed ingestion; its properties are stated by `IngestText.IngestedItem`, `IngestText.IngestedChunks`, `IngestText.IngestedKeepsOtherChunks`, `IngestText.IngestedKeepsStaleChunks`, `IngestText.IngestedValid`, `IngestText.IngestTwice` and `IngestText.ExplainAfterIngest` |
| IngestText.TextWritesBind | packages/pipelines/src/ingest-text.ts:16-58 | the item object and each chunk object have a key for every named parameter of their insert |
| IngestText.IngestedItem | packages/pipelines/src/ingest-text.ts:16-42 | the item row under `id` copies source, title, author, timestamp and content, has metadata (default `{}`) and permissions `[]`; other items are untouched |
| IngestText.IngestedChunks | packages/pipelines/src/ingest-text.ts:44-58 | chunk `i` of `chunkText(content)` is stored under `${id}:chunk:${i}` with the item id, its text, start and end, and citations `[]` |
| IngestText.IngestedKeepsOtherChunks | packages/pipelines/src/ingest-text.ts:44-59 | keys that are not this call's chunk ids are untouched |
| IngestText.IngestedKeepsStaleChunks | packages/pipelines/src/ingest-text.ts:44-59 | a chunk row of the same item with an index at or beyond the new chunk count stays as it was |
| IngestText.IngestedValid | packages/pipelines/src/ingest-text.ts:37-62 | ingestion keeps both tables consistent |
| IngestText.IngestTwice | packages/pipelines/src/ingest-text.ts:26-62 | ingesting the same record twice leaves the store as ingesting it once |
| IngestText.ExplainAfterIngest | packages/pipelines/src/ingest-text.ts:44-59 | after ingestion every chunk explains to its own text joined with the new item's title, timestamp and metadata |
| IngestFile.Basename | packages/pipelines/src/ingest.ts:9 | POSIX `basename`: the path after its last `/`, trailing slashes ignored; used through `IngestFile.Extname` |
| IngestFile.Extname | packages/pipelines/src/ingest.ts:9 | POSIX `extname`; its properties are stated by `IngestFile.ExtnameOfName`, `IngestFile.SupportedByExtension`, `IngestFile.UpperCaseAccepted`, `IngestFile.OtherExtensionRejected` and `IngestFile.DotFileRejected` |
| IngestFile.ExtnameOfName | packages/pipelines/src/ingest.ts:9 | a name ending in `.ext` (no `.` or `/` inside `ext`, non-empty stem) has extension `.ext` |
| IngestFile.SupportedByExtension | packages/pipelines/src/ingest.ts:9-12 | such a name passes the guard if and only if its lower-cased extension is `.txt` or `.md` |
| IngestFile.UpperCaseAccepted | packages/pipelines/src/ingest.ts:9-12 | `name.MD` passes the guard |
| IngestFile.OtherExtensionRejected | packages/pipelines/src/ingest.ts:9-12 | `name.pdf` does not |
| IngestFile.DotFileRejected | packages/pipelines/src/ingest.ts:9-12 | the dot-file `dir/.md` has no extension and is rejected |
| IngestFile.FileItemMissesAuthor | packages/pipelines/src/ingest.ts:16-34 | the item object of `ingestFile` has a key for every parameter of the item insert except `author` |
| IngestFile.IngestFileAsWritten | packages/pipelines/src/ingest.ts:8-58 | with named-parameter binding, an item object missing a parameter makes the item insert throw with nothing written; with the code's item object every supported file ends that way |
| IngestFile.IngestFile | packages/pipelines/src/ingest.ts:8-58 | an unsupported extension returns `unsupported_extension` with nothing read or written; a failing read or item write throws with nothing changed; a failing chunk write throws leaving the item row; otherwise it returns ok with both rows written |
| IngestFile.FileIngested | packages/pipelines/src/ingest.ts:14-58 | the store after a completed file ingestion; its properties are stated by `IngestFile.FileIngestedItem`, `IngestFile.FileIngestedChunk`, `IngestFile.FileIngestedValid`, `IngestFile.FileIngestTwice` and `IngestFile.ExplainAfterFileIngest` |
| IngestFile.FileIngestedItem | packages/pipelines/src/ingest.ts:16-23 | the item row is `files:<path>`, source `files`, the basename as title, no author, the mtime, the content and metadata `{path, size}`; other items are untouched |
| IngestFile.FileIngestedChunk | packages/pipelines/src/ingest.ts:25-30 | the one chunk row is `files:<path>:chunk:0` with the untrimmed first `min(4000, len)` characters and span `[0, min(4000, len))`; other chunks are untouched |
| IngestFile.FileIngestedValid | packages/pipelines/src/ingest.ts:42-55 | both writes keep the tables consistent |
| IngestFile.FileIngestTwice | packages/pipelines/src/ingest.ts:42-55 | ingesting an unchanged file again changes nothing |
| IngestFile.ExplainAfterFileIngest | packages/pipelines/src/ingest.ts:16-30 | the stored chunk explains to its text joined with the file's item |
| Browse.NewerOrder | packages/pipelines/src/browse.ts:19 | `ORDER BY timestamp DESC` (NULL lowest) is a strict total order |
| Browse.ListItems | packages/pipelines/src/browse.ts:15-23 | the items sorted newest first, projected to their summary and cut to `limit`; its properties are stated by `Browse.ListItemsCount`, `Browse.ListItemsFromTable`, `Browse.ListItemsComplete` and `Browse.ListItemsNewestFirst` |
| Browse.ListItemsCount | packages/pipelines/src/browse.ts:15-22 | `listItems` returns `min(limit, items)` rows, or all when `limit` is negative |
| Browse.ListItemsFromTable | packages/pipelines/src/browse.ts:17-18 | every listed row is the (id, source, title, timestamp) of a stored item |
| Browse.ListItemsComplete | packages/pipelines/src/browse.ts:15-22 | when the limit does not cut, every stored item is listed |
| Browse.ListItemsNewestFirst | packages/pipelines/src/browse.ts:19 | timestamps never increase down the list, and items without one come last; the listed rows are a sub-multiset of the stored items' summaries, and no summary left out by `LIMIT` is newer than a listed one |
| Browse.EarlierOrder | packages/pipelines/src/browse.ts:30 | `ORDER BY start ASC` (NULL lowest) is a strict total order |
| Browse.ListChunks | packages/pipelines/src/browse.ts:25-34 | the item's chunks sorted by start, projected to their summary and cut to `limit`; its properties are stated by `Browse.ListChunksOfItem`, `Browse.ListChunksComplete`, `Browse.ListChunksCount` and `Browse.ListChunksInTextOrder` |
| Browse.ListChunksOfItem | packages/pipelines/src/browse.ts:27-29 | every listed chunk is the summary of a stored chunk of that item |
| Browse.ListChunksComplete | packages/pipelines/src/browse.ts:25-33 | when the limit does not cut, every stored chunk of the item is listed |
| Browse.ListChunksCount | packages/pipelines/src/browse.ts:25-33 | `listChunks` returns `min(limit, chunks of the item)` rows, or all when `limit` is negative |
| Browse.ListChunksInTextOrder | packages/pipelines/src/browse.ts:30 | start offsets never decrease down the list, and chunks without a start come first; the listed rows are a sub-multiset of the item's chunk summaries, and no summary left out by `LIMIT` starts before a listed one, so a cut list holds the lowest starts, each as often as stored |
| Browse.DefaultBrowseLimits | packages/pipelines/src/browse.ts:15-34 | with the default limit of 50, each list has at most 50 rows |

## Left out

- Strings.ToLowerAt: only ASCII letters are lower-cased; full Unicode case mapping (including length-changing mappings) is not modelled. The same holds for SQLite `LIKE`, which folds ASCII only.
- Strings are sequences of Unicode characters. JavaScript indexes UTF-16 code units, so offsets differ for characters outside the Basic Multilingual Plane.
- Chunker.ChunkText: `maxLength` is a natural number. A negative `maxLength` would reach JavaScript's negative `slice` indices and is not modelled.
- Chunk coverage is not claimed and does not hold in general. When a window is cut at a newline, the characters between its end and `start + step` are in no chunk.
- `JSON.stringify` is not modelled. The metadata, permissions and citations columns hold a JSON value (null, boolean, number as a real, string, array or object), not its text. `NaN`, `Infinity`, `undefined` fields and values that are not plain JSON (dates, functions) are not represented.
- `statSync` and `readFileSync` become the `file` parameter of `IngestFile.IngestFile`: `None` stands for either call throwing. The mtime is the ISO string as given, and `size` is taken as reported.
- `basename` and `extname` follow the POSIX rules only. Windows path separators and drive letters are not modelled.
- Ties in `ORDER BY` and the order of `LIKE` candidates follow the table's rowid scan order. SQLite does not promise this order, but it is what a full scan without an index gives.
- Storage failures (disk, constraint, corruption) are the `fault` parameter naming the write that throws. Concurrency between callers and isolation of transactions are not modelled.
- An absent author or timestamp in `ingestText` is stored as NULL (`None`); the corrected `IngestFile.IngestFile` stores its item with author NULL as well. An absent span cannot occur, because every chunk has one.
- `limit` is an unbounded integer. Numbers that are not integers and JavaScript's floating-point `limit * 5` are not modelled.
- The HTTP gateway's empty-query check, and its counting of indexed and skipped files, live outside this model.
- The foreign key from `chunks.item_id` to `items.id` is not checked by the model. Enforcing it changes no modelled result: every writer inserts the item before its chunks, and `INSERT OR REPLACE` of an item deletes and re-inserts the same key within one statement.
- Search.ScoredPassesFilter: holds for ASCII text only. JavaScript's `toLowerCase` maps all of Unicode while SQLite `LIKE` folds ASCII only, so a chunk can score above 0 yet fail the filter (text `"É"`, query `"é"`); the model's lower-casing is ASCII-only, where the lemma holds.
- Named-parameter binding is modelled by key sets (`Store.Binds`); the values bound, and `undefined` becoming NULL, are part of each row's definition.

## Findings

| source | as written | input that shows it | evidently intended | confidence | as-written member | corrected member |
|---|---|---|---|---|---|---|
| packages/pipelines/src/ingest.ts:16-46 | the item object has no `author` key, but the item insert binds `@author`; better-sqlite3 throws on a missing named parameter, so the insert throws | any path ending in `.txt` or `.md` whose file can be read | the item row written with author NULL, then the chunk row | not executed | IngestFile.IngestFileAsWritten | IngestFile.IngestFile |
