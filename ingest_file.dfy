/** `ingestFile`: a `.txt` or `.md` file becomes one item row and one chunk row
    holding the first 4000 characters, written one after the other without a
    transaction. The POSIX `basename`/`extname` rules are modelled here. */
module IngestFile {
  import opened Strings
  import opened Store
  import opened IngestText
  import opened Search

  // ---- POSIX path rules ----

  /** The path without its trailing `/` characters. */
  function StripTrailingSlashes(path: string): (r: string)
    ensures |r| <= |path|
  {
    if path != [] && path[|path| - 1] == '/' then StripTrailingSlashes(path[..|path| - 1]) else path
  }

  /** `basename(path)`: the last path component, trailing slashes ignored. */
  function Basename(path: string): string {
    var q := StripTrailingSlashes(path);
    q[LastIndexOf(q, "/") + 1..]
  }

  /** `extname(path)`: the basename from its last `.` on; empty when the
      basename has no `.`, when its only leading `.` is that last one, or when
      it is `..`. */
  function Extname(path: string): string {
    var b := Basename(path);
    var dot := LastIndexOf(b, ".");
    if dot <= 0 || b == ".." then "" else b[dot..]
  }

  const SupportedExtensions: set<string> := {".txt", ".md"}

  /** The guard: the lower-cased extension is `.txt` or `.md`. */
  predicate SupportedExtension(path: string) {
    ToLower(Extname(path)) in SupportedExtensions
  }

  /** A one-character needle matches exactly where that character is. */
  lemma MatchOne(h: string, c: char, j: int)
    ensures MatchAt(h, [c], j) <==> 0 <= j < |h| && h[j] == c
  {
    if 0 <= j < |h| {
      assert h[j..j + 1] == [h[j]];
    }
  }

  /** With no `c` at or after `bound`, the last `c` lies before `bound`. */
  lemma LastCharBefore(h: string, c: char, bound: int)
    requires 0 <= bound && forall j :: bound <= j < |h| ==> h[j] != c
    ensures LastIndexOf(h, [c]) < bound
  {
    var r := LastIndexOf(h, [c]);
    LastIndexOfLast(h, [c]);
    MatchOne(h, c, r);
  }

  /** A `c` at `pos` with none after it is the last `c`. */
  lemma LastCharAt(h: string, c: char, pos: int)
    requires 0 <= pos < |h| && h[pos] == c
    requires forall j :: pos < j < |h| ==> h[j] != c
    ensures LastIndexOf(h, [c]) == pos
  {
    var r := LastIndexOf(h, [c]);
    LastIndexOfLast(h, [c]);
    MatchOne(h, c, r);
    MatchOne(h, c, pos);
  }

  /** A name ending in `ext` (a `.` followed by at least one character, none of
      them `.` or `/`), after a non-empty stem that does not end in `/`, has
      extension `ext`. */
  lemma ExtnameOfName(stem: string, ext: string)
    requires stem != [] && stem[|stem| - 1] != '/'
    requires |ext| >= 2 && ext[0] == '.'
    requires forall i :: 1 <= i < |ext| ==> ext[i] != '.' && ext[i] != '/'
    ensures Extname(stem + ext) == ext
  {
    var p := stem + ext;
    assert p[|p| - 1] == ext[|ext| - 1];
    assert StripTrailingSlashes(p) == p;
    forall j | |stem| - 1 <= j < |p| ensures p[j] != '/' {
      if j == |stem| - 1 {
        assert p[j] == stem[j];
      } else {
        assert p[j] == ext[j - |stem|];
      }
    }
    LastCharBefore(p, '/', |stem| - 1);
    var slash := LastIndexOf(p, "/");
    var b := p[slash + 1..];
    assert b == Basename(p);
    var m := |b| - |ext|;
    assert b[m..] == ext;
    forall j | m < j < |b| ensures b[j] != '.' {
      assert b[j] == ext[j - m];
    }
    assert b[m] == '.';
    LastCharAt(b, '.', m);
    assert |b| >= 3;
  }

  /** The guard is decided by the name's extension alone, case-insensitively. */
  lemma SupportedByExtension(stem: string, ext: string)
    requires stem != [] && stem[|stem| - 1] != '/'
    requires |ext| >= 2 && ext[0] == '.'
    requires forall i :: 1 <= i < |ext| ==> ext[i] != '.' && ext[i] != '/'
    ensures SupportedExtension(stem + ext) <==> ToLower(ext) in SupportedExtensions
  {
    ExtnameOfName(stem, ext);
  }

  /** `notes.MD` passes the guard. */
  lemma UpperCaseAccepted(stem: string)
    requires stem != [] && stem[|stem| - 1] != '/'
    ensures SupportedExtension(stem + ".MD")
  {
    SupportedByExtension(stem, ".MD");
    assert ToLower(".MD") == ".md";
  }

  /** `notes.pdf` does not. */
  lemma OtherExtensionRejected(stem: string)
    requires stem != [] && stem[|stem| - 1] != '/'
    ensures !SupportedExtension(stem + ".pdf")
  {
    SupportedByExtension(stem, ".pdf");
    assert ToLower(".pdf") == ".pdf";
  }

  /** A dot-file such as `.md` has no extension, so it is rejected. */
  lemma DotFileRejected(dir: string)
    ensures !SupportedExtension(dir + "/.md")
  {
    var p := dir + "/.md";
    assert StripTrailingSlashes(p) == p;
    LastIndexOfLast(p, "/");
    var slash := LastIndexOf(p, "/");
    MatchOne(p, '/', slash);
    MatchOne(p, '/', |dir|);
    assert slash == |dir|;
    var b := Basename(p);
    assert b == ".md";
  }

  // ---- the rows ----

  /** What `statSync` and `readFileSync` report: the text, its size in bytes and
      the modification time as an ISO string. */
  datatype FileInfo = FileInfo(content: string, size: nat, mtime: string)

  /** At most this many characters of a file are stored as its chunk. */
  const FileChunkLength := 4000

  function FileItemId(path: string): string { "files:" + path }

  /** The item row of a file. */
  function FileItem(path: string, f: FileInfo): ItemRow {
    ItemRow(FileItemId(path), Files, Basename(path), None, Some(f.mtime), f.content,
            JObj([("path", JStr(path)), ("size", JNum(f.size as real))]), JArr([]))
  }

  /** Its single chunk row: the first 4000 characters, untrimmed, as chunk 0. */
  function FileChunk(path: string, f: FileInfo): ChunkRow {
    var n := Min(FileChunkLength, |f.content|);
    ChunkRow(ChunkId(FileItemId(path), 0), FileItemId(path), f.content[..n], Some(0), Some(n), JArr([]))
  }

  /** The database after `ingestFile` has written both rows. */
  function FileIngested(db: Db, path: string, f: FileInfo): Db {
    PutChunkRow(PutItemRow(db, FileItem(path, f)), FileChunk(path, f))
  }

  datatype FileResult = Ok | UnsupportedExtension | Threw

  /** `ingestFile(db, filePath)`. `file == None` stands for `statSync` or
      `readFileSync` throwing; `fault` names a write that throws (`Some(0)` the
      item row, `Some(1)` the chunk row). An exception propagates (`Threw`), and
      as there is no transaction a failed chunk write leaves the item row. */
  method IngestFile(store: Store, path: string, file: Option<FileInfo>, fault: Option<nat>) returns (r: FileResult)
    requires store.Valid()
    modifies store
    ensures store.Valid()
    ensures !SupportedExtension(path) ==> r == UnsupportedExtension && store.State() == old(store.State())
    ensures SupportedExtension(path) && (file.None? || fault == Some(0)) ==>
              r == Threw && store.State() == old(store.State())
    ensures SupportedExtension(path) && file.Some? && fault == Some(1) ==>
              r == Threw && store.State() == PutItemRow(old(store.State()), FileItem(path, file.value))
    ensures SupportedExtension(path) && file.Some? && fault != Some(0) && fault != Some(1) ==>
              r == Ok && store.State() == FileIngested(old(store.State()), path, file.value)
  {
    var ext := ToLower(Extname(path));
    if ext !in SupportedExtensions {
      return UnsupportedExtension;
    }
    if file.None? {
      return Threw;
    }
    var f := file.value;
    var item := ItemRow(FileItemId(path), Files, Basename(path), None, Some(f.mtime), f.content,
                        JObj([("path", JStr(path)), ("size", JNum(f.size as real))]), JArr([]));
    var end := Min(FileChunkLength, |f.content|);
    var chunk := ChunkRow(ChunkId(item.id, 0), item.id, f.content[..end], Some(0), Some(end), JArr([]));
    if fault == Some(0) {
      return Threw;
    }
    store.PutItem(item);
    if fault == Some(1) {
      return Threw;
    }
    store.PutChunk(chunk);
    r := Ok;
  }

  // ---- the item insert as written ----

  /** The keys of the object passed to the item insert: the item of
      ingest.ts:16-23, which has no `author` key, spread, plus `metadata` and
      `permissions`. */
  const FileItemKeys: set<string> := {"id", "source", "title", "timestamp", "content", "metadata", "permissions"}

  /** The item insert of `ingestFile` misses exactly the `author` parameter. */
  lemma FileItemMissesAuthor()
    ensures ItemParameters - FileItemKeys == {"author"}
    ensures !Binds(ItemParameters, FileItemKeys)
  {
    assert "author" in ItemParameters - FileItemKeys;
  }

  /** `ingestFile` with named-parameter binding: `itemKeys` are the keys of the
      object given to the item insert. When they miss a parameter the insert
      throws, after the file was read and before anything is written; otherwise
      this is `IngestFile`. The code passes `FileItemKeys`, so every supported
      file ends in `Threw` with the store unchanged. */
  method IngestFileAsWritten(store: Store, path: string, file: Option<FileInfo>, itemKeys: set<string>,
                             fault: Option<nat>) returns (r: FileResult)
    requires store.Valid()
    modifies store
    ensures store.Valid()
    ensures !SupportedExtension(path) ==> r == UnsupportedExtension && store.State() == old(store.State())
    ensures SupportedExtension(path) && !Binds(ItemParameters, itemKeys) ==>
              r == Threw && store.State() == old(store.State())
    ensures SupportedExtension(path) && Binds(ItemParameters, itemKeys) && file.Some? && fault == None ==>
              r == Ok && store.State() == FileIngested(old(store.State()), path, file.value)
    ensures itemKeys == FileItemKeys && SupportedExtension(path) ==>
              r == Threw && store.State() == old(store.State())
  {
    FileItemMissesAuthor();
    var ext := ToLower(Extname(path));
    if ext !in SupportedExtensions {
      return UnsupportedExtension;
    }
    if file.None? || !Binds(ItemParameters, itemKeys) {
      return Threw;
    }
    r := IngestFile(store, path, file, fault);
  }

  // ---- what a completed file ingestion stores ----

  /** The item row: id `files:<path>`, source `files`, the basename as title, no
      author, the modification time, the whole content, metadata `{path, size}`
      and no permissions. Other items are untouched. */
  lemma FileIngestedItem(db: Db, path: string, f: FileInfo)
    ensures var after := FileIngested(db, path, f).items.rows;
            var id := "files:" + path;
            && id in after
            && after[id] == ItemRow(id, Files, Basename(path), None, Some(f.mtime), f.content,
                                    JObj([("path", JStr(path)), ("size", JNum(f.size as real))]), JArr([]))
    ensures forall k :: k != "files:" + path ==>
              (k in FileIngested(db, path, f).items.rows <==> k in db.items.rows) &&
              (k in db.items.rows ==> FileIngested(db, path, f).items.rows[k] == db.items.rows[k])
  {
  }

  /** The one chunk row: id `files:<path>:chunk:0`, the first `min(4000, length)`
      characters, untrimmed, and the span `[0, min(4000, length))`. Other chunks
      are untouched. */
  lemma FileIngestedChunk(db: Db, path: string, f: FileInfo)
    ensures var after := FileIngested(db, path, f).chunks.rows;
            var id := "files:" + path + ":chunk:0";
            var n := Min(4000, |f.content|);
            && id in after
            && after[id].itemId == "files:" + path
            && |after[id].text| == n && after[id].text == f.content[..n]
            && after[id].start == Some(0) && after[id].end == Some(n)
            && after[id].citations == JArr([])
    ensures forall k :: k != "files:" + path + ":chunk:0" ==>
              (k in FileIngested(db, path, f).chunks.rows <==> k in db.chunks.rows) &&
              (k in db.chunks.rows ==> FileIngested(db, path, f).chunks.rows[k] == db.chunks.rows[k])
  {
    assert NatToString(0) == "0";
    assert ChunkId(FileItemId(path), 0) == "files:" + path + ":chunk:0";
  }

  /** A consistent database stays consistent. */
  lemma FileIngestedValid(db: Db, path: string, f: FileInfo)
    requires DbValid(db)
    ensures DbValid(FileIngested(db, path, f))
  {
    var item := FileItem(path, f);
    var chunk := FileChunk(path, f);
    UpsertValid(db.items, item.id, item, ItemKey);
    UpsertValid(db.chunks, chunk.chunkId, chunk, ChunkKey);
  }

  /** Ingesting an unchanged file again leaves the database as it was after the first time. */
  lemma FileIngestTwice(db: Db, path: string, f: FileInfo)
    ensures FileIngested(FileIngested(db, path, f), path, f) == FileIngested(db, path, f)
  {
    var item := FileItem(path, f);
    var chunk := FileChunk(path, f);
    UpsertTwice(db.items, item.id, item);
    UpsertTwice(db.chunks, chunk.chunkId, chunk);
  }

  /** The stored chunk explains to its text joined with the file's item. */
  lemma ExplainAfterFileIngest(db: Db, path: string, f: FileInfo)
    requires DbValid(db)
    ensures var id := ChunkId(FileItemId(path), 0);
            var n := Min(FileChunkLength, |f.content|);
            ExplainChunk(FileIngested(db, path, f), id) ==
              Some(ExplainResult(id, FileItemId(path), f.content[..n], Basename(path), Some(f.mtime),
                                 JObj([("path", JStr(path)), ("size", JNum(f.size as real))])))
  {
    FileIngestedValid(db, path, f);
    ExplainLookup(FileIngested(db, path, f), ChunkId(FileItemId(path), 0));
  }
}
