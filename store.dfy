/** The two SQLite tables of the pipeline (`items`, `chunks`) and the effect
    of `INSERT OR REPLACE` on them. A table is a map from primary key to row
    plus the keys in rowid order, which is the order a full scan returns rows in.
    Replacing a row deletes it and inserts it again under a fresh rowid, so its
    key moves to the end of that order. */
module Store {
  import opened Strings

  datatype Source = Slack | Drive | Notion | Files

  /** A value handed to `JSON.stringify`; the column stores its serialisation,
      which the model keeps as the value itself. */
  datatype Json = JNull | JBool(b: bool) | JNum(n: real) | JStr(s: string) | JArr(elems: seq<Json>) | JObj(fields: seq<(string, Json)>)

  /** A row of `items`; `author` and `timestamp` are the nullable columns. */
  datatype ItemRow = ItemRow(
    id: string, source: Source, title: string, author: Option<string>,
    timestamp: Option<string>, content: string, metadata: Json, permissions: Json)

  /** A row of `chunks`; `start` and `end` are nullable INTEGER columns. */
  datatype ChunkRow = ChunkRow(
    chunkId: string, itemId: string, text: string, start: Option<int>, end: Option<int>, citations: Json)

  function ItemKey(r: ItemRow): string { r.id }
  function ChunkKey(r: ChunkRow): string { r.chunkId }

  datatype Table<R> = Table(rows: map<string, R>, order: seq<string>)

  predicate Distinct(s: seq<string>) {
    forall i, j :: 0 <= i < j < |s| ==> s[i] != s[j]
  }

  /** Every stored key appears exactly once in scan order, and nothing else does. */
  predicate Valid<R>(t: Table<R>) {
    && Distinct(t.order)
    && (forall k :: k in t.rows ==> k in t.order)
    && (forall k :: k in t.order ==> k in t.rows)
  }

  /** Each row is stored under its own primary key. */
  predicate Keyed<R>(t: Table<R>, key: R -> string) {
    forall k :: k in t.rows ==> key(t.rows[k]) == k
  }

  /** `s` without the keys in `ks`, order kept. */
  function Without(s: seq<string>, ks: set<string>): (r: seq<string>)
    ensures |r| <= |s|
  {
    if s == [] then [] else (if s[0] in ks then [] else [s[0]]) + Without(s[1..], ks)
  }

  /** `Without` keeps exactly the keys outside `ks`. */
  lemma {:induction false} WithoutMembers(s: seq<string>, ks: set<string>)
    ensures forall x :: x in Without(s, ks) <==> x in s && x !in ks
  {
    if s != [] {
      WithoutMembers(s[1..], ks);
      assert s == [s[0]] + s[1..];
    }
  }

  /** `INSERT OR REPLACE` of row `r` under key `k`. */
  function Upsert<R>(t: Table<R>, k: string, r: R): Table<R> {
    Table(t.rows[k := r], Without(t.order, {k}) + [k])
  }

  /** The rows in `rs` upserted one after the other. */
  function UpsertAll<R>(t: Table<R>, rs: seq<R>, key: R -> string): Table<R> {
    if rs == [] then t
    else
      var last := rs[|rs| - 1];
      Upsert(UpsertAll(t, rs[..|rs| - 1], key), key(last), last)
  }

  lemma UpsertAllSnoc<R>(t: Table<R>, rs: seq<R>, r: R, key: R -> string)
    ensures UpsertAll(t, rs + [r], key) == Upsert(UpsertAll(t, rs, key), key(r), r)
  {
    assert (rs + [r])[..|rs|] == rs;
  }

  function Keys<R>(rs: seq<R>, key: R -> string): (ks: seq<string>)
    ensures |ks| == |rs|
  {
    seq(|rs|, i requires 0 <= i < |rs| => key(rs[i]))
  }

  /** The stored rows of `rows`, in the order of `order`. */
  function RowsOf<R>(rows: map<string, R>, order: seq<string>): seq<R> {
    if order == [] then []
    else (if order[0] in rows then [rows[order[0]]] else []) + RowsOf(rows, order[1..])
  }

  /** A full table scan. */
  function Rows<R>(t: Table<R>): seq<R> {
    RowsOf(t.rows, t.order)
  }

  lemma {:induction false} WithoutAll(s: seq<string>, ks: set<string>)
    requires forall x :: x in s ==> x in ks
    ensures Without(s, ks) == []
  {
    if s != [] {
      WithoutAll(s[1..], ks);
    }
  }

  lemma AppendDistinct(a: seq<string>, b: seq<string>)
    requires Distinct(a) && Distinct(b)
    requires forall x :: x in a ==> x !in b
    ensures Distinct(a + b)
  {
    var c := a + b;
    forall i, j | 0 <= i < j < |c| ensures c[i] != c[j] {
      if j < |a| {
      } else if i < |a| {
        assert c[i] in a && c[j] == b[j - |a|];
      } else {
        assert c[i] == b[i - |a|] && c[j] == b[j - |a|];
      }
    }
  }

  lemma {:induction false} WithoutDistinct(s: seq<string>, ks: set<string>)
    requires Distinct(s)
    ensures Distinct(Without(s, ks))
  {
    if s != [] {
      var tail := s[1..];
      assert Distinct(tail) by {
        forall i, j | 0 <= i < j < |tail| ensures tail[i] != tail[j] {
          assert tail[i] == s[i + 1] && tail[j] == s[j + 1];
        }
      }
      WithoutDistinct(tail, ks);
      assert s[0] !in tail by {
        forall i | 0 <= i < |tail| ensures tail[i] != s[0] { assert tail[i] == s[i + 1]; }
      }
      WithoutMembers(tail, ks);
      var h := if s[0] in ks then [] else [s[0]];
      AppendDistinct(h, Without(tail, ks));
    }
  }

  lemma {:induction false} WithoutAppend(a: seq<string>, b: seq<string>, ks: set<string>)
    ensures Without(a + b, ks) == Without(a, ks) + Without(b, ks)
  {
    if a == [] {
      assert a + b == b;
    } else {
      var c := a + b;
      assert c[0] == a[0] && c[1..] == a[1..] + b;
      WithoutAppend(a[1..], b, ks);
      var h := if a[0] in ks then [] else [a[0]];
      assert Without(c, ks) == h + Without(c[1..], ks);
      assert Without(a, ks) == h + Without(a[1..], ks);
    }
  }

  lemma {:induction false} WithoutWithout(s: seq<string>, ks1: set<string>, ks2: set<string>)
    ensures Without(Without(s, ks1), ks2) == Without(s, ks1 + ks2)
  {
    if s != [] {
      WithoutWithout(s[1..], ks1, ks2);
      WithoutAppend(if s[0] in ks1 then [] else [s[0]], Without(s[1..], ks1), ks2);
    }
  }

  lemma {:induction false} WithoutNothing(s: seq<string>, ks: set<string>)
    requires forall x :: x in s ==> x !in ks
    ensures Without(s, ks) == s
  {
    if s != [] {
      WithoutNothing(s[1..], ks);
    }
  }

  /** Upserting keeps a table consistent: one scan entry per key, each row under its key. */
  lemma UpsertValid<R>(t: Table<R>, k: string, r: R, key: R -> string)
    requires Valid(t) && Keyed(t, key) && key(r) == k
    ensures Valid(Upsert(t, k, r)) && Keyed(Upsert(t, k, r), key)
  {
    WithoutDistinct(t.order, {k});
    WithoutMembers(t.order, {k});
    AppendDistinct(Without(t.order, {k}), [k]);
  }

  /** Upserting the same row twice is the same as upserting it once. */
  lemma UpsertTwice<R>(t: Table<R>, k: string, r: R)
    ensures Upsert(Upsert(t, k, r), k, r) == Upsert(t, k, r)
  {
    var o := Without(t.order, {k});
    WithoutAppend(o, [k], {k});
    WithoutWithout(t.order, {k}, {k});
    assert {k} + {k} == {k};
    assert Without([k], {k}) == [];
  }

  /** The keys of rows upserted together, as a set. */
  function KeySet<R>(rs: seq<R>, key: R -> string): set<string> {
    set x | x in Keys(rs, key)
  }

  lemma KeysInit<R>(rs: seq<R>, key: R -> string)
    requires rs != []
    ensures Keys(rs, key) == Keys(rs[..|rs| - 1], key) + [key(rs[|rs| - 1])]
    ensures KeySet(rs, key) == KeySet(rs[..|rs| - 1], key) + {key(rs[|rs| - 1])}
  {
    var ks := Keys(rs, key);
    assert ks == Keys(rs[..|rs| - 1], key) + [key(rs[|rs| - 1])];
    assert forall x :: x in ks <==> x in Keys(rs[..|rs| - 1], key) || x == key(rs[|rs| - 1]);
  }

  lemma DistinctInit(a: seq<string>, k: string)
    requires Distinct(a + [k])
    ensures Distinct(a) && k !in a
  {
    var c := a + [k];
    forall i, j | 0 <= i < j < |a| ensures a[i] != a[j] {
      assert a[i] == c[i] && a[j] == c[j];
    }
    forall i | 0 <= i < |a| ensures a[i] != k {
      assert a[i] == c[i] && c[|a|] == k;
    }
  }

  /** The scan order after upserting rows with distinct keys: the untouched keys
      keep their order and the upserted keys follow, in write order. */
  lemma {:induction false} UpsertAllOrder<R>(t: Table<R>, rs: seq<R>, key: R -> string)
    requires Distinct(Keys(rs, key))
    ensures UpsertAll(t, rs, key).order == Without(t.order, KeySet(rs, key)) + Keys(rs, key)
  {
    if rs == [] {
      WithoutNothing(t.order, KeySet(rs, key));
    } else {
      var n := |rs| - 1;
      var init := rs[..n];
      var k := key(rs[n]);
      var ks0 := Keys(init, key);
      KeysInit(rs, key);
      DistinctInit(ks0, k);
      UpsertAllOrder(t, init, key);
      var prefix := Without(t.order, KeySet(init, key));
      WithoutNothing(ks0, {k});
      WithoutAppend(prefix, ks0, {k});
      WithoutWithout(t.order, KeySet(init, key), {k});
    }
  }

  /** After upserting rows with distinct keys, each key holds its row, and every
      other key is exactly as before. */
  lemma {:induction false} UpsertAllRows<R>(t: Table<R>, rs: seq<R>, key: R -> string)
    requires Distinct(Keys(rs, key))
    ensures forall i :: 0 <= i < |rs| ==>
              key(rs[i]) in UpsertAll(t, rs, key).rows && UpsertAll(t, rs, key).rows[key(rs[i])] == rs[i]
    ensures forall x :: x !in Keys(rs, key) ==>
              (x in UpsertAll(t, rs, key).rows <==> x in t.rows) &&
              (x in t.rows ==> UpsertAll(t, rs, key).rows[x] == t.rows[x])
  {
    if rs != [] {
      var n := |rs| - 1;
      var init := rs[..n];
      var u := UpsertAll(t, rs, key);
      KeysInit(rs, key);
      DistinctInit(Keys(init, key), key(rs[n]));
      UpsertAllRows(t, init, key);
      forall i | 0 <= i < |rs| ensures key(rs[i]) in u.rows && u.rows[key(rs[i])] == rs[i] {
        if i < n {
          assert init[i] == rs[i] && Keys(init, key)[i] == key(rs[i]);
        }
      }
    }
  }

  /** Upserting rows with distinct keys keeps a table consistent. */
  lemma {:induction false} UpsertAllValid<R>(t: Table<R>, rs: seq<R>, key: R -> string)
    requires Valid(t) && Keyed(t, key)
    ensures Valid(UpsertAll(t, rs, key)) && Keyed(UpsertAll(t, rs, key), key)
  {
    if rs != [] {
      var n := |rs| - 1;
      UpsertAllValid(t, rs[..n], key);
      UpsertValid(UpsertAll(t, rs[..n], key), key(rs[n]), rs[n], key);
    }
  }

  lemma UpsertAllOrderTwice<R>(t: Table<R>, rs: seq<R>, key: R -> string)
    requires Distinct(Keys(rs, key))
    ensures UpsertAll(UpsertAll(t, rs, key), rs, key).order == UpsertAll(t, rs, key).order
  {
    var ks := KeySet(rs, key);
    var once := UpsertAll(t, rs, key);
    UpsertAllOrder(t, rs, key);
    UpsertAllOrder(once, rs, key);
    WithoutAppend(Without(t.order, ks), Keys(rs, key), ks);
    WithoutWithout(t.order, ks, ks);
    assert ks + ks == ks;
    WithoutAll(Keys(rs, key), ks);
  }

  lemma UpsertAllRowsTwice<R>(t: Table<R>, rs: seq<R>, key: R -> string)
    requires Distinct(Keys(rs, key))
    ensures UpsertAll(UpsertAll(t, rs, key), rs, key).rows == UpsertAll(t, rs, key).rows
  {
    var once := UpsertAll(t, rs, key);
    var twice := UpsertAll(once, rs, key);
    UpsertAllRows(t, rs, key);
    UpsertAllRows(once, rs, key);
    forall x | x in Keys(rs, key) ensures x in twice.rows && x in once.rows && twice.rows[x] == once.rows[x] {
      var i :| 0 <= i < |rs| && Keys(rs, key)[i] == x;
    }
    assert twice.rows.Keys == once.rows.Keys;
  }

  /** Writing the same rows again changes nothing, when their keys are distinct. */
  lemma UpsertAllTwice<R>(t: Table<R>, rs: seq<R>, key: R -> string)
    requires Distinct(Keys(rs, key))
    ensures UpsertAll(UpsertAll(t, rs, key), rs, key) == UpsertAll(t, rs, key)
  {
    UpsertAllOrderTwice(t, rs, key);
    UpsertAllRowsTwice(t, rs, key);
  }

  /** A scan of a consistent table returns each stored row once, in scan order. */
  lemma {:induction false} RowsOfShape<R>(rows: map<string, R>, order: seq<string>)
    requires forall k :: k in order ==> k in rows
    ensures |RowsOf(rows, order)| == |order|
    ensures forall i :: 0 <= i < |order| ==> RowsOf(rows, order)[i] == rows[order[i]]
  {
    if order != [] {
      RowsOfShape(rows, order[1..]);
    }
  }

  lemma {:induction false} DistinctCard(s: seq<string>)
    requires Distinct(s)
    ensures |set x | x in s| == |s|
  {
    if s != [] {
      var tail := s[1..];
      assert Distinct(tail) by {
        forall i, j | 0 <= i < j < |tail| ensures tail[i] != tail[j] {
          assert tail[i] == s[i + 1] && tail[j] == s[j + 1];
        }
      }
      DistinctCard(tail);
      assert s[0] !in tail by {
        forall i | 0 <= i < |tail| ensures tail[i] != s[0] { assert tail[i] == s[i + 1]; }
      }
      assert (set x | x in s) == (set x | x in tail) + {s[0]} by {
        assert s == [s[0]] + tail;
      }
    }
  }

  /** A full scan returns as many rows as the table holds, each one stored under its scan key. */
  lemma RowsCount<R>(t: Table<R>)
    requires Valid(t)
    ensures |Rows(t)| == |t.rows| == |t.order|
    ensures forall i :: 0 <= i < |t.order| ==> Rows(t)[i] == t.rows[t.order[i]]
  {
    RowsOfShape(t.rows, t.order);
    DistinctCard(t.order);
    assert t.rows.Keys == set x | x in t.order;
  }

  /** The rows of `rs` whose key is `k` (`WHERE <primary key> = k`), in scan order. */
  function WithKey<R>(rs: seq<R>, key: R -> string, k: string): seq<R> {
    if rs == [] then []
    else (if key(rs[0]) == k then [rs[0]] else []) + WithKey(rs[1..], key, k)
  }

  lemma {:induction false} WithKeyRowsOf<R>(rows: map<string, R>, order: seq<string>, key: R -> string, k: string)
    requires Distinct(order)
    requires forall x :: x in order ==> x in rows && key(rows[x]) == x
    ensures WithKey(RowsOf(rows, order), key, k) == if k in order then [rows[k]] else []
  {
    if order != [] {
      var tail := order[1..];
      assert Distinct(tail) by {
        forall i, j | 0 <= i < j < |tail| ensures tail[i] != tail[j] {
          assert tail[i] == order[i + 1] && tail[j] == order[j + 1];
        }
      }
      assert order[0] !in tail by {
        forall i | 0 <= i < |tail| ensures tail[i] != order[0] { assert tail[i] == order[i + 1]; }
      }
      WithKeyRowsOf(rows, tail, key, k);
      var r0 := rows[order[0]];
      assert RowsOf(rows, order) == [r0] + RowsOf(rows, tail);
      assert ([r0] + RowsOf(rows, tail))[1..] == RowsOf(rows, tail);
    }
  }

  /** Selecting a consistent table by its primary key finds at most the one row stored under it. */
  lemma WithKeyRows<R>(t: Table<R>, key: R -> string, k: string)
    requires Valid(t) && Keyed(t, key)
    ensures WithKey(Rows(t), key, k) == if k in t.rows then [t.rows[k]] else []
  {
    WithKeyRowsOf(t.rows, t.order, key, k);
  }

  /** `WithKey` keeps exactly the rows with key `k`. */
  lemma {:induction false} WithKeyMembers<R>(rs: seq<R>, key: R -> string, k: string)
    ensures |WithKey(rs, key, k)| <= |rs|
    ensures forall x :: x in WithKey(rs, key, k) <==> x in rs && key(x) == k
  {
    if rs != [] {
      WithKeyMembers(rs[1..], key, k);
      assert rs == [rs[0]] + rs[1..];
    }
  }

  /** A scan of a consistent table holds exactly the stored rows. */
  lemma RowsMembers<R>(t: Table<R>)
    requires Valid(t)
    ensures forall x :: x in Rows(t) <==> exists k :: k in t.rows && t.rows[k] == x
  {
    RowsCount(t);
    forall x | x in Rows(t) ensures exists k :: k in t.rows && t.rows[k] == x {
      var i :| 0 <= i < |Rows(t)| && Rows(t)[i] == x;
      assert t.rows[t.order[i]] == x;
    }
    forall k | k in t.rows ensures t.rows[k] in Rows(t) {
      var i :| 0 <= i < |t.order| && t.order[i] == k;
      assert Rows(t)[i] == t.rows[k];
    }
  }

  lemma DistinctTail(s: seq<string>)
    requires s != [] && Distinct(s)
    ensures Distinct(s[1..]) && s[0] !in s[1..]
  {
    var tail := s[1..];
    forall i, j | 0 <= i < j < |tail| ensures tail[i] != tail[j] {
      assert tail[i] == s[i + 1] && tail[j] == s[j + 1];
    }
    forall i | 0 <= i < |tail| ensures tail[i] != s[0] {
      assert tail[i] == s[i + 1];
    }
  }

  lemma {:induction false} WithKeyCountOf<R>(rows: map<string, R>, order: seq<string>, f: R -> string, v: string)
    requires Distinct(order)
    requires forall x :: x in order ==> x in rows
    ensures |WithKey(RowsOf(rows, order), f, v)| == |set k | k in order && f(rows[k]) == v|
  {
    if order != [] {
      var tail := order[1..];
      DistinctTail(order);
      WithKeyCountOf(rows, tail, f, v);
      var r0 := rows[order[0]];
      assert RowsOf(rows, order) == [r0] + RowsOf(rows, tail);
      assert ([r0] + RowsOf(rows, tail))[1..] == RowsOf(rows, tail);
      KeysWhereCons(rows, order, f, v);
    }
  }

  lemma KeysWhereCons<R>(rows: map<string, R>, order: seq<string>, f: R -> string, v: string)
    requires order != [] && order[0] !in order[1..]
    requires forall x :: x in order ==> x in rows
    ensures |set k | k in order && f(rows[k]) == v| ==
            |set k | k in order[1..] && f(rows[k]) == v| + (if f(rows[order[0]]) == v then 1 else 0)
  {
    var sTail := set k | k in order[1..] && f(rows[k]) == v;
    var sAll := set k | k in order && f(rows[k]) == v;
    assert forall k :: k in order <==> k == order[0] || k in order[1..];
    if f(rows[order[0]]) == v {
      assert sAll == sTail + {order[0]};
    } else {
      assert sAll == sTail;
    }
  }

  /** The keys whose rows hold `v` in column `f`. */
  function KeysWhere<R>(t: Table<R>, f: R -> string, v: string): set<string> {
    set k | k in t.rows && f(t.rows[k]) == v
  }

  /** Filtering a scan on a column returns one row per stored key whose row has
      that value in the column. */
  lemma WithKeyCount<R>(t: Table<R>, f: R -> string, v: string)
    requires Valid(t)
    ensures |WithKey(Rows(t), f, v)| == |KeysWhere(t, f, v)|
  {
    WithKeyCountOf(t.rows, t.order, f, v);
    assert (set k | k in t.order && f(t.rows[k]) == v) == (set k | k in t.rows && f(t.rows[k]) == v);
  }

  /** SQL `LIMIT n`; SQLite reads a negative limit as no limit. */
  function SqlLimit<T>(s: seq<T>, n: int): (r: seq<T>)
    ensures n < 0 ==> r == s
    ensures 0 <= n ==> |r| == Min(n, |s|) && r == s[..|r|]
  {
    if n < 0 then s else s[..Min(n, |s|)]
  }

  /** The whole database: the `items` and `chunks` tables. */
  datatype Db = Db(items: Table<ItemRow>, chunks: Table<ChunkRow>)

  predicate DbValid(db: Db) {
    Valid(db.items) && Keyed(db.items, ItemKey) && Valid(db.chunks) && Keyed(db.chunks, ChunkKey)
  }

  function EmptyDb(): Db {
    Db(Table(map[], []), Table(map[], []))
  }

  // ---- named parameters ----

  /** better-sqlite3 binds each `@name` of a statement from the key `name` of the
      object passed to `run`. A key holding `undefined` binds NULL; a name with no
      key at all makes `run` throw before anything is written. */
  predicate Binds(parameters: set<string>, keys: set<string>) {
    parameters <= keys
  }

  /** The named parameters of `INSERT OR REPLACE INTO items`. */
  const ItemParameters: set<string> :=
    {"id", "source", "title", "author", "timestamp", "content", "metadata", "permissions"}

  /** The named parameters of `INSERT OR REPLACE INTO chunks`. */
  const ChunkParameters: set<string> := {"chunkId", "itemId", "text", "start", "end", "citations"}

  function PutItemRow(db: Db, row: ItemRow): Db {
    db.(items := Upsert(db.items, row.id, row))
  }

  function PutChunkRow(db: Db, row: ChunkRow): Db {
    db.(chunks := Upsert(db.chunks, row.chunkId, row))
  }

  function PutChunkRows(db: Db, rs: seq<ChunkRow>): Db {
    db.(chunks := UpsertAll(db.chunks, rs, ChunkKey))
  }

  /** Writing one more row of `rs` upserts it into the chunks written so far. */
  lemma PutChunkRowsStep(db: Db, rs: seq<ChunkRow>, i: nat)
    requires i < |rs|
    ensures PutChunkRows(db, rs[..i + 1]) == PutChunkRow(PutChunkRows(db, rs[..i]), rs[i])
  {
    assert rs[..i + 1] == rs[..i] + [rs[i]];
    UpsertAllSnoc(db.chunks, rs[..i], rs[i], ChunkKey);
  }

  /** The open database: the pipeline changes it only through upserts and rollback. */
  class Store {
    var items: Table<ItemRow>
    var chunks: Table<ChunkRow>

    function State(): Db
      reads this
    {
      Db(items, chunks)
    }

    predicate Valid()
      reads this
    {
      DbValid(State())
    }

    /** A freshly created schema: both tables empty. */
    constructor ()
      ensures Valid() && State() == EmptyDb()
    {
      items := Table(map[], []);
      chunks := Table(map[], []);
    }

    /** `INSERT OR REPLACE INTO items`. */
    method PutItem(row: ItemRow)
      requires Valid()
      modifies this
      ensures Valid() && State() == PutItemRow(old(State()), row)
    {
      UpsertValid(items, row.id, row, ItemKey);
      items := Upsert(items, row.id, row);
    }

    /** `INSERT OR REPLACE INTO chunks`. */
    method PutChunk(row: ChunkRow)
      requires Valid()
      modifies this
      ensures Valid() && State() == PutChunkRow(old(State()), row)
    {
      UpsertValid(chunks, row.chunkId, row, ChunkKey);
      chunks := Upsert(chunks, row.chunkId, row);
    }

    /** Rollback of a transaction to the state saved when it began. */
    method Restore(saved: Db)
      requires DbValid(saved)
      modifies this
      ensures Valid() && State() == saved
    {
      items := saved.items;
      chunks := saved.chunks;
    }
  }
}
