/** Keyword search over the chunk table: the SQL `LIKE` pre-filter, the
    occurrence-count score, the stable ranking, and the chunk-to-item join. */
module Search {
  import opened Strings
  import opened Sorting
  import opened Store

  // ---- countOccurrences ----

  /** Matches of `t` in `h` found by repeated `indexOf` from `from`, the cursor
      moving past each match, so matches never overlap. */
  function CountFrom(h: string, t: string, from: nat): (n: nat)
    requires |t| > 0
    decreases |h| - from
  {
    var i := IndexOf(h, t, from);
    if i == -1 then 0 else 1 + CountFrom(h, t, i + |t|)
  }

  /** One `indexOf` call: a miss ends the count, a hit adds one and resumes after the match. */
  lemma CountFromStep(h: string, t: string, from: nat)
    requires |t| > 0
    ensures var i := IndexOf(h, t, from);
            && (i == -1 ==> CountFrom(h, t, from) == 0)
            && (i != -1 ==> from < i + |t| <= |h| && CountFrom(h, t, from) == 1 + CountFrom(h, t, i + |t|))
  {
  }

  lemma {:induction false} CountFromBound(h: string, t: string, from: nat)
    requires |t| > 0
    decreases |h| - from
    ensures CountFrom(h, t, from) > 0 ==> from + CountFrom(h, t, from) * |t| <= |h|
  {
    CountFromStep(h, t, from);
    var i := IndexOf(h, t, from);
    if i != -1 {
      CountFromBound(h, t, i + |t|);
      MulSucc(CountFrom(h, t, i + |t|), |t|);
    }
  }

  lemma MulSucc(n: nat, m: nat)
    ensures (1 + n) * m == m + n * m
  {
  }

  lemma NotBlankNonEmpty(s: string)
    requires !IsBlank(s)
    ensures |s| > 0
  {
  }

  /** The score of `text` for `needle`: 0 for a blank needle, otherwise the
      non-overlapping matches of the lower-cased needle in the lower-cased text. */
  function OccurrenceCount(text: string, needle: string): nat {
    if IsBlank(needle) then 0
    else
      NotBlankNonEmpty(needle);
      CountFrom(ToLower(text), ToLower(needle), 0)
  }

  /** `countOccurrences(text, needle)`. */
  method CountOccurrences(text: string, needle: string) returns (count: nat)
    ensures count == OccurrenceCount(text, needle)
  {
    if IsBlank(needle) {
      return 0;
    }
    NotBlankNonEmpty(needle);
    var haystack := ToLower(text);
    var target := ToLower(needle);
    count := 0;
    var index: int := 0;
    ghost var total := CountFrom(haystack, target, 0);
    while true
      invariant 0 <= index <= |haystack|
      invariant count + CountFrom(haystack, target, index) == total
      decreases |haystack| - index
    {
      CountFromStep(haystack, target, index);
      index := IndexOf(haystack, target, index);
      if index == -1 {
        break;
      }
      count := count + 1;
      index := index + |target|;
    }
  }

  /** The matches counted never add up to more characters than the text has. */
  lemma CountBound(text: string, needle: string)
    ensures OccurrenceCount(text, needle) * |needle| <= |text|
  {
    if !IsBlank(needle) {
      CountFromBound(ToLower(text), ToLower(needle), 0);
    }
  }

  lemma {:induction false} CountFromPositive(h: string, t: string, from: nat)
    requires |t| > 0
    ensures CountFrom(h, t, from) > 0 <==> exists j :: from <= j && MatchAt(h, t, j)
  {
    IndexOfFirst(h, t, from);
  }

  /** A text scores above zero exactly when the needle is not blank and occurs in
      it, ignoring ASCII case. */
  lemma CountPositiveIff(text: string, needle: string)
    ensures OccurrenceCount(text, needle) > 0 <==>
              !IsBlank(needle) && exists j :: MatchAt(ToLower(text), ToLower(needle), j)
  {
    if !IsBlank(needle) {
      var h, t := ToLower(text), ToLower(needle);
      CountFromPositive(h, t, 0);
      assert OccurrenceCount(text, needle) == CountFrom(h, t, 0);
      if CountFrom(h, t, 0) > 0 {
        var j :| 0 <= j && MatchAt(h, t, j);
        assert MatchAt(ToLower(text), ToLower(needle), j);
        assert exists j :: MatchAt(ToLower(text), ToLower(needle), j);
        assert OccurrenceCount(text, needle) > 0;
      } else {
        forall j ensures !MatchAt(ToLower(text), ToLower(needle), j) {
          assert !(0 <= j && MatchAt(h, t, j));
        }
      }
    }
  }

  /** Matches are counted without overlap: "aa" occurs twice in "aaaa". */
  lemma CountNonOverlapping()
    ensures OccurrenceCount("aaaa", "aa") == 2
  {
    assert !IsBlank("aa") by { TrimNoWhitespace("aa"); }
    assert ToLower("aa") == "aa";
    assert ToLower("aaaa") == "aaaa";
    assert CountFrom("aaaa", "aa", 2) == 1 by {
      assert IndexOf("aaaa", "aa", 2) == 2;
      assert CountFrom("aaaa", "aa", 4) == 0;
    }
    assert CountFrom("aaaa", "aa", 0) == 2 by {
      assert IndexOf("aaaa", "aa", 0) == 0;
    }
  }

  /** After a match the scan resumes past it: "aa" occurs once in "aaa". */
  lemma CountResumesAfterMatch()
    ensures OccurrenceCount("aaa", "aa") == 1
  {
    assert !IsBlank("aa") by { TrimNoWhitespace("aa"); }
    assert ToLower("aa") == "aa";
    assert ToLower("aaa") == "aaa";
    assert IndexOf("aaa", "aa", 2) == -1;
    assert IndexOf("aaa", "aa", 0) == 0;
  }

  lemma LowerCharWhitespace(c: char)
    ensures IsWhitespace(LowerChar(c)) <==> IsWhitespace(c)
  {
  }

  lemma BlankIgnoresCase(a: string, b: string)
    requires ToLower(a) == ToLower(b)
    ensures IsBlank(a) <==> IsBlank(b)
  {
    TrimEmptyIff(a);
    TrimEmptyIff(b);
    ToLowerAt(a);
    ToLowerAt(b);
    forall i | 0 <= i < |a| ensures IsWhitespace(a[i]) <==> IsWhitespace(b[i]) {
      LowerCharWhitespace(a[i]);
      LowerCharWhitespace(b[i]);
      assert ToLower(a)[i] == ToLower(b)[i];
    }
  }

  /** The score does not depend on ASCII case in either argument. */
  lemma CountIgnoresCase(text1: string, needle1: string, text2: string, needle2: string)
    requires ToLower(text1) == ToLower(text2) && ToLower(needle1) == ToLower(needle2)
    ensures OccurrenceCount(text1, needle1) == OccurrenceCount(text2, needle2)
  {
    BlankIgnoresCase(needle1, needle2);
  }

  // ---- SQL LIKE ----

  /** SQLite `LIKE` without ESCAPE: `%` matches any run of characters, `_` any
      one character, and letters compare ignoring ASCII case. */
  predicate Like(p: string, s: string)
    decreases |p| + |s|
  {
    if p == [] then s == []
    else if p[0] == '%' then Like(p[1..], s) || (s != [] && Like(p, s[1..]))
    else s != [] && (p[0] == '_' || LowerChar(p[0]) == LowerChar(s[0])) && Like(p[1..], s[1..])
  }

  /** The pattern `%${query}%` bound by `searchChunks`. */
  function Pattern(query: string): string {
    "%" + query + "%"
  }

  lemma {:induction false} LikeAnyRest(s: string)
    ensures Like("%", s)
    decreases |s|
  {
    if s != [] {
      LikeAnyRest(s[1..]);
    }
  }

  lemma {:induction false} LikeSkip(p: string, s: string, j: nat)
    requires p != [] && p[0] == '%'
    requires j <= |s| && Like(p[1..], s[j..])
    ensures Like(p, s)
    decreases j
  {
    if j > 0 {
      LikeSkip(p, s[1..], j - 1);
      assert s[1..][j - 1..] == s[j..];
    }
  }

  /** A literal prefix matching case-insensitively, followed by `%`. */
  lemma {:induction false} LikeLiteral(q: string, s: string)
    requires |q| <= |s|
    requires forall i :: 0 <= i < |q| ==> LowerChar(q[i]) == LowerChar(s[i])
    ensures Like(q + "%", s)
  {
    if q == [] {
      LikeAnyRest(s);
      assert q + "%" == "%";
    } else {
      var p := q + "%";
      assert p[1..] == q[1..] + "%";
      LikeLiteral(q[1..], s[1..]);
      if q[0] == '%' {
        assert Like(p[1..], s[1..]);
        LikeSkip(p, s, 1);
      }
    }
  }

  /** Every text in which the query occurs, ignoring ASCII case, passes the `LIKE` filter. */
  lemma LikeOfMatch(query: string, text: string, j: int)
    requires MatchAt(ToLower(text), ToLower(query), j)
    ensures Like(Pattern(query), text)
  {
    var rest := text[j..];
    ToLowerAt(text);
    ToLowerAt(query);
    forall i | 0 <= i < |query| ensures LowerChar(query[i]) == LowerChar(rest[i]) {
      assert ToLower(text)[j..j + |query|][i] == ToLower(query)[i];
    }
    LikeLiteral(query, rest);
    var p := Pattern(query);
    assert p[1..] == query + "%";
    LikeSkip(p, text, j);
  }

  /** Every chunk with a positive score is one the `LIKE` filter lets through. */
  lemma ScoredPassesFilter(query: string, text: string)
    requires OccurrenceCount(text, query) > 0
    ensures Like(Pattern(query), text)
  {
    CountPositiveIff(text, query);
    var j :| MatchAt(ToLower(text), ToLower(query), j);
    LikeOfMatch(query, text, j);
  }

  /** The converse fails: `_` is a wildcard to `LIKE` but a literal to the score,
      so "abc" is a candidate for "a_c" that scores 0. */
  lemma WildcardCandidateScoresZero()
    ensures Like(Pattern("a_c"), "abc") && OccurrenceCount("abc", "a_c") == 0
  {
    assert Like("a_c%", "abc") by {
      LikeAnyRest("");
      assert Like("%", "");
      assert Like("c%", "c");
      assert Like("_c%", "bc");
    }
    LikeSkip(Pattern("a_c"), "abc", 0);
    assert !IsBlank("a_c") by { TrimNoWhitespace("a_c"); }
    assert ToLower("abc") == "abc" && ToLower("a_c") == "a_c";
    CountPositiveIff("abc", "a_c");
    forall j ensures !MatchAt("abc", "a_c", j) {
      if 0 <= j && j + 3 <= 3 {
        assert j == 0 && "abc"[0..3] == "abc";
      }
    }
  }

  /** An empty query lets every chunk through the filter, and every chunk scores 0. */
  lemma EmptyQuery(text: string)
    ensures Like(Pattern(""), text) && OccurrenceCount(text, "") == 0
  {
    assert Pattern("") == "%%";
    LikeAnyRest(text);
    LikeSkip("%%", text, 0);
  }

  // ---- searchChunks ----

  const DefaultSearchLimit := 20

  datatype SearchResult = SearchResult(chunkId: string, itemId: string, text: string, score: int)

  function ScoreOf(r: SearchResult): int { r.score }

  /** The comparator `(a, b) => b.score - a.score`: a higher score sorts first. */
  function Higher(a: int, b: int): bool { a > b }

  lemma HigherOrder()
    ensures StrictTotalOrder(Higher)
  {
  }

  /** `Array.prototype.slice(0, n)`: a negative `n` counts back from the end. */
  function JsSlice<T>(s: seq<T>, n: int): (r: seq<T>)
    ensures |r| == (if n < 0 then Max(|s| + n, 0) else Min(n, |s|))
    ensures r == s[..|r|]
  {
    s[..if n < 0 then Max(|s| + n, 0) else Min(n, |s|)]
  }

  /** `WHERE text LIKE pattern` over a scan, keeping scan order. */
  function Matching(rows: seq<ChunkRow>, pattern: string): (r: seq<ChunkRow>)
    ensures |r| <= |rows|
    ensures forall c :: c in r <==> c in rows && Like(pattern, c.text)
  {
    if rows == [] then []
    else (if Like(pattern, rows[0].text) then [rows[0]] else []) + Matching(rows[1..], pattern)
  }

  /** The rows the SQL statement of `searchChunks` returns. */
  function Candidates(db: Db, query: string, limit: int): seq<ChunkRow> {
    SqlLimit(Matching(Rows(db.chunks), Pattern(query)), limit * 5)
  }

  /** The candidates with their scores, in candidate order. */
  function Scored(rows: seq<ChunkRow>, query: string): (r: seq<SearchResult>)
    ensures |r| == |rows|
  {
    seq(|rows|, i requires 0 <= i < |rows| =>
      SearchResult(rows[i].chunkId, rows[i].itemId, rows[i].text, OccurrenceCount(rows[i].text, query)))
  }

  /** `searchChunks(db, query, limit)`. */
  function SearchChunks(db: Db, query: string, limit: int): seq<SearchResult> {
    JsSlice(SortBy(Scored(Candidates(db, query, limit), query), ScoreOf, Higher), limit)
  }

  /** The query asks for at most `5 * limit` rows and returns at most `limit`. */
  lemma SearchCounts(db: Db, query: string, limit: int)
    requires limit >= 0
    ensures |Candidates(db, query, limit)| <= 5 * limit
    ensures |SearchChunks(db, query, limit)| == Min(limit, |Candidates(db, query, limit)|)
  {
  }

  /** With the default limit of 20: at most 100 candidates and 20 results. */
  lemma SearchDefaultLimit(db: Db, query: string)
    ensures |Candidates(db, query, DefaultSearchLimit)| <= 100
    ensures |SearchChunks(db, query, DefaultSearchLimit)| <= 20
  {
    SearchCounts(db, query, DefaultSearchLimit);
  }

  /** Every candidate is a stored chunk whose text passes the `LIKE` filter; when
      the limit does not cut the scan, every such chunk is a candidate. */
  lemma CandidatesAreMatches(db: Db, query: string, limit: int)
    ensures forall c :: c in Candidates(db, query, limit) ==> c in Rows(db.chunks) && Like(Pattern(query), c.text)
    ensures limit < 0 || |Matching(Rows(db.chunks), Pattern(query))| <= 5 * limit ==>
              forall c :: c in Rows(db.chunks) && Like(Pattern(query), c.text) ==> c in Candidates(db, query, limit)
  {
    var m := Matching(Rows(db.chunks), Pattern(query));
    forall c | c in Candidates(db, query, limit) ensures c in m {
      var i :| 0 <= i < |Candidates(db, query, limit)| && Candidates(db, query, limit)[i] == c;
      assert m[i] == c;
    }
  }

  /** Each result is a candidate row with its id, item and text unchanged and its
      score the occurrence count of the query in its text. */
  lemma SearchResultsScored(db: Db, query: string, limit: int)
    ensures forall x :: x in SearchChunks(db, query, limit) ==>
              exists c :: c in Candidates(db, query, limit) &&
                x == SearchResult(c.chunkId, c.itemId, c.text, OccurrenceCount(c.text, query))
  {
    var cands := Candidates(db, query, limit);
    var scored := Scored(cands, query);
    var sorted := SortBy(scored, ScoreOf, Higher);
    SortByPermutes(scored, ScoreOf, Higher);
    forall x | x in SearchChunks(db, query, limit)
      ensures exists c :: c in cands && x == SearchResult(c.chunkId, c.itemId, c.text, OccurrenceCount(c.text, query))
    {
      assert x in sorted;
      assert x in multiset(scored);
      var i :| 0 <= i < |scored| && scored[i] == x;
      assert cands[i] in cands;
    }
  }

  /** Results come in non-increasing score order. */
  lemma SearchRanked(db: Db, query: string, limit: int)
    ensures forall i, j :: 0 <= i < j < |SearchChunks(db, query, limit)| ==>
              SearchChunks(db, query, limit)[i].score >= SearchChunks(db, query, limit)[j].score
  {
    var sorted := SortBy(Scored(Candidates(db, query, limit), query), ScoreOf, Higher);
    HigherOrder();
    SortBySorted(Scored(Candidates(db, query, limit), query), ScoreOf, Higher);
    var r := SearchChunks(db, query, limit);
    forall i, j | 0 <= i < j < |r| ensures r[i].score >= r[j].score {
      assert r[i] == sorted[i] && r[j] == sorted[j];
      assert !Higher(ScoreOf(sorted[j]), ScoreOf(sorted[i]));
    }
  }

  /** The results are the best-scoring candidates: no scored candidate left out
      has a higher score than any result. */
  lemma SearchTopScores(db: Db, query: string, limit: int)
    ensures multiset(SearchChunks(db, query, limit)) <= multiset(Scored(Candidates(db, query, limit), query))
    ensures forall x, y ::
              (x in SearchChunks(db, query, limit) &&
               y in multiset(Scored(Candidates(db, query, limit), query)) - multiset(SearchChunks(db, query, limit)))
              ==> y.score <= x.score
  {
    var scored := Scored(Candidates(db, query, limit), query);
    var sorted := SortBy(scored, ScoreOf, Higher);
    var r := SearchChunks(db, query, limit);
    SortByPermutes(scored, ScoreOf, Higher);
    HigherOrder();
    SortBySorted(scored, ScoreOf, Higher);
    assert r == sorted[..|r|];
    SortedPrefixTop(sorted, |r|, ScoreOf, Higher);
  }

  lemma {:induction false} SelectPrefix<T, K>(s: seq<T>, m: nat, key: T -> K, k: K)
    requires m <= |s|
    ensures exists rest :: Select(s, key, k) == Select(s[..m], key, k) + rest
  {
    assert s == s[..m] + s[m..];
    SelectAppend(s[..m], s[m..], key, k);
  }

  /** Ties keep candidate order: for every score, the results with that score are
      the first candidates with that score, in candidate order. */
  lemma SearchStable(db: Db, query: string, limit: int, score: int)
    ensures exists rest :: Select(Scored(Candidates(db, query, limit), query), ScoreOf, score) ==
                           Select(SearchChunks(db, query, limit), ScoreOf, score) + rest
  {
    var scored := Scored(Candidates(db, query, limit), query);
    var sorted := SortBy(scored, ScoreOf, Higher);
    HigherOrder();
    SortByStable(scored, ScoreOf, Higher, score);
    SelectPrefix(sorted, |SearchChunks(db, query, limit)|, ScoreOf, score);
  }

  // ---- explainChunk ----

  datatype ExplainResult = ExplainResult(
    chunkId: string, itemId: string, text: string, title: string, timestamp: Option<string>, metadata: Json)

  /** One chunk row joined with every item row whose `id` is its `item_id`. */
  function JoinItems(c: ChunkRow, items: seq<ItemRow>): (r: seq<ExplainResult>)
    ensures |r| <= |items|
  {
    if items == [] then []
    else
      (if items[0].id == c.itemId
       then [ExplainResult(c.chunkId, c.itemId, c.text, items[0].title, items[0].timestamp, items[0].metadata)]
       else []) + JoinItems(c, items[1..])
  }

  /** `chunks JOIN items ON items.id = chunks.item_id`, for the given chunk rows. */
  function Join(cs: seq<ChunkRow>, items: seq<ItemRow>): seq<ExplainResult> {
    if cs == [] then [] else JoinItems(cs[0], items) + Join(cs[1..], items)
  }

  /** `explainChunk(db, chunkId)`: the first joined row of the chunk, if any. */
  function ExplainChunk(db: Db, chunkId: string): Option<ExplainResult> {
    var rows := Join(WithKey(Rows(db.chunks), ChunkKey, chunkId), Rows(db.items));
    if rows == [] then None else Some(rows[0])
  }

  lemma {:induction false} JoinItemsWithKey(c: ChunkRow, items: seq<ItemRow>)
    ensures JoinItems(c, items) ==
              seq(|WithKey(items, ItemKey, c.itemId)|, i requires 0 <= i < |WithKey(items, ItemKey, c.itemId)| =>
                var it := WithKey(items, ItemKey, c.itemId)[i];
                ExplainResult(c.chunkId, c.itemId, c.text, it.title, it.timestamp, it.metadata))
  {
    if items != [] {
      JoinItemsWithKey(c, items[1..]);
    }
  }

  /** The join finds the chunk by key and its item by key: nothing when the chunk
      is missing or its item row is missing, otherwise the chunk's fields with the
      item's title, timestamp and metadata. */
  lemma ExplainLookup(db: Db, chunkId: string)
    requires DbValid(db)
    ensures ExplainChunk(db, chunkId) ==
              if chunkId !in db.chunks.rows || db.chunks.rows[chunkId].itemId !in db.items.rows then None
              else
                var c := db.chunks.rows[chunkId];
                var it := db.items.rows[c.itemId];
                Some(ExplainResult(chunkId, c.itemId, c.text, it.title, it.timestamp, it.metadata))
  {
    WithKeyRows(db.chunks, ChunkKey, chunkId);
    if chunkId in db.chunks.rows {
      var c := db.chunks.rows[chunkId];
      assert ChunkKey(c) == chunkId;
      WithKeyRows(db.items, ItemKey, c.itemId);
      JoinItemsWithKey(c, Rows(db.items));
      assert Join([c], Rows(db.items)) == JoinItems(c, Rows(db.items)) + [];
    }
  }
}
