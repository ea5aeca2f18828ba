/** `chunkText`: splits a document into overlapping windows, cut back to a
    line break when one lies more than 200 characters into the window.
    The loop is `ChunkText`; `Windows`/`Kept`/`Chunks` specify it. */
module Chunker {
  import opened Strings

  /** The `TextChunk` record: trimmed text plus the untrimmed window `[start, end)`. */
  datatype TextChunk = TextChunk(text: string, start: nat, end: nat)

  /** A window visited by the loop, before trimming and dropping. */
  datatype Span = Span(start: nat, end: nat)

  /** The smallest cut position: a break must lie strictly more than this far into the window. */
  const MinBreak := 200

  /** `Math.max(200, maxLength - overlap)`: the least forward progress per iteration. */
  function Step(maxLength: nat, overlap: int): (step: int)
    ensures step >= MinBreak && step >= maxLength - overlap
  {
    Max(MinBreak, maxLength - overlap)
  }

  /** `Math.max(end - overlap, start + step)`: the next cursor. */
  function NextStart(start: nat, end: nat, maxLength: nat, overlap: int): (next: nat)
    ensures next >= start + MinBreak && next >= end - overlap
  {
    Max(end - overlap, start + Step(maxLength, overlap))
  }

  /** The end of the window starting at `start`: the clamped `start + maxLength`,
      cut back to the last newline of the window when the window does not reach
      the end of the text and that newline lies more than 200 characters in
      (`WindowEndCut` states the cut exactly). */
  function WindowEnd(text: string, maxLength: nat, start: nat): (end: nat)
    requires start < |text|
    ensures start <= end <= Min(start + maxLength, |text|)
    ensures end < Min(start + maxLength, |text|) ==> end > start + MinBreak
  {
    var end := Min(start + maxLength, |text|);
    if end < |text| then
      var window := text[start..end];
      var lastBreak := Max(LastIndexOf(window, "\n\n"), LastIndexOf(window, "\n"));
      if lastBreak > MinBreak then start + lastBreak else end
    else end
  }

  /** A window is shortened only when it does not reach the end of the text
      and its last newline lies more than 200 characters in; it then ends just
      before that newline, and no newline follows inside the window. */
  lemma WindowEndCut(text: string, maxLength: nat, start: nat)
    requires start < |text|
    ensures var end := WindowEnd(text, maxLength, start);
            end != Min(start + maxLength, |text|) <==>
              start + maxLength < |text| && LastIndexOf(text[start..start + maxLength], "\n") > MinBreak
    ensures var end := WindowEnd(text, maxLength, start);
            end != Min(start + maxLength, |text|) ==>
              && end == start + LastIndexOf(text[start..start + maxLength], "\n")
              && text[end] == '\n'
              && (forall j :: end < j < start + maxLength ==> text[j] != '\n')
  {
    var end := Min(start + maxLength, |text|);
    if end < |text| {
      var window := text[start..end];
      DoubleBreakNotLater(window);
      if LastIndexOf(window, "\n") > MinBreak {
        LastNewline(text, start, end);
      }
    }
  }

  /** The last newline of `text[start..end]`, when there is one, is a newline
      of `text` with none after it before `end`. */
  lemma LastNewline(text: string, start: nat, end: nat)
    requires start <= end <= |text|
    requires LastIndexOf(text[start..end], "\n") >= 0
    ensures var k := start + LastIndexOf(text[start..end], "\n");
            text[k] == '\n' && forall j :: k < j < end ==> text[j] != '\n'
  {
    var window := text[start..end];
    var lastBreak := LastIndexOf(window, "\n");
    LastIndexOfLast(window, "\n");
    assert window[lastBreak..lastBreak + 1][0] == text[start + lastBreak];
    forall j | start + lastBreak < j < end ensures text[j] != '\n' {
      assert !MatchAt(window, "\n", j - start);
      assert window[j - start..j - start + 1][0] == text[j];
    }
  }

  /** The windows the loop visits from cursor `start` until it breaks at the end of the text. */
  function Windows(text: string, maxLength: nat, overlap: int, start: nat): (ws: seq<Span>)
    decreases |text| - start
    ensures start < |text| ==> ws != [] && ws[0] == Span(start, WindowEnd(text, maxLength, start))
    ensures start >= |text| ==> ws == []
    ensures forall w <- ws :: start <= w.start < |text| && w.start <= w.end <= |text|
  {
    if start >= |text| then []
    else
      var end := WindowEnd(text, maxLength, start);
      if end >= |text| then [Span(start, end)]
      else [Span(start, end)] + Windows(text, maxLength, overlap, NextStart(start, end, maxLength, overlap))
  }

  predicate SpansInside(text: string, ws: seq<Span>) {
    forall w <- ws :: w.start <= w.end <= |text|
  }

  /** The chunks pushed for the windows `ws`: the trimmed slice of each window,
      dropping the windows whose slice is blank. */
  function Kept(text: string, ws: seq<Span>): (cs: seq<TextChunk>)
    requires SpansInside(text, ws)
    ensures |cs| <= |ws|
  {
    if ws == [] then []
    else
      Pushed(text, ws[0].start, ws[0].end) + Kept(text, ws[1..])
  }

  /** What one window contributes: its trimmed slice, unless that is empty. */
  function Pushed(text: string, start: nat, end: nat): seq<TextChunk>
    requires start <= end <= |text|
  {
    var slice := Trim(text[start..end]);
    if slice != [] then [TextChunk(slice, start, end)] else []
  }

  /** One iteration of the loop: the window at `start` contributes its chunk
      (when not blank), then the loop breaks or moves to the next cursor. */
  lemma KeptWindowsStep(text: string, maxLength: nat, overlap: int, start: nat)
    requires start < |text|
    ensures var end := WindowEnd(text, maxLength, start);
            Kept(text, Windows(text, maxLength, overlap, start)) ==
              Pushed(text, start, end) +
              (if end >= |text| then []
               else Kept(text, Windows(text, maxLength, overlap, NextStart(start, end, maxLength, overlap))))
  {
    var ws := Windows(text, maxLength, overlap, start);
    assert ws[1..] == if WindowEnd(text, maxLength, start) >= |text| then []
                      else Windows(text, maxLength, overlap, NextStart(start, WindowEnd(text, maxLength, start), maxLength, overlap));
  }

  /** The value of `chunkText(text, maxLength, overlap)`. */
  function Chunks(text: string, maxLength: nat, overlap: int): seq<TextChunk> {
    if IsBlank(text) then [] else Kept(text, Windows(text, maxLength, overlap, 0))
  }

  /** What every emitted chunk satisfies. */
  predicate WellFormedChunk(text: string, maxLength: nat, c: TextChunk) {
    && 0 <= c.start < c.end <= |text|
    && c.end - c.start <= maxLength
    && c.end == WindowEnd(text, maxLength, c.start)
    && c.text == Trim(text[c.start..c.end])
    && c.text != []
  }

  method ChunkText(text: string, maxLength: nat, overlap: int) returns (chunks: seq<TextChunk>)
    ensures chunks == Chunks(text, maxLength, overlap)
    ensures IsBlank(text) ==> chunks == []
  {
    if IsBlank(text) {
      return [];
    }
    chunks := [];
    var step := Max(MinBreak, maxLength - overlap);
    var start: nat := 0;
    ghost var all := Kept(text, Windows(text, maxLength, overlap, 0));
    while start < |text|
      invariant chunks + Kept(text, Windows(text, maxLength, overlap, start)) == all
      decreases |text| - start
    {
      var end := Min(start + maxLength, |text|);
      if end < |text| {
        var window := text[start..end];
        var lastBreak := Max(LastIndexOf(window, "\n\n"), LastIndexOf(window, "\n"));
        if lastBreak > MinBreak {
          end := start + lastBreak;
        }
      }
      assert end == WindowEnd(text, maxLength, start);
      LoopStep(text, maxLength, overlap, start, chunks, all);
      var slice := Trim(text[start..end]);
      ghost var pushed := Pushed(text, start, end);
      ghost var before := chunks;
      if slice != [] {
        chunks := chunks + [TextChunk(slice, start, end)];
      }
      assert chunks == before + pushed;
      if end >= |text| {
        break;
      }
      ghost var next := NextStart(start, end, maxLength, overlap);
      start := Max(end - overlap, start + step);
      assert start == next;
    }
  }

  /** One iteration in terms of the invariant: the chunks so far followed by
      the window's contribution, then by the chunks of the remaining windows. */
  lemma LoopStep(text: string, maxLength: nat, overlap: int, start: nat, done: seq<TextChunk>, all: seq<TextChunk>)
    requires start < |text|
    requires done + Kept(text, Windows(text, maxLength, overlap, start)) == all
    ensures var end := WindowEnd(text, maxLength, start);
            end >= |text| ==> done + Pushed(text, start, end) == all
    ensures var end := WindowEnd(text, maxLength, start);
            end < |text| ==>
              (done + Pushed(text, start, end)) +
              Kept(text, Windows(text, maxLength, overlap, NextStart(start, end, maxLength, overlap))) == all
  {
    var end := WindowEnd(text, maxLength, start);
    KeptWindowsStep(text, maxLength, overlap, start);
    if end < |text| {
      AppendAssoc(done, Pushed(text, start, end),
                  Kept(text, Windows(text, maxLength, overlap, NextStart(start, end, maxLength, overlap))));
    }
  }

  lemma AppendAssoc(a: seq<TextChunk>, b: seq<TextChunk>, c: seq<TextChunk>)
    ensures (a + b) + c == a + (b + c)
  {
  }

  // ---- properties of the windows ----

  /** Every visited window ends where `WindowEnd` puts it. */
  lemma {:induction false} WindowsFollowWindowEnd(text: string, maxLength: nat, overlap: int, start: nat)
    ensures forall w <- Windows(text, maxLength, overlap, start) :: w.end == WindowEnd(text, maxLength, w.start)
    decreases |text| - start
  {
    if start < |text| {
      var end := WindowEnd(text, maxLength, start);
      if end < |text| {
        WindowsFollowWindowEnd(text, maxLength, overlap, NextStart(start, end, maxLength, overlap));
      }
    }
  }

  /** Later windows start at least 200 characters after, and no earlier than
      `overlap` characters before the end of, every earlier window. */
  predicate Advancing(ws: seq<Span>, overlap: int) {
    forall i, j :: 0 <= i < j < |ws| ==>
      ws[j].start >= ws[i].start + MinBreak && ws[j].start >= ws[i].end - overlap
  }

  lemma AdvancingPrepend(w0: Span, rest: seq<Span>, overlap: int)
    requires Advancing(rest, overlap)
    requires forall w <- rest :: w.start >= w0.start + MinBreak && w.start >= w0.end - overlap
    ensures Advancing([w0] + rest, overlap)
  {
    var ws := [w0] + rest;
    forall i, j | 0 <= i < j < |ws|
      ensures ws[j].start >= ws[i].start + MinBreak && ws[j].start >= ws[i].end - overlap
    {
      assert ws[j] == rest[j - 1];
      if i > 0 {
        assert ws[i] == rest[i - 1];
      } else {
        assert rest[j - 1] in rest;
      }
    }
  }

  /** The cursor strictly increases, by at least 200 per iteration, and never
      moves back more than `overlap` from the end of the previous window. */
  lemma {:induction false} WindowsAdvance(text: string, maxLength: nat, overlap: int, start: nat)
    ensures Advancing(Windows(text, maxLength, overlap, start), overlap)
    decreases |text| - start
  {
    if start < |text| {
      var end := WindowEnd(text, maxLength, start);
      if end < |text| {
        var next := NextStart(start, end, maxLength, overlap);
        WindowsAdvance(text, maxLength, overlap, next);
        var rest := Windows(text, maxLength, overlap, next);
        assert forall w <- rest :: w.start >= next;
        AdvancingPrepend(Span(start, end), rest, overlap);
        assert Windows(text, maxLength, overlap, start) == [Span(start, end)] + rest;
      }
    }
  }

  /** With `maxLength >= 200` and `overlap >= 0` the loop only leaves through
      its `break`: the last window ends at the end of the text. */
  lemma {:induction false} LastWindowReachesEnd(text: string, maxLength: nat, overlap: int, start: nat)
    requires maxLength >= MinBreak && overlap >= 0 && start < |text|
    ensures var ws := Windows(text, maxLength, overlap, start);
            ws != [] && ws[|ws| - 1].end == |text|
    decreases |text| - start
  {
    var end := WindowEnd(text, maxLength, start);
    if end < |text| {
      var next := NextStart(start, end, maxLength, overlap);
      assert start + maxLength < |text|;
      assert next < |text|;
      LastWindowReachesEnd(text, maxLength, overlap, next);
    }
  }

  /** A text of 3000 characters without a newline, under the defaults, is cut
      into the windows [0,1200), [1050,2250) and [2100,3000). */
  lemma ThreeWindows(text: string)
    requires |text| == 3000 && forall i :: 0 <= i < |text| ==> text[i] != '\n'
    ensures Windows(text, 1200, 150, 0) == [Span(0, 1200), Span(1050, 2250), Span(2100, 3000)]
  {
    NoBreakWithoutNewline(text[0..1200]);
    NoBreakWithoutNewline(text[1050..2250]);
    assert WindowEnd(text, 1200, 0) == 1200;
    assert WindowEnd(text, 1200, 1050) == 2250;
    assert WindowEnd(text, 1200, 2100) == 3000;
    assert NextStart(0, 1200, 1200, 150) == 1050;
    assert NextStart(1050, 2250, 1200, 150) == 2100;
    assert Windows(text, 1200, 150, 2100) == [Span(2100, 3000)];
    assert Windows(text, 1200, 150, 1050) == [Span(1050, 2250), Span(2100, 3000)];
  }

  /** A window of a text without whitespace is kept whole. */
  lemma PushedWhole(text: string, start: nat, end: nat)
    requires start < end <= |text|
    requires forall i :: 0 <= i < |text| ==> !IsWhitespace(text[i])
    ensures Pushed(text, start, end) == [TextChunk(text[start..end], start, end)]
  {
    TrimNoWhitespace(text[start..end]);
  }

  /** The same text, when it also has no whitespace, gives exactly three
      chunks, each the whole slice of its window. */
  lemma ThreeChunks(text: string)
    requires |text| == 3000
    requires forall i :: 0 <= i < |text| ==> text[i] != '\n' && !IsWhitespace(text[i])
    ensures Chunks(text, 1200, 150) ==
              [TextChunk(text[0..1200], 0, 1200), TextChunk(text[1050..2250], 1050, 2250),
               TextChunk(text[2100..3000], 2100, 3000)]
  {
    assert !IsBlank(text) by { TrimNoWhitespace(text); }
    ThreeWindows(text);
    ThreeWholeWindows(text);
  }

  /** Each of those three windows is kept whole. */
  lemma ThreeWholeWindows(text: string)
    requires |text| == 3000
    requires forall i :: 0 <= i < |text| ==> !IsWhitespace(text[i])
    ensures Kept(text, [Span(0, 1200), Span(1050, 2250), Span(2100, 3000)]) ==
              [TextChunk(text[0..1200], 0, 1200), TextChunk(text[1050..2250], 1050, 2250),
               TextChunk(text[2100..3000], 2100, 3000)]
  {
    var a, b, c := Span(0, 1200), Span(1050, 2250), Span(2100, 3000);
    assert [a, b, c] == [a] + [b, c] && [b, c] == [b] + [c] && [c] == [c] + [];
    KeptCons(text, c, []);
    PushedWhole(text, 2100, 3000);
    KeptCons(text, b, [c]);
    PushedWhole(text, 1050, 2250);
    KeptCons(text, a, [b, c]);
    PushedWhole(text, 0, 1200);
  }

  /** Kept over a window followed by more windows. */
  lemma KeptCons(text: string, w: Span, ws: seq<Span>)
    requires SpansInside(text, [w] + ws)
    ensures SpansInside(text, ws)
    ensures Kept(text, [w] + ws) == Pushed(text, w.start, w.end) + Kept(text, ws)
  {
    assert ([w] + ws)[1..] == ws;
  }

  // ---- properties of the chunks ----

  lemma {:induction false} KeptWellFormed(text: string, maxLength: nat, ws: seq<Span>)
    requires SpansInside(text, ws)
    requires forall w <- ws :: w.start < |text| && w.end == WindowEnd(text, maxLength, w.start)
    ensures forall c <- Kept(text, ws) :: WellFormedChunk(text, maxLength, c)
  {
    if ws != [] {
      KeptWellFormed(text, maxLength, ws[1..]);
      var w := ws[0];
      TrimEmptyIff(text[w.start..w.end]);
    }
  }

  /** Every chunk lies inside the text, is at most `maxLength` long, ends where
      its window ends, and holds the non-empty trimmed slice of its window. */
  lemma ChunksWellFormed(text: string, maxLength: nat, overlap: int)
    ensures forall c <- Chunks(text, maxLength, overlap) :: WellFormedChunk(text, maxLength, c)
  {
    if !IsBlank(text) {
      WindowsFollowWindowEnd(text, maxLength, overlap, 0);
      KeptWellFormed(text, maxLength, Windows(text, maxLength, overlap, 0));
    }
  }

  /** Later chunks start after, and no earlier than `overlap` characters before
      the end of, every earlier chunk. */
  predicate Ordered(cs: seq<TextChunk>, overlap: int) {
    forall i, j :: 0 <= i < j < |cs| ==> cs[i].start < cs[j].start && cs[j].start >= cs[i].end - overlap
  }

  lemma AdvancingTail(ws: seq<Span>, overlap: int)
    requires ws != [] && Advancing(ws, overlap)
    ensures Advancing(ws[1..], overlap)
    ensures forall w <- ws[1..] :: w.start > ws[0].start && w.start >= ws[0].end - overlap
  {
    var rest := ws[1..];
    forall w | w in rest ensures w.start > ws[0].start && w.start >= ws[0].end - overlap {
      var k :| 0 <= k < |rest| && rest[k] == w;
      assert ws[k + 1] == w;
    }
  }

  lemma OrderedPrepend(c0: TextChunk, tail: seq<TextChunk>, overlap: int)
    requires Ordered(tail, overlap)
    requires forall c <- tail :: c.start > c0.start && c.start >= c0.end - overlap
    ensures Ordered([c0] + tail, overlap)
  {
    var cs := [c0] + tail;
    forall i, j | 0 <= i < j < |cs|
      ensures cs[i].start < cs[j].start && cs[j].start >= cs[i].end - overlap
    {
      assert cs[j] == tail[j - 1] && cs[j] in tail;
      if i > 0 { assert cs[i] == tail[i - 1]; }
    }
  }

  /** Every kept chunk spans one of the windows. */
  lemma {:induction false} KeptFromWindows(text: string, ws: seq<Span>)
    requires SpansInside(text, ws)
    ensures forall c <- Kept(text, ws) :: Span(c.start, c.end) in ws
  {
    if ws != [] {
      KeptFromWindows(text, ws[1..]);
      assert Kept(text, ws) == Pushed(text, ws[0].start, ws[0].end) + Kept(text, ws[1..]);
      forall c | c in Kept(text, ws) ensures Span(c.start, c.end) in ws {
        if c !in Kept(text, ws[1..]) {
          assert c in Pushed(text, ws[0].start, ws[0].end);
        } else {
          assert Span(c.start, c.end) in ws[1..];
        }
      }
    }
  }

  /** Kept chunks are a subsequence of the windows, so the order between
      windows carries over to the chunks. */
  lemma {:induction false} KeptOrdered(text: string, overlap: int, ws: seq<Span>)
    requires SpansInside(text, ws)
    requires Advancing(ws, overlap)
    ensures Ordered(Kept(text, ws), overlap)
  {
    if ws != [] {
      var rest := ws[1..];
      var tail := Kept(text, rest);
      assert Ordered(tail, overlap) by {
        AdvancingTail(ws, overlap);
        KeptOrdered(text, overlap, rest);
      }
      assert forall c <- tail :: c.start > ws[0].start && c.start >= ws[0].end - overlap by {
        AdvancingTail(ws, overlap);
        KeptFromWindows(text, rest);
        forall c | c in tail ensures c.start > ws[0].start && c.start >= ws[0].end - overlap {
          assert Span(c.start, c.end) in rest;
        }
      }
      var slice := Trim(text[ws[0].start..ws[0].end]);
      if slice != [] {
        OrderedPrepend(TextChunk(slice, ws[0].start, ws[0].end), tail, overlap);
      }
    }
  }

  /** Chunk starts strictly increase, and each chunk starts no earlier than
      `overlap` characters before the end of any earlier chunk. */
  lemma ChunksOrdered(text: string, maxLength: nat, overlap: int)
    ensures Ordered(Chunks(text, maxLength, overlap), overlap)
  {
    if !IsBlank(text) {
      WindowsAdvance(text, maxLength, overlap, 0);
      KeptOrdered(text, overlap, Windows(text, maxLength, overlap, 0));
    }
  }
}
