/** Models of the JavaScript string built-ins the pipeline relies on:
    `trim`, `toLowerCase`, `indexOf`, `lastIndexOf`, number formatting,
    and the binary (code-point) string order SQLite uses for TEXT. */
module Strings {

  datatype Option<T> = None | Some(value: T)

  function Min(a: int, b: int): int { if a < b then a else b }
  function Max(a: int, b: int): int { if a < b then b else a }

  /** The characters `String.prototype.trim` removes: ECMAScript WhiteSpace and LineTerminator. */
  predicate IsWhitespace(c: char) {
    || c == '\t' || c == '\n' || c == '\U{000B}' || c == '\U{000C}' || c == '\r' || c == ' '
    || c == '\U{00A0}' || c == '\U{1680}' || ('\U{2000}' <= c <= '\U{200A}')
    || c == '\U{2028}' || c == '\U{2029}' || c == '\U{202F}' || c == '\U{205F}'
    || c == '\U{3000}' || c == '\U{FEFF}'
  }

  function TrimStart(s: string): (r: string)
    ensures |r| <= |s|
  {
    if s != [] && IsWhitespace(s[0]) then TrimStart(s[1..]) else s
  }

  function TrimEnd(s: string): (r: string)
    ensures |r| <= |s|
  {
    if s != [] && IsWhitespace(s[|s| - 1]) then TrimEnd(s[..|s| - 1]) else s
  }

  /** `s.trim()` (`TrimEmptyIff` says when it is empty). */
  function Trim(s: string): (r: string)
    ensures |r| <= |s|
  {
    TrimEnd(TrimStart(s))
  }

  lemma {:induction false} TrimStartShape(s: string)
    ensures var r := TrimStart(s);
            && r == s[|s| - |r|..]
            && (r == [] || !IsWhitespace(r[0]))
            && (forall i :: 0 <= i < |s| - |r| ==> IsWhitespace(s[i]))
  {
    if s != [] && IsWhitespace(s[0]) {
      TrimStartShape(s[1..]);
    }
  }

  lemma {:induction false} TrimEndShape(s: string)
    ensures var r := TrimEnd(s);
            && r == s[..|r|]
            && (r == [] || !IsWhitespace(r[|r| - 1]))
            && (forall i :: |r| <= i < |s| ==> IsWhitespace(s[i]))
  {
    if s != [] && IsWhitespace(s[|s| - 1]) {
      TrimEndShape(s[..|s| - 1]);
    }
  }

  /** Trimming leaves nothing exactly when every character is whitespace. */
  lemma TrimEmptyIff(s: string)
    ensures Trim(s) == [] <==> forall i :: 0 <= i < |s| ==> IsWhitespace(s[i])
  {
    var t := TrimStart(s);
    TrimStartShape(s);
    TrimEndShape(t);
    if Trim(s) != [] {
      assert Trim(s)[0] == t[0] == s[|s| - |t|];
    }
  }

  /** A string without whitespace is its own trim. */
  lemma TrimNoWhitespace(s: string)
    requires forall i :: 0 <= i < |s| ==> !IsWhitespace(s[i])
    ensures Trim(s) == s
  {
    assert TrimStart(s) == s by { if s != [] { assert !IsWhitespace(s[0]); } }
    assert TrimEnd(s) == s by { if s != [] { assert !IsWhitespace(s[|s| - 1]); } }
  }

  /** `!s.trim()` in JavaScript: the string is empty after trimming. */
  predicate IsBlank(s: string) {
    Trim(s) == []
  }

  /** Case folding; only the ASCII letters are mapped (see README). */
  function LowerChar(c: char): char {
    if 'A' <= c <= 'Z' then (c as int + 32) as char else c
  }

  function ToLower(s: string): (r: string)
    ensures |r| == |s|
  {
    if s == [] then [] else [LowerChar(s[0])] + ToLower(s[1..])
  }

  /** `toLowerCase` maps each character on its own. */
  lemma {:induction false} ToLowerAt(s: string)
    ensures forall i :: 0 <= i < |s| ==> ToLower(s)[i] == LowerChar(s[i])
  {
    if s != [] {
      ToLowerAt(s[1..]);
    }
  }

  /** `t` occurs in `h` at offset `i`. */
  predicate MatchAt(h: string, t: string, i: int) {
    0 <= i && i + |t| <= |h| && h[i..i + |t|] == t
  }

  /** `h.indexOf(t, from)`: the first occurrence at or after `from`, or -1 (`IndexOfFirst`).
      Only for a non-empty `t` or `from <= |h|`: JavaScript gives `|h|` for
      `h.indexOf("", from)` with `from > |h|`, where this gives -1. */
  function IndexOf(h: string, t: string, from: nat): (r: int)
    decreases |h| - from
    ensures r == -1 || from <= r <= |h| - |t|
  {
    if from + |t| > |h| then -1
    else if h[from..from + |t|] == t then from
    else IndexOf(h, t, from + 1)
  }

  lemma {:induction false} IndexOfFirst(h: string, t: string, from: nat)
    decreases |h| - from
    ensures var r := IndexOf(h, t, from);
            && (r == -1 || MatchAt(h, t, r))
            && (forall j :: from <= j && (r == -1 || j < r) ==> !MatchAt(h, t, j))
  {
    if from + |t| <= |h| && h[from..from + |t|] != t {
      IndexOfFirst(h, t, from + 1);
    }
  }

  function LastIndexOfFrom(h: string, t: string, i: int): (r: int)
    decreases i + 1
    ensures r == -1 || 0 <= r <= i
  {
    if i < 0 then -1
    else if MatchAt(h, t, i) then i
    else LastIndexOfFrom(h, t, i - 1)
  }

  /** `h.lastIndexOf(t)`: the last occurrence, or -1 (`LastIndexOfLast`). */
  function LastIndexOf(h: string, t: string): (r: int)
    ensures r == -1 || 0 <= r <= |h| - |t|
  {
    LastIndexOfFrom(h, t, |h| - |t|)
  }

  lemma {:induction false} LastIndexOfFromLast(h: string, t: string, i: int)
    decreases i + 1
    ensures var r := LastIndexOfFrom(h, t, i);
            && (r == -1 || MatchAt(h, t, r))
            && (forall j :: r < j <= i ==> !MatchAt(h, t, j))
  {
    if i >= 0 && !MatchAt(h, t, i) {
      LastIndexOfFromLast(h, t, i - 1);
    }
  }

  /** `lastIndexOf` finds an occurrence, and none lies after it. */
  lemma LastIndexOfLast(h: string, t: string)
    ensures var r := LastIndexOf(h, t);
            && (r == -1 || MatchAt(h, t, r))
            && (forall j :: r < j ==> !MatchAt(h, t, j))
  {
    LastIndexOfFromLast(h, t, |h| - |t|);
  }

  /** A double line break is never found later than the last single one, so
      `Math.max(w.lastIndexOf("\n\n"), w.lastIndexOf("\n"))` is the last newline. */
  lemma DoubleBreakNotLater(w: string)
    ensures LastIndexOf(w, "\n\n") <= LastIndexOf(w, "\n")
    ensures Max(LastIndexOf(w, "\n\n"), LastIndexOf(w, "\n")) == LastIndexOf(w, "\n")
  {
    LastIndexOfLast(w, "\n\n");
    LastIndexOfLast(w, "\n");
    var r2 := LastIndexOf(w, "\n\n");
    if r2 != -1 {
      assert w[r2..r2 + 2][0] == '\n';
      assert w[r2..r2 + 1] == "\n";
      assert MatchAt(w, "\n", r2);
    }
  }

  /** A window without a newline has no break of either kind. */
  lemma NoBreakWithoutNewline(w: string)
    requires forall i :: 0 <= i < |w| ==> w[i] != '\n'
    ensures LastIndexOf(w, "\n") == -1 && LastIndexOf(w, "\n\n") == -1
  {
    LastIndexOfLast(w, "\n");
    forall j | 0 <= j < |w| ensures !MatchAt(w, "\n", j) {
      assert w[j..j + 1][0] == w[j];
    }
    DoubleBreakNotLater(w);
  }

  // ---- decimal formatting of indices (template literal `${index}`) ----

  function DigitChar(d: nat): char
    requires d < 10
  {
    ('0' as int + d) as char
  }

  function DigitValue(c: char): int {
    c as int - '0' as int
  }

  /** `String(n)` for a non-negative integer. */
  function NatToString(n: nat): (s: string)
    ensures |s| > 0
  {
    if n < 10 then [DigitChar(n)] else NatToString(n / 10) + [DigitChar(n % 10)]
  }

  function ParseDecimal(s: string): int {
    if s == [] then 0 else 10 * ParseDecimal(s[..|s| - 1]) + DigitValue(s[|s| - 1])
  }

  lemma {:induction false} ParseNatToString(n: nat)
    ensures ParseDecimal(NatToString(n)) == n
  {
    var s := NatToString(n);
    if n >= 10 {
      ParseNatToString(n / 10);
      assert s[..|s| - 1] == NatToString(n / 10);
    }
  }

  /** A formatted number consists of decimal digits only. */
  lemma {:induction false} NatToStringDigits(n: nat)
    ensures forall k :: 0 <= k < |NatToString(n)| ==> '0' <= NatToString(n)[k] <= '9'
  {
    if n >= 10 {
      NatToStringDigits(n / 10);
    }
  }

  /** Distinct indices print differently. */
  lemma NatToStringInjective(i: nat, j: nat)
    requires NatToString(i) == NatToString(j)
    ensures i == j
  {
    ParseNatToString(i);
    ParseNatToString(j);
  }

  // ---- SQLite BINARY collation on TEXT (byte order of UTF-8 = code-point order) ----

  predicate StrLess(a: string, b: string) {
    if a == [] then b != []
    else b != [] && (a[0] < b[0] || (a[0] == b[0] && StrLess(a[1..], b[1..])))
  }

  lemma {:induction false} StrLessIrreflexive(a: string)
    ensures !StrLess(a, a)
  {
    if a != [] { StrLessIrreflexive(a[1..]); }
  }

  lemma {:induction false} StrLessTransitive(a: string, b: string, c: string)
    requires StrLess(a, b) && StrLess(b, c)
    ensures StrLess(a, c)
  {
    if a != [] && b != [] && c != [] && a[0] == b[0] == c[0] {
      StrLessTransitive(a[1..], b[1..], c[1..]);
    }
  }

  lemma {:induction false} StrLessTotal(a: string, b: string)
    requires a != b
    ensures StrLess(a, b) || StrLess(b, a)
  {
    if a != [] && b != [] && a[0] == b[0] {
      assert a == [a[0]] + a[1..] && b == [b[0]] + b[1..];
      StrLessTotal(a[1..], b[1..]);
    }
  }
}
