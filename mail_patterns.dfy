/**
 * The regular expressions the manual parser applies to raw message text,
 * each as a function that finds the match ECMAScript's backtracking matcher
 * reports, together with a declarative description of "a match" and the
 * priority rule (leftmost start; greedy quantifiers longest first, lazy ones
 * shortest first) that singles out the reported one.
 *
 * - `/^Name:\s*(.+)$/m`         — a header field (`From:`, `Date:`,
 *                                  `Content-Transfer-Encoding:`)
 * - `/^Subject:\s*([\s\S]*?)(?=\r?\n[A-Za-z-]+:\s|\r?\n\r?\n|$)/m`
 * - `/\r?\n\r?\n([\s\S]+?)\r?\n*$/` — the header/body boundary (no `/m`)
 * - `.replace(/\r?\n\s*\/g, '')`  — subject unfolding
 * - `.replace(/<[^>]*>/g, '')`    — HTML tag stripping
 */
module MailPatterns {
  import opened Wrappers
  import opened JsText

  // ---------------------------------------------------------------------------
  // Positions

  /** `^` under `/m`: the start of the text or just after a line terminator. */
  predicate LineStart(s: string, i: int)
    requires 0 <= i <= |s|
  {
    i == 0 || IsLineTerminator(s[i - 1])
  }

  /** `$` under `/m`: the end of the text or just before a line terminator. */
  predicate LineEnd(s: string, k: int)
    requires 0 <= k <= |s|
  {
    k == |s| || IsLineTerminator(s[k])
  }

  /** A line of `s` starts at `i` with `name`. */
  predicate HeaderLineAt(s: string, name: string, i: int) {
    0 <= i && i + |name| <= |s| && LineStart(s, i) && s[i..i + |name|] == name
  }

  /** `s[a..b]` is white space (what `\s*` can consume). */
  predicate SpaceRun(s: string, a: int, b: int)
    requires 0 <= a <= b <= |s|
  {
    forall x :: a <= x < b ==> IsSpace(s[x])
  }

  /** `s[a..b]` holds no line terminator (what `.+` and `.*` can consume). */
  predicate NoTerminator(s: string, a: int, b: int)
    requires 0 <= a <= b <= |s|
  {
    forall x :: a <= x < b ==> !IsLineTerminator(s[x])
  }

  /** The end of the white-space run starting at `p`: where a greedy `\s*` stops first. */
  function SpaceEnd(s: string, p: nat): (w: nat)
    requires p <= |s|
    ensures p <= w <= |s| && SpaceRun(s, p, w) && (w < |s| ==> !IsSpace(s[w]))
    decreases |s| - p
  {
    if p < |s| && IsSpace(s[p]) then SpaceEnd(s, p + 1) else p
  }

  /** The first line end at or after `p`: where a lazy `[\s\S]*?` first meets `$`, or a greedy `.*` stops. */
  function LineEndFrom(s: string, p: nat): (k: nat)
    requires p <= |s|
    ensures p <= k <= |s| && NoTerminator(s, p, k) && LineEnd(s, k)
    decreases |s| - p
  {
    if p < |s| && !IsLineTerminator(s[p]) then LineEndFrom(s, p + 1) else p
  }

  /** The last character at or after `p` that is not a line terminator. */
  function LastNonTerminator(s: string, p: nat): (q: Option<nat>)
    requires p <= |s|
    ensures q.Some? ==> (p <= q.value < |s| && !IsLineTerminator(s[q.value])
      && forall x :: q.value < x < |s| ==> IsLineTerminator(s[x]))
    ensures q.None? ==> forall x :: p <= x < |s| ==> IsLineTerminator(s[x])
    decreases |s| - p
  {
    if p == |s| then None
    else match LastNonTerminator(s, p + 1)
      case Some(q) => Some(q)
      case None => if IsLineTerminator(s[p]) then None else Some(p)
  }

  // ---------------------------------------------------------------------------
  // Header fields: /^Name\s*(.+)$/m

  /** `\s*(.+)$` matched from `p`, the group spanning `s[j..k]`. */
  predicate IsCapture(s: string, p: int, j: int, k: int) {
    0 <= p <= j < k <= |s| && SpaceRun(s, p, j) && NoTerminator(s, j, k) && LineEnd(s, k)
  }

  /** `(i, j, k)` is a match of `/^Name\s*(.+)$/m`: the line starts at `i`, the group is `s[j..k]`. */
  predicate IsFieldMatch(s: string, name: string, i: int, j: int, k: int) {
    HeaderLineAt(s, name, i) && IsCapture(s, i + |name|, j, k)
  }

  /**
   * The capture a greedy `\s*` followed by `(.+)$` settles on from `p`. The
   * white-space run is taken whole when something follows it; when it runs to
   * the end of the text, `\s*` gives characters back until `.+` can take the
   * last character that is not a line terminator.
   */
  function CaptureFrom(s: string, p: nat): (r: Option<(nat, nat)>)
    requires p <= |s|
    ensures r.Some? ==> (IsCapture(s, p, r.value.0, r.value.1)
      && forall j, k :: IsCapture(s, p, j, k) ==> j < r.value.0 || (j == r.value.0 && k == r.value.1))
    ensures r.None? ==> forall j, k :: !IsCapture(s, p, j, k)
  {
    var w := SpaceEnd(s, p);
    if w < |s| then
      var k := LineEndFrom(s, w);
      assert !IsLineTerminator(s[w]);
      forall j, k' | IsCapture(s, p, j, k') ensures j < w || (j == w && k' == k) {
        assert j <= w;
        if j == w {
          CaptureEnd(s, j, k, k');
        }
      }
      Some((w, k))
    else
      CaptureStartsLine(s, p);
      match LastNonTerminator(s, p)
      case None => None
      case Some(q) =>
        var k := LineEndFrom(s, q);
        CaptureEnd(s, q, k, q + 1);
        forall j, k' | IsCapture(s, p, j, k') ensures j < q || (j == q && k' == k) {
          if j == q {
            CaptureEnd(s, j, k, k');
          }
        }
        Some((q, k))
  }

  /** A capture starts with a character other than a line terminator. */
  lemma CaptureStartsLine(s: string, p: int)
    ensures forall j, k :: IsCapture(s, p, j, k) ==> !IsLineTerminator(s[j])
  {
  }

  /** Between `j` and a line end there is only one line end that no terminator precedes. */
  lemma CaptureEnd(s: string, j: int, k: int, k': int)
    requires 0 <= j <= k <= |s| && j <= k' <= |s|
    requires NoTerminator(s, j, k) && LineEnd(s, k) && NoTerminator(s, j, k') && LineEnd(s, k')
    ensures k == k'
  {
    FirstLineEnd(s, j, k, k');
    FirstLineEnd(s, j, k', k);
  }

  /** No line end comes before the end of a run without line terminators. */
  lemma FirstLineEnd(s: string, j: int, k: int, k': int)
    requires 0 <= j <= k <= |s| && j <= k' <= |s|
    requires NoTerminator(s, j, k) && LineEnd(s, k')
    ensures k <= k'
  {
  }

  /** The first match of the field pattern whose line starts at or after `i`. */
  function FieldMatchFrom(s: string, name: string, i: nat): (m: Option<(nat, nat, nat)>)
    ensures m.Some? ==> (i <= m.value.0 && IsFieldMatch(s, name, m.value.0, m.value.1, m.value.2)
      && forall i', j, k :: i <= i' && IsFieldMatch(s, name, i', j, k) ==>
           m.value.0 < i' || (m.value.0 == i' && (j < m.value.1 || (j == m.value.1 && k == m.value.2))))
    ensures m.None? ==> forall i', j, k :: i <= i' ==> !IsFieldMatch(s, name, i', j, k)
    decreases |s| + 1 - i
  {
    if i + |name| > |s| then
      None
    else if HeaderLineAt(s, name, i) then
      match CaptureFrom(s, i + |name|)
      case Some(c) => Some((i, c.0, c.1))
      case None => FieldMatchFrom(s, name, i + 1)
    else
      FieldMatchFrom(s, name, i + 1)
  }

  /**
   * `s.match(/^Name\s*(.+)$/m)`: the earliest line starting with `name` where
   * the pattern matches, and there the longest white-space run.
   */
  function FieldMatch(s: string, name: string): (m: Option<(nat, nat, nat)>)
    ensures m.Some? ==> (IsFieldMatch(s, name, m.value.0, m.value.1, m.value.2)
      && forall i, j, k :: IsFieldMatch(s, name, i, j, k) ==>
           m.value.0 < i || (m.value.0 == i && (j < m.value.1 || (j == m.value.1 && k == m.value.2))))
    ensures m.None? <==> forall i, j, k :: !IsFieldMatch(s, name, i, j, k)
  {
    FieldMatchFrom(s, name, 0)
  }

  /** `s.match(/^Name\s*(.+)$/m)?.[1]`: the group of the reported match. */
  function FieldValue(s: string, name: string): (v: Option<string>)
    ensures v.Some? ==> v.value != [] && forall c :: c in v.value ==> !IsLineTerminator(c)
    ensures v.None? <==> forall i, j, k :: !IsFieldMatch(s, name, i, j, k)
  {
    match FieldMatch(s, name)
    case None => None
    case Some(m) => Some(s[m.1..m.2])
  }

  /** With no line starting with `name` the pattern finds nothing. */
  lemma FieldAbsent(s: string, name: string)
    requires forall i :: !HeaderLineAt(s, name, i)
    ensures FieldValue(s, name) == None
  {
  }

  /**
   * A line starting with `name` that is followed by a character other than a
   * line terminator somewhere after the name gives a match.
   */
  lemma FieldPresent(s: string, name: string, i: nat, x: nat)
    requires HeaderLineAt(s, name, i) && i + |name| <= x < |s| && !IsLineTerminator(s[x])
    ensures FieldValue(s, name).Some?
  {
    var r := CaptureFrom(s, i + |name|);
    assert LastNonTerminator(s, i + |name|).Some?;
    assert IsFieldMatch(s, name, i, r.value.0, r.value.1);
  }

  /**
   * On the first line starting with `name`, when the white space after the
   * name (which may run over line breaks) ends before the text does, the
   * pattern matches there: the group runs from the end of that white space to
   * the end of the line it reaches.
   */
  lemma FieldOnHeader(s: string, name: string, i: nat)
    requires HeaderLineAt(s, name, i)
    requires forall i' :: 0 <= i' < i ==> !HeaderLineAt(s, name, i')
    requires SpaceEnd(s, i + |name|) < |s|
    ensures var w := SpaceEnd(s, i + |name|);
      FieldMatch(s, name) == Some((i, w, LineEndFrom(s, w)))
  {
    var p := i + |name|;
    var w := SpaceEnd(s, p);
    var e := LineEndFrom(s, w);
    assert !IsLineTerminator(s[w]);
    assert IsCapture(s, p, w, e);
    assert IsFieldMatch(s, name, i, w, e);
    var m := FieldMatch(s, name).value;
    assert HeaderLineAt(s, name, m.0);
    assert m.0 == i;
    assert IsCapture(s, p, m.1, m.2);
    SpaceRunWithin(s, p, m.1);
  }

  /** A white-space run from `p` ends no later than the greedy `\s*` from `p` does. */
  lemma SpaceRunWithin(s: string, p: nat, j: nat)
    requires p <= j <= |s| && SpaceRun(s, p, j)
    ensures j <= SpaceEnd(s, p)
  {
  }

  /**
   * On the first line starting with `name`, when that line holds something
   * other than white space after the name, the pattern matches there: the
   * group runs from the first such character to the end of the line.
   */
  lemma FieldOnFirstLine(s: string, name: string, i: nat, x: nat)
    requires HeaderLineAt(s, name, i)
    requires forall i' :: 0 <= i' < i ==> !HeaderLineAt(s, name, i')
    requires i + |name| <= x < LineEndFrom(s, i + |name|) && !IsSpace(s[x])
    ensures FieldMatch(s, name) == Some((i, SpaceEnd(s, i + |name|), LineEndFrom(s, i + |name|)))
  {
    var p := i + |name|;
    var e := LineEndFrom(s, p);
    var w := SpaceEnd(s, p);
    assert w <= x;
    assert NoTerminator(s, w, e);
    CaptureEnd(s, w, LineEndFrom(s, w), e);
    FieldOnHeader(s, name, i);
  }

  /** The trimmed value on the first line starting with `name` is the rest of that line, trimmed. */
  lemma FieldValueOnFirstLine(s: string, name: string, i: nat, x: nat)
    requires HeaderLineAt(s, name, i)
    requires forall i' :: 0 <= i' < i ==> !HeaderLineAt(s, name, i')
    requires i + |name| <= x < LineEndFrom(s, i + |name|) && !IsSpace(s[x])
    ensures FieldValue(s, name).Some?
    ensures Trim(FieldValue(s, name).value) == Trim(s[i + |name|..LineEndFrom(s, i + |name|)])
  {
    FieldOnFirstLine(s, name, i, x);
    var p := i + |name|;
    var e := LineEndFrom(s, p);
    var w := SpaceEnd(s, p);
    assert FieldValue(s, name) == Some(s[w..e]);
    TrimAfterSpaceRun(s, p, w, e);
  }

  lemma TrimAfterSpaceRun(s: string, p: nat, w: nat, e: nat)
    requires p <= w <= e <= |s| && SpaceRun(s, p, w)
    ensures Trim(s[p..e]) == Trim(s[w..e])
  {
    assert s[p..e] == s[p..w] + s[w..e];
    forall y | 0 <= y < w - p ensures IsSpace(s[p..w][y]) {
      assert s[p..w][y] == s[p + y];
    }
    TrimPrependSpace(s[p..w], s[w..e]);
  }

  // ---------------------------------------------------------------------------
  // The subject: /^Subject:\s*([\s\S]*?)(?=\r?\n[A-Za-z-]+:\s|\r?\n\r?\n|$)/m

  const SubjectName: string := "Subject:"

  /** `\r?\n` at `k`, and where it ends. */
  function NewlineEnd(s: string, k: nat): (e: Option<nat>)
    requires k <= |s|
    ensures e.Some? ==> k < e.value <= |s| && IsLineTerminator(s[k])
  {
    if k + 1 < |s| && s[k] == '\r' && s[k + 1] == '\n' then Some(k + 2)
    else if k < |s| && s[k] == '\n' then Some(k + 1)
    else None
  }

  predicate IsHeaderNameChar(c: char) {
    'A' <= c <= 'Z' || 'a' <= c <= 'z' || c == '-'
  }

  /** `[A-Za-z-]+:\s` spans `s[e..colon + 2]`. */
  predicate HeaderNameSpan(s: string, e: int, colon: int) {
    0 <= e < colon && colon + 1 < |s| && s[colon] == ':' && IsSpace(s[colon + 1])
      && forall x :: e <= x < colon ==> IsHeaderNameChar(s[x])
  }

  /** `[A-Za-z-]+:\s` at `e`. */
  ghost predicate HeaderNameAt(s: string, e: int) {
    exists colon :: HeaderNameSpan(s, e, colon)
  }

  /** The lookahead `(?=\r?\n[A-Za-z-]+:\s|\r?\n\r?\n|$)` holds at `k`. */
  ghost predicate SubjectStopAt(s: string, k: int)
    requires 0 <= k <= |s|
  {
    || (NewlineEnd(s, k).Some? && HeaderNameAt(s, NewlineEnd(s, k).value))
    || (NewlineEnd(s, k).Some? && NewlineEnd(s, NewlineEnd(s, k).value).Some?)
    || LineEnd(s, k)
  }

  /** The first two alternatives start with a newline, so all three amount to `$`. */
  lemma SubjectStopIsLineEnd(s: string, k: int)
    requires 0 <= k <= |s|
    ensures SubjectStopAt(s, k) <==> LineEnd(s, k)
  {
  }

  /** `(i, j, k)` is a match of the subject pattern: line at `i`, `\s*` up to `j`, group `s[j..k]`. */
  ghost predicate IsSubjectMatch(s: string, i: int, j: int, k: int) {
    HeaderLineAt(s, SubjectName, i) && i + |SubjectName| <= j <= k <= |s|
      && SpaceRun(s, i + |SubjectName|, j) && SubjectStopAt(s, k)
  }

  /** The first subject match whose line starts at or after `i`. */
  function SubjectMatchFrom(s: string, i: nat): (m: Option<(nat, nat, nat)>)
    ensures m.Some? ==> (i <= m.value.0 && IsSubjectMatch(s, m.value.0, m.value.1, m.value.2)
      && forall i', j, k :: i <= i' && IsSubjectMatch(s, i', j, k) ==>
           m.value.0 < i' || (m.value.0 == i' && (j < m.value.1 || (j == m.value.1 && m.value.2 <= k))))
    ensures m.Some? ==> NoTerminator(s, m.value.1, m.value.2)
    ensures m.None? <==> forall i' :: i <= i' ==> !HeaderLineAt(s, SubjectName, i')
    decreases |s| + 1 - i
  {
    if i + |SubjectName| > |s| then
      None
    else if HeaderLineAt(s, SubjectName, i) then
      var w := SpaceEnd(s, i + |SubjectName|);
      var k := LineEndFrom(s, w);
      SubjectStopIsLineEnd(s, k);
      forall i', j, k' | i <= i' && IsSubjectMatch(s, i', j, k') && i' == i
        ensures j < w || (j == w && k <= k')
      {
        assert j <= w;
        SubjectStopIsLineEnd(s, k');
        if j == w {
          FirstLineEnd(s, w, k, k');
        }
      }
      Some((i, w, k))
    else
      SubjectMatchFrom(s, i + 1)
  }

  /**
   * The subject pattern's reported match: the first `Subject:` line, all the
   * white space after the name (across line breaks too), and the shortest
   * group the lookahead accepts, which ends at the first line end.
   */
  function SubjectMatch(s: string): (m: Option<(nat, nat, nat)>)
    ensures m.Some? ==> (IsSubjectMatch(s, m.value.0, m.value.1, m.value.2)
      && forall i, j, k :: IsSubjectMatch(s, i, j, k) ==>
           m.value.0 < i || (m.value.0 == i && (j < m.value.1 || (j == m.value.1 && m.value.2 <= k))))
    ensures m.Some? ==> NoTerminator(s, m.value.1, m.value.2)
    ensures m.None? <==> forall i :: !HeaderLineAt(s, SubjectName, i)
  {
    SubjectMatchFrom(s, 0)
  }

  /**
   * `s.match(subject pattern)?.[1]`: present exactly when some line starts
   * with `Subject:`, and then free of line terminators.
   */
  function SubjectValue(s: string): (v: Option<string>)
    ensures v.None? <==> forall i :: !HeaderLineAt(s, SubjectName, i)
    ensures v.Some? ==> forall c :: c in v.value ==> !IsLineTerminator(c)
  {
    match SubjectMatch(s)
    case None => None
    case Some(m) =>
      assert forall x :: 0 <= x < m.2 - m.1 ==> s[m.1..m.2][x] == s[m.1 + x];
      Some(s[m.1..m.2])
  }

  // ---------------------------------------------------------------------------
  // Unfolding: .replace(/\r?\n\s*/g, '')

  /** Every `\r?\n` together with the white space after it removed. */
  function RemoveFolds(s: string): (r: string)
    ensures '\n' !in r
    ensures forall c :: c in r ==> c in s
    decreases |s|
  {
    if s == [] then []
    else if |s| >= 2 && s[0] == '\r' && s[1] == '\n' then RemoveFolds(s[SpaceEnd(s, 2)..])
    else if s[0] == '\n' then RemoveFolds(s[SpaceEnd(s, 1)..])
    else [s[0]] + RemoveFolds(s[1..])
  }

  /** Text without a newline is left as it is. */
  lemma {:induction false} RemoveFoldsIdentity(s: string)
    requires '\n' !in s
    ensures RemoveFolds(s) == s
    decreases |s|
  {
    if s != [] {
      assert s[0] != '\n' && (|s| >= 2 ==> s[1] != '\n');
      assert '\n' !in s[1..];
      RemoveFoldsIdentity(s[1..]);
      assert s == [s[0]] + s[1..];
    }
  }

  // ---------------------------------------------------------------------------
  // The header/body boundary: /\r?\n\r?\n([\s\S]+?)\r?\n*$/

  /** `s[p..q]` is a blank line as `\r?\n\r?\n` reads it. */
  predicate IsBlankLine(s: string, p: int, q: int) {
    0 <= p <= q <= |s|
      && (s[p..q] == "\n\n" || s[p..q] == "\r\n\n" || s[p..q] == "\n\r\n" || s[p..q] == "\r\n\r\n")
  }

  /** Where `\r?\n\r?\n` matched at `p` ends. */
  function BlankLineEnd(s: string, p: nat): (q: Option<nat>)
    requires p <= |s|
    ensures q.Some? <==> exists q' :: IsBlankLine(s, p, q')
    ensures q.Some? ==> IsBlankLine(s, p, q.value)
  {
    BlankLineShape(s, p);
    match NewlineEnd(s, p)
    case None => None
    case Some(e) =>
      match NewlineEnd(s, e)
      case None => None
      case Some(q) =>
        assert IsBlankLine(s, p, q) by {
          if e == p + 1 && q == e + 1 {
            assert s[p..q] == "\n\n";
          } else if e == p + 1 {
            assert s[p..q] == "\n\r\n";
          } else if q == e + 1 {
            assert s[p..q] == "\r\n\n";
          } else {
            assert s[p..q] == "\r\n\r\n";
          }
        }
        Some(q)
  }

  /** The four blank-line spellings, character by character. */
  lemma BlankLineShape(s: string, p: nat)
    requires p <= |s|
    ensures forall q :: IsBlankLine(s, p, q) ==>
      NewlineEnd(s, p).Some? && NewlineEnd(s, NewlineEnd(s, p).value) == Some(q)
  {
    forall q | IsBlankLine(s, p, q)
      ensures NewlineEnd(s, p).Some? && NewlineEnd(s, NewlineEnd(s, p).value) == Some(q)
    {
      var t := s[p..q];
      assert forall x :: 0 <= x < |t| ==> t[x] == s[p + x];
    }
  }

  /** `\r?\n*$` (no `/m`: the very end of the text) matches `s[k..]`. */
  predicate TrailingNewlines(s: string, k: int)
    requires 0 <= k <= |s|
  {
    (forall x :: k <= x < |s| ==> s[x] == '\n')
      || (k < |s| && s[k] == '\r' && forall x :: k < x < |s| ==> s[x] == '\n')
  }

  /** `(p, q, k)` is a match of the boundary pattern: blank line `s[p..q]`, group `s[q..k]`. */
  predicate IsBoundaryMatch(s: string, p: int, q: int, k: int) {
    IsBlankLine(s, p, q) && q < k <= |s| && TrailingNewlines(s, k)
  }

  /** Where a lazy `[\s\S]+?` that has taken `s[..k]` first lets `\r?\n*$` through. */
  function LazyEnd(s: string, k: nat): (e: nat)
    requires k <= |s|
    ensures k <= e <= |s| && TrailingNewlines(s, e)
    ensures forall x :: k <= x < e ==> !TrailingNewlines(s, x)
    decreases |s| - k
  {
    if TrailingNewlines(s, k) then k else LazyEnd(s, k + 1)
  }

  /** The first boundary match starting at or after `p`. */
  function BoundaryMatchFrom(s: string, p: nat): (m: Option<(nat, nat, nat)>)
    requires p <= |s|
    ensures m.Some? ==> (p <= m.value.0 && IsBoundaryMatch(s, m.value.0, m.value.1, m.value.2)
      && forall p', q, k :: p <= p' && IsBoundaryMatch(s, p', q, k) ==>
           m.value.0 < p' || (m.value.0 == p' && q == m.value.1 && m.value.2 <= k))
    ensures m.None? ==> forall p', q, k :: p <= p' ==> !IsBoundaryMatch(s, p', q, k)
    decreases |s| - p
  {
    if p == |s| then
      None
    else
      match BlankLineEnd(s, p)
      case Some(q) =>
        BoundaryAt(s, p, q);
        if q < |s| then
          Some((p, q, LazyEnd(s, q + 1)))
        else
          BoundaryMatchFrom(s, p + 1)
      case None =>
        BoundaryMatchFrom(s, p + 1)
  }

  /**
   * A match at `p` uses the one blank line found there and lets the lazy group
   * run at least to `LazyEnd`; with nothing after that blank line there is none.
   */
  lemma BoundaryAt(s: string, p: nat, q: nat)
    requires p <= |s| && BlankLineEnd(s, p) == Some(q)
    ensures forall q', k :: IsBoundaryMatch(s, p, q', k) ==>
      q' == q && q < |s| && LazyEnd(s, q + 1) <= k
  {
    BlankLineShape(s, p);
  }

  /**
   * `s.match(/\r?\n\r?\n([\s\S]+?)\r?\n*$/)`: the leftmost blank line that has
   * at least one character after it, and the shortest group after it that
   * leaves only `\r?\n*` to the end of the text.
   */
  function BoundaryMatch(s: string): (m: Option<(nat, nat, nat)>)
    ensures m.Some? ==> (IsBoundaryMatch(s, m.value.0, m.value.1, m.value.2)
      && forall p, q, k :: IsBoundaryMatch(s, p, q, k) ==>
           m.value.0 < p || (m.value.0 == p && q == m.value.1 && m.value.2 <= k))
    ensures m.None? <==> forall p, q, k :: !IsBoundaryMatch(s, p, q, k)
  {
    BoundaryMatchFrom(s, 0)
  }

  // ---------------------------------------------------------------------------
  // HTML tags: .replace(/<[^>]*>/g, '')

  /** No `<` is followed, anywhere later, by a `>`. */
  predicate NoTagLeft(r: string) {
    forall i, j :: 0 <= i < j < |r| && r[i] == '<' ==> r[j] != '>'
  }

  /** Every `<` that a later `>` closes is dropped together with everything up to the first such `>`. */
  function StripTags(s: string): (r: string)
    ensures forall c :: c in r ==> c in s
    ensures NoTagLeft(r)
    decreases |s|
  {
    if s == [] then []
    else if s[0] == '<' then
      match IndexOf(s, '>')
      case Some(e) => StripTags(s[e + 1..])
      case None =>
        var rest := StripTags(s[1..]);
        NoTagAfterPrefix(s[0], rest);
        [s[0]] + rest
    else
      var rest := StripTags(s[1..]);
      NoTagAfterPrefix(s[0], rest);
      [s[0]] + rest
  }

  lemma NoTagAfterPrefix(c: char, rest: string)
    requires NoTagLeft(rest) && (c == '<' ==> '>' !in rest)
    ensures NoTagLeft([c] + rest)
  {
    var r := [c] + rest;
    forall i, j | 0 <= i < j < |r| && r[i] == '<' ensures r[j] != '>' {
      assert r[j] == rest[j - 1];
      if i > 0 {
        assert r[i] == rest[i - 1];
      }
    }
  }

  /** Text with no `<` in it is kept as it stands, ahead of whatever the rest strips to. */
  lemma {:induction false} StripTagsKeepsText(a: string, rest: string)
    requires '<' !in a
    ensures StripTags(a + rest) == a + StripTags(rest)
    decreases |a|
  {
    if a == [] {
      assert a + rest == rest;
    } else {
      var s := a + rest;
      assert s[0] == a[0] && s[1..] == a[1..] + rest;
      assert '<' !in a[1..];
      StripTagsKeepsText(a[1..], rest);
      assert a == [a[0]] + a[1..];
    }
  }

  /** A `<` closed by the first `>` after it goes, together with everything between them. */
  lemma StripTagsDropsTag(t: string, rest: string)
    requires '>' !in t
    ensures StripTags("<" + t + ">" + rest) == StripTags(rest)
  {
    var s := "<" + t + ">" + rest;
    var e := |t| + 1;
    assert s[e] == '>';
    assert s[..e] == "<" + t;
    assert s[e + 1..] == rest;
  }

  /** A `<` that no later `>` closes stays, and so does all text without a `>`. */
  lemma {:induction false} StripTagsUnclosed(s: string)
    requires '>' !in s
    ensures StripTags(s) == s
    decreases |s|
  {
    if s != [] {
      assert '>' !in s[1..];
      StripTagsUnclosed(s[1..]);
      assert s == [s[0]] + s[1..];
    }
  }

  /**
   * `replace(/<[^>]*>/g, '')` on text whose first tag opens after the tag-free
   * text `a` and closes at the first `>`: `a` stays and the tag goes.
   */
  lemma StripTagsTag(a: string, t: string, rest: string)
    requires '<' !in a && '>' !in t
    ensures StripTags(a + "<" + t + ">" + rest) == a + StripTags(rest)
  {
    assert a + "<" + t + ">" + rest == a + ("<" + t + ">" + rest);
    StripTagsKeepsText(a, "<" + t + ">" + rest);
    StripTagsDropsTag(t, rest);
  }

  /** Text without a `<` has no tag to strip. */
  lemma StripTagsIdentity(s: string)
    requires '<' !in s
    ensures StripTags(s) == s
  {
    StripTagsKeepsText(s, []);
    assert s + [] == s;
  }
}
