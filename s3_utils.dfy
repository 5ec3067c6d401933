/**
 * The manual message parser of src/utils/s3-utils.ts: the recipient filter,
 * `parseEmailContent` field by field, and the newest-first ordering the scan
 * applies to its result.
 */
module S3Utils {
  import opened Wrappers
  import opened JsText
  import opened Types
  import opened Host
  import opened MailPatterns
  import Base64

  // ---------------------------------------------------------------------------
  // Recipient filter

  /** `isEmailForAddress`: the text mentions `To: address` or `<address>` anywhere. */
  function IsEmailForAddress(content: string, address: string): (b: bool)
    ensures b <==> ((exists i :: OccursAt(content, "To: " + address, i))
                 || (exists i :: OccursAt(content, "<" + address + ">", i)))
  {
    Includes(content, "To: " + address) || Includes(content, "<" + address + ">")
  }

  // ---------------------------------------------------------------------------
  // Header fields

  const FromName: string := "From:"
  const DateName: string := "Date:"
  const EncodingName: string := "Content-Transfer-Encoding:"

  /** The sender: the trimmed group of `/^From:\s*(.+)$/m`, or `Unknown` without a match. */
  function ParseFrom(content: string): (from: string)
    ensures IsTrimmed(from)
    ensures forall c :: c in from ==> !IsLineTerminator(c)
    ensures (forall i :: !HeaderLineAt(content, FromName, i)) ==> from == "Unknown"
    ensures FieldValue(content, FromName).None? ==> from == "Unknown"
    ensures forall v :: FieldValue(content, FromName) == Some(v) ==> from == Trim(v)
  {
    match FieldValue(content, FromName)
    case None => "Unknown"
    case Some(v) =>
      forall c | c in Trim(v) ensures !IsLineTerminator(c) {
        TrimKeepsCharacters(v, c);
      }
      Trim(v)
  }

  /** The sender is the rest of the first `From:` line, trimmed, when that rest is not blank. */
  lemma FromOfFirstLine(content: string, i: nat, x: nat)
    requires HeaderLineAt(content, FromName, i)
    requires forall i' :: 0 <= i' < i ==> !HeaderLineAt(content, FromName, i')
    requires i + |FromName| <= x < LineEndFrom(content, i + |FromName|) && !IsSpace(content[x])
    ensures ParseFrom(content) == Trim(content[i + |FromName|..LineEndFrom(content, i + |FromName|)])
  {
    FieldValueOnFirstLine(content, FromName, i, x);
  }

  /** The receive time: the host's reading of the trimmed `Date:` value, or now. */
  function ParseReceivedAt(rt: Runtime, content: string): (at: Instant)
    ensures (forall i :: !HeaderLineAt(content, DateName, i)) ==> at == rt.now
    ensures FieldValue(content, DateName).None? ==> at == rt.now
    ensures forall v :: FieldValue(content, DateName) == Some(v) ==>
      at == (if rt.parseDate(Trim(v)).Some? then rt.parseDate(Trim(v)).value else rt.now)
  {
    match FieldValue(content, DateName)
    case None => rt.now
    case Some(v) =>
      match rt.parseDate(Trim(v))
      case Some(t) => t
      case None => rt.now
  }

  /**
   * On a message whose first `Date:` line holds a value, the receive time is
   * that value as the host parses it, and now when the host rejects it.
   */
  lemma ReceivedAtOfFirstLine(rt: Runtime, content: string, i: nat, x: nat)
    requires HeaderLineAt(content, DateName, i)
    requires forall i' :: 0 <= i' < i ==> !HeaderLineAt(content, DateName, i')
    requires i + |DateName| <= x < LineEndFrom(content, i + |DateName|) && !IsSpace(content[x])
    ensures var parsed := rt.parseDate(Trim(content[i + |DateName|..LineEndFrom(content, i + |DateName|)]));
      ParseReceivedAt(rt, content) == if parsed.Some? then parsed.value else rt.now
  {
    FieldValueOnFirstLine(content, DateName, i, x);
  }

  /** Whether the first `Content-Transfer-Encoding:` value, trimmed and lower-cased, is `base64`. */
  function IsBase64Encoded(content: string): (b: bool)
    ensures b <==> (FieldValue(content, EncodingName).Some?
                 && AsciiLower(Trim(FieldValue(content, EncodingName).value)) == "base64")
  {
    match FieldValue(content, EncodingName)
    case None => false
    case Some(v) => AsciiLower(Trim(v)) == "base64"
  }

  /** Lower-casing gives `base64` exactly for the six letters in any mix of case. */
  lemma Base64Spelling(v: string)
    ensures AsciiLower(v) == "base64" <==>
      |v| == 6 && v[0] in "bB" && v[1] in "aA" && v[2] in "sS" && v[3] in "eE" && v[4] == '6' && v[5] == '4'
  {
    if |v| == 6 {
      assert AsciiLower(v) == [LowerChar(v[0]), LowerChar(v[1]), LowerChar(v[2]), LowerChar(v[3]), LowerChar(v[4]), LowerChar(v[5])];
    }
  }

  /** The flag is the first `Content-Transfer-Encoding:` line's value, trimmed, read case-insensitively. */
  lemma EncodingOfFirstLine(content: string, i: nat, x: nat)
    requires HeaderLineAt(content, EncodingName, i)
    requires forall i' :: 0 <= i' < i ==> !HeaderLineAt(content, EncodingName, i')
    requires i + |EncodingName| <= x < LineEndFrom(content, i + |EncodingName|) && !IsSpace(content[x])
    ensures IsBase64Encoded(content) <==>
      AsciiLower(Trim(content[i + |EncodingName|..LineEndFrom(content, i + |EncodingName|)])) == "base64"
  {
    FieldValueOnFirstLine(content, EncodingName, i, x);
  }

  // ---------------------------------------------------------------------------
  // Subject

  /**
   * The test the parser applies before decoding: the subject starts with `=?`,
   * splitting it at `?` gives at least four parts, and the third is `B`.
   */
  predicate IsBEncodedWord(subject: string) {
    StartsWith(subject, "=?") && |Split(subject, '?')| >= 4 && Split(subject, '?')[2] == "B"
  }

  /** An encoded word `=?charset?B?payload?…`: its payload decoded from base64 as UTF-8; anything else as it is. */
  function DecodeSubject(rt: Runtime, subject: string): (r: string)
    ensures IsBEncodedWord(subject) ==> r == Base64ToText(rt, Split(subject, '?')[3])
    ensures !IsBEncodedWord(subject) ==> r == subject
  {
    if subject != [] && StartsWith(subject, "=?") then
      var parts := Split(subject, '?');
      if |parts| >= 4 && parts[2] == "B" then Base64ToText(rt, parts[3]) else subject
    else subject
  }

  /** What follows the payload of an encoded word: nothing, or text starting with `?`. */
  function WordTail(parts: seq<string>): string
    requires |parts| >= 4
  {
    if |parts| == 4 then "" else "?" + Join(parts[4..], '?')
  }

  /** Splitting at a separator that follows a separator-free piece yields that piece first. */
  lemma SplitCons(a: string, sep: char, b: string)
    requires sep !in a
    ensures Split(a + [sep] + b, sep) == [a] + Split(b, sep)
  {
    var t := a + [sep] + b;
    assert t[..|a|] == a && t[|a| + 1..] == b;
    SplitAt(t, sep, |a|);
  }

  /** A separator-free piece followed by nothing or by the separator is the first part. */
  lemma SplitFirst(a: string, sep: char, tail: string)
    requires sep !in a && (tail == [] || tail[0] == sep)
    ensures Split(a + tail, sep)[0] == a
  {
    if tail == [] {
      assert a + tail == a;
    } else {
      assert a + tail == a + [sep] + tail[1..];
      SplitCons(a, sep, tail[1..]);
    }
  }

  /** Where the parser splits `=?cs?B?payload…`: the four leading parts are `=`, `cs`, `B` and `payload`. */
  lemma EncodedWordSplit(cs: string, payload: string, tail: string)
    requires '?' !in cs && '?' !in payload && (tail == [] || tail[0] == '?')
    ensures var parts := Split("=?" + cs + "?B?" + payload + tail, '?');
      |parts| >= 4 && parts[0] == "=" && parts[1] == cs && parts[2] == "B" && parts[3] == payload
  {
    var t := "=?" + cs + "?B?" + payload + tail;
    var w := payload + tail;
    var v := "B" + ['?'] + w;
    var u := cs + ['?'] + v;
    assert t == "=" + ['?'] + u;
    SplitCons("=", '?', u);
    SplitCons(cs, '?', v);
    SplitCons("B", '?', w);
    var rest := Split(w, '?');
    SplitFirst(payload, '?', tail);
    var parts := ["="] + ([cs] + (["B"] + rest));
    assert Split(t, '?') == parts;
    assert parts[3] == rest[0];
  }

  /** Text of the form `=?cs?B?payload` followed by nothing or by `?…` passes the test, and `payload` is decoded. */
  lemma EncodedWordDecodes(rt: Runtime, cs: string, payload: string, tail: string)
    requires '?' !in cs && '?' !in payload && (tail == [] || tail[0] == '?')
    ensures var t := "=?" + cs + "?B?" + payload + tail;
      IsBEncodedWord(t) && DecodeSubject(rt, t) == Base64ToText(rt, payload)
  {
    var t := "=?" + cs + "?B?" + payload + tail;
    EncodedWordSplit(cs, payload, tail);
    assert t[..2] == "=?";
  }

  /** Text starting with `=?` splits into `=` and the parts of what follows. */
  lemma SplitAfterOpening(t: string)
    requires StartsWith(t, "=?")
    ensures Split(t, '?') == ["="] + Split(t[2..], '?')
  {
    assert t == "=" + ['?'] + t[2..];
    SplitCons("=", '?', t[2..]);
  }

  /** What follows the opening `=?` joins back as charset, `?B?`, payload and tail. */
  lemma JoinAfterOpening(rest: seq<string>)
    requires |rest| >= 3 && rest[1] == "B"
    ensures "=?" + Join(rest, '?') == "=?" + rest[0] + "?B?" + rest[2] + WordTail(["="] + rest)
  {
    JoinAfterCharset(rest);
    var w := WordTail(["="] + rest);
    assert "=?" + (rest[0] + "?B?" + rest[2] + w) == "=?" + rest[0] + "?B?" + rest[2] + w;
  }

  lemma JoinAfterCharset(rest: seq<string>)
    requires |rest| >= 3 && rest[1] == "B"
    ensures Join(rest, '?') == rest[0] + "?B?" + rest[2] + WordTail(["="] + rest)
  {
    var w := WordTail(["="] + rest);
    var j2 := Join(rest[2..], '?');
    assert j2 == rest[2] + w by {
      if |rest| > 3 {
        assert rest[2..][1..] == rest[3..] == (["="] + rest)[4..];
      }
    }
    var j1 := Join(rest[1..], '?');
    var mid := "B" + ['?'];
    assert j1 == mid + j2 by {
      assert rest[1..][1..] == rest[2..];
    }
    var head := rest[0] + ['?'];
    assert Join(rest, '?') == head + j1;
    assert rest[0] + "?B?" == head + mid;
    Associative(head, mid, j2);
    Associative(rest[0] + "?B?", rest[2], w);
  }

  lemma Associative(a: string, b: string, c: string)
    ensures (a + b) + c == a + (b + c)
  {
  }

  /** Conversely, text passing the test is `=?` + charset + `?B?` + payload + tail, split where the parser splits. */
  lemma EncodedWordShape(t: string)
    requires IsBEncodedWord(t)
    ensures var parts := Split(t, '?');
      && '?' !in parts[1] && '?' !in parts[3]
      && t == "=?" + parts[1] + "?B?" + parts[3] + WordTail(parts)
  {
    SplitAfterOpening(t);
    var rest := Split(t[2..], '?');
    JoinAfterOpening(rest);
    assert t == "=?" + t[2..];
  }

  /**
   * A subject written as an RFC 2047 `B` encoded word of text the host's UTF-8
   * codec round-trips reads back as that text, whatever the charset label.
   */
  lemma EncodedWordRoundTrip(rt: Runtime, cs: string, text: string)
    requires '?' !in cs && rt.utf8Decode(rt.utf8Encode(text)) == text
    ensures DecodeSubject(rt, "=?" + cs + "?B?" + TextToBase64(rt, text) + "?=") == text
  {
    var payload := TextToBase64(rt, text);
    Base64.EncodeAlphabet(rt.utf8Encode(text));
    assert '?' !in payload;
    EncodedWordDecodes(rt, cs, payload, "?=");
    TextBase64RoundTrip(rt, text);
  }

  /**
   * The subject: absent without a `Subject:` line; otherwise the group of the
   * subject pattern, unfolded when it is not empty, then decoded as an encoded word.
   */
  function ParseSubject(rt: Runtime, content: string): (subject: Option<string>)
    ensures subject.None? <==> forall i :: !HeaderLineAt(content, SubjectName, i)
  {
    var subject := SubjectValue(content);
    var subject := if subject.Some? && subject.value != [] then Some(RemoveFolds(subject.value)) else subject;
    match subject
    case None => None
    case Some(t) => Some(DecodeSubject(rt, t))
  }

  /**
   * The captured subject holds no newline, so the unfolding step leaves it
   * unchanged: the subject is the decoded capture.
   */
  lemma SubjectIsDecodedCapture(rt: Runtime, content: string)
    requires SubjectValue(content).Some?
    ensures '\n' !in SubjectValue(content).value
    ensures ParseSubject(rt, content) == Some(DecodeSubject(rt, SubjectValue(content).value))
  {
    var v := SubjectValue(content).value;
    assert '\n' !in v;
    RemoveFoldsIdentity(v);
  }

  // ---------------------------------------------------------------------------
  // Body

  /** The body the parser keeps from the text after the boundary: the first `\n`-line of it, trimmed. */
  function FirstBodyLine(rest: string): (line: string)
    ensures IsTrimmed(line) && '\n' !in line
  {
    var lines := Split(Trim(rest), '\n');
    var line := Trim(lines[0]);
    assert '\n' !in line by {
      if '\n' in line {
        TrimKeepsCharacters(lines[0], '\n');
      }
    }
    line
  }

  /**
   * The body: the whole text without a boundary; otherwise the first line
   * of the boundary group, decoded from base64 when the message says so.
   */
  function ParseBody(rt: Runtime, content: string, isBase64: bool): (body: string)
    ensures BoundaryMatch(content).None? ==> body == content
    ensures BoundaryMatch(content).Some? && !isBase64 ==> IsTrimmed(body) && '\n' !in body
  {
    match BoundaryMatch(content)
    case None => content
    case Some(m) =>
      var firstLine := FirstBodyLine(content[m.1..m.2]);
      if isBase64 then Base64ToText(rt, firstLine) else firstLine
  }

  /** Newlines after the lazy group do not reach the body: it is cut from all the text after the blank line. */
  lemma BoundaryGroupTrim(s: string, q: nat, k: nat)
    requires q <= k <= |s| && TrailingNewlines(s, k)
    ensures Trim(s[q..k]) == Trim(s[q..])
  {
    assert s[q..] == s[q..k] + s[k..];
    forall y | 0 <= y < |s| - k ensures IsSpace(s[k..][y]) {
      assert s[k..][y] == s[k + y];
    }
    TrimAppendSpace(s[q..k], s[k..]);
  }

  /**
   * With a blank line `content[p..q]` that has text after it and no blank line
   * with text after it further left, the body is cut from `content[q..]`.
   */
  lemma BodyAfterLeftmostBlankLine(rt: Runtime, content: string, isBase64: bool, p: nat, q: nat)
    requires IsBlankLine(content, p, q) && q < |content|
    requires forall p', q' :: p' < p && IsBlankLine(content, p', q') ==> q' == |content|
    ensures var line := FirstBodyLine(content[q..]);
      ParseBody(rt, content, isBase64) == if isBase64 then Base64ToText(rt, line) else line
  {
    assert IsBoundaryMatch(content, p, q, |content|);
    var m := BoundaryMatch(content).value;
    assert m.0 == p && m.1 == q;
    BoundaryGroupTrim(content, q, m.2);
  }

  /** Without a blank line that has text after it, the body is the whole text. */
  lemma BodyWithoutBoundary(rt: Runtime, content: string, isBase64: bool)
    requires forall p, q :: IsBlankLine(content, p, q) ==> q == |content|
    ensures ParseBody(rt, content, isBase64) == content
  {
  }

  // ---------------------------------------------------------------------------
  // The record

  /** `parseEmailContent`: every field from its own extractor; the storage key passed through. */
  function ParseEmailContent(rt: Runtime, id: string, content: string, s3Key: string): (e: Email)
    ensures e.id == id && e.s3Key == s3Key
    ensures IsTrimmed(e.from) && (e.subject.None? <==> forall i :: !HeaderLineAt(content, SubjectName, i))
    ensures e.from == ParseFrom(content) && e.subject == ParseSubject(rt, content)
    ensures e.receivedAt == ParseReceivedAt(rt, content)
    ensures e.body == ParseBody(rt, content, IsBase64Encoded(content))
  {
    var from := ParseFrom(content);
    var subject := ParseSubject(rt, content);
    var receivedAt := ParseReceivedAt(rt, content);
    var isBase64 := IsBase64Encoded(content);
    var body := ParseBody(rt, content, isBase64);
    Email(id, from, subject, body, receivedAt, s3Key)
  }

  // ---------------------------------------------------------------------------
  // Newest first

  /** Every message is at least as recent as the ones after it. */
  predicate NewestFirst(s: seq<Email>) {
    forall i, j :: 0 <= i < j < |s| ==> s[i].receivedAt >= s[j].receivedAt
  }

  /** `e` placed before the first message that is not more recent than it. */
  function InsertNewest(e: Email, s: seq<Email>): (r: seq<Email>)
    ensures multiset(r) == multiset(s) + multiset{e}
    decreases |s|
  {
    if s == [] || s[0].receivedAt <= e.receivedAt then [e] + s
    else
      assert s == [s[0]] + s[1..];
      [s[0]] + InsertNewest(e, s[1..])
  }

  /** No message of `s` was received after `t`. */
  predicate NoneAfter(s: seq<Email>, t: Instant) {
    forall i :: 0 <= i < |s| ==> s[i].receivedAt <= t
  }

  lemma {:induction false} InsertNoneAfter(e: Email, s: seq<Email>, t: Instant)
    requires NoneAfter(s, t) && e.receivedAt <= t
    ensures NoneAfter(InsertNewest(e, s), t)
    decreases |s|
  {
    if !(s == [] || s[0].receivedAt <= e.receivedAt) {
      InsertNoneAfter(e, s[1..], t);
    }
  }

  lemma NewestFirstCons(x: Email, r: seq<Email>)
    requires NewestFirst(r) && NoneAfter(r, x.receivedAt)
    ensures NewestFirst([x] + r)
  {
    var s := [x] + r;
    forall i, j | 0 <= i < j < |s| ensures s[i].receivedAt >= s[j].receivedAt {
      assert s[j] == r[j - 1];
      if i > 0 {
        assert s[i] == r[i - 1];
      }
    }
  }

  /** Inserting into a newest-first sequence keeps it newest first. */
  lemma {:induction false} InsertKeepsOrder(e: Email, s: seq<Email>)
    requires NewestFirst(s)
    ensures NewestFirst(InsertNewest(e, s))
    decreases |s|
  {
    if s == [] || s[0].receivedAt <= e.receivedAt {
      NewestFirstCons(e, s);
    } else {
      var rest := s[1..];
      assert NewestFirst(rest) && NoneAfter(rest, s[0].receivedAt);
      InsertKeepsOrder(e, rest);
      InsertNoneAfter(e, rest, s[0].receivedAt);
      NewestFirstCons(s[0], InsertNewest(e, rest));
    }
  }

  /**
   * `emails.sort((a, b) => time(b) - time(a))`: the messages newest first;
   * messages received at the same instant keep their order (the sort is stable).
   */
  function SortNewestFirst(s: seq<Email>): (r: seq<Email>)
    ensures NewestFirst(r)
    ensures multiset(r) == multiset(s)
    decreases |s|
  {
    if s == [] then []
    else
      assert s == [s[0]] + s[1..];
      InsertKeepsOrder(s[0], SortNewestFirst(s[1..]));
      InsertNewest(s[0], SortNewestFirst(s[1..]))
  }

  /** The messages received at instant `t`, in order. */
  function ReceivedAt(s: seq<Email>, t: Instant): seq<Email>
    decreases |s|
  {
    if s == [] then []
    else (if s[0].receivedAt == t then [s[0]] else []) + ReceivedAt(s[1..], t)
  }

  lemma {:induction false} InsertReceivedAt(e: Email, s: seq<Email>, t: Instant)
    ensures ReceivedAt(InsertNewest(e, s), t) == (if e.receivedAt == t then [e] else []) + ReceivedAt(s, t)
    decreases |s|
  {
    if s == [] || s[0].receivedAt <= e.receivedAt {
      assert ([e] + s)[1..] == s;
    } else {
      InsertReceivedAt(e, s[1..], t);
      assert ([s[0]] + InsertNewest(e, s[1..]))[1..] == InsertNewest(e, s[1..]);
    }
  }

  /** The order among messages received at the same instant is the input order. */
  lemma {:induction false} SortIsStable(s: seq<Email>, t: Instant)
    ensures ReceivedAt(SortNewestFirst(s), t) == ReceivedAt(s, t)
    decreases |s|
  {
    if s != [] {
      SortIsStable(s[1..], t);
      InsertReceivedAt(s[0], SortNewestFirst(s[1..]), t);
    }
  }
}
