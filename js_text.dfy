/**
 * The ECMAScript string built-ins the mail code relies on, over Dafny strings
 * (sequences of Unicode scalar values): the `\s` / `trim` character class,
 * `trim`, `includes`, `indexOf`, `split` on a one-character separator,
 * `startsWith`, `toLowerCase` (ASCII), `Number.prototype.toString`,
 * `padStart` and `slice(-n)`.
 */
module JsText {
  import opened Wrappers

  // ---------------------------------------------------------------------------
  // Character classes

  /** ECMAScript LineTerminator: the characters `.` refuses and `^`/`$` under `/m` stop at. */
  predicate IsLineTerminator(c: char) {
    c == '\n' || c == '\r' || c == '\U{2028}' || c == '\U{2029}'
  }

  /**
   * ECMAScript WhiteSpace or LineTerminator: exactly the set `\s` matches and
   * `String.prototype.trim` removes (TAB, VT, FF, ZWNBSP and the Zs category).
   */
  predicate IsSpace(c: char) {
    || c == '\t' || c == '\U{000B}' || c == '\U{000C}' || c == ' '
    || c == '\U{00A0}' || c == '\U{FEFF}' || c == '\U{1680}'
    || ('\U{2000}' <= c <= '\U{200A}')
    || c == '\U{202F}' || c == '\U{205F}' || c == '\U{3000}'
    || IsLineTerminator(c)
  }

  predicate AllSpace(s: string) {
    forall i :: 0 <= i < |s| ==> IsSpace(s[i])
  }

  /** Neither end of `s` is white space: what `trim` guarantees. */
  predicate IsTrimmed(s: string) {
    s == [] || (!IsSpace(s[0]) && !IsSpace(s[|s| - 1]))
  }

  // ---------------------------------------------------------------------------
  // trim

  /** The length of the white-space run that `s` starts with. */
  function LeadingSpace(s: string): (n: nat)
    ensures n <= |s| && AllSpace(s[..n]) && (n < |s| ==> !IsSpace(s[n]))
    decreases |s|
  {
    if s != [] && IsSpace(s[0]) then
      var n := 1 + LeadingSpace(s[1..]);
      assert forall i :: 1 <= i < n ==> s[i] == s[1..][..n - 1][i - 1];
      n
    else 0
  }

  /** The length of the white-space run that `s` ends with. */
  function TrailingSpace(s: string): (n: nat)
    ensures n <= |s| && AllSpace(s[|s| - n..]) && (n < |s| ==> !IsSpace(s[|s| - 1 - n]))
    decreases |s|
  {
    if s != [] && IsSpace(s[|s| - 1]) then
      var m := TrailingSpace(s[..|s| - 1]);
      TrailingStep(s, m);
      1 + m
    else 0
  }

  /** A white-space character after a white-space run of the prefix lengthens the run by one. */
  lemma TrailingStep(s: string, m: nat)
    requires s != [] && IsSpace(s[|s| - 1])
    requires var p := s[..|s| - 1];
      m <= |p| && AllSpace(p[|p| - m..]) && (m < |p| ==> !IsSpace(p[|p| - 1 - m]))
    ensures AllSpace(s[|s| - (m + 1)..])
    ensures m + 1 < |s| ==> !IsSpace(s[|s| - 2 - m])
  {
    var p := s[..|s| - 1];
    var r := s[|s| - (m + 1)..];
    forall i | 0 <= i < |r| ensures IsSpace(r[i]) {
      if i < m {
        assert r[i] == p[|p| - m..][i];
      }
    }
    if m + 1 < |s| {
      assert s[|s| - 2 - m] == p[|p| - 1 - m];
    }
  }

  /**
   * `String.prototype.trim`: the slice of `s` left once the white space at both
   * ends is removed; what was removed is white space only.
   */
  function Trim(s: string): (r: string)
    ensures IsTrimmed(r)
    ensures var a := LeadingSpace(s);
      && a + |r| <= |s| && r == s[a..a + |r|]
      && AllSpace(s[..a]) && AllSpace(s[a + |r|..])
  {
    var a := LeadingSpace(s);
    var n := TrailingSpace(s[a..]);
    TrimSlice(s, a, n);
    s[a..][..|s| - a - n]
  }

  /** Cutting the leading run `a` and then the trailing run `n` of what is left leaves a trimmed slice. */
  lemma TrimSlice(s: string, a: nat, n: nat)
    requires a <= |s| && (a < |s| ==> !IsSpace(s[a]))
    requires var t := s[a..];
      n <= |t| && AllSpace(t[|t| - n..]) && (n < |t| ==> !IsSpace(t[|t| - 1 - n]))
    ensures var r := s[a..][..|s| - a - n];
      && IsTrimmed(r) && a + |r| <= |s| && r == s[a..a + |r|] && AllSpace(s[a + |r|..])
  {
    var t := s[a..];
    var r := t[..|t| - n];
    assert r == s[a..a + |r|];
    assert s[a + |r|..] == t[|t| - n..];
    if r != [] {
      assert r[0] == s[a];
      assert r[|r| - 1] == t[|t| - 1 - n];
    }
  }

  /** Any character of `trim(s)` is a character of `s`. */
  lemma TrimKeepsCharacters(s: string, c: char)
    requires c in Trim(s)
    ensures c in s
  {
    var a := LeadingSpace(s);
    var r := Trim(s);
    var i :| 0 <= i < |r| && r[i] == c;
    assert s[a + i] == c;
  }

  lemma LeadingSpaceIs(s: string, n: nat)
    requires n <= |s| && AllSpace(s[..n]) && (n < |s| ==> !IsSpace(s[n]))
    ensures LeadingSpace(s) == n
  {
    PrefixSpaces(s, n);
    PrefixSpaces(s, LeadingSpace(s));
  }

  lemma TrailingSpaceIs(s: string, n: nat)
    requires n <= |s| && AllSpace(s[|s| - n..]) && (n < |s| ==> !IsSpace(s[|s| - 1 - n]))
    ensures TrailingSpace(s) == n
  {
    SuffixSpaces(s, n);
    SuffixSpaces(s, TrailingSpace(s));
  }

  lemma PrefixSpaces(s: string, n: nat)
    requires n <= |s| && AllSpace(s[..n])
    ensures forall i :: 0 <= i < n ==> IsSpace(s[i])
  {
    forall i | 0 <= i < n ensures IsSpace(s[i]) {
      assert s[..n][i] == s[i];
    }
  }

  lemma SuffixSpaces(s: string, n: nat)
    requires n <= |s| && AllSpace(s[|s| - n..])
    ensures forall i :: |s| - n <= i < |s| ==> IsSpace(s[i])
  {
    forall i | |s| - n <= i < |s| ensures IsSpace(s[i]) {
      assert s[|s| - n..][i - (|s| - n)] == s[i];
    }
  }

  /** `trim` is the only trimmed slice of `s` surrounded by white space. */
  lemma TrimIs(s: string, a: nat, b: nat)
    requires a <= b <= |s| && AllSpace(s[..a]) && AllSpace(s[b..]) && IsTrimmed(s[a..b])
    ensures Trim(s) == s[a..b]
  {
    if a == b {
      TrimOfSpace(s, a);
    } else {
      TrimOfPadded(s, a, b);
    }
  }

  lemma TrimOfSpace(s: string, a: nat)
    requires a <= |s| && AllSpace(s[..a]) && AllSpace(s[a..])
    ensures Trim(s) == []
  {
    assert AllSpace(s[..|s|]) by {
      forall i | 0 <= i < |s| ensures IsSpace(s[..|s|][i]) {
        if i < a { assert s[..|s|][i] == s[..a][i]; } else { assert s[..|s|][i] == s[a..][i - a]; }
      }
    }
    LeadingSpaceIs(s, |s|);
  }

  lemma TrimOfPadded(s: string, a: nat, b: nat)
    requires a < b <= |s| && AllSpace(s[..a]) && AllSpace(s[b..]) && IsTrimmed(s[a..b])
    ensures Trim(s) == s[a..b]
  {
    assert s[a] == s[a..b][0];
    LeadingSpaceIs(s, a);
    var t := s[a..];
    var n := |s| - b;
    assert t[|t| - n..] == s[b..];
    assert t[|t| - 1 - n] == s[a..b][b - a - 1];
    TrailingSpaceIs(t, n);
    assert t[..|t| - n] == s[a..b];
  }

  /** Trailing white space never changes the result of `trim`. */
  lemma TrimAppendSpace(x: string, y: string)
    requires AllSpace(y)
    ensures Trim(x + y) == Trim(x)
  {
    var s := x + y;
    var r := Trim(x);
    var a := LeadingSpace(x);
    var b := a + |r|;
    assert s[..a] == x[..a];
    assert s[a..b] == x[a..b];
    assert s[b..] == x[b..] + y;
    AllSpaceJoin(x[b..], y);
    TrimIs(s, a, b);
  }

  /** Two white-space runs side by side are one. */
  lemma AllSpaceJoin(u: string, v: string)
    requires AllSpace(u) && AllSpace(v)
    ensures AllSpace(u + v)
  {
    forall i | 0 <= i < |u + v| ensures IsSpace((u + v)[i]) {
      if i >= |u| { assert (u + v)[i] == v[i - |u|]; }
    }
  }

  /** Leading white space never changes the result of `trim`. */
  lemma TrimPrependSpace(x: string, y: string)
    requires AllSpace(x)
    ensures Trim(x + y) == Trim(y)
  {
    var s := x + y;
    var a := LeadingSpace(y);
    SpacesJoin(x, y, a);
    assert |x| + a < |s| ==> s[|x| + a] == y[a];
    LeadingSpaceIs(s, |x| + a);
    assert s[|x| + a..] == y[a..];
  }

  /** White space followed by the white space `y` starts with is one white-space run. */
  lemma SpacesJoin(x: string, y: string, a: nat)
    requires AllSpace(x) && a <= |y| && AllSpace(y[..a])
    ensures AllSpace((x + y)[..|x| + a])
  {
    var pre := (x + y)[..|x| + a];
    forall i | 0 <= i < |pre| ensures IsSpace(pre[i]) {
      if i < |x| {
        assert pre[i] == x[i];
      } else {
        assert pre[i] == y[..a][i - |x|];
      }
    }
  }

  // ---------------------------------------------------------------------------
  // includes, indexOf, startsWith

  /** `t` occurs in `s` starting at index `i`. */
  predicate OccursAt(s: string, t: string, i: int) {
    0 <= i && i + |t| <= |s| && s[i..i + |t|] == t
  }

  /** `String.prototype.includes`: a left-to-right scan for an occurrence of `t`. */
  function Includes(s: string, t: string): (b: bool)
    ensures b <==> exists i :: OccursAt(s, t, i)
    decreases |s|
  {
    if |s| < |t| then false
    else if s[..|t|] == t then (assert OccursAt(s, t, 0); true)
    else (OccursLater(s, t); Includes(s[1..], t))
  }

  /** With no occurrence at 0, the occurrences in `s` are those in `s[1..]`, shifted by one. */
  lemma OccursLater(s: string, t: string)
    requires |t| <= |s| && s[..|t|] != t
    ensures |s| >= 1
    ensures (exists i :: OccursAt(s, t, i)) <==> (exists i :: OccursAt(s[1..], t, i))
  {
    if exists i :: OccursAt(s, t, i) {
      var i :| OccursAt(s, t, i);
      assert i != 0;
      assert s[1..][i - 1..i - 1 + |t|] == s[i..i + |t|];
      assert OccursAt(s[1..], t, i - 1);
    }
    if exists i :: OccursAt(s[1..], t, i) {
      var i :| OccursAt(s[1..], t, i);
      assert s[1..][i..i + |t|] == s[i + 1..i + 1 + |t|];
      assert OccursAt(s, t, i + 1);
    }
  }

  /** `String.prototype.indexOf` for one character: the first position of `c`, if any. */
  function IndexOf(s: string, c: char): (r: Option<nat>)
    ensures r.None? <==> c !in s
    ensures r.Some? ==> r.value < |s| && s[r.value] == c && c !in s[..r.value]
    decreases |s|
  {
    if s == [] then None
    else if s[0] == c then Some(0)
    else match IndexOf(s[1..], c)
      case None => None
      case Some(i) =>
        assert s[..i + 1] == [s[0]] + s[1..][..i];
        Some(i + 1)
  }

  /** `String.prototype.startsWith(prefix)`. */
  predicate StartsWith(s: string, prefix: string) {
    |prefix| <= |s| && s[..|prefix|] == prefix
  }

  /** A text starts with `prefix` exactly when it is `prefix` followed by the rest. */
  lemma StartsWithIs(s: string, prefix: string)
    ensures StartsWith(s, prefix) <==> |prefix| <= |s| && s == prefix + s[|prefix|..]
  {
    if |prefix| <= |s| && s == prefix + s[|prefix|..] {
      assert s[..|prefix|] == prefix;
    }
  }

  // ---------------------------------------------------------------------------
  // split on a one-character separator

  /** The inverse of `split`: `Array.prototype.join` with the separator. */
  function Join(parts: seq<string>, sep: char): string
    decreases |parts|
  {
    if |parts| == 0 then ""
    else if |parts| == 1 then parts[0]
    else parts[0] + [sep] + Join(parts[1..], sep)
  }

  /**
   * `String.prototype.split(sep)` for a one-character string separator: the
   * maximal separator-free pieces, which join back to `s`.
   */
  function Split(s: string, sep: char): (parts: seq<string>)
    ensures |parts| >= 1
    ensures forall k :: 0 <= k < |parts| ==> sep !in parts[k]
    ensures Join(parts, sep) == s
    decreases |s|
  {
    match IndexOf(s, sep)
    case None => [s]
    case Some(i) =>
      var rest := Split(s[i + 1..], sep);
      var parts := [s[..i]] + rest;
      assert parts[1..] == rest;
      assert s == s[..i] + [sep] + s[i + 1..];
      parts
  }

  /** When `sep` is the character at index `i` and does not occur before it, `split` cuts there. */
  lemma SplitAt(s: string, sep: char, i: nat)
    requires i < |s| && s[i] == sep && sep !in s[..i]
    ensures Split(s, sep) == [s[..i]] + Split(s[i + 1..], sep)
  {
    var j := IndexOf(s, sep);
    assert s[i] in s;
    forall k | 0 <= k < i ensures s[k] != sep {
      assert s[..i][k] == s[k];
    }
    forall k | 0 <= k < j.value ensures s[k] != sep {
      assert s[..j.value][k] == s[k];
    }
    assert j == Some(i);
  }

  // ---------------------------------------------------------------------------
  // toLowerCase (ASCII)

  function LowerChar(c: char): char {
    if 'A' <= c <= 'Z' then (c as int + 32) as char else c
  }

  /** `String.prototype.toLowerCase`, restricted to ASCII letters. */
  function AsciiLower(s: string): (r: string)
    ensures |r| == |s|
    ensures forall i :: 0 <= i < |s| ==> r[i] == LowerChar(s[i])
  {
    seq(|s|, i requires 0 <= i < |s| => LowerChar(s[i]))
  }

  // ---------------------------------------------------------------------------
  // decimal digits, toString, padStart, slice(-n)

  predicate IsDigit(c: char) {
    '0' <= c <= '9'
  }

  predicate AllDigits(s: string) {
    forall i :: 0 <= i < |s| ==> IsDigit(s[i])
  }

  function DigitChar(d: nat): (c: char)
    requires d < 10
    ensures IsDigit(c) && c as int - '0' as int == d
  {
    ('0' as int + d) as char
  }

  /** The number a string of decimal digits denotes (leading zeros allowed). */
  function DigitsValue(s: string): nat
    requires AllDigits(s)
    decreases |s|
  {
    if s == [] then 0
    else DigitsValue(s[..|s| - 1]) * 10 + (s[|s| - 1] as int - '0' as int)
  }

  /** `Number.prototype.toString()` of a natural number: its shortest decimal numeral. */
  function NatToString(n: nat): (r: string)
    ensures 1 <= |r| && AllDigits(r)
    ensures DigitsValue(r) == n
    ensures n < 10 <==> |r| == 1
    ensures n >= 10 ==> r[0] != '0'
    decreases n
  {
    if n < 10 then [DigitChar(n)]
    else
      var r := NatToString(n / 10) + [DigitChar(n % 10)];
      assert r[..|r| - 1] == NatToString(n / 10);
      r
  }

  /** Ten to the power `k`. */
  function Pow10(k: nat): (p: nat)
    ensures p >= 1
  {
    if k == 0 then 1 else 10 * Pow10(k - 1)
  }

  /** A numeral of `k` digits denotes a number below 10^k. */
  lemma {:induction false} DigitsValueBound(s: string)
    requires AllDigits(s)
    ensures DigitsValue(s) < Pow10(|s|)
    decreases |s|
  {
    if s != [] {
      DigitsValueBound(s[..|s| - 1]);
    }
  }

  /** A number below 10^width has a numeral of at most `width` digits. */
  lemma {:induction false} NumeralWidth(n: nat, width: nat)
    requires 1 <= width && n < Pow10(width)
    ensures |NatToString(n)| <= width
    decreases width
  {
    if n >= 10 {
      assert width != 1 || Pow10(width) == 10;
      assert n / 10 < Pow10(width - 1);
      NumeralWidth(n / 10, width - 1);
      assert |NatToString(n)| == |NatToString(n / 10)| + 1;
    }
  }

  /** `Number.prototype.toString()` of an integer. */
  function IntToString(n: int): string {
    if n < 0 then "-" + NatToString(-n) else NatToString(n)
  }

  /** `String.prototype.padStart(width, fill)`. */
  function PadStart(s: string, width: nat, fill: char): (r: string)
    ensures |r| == if |s| >= width then |s| else width
    ensures r[|r| - |s|..] == s
    ensures forall i :: 0 <= i < |r| - |s| ==> r[i] == fill
  {
    if |s| >= width then s else seq(width - |s|, _ => fill) + s
  }

  /** `String.prototype.slice(-n)`: the last `n` characters, or all of a shorter string. */
  function SliceLast(s: string, n: nat): (r: string)
    ensures |r| == if |s| <= n then |s| else n
    ensures r == s[|s| - |r|..]
  {
    if |s| <= n then s else s[|s| - n..]
  }

  /** Leading zeros do not change the value of a numeral. */
  lemma {:induction false} DigitsValueLeadingZeros(z: string, s: string)
    requires forall i :: 0 <= i < |z| ==> z[i] == '0'
    requires AllDigits(s)
    ensures AllDigits(z + s) && DigitsValue(z + s) == DigitsValue(s)
    decreases |s|
  {
    var t := z + s;
    assert AllDigits(t) by {
      forall i | 0 <= i < |t| ensures IsDigit(t[i]) {
        if i < |z| { assert t[i] == z[i]; } else { assert t[i] == s[i - |z|]; }
      }
    }
    if s == [] {
      assert t == z;
      ZerosValue(z);
    } else {
      assert t[..|t| - 1] == z + s[..|s| - 1];
      assert t[|t| - 1] == s[|s| - 1];
      DigitsValueLeadingZeros(z, s[..|s| - 1]);
    }
  }

  lemma {:induction false} ZerosValue(z: string)
    requires forall i :: 0 <= i < |z| ==> z[i] == '0'
    ensures AllDigits(z) && DigitsValue(z) == 0
    decreases |z|
  {
    if z != [] {
      ZerosValue(z[..|z| - 1]);
    }
  }

  /** Two numerals of the same length that denote the same number are the same string. */
  lemma {:induction false} DigitsValueInjective(a: string, b: string)
    requires AllDigits(a) && AllDigits(b) && |a| == |b|
    requires DigitsValue(a) == DigitsValue(b)
    ensures a == b
    decreases |a|
  {
    if a != [] {
      var n := |a|;
      assert a == a[..n - 1] + [a[n - 1]];
      assert b == b[..n - 1] + [b[n - 1]];
      var da := a[n - 1] as int - '0' as int;
      var db := b[n - 1] as int - '0' as int;
      assert IsDigit(a[n - 1]) && IsDigit(b[n - 1]);
      LastDigitSplit(DigitsValue(a[..n - 1]), da, DigitsValue(b[..n - 1]), db);
      DigitsValueInjective(a[..n - 1], b[..n - 1]);
    }
  }

  /** A number written as tens and a last digit determines both. */
  lemma LastDigitSplit(x: int, d: int, y: int, e: int)
    requires 0 <= d < 10 && 0 <= e < 10 && x * 10 + d == y * 10 + e
    ensures x == y && d == e
  {
  }

  /**
   * Zero-padding a number below 10^width to `width` digits gives a numeral of
   * exactly that width for the same number.
   */
  lemma PadStartNumeral(n: nat, width: nat)
    requires 1 <= |NatToString(n)| <= width
    ensures var r := PadStart(NatToString(n), width, '0');
      |r| == width && AllDigits(r) && DigitsValue(r) == n
  {
    var s := NatToString(n);
    var r := PadStart(s, width, '0');
    var z := r[..|r| - |s|];
    assert r == z + s;
    DigitsValueLeadingZeros(z, s);
  }

  /** The last two digits of a numeral denote its value modulo 100. */
  lemma LastTwoDigits(s: string)
    requires AllDigits(s) && |s| >= 2
    ensures AllDigits(s[|s| - 2..]) && DigitsValue(s[|s| - 2..]) == DigitsValue(s) % 100
  {
    var h, t := s[..|s| - 2], s[|s| - 2..];
    DigitsOfSlice(s, 0, |s| - 2);
    DigitsOfSlice(s, |s| - 2, |s|);
    assert s == h + t;
    DigitsValueAppend(h, t);
    DigitsValueBound(t);
    assert Pow10(2) == 100;
    HundredsAndRest(DigitsValue(h), DigitsValue(t));
  }

  lemma DigitsOfSlice(s: string, a: nat, b: nat)
    requires AllDigits(s) && a <= b <= |s|
    ensures AllDigits(s[a..b])
  {
    forall i | 0 <= i < b - a ensures IsDigit(s[a..b][i]) {
      assert s[a..b][i] == s[a + i];
    }
  }

  /** Appending digits shifts the value of the front by a power of ten. */
  lemma {:induction false} DigitsValueAppend(h: string, t: string)
    requires AllDigits(h) && AllDigits(t)
    ensures AllDigits(h + t) && DigitsValue(h + t) == DigitsValue(h) * Pow10(|t|) + DigitsValue(t)
    decreases |t|
  {
    var s := h + t;
    assert AllDigits(s) by {
      forall i | 0 <= i < |s| ensures IsDigit(s[i]) {
        if i < |h| { assert s[i] == h[i]; } else { assert s[i] == t[i - |h|]; }
      }
    }
    if t == [] {
      assert s == h;
    } else {
      var u := t[..|t| - 1];
      DigitsOfSlice(t, 0, |t| - 1);
      assert s[..|s| - 1] == h + u;
      assert s[|s| - 1] == t[|t| - 1];
      DigitsValueAppend(h, u);
      var d := t[|t| - 1] as int - '0' as int;
      assert DigitsValue(s) == DigitsValue(h + u) * 10 + d;
      assert DigitsValue(t) == DigitsValue(u) * 10 + d;
      ShiftByTen(DigitsValue(h), Pow10(|u|), DigitsValue(u), d);
    }
  }

  lemma ShiftByTen(x: int, p: int, v: int, d: int)
    ensures (x * p + v) * 10 + d == x * (10 * p) + (v * 10 + d)
  {
  }

  lemma HundredsAndRest(hi: nat, r: nat)
    requires r < 100
    ensures (hi * 100 + r) % 100 == r
  {
  }
}
