/**
 * The query-string side of src/hooks/useEmailFromQuery.ts: the `email`
 * parameter carries an address as base64 of its UTF-8 bytes, and an address
 * read back from it is accepted only in the generator's format and only on
 * the day it was generated.
 */
module EmailQuery {
  import opened Wrappers
  import opened JsText
  import opened Host
  import opened Calendar
  import Base64
  import EmailActions

  /** `/^(\d{6})(\d{3})@otm\.mec\.mejsh\.com$/`: nine ASCII digits and the domain, and nothing else. */
  predicate MatchesAddressPattern(email: string) {
    |email| == 9 + |EmailActions.Domain| && AllDigits(email[..9]) && email[9..] == EmailActions.Domain
  }

  /** The pattern's two groups: six digits, three digits, then the domain, with nothing around them. */
  lemma AddressPatternGroups(email: string)
    ensures MatchesAddressPattern(email) <==>
      exists date, n :: |date| == 6 && |n| == 3 && AllDigits(date) && AllDigits(n)
        && email == date + n + EmailActions.Domain
  {
    var d := EmailActions.Domain;
    if MatchesAddressPattern(email) {
      var date, n := email[..6], email[6..9];
      assert AllDigits(date) by { assert forall i :: 0 <= i < 6 ==> date[i] == email[..9][i]; }
      assert AllDigits(n) by { assert forall i :: 0 <= i < 3 ==> n[i] == email[..9][i + 6]; }
      assert email == date + n + d;
    }
    if exists date, n :: |date| == 6 && |n| == 3 && AllDigits(date) && AllDigits(n) && email == date + n + d {
      var date, n :| |date| == 6 && |n| == 3 && AllDigits(date) && AllDigits(n) && email == date + n + d;
      assert email[..9] == date + n;
      assert email[9..] == d;
      assert AllDigits(email[..9]) by {
        forall i | 0 <= i < 9 ensures IsDigit(email[..9][i]) {
          if i < 6 { assert email[..9][i] == date[i]; } else { assert email[..9][i] == n[i - 6]; }
        }
      }
    }
  }

  /**
   * `validateEmailAddress` on the day `today`: the address has the generator's
   * format and its first six digits are today's stamp.
   */
  function ValidateEmailAddress(email: string, today: CalendarDate): (ok: bool)
    requires today.Valid()
    ensures ok ==> MatchesAddressPattern(email)
    ensures MatchesAddressPattern(email) ==> (ok <==> email[..6] == Stamp(today))
  {
    if !MatchesAddressPattern(email) then false
    else email[..6] == Stamp(today)
  }

  /**
   * From year 10 on, the addresses accepted on a day are exactly those the
   * generator produces on that day, one for each draw below 1000.
   */
  lemma ValidExactlyWhenGenerated(email: string, today: CalendarDate)
    requires today.Valid() && today.fullYear >= 10
    ensures ValidateEmailAddress(email, today) <==>
      exists n :: 0 <= n < 1000 && email == EmailActions.GenerateEmailAddress(today, n)
  {
    if ValidateEmailAddress(email, today) {
      var n := ValidIsGenerated(email, today);
    } else {
      forall n | 0 <= n < 1000 ensures email != EmailActions.GenerateEmailAddress(today, n) {
        GeneratedIsValid(today, n);
      }
    }
  }

  /** A valid address is the one the generator produces on that day for its last three digits. */
  lemma ValidIsGenerated(email: string, today: CalendarDate) returns (n: nat)
    requires today.Valid() && today.fullYear >= 10 && ValidateEmailAddress(email, today)
    ensures n < 1000 && email == EmailActions.GenerateEmailAddress(today, n)
  {
    var digits := email[6..9];
    DigitsInside(email);
    n := DigitsValue(digits);
    DigitsValueBound(digits);
    assert Pow10(3) == 1000;
    var g := EmailActions.GenerateEmailAddress(today, n);
    EmailActions.GeneratedAddressShape(today, n);
    DigitsInside(g);
    DigitsValueInjective(g[6..9], digits);
    SameAddress(g, email);
  }

  lemma DigitsInside(x: string)
    requires |x| >= 9 && AllDigits(x[..9])
    ensures AllDigits(x[6..9])
  {
    forall i | 0 <= i < 3 ensures IsDigit(x[6..9][i]) {
      assert x[6..9][i] == x[..9][6 + i];
    }
  }

  /** An address generated on `today` is valid on `today`. */
  lemma GeneratedIsValid(today: CalendarDate, n: nat)
    requires today.Valid() && today.fullYear >= 10 && n < 1000
    ensures ValidateEmailAddress(EmailActions.GenerateEmailAddress(today, n), today)
  {
    EmailActions.GeneratedAddressShape(today, n);
  }

  lemma SameAddress(x: string, y: string)
    requires |x| == |y| && |x| >= 9
    requires x[..6] == y[..6] && x[6..9] == y[6..9] && x[9..] == y[9..]
    ensures x == y
  {
    assert x == x[..6] + x[6..9] + x[9..];
    assert y == y[..6] + y[6..9] + y[9..];
  }

  /**
   * `getEmailFromQuery`: nothing when the `email` parameter is missing or
   * empty, otherwise the parameter read as base64 of UTF-8 text.
   */
  function GetEmailFromQuery(rt: Runtime, param: Option<string>): (email: Option<string>)
    ensures email.None? <==> !EmailActions.Truthy(param)
    ensures email.Some? ==> email.value == Base64ToText(rt, param.value)
  {
    if EmailActions.Truthy(param) then Some(Base64ToText(rt, param.value)) else None
  }

  /** The value `setEmailToQuery` stores: canonical base64 of the address's UTF-8 bytes. */
  function SetEmailToQuery(rt: Runtime, email: string): (encoded: string)
    ensures Base64.Decode(encoded) == Some(rt.utf8Encode(email))
    ensures forall i :: 0 <= i < |encoded| ==> Base64.IsBase64Char(encoded[i])
    ensures encoded == "" <==> rt.utf8Encode(email) == []
  {
    Base64.DecodeEncode(rt.utf8Encode(email));
    Base64.EncodeAlphabet(rt.utf8Encode(email));
    TextToBase64(rt, email)
  }

  /** What the parameter held when it was written, for text the host's UTF-8 codec round-trips. */
  lemma QueryRoundTrip(rt: Runtime, email: string)
    requires rt.utf8Decode(rt.utf8Encode(email)) == email && rt.utf8Encode(email) != []
    ensures GetEmailFromQuery(rt, Some(SetEmailToQuery(rt, email))) == Some(email)
  {
    TextBase64RoundTrip(rt, email);
  }

  /** The hook's answer: the address to use, if any, and whether it navigates to `/`. */
  datatype QueryOutcome = QueryOutcome(email: Option<string>, redirectHome: bool)

  /**
   * `getValidatedEmailFromQuery`: no address without a (non-empty) one in the
   * query; no address and a redirect home for one that does not validate; the
   * address itself otherwise.
   */
  function GetValidatedEmailFromQuery(rt: Runtime, param: Option<string>, today: CalendarDate): (r: QueryOutcome)
    requires today.Valid()
    ensures var got := GetEmailFromQuery(rt, param);
      && (!EmailActions.Truthy(got) ==> r == QueryOutcome(None, false))
      && (EmailActions.Truthy(got) && !ValidateEmailAddress(got.value, today) ==> r == QueryOutcome(None, true))
      && (EmailActions.Truthy(got) && ValidateEmailAddress(got.value, today) ==> r == QueryOutcome(got, false))
    ensures r.email.Some? ==> !r.redirectHome && ValidateEmailAddress(r.email.value, today)
  {
    var got := GetEmailFromQuery(rt, param);
    if !EmailActions.Truthy(got) then QueryOutcome(None, false)
    else if !ValidateEmailAddress(got.value, today) then QueryOutcome(None, true)
    else QueryOutcome(got, false)
  }

  /**
   * An address generated on `today` and written to the query is read back and
   * accepted the same day, provided the host's UTF-8 codec round-trips it.
   */
  lemma GeneratedAddressAcceptedSameDay(rt: Runtime, today: CalendarDate, n: nat)
    requires today.Valid() && today.fullYear >= 10 && n < 1000
    requires var a := EmailActions.GenerateEmailAddress(today, n);
      rt.utf8Decode(rt.utf8Encode(a)) == a && rt.utf8Encode(a) != []
    ensures var a := EmailActions.GenerateEmailAddress(today, n);
      GetValidatedEmailFromQuery(rt, Some(SetEmailToQuery(rt, a)), today) == QueryOutcome(Some(a), false)
  {
    var a := EmailActions.GenerateEmailAddress(today, n);
    QueryRoundTrip(rt, a);
    GeneratedIsValid(today, n);
    EmailActions.GeneratedAddressShape(today, n);
  }

  /**
   * An address generated on another day is rejected: reading it back sends
   * the user home.
   */
  lemma OtherDayAddressRedirects(rt: Runtime, day: CalendarDate, today: CalendarDate, n: nat)
    requires day.Valid() && today.Valid() && day.fullYear >= 10 && today.fullYear >= 10 && n < 1000
    requires !(day.fullYear % 100 == today.fullYear % 100 && day.month == today.month && day.day == today.day)
    requires var a := EmailActions.GenerateEmailAddress(day, n);
      rt.utf8Decode(rt.utf8Encode(a)) == a && rt.utf8Encode(a) != []
    ensures var a := EmailActions.GenerateEmailAddress(day, n);
      GetValidatedEmailFromQuery(rt, Some(SetEmailToQuery(rt, a)), today) == QueryOutcome(None, true)
  {
    var a := EmailActions.GenerateEmailAddress(day, n);
    QueryRoundTrip(rt, a);
    OtherDayInvalid(day, today, n);
  }

  /** An address generated on one day does not validate on a different day. */
  lemma OtherDayInvalid(day: CalendarDate, today: CalendarDate, n: nat)
    requires day.Valid() && today.Valid() && day.fullYear >= 10 && today.fullYear >= 10 && n < 1000
    requires !(day.fullYear % 100 == today.fullYear % 100 && day.month == today.month && day.day == today.day)
    ensures var a := EmailActions.GenerateEmailAddress(day, n);
      a != "" && !ValidateEmailAddress(a, today)
  {
    EmailActions.GeneratedAddressShape(day, n);
    StampDeterminesDay(day, today);
  }
}
