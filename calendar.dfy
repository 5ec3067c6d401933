/**
 * The local calendar date the address code reads from `new Date()`, and the
 * six-character `YYMMDD` stamp both the generator and the validator build from it.
 */
module Calendar {
  import opened JsText

  /** `getFullYear()`, `getMonth() + 1` and `getDate()` of one instant, in local time. */
  datatype CalendarDate = CalendarDate(fullYear: int, month: int, day: int) {
    /** The ranges `Date` guarantees for the month and the day of the month. */
    predicate Valid() {
      1 <= month <= 12 && 1 <= day <= 31
    }
  }

  /**
   * `year.toString().slice(-2) + month.toString().padStart(2, '0') +
   * day.toString().padStart(2, '0')`. For a four-digit year (any year from
   * 10 on) it is six digits: the year modulo 100, the month and the day.
   */
  function Stamp(d: CalendarDate): (r: string)
    requires d.Valid()
    ensures d.fullYear >= 10 ==>
      && |r| == 6 && AllDigits(r)
      && DigitsValue(r[..2]) == d.fullYear % 100
      && DigitsValue(r[2..4]) == d.month
      && DigitsValue(r[4..]) == d.day
  {
    var yy := SliceLast(IntToString(d.fullYear), 2);
    var mm := PadStart(NatToString(d.month), 2, '0');
    var dd := PadStart(NatToString(d.day), 2, '0');
    if d.fullYear >= 10 then
      YearDigits(d.fullYear);
      assert Pow10(2) == 100;
      NumeralWidth(d.month, 2);
      NumeralWidth(d.day, 2);
      PadStartNumeral(d.month, 2);
      PadStartNumeral(d.day, 2);
      StampPieces(yy, mm, dd);
      yy + mm + dd
    else
      yy + mm + dd
  }

  /** Three two-digit numerals side by side are six digits that split back into the three. */
  lemma StampPieces(yy: string, mm: string, dd: string)
    requires |yy| == 2 && |mm| == 2 && |dd| == 2
    requires AllDigits(yy) && AllDigits(mm) && AllDigits(dd)
    ensures var r := yy + mm + dd;
      |r| == 6 && AllDigits(r) && r[..2] == yy && r[2..4] == mm && r[4..] == dd
  {
    var r := yy + mm + dd;
    assert r[..2] == yy && r[2..4] == mm && r[4..] == dd;
    forall i | 0 <= i < 6 ensures IsDigit(r[i]) {
      if i < 2 { assert r[i] == yy[i]; }
      else if i < 4 { assert r[i] == mm[i - 2]; }
      else { assert r[i] == dd[i - 4]; }
    }
  }

  /** The last two characters of a year from 10 on are two digits worth the year modulo 100. */
  lemma YearDigits(year: int)
    requires year >= 10
    ensures var yy := SliceLast(IntToString(year), 2);
      |yy| == 2 && AllDigits(yy) && DigitsValue(yy) == year % 100
  {
    var s := NatToString(year);
    assert IntToString(year) == s;
    LastTwoDigits(s);
  }

  /** Two valid dates from year 10 on share a stamp exactly when they fall on the same day of the same century year. */
  lemma StampDeterminesDay(a: CalendarDate, b: CalendarDate)
    requires a.Valid() && b.Valid() && a.fullYear >= 10 && b.fullYear >= 10
    ensures Stamp(a) == Stamp(b) <==>
      a.fullYear % 100 == b.fullYear % 100 && a.month == b.month && a.day == b.day
  {
    if a.fullYear % 100 == b.fullYear % 100 && a.month == b.month && a.day == b.day {
      SameDaySameStamp(a, b);
    }
  }

  lemma SameDaySameStamp(a: CalendarDate, b: CalendarDate)
    requires a.Valid() && b.Valid() && a.fullYear >= 10 && b.fullYear >= 10
    requires a.fullYear % 100 == b.fullYear % 100 && a.month == b.month && a.day == b.day
    ensures Stamp(a) == Stamp(b)
  {
    SixDigitsDetermined(Stamp(a), Stamp(b));
  }

  /** Two six-digit strings whose three two-digit parts have the same values are equal. */
  lemma SixDigitsDetermined(x: string, y: string)
    requires |x| == 6 && |y| == 6 && AllDigits(x) && AllDigits(y)
    requires DigitsValue(x[..2]) == DigitsValue(y[..2])
    requires DigitsValue(x[2..4]) == DigitsValue(y[2..4])
    requires DigitsValue(x[4..]) == DigitsValue(y[4..])
    ensures x == y
  {
    DigitsValueInjective(x[..2], y[..2]);
    DigitsValueInjective(x[2..4], y[2..4]);
    DigitsValueInjective(x[4..], y[4..]);
    SameThirds(x, y);
  }

  lemma SameThirds(x: string, y: string)
    requires |x| == 6 && |y| == 6
    requires x[..2] == y[..2] && x[2..4] == y[2..4] && x[4..] == y[4..]
    ensures x == y
  {
    assert x == x[..2] + x[2..4] + x[4..];
    assert y == y[..2] + y[2..4] + y[4..];
  }
}
