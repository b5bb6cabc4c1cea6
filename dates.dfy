/** Naive (time-zone-free) dates and date-times as Python's `datetime`
    module represents them, their ordering, and `date.isoformat()`. */
module Dates {
  import opened Strings

  datatype Date = Date(year: int, month: int, day: int)

  datatype DateTime = DateTime(year: int, month: int, day: int,
                               hour: int, minute: int, second: int, microsecond: int)

  /** `datetime.MINYEAR` and `datetime.MAXYEAR`. */
  const MinYear := 1
  const MaxYear := 9999

  predicate IsLeapYear(year: int)
  {
    year % 4 == 0 && (year % 100 != 0 || year % 400 == 0)
  }

  function DaysInMonth(year: int, month: int): (days: int)
    requires 1 <= month <= 12
    ensures 28 <= days <= 31
  {
    if month == 2 then (if IsLeapYear(year) then 29 else 28)
    else if month == 4 || month == 6 || month == 9 || month == 11 then 30
    else 31
  }

  /** The range a `date` object's fields are always in. */
  predicate ValidDate(d: Date)
  {
    && MinYear <= d.year <= MaxYear
    && 1 <= d.month <= 12
    && 1 <= d.day <= DaysInMonth(d.year, d.month)
  }

  /** The range a `datetime` object's fields are always in. */
  predicate ValidDateTime(t: DateTime)
  {
    && ValidDate(DateOf(t))
    && 0 <= t.hour < 24
    && 0 <= t.minute < 60
    && 0 <= t.second < 60
    && 0 <= t.microsecond < 1000000
  }

  /** `t.date()`: the calendar day of a date-time. */
  function DateOf(t: DateTime): Date
  {
    Date(t.year, t.month, t.day)
  }

  /** `a <= b` on naive date-times: field by field, most significant first. */
  predicate NotAfter(a: DateTime, b: DateTime)
  {
    if a.year != b.year then a.year < b.year
    else if a.month != b.month then a.month < b.month
    else if a.day != b.day then a.day < b.day
    else if a.hour != b.hour then a.hour < b.hour
    else if a.minute != b.minute then a.minute < b.minute
    else if a.second != b.second then a.second < b.second
    else a.microsecond <= b.microsecond
  }

  lemma NotAfterTransitive(a: DateTime, b: DateTime, c: DateTime)
    requires NotAfter(a, b) && NotAfter(b, c)
    ensures NotAfter(a, c)
  {
  }

  /** `d.isoformat()`, which is also `str(d)`: `YYYY-MM-DD`, each field
      zero-padded to its width. */
  function IsoFormat(d: Date): (s: string)
    requires ValidDate(d)
    ensures |s| == 10 && s[4] == '-' && s[7] == '-'
    ensures AllDigits(s[..4]) && AllDigits(s[5..7]) && AllDigits(s[8..])
    ensures DecimalValue(s[..4]) == d.year
    ensures DecimalValue(s[5..7]) == d.month
    ensures DecimalValue(s[8..]) == d.day
  {
    var yyyy, mm, dd := Digits(d.year, 4), Digits(d.month, 2), Digits(d.day, 2);
    var s := yyyy + "-" + mm + "-" + dd;
    assert s[..4] == yyyy && s[5..7] == mm && s[8..] == dd;
    DecimalValueOfDigits(d.year, 4);
    DecimalValueOfDigits(d.month, 2);
    DecimalValueOfDigits(d.day, 2);
    s
  }

  /** Two days have the same ISO form only if they are the same day. */
  lemma IsoFormatInjective(d1: Date, d2: Date)
    requires ValidDate(d1) && ValidDate(d2)
    requires IsoFormat(d1) == IsoFormat(d2)
    ensures d1 == d2
  {
  }
}
