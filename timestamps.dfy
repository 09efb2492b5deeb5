/** `DateTime` to the second, as the URL expirer uses it: a point in time is read as whole
    seconds since 0001-01-01 00:00:00 in the proleptic Gregorian calendar, and written in
    and read back from the fixed 14-digit format `yyyyMMddHHmmss` of the invariant culture. */
module Timestamps {
  import opened Wrappers
  import opened Text

  /** A Gregorian leap year. */
  predicate IsLeapYear(y: int)
  {
    y % 4 == 0 && (y % 100 != 0 || y % 400 == 0)
  }

  /** `DateTime.DaysInMonth(y, m)`. */
  function DaysInMonth(y: int, m: int): (n: int)
    requires 1 <= m <= 12
    ensures 28 <= n <= 31
    ensures m == 2 ==> (n == 29 <==> IsLeapYear(y))
  {
    if m == 2 then (if IsLeapYear(y) then 29 else 28)
    else if m == 4 || m == 6 || m == 9 || m == 11 then 30
    else 31
  }

  /** A `DateTime` truncated to the second. */
  datatype DateTime = DateTime(year: int, month: int, day: int, hour: int, minute: int, second: int)
  {
    /** The range `DateTime` accepts: years 1 to 9999 and a real day of a real month. */
    predicate Valid()
    {
      && 1 <= year <= 9999 && 1 <= month <= 12 && 1 <= day <= DaysInMonth(year, month)
      && 0 <= hour < 24 && 0 <= minute < 60 && 0 <= second < 60
    }
  }

  /** The days in the months of year `y` before month `m`. */
  function DaysBeforeMonth(y: int, m: int): (n: int)
    requires 1 <= m <= 13
    ensures n >= 0
    decreases m
  {
    if m == 1 then 0 else DaysBeforeMonth(y, m - 1) + DaysInMonth(y, m - 1)
  }

  /** The days in the years before year `y`. */
  function DaysBeforeYear(y: int): int
  {
    (y - 1) * 365 + (y - 1) / 4 - (y - 1) / 100 + (y - 1) / 400
  }

  /** The days in year `y`. */
  function DaysInYear(y: int): int
  {
    if IsLeapYear(y) then 366 else 365
  }

  /** The seconds from 0001-01-01 00:00:00 to `t`: what `Subtract(...).TotalSeconds` measures. */
  function ToSeconds(t: DateTime): int
    requires t.Valid()
  {
    var days := DaysBeforeYear(t.year) + DaysBeforeMonth(t.year, t.month) + t.day - 1;
    ((days * 24 + t.hour) * 60 + t.minute) * 60 + t.second
  }

  /** `a` comes before `b`: comparing year, then month, day, hour, minute and second. */
  predicate Before(a: DateTime, b: DateTime)
  {
    if a.year != b.year then a.year < b.year
    else if a.month != b.month then a.month < b.month
    else if a.day != b.day then a.day < b.day
    else if a.hour != b.hour then a.hour < b.hour
    else if a.minute != b.minute then a.minute < b.minute
    else a.second < b.second
  }

  /** The months of a year add up to the year. */
  lemma DaysBeforeMonthsOfYear(y: int)
    ensures DaysBeforeMonth(y, 13) == DaysInYear(y)
  {
    if IsLeapYear(y) {
      assert DaysBeforeMonth(y, 13) == 366;
    } else {
      assert DaysBeforeMonth(y, 13) == 365;
    }
  }

  /** One more year adds one to the count of multiples of `4` it has passed exactly when
      it is one. */
  lemma Multiples4(k: int)
    ensures (k + 1) / 4 == k / 4 + (if (k + 1) % 4 == 0 then 1 else 0)
  {
  }

  /** The same for multiples of `100`. */
  lemma Multiples100(k: int)
    ensures (k + 1) / 100 == k / 100 + (if (k + 1) % 100 == 0 then 1 else 0)
  {
  }

  /** The same for multiples of `400`. */
  lemma Multiples400(k: int)
    ensures (k + 1) / 400 == k / 400 + (if (k + 1) % 400 == 0 then 1 else 0)
  {
  }

  /** A year adds its own days to the count. */
  lemma DaysBeforeNextYear(y: int)
    ensures DaysBeforeYear(y + 1) == DaysBeforeYear(y) + DaysInYear(y)
  {
    Multiples4(y - 1);
    Multiples100(y - 1);
    Multiples400(y - 1);
  }

  /** Later months start later: the count of days grows by at least the month's length. */
  lemma {:induction false} DaysBeforeMonthGrows(y: int, m1: int, m2: int)
    requires 1 <= m1 < m2 <= 13
    ensures DaysBeforeMonth(y, m1) + DaysInMonth(y, m1) <= DaysBeforeMonth(y, m2)
    decreases m2
  {
    if m2 > m1 + 1 {
      DaysBeforeMonthGrows(y, m1, m2 - 1);
    }
  }

  /** Later years start later, by at least a whole year. */
  lemma {:induction false} DaysBeforeYearGrows(y1: int, y2: int)
    requires y1 < y2
    ensures DaysBeforeYear(y1) + DaysInYear(y1) <= DaysBeforeYear(y2)
    decreases y2 - y1
  {
    DaysBeforeNextYear(y1);
    if y2 > y1 + 1 {
      DaysBeforeYearGrows(y1 + 1, y2);
    }
  }

  /** The day number of a valid date: days before it since 0001-01-01. */
  function DayNumber(t: DateTime): int
    requires t.Valid()
  {
    DaysBeforeYear(t.year) + DaysBeforeMonth(t.year, t.month) + t.day - 1
  }

  /** A day number lies within its year. */
  lemma DayNumberInYear(t: DateTime)
    requires t.Valid()
    ensures DaysBeforeYear(t.year) <= DayNumber(t) < DaysBeforeYear(t.year) + DaysInYear(t.year)
  {
    if t.month < 12 {
      DaysBeforeMonthGrows(t.year, t.month, 13);
    }
    DaysBeforeMonthsOfYear(t.year);
  }

  /** An earlier date has a smaller day number. */
  lemma DayNumberOrder(a: DateTime, b: DateTime)
    requires a.Valid() && b.Valid()
    requires a.year < b.year || (a.year == b.year && (a.month < b.month || (a.month == b.month && a.day < b.day)))
    ensures DayNumber(a) < DayNumber(b)
  {
    if a.year < b.year {
      DayNumberInYear(a);
      DayNumberInYear(b);
      DaysBeforeYearGrows(a.year, b.year);
    } else if a.month < b.month {
      DaysBeforeMonthGrows(a.year, a.month, b.month);
    }
  }

  /** `ToSeconds` keeps chronological order: it is strictly monotone, hence one to one. */
  lemma ToSecondsOrder(a: DateTime, b: DateTime)
    requires a.Valid() && b.Valid()
    ensures Before(a, b) <==> ToSeconds(a) < ToSeconds(b)
    ensures a == b <==> ToSeconds(a) == ToSeconds(b)
  {
    if a.year != b.year || a.month != b.month || a.day != b.day {
      if Before(a, b) {
        DayNumberOrder(a, b);
      } else {
        DayNumberOrder(b, a);
      }
    }
  }

  /** The same time on the next day of the same month is 86400 seconds later. */
  lemma NextDay(t: DateTime)
    requires t.Valid() && t.day < DaysInMonth(t.year, t.month)
    ensures t.(day := t.day + 1).Valid()
    ensures ToSeconds(t.(day := t.day + 1)) == ToSeconds(t) + 86400
  {
  }

  // ----- The 14-digit format ----------------------------------------------------------

  /** `n` written with exactly `width` decimal digits, zero-padded on the left. */
  function PadDigits(n: nat, width: nat): (s: string)
    requires n < Pow10(width)
    ensures |s| == width
    ensures forall i :: 0 <= i < |s| ==> '0' <= s[i] <= '9'
  {
    if width == 0 then []
    else PadDigits(n / 10, width - 1) + [DigitChar(n % 10)]
  }

  /** Reading back a padded number gives the number. */
  lemma {:induction false} DigitsValuePadDigits(n: nat, width: nat)
    requires n < Pow10(width)
    ensures DigitsValue(PadDigits(n, width)) == n
  {
    if width > 0 {
      var s := PadDigits(n, width);
      assert s[..|s| - 1] == PadDigits(n / 10, width - 1);
      DigitsValuePadDigits(n / 10, width - 1);
    }
  }

  /** A number put together from a high part and a last decimal digit splits back into them. */
  lemma Recombine10(hi: int, lo: int)
    requires 0 <= lo < 10
    ensures (hi * 10 + lo) / 10 == hi && (hi * 10 + lo) % 10 == lo
  {
  }

  /** Padding the value of a digit string to its own length gives the string back. */
  lemma {:induction false} PadDigitsDigitsValue(s: string)
    requires AllDigits(s)
    ensures PadDigits(DigitsValue(s), |s|) == s
  {
    if s != [] {
      var init := s[..|s| - 1];
      var d := s[|s| - 1] as int - '0' as int;
      var v := DigitsValue(init);
      Recombine10(v, d);
      PadDigitsDigitsValue(init);
      assert PadDigits(DigitsValue(s), |s|) == PadDigits(v, |init|) + [DigitChar(d)];
      assert s == init + [s[|s| - 1]];
    }
  }

  /** `t.ToString("yyyyMMddHHmmss", CultureInfo.InvariantCulture)`. */
  function FormatStamp(t: DateTime): (s: string)
    requires t.Valid()
    ensures |s| == 14 && AllDigits(s)
  {
    PadDigits(t.year, 4) + PadDigits(t.month, 2) + PadDigits(t.day, 2)
    + PadDigits(t.hour, 2) + PadDigits(t.minute, 2) + PadDigits(t.second, 2)
  }

  /** `DateTime.ParseExact(s, "yyyyMMddHHmmss", CultureInfo.InvariantCulture)`: exactly
      fourteen digits naming a valid date and time, otherwise a `FormatException`. */
  function ParseStamp(s: string): (r: Result<DateTime>)
    ensures r.Ok? ==> r.value.Valid()
    ensures r.Err? ==> r.error == Format
  {
    if |s| != 14 || !AllDigits(s) then Err(Format)
    else
      var t := DateTime(DigitsValue(s[0..4]), DigitsValue(s[4..6]), DigitsValue(s[6..8]),
                        DigitsValue(s[8..10]), DigitsValue(s[10..12]), DigitsValue(s[12..14]));
      if t.Valid() then Ok(t) else Err(Format)
  }

  /** The six fields of a 14-character stamp, in order, make up the stamp. */
  lemma StampFields(s: string)
    requires |s| == 14
    ensures s == s[0..4] + s[4..6] + s[6..8] + s[8..10] + s[10..12] + s[12..14]
  {
    assert s[0..6] == s[0..4] + s[4..6];
    assert s[0..8] == s[0..6] + s[6..8];
    assert s[0..10] == s[0..8] + s[8..10];
    assert s[0..12] == s[0..10] + s[10..12];
    assert s[0..14] == s[0..12] + s[12..14];
    assert s[0..14] == s;
  }

  /** The fields of a formatted stamp are the padded components. */
  lemma FormatFields(t: DateTime)
    requires t.Valid()
    ensures var s := FormatStamp(t);
      && s[0..4] == PadDigits(t.year, 4) && s[4..6] == PadDigits(t.month, 2)
      && s[6..8] == PadDigits(t.day, 2) && s[8..10] == PadDigits(t.hour, 2)
      && s[10..12] == PadDigits(t.minute, 2) && s[12..14] == PadDigits(t.second, 2)
  {
    var a, b, c := PadDigits(t.year, 4), PadDigits(t.month, 2), PadDigits(t.day, 2);
    var d, e, f := PadDigits(t.hour, 2), PadDigits(t.minute, 2), PadDigits(t.second, 2);
    var s := FormatStamp(t);
    assert s == a + b + c + d + e + f;
    assert s[..12] == a + b + c + d + e;
    assert s[..10] == a + b + c + d;
    assert s[..8] == a + b + c;
    assert s[..6] == a + b;
    assert s[0..4] == s[..6][0..4];
  }

  /** A stamp holds none of the characters that delimit a query. */
  lemma StampAvoids(issued: DateTime)
    requires issued.Valid()
    ensures '#' !in FormatStamp(issued) && '&' !in FormatStamp(issued) && '=' !in FormatStamp(issued)
  {
    var s := FormatStamp(issued);
    assert forall c :: c in s ==> '0' <= c <= '9';
  }

  /** Round trip: a formatted date and time parses back to itself. */
  lemma ParseFormat(t: DateTime)
    requires t.Valid()
    ensures ParseStamp(FormatStamp(t)) == Ok(t)
  {
    FormatFields(t);
    DigitsValuePadDigits(t.year, 4);
    DigitsValuePadDigits(t.month, 2);
    DigitsValuePadDigits(t.day, 2);
    DigitsValuePadDigits(t.hour, 2);
    DigitsValuePadDigits(t.minute, 2);
    DigitsValuePadDigits(t.second, 2);
  }

  /** The other direction: a stamp that parses is the formatting of what it parses to. */
  lemma FormatParse(s: string)
    requires ParseStamp(s).Ok?
    ensures FormatStamp(ParseStamp(s).value) == s
  {
    var t := ParseStamp(s).value;
    assert |s| == 14 && AllDigits(s);
    PadField(s, 0, 4, t.year);
    PadField(s, 4, 6, t.month);
    PadField(s, 6, 8, t.day);
    PadField(s, 8, 10, t.hour);
    PadField(s, 10, 12, t.minute);
    PadField(s, 12, 14, t.second);
    StampFields(s);
  }

  /** A field of a digit string, read and padded back to its width, is the field. */
  lemma PadField(s: string, i: nat, j: nat, n: nat)
    requires i <= j <= |s| && AllDigits(s) && n == DigitsValue(s[i..j])
    ensures n < Pow10(j - i) && PadDigits(n, j - i) == s[i..j]
  {
    PadDigitsDigitsValue(s[i..j]);
  }
}
