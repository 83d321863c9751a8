/** The date fields of an absence row: the day as "YYYY-MM-DD" (Fecha) and the
    full month name (Mes), both derived from the date chosen in the form. */
module Calendar {
  import opened Text
  import opened Wrappers

  datatype Date = Date(year: int, month: int, day: int)

  predicate IsLeapYear(y: int)
  {
    y % 4 == 0 && (y % 100 != 0 || y % 400 == 0)
  }

  function DaysInMonth(y: int, m: int): int
    requires 1 <= m <= 12
  {
    if m == 2 then (if IsLeapYear(y) then 29 else 28)
    else if m == 4 || m == 6 || m == 9 || m == 11 then 30
    else 31
  }

  /** The dates a date picker can return (proleptic Gregorian, years 1 to 9999). */
  predicate ValidDate(d: Date)
  {
    1 <= d.year <= 9999 && 1 <= d.month <= 12 && 1 <= d.day <= DaysInMonth(d.year, d.month)
  }

  /** `strftime("%Y-%m-%d")`: ten characters, dashes at positions 4 and 7, digits elsewhere. */
  function IsoDate(d: Date): (s: string)
    requires ValidDate(d)
    ensures |s| == 10 && s[4] == '-' && s[7] == '-'
    ensures AllDigits(s[..4]) && AllDigits(s[5..7]) && AllDigits(s[8..])
  {
    assert Pow10(4) == 10000 && Pow10(2) == 100;
    var s := PaddedDigits(d.year, 4) + "-" + PaddedDigits(d.month, 2) + "-" + PaddedDigits(d.day, 2);
    assert s[..4] == PaddedDigits(d.year, 4);
    assert s[5..7] == PaddedDigits(d.month, 2);
    assert s[8..] == PaddedDigits(d.day, 2);
    s
  }

  /** Reads a "YYYY-MM-DD" string back into its three numbers. */
  function ParseIsoDate(s: string): Option<Date>
  {
    if |s| == 10 && s[4] == '-' && s[7] == '-' && AllDigits(s[..4]) && AllDigits(s[5..7]) && AllDigits(s[8..]) then
      Some(Date(DecimalValue(s[..4]), DecimalValue(s[5..7]), DecimalValue(s[8..])))
    else
      None
  }

  /** The stored Fecha determines the date it was written from. */
  lemma IsoDateRoundTrip(d: Date)
    requires ValidDate(d)
    ensures ParseIsoDate(IsoDate(d)) == Some(d)
  {
    assert Pow10(4) == 10000 && Pow10(2) == 100;
    var s := IsoDate(d);
    assert s[..4] == PaddedDigits(d.year, 4);
    assert s[5..7] == PaddedDigits(d.month, 2);
    assert s[8..] == PaddedDigits(d.day, 2);
    PaddedDigitsRoundTrip(d.year, 4);
    PaddedDigitsRoundTrip(d.month, 2);
    PaddedDigitsRoundTrip(d.day, 2);
  }

  /** `strftime("%B")` under the C locale: the English month name. */
  function MonthName(m: int): (r: string)
    requires 1 <= m <= 12
    ensures |r| >= 3 && 'A' <= r[0] <= 'Z'
    ensures forall i :: 1 <= i < |r| ==> 'a' <= r[i] <= 'z'
  {
    ["January", "February", "March", "April", "May", "June", "July",
     "August", "September", "October", "November", "December"][m - 1]
  }

  /** The month a name stands for. */
  function MonthNumber(name: string): (r: Option<int>)
    ensures r.Some? ==> 1 <= r.value <= 12 && MonthName(r.value) == name
    ensures r.None? ==> forall m :: 1 <= m <= 12 ==> MonthName(m) != name
  {
    if name == "January" then Some(1)
    else if name == "February" then Some(2)
    else if name == "March" then Some(3)
    else if name == "April" then Some(4)
    else if name == "May" then Some(5)
    else if name == "June" then Some(6)
    else if name == "July" then Some(7)
    else if name == "August" then Some(8)
    else if name == "September" then Some(9)
    else if name == "October" then Some(10)
    else if name == "November" then Some(11)
    else if name == "December" then Some(12)
    else None
  }

  /** Every month name is read back to its month. */
  lemma MonthRoundTrip(m: int)
    requires 1 <= m <= 12
    ensures MonthNumber(MonthName(m)) == Some(m)
  {
  }

  /** Mes names the month and nothing else: two dates share it exactly when they
      fall in the same month of the year, whatever their years. */
  lemma SameMesIffSameMonth(d1: Date, d2: Date)
    requires ValidDate(d1) && ValidDate(d2)
    ensures MonthName(d1.month) == MonthName(d2.month) <==> d1.month == d2.month
  {
    MonthRoundTrip(d1.month);
    MonthRoundTrip(d2.month);
  }
}
