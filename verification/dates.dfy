/** The gym's calendar date: three Java ints read from "M/D/Y" or "Y-M-D"
    text, a Gregorian validity test with a 1900 floor, a lexicographic
    comparison, and the "turns 18 on or before today" test. */
module Dates {
  import opened Int32
  import opened Wrappers
  import opened Text
  import Months

  datatype Date = Date(year: i32, month: i32, day: i32)

  const FIRST_VALID_YEAR: int := 1900

  // ---------------------------------------------------------------------
  // Validity
  // ---------------------------------------------------------------------

  /** `isLeapYear`, as the nested tests of the source. Divisibility does not
      depend on whether `%` truncates or floors, so negative years agree. */
  predicate IsLeapYear(year: int) {
    if year % 4 == 0 then
      if year % 100 == 0 then year % 400 == 0 else true
    else false
  }

  /** The reference day count of a month, independent of the month table. */
  function DaysInMonth(month: int, year: int): int {
    if month == 2 then (if IsLeapYear(year) then 29 else 28)
    else if month == 4 || month == 6 || month == 9 || month == 11 then 30
    else 31
  }

  /** `isValid`, following the source's sequence of early returns: the month
      table bounds the day, and February is further capped at 28 outside
      leap years. */
  predicate IsValid(d: Date) {
    if d.year < FIRST_VALID_YEAR then false
    else if d.month < Months.MonthOrder(Months.January) || d.month > 12 then false
    else if d.day < 1 then false
    else if d.month == Months.MonthOrder(Months.February) &&
            d.day > (if IsLeapYear(d.year) then 29 else 28) then false
    else d.day <= Months.NumOfDays(Months.FindByOrder(d.month).value)
  }

  /** The leap rule in one formula. */
  lemma LeapYearRule(year: int)
    ensures IsLeapYear(year) <==> year % 4 == 0 && (year % 100 != 0 || year % 400 == 0)
    ensures IsLeapYear(2000) && !IsLeapYear(1900) && IsLeapYear(2024) && !IsLeapYear(2023)
  {
  }

  /** A date is valid exactly when its year is at least 1900, its month is
      1..12 and its day is 1..DaysInMonth. */
  lemma ValidIff(d: Date)
    ensures IsValid(d) <==>
              d.year >= FIRST_VALID_YEAR && 1 <= d.month <= 12 &&
              1 <= d.day <= DaysInMonth(d.month, d.year)
  {
    if 1 <= d.month <= 12 {
      var m := Months.FindByOrder(d.month).value;
      Months.FindRoundTrip(m);
      assert m == Months.AllMonths[d.month - 1];
    }
  }

  // ---------------------------------------------------------------------
  // Ordering and equality
  // ---------------------------------------------------------------------

  /** Lexicographic "strictly earlier" on (year, month, day). */
  predicate Before(a: Date, b: Date) {
    || a.year < b.year
    || (a.year == b.year && a.month < b.month)
    || (a.year == b.year && a.month == b.month && a.day < b.day)
  }

  /** `compareTo`: -1, 0 or 1 as `a` is earlier than, the same as, or later
      than `b`. */
  function Compare(a: Date, b: Date): (r: int)
    ensures r == -1 || r == 0 || r == 1
    ensures r == -1 <==> Before(a, b)
    ensures r == 0 <==> a == b
    ensures r == 1 <==> Before(b, a)
  {
    if a.year > b.year then 1
    else if a.year < b.year then -1
    else if a.month > b.month then 1
    else if a.month < b.month then -1
    else if a.day > b.day then 1
    else if a.day < b.day then -1
    else 0
  }

  /** Swapping the operands of `compareTo` negates the result. */
  lemma CompareAntisymmetric(a: Date, b: Date)
    ensures Compare(a, b) == -Compare(b, a)
  {
  }

  /** "Not later than" is transitive, so `compareTo` is a total order. */
  lemma CompareTransitive(a: Date, b: Date, c: Date)
    ensures Compare(a, b) <= 0 && Compare(b, c) <= 0 ==> Compare(a, c) <= 0
    ensures Compare(a, b) < 0 && Compare(b, c) < 0 ==> Compare(a, c) < 0
  {
  }

  /** `equals(Object)`: false for null, otherwise a match of all three fields. */
  predicate Equals(a: Date, other: Option<Date>)
    ensures Equals(a, other) <==> other == Some(a)
  {
    other.Some? && a.year == other.value.year && a.month == other.value.month &&
    a.day == other.value.day
  }

  /** `compareTo` reports 0 exactly when `equals` holds. */
  lemma CompareZeroIffEquals(a: Date, b: Date)
    ensures Compare(a, b) == 0 <==> Equals(a, Some(b))
  {
  }

  // ---------------------------------------------------------------------
  // Text
  // ---------------------------------------------------------------------

  /** `toString`: month/day/year in decimal. */
  function ToText(d: Date): string {
    IntToString(d.month) + "/" + IntToString(d.day) + "/" + IntToString(d.year)
  }

  /** The constructor `Date(String)`: text containing '/' is month/day/year,
      anything else is split on '-' as year-month-day. None where Java throws
      (a missing field or a field `Integer.parseInt` rejects). Fields past
      the third are ignored. */
  function Parse(text: string): (r: Option<Date>)
  {
    if '/' in text then
      var f := Split(text, '/');
      if |f| < 3 then None else Assemble(f[2], f[0], f[1])
    else
      var f := Split(text, '-');
      if |f| < 3 then None else Assemble(f[0], f[1], f[2])
  }

  /** A date from year, month and day fields, if all three parse. */
  function Assemble(year: string, month: string, day: string): (r: Option<Date>)
    ensures r.Some? <==> ParseInt(year).Some? && ParseInt(month).Some? && ParseInt(day).Some?
  {
    match (ParseInt(year), ParseInt(month), ParseInt(day))
    case (Some(y), Some(m), Some(d)) => Some(Date(y, m, d))
    case _ => None
  }

  lemma NoSeparatorsInInt(n: int)
    ensures '/' !in IntToString(n)
    ensures '-' in IntToString(n) <==> n < 0
  {
  }

  /** Reading back the text `toString` writes gives the same date. */
  lemma ParseToText(d: Date)
    ensures Parse(ToText(d)) == Some(d)
  {
    var m, dd, y := IntToString(d.month), IntToString(d.day), IntToString(d.year);
    NoSeparatorsInInt(d.month);
    NoSeparatorsInInt(d.day);
    NoSeparatorsInInt(d.year);
    SplitThree(m, dd, y, '/');
    assert ToText(d) == m + ['/'] + dd + ['/'] + y;
    ParseIntOfIntToString(d.month);
    ParseIntOfIntToString(d.day);
    ParseIntOfIntToString(d.year);
  }

  /** "Y-M-D" and "M/D/Y" spellings of the same fields parse alike, as long
      as no field itself contains a separator. */
  lemma ParseHyphenMatchesSlash(y: string, m: string, d: string)
    requires '/' !in y && '/' !in m && '/' !in d
    requires '-' !in y && '-' !in m && '-' !in d
    ensures Parse(y + "-" + m + "-" + d) == Parse(m + "/" + d + "/" + y)
  {
    SplitThree(y, m, d, '-');
    SplitThree(m, d, y, '/');
    var hyphen := y + "-" + m + "-" + d;
    assert '/' !in hyphen;
  }

  /** `new Date(month + "/" + day + "/" + year)` for three ints, as the
      source writes whenever it builds a date from computed fields: the text
      always parses, to exactly those fields. The model builds such dates
      from their fields directly. */
  lemma FieldsTextParses(year: i32, month: i32, day: i32)
    ensures Parse(IntToString(month) + "/" + IntToString(day) + "/" + IntToString(year)) ==
              Some(Date(year, month, day))
  {
    ParseToText(Date(year, month, day));
  }

  // ---------------------------------------------------------------------
  // Adulthood
  // ---------------------------------------------------------------------

  /** The date the source builds for the 18th birthday: the same month and
      day, 18 years on (Java int addition), never checked for validity. */
  function EighteenthBirthday(dob: Date): (r: Date)
    ensures r.month == dob.month && r.day == dob.day
    ensures dob.year + 18 <= MAX ==> r.year == dob.year + 18
  {
    Date(Add(dob.year, 18), dob.month, dob.day)
  }

  /** The source writes that date as text and parses it back; the text
      parses, to the date above. */
  lemma EighteenthBirthdayParses(dob: Date)
    ensures Parse(IntToString(dob.month) + "/" + IntToString(dob.day) + "/" +
                  IntToString(Add(dob.year, 18))) == Some(EighteenthBirthday(dob))
  {
    FieldsTextParses(Add(dob.year, 18), dob.month, dob.day);
  }

  /** `aboveEighteen` with the clock's date passed in as `today`: false only
      when the 18th birthday compares as later than today. */
  predicate AboveEighteen(dob: Date, today: Date) {
    Compare(EighteenthBirthday(dob), today) != 1
  }

  /** Someone is an adult exactly when (year + 18, month, day) is not after
      today; a 29 February birth compares as 29 February of year + 18 even
      when that year has no such day. */
  lemma AboveEighteenIff(dob: Date, today: Date)
    requires dob.year + 18 <= MAX
    ensures AboveEighteen(dob, today) <==> !Before(today, Date(dob.year + 18, dob.month, dob.day))
  {
  }

  // ---------------------------------------------------------------------
  // The source's own validity testbed
  // ---------------------------------------------------------------------

  lemma Testbed()
    ensures !IsValid(Date(1899, 12, 31))
    ensures !IsValid(Date(2003, 0, 20))
    ensures !IsValid(Date(1977, 13, 8))
    ensures !IsValid(Date(2003, -1, 31))
    ensures !IsValid(Date(2003, 3, -20))
    ensures !IsValid(Date(2003, 2, 29))
    ensures !IsValid(Date(2011, 2, 30))
    ensures !IsValid(Date(2020, 2, 30))
    ensures !IsValid(Date(2003, 4, 31))
    ensures !IsValid(Date(2020, 1, 32))
    ensures IsValid(Date(2000, 2, 29))
    ensures IsValid(Date(2020, 1, 31))
    ensures IsValid(Date(2021, 2, 28))
    ensures IsValid(Date(2023, 12, 31))
  {
    ValidIff(Date(2003, 4, 31));
    ValidIff(Date(2020, 1, 32));
    ValidIff(Date(2000, 2, 29));
    ValidIff(Date(2020, 1, 31));
    ValidIff(Date(2021, 2, 28));
    ValidIff(Date(2023, 12, 31));
  }

  /** The testbed's month-end cases: the last day of each month is valid
      and the day after it is not. */
  lemma TestbedMonthEnds()
    ensures !IsValid(Date(2003, 13, 31)) && !IsValid(Date(2003, 3, 32))
    ensures IsValid(Date(2023, 3, 31)) && IsValid(Date(2023, 5, 31))
    ensures !IsValid(Date(2022, 4, 31)) && !IsValid(Date(2020, 5, 32))
    ensures IsValid(Date(2023, 6, 30)) && !IsValid(Date(2020, 6, 31))
    ensures !IsValid(Date(2020, 7, 32)) && !IsValid(Date(2020, 8, 32))
    ensures IsValid(Date(2023, 9, 30)) && !IsValid(Date(2020, 9, 31))
    ensures !IsValid(Date(2020, 10, 32)) && !IsValid(Date(2020, 11, 31))
    ensures !IsValid(Date(1989, 12, 32))
  {
    ValidIff(Date(2023, 3, 31));
    ValidIff(Date(2023, 5, 31));
    ValidIff(Date(2023, 6, 30));
    ValidIff(Date(2023, 9, 30));
  }

  lemma Digits1899()
    ensures IntToString(1899) == "1899"
  {
    assert NatToString(18) == "18";
    assert NatToString(189) == "189";
  }

  lemma Digits2000()
    ensures IntToString(2000) == "2000"
  {
    assert NatToString(20) == "20";
    assert NatToString(200) == "200";
  }

  /** The testbed's strings parse to the dates checked above. */
  lemma TestbedParses()
    ensures Parse("12/31/1899") == Some(Date(1899, 12, 31))
  {
    Digits1899();
    var t := ToText(Date(1899, 12, 31));
    assert t == "12/31/1899";
    ParseToText(Date(1899, 12, 31));
  }

  lemma TestbedParsesLeapDay()
    ensures Parse("2/29/2000") == Some(Date(2000, 2, 29))
  {
    Digits2000();
    var t := ToText(Date(2000, 2, 29));
    assert t == "2/29/2000";
    ParseToText(Date(2000, 2, 29));
  }
}
