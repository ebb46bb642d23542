/** The twelve calendar months with their order, three-letter abbreviation
    and day count, and the two lookups `Date` performs on them. */
module Months {
  import opened Wrappers

  datatype Month =
    | January | February | March | April | May | June
    | July | August | September | October | November | December

  /** The months in declaration order (Java's `Months.values()`). */
  const AllMonths: seq<Month> :=
    [January, February, March, April, May, June,
     July, August, September, October, November, December]

  /** The table's day count. February carries its leap-year maximum. */
  function NumOfDays(m: Month): nat {
    match m
    case January => 31   case February => 29  case March => 31
    case April => 30     case May => 31       case June => 30
    case July => 31      case August => 31    case September => 30
    case October => 31   case November => 30  case December => 31
  }

  function MonthOrder(m: Month): nat {
    match m
    case January => 1    case February => 2   case March => 3
    case April => 4      case May => 5        case June => 6
    case July => 7       case August => 8     case September => 9
    case October => 10   case November => 11  case December => 12
  }

  function Abbreviation(m: Month): string {
    match m
    case January => "Jan"  case February => "Feb"  case March => "Mar"
    case April => "Apr"    case May => "May"       case June => "Jun"
    case July => "Jul"     case August => "Aug"    case September => "Sep"
    case October => "Oct"  case November => "Nov"  case December => "Dec"
  }

  /** Declaration order runs January..December with orders 1..12, and every
      month is declared. */
  lemma DeclarationOrder()
    ensures |AllMonths| == 12
    ensures forall i :: 0 <= i < 12 ==> MonthOrder(AllMonths[i]) == i + 1
    ensures forall m: Month :: m in AllMonths
  {
    forall m: Month
      ensures m in AllMonths
    {
      assert AllMonths[MonthOrder(m) - 1] == m;
    }
  }

  /** Distinct months have distinct orders and distinct abbreviations. */
  lemma OrderAndAbbreviationInjective(a: Month, b: Month)
    ensures MonthOrder(a) == MonthOrder(b) ==> a == b
    ensures Abbreviation(a) == Abbreviation(b) ==> a == b
  {
    if a != b {
      assert Abbreviation(a)[0] != Abbreviation(b)[0] ||
             Abbreviation(a)[1] != Abbreviation(b)[1] ||
             Abbreviation(a)[2] != Abbreviation(b)[2];
    }
  }

  /** The day counts: 31 for the long months, 30 for April, June, September
      and November, 29 (the leap maximum) for February. */
  lemma DayTable(m: Month)
    ensures NumOfDays(m) == 31 <==> m in {January, March, May, July, August, October, December}
    ensures NumOfDays(m) == 30 <==> m in {April, June, September, November}
    ensures NumOfDays(m) == 29 <==> m == February
  {
  }

  /** `Date.findMonth(int)`: the first month, in declaration order, with the
      given order number, or None. */
  function FindByOrder(n: int): (r: Option<Month>)
    ensures r.Some? <==> 1 <= n <= 12
    ensures r.Some? ==> MonthOrder(r.value) == n
  {
    FindByOrderFrom(n, 0)
  }

  function FindByOrderFrom(n: int, i: nat): (r: Option<Month>)
    requires i <= |AllMonths|
    ensures r.Some? <==> i + 1 <= n <= 12
    ensures r.Some? ==> MonthOrder(r.value) == n
    decreases |AllMonths| - i
  {
    if i == |AllMonths| then None
    else if MonthOrder(AllMonths[i]) == n then Some(AllMonths[i])
    else FindByOrderFrom(n, i + 1)
  }

  /** `Date.findMonth(String)`: the month whose abbreviation equals the text
      exactly (the comparison is case-sensitive), or None. */
  function FindByAbbreviation(s: string): (r: Option<Month>)
    ensures r.Some? ==> Abbreviation(r.value) == s
    ensures r.None? ==> forall m: Month :: Abbreviation(m) != s
  {
    FindByAbbreviationFrom(s, 0)
  }

  function FindByAbbreviationFrom(s: string, i: nat): (r: Option<Month>)
    requires i <= |AllMonths|
    ensures r.Some? ==> Abbreviation(r.value) == s
    ensures r.None? ==> forall j :: i <= j < |AllMonths| ==> Abbreviation(AllMonths[j]) != s
    decreases |AllMonths| - i
  {
    if i == |AllMonths| then None
    else if Abbreviation(AllMonths[i]) == s then Some(AllMonths[i])
    else FindByAbbreviationFrom(s, i + 1)
  }

  /** Looking a month up by its own abbreviation or order finds that month. */
  lemma FindRoundTrip(m: Month)
    ensures FindByAbbreviation(Abbreviation(m)) == Some(m)
    ensures FindByOrder(MonthOrder(m)) == Some(m)
  {
    OrderAndAbbreviationInjective(FindByAbbreviation(Abbreviation(m)).value, m);
    OrderAndAbbreviationInjective(FindByOrder(MonthOrder(m)).value, m);
  }
}
