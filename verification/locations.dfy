/** The five gym towns with zip code and county, looked up by name
    ignoring case. Declaration order is the sort key of the county view. */
module Locations {
  import opened Wrappers
  import opened Text

  datatype Location = Edison | Piscataway | Bridgewater | Franklin | Somerville

  /** The towns in declaration order (Java's `Location.values()`). */
  const Towns: seq<Location> := [Edison, Piscataway, Bridgewater, Franklin, Somerville]

  /** The enum constant's `name()`. */
  function Name(l: Location): string {
    match l
    case Edison => "EDISON"
    case Piscataway => "PISCATAWAY"
    case Bridgewater => "BRIDGEWATER"
    case Franklin => "FRANKLIN"
    case Somerville => "SOMERVILLE"
  }

  function ZipCode(l: Location): string {
    match l
    case Edison => "08837"
    case Piscataway => "08854"
    case Bridgewater => "08807"
    case Franklin => "08873"
    case Somerville => "08876"
  }

  function County(l: Location): string {
    match l
    case Edison => "MIDDLESEX"
    case Piscataway => "MIDDLESEX"
    case Bridgewater => "SOMERSET"
    case Franklin => "SOMERSET"
    case Somerville => "SOMERSET"
  }

  /** The enum constant's `ordinal()`: its position in `Towns`. */
  function Ordinal(l: Location): (r: nat)
    ensures r < |Towns| && Towns[r] == l
  {
    match l
    case Edison => 0
    case Piscataway => 1
    case Bridgewater => 2
    case Franklin => 3
    case Somerville => 4
  }

  /** `getLocation`: the first town, in declaration order, whose name equals
      the text ignoring case, or None (Java's null). */
  function GetLocation(s: string): (r: Option<Location>)
    ensures r.Some? ==> EqualsIgnoreCase(Name(r.value), s)
    ensures r.None? ==> forall t: Location :: !EqualsIgnoreCase(Name(t), s)
  {
    GetLocationFrom(s, 0)
  }

  function GetLocationFrom(s: string, i: nat): (r: Option<Location>)
    requires i <= |Towns|
    ensures r.Some? ==> EqualsIgnoreCase(Name(r.value), s)
    ensures r.None? ==> forall j :: i <= j < |Towns| ==> !EqualsIgnoreCase(Name(Towns[j]), s)
    decreases |Towns| - i
  {
    if i == |Towns| then None
    else if EqualsIgnoreCase(Name(Towns[i]), s) then Some(Towns[i])
    else GetLocationFrom(s, i + 1)
  }

  /** No two town names are equal ignoring case (their initials differ). */
  lemma NamesDistinct(a: Location, b: Location)
    ensures EqualsIgnoreCase(Name(a), Name(b)) <==> a == b
  {
    if a != b {
      DifferentAt(Name(a), Name(b), 0);
    }
  }

  /** Zip codes are pairwise distinct. */
  lemma ZipCodesDistinct(a: Location, b: Location)
    ensures ZipCode(a) == ZipCode(b) <==> a == b
  {
    if a != b {
      assert ZipCode(a)[3] != ZipCode(b)[3] || ZipCode(a)[4] != ZipCode(b)[4];
    }
  }

  /** Any spelling of a town's name, in any letter case, finds that town. */
  lemma GetLocationRoundTrip(t: Location, s: string)
    requires EqualsIgnoreCase(s, Name(t))
    ensures GetLocation(s) == Some(t)
  {
    var r := GetLocation(s);
    NamesDistinct(r.value, t);
  }

  /** (county, zip) pairs ordered lexicographically. */
  predicate CountyZipLess(a: Location, b: Location) {
    StrLess(County(a), County(b)) || (County(a) == County(b) && StrLess(ZipCode(a), ZipCode(b)))
  }

  lemma StrLessIrreflexive(s: string)
    ensures !StrLess(s, s)
  {
  }

  lemma CountyOrder()
    ensures StrLess("MIDDLESEX", "SOMERSET") && !StrLess("SOMERSET", "MIDDLESEX")
  {
  }

  lemma MiddlesexZipOrder()
    ensures StrLess("08837", "08854") && !StrLess("08854", "08837")
  {
  }

  lemma SomersetZipOrder()
    ensures StrLess("08807", "08873") && !StrLess("08873", "08807")
    ensures StrLess("08807", "08876") && !StrLess("08876", "08807")
    ensures StrLess("08873", "08876") && !StrLess("08876", "08873")
  {
  }

  /** Declaration order is ascending by county and then zip code: the two
      Middlesex towns come first, then the three Somerset towns. */
  lemma DeclarationOrderIsCountyZip(a: Location, b: Location)
    ensures Ordinal(a) < Ordinal(b) <==> CountyZipLess(a, b)
  {
    StrLessIrreflexive(County(a));
    StrLessIrreflexive(ZipCode(a));
    CountyOrder();
    MiddlesexZipOrder();
    SomersetZipOrder();
  }
}
