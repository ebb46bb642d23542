# Gym membership core in Dafny

This project models the in-memory core of a gym-administration program
(package `com.example.gymmembershipgui`, in its `javafx/` and `src/`
source trees), and proves properties of that model. The core covers:

- **Calendar dates** (`Date`, `Months`). A date is parsed from "M/D/Y" or
  "Y-M-D" text, is valid from 1900 on under the Gregorian leap-year rule,
  compares lexicographically, and answers the "turns 18 on or before today"
  test.
- **Lookup enums.** Five gym locations (`Location`), three class time slots
  (`Time`) and five instructors (`Instructors`). Each is looked up by name,
  ignoring case.
- **Members** (`Member`, `Family`, `Premium`).
  - Names are capitalized on construction.
  - Identity is (last name, first name, date of birth), with names compared
    ignoring case.
  - `compareTo` gives the listing order.
  - The expiry date is computed from today. Member and Family memberships
    run three months, Premium one year. An impossible day is repaired in the
    source's own way.
  - The remaining pieces are the strict expiry test, the per-plan fee and
    the guest-pass counter.
- **The member store** (`MemberDatabase`). It is an array with a fill count,
  grown four slots at a time. `find`, `add` and `remove` keep it free of
  duplicates. Four listings reorder it permanently with a stable in-place
  insertion sort: by name, by location, by expiry date, and by name again
  for the "fee" listing.
- **Fitness classes** (`FitnessClass`, `ClassSchedule`).
  - Member check-in applies five rules. Family and Premium members are
    exempt from the location rule.
  - Guests check in and out on Family passes.
  - A class is identified by its name, instructor and location.
  - The schedule has no duplicates and offers a time-conflict search.

## How the model is built

- One module per source class, and one file per module.
  - `Int32` models Java `int` arithmetic: `+` wraps around and `%`
    truncates toward zero.
  - `Text` models Java string operations: case-insensitive equality and
    `compareToIgnoreCase`, capitalization, `Integer.toString` and
    `Integer.parseInt`, and `split`.
  - `Wrappers` holds `Option`.
- Where the source builds a date by writing "month/day/year" text and
  parsing it back, the model builds the date from its fields directly.
  `Dates.FieldsTextParses` proves the two agree.
- Java `null` is `None`.
- The system clock is the explicit parameter `today`.
- Fees are whole cents.
- A constructor that throws returns `None`. A member is `Some` only when
  both names are non-empty and every date text parses.
- A `NullPointerException` in the modelled logic becomes a precondition
  (`CheckInDefined`, `FindDefined`, `ConflictDefined`, `FeesDefined`, and
  the location and expiry conditions of the sort keys). The exceptions
  raised only while printing a listing are not modelled; see "Left out".
- The class hierarchy Member ← Family ← Premium is the `Plan` datatype.
  `instanceof Family` is `IsFamilyPlan`, which holds for Premium as well.
- Registries are a sequence plus the allocated array length (`capacity`).
- The in-place insertion sort is the method `MemberSort.InsertionSort`. It
  mirrors the source's two loops, and is proved equal to a functional
  reference sort, `MemberSort.Sort`. That reference is proved sorted, a
  permutation, stable and idempotent.

## Model

| member | source | states |
|---|---|---|
| Dates.LeapYearRule | javafx/src/main/java/com/example/gymmembershipgui/Date.java:176-190 | a year is leap exactly when it is divisible by 4 and either not by 100 or by 400; 2000 and 2024 are leap, 1900 and 2023 are not |
| Dates.ValidIff | javafx/src/main/java/com/example/gymmembershipgui/Date.java:104-126 | a date is valid exactly when year ≥ 1900, month is 1..12 and day is 1..the month's length, February having 29 days in leap years and 28 otherwise |
| Dates.Testbed | javafx/src/main/java/com/example/gymmembershipgui/Date.java:249-437 | the testbed's verdicts: 12/31/1899, 0/20/2003, 13/8/1977, -1/31/2003, 3/-20/2003, 2/29/2003, 2/30/2011, 2/30/2020, 4/31/2003 and 1/32/2020 are invalid; 2/29/2000, 1/31/2020, 2/28/2021 and 12/31/2023 are valid |
| Dates.TestbedMonthEnds | javafx/src/main/java/com/example/gymmembershipgui/Date.java:263-435 | the testbed's month-end cases: 3/31/2023, 5/31/2023, 6/30/2023 and 9/30/2023 are valid; 13/31/2003, 3/32/2003, 4/31/2022, 5/32/2020, 6/31/2020, 7/32/2020, 8/32/2020, 9/31/2020, 10/32/2020, 11/31/2020 and 12/32/1989 are invalid |
| Dates.TestbedParses | javafx/src/main/java/com/example/gymmembershipgui/Date.java:249-437 | the testbed text "12/31/1899" reads as month 12, day 31, year 1899 |
| Dates.TestbedParsesLeapDay | javafx/src/main/java/com/example/gymmembershipgui/Date.java:249-437 | the testbed text "2/29/2000" reads as month 2, day 29, year 2000 |
| Dates.Compare | javafx/src/main/java/com/example/gymmembershipgui/Date.java:220-234 | `compareTo` returns only -1, 0 or 1: -1 exactly when the date is earlier in (year, month, day) order, 0 exactly when all fields match, 1 exactly when later |
| Dates.CompareAntisymmetric | javafx/src/main/java/com/example/gymmembershipgui/Date.java:220-234 | swapping the two dates negates `compareTo` |
| Dates.CompareTransitive | javafx/src/main/java/com/example/gymmembershipgui/Date.java:220-234 | both "not later" and "earlier" are transitive, so `compareTo` is a total order |
| Dates.Equals | javafx/src/main/java/com/example/gymmembershipgui/Date.java:199-207 | `equals` is false for null and otherwise holds exactly when the argument is the same date |
| Dates.CompareZeroIffEquals | javafx/src/main/java/com/example/gymmembershipgui/Date.java:199-234 | `compareTo` is 0 exactly when `equals` holds |
| Dates.Assemble | javafx/src/main/java/com/example/gymmembershipgui/Date.java:53-69 | a date is built exactly when all three fields parse as Java ints written in ASCII digits; otherwise the constructor throws |
| Dates.ParseToText | javafx/src/main/java/com/example/gymmembershipgui/Date.java:241-243 | reading back the "M/D/Y" text that `toString` writes gives the same date, for every int field, negatives included |
| Dates.ParseHyphenMatchesSlash | javafx/src/main/java/com/example/gymmembershipgui/Date.java:53-69 | "Y-M-D" and "M/D/Y" spellings of the same separator-free fields give the same result |
| Dates.FieldsTextParses | javafx/src/main/java/com/example/gymmembershipgui/Member.java:130-146 | a date the source builds from three ints by writing "month/day/year" and parsing it always parses, and to exactly those three fields |
| Dates.EighteenthBirthday | javafx/src/main/java/com/example/gymmembershipgui/Date.java:143-151 | the 18th birthday has the birth month and day, and year + 18 whenever that fits in an int |
| Dates.EighteenthBirthdayParses | javafx/src/main/java/com/example/gymmembershipgui/Date.java:143-151 | the "month/day/year" text the source builds for the 18th birthday parses back to that date |
| Dates.AboveEighteenIff | javafx/src/main/java/com/example/gymmembershipgui/Date.java:143-151 | someone is an adult exactly when today is not before (year + 18, month, day); that date is never checked for validity, so a 29 February birth compares as 29 February of year + 18 |
| Months.DeclarationOrder | src/main/java/com/example/gymmembershipgui/Months.java:10-21 | in declaration order the month orders run 1..12, and every month is declared |
| Months.OrderAndAbbreviationInjective | src/main/java/com/example/gymmembershipgui/Months.java:10-21 | distinct months have distinct orders and distinct abbreviations |
| Months.DayTable | src/main/java/com/example/gymmembershipgui/Months.java:10-21 | the table gives 31 days to Jan/Mar/May/Jul/Aug/Oct/Dec, 30 to Apr/Jun/Sep/Nov, and 29 (the leap maximum) to February only |
| Months.FindByOrder | javafx/src/main/java/com/example/gymmembershipgui/Date.java:158-165 | `findMonth(int)` finds a month exactly for 1..12, and the month found has that order |
| Months.FindByAbbreviation | javafx/src/main/java/com/example/gymmembershipgui/Date.java:134-141 | `findMonth(String)` returns a month whose abbreviation equals the text case-sensitively, and null only when no month has that abbreviation |
| Months.FindRoundTrip | javafx/src/main/java/com/example/gymmembershipgui/Date.java:134-165 | looking up a month by its own abbreviation or its own order finds that month |
| Text.Capitalize | javafx/src/main/java/com/example/gymmembershipgui/Member.java:31-39 | the constructors' name normalisation needs a non-empty name; the result has its first letter upper-cased and the rest lower-cased, and equals the input ignoring case |
| Text.CompareZeroIffEqual | javafx/src/main/java/com/example/gymmembershipgui/Member.java:209-224 | `compareToIgnoreCase` is 0 exactly when the strings are equal ignoring case |
| Text.CompareSign | javafx/src/main/java/com/example/gymmembershipgui/Member.java:209-224 | `compareToIgnoreCase` is negative exactly when the first string, lower-cased, comes alphabetically (by character code) before the second |
| Text.CompareAntisymmetric | javafx/src/main/java/com/example/gymmembershipgui/Member.java:209-224 | swapping the arguments of `compareToIgnoreCase` negates it |
| Text.CompareCongruent | javafx/src/main/java/com/example/gymmembershipgui/Member.java:209-224 | replacing a string by one equal ignoring case does not change `compareToIgnoreCase` |
| Text.CompareStrictTransitive | javafx/src/main/java/com/example/gymmembershipgui/Member.java:209-224 | "less ignoring case" is transitive |
| Text.CompareWeakTransitive | javafx/src/main/java/com/example/gymmembershipgui/Member.java:209-224 | "not greater ignoring case" is transitive, and the chain collapses to equal only when both links are equal |
| Text.ParseIntOfIntToString | javafx/src/main/java/com/example/gymmembershipgui/Date.java:53-69 | `Integer.parseInt` reads back the decimal text of every int |
| Text.SplitThree | javafx/src/main/java/com/example/gymmembershipgui/Date.java:53-69 | splitting "a sep b sep c" on `sep`, where no field holds `sep`, gives back exactly the three fields |
| Text.UpperStrEqualsIgnoreCase | src/main/java/com/example/gymmembershipgui/Instructors.java:25-32 | upper-casing a string keeps it equal to the original ignoring case |
| Locations.Ordinal | javafx/src/main/java/com/example/gymmembershipgui/Location.java:11-15 | the ordinal is the town's position in declaration order |
| Locations.GetLocation | javafx/src/main/java/com/example/gymmembershipgui/Location.java:51-58 | `getLocation` returns a town whose name equals the text ignoring case, and null only when no town's name does |
| Locations.GetLocationRoundTrip | javafx/src/main/java/com/example/gymmembershipgui/Location.java:51-58 | any spelling of a town's name, in any letter case, finds that town |
| Locations.NamesDistinct | javafx/src/main/java/com/example/gymmembershipgui/Location.java:11-15 | two towns' names are equal ignoring case exactly when they are the same town |
| Locations.ZipCodesDistinct | javafx/src/main/java/com/example/gymmembershipgui/Location.java:11-15 | two towns' zip codes are equal exactly when they are the same town |
| Locations.DeclarationOrderIsCountyZip | javafx/src/main/java/com/example/gymmembershipgui/Location.java:11-15 | one town is declared before another exactly when it comes first by (county, zip code) |
| Times.GetTime | javafx/src/main/java/com/example/gymmembershipgui/Time.java:31-35 | the clock text of a slot starts with its hour and is at least four characters long, a zero minute being written ":00" |
| Times.TimeTexts | javafx/src/main/java/com/example/gymmembershipgui/Time.java:31-35 | the slots read "9:30", "14:00" and "18:30" |
| Times.GetTimeInjective | javafx/src/main/java/com/example/gymmembershipgui/Time.java:10-35 | two slots' clock texts are equal ignoring case exactly when they are the same slot |
| Times.GetTimeEnum | javafx/src/main/java/com/example/gymmembershipgui/Time.java:42-49 | `getTimeEnum` returns a slot whose name equals the text ignoring case, and null only when no slot's name does |
| Times.NamesDistinct | javafx/src/main/java/com/example/gymmembershipgui/Time.java:10-12 | two slots' names are equal ignoring case exactly when they are the same slot |
| Times.GetTimeEnumRoundTrip | javafx/src/main/java/com/example/gymmembershipgui/Time.java:42-49 | any spelling of a slot's name, in any letter case, finds that slot |
| Instructors.IsInstructorFromIff | src/main/java/com/example/gymmembershipgui/Instructors.java:26-31 | the scan from position i succeeds exactly when a later instructor's name equals the text ignoring case |
| Instructors.IsInstructorIff | src/main/java/com/example/gymmembershipgui/Instructors.java:25-32 | `isInstructor` holds exactly when the text equals one of the five names ignoring case |
| Instructors.IsInstructorIgnoresCase | src/main/java/com/example/gymmembershipgui/Instructors.java:28 | upper-casing the text does not change the answer |
| Instructors.MisspellingJeniffer | src/main/java/com/example/gymmembershipgui/Instructors.java:25-32 | "Jeniffer" is rejected |
| Instructors.MisspellingDennis | src/main/java/com/example/gymmembershipgui/Instructors.java:25-32 | "Dennis" is rejected |
| Instructors.NamesDistinct | src/main/java/com/example/gymmembershipgui/Instructors.java:9-13 | the five names are pairwise different ignoring case, so exactly five texts (up to case) are accepted |
| Members.InitialPlan | src/main/java/com/example/gymmembershipgui/Family.java:21-39 | a Member constructor gives the standard plan; a Family constructor starts with one guest pass; a Premium constructor starts with three, overwriting Family's one |
| Members.Fallback | javafx/src/main/java/com/example/gymmembershipgui/Member.java:130-146 | the repair keeps the year and leaves a valid date unchanged |
| Members.FallbackRepairs | javafx/src/main/java/com/example/gymmembershipgui/Member.java:130-146 | from 1900 on, for month 1..12 and day 1..31, the repaired date is valid and not before the date it repairs |
| Members.FebruaryRepair | javafx/src/main/java/com/example/gymmembershipgui/Member.java:132-140 | an invalid February day (29..31) becomes a valid March date whose day is the excess over 28 (over 29 in a leap year), the result of the source's `%` |
| Members.NextMonthRepair | javafx/src/main/java/com/example/gymmembershipgui/Member.java:141-144 | the 31st of a 30-day month becomes the 1st of the next month, which is valid and in the same year |
| Members.ThreeMonthsFromShape | javafx/src/main/java/com/example/gymmembershipgui/Member.java:120-130 | from a valid today before the last int year, the three-month rule repairs month (m + 3 - 1) mod 12 + 1 with the same day, in the next year for October to December |
| Members.ThreeMonthsFromValid | javafx/src/main/java/com/example/gymmembershipgui/Member.java:120-147 | from a valid today before the last int year, the Member and Family expiry is valid, strictly after today, in today's year or the next, and exactly three months on whenever that day exists |
| Members.OneYearFromValid | src/main/java/com/example/gymmembershipgui/Premium.java:60-83 | from a valid today before the last int year, the Premium expiry is valid, strictly after today and in the next year; it keeps month and day, except that 29 February becomes 1 March |
| Members.LeapDayNotRepeated | src/main/java/com/example/gymmembershipgui/Premium.java:68-76 | the year after a leap year is not a leap year, so a 29 February is always repaired a year on |
| Members.NewMember | javafx/src/main/java/com/example/gymmembershipgui/Member.java:31-39 | a member is built exactly when both names are non-empty and the birth date parses; names are capitalized, the plan is the class's, the location is looked up, and the expiry comes from the class's own `setExpire` (one year for Premium) |
| Members.NewMemberWithExpire | javafx/src/main/java/com/example/gymmembershipgui/Member.java:49-58 | a member is built exactly when both names are non-empty and both dates parse; the expiry is the parsed text |
| Members.MemberKey | javafx/src/main/java/com/example/gymmembershipgui/Member.java:66-74 | a lookup key is built exactly when both names are non-empty and the birth date parses; it has no expiry and no location |
| Members.NewMemberExpiry | src/main/java/com/example/gymmembershipgui/Premium.java:21-24 | a new member built from a valid today (before the last int year) expires on a valid date after today: one year on for Premium, and three months on (the same or the next year) for Member and Family |
| Members.Compare | javafx/src/main/java/com/example/gymmembershipgui/Member.java:209-224 | `compareTo` is 0 exactly when names match ignoring case and birth dates are equal |
| Members.ComparePriority | javafx/src/main/java/com/example/gymmembershipgui/Member.java:209-224 | `compareTo` orders by last name alphabetically ignoring case; with equal last names, by first name; with equal names, the earlier birth date first |
| Members.Equals | javafx/src/main/java/com/example/gymmembershipgui/Member.java:192-198 | `equals` holds exactly for the same last name, first name (ignoring case) and birth date; expiry, location and plan play no part |
| Members.EqualsSymmetric | javafx/src/main/java/com/example/gymmembershipgui/Member.java:192-198 | `equals` is symmetric |
| Members.EqualsReflexive | javafx/src/main/java/com/example/gymmembershipgui/Member.java:192-198 | every member equals itself |
| Members.EqualsTransitive | javafx/src/main/java/com/example/gymmembershipgui/Member.java:192-198 | `equals` is transitive |
| Members.CompareAntisymmetric | javafx/src/main/java/com/example/gymmembershipgui/Member.java:209-224 | swapping the two members negates `compareTo` |
| Members.CompareTransitive | javafx/src/main/java/com/example/gymmembershipgui/Member.java:209-224 | "not after" under `compareTo` is transitive |
| Members.KeyMatchesAnyPlan | javafx/src/main/java/com/example/gymmembershipgui/Member.java:66-74 | a 3-argument key, in any letter case, equals the stored Member, Family or Premium with the same names and birth date |
| Members.MembershipExpired | javafx/src/main/java/com/example/gymmembershipgui/Member.java:154-156 | a membership is expired exactly when the expiry is strictly before today; one that expires today is current |
| Members.Fee | javafx/src/main/java/com/example/gymmembershipgui/Member.java:165-167 | Standard pays 14996 cents; Family pays 17997 if expired, else 20996; Premium pays 71988 if expired, else 65989 |
| Members.AboveEighteen | javafx/src/main/java/com/example/gymmembershipgui/Member.java:174-182 | a member is an adult exactly when today is not before (birth year + 18, birth month, birth day) |
| Members.UseGuestPass | src/main/java/com/example/gymmembershipgui/Family.java:59-61 | using a pass takes exactly one off the count, with no lower bound, wrapping from the smallest int to the largest; nothing else about the member changes |
| Members.CheckoutGuest | src/main/java/com/example/gymmembershipgui/Family.java:67-69 | checking a guest out adds exactly one to the count, wrapping from the largest int to the smallest; nothing else changes |
| Members.CheckoutUndoesUse | src/main/java/com/example/gymmembershipgui/Family.java:59-69 | a checkout after a use restores the member exactly, even across int wrap-around |
| Members.GuestPassKeepsIdentity | src/main/java/com/example/gymmembershipgui/Family.java:59-77 | using or returning a pass never changes who the member is |
| Members.IndexOf | javafx/src/main/java/com/example/gymmembershipgui/MemberDatabase.java:63-69 | the search returns the first position holding an equal member, or -1 when none is equal |
| Members.AppendDistinct | javafx/src/main/java/com/example/gymmembershipgui/MemberDatabase.java:94-101 | appending someone equal to no entry keeps the entries pairwise different |
| Members.RemoveAt | javafx/src/main/java/com/example/gymmembershipgui/MemberDatabase.java:115-124 | deleting position i keeps earlier entries in place and moves every later entry one place left |
| MemberDatabase.Empty | javafx/src/main/java/com/example/gymmembershipgui/MemberDatabase.java:32-35 | a new store is empty, with four slots |
| MemberDatabase.Find | javafx/src/main/java/com/example/gymmembershipgui/MemberDatabase.java:63-69 | `find` returns -1 exactly when no stored member is equal, and otherwise a position holding an equal member |
| MemberDatabase.FindMember | javafx/src/main/java/com/example/gymmembershipgui/MemberDatabase.java:250-256 | `findMember` returns a stored member equal to the key, and null exactly when none is |
| MemberDatabase.Add | javafx/src/main/java/com/example/gymmembershipgui/MemberDatabase.java:94-101 | `add` is refused exactly when an equal member is stored, leaving the members unchanged; otherwise it appends the member at the end. A full array grows by four first, even when the add is refused. The invariant is kept: count ≤ length, and no duplicates |
| MemberDatabase.Remove | javafx/src/main/java/com/example/gymmembershipgui/MemberDatabase.java:111-125 | `remove` is refused with no change exactly when no equal member is stored; otherwise that entry goes, later entries shift left, the length is unchanged, and the invariant is kept |
| MemberDatabase.RemoveThenFindNothing | src/main/java/com/example/gymmembershipgui/MemberDatabase.java:88-102 | after a successful remove from a duplicate-free store, the size drops by one and `findMember` of the key returns null |
| MemberDatabase.AddThenRemove | src/main/java/com/example/gymmembershipgui/MemberDatabase.java:71-102 | adding a new member and then removing it restores the members |
| MemberDatabase.SortStore | src/main/java/com/example/gymmembershipgui/MemberDatabase.java:120-178 | the in-place sorts leave the store sorted and permuted, keep the relative order of ties, keep the array length, and keep the store duplicate-free |
| MemberDatabase.PrintByName | javafx/src/main/java/com/example/gymmembershipgui/MemberDatabase.java:200-216 | `printByName` permanently reorders the store into the stable `compareTo` order |
| MemberDatabase.PrintByCounty | javafx/src/main/java/com/example/gymmembershipgui/MemberDatabase.java:148-165 | `printByCounty` permanently reorders the store into stable location-ordinal order; with two or more members every location must be present |
| MemberDatabase.PrintByExpirationDate | javafx/src/main/java/com/example/gymmembershipgui/MemberDatabase.java:174-191 | `printByExpirationDate` permanently reorders the store into stable expiry order; with two or more members every expiry must be present |
| MemberDatabase.PrintByMembershipFee | javafx/src/main/java/com/example/gymmembershipgui/MemberDatabase.java:225-242 | the "fee" listing sorts by `compareTo` (name), not by fee, and reports each member's fee in the new order |
| MemberSort.GreaterAsymmetric | javafx/src/main/java/com/example/gymmembershipgui/MemberDatabase.java:148-216 | no two members each sort strictly after the other, under any of the three keys |
| MemberSort.NotGreaterTransitive | javafx/src/main/java/com/example/gymmembershipgui/MemberDatabase.java:148-216 | "not after" is transitive under each of the three keys |
| MemberSort.ShiftInsert | javafx/src/main/java/com/example/gymmembershipgui/MemberDatabase.java:203-208 | the inner loop turns the first i + 1 entries into the held entry inserted into the sorted first i, and leaves the rest alone |
| MemberSort.InsertionSort | src/main/java/com/example/gymmembershipgui/MemberDatabase.java:164-172 | the nested loops compute the reference insertion sort |
| MemberSort.InsertPermutation | src/main/java/com/example/gymmembershipgui/MemberDatabase.java:164-172 | inserting adds exactly one occurrence of the inserted member |
| MemberSort.SortPermutation | src/main/java/com/example/gymmembershipgui/MemberDatabase.java:120-178 | sorting keeps the same members, each as often |
| MemberSort.InsertSorted | src/main/java/com/example/gymmembershipgui/MemberDatabase.java:164-172 | inserting into a sorted sequence gives a sorted sequence |
| MemberSort.SortSorted | src/main/java/com/example/gymmembershipgui/MemberDatabase.java:120-178 | no sorted entry sorts strictly after a later one |
| MemberSort.InsertStable | src/main/java/com/example/gymmembershipgui/MemberDatabase.java:164-172 | the inner loop stops at an entry that is not strictly after the held one, so entries tied with any member keep their order |
| MemberSort.SortStable | src/main/java/com/example/gymmembershipgui/MemberDatabase.java:120-178 | the sorts are stable: entries tied with any member keep their relative order |
| MemberSort.SortOfSorted | src/main/java/com/example/gymmembershipgui/MemberDatabase.java:120-178 | sorting an already ordered store leaves it unchanged |
| MemberSort.SortIdempotent | javafx/src/main/java/com/example/gymmembershipgui/MemberDatabase.java:148-216 | repeating a listing does not reorder the store again |
| MemberSort.InsertDistinct | src/main/java/com/example/gymmembershipgui/MemberDatabase.java:164-172 | inserting someone new keeps the entries pairwise different |
| MemberSort.SortDistinct | src/main/java/com/example/gymmembershipgui/MemberDatabase.java:120-178 | sorting a duplicate-free store keeps it duplicate-free |
| MemberSort.CountyOrderIsCountyZip | javafx/src/main/java/com/example/gymmembershipgui/MemberDatabase.java:148-165 | after the county listing, located members run by county name and then by zip code |
| MemberSort.NameOrderIsAlphabetical | javafx/src/main/java/com/example/gymmembershipgui/MemberDatabase.java:200-216 | after the name listing, members run alphabetically by last name, then by first name (ignoring case), then by birth date |
| FitnessClasses.NewClass | src/main/java/com/example/gymmembershipgui/FitnessClass.java:44-52 | the class and instructor names are upper-cased, the slot and location are looked up by name, and both rosters start empty |
| FitnessClasses.ClassKey | src/main/java/com/example/gymmembershipgui/FitnessClass.java:28-35 | the key constructor takes the instructor first; it looks up the location, and has no time and no rosters |
| FitnessClasses.GetTime | src/main/java/com/example/gymmembershipgui/FitnessClass.java:82-85 | `getTime` reads "9:30", "14:00" or "18:30" for the morning, afternoon or evening slot; the slot must be known |
| FitnessClasses.Equals | src/main/java/com/example/gymmembershipgui/FitnessClass.java:169-181 | `equals` holds exactly when class name and instructor match ignoring case and the locations are the same; time and rosters play no part |
| FitnessClasses.KeyFindsClass | src/main/java/com/example/gymmembershipgui/FitnessClass.java:169-181 | a 3-argument key written in any letter case equals the scheduled class it names |
| FitnessClasses.CheckInMember | src/main/java/com/example/gymmembershipgui/FitnessClass.java:93-106 | check-in succeeds exactly when the member is not yet a participant, is at home or on a Family or Premium plan, is 18 or over, has a valid birth date and is not expired. On success the member is appended; otherwise nothing changes |
| FitnessClasses.LocationRuleExemptsFamily | src/main/java/com/example/gymmembershipgui/FitnessClass.java:96-98 | a Standard member from another town is refused, while a Family or Premium member who passes the other tests gets in anywhere |
| FitnessClasses.CheckInKeepsDistinct | src/main/java/com/example/gymmembershipgui/FitnessClass.java:93-106 | check-in keeps the participants pairwise different |
| FitnessClasses.FindMember | src/main/java/com/example/gymmembershipgui/FitnessClass.java:129-134 | `findMember` returns a participant equal to the key, and null exactly when none is |
| FitnessClasses.RemoveMember | src/main/java/com/example/gymmembershipgui/FitnessClass.java:142-146 | `removeMember` is refused with no change exactly when no participant is equal; otherwise the first equal participant is removed and the guests are untouched |
| FitnessClasses.CheckInGuest | src/main/java/com/example/gymmembershipgui/FitnessClass.java:115-120 | a guest is refused with no change exactly when the member has no passes left; otherwise one pass is used and the member is appended to the guests |
| FitnessClasses.RemoveGuest | src/main/java/com/example/gymmembershipgui/FitnessClass.java:154-159 | `removeGuest` is refused with no change exactly when no guest is equal; otherwise the member gets one pass back and the first equal guest is removed |
| FitnessClasses.GuestRoundTrip | src/main/java/com/example/gymmembershipgui/FitnessClass.java:115-159 | checking a guest in and then out restores both the class and the member's pass count |
| FitnessClasses.FamilySecondGuestRefused | src/main/java/com/example/gymmembershipgui/FitnessClass.java:115-120 | with a Family plan's single pass, the first guest gets in and the second is refused |
| FitnessClasses.GuestPassesStayNonNegative | src/main/java/com/example/gymmembershipgui/FitnessClass.java:115-120 | check-ins never take a non-negative pass count below zero |
| ClassSchedule.Empty | javafx/src/main/java/com/example/gymmembershipgui/ClassSchedule.java:29-32 | a new schedule is empty, with four slots |
| ClassSchedule.IsEmpty | javafx/src/main/java/com/example/gymmembershipgui/ClassSchedule.java:136-146 | `isEmpty` holds exactly when `getSize` is 0, and then no lookup finds a class |
| ClassSchedule.SameKeyEquivalence | src/main/java/com/example/gymmembershipgui/FitnessClass.java:169-181 | class-key equality is reflexive, symmetric and transitive |
| ClassSchedule.FindIn | javafx/src/main/java/com/example/gymmembershipgui/ClassSchedule.java:103-109 | the scan returns a class with the key of the argument, and null only when no class has it |
| ClassSchedule.FindFitnessClass | javafx/src/main/java/com/example/gymmembershipgui/ClassSchedule.java:103-109 | `findFitnessClass` returns a scheduled class with the key of the argument, and null exactly when none has it |
| ClassSchedule.FoundIsUnique | javafx/src/main/java/com/example/gymmembershipgui/ClassSchedule.java:70-109 | in a duplicate-free schedule the class found is the only one with that key |
| ClassSchedule.AddFitnessClass | javafx/src/main/java/com/example/gymmembershipgui/ClassSchedule.java:70-93 | a class is added exactly when no scheduled class has its key. It is appended, the size grows by one, and a full array grows by four first; no duplicates is kept |
| ClassSchedule.ConflictsWithIff | javafx/src/main/java/com/example/gymmembershipgui/ClassSchedule.java:125-126 | a scheduled class conflicts exactly when it has another key and the same slot; the class asked about never conflicts with itself |
| ClassSchedule.ConflictsMembers | javafx/src/main/java/com/example/gymmembershipgui/ClassSchedule.java:120-130 | the conflicts are exactly the scheduled classes with another key and the same slot, whatever their location or instructor |
| ClassSchedule.ScheduledClassFits | javafx/src/main/java/com/example/gymmembershipgui/ClassSchedule.java:121-127 | when the class asked about is itself scheduled, at most numClasses − 1 classes conflict, so the result array is large enough |
| ClassSchedule.FindTimeConflict | javafx/src/main/java/com/example/gymmembershipgui/ClassSchedule.java:120-130 | the result has numClasses − 1 slots: the conflicting classes in schedule order, then nulls |

## Left out

- The console front end (`GymManager`), the JavaFX controllers and the launchers. These are command parsing, event handlers and message text. They also call schedule methods (`findFitnessClass(String)`, `checkInMember`) that the schedule class does not define.
- File loading: `loadMemberList`, `loadClassSchedule` and `loadSchedule`/`loadMembers`. These are file I/O.
- The system clock. `Date()` parses `Calendar.getInstance()` text; here the clock's date is the parameter `today`.
- All text rendering: `toString` of members, classes and the schedule, the roster listing, and the headers and "$" fee lines of the listings. Only `Date.toString` is kept, for the parse round trip. The listings return the reordered store, and the fee listing also returns the fees.
- Floating point. The source's fees are doubles; here they are exact cents, and the rounding of double arithmetic is not modelled.
- Exceptions from `Integer.parseInt` and from `substring` on an empty name. The constructors return `None` in these cases, rather than demanding non-empty names and digit-only fields of their callers. This keeps the error path visible.
- Letter case is folded for ASCII letters only. Java's Unicode case mapping is not modelled.
- Text.ParseInt: only the ASCII digits '0'..'9' are read. Java's `Integer.parseInt` also accepts other Unicode decimal digits (Arabic-Indic "٢٠٠٠" reads as 2000). For such text the model's date parse, and so `NewMember`, gives None where the source builds a value. Modelling Unicode's digit classes would need its character tables.
- Java's `split` drops trailing empty fields; `Text.Split` is a plain split. This changes no date parse, because an empty field among the first three fails `parseInt` either way.
- Aliasing of guest objects. The source mutates the Family object it puts on the guest roster. Here members are values, so `CheckInGuest` and `RemoveGuest` return the updated member alongside the class.
- Null rosters of the 3-argument class key are `rosters: None`. An operation on such a class needs a roster, and its precondition says so.
- The array copy in `grow` and `growSchedule` is not modelled element by element. Each registry keeps its array length as `capacity`, which grows by four when the array is full.
- The `src/` and `javafx/` versions of `MemberDatabase` have the same add, remove, find and sort logic and differ only in printing. One model, `MemberDatabase`, serves both.
- The instanceof casts in the older fee listing reach the same `membershipFee` override as a plain call, so `Fee` is used directly.
- `Members.Equals` takes a member, not a possibly-null object. The source's null test (false) is not reachable from any caller in the core.
- Members.AboveEighteen: the characterisation is stated for birth years up to the largest int minus 18; above that `year + 18` wraps and only the comparison with the wrapped date is modelled.
- The member sort's county and expiry keys stand in -1 and 0/0/0 for a missing location or expiry. The county and expiry listings' preconditions exclude those members wherever the sort loop itself would dereference them.
- MemberDatabase.PrintByName, MemberDatabase.PrintByCounty, MemberDatabase.PrintByExpirationDate, MemberDatabase.PrintByMembershipFee: after reordering, each listing prints every member with `Member.toString`, which reads the location and the expiry. So the source reorders the store and then throws `NullPointerException` when any stored member lacks a location or an expiry. `loadMembers` can store such a member. The model leaves printing out, so it returns the reordered store in that case and does not model the throw.
