/** A gym member: identity (names and date of birth), membership expiry,
    home location and plan. The plan covers the Java class hierarchy
    Member <- Family <- Premium: Family and Premium carry a guest-pass
    count, and `instanceof Family` holds for both. */
module Members {
  import opened Int32
  import opened Wrappers
  import opened Text
  import opened Dates
  import Locations

  datatype Plan = Standard | Family(guestPasses: i32) | Premium(guestPasses: i32)

  datatype Member = Member(
    first: string,
    last: string,
    dob: Date,
    expire: Option<Date>,
    location: Option<Locations.Location>,
    plan: Plan)

  /** Which class a constructor call instantiates. */
  datatype Kind = StandardKind | FamilyKind | PremiumKind

  /** `m instanceof Family`: true for Family and for its subclass Premium. */
  predicate IsFamilyPlan(m: Member) {
    !m.plan.Standard?
  }

  /** The plan a freshly constructed member starts with: Family constructors
      set one guest pass, Premium constructors overwrite it with three. */
  function InitialPlan(k: Kind): (p: Plan)
    ensures p.Standard? <==> k == StandardKind
    ensures p.Family? ==> p.guestPasses == 1
    ensures p.Premium? ==> p.guestPasses == 3
  {
    match k
    case StandardKind => Standard
    case FamilyKind => Family(1)
    case PremiumKind => Premium(3)
  }

  // ---------------------------------------------------------------------
  // Expiration dates
  // ---------------------------------------------------------------------

  /** The repair both `setExpire` versions apply to the date they built
      from (year, month, day): an invalid February date moves to March with
      the day taken mod 28 (mod 29 in a leap year); any other invalid date
      becomes the 1st of the next month; a valid date is kept. The source
      builds each of these dates by writing and parsing "M/D/Y" text, which
      `Dates.FieldsTextParses` shows gives back the fields. */
  function Fallback(year: i32, month: i32, day: i32): (r: Date)
    ensures r.year == year
    ensures IsValid(Date(year, month, day)) ==> r == Date(year, month, day)
  {
    var expiration := Date(year, month, day);
    if month == 2 && !IsValid(expiration) then
      var d := if !IsLeapYear(expiration.year) then Rem(day, 28) else Rem(day, 29);
      Date(year, Add(month, 1), d)
    else if !IsValid(expiration) then
      Date(year, Add(month, 1), 1)
    else expiration
  }

  /** For a day of 1..31 in a month of 1..12 from 1900 on, the repaired
      date is valid and not before the date it repairs. */
  lemma FallbackRepairs(year: i32, month: i32, day: i32)
    requires FIRST_VALID_YEAR <= year && 1 <= month <= 12 && 1 <= day <= 31
    ensures IsValid(Fallback(year, month, day))
    ensures !Before(Fallback(year, month, day), Date(year, month, day))
  {
    ValidIff(Date(year, month, day));
    if !IsValid(Date(year, month, day)) {
      if month == 2 {
        FebruaryRepair(year, day);
      } else {
        NextMonthRepair(year, month);
      }
    }
  }

  /** An invalid February day (29..31) becomes a valid March day. */
  lemma FebruaryRepair(year: i32, day: i32)
    requires FIRST_VALID_YEAR <= year && 1 <= day <= 31
    requires !IsValid(Date(year, 2, day))
    ensures IsValid(Fallback(year, 2, day))
    ensures Fallback(year, 2, day).month == 3
    ensures Fallback(year, 2, day) == Date(year, 3, day - (if IsLeapYear(year) then 29 else 28))
  {
    ValidIff(Date(year, 2, day));
    var d := if !IsLeapYear(year) then Rem(day, 28) else Rem(day, 29);
    assert 1 <= d <= 3;
    ValidIff(Date(year, 3, d));
  }

  /** A day past the end of a 30-day month becomes the 1st of the
      following month, which is still in the same year. */
  lemma NextMonthRepair(year: i32, month: i32)
    requires FIRST_VALID_YEAR <= year && month in {4, 6, 9, 11}
    ensures Fallback(year, month, 31) == Date(year, month + 1, 1)
    ensures IsValid(Date(year, month + 1, 1))
  {
    ValidIff(Date(year, month, 31));
    ValidIff(Date(year, month + 1, 1));
  }

  /** `Member.setExpire`: three months on from today, the month wrapping
      past December into the next year, then repaired by `Fallback`. */
  function ThreeMonthsFrom(today: Date): (r: Date)
  {
    var newMonth := Add(today.month, 3);
    if newMonth > 12 then Fallback(Add(today.year, 1), Rem(newMonth, 12), today.day)
    else Fallback(today.year, newMonth, today.day)
  }

  /** `Premium.setExpire`: the same month and day one year on, repaired by
      `Fallback` (29 February into a common year gives 1 March). */
  function OneYearFrom(today: Date): (r: Date)
  {
    Fallback(Add(today.year, 1), today.month, today.day)
  }

  /** The overridden `setExpire` a constructor's dynamic class selects:
      Premium's one-year rule, otherwise Member's three-month rule (Family
      does not override it). */
  function SetExpire(plan: Plan, today: Date): (r: Date)
  {
    if plan.Premium? then OneYearFrom(today) else ThreeMonthsFrom(today)
  }

  /** The month three on from a valid month, counted 1..12. */
  function ThreeMonthsOn(month: int): int {
    (month + 3 - 1) % 12 + 1
  }

  /** From a valid today, the three-month rule repairs the date three
      months on: month (m + 3 - 1) % 12 + 1, in the next year for October to
      December. */
  lemma ThreeMonthsFromShape(today: Date)
    requires IsValid(today) && today.year < MAX
    ensures ThreeMonthsFrom(today) ==
              Fallback(today.year + (if today.month >= 10 then 1 else 0),
                       ThreeMonthsOn(today.month), today.day)
  {
    var newMonth := Add(today.month, 3);
    assert newMonth == today.month + 3;
    if newMonth > 12 {
      assert Rem(newMonth, 12) == ThreeMonthsOn(today.month);
      assert Add(today.year, 1) == today.year + 1;
    } else {
      assert newMonth == ThreeMonthsOn(today.month);
    }
  }

  /** From a valid today, the three-month rule gives a valid date strictly
      later than today, in today's year or the next; when today's day
      exists three months on, it is that day. */
  lemma ThreeMonthsFromValid(today: Date)
    requires IsValid(today) && today.year < MAX
    ensures IsValid(ThreeMonthsFrom(today))
    ensures Before(today, ThreeMonthsFrom(today))
    ensures ThreeMonthsFrom(today).year == today.year + (if today.month >= 10 then 1 else 0)
    ensures var naive := Date(ThreeMonthsFrom(today).year, ThreeMonthsOn(today.month), today.day);
            IsValid(naive) ==> ThreeMonthsFrom(today) == naive
  {
    ThreeMonthsFromShape(today);
    ValidIff(today);
    var naive := Date(today.year + (if today.month >= 10 then 1 else 0),
                      ThreeMonthsOn(today.month), today.day);
    assert Before(today, naive);
    FallbackRepairs(naive.year, naive.month, naive.day);
    Dates.CompareTransitive(today, naive, ThreeMonthsFrom(today));
  }

  /** From a valid today, the one-year rule gives a valid date strictly
      later than today in the next year; it keeps today's month and day
      unless today is 29 February, which becomes 1 March. */
  lemma OneYearFromValid(today: Date)
    requires IsValid(today) && today.year < MAX
    ensures IsValid(OneYearFrom(today))
    ensures Before(today, OneYearFrom(today))
    ensures OneYearFrom(today).year == today.year + 1
    ensures !(today.month == 2 && today.day == 29) ==>
              OneYearFrom(today) == Date(today.year + 1, today.month, today.day)
    ensures today.month == 2 && today.day == 29 ==>
              OneYearFrom(today) == Date(today.year + 1, 3, 1)
  {
    assert Add(today.year, 1) == today.year + 1;
    var next := Date(today.year + 1, today.month, today.day);
    ValidIff(today);
    FallbackRepairs(next.year, next.month, next.day);
    if today.month == 2 && today.day == 29 {
      LeapDayNotRepeated(today.year);
      ValidIff(next);
      assert Rem(29, 28) == 1;
    } else {
      if today.month == 2 {
        assert today.day <= 28;
      }
      ValidIff(next);
    }
  }

  /** A 29 February never has a successor on the same day a year on. */
  lemma LeapDayNotRepeated(year: int)
    ensures IsLeapYear(year) ==> !IsLeapYear(year + 1)
  {
    LeapYearRule(year);
    LeapYearRule(year + 1);
  }

  // ---------------------------------------------------------------------
  // Construction
  // ---------------------------------------------------------------------

  /** The 4-argument constructors of Member, Family and Premium: names
      capitalized, the birth date parsed, the expiry set by the class's
      `setExpire` from `today`, and the location looked up (None when the
      text names no town). None where Java throws: an empty name
      (`substring(0,1)`) or a birth date that does not parse. */
  function NewMember(kind: Kind, first: string, last: string, dobText: string,
                     locText: string, today: Date): (r: Option<Member>)
    ensures r.Some? <==> |first| > 0 && |last| > 0 && Parse(dobText).Some?
    ensures r.Some? ==>
              && IsCapitalized(r.value.first) && EqualsIgnoreCase(r.value.first, first)
              && IsCapitalized(r.value.last) && EqualsIgnoreCase(r.value.last, last)
              && Parse(dobText) == Some(r.value.dob)
              && r.value.plan == InitialPlan(kind)
              && r.value.expire == Some(SetExpire(InitialPlan(kind), today))
              && r.value.location == Locations.GetLocation(locText)
  {
    if |first| == 0 || |last| == 0 then None
    else match Parse(dobText)
      case None => None
      case Some(dob) =>
        var plan := InitialPlan(kind);
        Some(Member(Capitalize(first), Capitalize(last), dob,
                    Some(SetExpire(plan, today)), Locations.GetLocation(locText), plan))
  }

  /** The 5-argument constructors: as the 4-argument ones, with the expiry
      read from text instead of computed; a malformed expiry throws too. */
  function NewMemberWithExpire(kind: Kind, first: string, last: string, dobText: string,
                               expireText: string, locText: string): (r: Option<Member>)
    ensures r.Some? <==>
              |first| > 0 && |last| > 0 && Parse(dobText).Some? && Parse(expireText).Some?
    ensures r.Some? ==>
              && IsCapitalized(r.value.first) && EqualsIgnoreCase(r.value.first, first)
              && IsCapitalized(r.value.last) && EqualsIgnoreCase(r.value.last, last)
              && Parse(dobText) == Some(r.value.dob)
              && r.value.expire == Parse(expireText)
              && r.value.plan == InitialPlan(kind)
              && r.value.location == Locations.GetLocation(locText)
  {
    if |first| == 0 || |last| == 0 then None
    else match (Parse(dobText), Parse(expireText))
      case (Some(dob), Some(expire)) =>
        Some(Member(Capitalize(first), Capitalize(last), dob, Some(expire),
                    Locations.GetLocation(locText), InitialPlan(kind)))
      case _ => None
  }

  /** The 3-argument constructor used as a lookup key: no expiry and no
      location, standard plan. */
  function MemberKey(first: string, last: string, dobText: string): (r: Option<Member>)
    ensures r.Some? <==> |first| > 0 && |last| > 0 && Parse(dobText).Some?
    ensures r.Some? ==>
              && IsCapitalized(r.value.first) && EqualsIgnoreCase(r.value.first, first)
              && IsCapitalized(r.value.last) && EqualsIgnoreCase(r.value.last, last)
              && Parse(dobText) == Some(r.value.dob)
              && r.value.expire.None? && r.value.location.None? && r.value.plan.Standard?
  {
    if |first| == 0 || |last| == 0 then None
    else match Parse(dobText)
      case None => None
      case Some(dob) => Some(Member(Capitalize(first), Capitalize(last), dob, None, None, Standard))
  }

  /** A member built from a valid `today` expires on a valid date after
      today: three months on for Member and Family, one year on for Premium. */
  lemma NewMemberExpiry(kind: Kind, first: string, last: string, dobText: string,
                        locText: string, today: Date)
    requires IsValid(today) && today.year < MAX
    ensures var r := NewMember(kind, first, last, dobText, locText, today);
            r.Some? ==>
              && IsValid(r.value.expire.value) && Before(today, r.value.expire.value)
              && r.value.expire.value.year == today.year + (if kind == PremiumKind then 1
                                                          else if today.month >= 10 then 1 else 0)
  {
    ThreeMonthsFromValid(today);
    OneYearFromValid(today);
  }

  // ---------------------------------------------------------------------
  // Identity and order
  // ---------------------------------------------------------------------

  /** Same person: names equal ignoring case and the same date of birth.
      Expiry, location and plan play no part. */
  predicate SameIdentity(a: Member, b: Member) {
    EqualsIgnoreCase(a.last, b.last) && EqualsIgnoreCase(a.first, b.first) && a.dob == b.dob
  }

  /** `compareTo`: last name, then first name (both ignoring case), then
      date of birth; zero exactly for the same person. */
  function Compare(a: Member, b: Member): (r: int)
    ensures r == 0 <==> SameIdentity(a, b)
  {
    CompareZeroIffEqual(a.last, b.last);
    CompareZeroIffEqual(a.first, b.first);
    var byLast := CompareToIgnoreCase(a.last, b.last);
    if byLast != 0 then byLast
    else
      var byFirst := CompareToIgnoreCase(a.first, b.first);
      if byFirst != 0 then byFirst else Dates.Compare(a.dob, b.dob)
  }

  /** The order `compareTo` puts members in: by last name, then by first
      name, alphabetically ignoring case, then by date of birth. */
  lemma ComparePriority(a: Member, b: Member)
    ensures !EqualsIgnoreCase(a.last, b.last) ==>
              (Compare(a, b) < 0 <==> StrLess(LowerStr(a.last), LowerStr(b.last)))
    ensures EqualsIgnoreCase(a.last, b.last) && !EqualsIgnoreCase(a.first, b.first) ==>
              (Compare(a, b) < 0 <==> StrLess(LowerStr(a.first), LowerStr(b.first)))
    ensures EqualsIgnoreCase(a.last, b.last) && EqualsIgnoreCase(a.first, b.first) ==>
              (Compare(a, b) < 0 <==> Before(a.dob, b.dob))
  {
    CompareZeroIffEqual(a.last, b.last);
    CompareZeroIffEqual(a.first, b.first);
    CompareSign(a.last, b.last);
    CompareSign(a.first, b.first);
  }

  /** `equals`: `compareTo` is zero and the birth dates are equal. */
  predicate Equals(a: Member, b: Member)
    ensures Equals(a, b) <==> SameIdentity(a, b)
  {
    Compare(a, b) == 0 && Dates.Equals(a.dob, Some(b.dob))
  }

  /** `equals` is symmetric. */
  lemma EqualsSymmetric(a: Member, b: Member)
    ensures Equals(a, b) <==> Equals(b, a)
  {
  }

  lemma EqualsReflexive(a: Member)
    ensures Equals(a, a)
  {
  }

  /** `equals` is transitive, so stored duplicates of one key would equal
      each other. */
  lemma EqualsTransitive(a: Member, b: Member, c: Member)
    requires Equals(a, b) && Equals(b, c)
    ensures Equals(a, c)
  {
  }

  /** Swapping the operands of `compareTo` negates it. */
  lemma CompareAntisymmetric(a: Member, b: Member)
    ensures Compare(a, b) == -Compare(b, a)
  {
    Text.CompareAntisymmetric(a.last, b.last);
    Text.CompareAntisymmetric(a.first, b.first);
    Dates.CompareAntisymmetric(a.dob, b.dob);
  }

  /** "Not after" under `compareTo` is transitive. */
  lemma CompareTransitive(a: Member, b: Member, c: Member)
    requires Compare(a, b) <= 0 && Compare(b, c) <= 0
    ensures Compare(a, c) <= 0
  {
    var ab, bc := CompareToIgnoreCase(a.last, b.last), CompareToIgnoreCase(b.last, c.last);
    assert ab <= 0 && bc <= 0;
    CompareWeakTransitive(a.last, b.last, c.last);
    if CompareToIgnoreCase(a.last, c.last) == 0 {
      var fab, fbc := CompareToIgnoreCase(a.first, b.first), CompareToIgnoreCase(b.first, c.first);
      assert fab <= 0 && fbc <= 0;
      CompareWeakTransitive(a.first, b.first, c.first);
      if CompareToIgnoreCase(a.first, c.first) == 0 {
        Dates.CompareTransitive(a.dob, b.dob, c.dob);
      }
    }
  }

  /** A lookup key matches a stored member of any plan with the same names
      (in any letter case) and birth date. */
  lemma KeyMatchesAnyPlan(kind: Kind, first: string, last: string, dobText: string,
                          locText: string, today: Date,
                          keyFirst: string, keyLast: string)
    requires EqualsIgnoreCase(keyFirst, first) && EqualsIgnoreCase(keyLast, last)
    ensures var m := NewMember(kind, first, last, dobText, locText, today);
            m.Some? ==>
              && MemberKey(keyFirst, keyLast, dobText).Some?
              && Equals(MemberKey(keyFirst, keyLast, dobText).value, m.value)
  {
    assert |LowerStr(keyFirst)| == |LowerStr(first)|;
    assert |LowerStr(keyLast)| == |LowerStr(last)|;
  }

  // ---------------------------------------------------------------------
  // Expiry, fees, age, guest passes
  // ---------------------------------------------------------------------

  /** `membershipExpired`: the expiry date is strictly before today; a
      membership that expires today is still current. */
  predicate MembershipExpired(m: Member, today: Date)
    requires m.expire.Some?
    ensures MembershipExpired(m, today) <==> Before(m.expire.value, today)
  {
    Dates.Compare(m.expire.value, today) < 0
  }

  const STANDARD_ONE_TIME_FEE: int := 2999
  const STANDARD_MONTHLY_FEE: int := 3999
  const FAMILY_MONTHLY_FEE: int := 5999
  const QUARTERLY: int := 3
  const ANNUALLY: int := 12
  const FIRST_MONTH_FREE: int := 1

  /** `membershipFee` in cents, by dynamic class: Standard pays the one-time
      fee and a quarter; Family pays a quarter, plus the one-time fee unless
      expired; Premium pays a year if expired, else a year less one free
      month. Family and Premium read the expiry, so it must be present. */
  function Fee(m: Member, today: Date): (r: int)
    requires m.plan.Standard? || m.expire.Some?
    ensures m.plan.Standard? ==> r == 14996
    ensures m.plan.Family? ==> r == (if Before(m.expire.value, today) then 17997 else 20996)
    ensures m.plan.Premium? ==> r == (if Before(m.expire.value, today) then 71988 else 65989)
  {
    match m.plan
    case Standard => STANDARD_ONE_TIME_FEE + QUARTERLY * STANDARD_MONTHLY_FEE
    case Family(_) =>
      if MembershipExpired(m, today) then QUARTERLY * FAMILY_MONTHLY_FEE
      else STANDARD_ONE_TIME_FEE + QUARTERLY * FAMILY_MONTHLY_FEE
    case Premium(_) =>
      if MembershipExpired(m, today) then ANNUALLY * FAMILY_MONTHLY_FEE
      else (ANNUALLY - FIRST_MONTH_FREE) * FAMILY_MONTHLY_FEE
  }

  /** `Member.aboveEighteen`, with the clock's date passed in. */
  predicate AboveEighteen(m: Member, today: Date)
    ensures m.dob.year + 18 <= MAX ==>
              (AboveEighteen(m, today) <==>
                 !Before(today, Date(m.dob.year + 18, m.dob.month, m.dob.day)))
  {
    var adult := Dates.AboveEighteen(m.dob, today);
    if m.dob.year + 18 <= MAX then AboveEighteenIff(m.dob, today); adult else adult
  }

  /** `getNumberOfPasses`. */
  function Passes(m: Member): i32
    requires IsFamilyPlan(m)
  {
    m.plan.guestPasses
  }

  /** `useGuestPass`: one pass fewer (Java int arithmetic, no lower bound);
      nothing else about the member changes. */
  function UseGuestPass(m: Member): (r: Member)
    requires IsFamilyPlan(m)
    ensures IsFamilyPlan(r) && r.plan.Premium? == m.plan.Premium?
    ensures Passes(m) > MIN ==> Passes(r) == Passes(m) - 1
    ensures Passes(m) == MIN ==> Passes(r) == MAX
    ensures r.(plan := m.plan) == m
  {
    var p := Add(m.plan.guestPasses, -1);
    m.(plan := if m.plan.Family? then Family(p) else Premium(p))
  }

  /** `checkoutGuest`: one pass more; nothing else changes. */
  function CheckoutGuest(m: Member): (r: Member)
    requires IsFamilyPlan(m)
    ensures IsFamilyPlan(r) && r.plan.Premium? == m.plan.Premium?
    ensures Passes(m) < MAX ==> Passes(r) == Passes(m) + 1
    ensures Passes(m) == MAX ==> Passes(r) == MIN
    ensures r.(plan := m.plan) == m
  {
    var p := Add(m.plan.guestPasses, 1);
    m.(plan := if m.plan.Family? then Family(p) else Premium(p))
  }

  /** Checking a guest out after using a pass restores the member exactly. */
  lemma CheckoutUndoesUse(m: Member)
    requires IsFamilyPlan(m)
    ensures CheckoutGuest(UseGuestPass(m)) == m
  {
    AddUndo(m.plan.guestPasses, -1);
  }

  /** Using a pass never changes who the member is. */
  lemma GuestPassKeepsIdentity(m: Member)
    requires IsFamilyPlan(m)
    ensures Equals(UseGuestPass(m), m) && Equals(CheckoutGuest(m), m)
  {
  }

  // ---------------------------------------------------------------------
  // Rosters: sequences of members searched by `equals`
  // ---------------------------------------------------------------------

  /** The first position holding a member equal to `m`, or -1. */
  function IndexOf(s: seq<Member>, m: Member): (r: int)
    ensures -1 <= r < |s|
    ensures r >= 0 ==> Equals(s[r], m) && forall i :: 0 <= i < r ==> !Equals(s[i], m)
    ensures r == -1 ==> forall i :: 0 <= i < |s| ==> !Equals(s[i], m)
    decreases |s|
  {
    if |s| == 0 then -1
    else if Equals(s[0], m) then 0
    else
      var k := IndexOf(s[1..], m);
      if k == -1 then -1 else k + 1
  }

  predicate Contains(s: seq<Member>, m: Member) {
    exists i :: 0 <= i < |s| && Equals(s[i], m)
  }

  /** No two entries are the same person. */
  predicate Distinct(s: seq<Member>) {
    forall i, j :: 0 <= i < j < |s| ==> !Equals(s[i], s[j])
  }

  /** Appending someone who matches no entry keeps entries distinct. */
  lemma AppendDistinct(p: seq<Member>, x: Member)
    requires Distinct(p)
    requires forall e :: e in p ==> !Equals(e, x)
    ensures Distinct(p + [x])
  {
    var r := p + [x];
    forall i, j | 0 <= i < j < |r|
      ensures !Equals(r[i], r[j])
    {
      if j == |p| {
        assert r[i] == p[i] && p[i] in p;
      } else {
        assert r[i] == p[i] && r[j] == p[j];
      }
    }
  }

  /** `s` without its entry at `i`, later entries moved one place left. */
  function RemoveAt<T>(s: seq<T>, i: nat): (r: seq<T>)
    requires i < |s|
    ensures |r| == |s| - 1
    ensures forall k :: 0 <= k < i ==> r[k] == s[k]
    ensures forall k :: i <= k < |r| ==> r[k] == s[k + 1]
  {
    s[..i] + s[i + 1..]
  }
}
