/** A fitness class: name, instructor, time slot and location, with the
    rosters of checked-in members and of guests brought on Family passes.
    Rosters are searched with `Member.equals`. */
module FitnessClasses {
  import opened Wrappers
  import opened Text
  import opened Dates
  import opened Members
  import Locations
  import Times

  datatype Rosters = Rosters(participants: seq<Member>, guests: seq<Member>)

  /** `rosters` is None for the 3-argument lookup key, whose lists are
      never allocated. */
  datatype FitnessClass = FitnessClass(
    className: string,
    instructor: string,
    time: Option<Times.Time>,
    location: Option<Locations.Location>,
    rosters: Option<Rosters>)

  /** The 4-argument constructor: class and instructor names upper-cased,
      time slot and location looked up by name (None when unknown), empty
      rosters. */
  function NewClass(className: string, instructor: string, timeText: string,
                    locText: string): (c: FitnessClass)
    ensures EqualsIgnoreCase(c.className, className) && UpperStr(className) == c.className
    ensures EqualsIgnoreCase(c.instructor, instructor) && UpperStr(instructor) == c.instructor
    ensures c.time == Times.GetTimeEnum(timeText)
    ensures c.location == Locations.GetLocation(locText)
    ensures c.rosters == Some(Rosters([], []))
  {
    UpperStrEqualsIgnoreCase(className);
    UpperStrEqualsIgnoreCase(instructor);
    FitnessClass(UpperStr(className), UpperStr(instructor), Times.GetTimeEnum(timeText),
                 Locations.GetLocation(locText), Some(Rosters([], [])))
  }

  /** The 3-argument key constructor, which takes the instructor first; no
      time and no rosters. */
  function ClassKey(instructor: string, className: string, locText: string): (c: FitnessClass)
    ensures EqualsIgnoreCase(c.className, className) && EqualsIgnoreCase(c.instructor, instructor)
    ensures c.location == Locations.GetLocation(locText)
    ensures c.time.None? && c.rosters.None?
  {
    UpperStrEqualsIgnoreCase(className);
    UpperStrEqualsIgnoreCase(instructor);
    FitnessClass(UpperStr(className), UpperStr(instructor), None,
                 Locations.GetLocation(locText), None)
  }

  /** `getTime`: the slot's clock text; the slot must be known. */
  function GetTime(c: FitnessClass): (r: string)
    requires c.time.Some?
    ensures c.time == Some(Times.Morning) ==> r == "9:30"
    ensures c.time == Some(Times.Afternoon) ==> r == "14:00"
    ensures c.time == Some(Times.Evening) ==> r == "18:30"
  {
    Times.TimeTexts();
    Times.GetTime(c.time.value)
  }

  // ---------------------------------------------------------------------
  // Class identity
  // ---------------------------------------------------------------------

  /** Same class name and instructor ignoring case. */
  predicate SameNames(a: FitnessClass, b: FitnessClass) {
    EqualsIgnoreCase(a.className, b.className) && EqualsIgnoreCase(a.instructor, b.instructor)
  }

  /** `equals` dereferences both locations once the names match. */
  predicate Comparable(a: FitnessClass, b: FitnessClass) {
    SameNames(a, b) ==> a.location.Some? && b.location.Some?
  }

  /** The class key: class name and instructor ignoring case, and the
      same location. */
  predicate SameKey(a: FitnessClass, b: FitnessClass) {
    SameNames(a, b) && a.location == b.location
  }

  /** `equals`: class name, then instructor, ignoring case, then the
      location names exactly. Time and rosters play no part. */
  predicate Equals(a: FitnessClass, b: FitnessClass)
    requires Comparable(a, b)
    ensures Equals(a, b) <==> SameKey(a, b)
  {
    if !EqualsIgnoreCase(a.className, b.className) then false
    else if !EqualsIgnoreCase(a.instructor, b.instructor) then false
    else
      Locations.NamesDistinct(a.location.value, b.location.value);
      Locations.Name(a.location.value) == Locations.Name(b.location.value)
  }

  /** A lookup key equals the scheduled class it names, whatever its time
      and rosters, and whatever letter case the key was written in. */
  lemma KeyFindsClass(className: string, instructor: string, timeText: string,
                      locText: string, keyClass: string, keyInstructor: string, keyLoc: string)
    requires EqualsIgnoreCase(keyClass, className) && EqualsIgnoreCase(keyInstructor, instructor)
    requires EqualsIgnoreCase(keyLoc, locText) && Locations.GetLocation(locText).Some?
    ensures var key := ClassKey(keyInstructor, keyClass, keyLoc);
            var c := NewClass(className, instructor, timeText, locText);
            Comparable(key, c) && Equals(key, c)
  {
    var t := Locations.GetLocation(locText).value;
    Locations.GetLocationRoundTrip(t, keyLoc);
  }

  // ---------------------------------------------------------------------
  // Members
  // ---------------------------------------------------------------------

  /** A member whose plan is Standard and whose home location is not the
      class's location. */
  predicate StandardElsewhere(c: FitnessClass, m: Member) {
    !IsFamilyPlan(m) && m.location != c.location
  }

  /** Every dereference `checkInMember` makes along its path succeeds: the
      rosters exist, the class location is read for Standard members, and
      the expiry is read once the earlier tests pass. */
  predicate CheckInDefined(c: FitnessClass, m: Member, today: Date) {
    && c.rosters.Some?
    && (Contains(c.rosters.value.participants, m) ||
        ((IsFamilyPlan(m) || c.location.Some?) &&
         (StandardElsewhere(c, m) || !Members.AboveEighteen(m, today) || !IsValid(m.dob) ||
          m.expire.Some?)))
  }

  /** What a successful check-in needs: not yet checked in, at home or on a
      Family/Premium plan, adult, a valid birth date, not expired. */
  predicate Eligible(c: FitnessClass, m: Member, today: Date)
    requires c.rosters.Some?
  {
    && !Contains(c.rosters.value.participants, m)
    && !StandardElsewhere(c, m)
    && Members.AboveEighteen(m, today)
    && IsValid(m.dob)
    && m.expire.Some? && !Before(m.expire.value, today)
  }

  /** `checkInMember`: the tests in source order; the member is appended
      to the participants only when all pass. */
  function CheckInMember(c: FitnessClass, m: Member, today: Date): (r: (bool, FitnessClass))
    requires CheckInDefined(c, m, today)
    ensures r.0 <==> Eligible(c, m, today)
    ensures r.0 ==> r.1 == c.(rosters := Some(c.rosters.value.(
                             participants := c.rosters.value.participants + [m])))
    ensures !r.0 ==> r.1 == c
  {
    var p := c.rosters.value.participants;
    if Contains(p, m) then (false, c)
    else if !IsFamilyPlan(m) && m.location != c.location then (false, c)
    else if !Members.AboveEighteen(m, today) then (false, c)
    else if !IsValid(m.dob) then (false, c)
    else if MembershipExpired(m, today) then (false, c)
    else (true, c.(rosters := Some(c.rosters.value.(participants := p + [m]))))
  }

  /** A Standard member from another town is turned away, while the same
      person on a Family or Premium plan is not held back by location. */
  lemma LocationRuleExemptsFamily(c: FitnessClass, m: Member, today: Date)
    requires c.rosters.Some? && c.location.Some?
    requires CheckInDefined(c, m, today)
    ensures StandardElsewhere(c, m) ==> !CheckInMember(c, m, today).0
    ensures IsFamilyPlan(m) && !Contains(c.rosters.value.participants, m) &&
            Members.AboveEighteen(m, today) && IsValid(m.dob) && !Before(m.expire.value, today) ==>
              CheckInMember(c, m, today).0
  {
  }

  /** Check-in keeps the participants free of duplicates. */
  lemma CheckInKeepsDistinct(c: FitnessClass, m: Member, today: Date)
    requires CheckInDefined(c, m, today) && Distinct(c.rosters.value.participants)
    ensures Distinct(CheckInMember(c, m, today).1.rosters.value.participants)
  {
    var p := c.rosters.value.participants;
    if CheckInMember(c, m, today).0 {
      forall e | e in p
        ensures !Members.Equals(e, m)
      {
      }
      AppendDistinct(p, m);
    }
  }

  /** `findMember`: the participant equal to `m`, or None. */
  function FindMember(c: FitnessClass, m: Member): (r: Option<Member>)
    requires c.rosters.Some?
    ensures r.None? <==> !Contains(c.rosters.value.participants, m)
    ensures r.Some? ==> r.value in c.rosters.value.participants && Members.Equals(r.value, m)
  {
    var p := c.rosters.value.participants;
    var i := IndexOf(p, m);
    if i == -1 then None else Some(p[i])
  }

  /** `removeMember`: refused when no participant equals `m`; otherwise the
      first equal participant is removed. */
  function RemoveMember(c: FitnessClass, m: Member): (r: (bool, FitnessClass))
    requires c.rosters.Some?
    ensures r.0 <==> Contains(c.rosters.value.participants, m)
    ensures !r.0 ==> r.1 == c
    ensures r.1.rosters.Some?
    ensures r.0 ==> |r.1.rosters.value.participants| == |c.rosters.value.participants| - 1
    ensures r.0 ==> r.1.rosters.value.participants ==
                      RemoveAt(c.rosters.value.participants, IndexOf(c.rosters.value.participants, m))
    ensures r.1.rosters.value.guests == c.rosters.value.guests
  {
    var p := c.rosters.value.participants;
    if !Contains(p, m) then (false, c)
    else (true, c.(rosters := Some(c.rosters.value.(participants := RemoveAt(p, IndexOf(p, m))))))
  }

  // ---------------------------------------------------------------------
  // Guests
  // ---------------------------------------------------------------------

  /** `checkInGuest`: refused with nothing changed when the member has no
      passes left; otherwise one pass is used and the member is added to
      the guests. The updated member is returned alongside the class. */
  function CheckInGuest(c: FitnessClass, g: Member): (r: (bool, FitnessClass, Member))
    requires IsFamilyPlan(g)
    requires Passes(g) == 0 || c.rosters.Some?
    ensures r.0 <==> Passes(g) != 0
    ensures !r.0 ==> r.1 == c && r.2 == g
    ensures r.0 ==> r.2 == UseGuestPass(g) && (Passes(g) > 0 ==> Passes(r.2) == Passes(g) - 1)
    ensures r.0 ==> r.1 == c.(rosters := Some(c.rosters.value.(guests := c.rosters.value.guests + [r.2])))
  {
    if Passes(g) == 0 then (false, c, g)
    else
      var g' := UseGuestPass(g);
      (true, c.(rosters := Some(c.rosters.value.(guests := c.rosters.value.guests + [g']))), g')
  }

  /** `removeGuest`: refused when no guest equals `g`; otherwise `g` gets
      its pass back and the first equal guest is removed. */
  function RemoveGuest(c: FitnessClass, g: Member): (r: (bool, FitnessClass, Member))
    requires IsFamilyPlan(g) && c.rosters.Some?
    ensures r.0 <==> Contains(c.rosters.value.guests, g)
    ensures !r.0 ==> r.1 == c && r.2 == g
    ensures r.1.rosters.Some?
    ensures r.0 ==> r.2 == CheckoutGuest(g)
    ensures r.0 ==> r.1.rosters.value.guests ==
                      RemoveAt(c.rosters.value.guests, IndexOf(c.rosters.value.guests, g))
    ensures r.1.rosters.value.participants == c.rosters.value.participants
  {
    var q := c.rosters.value.guests;
    if !Contains(q, g) then (false, c, g)
    else (true, c.(rosters := Some(c.rosters.value.(guests := RemoveAt(q, IndexOf(q, g))))),
          CheckoutGuest(g))
  }

  /** Bringing a guest and then checking the guest out restores both the
      class and the member's pass count, provided the member had no guest
      in the class before. */
  lemma GuestRoundTrip(c: FitnessClass, g: Member)
    requires IsFamilyPlan(g) && c.rosters.Some? && Passes(g) != 0
    requires !Contains(c.rosters.value.guests, g)
    ensures var (ok, c1, g1) := CheckInGuest(c, g);
            ok && RemoveGuest(c1, g1) == (true, c, g)
  {
    var (_, c1, g1) := CheckInGuest(c, g);
    var q := c.rosters.value.guests;
    var q1 := c1.rosters.value.guests;
    assert q1 == q + [g1];
    GuestPassKeepsIdentity(g);
    EqualsReflexive(g1);
    forall i | 0 <= i < |q|
      ensures !Members.Equals(q1[i], g1)
    {
      if Members.Equals(q[i], g1) {
        EqualsSymmetric(g1, g);
        EqualsTransitive(q[i], g1, g);
      }
    }
    assert q1[|q|] == g1;
    assert IndexOf(q1, g1) == |q|;
    assert RemoveAt(q1, |q|) == q;
    CheckoutUndoesUse(g);
  }

  /** A Family member starts with one pass: the first guest gets in, and a
      second guest brought with the updated member is refused. */
  lemma FamilySecondGuestRefused(c: FitnessClass, g: Member)
    requires g.plan == Family(1) && c.rosters.Some?
    ensures var (ok1, c1, g1) := CheckInGuest(c, g);
            ok1 && Passes(g1) == 0 && !CheckInGuest(c1, g1).0
  {
  }

  /** The pass count never goes below zero through check-ins. */
  lemma GuestPassesStayNonNegative(c: FitnessClass, g: Member)
    requires IsFamilyPlan(g) && Passes(g) >= 0 && c.rosters.Some?
    ensures Passes(CheckInGuest(c, g).2) >= 0
  {
  }
}
