/** The schedule of fitness classes: an array with a count, grown four
    slots at a time, searched by the class key, and the time-conflict
    search used before a member joins a second class. */
module ClassSchedule {
  import opened Wrappers
  import opened Text
  import opened FitnessClasses
  import Times

  const INITIAL_LENGTH: nat := 4
  const GROWTH: nat := 4

  datatype Schedule = Schedule(classes: seq<FitnessClass>, capacity: nat)

  /** No two scheduled classes share a key. */
  predicate NoDuplicateClasses(s: seq<FitnessClass>) {
    forall i, j :: 0 <= i < j < |s| ==> !SameKey(s[i], s[j])
  }

  /** The count never exceeds the array length, and keys are unique. */
  predicate Valid(sc: Schedule) {
    |sc.classes| <= sc.capacity && NoDuplicateClasses(sc.classes)
  }

  /** The constructor: an empty array of four slots. */
  function Empty(): (sc: Schedule)
    ensures Valid(sc) && |sc.classes| == 0 && sc.capacity == INITIAL_LENGTH
  {
    Schedule([], INITIAL_LENGTH)
  }

  /** `getSize`. */
  function Size(sc: Schedule): nat {
    |sc.classes|
  }

  /** `isEmpty`: no class is scheduled, so a lookup finds nothing. */
  predicate IsEmpty(sc: Schedule)
    ensures IsEmpty(sc) <==> Size(sc) == 0
    ensures IsEmpty(sc) ==> forall c :: FindIn(sc.classes, c).None?
  {
    Size(sc) == 0
  }

  /** Sharing a key is an equivalence. */
  lemma SameKeyEquivalence(a: FitnessClass, b: FitnessClass, c: FitnessClass)
    ensures SameKey(a, a)
    ensures SameKey(a, b) ==> SameKey(b, a)
    ensures SameKey(a, b) && SameKey(b, c) ==> SameKey(a, c)
  {
  }

  // ---------------------------------------------------------------------
  // Lookup and add
  // ---------------------------------------------------------------------

  /** Every `equals` call `findFitnessClass` makes, up to the first match,
      can dereference the locations it reads. */
  predicate FindDefined(s: seq<FitnessClass>, c: FitnessClass)
    decreases |s|
  {
    |s| == 0 || (Comparable(s[0], c) && (Equals(s[0], c) || FindDefined(s[1..], c)))
  }

  /** The first class in `s` equal to `c`, or None. */
  function FindIn(s: seq<FitnessClass>, c: FitnessClass): (r: Option<FitnessClass>)
    requires FindDefined(s, c)
    ensures r.Some? ==> r.value in s && SameKey(r.value, c)
    ensures r.None? ==> forall i :: 0 <= i < |s| ==> !SameKey(s[i], c)
    decreases |s|
  {
    if |s| == 0 then None
    else if Equals(s[0], c) then Some(s[0])
    else
      var r := FindIn(s[1..], c);
      assert forall i :: 1 <= i < |s| ==> s[i] == s[1..][i - 1];
      r
  }

  /** `findFitnessClass`: the scheduled class with the key of `c`, or None. */
  function FindFitnessClass(sc: Schedule, c: FitnessClass): (r: Option<FitnessClass>)
    requires FindDefined(sc.classes, c)
    ensures r.Some? ==> r.value in sc.classes && SameKey(r.value, c)
    ensures r.None? ==> forall i :: 0 <= i < |sc.classes| ==> !SameKey(sc.classes[i], c)
  {
    FindIn(sc.classes, c)
  }

  /** In a valid schedule the class found is the only one with that key. */
  lemma FoundIsUnique(sc: Schedule, c: FitnessClass, i: nat)
    requires Valid(sc) && FindDefined(sc.classes, c)
    requires i < |sc.classes| && SameKey(sc.classes[i], c)
    ensures FindFitnessClass(sc, c) == Some(sc.classes[i])
  {
    var f := FindFitnessClass(sc, c).value;
    var j :| 0 <= j < |sc.classes| && sc.classes[j] == f;
    SameKeyEquivalence(sc.classes[i], c, f);
    if i != j {
      assert false;
    }
  }

  /** `addFitnessClass`: a full array first grows by four slots; then a
      class whose key is already scheduled is refused, and any other is
      appended. */
  function AddFitnessClass(sc: Schedule, c: FitnessClass): (r: (bool, Schedule))
    requires FindDefined(sc.classes, c)
    ensures r.0 <==> forall i :: 0 <= i < |sc.classes| ==> !SameKey(sc.classes[i], c)
    ensures r.0 ==> r.1.classes == sc.classes + [c] && Size(r.1) == Size(sc) + 1
    ensures !r.0 ==> r.1.classes == sc.classes
    ensures r.1.capacity == sc.capacity + (if |sc.classes| == sc.capacity then GROWTH else 0)
    ensures Valid(sc) ==> Valid(r.1)
  {
    var grown := if |sc.classes| == sc.capacity then Schedule(sc.classes, sc.capacity + GROWTH) else sc;
    if FindFitnessClass(grown, c).Some? then (false, grown)
    else
      var r := (true, Schedule(grown.classes + [c], grown.capacity));
      assert forall i :: 0 <= i < |sc.classes| ==> (grown.classes + [c])[i] == sc.classes[i];
      r
  }

  // ---------------------------------------------------------------------
  // Time conflicts
  // ---------------------------------------------------------------------

  /** Every dereference the conflict search makes succeeds: `c` has a time
      slot, every stored class can be compared with `c`, and every class
      other than `c` has a time slot. */
  predicate ConflictDefined(s: seq<FitnessClass>, c: FitnessClass) {
    && c.time.Some?
    && forall i :: 0 <= i < |s| ==> Comparable(s[i], c) && (!Equals(s[i], c) ==> s[i].time.Some?)
  }

  /** A stored class conflicts with `c` when it is not `c` and its time
      text matches `c`'s ignoring case. */
  predicate ConflictsWith(fc: FitnessClass, c: FitnessClass)
    requires c.time.Some? && Comparable(fc, c) && (!Equals(fc, c) ==> fc.time.Some?)
  {
    !Equals(fc, c) && EqualsIgnoreCase(GetTime(fc), GetTime(c))
  }

  /** The conflicting classes of `s`, in schedule order. */
  function Conflicts(s: seq<FitnessClass>, c: FitnessClass): (r: seq<FitnessClass>)
    requires ConflictDefined(s, c)
    ensures |r| <= |s|
    decreases |s|
  {
    if |s| == 0 then []
    else
      var init := s[..|s| - 1];
      var fc := s[|s| - 1];
      assert forall i :: 0 <= i < |init| ==> init[i] == s[i];
      Conflicts(init, c) + (if ConflictsWith(fc, c) then [fc] else [])
  }

  /** A class conflicts exactly when it has another key and the same time
      slot: location and instructor only matter through the key, and `c`
      itself is never a conflict. */
  lemma ConflictsWithIff(fc: FitnessClass, c: FitnessClass)
    requires c.time.Some? && Comparable(fc, c) && (!Equals(fc, c) ==> fc.time.Some?)
    ensures ConflictsWith(fc, c) <==> !SameKey(fc, c) && fc.time == c.time
  {
    if !Equals(fc, c) {
      Times.GetTimeInjective(fc.time.value, c.time.value);
    }
  }

  /** Membership in the conflict list, stated without the search. */
  lemma {:induction false} ConflictsMembers(s: seq<FitnessClass>, c: FitnessClass)
    requires ConflictDefined(s, c)
    ensures forall fc :: fc in Conflicts(s, c) <==>
              fc in s && !SameKey(fc, c) && fc.time == c.time
    decreases |s|
  {
    if |s| > 0 {
      var init := s[..|s| - 1];
      var fc := s[|s| - 1];
      assert forall i :: 0 <= i < |init| ==> init[i] == s[i];
      ConflictsMembers(init, c);
      ConflictsWithIff(fc, c);
      assert s == init + [fc];
    }
  }

  /** When `c` itself is scheduled it is never counted, so at most
      `numClasses - 1` classes conflict and the result array is big enough. */
  lemma {:induction false} ScheduledClassFits(s: seq<FitnessClass>, c: FitnessClass, k: nat)
    requires ConflictDefined(s, c)
    requires k < |s| && SameKey(s[k], c)
    ensures |Conflicts(s, c)| <= |s| - 1
    decreases |s|
  {
    var init := s[..|s| - 1];
    var fc := s[|s| - 1];
    assert forall i :: 0 <= i < |init| ==> init[i] == s[i];
    if k == |s| - 1 {
      ConflictsWithIff(fc, c);
    } else {
      ScheduledClassFits(init, c, k);
    }
  }

  /** A prefix of the schedule has no more conflicts than the whole. */
  lemma {:induction false} ConflictsPrefix(s: seq<FitnessClass>, c: FitnessClass, k: nat)
    requires ConflictDefined(s, c) && k <= |s|
    ensures ConflictDefined(s[..k], c)
    ensures |Conflicts(s[..k], c)| <= |Conflicts(s, c)|
    decreases |s|
  {
    if k < |s| {
      var init := s[..|s| - 1];
      assert forall i :: 0 <= i < |init| ==> init[i] == s[i];
      assert init[..k] == s[..k];
      ConflictsPrefix(init, c, k);
    } else {
      assert s[..k] == s;
    }
  }

  /** One more stored class extends the conflicts of the prefix by that
      class exactly when it conflicts. */
  lemma ConflictsStep(s: seq<FitnessClass>, c: FitnessClass, k: nat)
    requires ConflictDefined(s, c) && k < |s|
    ensures ConflictDefined(s[..k], c) && ConflictDefined(s[..k + 1], c)
    ensures Conflicts(s[..k + 1], c) ==
              Conflicts(s[..k], c) + (if ConflictsWith(s[k], c) then [s[k]] else [])
    ensures |Conflicts(s[..k + 1], c)| <= |Conflicts(s, c)|
  {
    ConflictsPrefix(s, c, k);
    ConflictsPrefix(s, c, k + 1);
    assert s[..k + 1][..k] == s[..k] && s[..k + 1][k] == s[k];
  }

  /** `findTimeConflict`: an array of `numClasses - 1` slots holding, in
      schedule order, the classes that conflict with `c`, the rest None
      (Java's null). The array size is negative for an empty schedule and
      overflows if more classes conflict than it holds; both throw, so
      both are excluded. */
  method FindTimeConflict(sc: Schedule, c: FitnessClass) returns (r: seq<Option<FitnessClass>>)
    requires |sc.classes| >= 1
    requires ConflictDefined(sc.classes, c)
    requires |Conflicts(sc.classes, c)| <= |sc.classes| - 1
    ensures |r| == |sc.classes| - 1
    ensures forall i :: 0 <= i < |Conflicts(sc.classes, c)| ==> r[i] == Some(Conflicts(sc.classes, c)[i])
    ensures forall i :: |Conflicts(sc.classes, c)| <= i < |r| ==> r[i].None?
  {
    var s := sc.classes;
    var n := |s|;
    r := seq(n - 1, _ => None);
    var index := 0;
    var k := 0;
    ConflictsPrefix(s, c, 0);
    ghost var found: seq<FitnessClass> := [];
    while k < n
      invariant 0 <= k <= n && |r| == n - 1
      invariant ConflictDefined(s[..k], c) && found == Conflicts(s[..k], c)
      invariant index == |found| <= n - 1
      invariant forall i :: 0 <= i < index ==> r[i] == Some(found[i])
      invariant forall i :: index <= i < n - 1 ==> r[i].None?
    {
      var fc := s[k];
      ConflictsStep(s, c, k);
      if ConflictsWith(fc, c) {
        r := r[index := Some(fc)];
        index := index + 1;
        found := found + [fc];
      }
      k := k + 1;
    }
    assert s[..n] == s;
  }
}
