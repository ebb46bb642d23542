/** The gym's member store: an array with a fill count, searched with
    `Member.equals`, grown four slots at a time, and reordered in place by
    its sorted listings. The array is the sequence of stored members plus
    its allocated length. */
module MemberDatabase {
  import opened Wrappers
  import Dates
  import opened Members
  import opened MemberSort

  const NOT_FOUND: int := -1
  const INITIAL_LENGTH: nat := 4
  const GROWTH: nat := 4

  datatype Database = Database(members: seq<Member>, capacity: nat)

  /** The fill count never exceeds the array length, and no two stored
      members are the same person. */
  predicate Valid(db: Database) {
    |db.members| <= db.capacity && Distinct(db.members)
  }

  /** The constructor: an empty array of four slots. */
  function Empty(): (db: Database)
    ensures Valid(db) && |db.members| == 0 && db.capacity == INITIAL_LENGTH
  {
    Database([], INITIAL_LENGTH)
  }

  /** `getSize`. */
  function Size(db: Database): nat {
    |db.members|
  }

  /** `find`: the position of the stored member equal to `m`, or -1. */
  function Find(db: Database, m: Member): (r: int)
    ensures r == NOT_FOUND <==> !Contains(db.members, m)
    ensures r != NOT_FOUND ==> 0 <= r < |db.members| && Equals(db.members[r], m)
  {
    IndexOf(db.members, m)
  }

  /** `findMember`: the stored member equal to `m`, or None. */
  function FindMember(db: Database, m: Member): (r: Option<Member>)
    ensures r.None? <==> !Contains(db.members, m)
    ensures r.Some? ==> r.value in db.members && Equals(r.value, m)
  {
    var i := Find(db, m);
    if i == NOT_FOUND then None else Some(db.members[i])
  }

  /** `add`: a full array first grows by four slots; then a member equal to
      one already stored is refused, and any other is appended. The growth
      happens even when the member is refused. */
  function Add(db: Database, m: Member): (r: (bool, Database))
    ensures r.0 <==> !Contains(db.members, m)
    ensures r.0 ==> r.1.members == db.members + [m]
    ensures !r.0 ==> r.1.members == db.members
    ensures r.1.capacity == db.capacity + (if |db.members| == db.capacity then GROWTH else 0)
    ensures Valid(db) ==> Valid(r.1)
  {
    var grown := if |db.members| == db.capacity then Database(db.members, db.capacity + GROWTH) else db;
    if Find(grown, m) != NOT_FOUND then (false, grown)
    else
      var r := (true, Database(grown.members + [m], grown.capacity));
      if Valid(db) then AppendDistinct(db.members, m); r else r
  }

  /** `remove`: a member equal to none stored is refused; otherwise that
      entry is deleted and later entries move one place left. */
  function Remove(db: Database, m: Member): (r: (bool, Database))
    ensures r.0 <==> Contains(db.members, m)
    ensures !r.0 ==> r.1 == db
    ensures r.0 ==> r.1.capacity == db.capacity &&
                    r.1.members == RemoveAt(db.members, Find(db, m))
    ensures Valid(db) ==> Valid(r.1)
  {
    var i := Find(db, m);
    if i == NOT_FOUND then (false, db)
    else
      var rest := RemoveAt(db.members, i);
      assert forall a, b :: 0 <= a < b < |rest| ==>
               rest[a] == db.members[if a < i then a else a + 1] &&
               rest[b] == db.members[if b < i then b else b + 1];
      (true, Database(rest, db.capacity))
  }

  /** After a successful remove from a valid store, the member is gone: no
      entry equal to it is left, and the size dropped by one. */
  lemma RemoveThenFindNothing(db: Database, m: Member)
    requires Valid(db) && Contains(db.members, m)
    ensures FindMember(Remove(db, m).1, m).None?
    ensures Size(Remove(db, m).1) == Size(db) - 1
  {
    var i := Find(db, m);
    var rest := Remove(db, m).1.members;
    forall t | 0 <= t < |rest|
      ensures !Equals(rest[t], m)
    {
      var u := if t < i then t else t + 1;
      assert rest[t] == db.members[u] && u != i;
      if Equals(db.members[u], m) {
        EqualsSymmetric(db.members[i], m);
        EqualsTransitive(db.members[u], m, db.members[i]);
        EqualsSymmetric(db.members[u], db.members[i]);
      }
    }
  }

  /** Adding and then removing the same new member restores the members. */
  lemma AddThenRemove(db: Database, m: Member)
    requires !Contains(db.members, m)
    ensures Remove(Add(db, m).1, m).1.members == db.members
  {
    var added := Add(db, m).1;
    assert added.members[|db.members|] == m;
    EqualsReflexive(m);
    assert Find(added, m) == |db.members|;
  }

  // ---------------------------------------------------------------------
  // Sorted listings
  // ---------------------------------------------------------------------

  /** What every sorted listing promises of the reordered store. */
  ghost predicate Reordered(k: SortKey, db: Database, r: Database) {
    && r.capacity == db.capacity
    && Sorted(k, r.members)
    && multiset(r.members) == multiset(db.members)
    && (forall y :: TiesOf(k, y, r.members) == TiesOf(k, y, db.members))
    && (Valid(db) ==> Valid(r))
  }

  method SortStore(k: SortKey, db: Database) returns (r: Database)
    ensures r.members == Sort(k, db.members)
    ensures Reordered(k, db, r)
  {
    var sorted := InsertionSort(k, db.members);
    r := Database(sorted, db.capacity);
    SortSorted(k, db.members);
    SortPermutation(k, db.members);
    forall y
      ensures TiesOf(k, y, r.members) == TiesOf(k, y, db.members)
    {
      SortStable(k, y, db.members);
    }
    if Valid(db) {
      SortDistinct(k, db.members);
    }
  }

  /** `printByName`: the store is left permanently sorted by `compareTo`. */
  method PrintByName(db: Database) returns (r: Database)
    ensures r.members == Sort(ByName, db.members)
    ensures Reordered(ByName, db, r)
  {
    r := SortStore(ByName, db);
  }

  /** `printByCounty`: sorted by location ordinal. With two or more members
      every location is dereferenced, so all must be present. */
  method PrintByCounty(db: Database) returns (r: Database)
    requires |db.members| <= 1 || forall i :: 0 <= i < |db.members| ==> db.members[i].location.Some?
    ensures r.members == Sort(ByCounty, db.members)
    ensures Reordered(ByCounty, db, r)
  {
    r := SortStore(ByCounty, db);
  }

  /** `printByExpirationDate`: sorted by expiry date. With two or more
      members every expiry is dereferenced, so all must be present. */
  method PrintByExpirationDate(db: Database) returns (r: Database)
    requires |db.members| <= 1 || forall i :: 0 <= i < |db.members| ==> db.members[i].expire.Some?
    ensures r.members == Sort(ByExpiration, db.members)
    ensures Reordered(ByExpiration, db, r)
  {
    r := SortStore(ByExpiration, db);
  }

  /** Every member's fee can be computed: Family and Premium fees read the
      expiry, so those members must have one. */
  predicate FeesDefined(s: seq<Member>) {
    forall i :: 0 <= i < |s| ==> s[i].plan.Standard? || s[i].expire.Some?
  }

  lemma FeesDefinedPermutation(a: seq<Member>, b: seq<Member>)
    requires multiset(a) == multiset(b) && FeesDefined(a)
    ensures FeesDefined(b)
  {
    forall i | 0 <= i < |b|
      ensures b[i].plan.Standard? || b[i].expire.Some?
    {
      assert b[i] in multiset(a);
      var j :| 0 <= j < |a| && a[j] == b[i];
    }
  }

  /** `printByMembershipFee`: despite its name it sorts by `compareTo`, then
      reports each member's fee in the new order. */
  method PrintByMembershipFee(db: Database, today: Dates.Date) returns (r: Database, fees: seq<int>)
    requires FeesDefined(db.members)
    ensures r.members == Sort(ByName, db.members)
    ensures Reordered(ByName, db, r)
    ensures FeesDefined(r.members)
    ensures |fees| == |r.members|
    ensures forall i :: 0 <= i < |fees| ==> fees[i] == Fee(r.members[i], today)
  {
    r := SortStore(ByName, db);
    FeesDefinedPermutation(db.members, r.members);
    fees := [];
    var i := 0;
    while i < |r.members|
      invariant 0 <= i <= |r.members| && |fees| == i
      invariant forall t :: 0 <= t < i ==> fees[t] == Fee(r.members[t], today)
    {
      fees := fees + [Fee(r.members[i], today)];
      i := i + 1;
    }
  }
}
