/** The stable in-place insertion sort the member database applies for its
    ordered listings, over one of three keys: `compareTo` (name), the home
    location's declaration order (county), or the expiry date. */
module MemberSort {
  import opened Wrappers
  import Dates
  import Text
  import Locations
  import opened Members

  datatype SortKey = ByName | ByCounty | ByExpiration

  /** The location's ordinal; -1 for a missing location, which the sort
      itself never meets (Java would dereference null). */
  function CountyRank(m: Member): int {
    if m.location.Some? then Locations.Ordinal(m.location.value) else -1
  }

  /** The expiry date, with a fixed stand-in where there is none (which the
      sort never meets either). */
  function ExpiryOf(m: Member): Dates.Date {
    m.expire.GetOr(Dates.Date(0, 0, 0))
  }

  /** The test of the sort's inner loop: `a` sorts strictly after `b`. */
  predicate Greater(k: SortKey, a: Member, b: Member) {
    match k
    case ByName => Members.Compare(a, b) > 0
    case ByCounty => CountyRank(a) > CountyRank(b)
    case ByExpiration => Dates.Compare(ExpiryOf(a), ExpiryOf(b)) > 0
  }

  /** Each key is a total preorder: `Greater` is asymmetric ... */
  lemma GreaterAsymmetric(k: SortKey, a: Member, b: Member)
    ensures Greater(k, a, b) ==> !Greater(k, b, a)
  {
    Members.CompareAntisymmetric(a, b);
  }

  /** ... and "not greater" is transitive. */
  lemma NotGreaterTransitive(k: SortKey, a: Member, b: Member, c: Member)
    requires !Greater(k, a, b) && !Greater(k, b, c)
    ensures !Greater(k, a, c)
  {
    match k
    case ByName => Members.CompareTransitive(a, b, c);
    case ByCounty =>
    case ByExpiration => Dates.CompareTransitive(ExpiryOf(a), ExpiryOf(b), ExpiryOf(c));
  }

  /** No entry sorts strictly after a later one. */
  predicate Sorted(k: SortKey, s: seq<Member>) {
    forall i, j :: 0 <= i < j < |s| ==> !Greater(k, s[i], s[j])
  }

  // ---------------------------------------------------------------------
  // Reference definition
  // ---------------------------------------------------------------------

  /** Inserting `x` behind `p`: it moves left past every trailing entry that
      sorts strictly after it and stops at the first one that does not. */
  function Insert(k: SortKey, x: Member, p: seq<Member>): (r: seq<Member>)
    ensures |r| == |p| + 1
    decreases |p|
  {
    if |p| == 0 || !Greater(k, p[|p| - 1], x) then p + [x]
    else Insert(k, x, p[..|p| - 1]) + [p[|p| - 1]]
  }

  /** Insertion sort: sort all but the last entry, then insert the last. */
  function Sort(k: SortKey, s: seq<Member>): (r: seq<Member>)
    ensures |r| == |s|
    decreases |s|
  {
    if |s| == 0 then [] else Insert(k, s[|s| - 1], Sort(k, s[..|s| - 1]))
  }

  // ---------------------------------------------------------------------
  // Permutation
  // ---------------------------------------------------------------------

  lemma {:induction false} InsertPermutation(k: SortKey, x: Member, p: seq<Member>)
    ensures multiset(Insert(k, x, p)) == multiset(p) + multiset{x}
    decreases |p|
  {
    if |p| > 0 && Greater(k, p[|p| - 1], x) {
      var init := p[..|p| - 1];
      InsertPermutation(k, x, init);
      assert p == init + [p[|p| - 1]];
    }
  }

  /** Sorting rearranges the entries: the same members, each as often. */
  lemma {:induction false} SortPermutation(k: SortKey, s: seq<Member>)
    ensures multiset(Sort(k, s)) == multiset(s)
    decreases |s|
  {
    if |s| > 0 {
      var init := s[..|s| - 1];
      SortPermutation(k, init);
      InsertPermutation(k, s[|s| - 1], Sort(k, init));
      assert s == init + [s[|s| - 1]];
    }
  }

  // ---------------------------------------------------------------------
  // Order
  // ---------------------------------------------------------------------

  /** Every entry of `Insert(k, x, p)` is `x` or an entry of `p`. */
  lemma InsertElements(k: SortKey, x: Member, p: seq<Member>)
    ensures forall e :: e in Insert(k, x, p) <==> e in p || e == x
  {
    InsertPermutation(k, x, p);
    forall e
      ensures e in Insert(k, x, p) <==> e in p || e == x
    {
      assert e in Insert(k, x, p) <==> e in multiset(Insert(k, x, p));
      assert e in p <==> e in multiset(p);
    }
  }

  lemma {:induction false} InsertSorted(k: SortKey, x: Member, p: seq<Member>)
    requires Sorted(k, p)
    ensures Sorted(k, Insert(k, x, p))
    decreases |p|
  {
    var n := |p|;
    if n == 0 || !Greater(k, p[n - 1], x) {
      forall i | 0 <= i < n
        ensures !Greater(k, p[i], x)
      {
        if i < n - 1 {
          NotGreaterTransitive(k, p[i], p[n - 1], x);
        }
      }
    } else {
      var init := p[..n - 1];
      var last := p[n - 1];
      InsertSorted(k, x, init);
      InsertElements(k, x, init);
      var q := Insert(k, x, init);
      forall i | 0 <= i < |q|
        ensures !Greater(k, q[i], last)
      {
        assert q[i] in q;
        if q[i] == x {
          GreaterAsymmetric(k, last, x);
        } else {
          var t :| 0 <= t < |init| && init[t] == q[i];
        }
      }
    }
  }

  /** The result of sorting is in order. */
  lemma {:induction false} SortSorted(k: SortKey, s: seq<Member>)
    ensures Sorted(k, Sort(k, s))
    decreases |s|
  {
    if |s| > 0 {
      SortSorted(k, s[..|s| - 1]);
      InsertSorted(k, s[|s| - 1], Sort(k, s[..|s| - 1]));
    }
  }

  // ---------------------------------------------------------------------
  // Stability
  // ---------------------------------------------------------------------

  /** Neither sorts strictly after the other. */
  predicate Tied(k: SortKey, a: Member, b: Member) {
    !Greater(k, a, b) && !Greater(k, b, a)
  }

  /** The entries of `s` tied with `y`, in their order in `s`. */
  function TiesOf(k: SortKey, y: Member, s: seq<Member>): (r: seq<Member>)
    ensures |r| <= |s|
    decreases |s|
  {
    if |s| == 0 then []
    else TiesOf(k, y, s[..|s| - 1]) + (if Tied(k, s[|s| - 1], y) then [s[|s| - 1]] else [])
  }

  /** `e` alone if it is tied with `y`, otherwise nothing. */
  function TieOf(k: SortKey, y: Member, e: Member): seq<Member> {
    if Tied(k, e, y) then [e] else []
  }

  /** Appending one entry appends its tie, if any. */
  lemma TiesOfSnoc(k: SortKey, y: Member, q: seq<Member>, e: Member)
    ensures TiesOf(k, y, q + [e]) == TiesOf(k, y, q) + TieOf(k, y, e)
  {
    assert (q + [e])[..|q|] == q;
  }

  /** Two entries on either side of the inserted one cannot both be tied
      with `y` when the first sorts strictly after the second, so their ties
      commute. */
  lemma TiesCommute(k: SortKey, y: Member, last: Member, x: Member)
    requires Greater(k, last, x)
    ensures TieOf(k, y, x) + TieOf(k, y, last) == TieOf(k, y, last) + TieOf(k, y, x)
  {
    if Tied(k, x, y) && Tied(k, last, y) {
      NotGreaterTransitive(k, last, y, x);
    }
  }

  /** Inserting `x` keeps the entries tied with `y` in the order they have
      in `p + [x]`: when `x` is tied with `y`, every entry it moves past
      sorts strictly after `y` too. */
  lemma {:induction false} InsertStable(k: SortKey, y: Member, x: Member, p: seq<Member>)
    ensures TiesOf(k, y, Insert(k, x, p)) == TiesOf(k, y, p + [x])
    decreases |p|
  {
    var n := |p|;
    if n > 0 && Greater(k, p[n - 1], x) {
      var init := p[..n - 1];
      var last := p[n - 1];
      assert Insert(k, x, p) == Insert(k, x, init) + [last];
      assert p == init + [last];
      calc {
        TiesOf(k, y, Insert(k, x, init) + [last]);
        { TiesOfSnoc(k, y, Insert(k, x, init), last); }
        TiesOf(k, y, Insert(k, x, init)) + TieOf(k, y, last);
        { InsertStable(k, y, x, init); TiesOfSnoc(k, y, init, x); }
        TiesOf(k, y, init) + TieOf(k, y, x) + TieOf(k, y, last);
        TiesOf(k, y, init) + (TieOf(k, y, x) + TieOf(k, y, last));
        { TiesCommute(k, y, last, x); }
        TiesOf(k, y, init) + (TieOf(k, y, last) + TieOf(k, y, x));
        TiesOf(k, y, init) + TieOf(k, y, last) + TieOf(k, y, x);
        { TiesOfSnoc(k, y, init, last); }
        TiesOf(k, y, p) + TieOf(k, y, x);
        { TiesOfSnoc(k, y, p, x); }
        TiesOf(k, y, p + [x]);
      }
    }
  }

  /** Sorting is stable: entries tied with any `y` keep their relative order. */
  lemma {:induction false} SortStable(k: SortKey, y: Member, s: seq<Member>)
    ensures TiesOf(k, y, Sort(k, s)) == TiesOf(k, y, s)
    decreases |s|
  {
    if |s| > 0 {
      var init := s[..|s| - 1];
      var x := s[|s| - 1];
      assert s == init + [x];
      SortStable(k, y, init);
      InsertStable(k, y, x, Sort(k, init));
      TiesOfSnoc(k, y, Sort(k, init), x);
      TiesOfSnoc(k, y, init, x);
    }
  }

  // ---------------------------------------------------------------------
  // Idempotence and duplicates
  // ---------------------------------------------------------------------

  /** Sorting an already ordered sequence leaves it as it is. */
  lemma {:induction false} SortOfSorted(k: SortKey, s: seq<Member>)
    requires Sorted(k, s)
    ensures Sort(k, s) == s
    decreases |s|
  {
    if |s| > 0 {
      var init := s[..|s| - 1];
      SortOfSorted(k, init);
      assert init + [s[|s| - 1]] == s;
    }
  }

  /** Sorting twice gives the same order as sorting once, so repeating a
      listing does not reorder the store again. */
  lemma SortIdempotent(k: SortKey, s: seq<Member>)
    ensures Sort(k, Sort(k, s)) == Sort(k, s)
  {
    SortSorted(k, s);
    SortOfSorted(k, Sort(k, s));
  }

  lemma {:induction false} InsertDistinct(k: SortKey, x: Member, p: seq<Member>)
    requires Distinct(p)
    requires forall e :: e in p ==> !Equals(e, x)
    ensures Distinct(Insert(k, x, p))
    decreases |p|
  {
    var n := |p|;
    if n == 0 || !Greater(k, p[n - 1], x) {
      AppendDistinct(p, x);
    } else {
      var init := p[..n - 1];
      var last := p[n - 1];
      assert last in p;
      assert forall e :: e in init ==> e in p;
      assert Distinct(init);
      InsertDistinct(k, x, init);
      InsertElements(k, x, init);
      var q := Insert(k, x, init);
      forall e | e in q
        ensures !Equals(e, last)
      {
        if e == x {
          EqualsSymmetric(last, x);
        } else {
          var t :| 0 <= t < |init| && init[t] == e;
          assert p[t] == e;
        }
      }
      AppendDistinct(q, last);
    }
  }

  /** Sorting never pairs up two entries for the same person. */
  lemma {:induction false} SortDistinct(k: SortKey, s: seq<Member>)
    requires Distinct(s)
    ensures Distinct(Sort(k, s))
    decreases |s|
  {
    if |s| > 0 {
      var init := s[..|s| - 1];
      var x := s[|s| - 1];
      SortDistinct(k, init);
      SortPermutation(k, init);
      forall e | e in Sort(k, init)
        ensures !Equals(e, x)
      {
        assert e in multiset(Sort(k, init));
        var t :| 0 <= t < |init| && init[t] == e;
        assert s[t] == e;
      }
      InsertDistinct(k, x, Sort(k, init));
    }
  }

  /** Ordered by county, located members run by county name and then zip
      code, because the towns are declared in that order. */
  lemma CountyOrderIsCountyZip(s: seq<Member>, i: nat, j: nat)
    requires Sorted(ByCounty, s)
    requires i < j < |s| && s[i].location.Some? && s[j].location.Some?
    ensures !Locations.CountyZipLess(s[j].location.value, s[i].location.value)
  {
    Locations.DeclarationOrderIsCountyZip(s[j].location.value, s[i].location.value);
  }

  /** After the name listing, members run alphabetically by last name, then
      by first name (both ignoring case), then by date of birth. */
  lemma NameOrderIsAlphabetical(s: seq<Member>, i: nat, j: nat)
    requires Sorted(ByName, s)
    requires i < j < |s|
    ensures !Text.StrLess(Text.LowerStr(s[j].last), Text.LowerStr(s[i].last))
    ensures Text.EqualsIgnoreCase(s[i].last, s[j].last) ==>
              !Text.StrLess(Text.LowerStr(s[j].first), Text.LowerStr(s[i].first))
    ensures Text.EqualsIgnoreCase(s[i].last, s[j].last) &&
            Text.EqualsIgnoreCase(s[i].first, s[j].first) ==>
              !Dates.Before(s[j].dob, s[i].dob)
  {
    assert !Greater(ByName, s[i], s[j]);
    Members.CompareAntisymmetric(s[i], s[j]);
    Members.ComparePriority(s[j], s[i]);
    Text.CompareSign(s[j].last, s[i].last);
    Text.CompareZeroIffEqual(s[j].last, s[i].last);
    Text.CompareSign(s[j].first, s[i].first);
    Text.CompareZeroIffEqual(s[j].first, s[i].first);
  }

  // ---------------------------------------------------------------------
  // The in-place loops
  // ---------------------------------------------------------------------

  /** Once the walk stops, at the front or behind an entry that does not
      sort after `x`, `x` goes at the end. */
  lemma InsertStop(k: SortKey, x: Member, q: seq<Member>)
    requires |q| == 0 || !Greater(k, q[|q| - 1], x)
    ensures Insert(k, x, q) == q + [x]
  {
  }

  /** Where the walk stops, the entry goes into the gap. */
  lemma InsertPlaced(k: SortKey, x: Member, p: seq<Member>, j: int)
    requires -1 <= j < |p|
    requires Insert(k, x, p) == Insert(k, x, p[..j + 1]) + p[j + 1..]
    requires j < 0 || !Greater(k, p[j], x)
    ensures Insert(k, x, p) == p[..j + 1] + [x] + p[j + 1..]
  {
    InsertStop(k, x, p[..j + 1]);
  }

  /** One step of the walk: `x` moves left past `p[j]`. */
  lemma InsertShift(k: SortKey, x: Member, p: seq<Member>, j: nat)
    requires j < |p| && Greater(k, p[j], x)
    requires Insert(k, x, p) == Insert(k, x, p[..j + 1]) + p[j + 1..]
    ensures Insert(k, x, p) == Insert(k, x, p[..j]) + p[j..]
  {
    var q := p[..j + 1];
    assert q[..|q| - 1] == p[..j] && q[|q| - 1] == p[j];
    assert Insert(k, x, q) == Insert(k, x, p[..j]) + [p[j]];
    assert [p[j]] + p[j + 1..] == p[j..];
  }

  /** The inner loop of the database's insertion sort: hold the entry at
      position i, shift entries that sort after it one place right while
      walking j down, then drop it into the gap. The first i + 1 entries
      become `Insert` of the held entry into the first i. */
  method ShiftInsert(k: SortKey, r0: seq<Member>, i: nat) returns (r: seq<Member>)
    requires 0 < i < |r0|
    ensures |r| == |r0|
    ensures r[..i + 1] == Insert(k, r0[i], r0[..i])
    ensures r[i + 1..] == r0[i + 1..]
  {
    ghost var p := r0[..i];
    ghost var rest := r0[i + 1..];
    var keyMember := r0[i];
    r := r0;
    var j: int := i - 1;
    assert p[..j + 1] == p && p[j + 1..] == [];
    assert r == p[..j + 1] + [r[j + 1]] + p[j + 1..] + rest;
    while j >= 0 && Greater(k, r[j], keyMember)
      invariant -1 <= j < i && |r| == |r0|
      invariant r == p[..j + 1] + [r[j + 1]] + p[j + 1..] + rest
      invariant Insert(k, keyMember, p) == Insert(k, keyMember, p[..j + 1]) + p[j + 1..]
      decreases j
    {
      InsertShift(k, keyMember, p, j);
      GapMovesLeft(r, p, rest, j);
      r := r[j + 1 := r[j]];
      j := j - 1;
    }
    GapFilled(r, p, rest, j, keyMember);
    r := r[j + 1 := keyMember];
    InsertPlaced(k, keyMember, p, j);
    assert r[..i + 1] == Insert(k, keyMember, p) && r[i + 1..] == rest by {
      SplitAt(Insert(k, keyMember, p), rest);
    }
  }

  /** Copying the entry left of the gap into the gap moves the gap left. */
  lemma GapMovesLeft(r: seq<Member>, p: seq<Member>, rest: seq<Member>, j: nat)
    requires j < |p| && |r| == |p| + 1 + |rest|
    requires r == p[..j + 1] + [r[j + 1]] + p[j + 1..] + rest
    ensures r[j + 1 := r[j]] == p[..j] + [r[j]] + p[j..] + rest
  {
    assert r[j] == p[j];
    assert p[..j + 1] == p[..j] + [p[j]];
    assert p[j..] == [p[j]] + p[j + 1..];
  }

  lemma GapFilled(r: seq<Member>, p: seq<Member>, rest: seq<Member>, j: int, x: Member)
    requires -1 <= j < |p| && |r| == |p| + 1 + |rest|
    requires r == p[..j + 1] + [r[j + 1]] + p[j + 1..] + rest
    ensures r[j + 1 := x] == p[..j + 1] + [x] + p[j + 1..] + rest
  {
  }

  lemma SplitAt(a: seq<Member>, b: seq<Member>)
    ensures (a + b)[..|a|] == a && (a + b)[|a|..] == b
  {
  }

  lemma SortStep(k: SortKey, a: seq<Member>, i: nat)
    requires i < |a|
    ensures Sort(k, a[..i + 1]) == Insert(k, a[i], Sort(k, a[..i]))
  {
    assert a[..i + 1][..i] == a[..i];
  }

  /** The database's insertion sort as written: the inner loop for each
      position from 1 upwards. Computes `Sort`. */
  method InsertionSort(k: SortKey, a: seq<Member>) returns (r: seq<Member>)
    ensures r == Sort(k, a)
  {
    r := a;
    if |a| == 0 {
      return;
    }
    SortStep(k, a, 0);
    assert a[..0] == [];
    var i := 1;
    while i < |r|
      invariant 1 <= i <= |a| && |r| == |a|
      invariant r[..i] == Sort(k, a[..i])
      invariant r[i..] == a[i..]
      decreases |a| - i
    {
      assert r[i] == a[i] && r[i + 1..] == a[i + 1..];
      r := ShiftInsert(k, r, i);
      SortStep(k, a, i);
      i := i + 1;
    }
    assert a[..|a|] == a;
  }
}
