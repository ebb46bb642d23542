/** The pieces of `java.lang.String` and `Integer` the gym core relies on:
    ASCII case folding, `equalsIgnoreCase`, `compareToIgnoreCase`, decimal
    rendering of ints, `Integer.parseInt` and splitting on one character. */
module Text {
  import opened Int32
  import opened Wrappers

  // ---------------------------------------------------------------------
  // Case folding (ASCII letters only)
  // ---------------------------------------------------------------------

  function Lower(c: char): char {
    if 'A' <= c <= 'Z' then (c as int + 32) as char else c
  }

  function Upper(c: char): char {
    if 'a' <= c <= 'z' then (c as int - 32) as char else c
  }

  /** `String.toLowerCase`, character by character. */
  function LowerStr(s: string): (r: string)
    ensures |r| == |s|
    ensures forall i :: 0 <= i < |s| ==> r[i] == Lower(s[i])
  {
    if |s| == 0 then [] else [Lower(s[0])] + LowerStr(s[1..])
  }

  /** `String.toUpperCase`, character by character. */
  function UpperStr(s: string): (r: string)
    ensures |r| == |s|
    ensures forall i :: 0 <= i < |s| ==> r[i] == Upper(s[i])
  {
    if |s| == 0 then [] else [Upper(s[0])] + UpperStr(s[1..])
  }

  lemma LowerOfUpper(c: char)
    ensures Lower(Upper(c)) == Lower(c)
  {
  }

  /** `a.equalsIgnoreCase(b)`: same length and the same letters up to case. */
  predicate EqualsIgnoreCase(a: string, b: string) {
    LowerStr(a) == LowerStr(b)
  }

  /** Upper-casing a string never changes what it equals ignoring case. */
  lemma UpperStrEqualsIgnoreCase(s: string)
    ensures EqualsIgnoreCase(UpperStr(s), s)
  {
    var u := UpperStr(s);
    forall i | 0 <= i < |s|
      ensures LowerStr(u)[i] == LowerStr(s)[i]
    {
      LowerOfUpper(s[i]);
    }
  }

  /** Two strings that differ ignoring case at some shared position are not
      equal ignoring case. */
  lemma DifferentAt(a: string, b: string, i: nat)
    requires i < |a| && i < |b| && Lower(a[i]) != Lower(b[i])
    ensures !EqualsIgnoreCase(a, b)
  {
    assert LowerStr(a)[i] != LowerStr(b)[i];
  }

  /** `a.compareToIgnoreCase(b)`: at the first position where the folded
      characters differ, their difference; otherwise the length difference. */
  function CompareToIgnoreCase(a: string, b: string): int
    decreases |a|
  {
    if |a| == 0 || |b| == 0 then |a| - |b|
    else if Lower(a[0]) != Lower(b[0]) then Lower(a[0]) as int - Lower(b[0]) as int
    else CompareToIgnoreCase(a[1..], b[1..])
  }

  lemma LowerStrCons(s: string)
    requires |s| > 0
    ensures LowerStr(s) == [Lower(s[0])] + LowerStr(s[1..])
  {
  }

  /** `compareToIgnoreCase` is zero exactly for strings equal ignoring case. */
  lemma {:induction false} CompareZeroIffEqual(a: string, b: string)
    ensures CompareToIgnoreCase(a, b) == 0 <==> EqualsIgnoreCase(a, b)
    decreases |a|
  {
    if |a| == 0 || |b| == 0 {
    } else {
      LowerStrCons(a);
      LowerStrCons(b);
      if Lower(a[0]) != Lower(b[0]) {
        assert LowerStr(a)[0] != LowerStr(b)[0];
      } else {
        CompareZeroIffEqual(a[1..], b[1..]);
        if LowerStr(a[1..]) == LowerStr(b[1..]) {
          assert LowerStr(a) == LowerStr(b);
        } else {
          assert LowerStr(a)[1..] == LowerStr(a[1..]);
          assert LowerStr(b)[1..] == LowerStr(b[1..]);
        }
      }
    }
  }

  /** Swapping the operands negates the result. */
  lemma {:induction false} CompareAntisymmetric(a: string, b: string)
    ensures CompareToIgnoreCase(a, b) == -CompareToIgnoreCase(b, a)
    decreases |a|
  {
    if |a| > 0 && |b| > 0 && Lower(a[0]) == Lower(b[0]) {
      CompareAntisymmetric(a[1..], b[1..]);
    }
  }

  /** Replacing the right operand by a string equal to it ignoring case does
      not change the result. */
  lemma {:induction false} CompareCongruent(a: string, b: string, c: string)
    requires EqualsIgnoreCase(b, c)
    ensures CompareToIgnoreCase(a, b) == CompareToIgnoreCase(a, c)
    decreases |a|
  {
    assert |b| == |LowerStr(b)| == |LowerStr(c)| == |c|;
    if |a| > 0 && |b| > 0 {
      assert Lower(b[0]) == LowerStr(b)[0] == LowerStr(c)[0] == Lower(c[0]);
      if Lower(a[0]) == Lower(b[0]) {
        LowerStrCons(b);
        LowerStrCons(c);
        assert LowerStr(b[1..]) == LowerStr(b)[1..] == LowerStr(c)[1..] == LowerStr(c[1..]);
        CompareCongruent(a[1..], b[1..], c[1..]);
      }
    }
  }

  /** "Strictly before, ignoring case" is transitive. */
  lemma {:induction false} CompareStrictTransitive(a: string, b: string, c: string)
    requires CompareToIgnoreCase(a, b) < 0 && CompareToIgnoreCase(b, c) < 0
    ensures CompareToIgnoreCase(a, c) < 0
    decreases |a|
  {
    if |a| > 0 {
      if Lower(a[0]) == Lower(b[0]) && Lower(b[0]) == Lower(c[0]) {
        CompareStrictTransitive(a[1..], b[1..], c[1..]);
      }
    }
  }

  /** "Before or equal, ignoring case" is transitive, and the chain only
      closes into equality when both links are equalities. */
  lemma CompareWeakTransitive(a: string, b: string, c: string)
    requires CompareToIgnoreCase(a, b) <= 0 && CompareToIgnoreCase(b, c) <= 0
    ensures CompareToIgnoreCase(a, c) <= 0
    ensures CompareToIgnoreCase(a, c) == 0 ==>
              CompareToIgnoreCase(a, b) == 0 && CompareToIgnoreCase(b, c) == 0
  {
    CompareZeroIffEqual(a, b);
    CompareZeroIffEqual(b, c);
    CompareZeroIffEqual(a, c);
    if CompareToIgnoreCase(b, c) == 0 {
      CompareCongruent(a, b, c);
    } else if CompareToIgnoreCase(a, b) == 0 {
      CompareAntisymmetric(a, c);
      CompareAntisymmetric(b, c);
      CompareCongruent(c, a, b);
    } else {
      CompareStrictTransitive(a, b, c);
    }
  }

  /** Java's `s.substring(0,1).toUpperCase() + s.substring(1).toLowerCase()`. */
  function Capitalize(s: string): (r: string)
    requires |s| > 0
    ensures IsCapitalized(r)
    ensures EqualsIgnoreCase(r, s)
  {
    LowerOfUpper(s[0]);
    LowerStrCons(s);
    var r := [Upper(s[0])] + LowerStr(s[1..]);
    LowerStrCons(r);
    assert r[1..] == LowerStr(s[1..]);
    LowerStrIdempotent(s[1..]);
    r
  }

  /** First character upper case, every other character lower case. */
  predicate IsCapitalized(s: string) {
    && |s| > 0
    && Upper(s[0]) == s[0]
    && forall i :: 1 <= i < |s| ==> Lower(s[i]) == s[i]
  }

  lemma LowerStrIdempotent(s: string)
    ensures LowerStr(LowerStr(s)) == LowerStr(s)
  {
  }

  /** Lexicographic order on character codes (`String.compareTo(..) < 0`). */
  predicate StrLess(a: string, b: string)
    decreases |a|
  {
    if |a| == 0 then |b| > 0
    else if |b| == 0 then false
    else if a[0] != b[0] then a[0] < b[0]
    else StrLess(a[1..], b[1..])
  }

  /** `compareToIgnoreCase` is negative exactly when the lower-cased first
      string comes before the lower-cased second in character order. */
  lemma {:induction false} CompareSign(a: string, b: string)
    ensures CompareToIgnoreCase(a, b) < 0 <==> StrLess(LowerStr(a), LowerStr(b))
    decreases |a|
  {
    if |a| > 0 && |b| > 0 {
      LowerStrCons(a);
      LowerStrCons(b);
      if Lower(a[0]) == Lower(b[0]) {
        CompareSign(a[1..], b[1..]);
        assert LowerStr(a)[1..] == LowerStr(a[1..]);
        assert LowerStr(b)[1..] == LowerStr(b[1..]);
      }
    }
  }

  // ---------------------------------------------------------------------
  // Decimal integers
  // ---------------------------------------------------------------------

  predicate IsDigit(c: char) {
    '0' <= c <= '9'
  }

  predicate AllDigits(s: string) {
    forall i :: 0 <= i < |s| ==> IsDigit(s[i])
  }

  function DigitChar(n: nat): (c: char)
    requires n < 10
    ensures IsDigit(c)
  {
    ('0' as int + n) as char
  }

  function DigitValue(c: char): nat
    requires IsDigit(c)
  {
    c as int - '0' as int
  }

  /** The value of a string of decimal digits (leading zeros allowed). */
  function DigitsValue(s: string): nat
    requires AllDigits(s)
    decreases |s|
  {
    if |s| == 0 then 0 else DigitsValue(s[..|s| - 1]) * 10 + DigitValue(s[|s| - 1])
  }

  /** The decimal rendering of a natural number, without leading zeros. */
  function NatToString(n: nat): (r: string)
    ensures |r| > 0 && AllDigits(r)
    decreases n
  {
    if n < 10 then [DigitChar(n)] else NatToString(n / 10) + [DigitChar(n % 10)]
  }

  /** Java's `"" + n` for an int. */
  function IntToString(n: int): (r: string)
    ensures |r| > 0
    ensures forall i :: 0 <= i < |r| ==> IsDigit(r[i]) || (i == 0 && r[i] == '-')
  {
    if n < 0 then "-" + NatToString(-n) else NatToString(n)
  }

  lemma {:induction false} NatToStringValue(n: nat)
    ensures DigitsValue(NatToString(n)) == n
    decreases n
  {
    if n >= 10 {
      var s := NatToString(n / 10) + [DigitChar(n % 10)];
      assert s[..|s| - 1] == NatToString(n / 10);
      NatToStringValue(n / 10);
    }
  }

  /** `Integer.parseInt(s)`: an optional sign followed by at least one
      decimal digit, whose value fits in an int; None where Java throws
      NumberFormatException. */
  function ParseInt(s: string): (r: Option<i32>)
    ensures r.Some? ==> |s| > 0
  {
    if |s| > 0 && (s[0] == '-' || s[0] == '+') then
      if |s| > 1 && AllDigits(s[1..]) then
        var v := DigitsValue(s[1..]);
        InRange(if s[0] == '-' then -(v as int) else v)
      else None
    else if |s| > 0 && AllDigits(s) then InRange(DigitsValue(s))
    else None
  }

  function InRange(v: int): (r: Option<i32>)
    ensures r.Some? <==> MIN <= v <= MAX
    ensures r.Some? ==> r.value == v
  {
    if MIN <= v <= MAX then Some(v) else None
  }

  /** Rendering an int and parsing the text back gives the int. */
  lemma ParseIntOfIntToString(n: i32)
    ensures ParseInt(IntToString(n)) == Some(n)
  {
    if n < 0 {
      var s := "-" + NatToString(-(n as int));
      assert s[1..] == NatToString(-(n as int));
      NatToStringValue(-(n as int));
    } else {
      NatToStringValue(n);
    }
  }

  // ---------------------------------------------------------------------
  // Splitting
  // ---------------------------------------------------------------------

  /** The fields of `s` between occurrences of `sep`. Java's `split` also
      drops trailing empty fields; callers here only read fields whose
      emptiness already makes them fail, so that step is not modelled. */
  function Split(s: string, sep: char): (r: seq<string>)
    ensures |r| > 0
    ensures forall i :: 0 <= i < |r| ==> sep !in r[i]
    decreases |s|
  {
    if |s| == 0 then [""]
    else
      var rest := Split(s[1..], sep);
      if s[0] == sep then [""] + rest
      else [[s[0]] + rest[0]] + rest[1..]
  }

  lemma {:induction false} SplitNoSeparator(a: string, sep: char)
    requires sep !in a
    ensures Split(a, sep) == [a]
    decreases |a|
  {
    if |a| > 0 {
      SplitNoSeparator(a[1..], sep);
      assert [a[0]] + a[1..] == a;
    }
  }

  lemma {:induction false} SplitFirst(a: string, sep: char, b: string)
    requires sep !in a
    ensures Split(a + [sep] + b, sep) == [a] + Split(b, sep)
    decreases |a|
  {
    var s := a + [sep] + b;
    if |a| == 0 {
      assert s[1..] == b;
    } else {
      assert s[1..] == a[1..] + [sep] + b;
      SplitFirst(a[1..], sep, b);
      assert [a[0]] + a[1..] == a;
    }
  }

  /** Splitting three separator-free fields joined by `sep` gives them back. */
  lemma SplitThree(a: string, b: string, c: string, sep: char)
    requires sep !in a && sep !in b && sep !in c
    ensures Split(a + [sep] + b + [sep] + c, sep) == [a, b, c]
  {
    SplitNoSeparator(c, sep);
    SplitFirst(b, sep, c);
    assert a + [sep] + b + [sep] + c == a + [sep] + (b + [sep] + c);
    SplitFirst(a, sep, b + [sep] + c);
  }
}
