/** The three class time slots, their "h:mm" rendering and the lookup of a
    slot by its name ignoring case. */
module Times {
  import opened Wrappers
  import opened Text

  datatype Time = Morning | Afternoon | Evening

  /** The slots in declaration order (Java's `Time.values()`). */
  const Slots: seq<Time> := [Morning, Afternoon, Evening]

  /** The enum constant's `name()`. */
  function Name(t: Time): string {
    match t
    case Morning => "MORNING"
    case Afternoon => "AFTERNOON"
    case Evening => "EVENING"
  }

  function Hour(t: Time): nat {
    match t
    case Morning => 9
    case Afternoon => 14
    case Evening => 18
  }

  function Minute(t: Time): nat {
    match t
    case Morning => 30
    case Afternoon => 0
    case Evening => 30
  }

  /** `getTime`: the hour, a colon, and the minute, with a zero minute
      written as two zeros. */
  function GetTime(t: Time): (r: string)
    ensures |r| >= 4
    ensures IntToString(Hour(t)) <= r
  {
    if Minute(t) == 0 then IntToString(Hour(t)) + ":00"
    else IntToString(Hour(t)) + ":" + IntToString(Minute(t))
  }

  /** The three slots render as 9:30, 14:00 and 18:30. */
  lemma TimeTexts()
    ensures GetTime(Morning) == "9:30"
    ensures GetTime(Afternoon) == "14:00"
    ensures GetTime(Evening) == "18:30"
  {
    assert IntToString(9) == "9";
    assert NatToString(14) == "14";
    assert NatToString(18) == "18";
    assert NatToString(30) == "30";
  }

  /** Two slots have time texts equal ignoring case exactly when they are the
      same slot. */
  lemma GetTimeInjective(a: Time, b: Time)
    ensures EqualsIgnoreCase(GetTime(a), GetTime(b)) <==> a == b
  {
    TimeTexts();
    if a != b {
      if a == Morning || b == Morning {
        DifferentAt(GetTime(a), GetTime(b), 0);
      } else {
        DifferentAt(GetTime(a), GetTime(b), 1);
      }
    }
  }

  /** `getTimeEnum`: the first slot, in declaration order, whose name equals
      the text ignoring case, or None (Java's null). */
  function GetTimeEnum(s: string): (r: Option<Time>)
    ensures r.Some? ==> EqualsIgnoreCase(Name(r.value), s)
    ensures r.None? ==> forall t: Time :: !EqualsIgnoreCase(Name(t), s)
  {
    GetTimeEnumFrom(s, 0)
  }

  function GetTimeEnumFrom(s: string, i: nat): (r: Option<Time>)
    requires i <= |Slots|
    ensures r.Some? ==> EqualsIgnoreCase(Name(r.value), s)
    ensures r.None? ==> forall j :: i <= j < |Slots| ==> !EqualsIgnoreCase(Name(Slots[j]), s)
    decreases |Slots| - i
  {
    if i == |Slots| then None
    else if EqualsIgnoreCase(Name(Slots[i]), s) then Some(Slots[i])
    else GetTimeEnumFrom(s, i + 1)
  }

  /** Slot names are distinct ignoring case (their initials differ). */
  lemma NamesDistinct(a: Time, b: Time)
    ensures EqualsIgnoreCase(Name(a), Name(b)) <==> a == b
  {
    if a != b {
      DifferentAt(Name(a), Name(b), 0);
    }
  }

  /** Any spelling of a slot's name, in any letter case, finds that slot. */
  lemma GetTimeEnumRoundTrip(t: Time, s: string)
    requires EqualsIgnoreCase(s, Name(t))
    ensures GetTimeEnum(s) == Some(t)
  {
    NamesDistinct(GetTimeEnum(s).value, t);
  }
}
