/** The five instructors, and the name check a new class goes through. */
module Instructors {
  import opened Text

  datatype Instructor = Jennifer | Kim | Denise | Davis | Emma

  /** The instructors in declaration order (Java's `Instructors.values()`). */
  const Teachers: seq<Instructor> := [Jennifer, Kim, Denise, Davis, Emma]

  /** The enum constant's `name()`. */
  function Name(i: Instructor): string {
    match i
    case Jennifer => "JENNIFER"
    case Kim => "KIM"
    case Denise => "DENISE"
    case Davis => "DAVIS"
    case Emma => "EMMA"
  }

  /** `isInstructor`: some instructor's name equals the text ignoring case. */
  predicate IsInstructor(s: string) {
    IsInstructorFrom(s, 0)
  }

  predicate IsInstructorFrom(s: string, i: nat)
    requires i <= |Teachers|
    decreases |Teachers| - i
  {
    if i == |Teachers| then false
    else if EqualsIgnoreCase(Name(Teachers[i]), s) then true
    else IsInstructorFrom(s, i + 1)
  }

  lemma {:induction false} IsInstructorFromIff(s: string, i: nat)
    requires i <= |Teachers|
    ensures IsInstructorFrom(s, i) <==>
              exists j :: i <= j < |Teachers| && EqualsIgnoreCase(Name(Teachers[j]), s)
    decreases |Teachers| - i
  {
    if i < |Teachers| {
      IsInstructorFromIff(s, i + 1);
    }
  }

  /** The check accepts exactly the texts equal to an instructor's name
      ignoring case. */
  lemma IsInstructorIff(s: string)
    ensures IsInstructor(s) <==> exists t: Instructor :: EqualsIgnoreCase(Name(t), s)
  {
    IsInstructorFromIff(s, 0);
    if t: Instructor :| EqualsIgnoreCase(Name(t), s) {
      var j := if t == Jennifer then 0 else if t == Kim then 1 else if t == Denise then 2
               else if t == Davis then 3 else 4;
      assert Teachers[j] == t;
    }
  }

  /** Folding the text to upper case does not change the answer. */
  lemma IsInstructorIgnoresCase(s: string)
    ensures IsInstructor(UpperStr(s)) == IsInstructor(s)
  {
    UpperStrEqualsIgnoreCase(s);
    IsInstructorIff(s);
    IsInstructorIff(UpperStr(s));
  }

  /** Misspellings are rejected. */
  lemma MisspellingJeniffer()
    ensures !IsInstructor("Jeniffer")
  {
    forall t: Instructor
      ensures !EqualsIgnoreCase(Name(t), "Jeniffer")
    {
      match t
      case Jennifer => DifferentAt("JENNIFER", "Jeniffer", 3);
      case Kim => DifferentAt("KIM", "Jeniffer", 0);
      case Denise => DifferentAt("DENISE", "Jeniffer", 0);
      case Davis => DifferentAt("DAVIS", "Jeniffer", 0);
      case Emma => DifferentAt("EMMA", "Jeniffer", 0);
    }
    IsInstructorIff("Jeniffer");
  }

  lemma MisspellingDennis()
    ensures !IsInstructor("Dennis")
  {
    forall t: Instructor
      ensures !EqualsIgnoreCase(Name(t), "Dennis")
    {
      match t
      case Jennifer => DifferentAt("JENNIFER", "Dennis", 0);
      case Kim => DifferentAt("KIM", "Dennis", 0);
      case Denise => DifferentAt("DENISE", "Dennis", 3);
      case Davis => DifferentAt("DAVIS", "Dennis", 1);
      case Emma => DifferentAt("EMMA", "Dennis", 0);
    }
    IsInstructorIff("Dennis");
  }

  /** The five names are distinct ignoring case, so exactly five texts (up
      to case) are accepted. */
  lemma NamesDistinct(a: Instructor, b: Instructor)
    ensures EqualsIgnoreCase(Name(a), Name(b)) <==> a == b
  {
    if a != b {
      if {Name(a)[0], Name(b)[0]} == {'D'} {
        DifferentAt(Name(a), Name(b), 2);
      } else {
        DifferentAt(Name(a), Name(b), 0);
      }
    }
  }
}
