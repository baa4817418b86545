/**
 * The default passwords the backend derives from a person's name and birth
 * date. Three places build them, with slightly different rules:
 * the student serializer and the admin password reset (prefix + birth year
 * or "2000"), the teacher serializer (prefix + "1234"), and the
 * student-saved signal (prefix of the stripped, uppercased name + birth
 * year or "0000").
 */
module Passwords {
  import opened Wrappers
  import Seqs
  import opened Text
  import opened Records

  /** `name.replace(" ", "")[:5].upper()`. */
  function ClearName(name: string): string {
    Upper(Take(RemoveSpaces(name), 5))
  }

  /** `str(dob.year) if dob else default`. */
  function YearText(dob: Option<Date>, default: string): string {
    if dob.Some? then IntToString(dob.value.year) else default
  }

  /** Student password in the serializer and the admin reset: prefix, then the birth year or "2000". */
  function StudentPassword(name: string, dob: Option<Date>): string {
    ClearName(name) + YearText(dob, "2000")
  }

  /** Teacher password in the serializer: prefix, then "1234". */
  function TeacherPassword(name: string): string {
    ClearName(name) + "1234"
  }

  /** The signal's prefix: `name.strip().upper().replace(" ", "")[:5]`. */
  function SignalPrefix(name: string): string {
    Take(RemoveSpaces(Upper(Strip(name))), 5)
  }

  /** The signal's password: its prefix, then the birth year or "0000". */
  function SignalPassword(name: string, dob: Option<Date>): string {
    SignalPrefix(name) + YearText(dob, "0000")
  }

  /**
   * The prefix has at most five characters, all of them upper-cased
   * non-space characters of the name, in order; it has five whenever the
   * name has five non-space characters.
   */
  lemma ClearNameShape(name: string)
    ensures |ClearName(name)| == if |RemoveSpaces(name)| < 5 then |RemoveSpaces(name)| else 5
    ensures forall i :: 0 <= i < |ClearName(name)| ==>
      ClearName(name)[i] != ' ' && !IsAsciiLower(ClearName(name)[i])
      && ClearName(name)[i] == UpperChar(RemoveSpaces(name)[i])
  {
    RemoveSpacesFacts(name);
    var t := Take(RemoveSpaces(name), 5);
    forall i | 0 <= i < |t| ensures t[i] == RemoveSpaces(name)[i] && t[i] != ' ' {
    }
  }

  /** A reset password ends in the four digits of a four-digit birth year, or in "2000". */
  lemma StudentPasswordSuffix(name: string, dob: Option<Date>)
    requires dob.Some? ==> 1000 <= dob.value.year <= 9999
    ensures |StudentPassword(name, dob)| == |ClearName(name)| + 4
    ensures StudentPassword(name, dob)[..|ClearName(name)|] == ClearName(name)
    ensures dob.None? ==> StudentPassword(name, dob)[|ClearName(name)|..] == "2000"
    ensures dob.Some? ==> IsDigits(StudentPassword(name, dob)[|ClearName(name)|..])
  {
    var p := ClearName(name);
    var y := YearText(dob, "2000");
    assert StudentPassword(name, dob)[..|p|] == p;
    assert StudentPassword(name, dob)[|p|..] == y;
    if dob.Some? {
      FourDigitYear(dob.value.year);
      NatToStringRoundTrip(dob.value.year);
    }
  }

  /** Every teacher password is the prefix followed by "1234". */
  lemma TeacherPasswordSuffix(name: string)
    ensures |TeacherPassword(name)| <= 9
    ensures TeacherPassword(name)[|TeacherPassword(name)| - 4..] == "1234"
  {
    ClearNameShape(name);
  }

  // ---------------------------------------------------------------------
  // When do the signal's rule and the serializer's rule agree?
  // ---------------------------------------------------------------------

  /** Every whitespace character in the name is an ordinary space. */
  predicate OnlyPlainSpaces(name: string) {
    forall i :: 0 <= i < |name| && IsPyWhitespace(name[i]) ==> name[i] == ' '
  }

  lemma {:induction false} UpperRemoveSpaces(s: string)
    ensures Upper(RemoveSpaces(s)) == RemoveSpaces(Upper(s))
  {
    if s != [] {
      UpperRemoveSpaces(s[1..]);
      assert Upper(s)[1..] == Upper(s[1..]);
      var head := if NotSpace(s[0]) then [s[0]] else [];
      assert RemoveSpaces(s) == head + RemoveSpaces(s[1..]);
      assert Upper(head + RemoveSpaces(s[1..])) == Upper(head) + Upper(RemoveSpaces(s[1..]));
    }
  }

  lemma UpperTake(s: string, n: nat)
    ensures Upper(Take(s, n)) == Take(Upper(s), n)
  {
  }

  lemma {:induction false} StripStartPlain(s: string)
    requires OnlyPlainSpaces(s)
    ensures OnlyPlainSpaces(StripStart(s))
    ensures RemoveSpaces(StripStart(s)) == RemoveSpaces(s)
  {
    if s != [] && IsPyWhitespace(s[0]) {
      assert forall i :: 1 <= i < |s| ==> s[1..][i - 1] == s[i];
      StripStartPlain(s[1..]);
    }
  }

  lemma {:induction false} StripEndPlain(s: string)
    requires OnlyPlainSpaces(s)
    ensures RemoveSpaces(StripEnd(s)) == RemoveSpaces(s)
    decreases |s|
  {
    if s != [] && IsPyWhitespace(s[|s| - 1]) {
      var init := s[..|s| - 1];
      StripEndPlain(init);
      assert s == init + [s[|s| - 1]];
      Seqs.FilterConcat(init, [s[|s| - 1]], NotSpace);
      assert [s[|s| - 1]][1..] == [];
    }
  }

  /** Without tabs, newlines or other non-space whitespace, the signal's prefix is the serializer's prefix. */
  lemma PrefixesAgree(name: string)
    requires OnlyPlainSpaces(name)
    ensures SignalPrefix(name) == ClearName(name)
  {
    StripStartPlain(name);
    StripEndPlain(StripStart(name));
    UpperRemoveSpaces(Strip(name));
    UpperTake(RemoveSpaces(name), 5);
  }

  /**
   * For a student with a birth date and a name without non-space whitespace,
   * the signal and the serializer derive the same password; without a birth
   * date they never do.
   */
  lemma SignalVersusSerializer(name: string, dob: Option<Date>)
    ensures OnlyPlainSpaces(name) && dob.Some? ==> SignalPassword(name, dob) == StudentPassword(name, dob)
    ensures dob.None? ==> SignalPassword(name, dob) != StudentPassword(name, dob)
  {
    if OnlyPlainSpaces(name) {
      PrefixesAgree(name);
    }
    if dob.None? {
      var a, b := SignalPassword(name, dob), StudentPassword(name, dob);
      ClearNameShape(name);
      if |SignalPrefix(name)| == |ClearName(name)| {
        assert a[|a| - 1 - 3] == '0' && b[|b| - 1 - 3] == '2';
      } else {
        assert |a| != |b|;
      }
    }
  }

  /** A leading tab is stripped by the signal but kept by the serializer, so the two prefixes differ. */
  lemma LeadingTabDiffers()
    ensures SignalPrefix("\tAB") == "AB"
    ensures ClearName("\tAB") == "\tAB"
  {
    assert StripStart("\tAB") == "AB";
    assert StripEnd("AB") == "AB";
    assert RemoveSpaces("AB") == "AB" by {
      assert "AB"[1..] == "B";
      assert "B"[1..] == "";
    }
    assert RemoveSpaces("\tAB") == "\tAB" by {
      assert "\tAB"[1..] == "AB";
      assert "AB"[1..] == "B";
      assert "B"[1..] == "";
    }
  }
}
