/** The expected outcomes of the student test suite, as lemmas about the
    validator (the payloads differ from a valid record in one place each). */
module StudentScenarios {
  import opened Wrappers
  import opened Numerals
  import opened Errors
  import opened Codec
  import opened JavaString
  import opened Semester
  import opened StudentValidator

  const ComputerScience := FieldOfStudy("Computer Science")

  function Interval(first: string, last: string): MatriculationInterval {
    MatriculationInterval(Some(first), Some(last))
  }

  function Entry(field: FieldOfStudy, ivs: seq<MatriculationInterval>): SubjectMatriculationInterval {
    SubjectMatriculationInterval(Some(field), Some(ivs))
  }

  function Payload(birthYear: int, entries: seq<SubjectMatriculationInterval>): Student {
    Student(Some("0000001"), Some("firstName1"), Some("lastName1"), Some(Date(birthYear, 7, 21)), Some(entries))
  }

  /** A six-character token with a season prefix and four digits is well
      formed, and its year is the value of those digits. */
  lemma Token(t: string)
    requires |t| == 6 && (t[0] == 'W' || t[0] == 'S') && t[1] == 'S'
    requires IsDigit(t[2]) && IsDigit(t[3]) && IsDigit(t[4]) && IsDigit(t[5])
    ensures SemesterFormatValid(t)
    ensures Year(t) == 1000 * DigitValue(t[2]) + 100 * DigitValue(t[3]) + 10 * DigitValue(t[4]) + DigitValue(t[5])
    ensures IsWinter(t) <==> t[0] == 'W'
    ensures StartsWith(t, "SS") <==> t[0] == 'S'
  {
    var d := t[2..];
    assert AllDigits(d);
    assert d[..3] == [t[2], t[3], t[4]] && d[..3][..2] == [t[2], t[3]];
    assert [t[2], t[3]][..1] == [t[2]] && [t[2]][..0] == [];
    assert DigitsValue([t[2]]) == DigitValue(t[2]);
    assert DigitsValue([t[2], t[3]]) == 10 * DigitValue(t[2]) + DigitValue(t[3]);
    assert DigitsValue([t[2], t[3], t[4]]) == 10 * DigitsValue([t[2], t[3]]) + DigitValue(t[4]);
    assert StartsWith(t, "WS") <==> t[..2] == "WS";
  }

  /** A payload with a single entry is judged by that entry alone. */
  lemma OneEntry(y: int, e: SubjectMatriculationInterval)
    ensures StudentErrors(Payload(y, [e])) == EntryErrors(e, [], Some(Date(y, 7, 21)))
  {
    var s := Payload(y, [e]);
    assert HeaderErrors(s) == [];
    assert StatusErrorsFrom([e], 1, Recorded([], e.fieldOfStudy), s.birthDate) == Violations([]);
  }

  /** A payload with two entries: the second sees the first one's field. */
  lemma TwoEntries(y: int, a: SubjectMatriculationInterval, b: SubjectMatriculationInterval)
    ensures StudentErrors(Payload(y, [a, b])) ==
              Then(EntryErrors(a, [], Some(Date(y, 7, 21))),
                   EntryErrors(b, Recorded([], a.fieldOfStudy), Some(Date(y, 7, 21))))
  {
    var s := Payload(y, [a, b]);
    var birth := s.birthDate;
    assert HeaderErrors(s) == [];
    var rest := StatusErrorsFrom([a, b], 2, Recorded(Recorded([], a.fieldOfStudy), b.fieldOfStudy), birth);
    assert rest == Violations([]);
    var vb := EntryErrors(b, Recorded([], a.fieldOfStudy), birth);
    assert Then(vb, rest) == vb;
    assert StatusErrorsFrom([a, b], 1, Recorded([], a.fieldOfStudy), birth) == vb;
    var both := Then(EntryErrors(a, [], birth), vb);
    assert StatusErrorsFrom([a, b], 0, [], birth) == both;
    assert Then(Violations([]), both) == both;
  }

  /** An entry with a single interval and a fresh field is judged by that interval. */
  lemma OneInterval(f: FieldOfStudy, iv: MatriculationInterval, birth: Option<Date>)
    ensures EntryErrors(Entry(f, [iv]), [], birth) == IntervalErrors(iv, birth)
  {
    assert IntervalsErrors([iv], birth) == Then(IntervalErrors(iv, birth), IntervalsErrors([], birth));
  }

  /** An interval whose only failing check is `j` lists that check's
      violation alone. */
  lemma IntervalOnly(first: string, last: string, birth: Option<Date>, j: nat)
    requires SemesterFormatValid(first) ==> SemesterYear(last).Success?
    requires j < |IntervalRules|
    requires forall k | 0 <= k < |IntervalRules| :: IntervalVerdicts(first, last, birth)[k] <==> k != j
    ensures IntervalErrors(Interval(first, last), birth) == Violations([IntervalRules[j]])
  {
    FailedOnly(IntervalVerdicts(first, last, birth), IntervalRules, j, |IntervalRules|);
  }

  /** An interval passing every check lists nothing. */
  lemma IntervalClean(first: string, last: string, birth: Option<Date>)
    requires SemesterFormatValid(first) ==> SemesterYear(last).Success?
    requires forall k | 0 <= k < |IntervalRules| :: IntervalVerdicts(first, last, birth)[k]
    ensures IntervalErrors(Interval(first, last), birth) == Violations([])
  {
    NothingFailed(IntervalVerdicts(first, last, birth), IntervalRules, |IntervalRules|);
  }

  /** The verdicts of two well-formed tokens: only the chronology and the
      birth-year checks can fail. */
  lemma FormedVerdicts(first: string, last: string, birth: Option<Date>)
    requires SemesterFormatValid(first) && SemesterFormatValid(last)
    ensures SemesterYear(last) == Success(Year(last))
    ensures IntervalVerdicts(first, last, birth) ==
              [true, true, !OutOfOrder(first, Year(first), last, Year(last)),
               !(birth.Some? && Year(first) < birth.value.year), true, true]
  {
  }

  /** A payload with one entry holding one interval whose only failing
      check is `j`. */
  lemma SingleInterval(first: string, last: string, birthYear: int, j: nat)
    requires SemesterFormatValid(first) ==> SemesterYear(last).Success?
    requires j < |IntervalRules|
    requires forall k | 0 <= k < |IntervalRules| ::
               IntervalVerdicts(first, last, Some(Date(birthYear, 7, 21)))[k] <==> k != j
    ensures StudentErrors(Payload(birthYear, [Entry(ComputerScience, [Interval(first, last)])]))
            == Violations([IntervalRules[j]])
  {
    var birth := Some(Date(birthYear, 7, 21));
    OneEntry(birthYear, Entry(ComputerScience, [Interval(first, last)]));
    OneInterval(ComputerScience, Interval(first, last), birth);
    IntervalOnly(first, last, birth, j);
  }

  /** Born 2020, first semester WS2018: exactly the birth-date violation. */
  lemma FirstSemesterBeforeBirthDate()
    ensures StudentErrors(Payload(2020, [Entry(ComputerScience, [Interval("WS2018", "SS2020")])]))
            == Violations([BeforeBirthDate])
  {
    Token("WS2018");
    Token("SS2020");
    FormedVerdicts("WS2018", "SS2020", Some(Date(2020, 7, 21)));
    SingleInterval("WS2018", "SS2020", 2020, 3);
  }

  /** WS2020 to SS2018: a chronology violation and nothing else. */
  lemma ChronologicallyInvalidYears()
    ensures StudentErrors(Payload(2000, [Entry(ComputerScience, [Interval("WS2020", "SS2018")])]))
            == Violations([Chronology])
  {
    Token("WS2020");
    Token("SS2018");
    FormedVerdicts("WS2020", "SS2018", Some(Date(2000, 7, 21)));
    SingleInterval("WS2020", "SS2018", 2000, 2);
  }

  /** WS2020 to SS2020: same year, winter before summer is out of order. */
  lemma ChronologicallyInvalidSemesters()
    ensures StudentErrors(Payload(2000, [Entry(ComputerScience, [Interval("WS2020", "SS2020")])]))
            == Violations([Chronology])
  {
    Token("WS2020");
    Token("SS2020");
    FormedVerdicts("WS2020", "SS2020", Some(Date(2000, 7, 21)));
    SingleInterval("WS2020", "SS2020", 2000, 2);
  }

  /** A one-semester interval WS2018 to WS2018 is accepted. */
  lemma SingleSemesterInterval()
    ensures StudentErrors(Payload(2000, [Entry(ComputerScience, [Interval("WS2018", "WS2018")])])).Passes()
  {
    Token("WS2018");
    FormedVerdicts("WS2018", "WS2018", Some(Date(2000, 7, 21)));
    OneEntry(2000, Entry(ComputerScience, [Interval("WS2018", "WS2018")]));
    OneInterval(ComputerScience, Interval("WS2018", "WS2018"), Some(Date(2000, 7, 21)));
    IntervalClean("WS2018", "WS2018", Some(Date(2000, 7, 21)));
  }

  /** The second of two Computer Science entries, seen after the first. */
  lemma SecondEntryIsDuplicate(birth: Option<Date>)
    requires birth == Some(Date(2000, 7, 21))
    ensures EntryErrors(Entry(ComputerScience, [Interval("WS2014", "SS2016")]), [ComputerScience], birth)
            == Violations([FieldDuplicate])
  {
    Token("WS2014");
    Token("SS2016");
    FormedVerdicts("WS2014", "SS2016", birth);
    var iv := Interval("WS2014", "SS2016");
    IntervalClean("WS2014", "SS2016", birth);
    assert IntervalsErrors([iv], birth) == Then(IntervalErrors(iv, birth), IntervalsErrors([], birth));
  }

  lemma FirstEntryPasses(birth: Option<Date>)
    requires birth == Some(Date(2000, 7, 21))
    ensures EntryErrors(Entry(ComputerScience, [Interval("WS2018", "SS2020")]), [], birth) == Violations([])
  {
    Token("WS2018");
    Token("SS2020");
    FormedVerdicts("WS2018", "SS2020", birth);
    OneInterval(ComputerScience, Interval("WS2018", "SS2020"), birth);
    IntervalClean("WS2018", "SS2020", birth);
  }

  /** Two entries for the same field: one duplicate violation, on the second. */
  lemma DuplicateFieldOfStudy()
    ensures StudentErrors(Payload(2000, [Entry(ComputerScience, [Interval("WS2018", "SS2020")]),
                                         Entry(ComputerScience, [Interval("WS2014", "SS2016")])]))
            == Violations([FieldDuplicate])
  {
    var birth := Some(Date(2000, 7, 21));
    var a := Entry(ComputerScience, [Interval("WS2018", "SS2020")]);
    var b := Entry(ComputerScience, [Interval("WS2014", "SS2016")]);
    TwoEntries(2000, a, b);
    FirstEntryPasses(birth);
    SecondEntryIsDuplicate(birth);
    assert Recorded([], a.fieldOfStudy) == [ComputerScience];
  }

  /** "SS20200" is numeric after its prefix: year 20200, malformed. */
  lemma MalformedNumericToken()
    ensures !SemesterFormatValid("SS20200")
    ensures SemesterYear("SS20200") == Success(20200)
  {
    var d := "SS20200"[2..];
    assert d == "20200" && AllDigits(d);
    assert d[..4] == "2020" && "2020"[..3] == "202" && "202"[..2] == "20" && "20"[..1] == "2" && "2"[..0] == [];
    assert DigitsValue("20") == 20;
    assert DigitsValue("2020") == 2020 by { assert DigitsValue("202") == 202; }
    assert DigitsValue(d) == 20200;
  }

  /** "SS20200" is malformed but numeric: only the format violation. */
  lemma InvalidLastSemester()
    ensures StudentErrors(Payload(2000, [Entry(ComputerScience, [Interval("WS2018", "SS20200")])]))
            == Violations([LastSemesterFormat])
  {
    Token("WS2018");
    MalformedNumericToken();
    assert IntervalVerdicts("WS2018", "SS20200", Some(Date(2000, 7, 21))) == [true, true, true, true, true, false];
    SingleInterval("WS2018", "SS20200", 2000, 5);
  }

  /** "WWS2018" as first semester: only the format violation. */
  lemma InvalidFirstSemester()
    ensures StudentErrors(Payload(2000, [Entry(ComputerScience, [Interval("WWS2018", "SS2020")])]))
            == Violations([FirstSemesterFormat])
  {
    Token("SS2020");
    assert !SemesterFormatValid("WWS2018");
    SingleInterval("WWS2018", "SS2020", 2000, 4);
  }

  /** An empty interval list and an empty status list. */
  lemma EmptyLists()
    ensures StudentErrors(Payload(2000, [Entry(ComputerScience, [])])) == Violations([IntervalsEmpty])
    ensures StudentErrors(Payload(2000, [])) == Violations([StatusEmpty])
  {
    OneEntry(2000, Entry(ComputerScience, []));
    assert HeaderErrors(Payload(2000, [])) == [];
  }

  /** Both tokens empty: the two empty-token violations, then the two
      format violations, in the order the checks run. */
  lemma EmptyTokens(birth: Option<Date>)
    ensures IntervalErrors(Interval("", ""), birth)
            == Violations([FirstSemesterEmpty, LastSemesterEmpty, FirstSemesterFormat, LastSemesterFormat])
  {
    var v := IntervalVerdicts("", "", birth);
    assert v == [false, false, true, true, false, false];
    assert Failed(v, IntervalRules, 2) == [FirstSemesterEmpty, LastSemesterEmpty];
    assert Failed(v, IntervalRules, 4) == [FirstSemesterEmpty, LastSemesterEmpty];
    assert Failed(v, IntervalRules, 5) == [FirstSemesterEmpty, LastSemesterEmpty, FirstSemesterFormat];
    assert !SemesterFormatValid("");
  }

  /** `substring(2)` counts UTF-16 code units. A character beyond U+FFFF in
      front of the year is two units, so the whole year is read; one in
      second place is cut in half, and the rest is no numeral; a single
      character of one unit is too short. */
  lemma SupplementaryCharacters()
    ensures SemesterYear("\U{1F600}2021") == Success(2021)
    ensures SemesterYear("\U{1F600}") == Failure(NumberFormat)
    ensures SemesterYear("W\U{1F600}2021") == Failure(NumberFormat)
    ensures SemesterYear("W") == Failure(StringIndexOutOfBounds)
  {
    Token("SS2021");
    assert "SS2021"[2..] == "\U{1F600}2021"[1..];
    assert !InBmp("\U{1F600}"[0]) && !InBmp("W\U{1F600}2021"[1]);
    assert ""[..0] == [];
  }

  /** WS2020 to the emoji token: malformed, but its year reads as 2021, so
      the format violation is the only one. */
  lemma SupplementaryLastSemester()
    ensures IntervalErrors(Interval("WS2020", "\U{1F600}2021"), None) == Violations([LastSemesterFormat])
  {
    Token("WS2020");
    SupplementaryCharacters();
    assert !SemesterFormatValid("\U{1F600}2021");
    IntervalOnly("WS2020", "\U{1F600}2021", None, 5);
  }

  /** A token whose first two characters are one code unit each has the
      year its rest parses to. */
  lemma YearOfRest(s: string, y: int)
    requires |s| >= 2 && InBmp(s[0]) && InBmp(s[1]) && ParseInt(s[2..]) == Some(y)
    ensures SemesterYear(s) == Success(y)
  {
    BmpRest(s);
  }

  /** "SS2019" read back: its rest is the numeral 2019. */
  lemma Year2019()
    ensures ParseInt("2019") == Some(2019) && AllDigits("2019")
  {
    Token("SS2019");
    assert "SS2019"[2..] == "2019";
    ParseIntValue("2019");
  }

  /** `Integer.parseInt` takes a sign and leading zeros: "SS+2019" and
      "SS02019" read as 2019, "SS-0" as 0. */
  lemma SignedAndPaddedYears()
    ensures SemesterYear("SS+2019") == Success(2019)
    ensures SemesterYear("SS02019") == Success(2019)
    ensures SemesterYear("SS-0") == Success(0)
  {
    Year2019();
    PlusYear();
    PaddedYear();
    ParseIntValue("0");
    assert "SS-0"[2..] == "-" + "0";
    YearOfRest("SS-0", 0);
  }

  lemma PlusYear()
    requires ParseInt("2019") == Some(2019) && AllDigits("2019")
    ensures SemesterYear("SS+2019") == Success(2019)
  {
    ParseIntValue("2019");
    assert "SS+2019"[2..] == "+" + "2019";
    YearOfRest("SS+2019", 2019);
  }

  lemma PaddedYear()
    requires ParseInt("2019") == Some(2019) && AllDigits("2019")
    ensures SemesterYear("SS02019") == Success(2019)
  {
    LeadingZero("2019");
    ParseIntValue("0" + "2019");
    assert "SS02019"[2..] == "0" + "2019";
    YearOfRest("SS02019", 2019);
  }

  /** WS2020 to "SS+2019": the signed year is read and found earlier, so
      the interval gets the chronology and the last-format violations. */
  lemma SignedLastSemester()
    ensures IntervalErrors(Interval("WS2020", "SS+2019"), None) == Violations([Chronology, LastSemesterFormat])
  {
    Token("WS2020");
    Year2019();
    PlusYear();
    assert !SemesterFormatValid("SS+2019");
    var v := IntervalVerdicts("WS2020", "SS+2019", None);
    assert v == [true, true, false, true, true, false];
    ChronologyAndLastFormat(v);
  }

  /** The list when only the chronology and the last-format checks fail. */
  lemma ChronologyAndLastFormat(v: seq<bool>)
    requires v == [true, true, false, true, true, false]
    ensures Failed(v, IntervalRules, |IntervalRules|) == [Chronology, LastSemesterFormat]
  {
    assert Failed(v, IntervalRules, 2) == [];
    assert Failed(v, IntervalRules, 3) == [Chronology];
    assert Failed(v, IntervalRules, 5) == [Chronology];
  }
}
