/** The decoded Student record and `getErrorForStudent`: the ordered list of
    violations, or the exception that ends evaluation. */
module StudentValidator {
  import opened Wrappers
  import opened Numerals
  import opened Errors
  import opened Codec
  import opened Semester

  /** An enum value of `FieldOfStudyEnum`, by its canonical literal. An
      unknown literal decodes to null, so only known values occur here. */
  datatype FieldOfStudy = FieldOfStudy(literal: string)

  datatype MatriculationInterval = MatriculationInterval(
    firstSemester: Option<string>,
    lastSemester: Option<string>)

  datatype SubjectMatriculationInterval = SubjectMatriculationInterval(
    fieldOfStudy: Option<FieldOfStudy>,
    intervals: Option<seq<MatriculationInterval>>)

  datatype Student = Student(
    matriculationId: Option<string>,
    firstName: Option<string>,
    lastName: Option<string>,
    birthDate: Option<Date>,
    matriculationStatus: Option<seq<SubjectMatriculationInterval>>)

  const FirstSemesterName := "SubjectMatriculationInterval.MatriculationInterval.firstSemester"
  const LastSemesterName := "SubjectMatriculationInterval.MatriculationInterval.lastSemester"

  const IdEmpty := InvalidParameter("matriculationID", "ID is empty")
  const FirstNameEmpty := InvalidParameter("firstName", "First name must not be empty")
  const LastNameEmpty := InvalidParameter("lastName", "Last name must not be empty")
  const BirthDateFormat := InvalidParameter("birthDate", "Birth date must be the following format \"yyyy-mm-dd\"")
  const StatusEmpty := InvalidParameter("matriculationStatus", "Matriculation status must not be empty")
  const FieldEmpty := InvalidParameter("SubjectMatriculationInterval.fieldOfStudy", "Field of study must not be empty")
  const FieldDuplicate := InvalidParameter("SubjectMatriculationInterval.fieldOfStudy",
    "Each field of study should only appear in one SubjectMatriculationInterval.")
  const IntervalsEmpty := InvalidParameter("SubjectMatriculationInterval.intervals", "Intervals must not be empty")
  const FirstSemesterEmpty := InvalidParameter(FirstSemesterName, "First semester must not be empty")
  const LastSemesterEmpty := InvalidParameter(LastSemesterName, "Last semester must not be empty")
  const Chronology := InvalidParameter(FirstSemesterName,
    "First and last semester must be in chronological order. Last semester lays chronologically before first semester.")
  const BeforeBirthDate := InvalidParameter(FirstSemesterName, "First semester must not be earlier than birth date.")
  const FirstSemesterFormat := InvalidParameter(FirstSemesterName,
    "First semester must be the following format \"(WS|SS)\\d{4}\", e.g. \"WS2020\"")
  const LastSemesterFormat := InvalidParameter(LastSemesterName,
    "Last semester must be the following format \"(WS|SS)\\d{4}\", e.g. \"WS2020\"")

  /** A required string: neither null nor "". */
  predicate Filled(s: Option<string>) {
    s.Some? && s.value != ""
  }

  /** The chronology test of an interval whose first token is well formed:
      a later year, or the same year with a winter first and a summer last.
      The last token's year comes from `SemesterYear` and its format is not
      checked first. */
  predicate OutOfOrder(first: string, firstYear: int, last: string, lastYear: int) {
    || firstYear > lastYear
    || (firstYear == lastYear && StartsWith(first, "WS") && StartsWith(last, "SS"))
  }

  /** The six checks of one interval, in the order the loop body runs them. */
  const IntervalRules: seq<InvalidParameter> := [
    FirstSemesterEmpty, LastSemesterEmpty, Chronology, BeforeBirthDate, FirstSemesterFormat, LastSemesterFormat]

  /** For each interval check, in the same order, whether the tokens pass
      it. The chronology and birth-year checks run only for a well-formed
      first token, and need the last token's year. */
  function IntervalVerdicts(first: string, last: string, birth: Option<Date>): (v: seq<bool>)
    requires SemesterFormatValid(first) ==> SemesterYear(last).Success?
    ensures |v| == |IntervalRules|
  {
    var formed := SemesterFormatValid(first);
    [ first != "",
      last != "",
      !(formed && OutOfOrder(first, Year(first), last, SemesterYear(last).value)),
      !(formed && birth.Some? && Year(first) < birth.value.year),
      formed,
      SemesterFormatValid(last) ]
  }

  /** The checks of one `MatriculationInterval`. A null first token throws
      in the first format test; a null last token throws when its year is
      read or when its format is tested; a well-formed first token makes
      the last token's year be read, which can throw. An exception
      discards the list. */
  function IntervalErrors(iv: MatriculationInterval, birth: Option<Date>): (r: Validated)
    ensures r.Violations? ==> iv.firstSemester.Some? && iv.lastSemester.Some?
    ensures r.Violations? ==> |r.params| <= 4
  {
    match iv.firstSemester
    case None => Thrown(NullPointer)
    case Some(first) =>
      match iv.lastSemester
      case None => Thrown(NullPointer)
      case Some(last) =>
        if SemesterFormatValid(first) && SemesterYear(last).Failure? then Thrown(SemesterYear(last).error)
        else
          var v := IntervalVerdicts(first, last, birth);
          assert |Failed(v, IntervalRules, |IntervalRules|)| <= 4 by {
            if SemesterFormatValid(first) {
              FailedBound2(v, IntervalRules, |IntervalRules|, 0, 4);
            } else {
              FailedBound2(v, IntervalRules, |IntervalRules|, 2, 3);
            }
          }
          Violations(Failed(v, IntervalRules, |IntervalRules|))
  }

  /** The checks of every interval of one entry, in list order. */
  function IntervalsErrors(ivs: seq<MatriculationInterval>, birth: Option<Date>): Validated
  {
    if ivs == [] then Violations([])
    else Then(IntervalErrors(ivs[0], birth), IntervalsErrors(ivs[1..], birth))
  }

  /** The field-of-study check against the fields recorded so far. */
  function FieldErrors(field: Option<FieldOfStudy>, existing: seq<FieldOfStudy>): seq<InvalidParameter>
  {
    match field
    case None => [FieldEmpty]
    case Some(f) => if f in existing then [FieldDuplicate] else []
  }

  /** `existingFields` after visiting an entry: a field is recorded only on
      its first occurrence. */
  function Recorded(existing: seq<FieldOfStudy>, field: Option<FieldOfStudy>): seq<FieldOfStudy>
  {
    if field.Some? && field.value !in existing then existing + [field.value] else existing
  }

  /** The checks of one `SubjectMatriculationInterval`. A null interval list
      is reported and then dereferenced by the interval loop. */
  function EntryErrors(e: SubjectMatriculationInterval, existing: seq<FieldOfStudy>, birth: Option<Date>): Validated
  {
    match e.intervals
    case None => Thrown(NullPointer)
    case Some(ivs) =>
      Then(Violations(FieldErrors(e.fieldOfStudy, existing) + (if ivs == [] then [IntervalsEmpty] else [])),
           IntervalsErrors(ivs, birth))
  }

  /** The entry loop from position `i`, with the fields recorded so far. */
  function StatusErrorsFrom(es: seq<SubjectMatriculationInterval>, i: nat, existing: seq<FieldOfStudy>,
                            birth: Option<Date>): Validated
    requires i <= |es|
    decreases |es| - i
  {
    if i == |es| then Violations([])
    else Then(EntryErrors(es[i], existing, birth),
              StatusErrorsFrom(es, i + 1, Recorded(existing, es[i].fieldOfStudy), birth))
  }

  /** The header checks, in order: id, first name, last name, birth date. */
  function HeaderErrors(s: Student): seq<InvalidParameter>
  {
    (if !Filled(s.matriculationId) then [IdEmpty] else [])
    + (if !Filled(s.firstName) then [FirstNameEmpty] else [])
    + (if !Filled(s.lastName) then [LastNameEmpty] else [])
    + (if s.birthDate.None? then [BirthDateFormat] else [])
  }

  /** `getErrorForStudent`. */
  function StudentErrors(s: Student): (r: Validated)
    ensures r.Violations? ==> HeaderErrors(s) <= r.params
    ensures s.matriculationStatus.None? || s.matriculationStatus.value == [] ==>
              r == Violations(HeaderErrors(s) + [StatusEmpty])
  {
    match s.matriculationStatus
    case None => Violations(HeaderErrors(s) + [StatusEmpty])
    case Some(es) =>
      if es == [] then Violations(HeaderErrors(s) + [StatusEmpty])
      else Then(Violations(HeaderErrors(s)), StatusErrorsFrom(es, 0, [], s.birthDate))
  }
}
