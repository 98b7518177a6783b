/** The decoded Course record and `getErrorForCourse`: nine rules evaluated
    in a fixed order, every violation reported. */
module CourseValidator {
  import opened Wrappers
  import opened Errors
  import opened Codec

  datatype CourseType = Lecture | Seminar | ProjectGroup
  datatype CourseLanguage = German | English

  /** Enum, date and integer fields are `None` when the JSON value was
      missing or did not decode. */
  datatype Course = Course(
    courseId: Option<string>,
    courseName: Option<string>,
    courseType: Option<CourseType>,
    startDate: Option<Date>,
    endDate: Option<Date>,
    ects: Option<Int32>,
    lecturerId: Option<string>,
    maxParticipants: Option<Int32>,
    currentParticipants: Option<Int32>,
    courseLanguage: Option<CourseLanguage>,
    courseDescription: Option<string>)

  const CourseIdEmpty := InvalidParameter("CourseID", "ID is empty")
  const CourseNameEmpty := InvalidParameter("CourseName", "Course name must not be empty")
  const CourseTypeInvalid := InvalidParameter("CourseType",
    "Course type must be one of [\"Lecture\", \"Seminar\", \"Project Group\"]")
  const StartDateInvalid := InvalidParameter("StartDate", "startDate must be the following format \"yyyy-mm-dd\"")
  const EndDateInvalid := InvalidParameter("EndDate", "endDate must be the following format \"yyyy-mm-dd\"")
  const EctsInvalid := InvalidParameter("Ects", "ects must be a positive integer number")
  const LecturerIdEmpty := InvalidParameter("LecturerID", "lecturerID unknown")
  const MaxParticipantsInvalid := InvalidParameter("MaxParticipants", "maxParticipants must be a positive integer number")
  const CourseLanguageInvalid := InvalidParameter("CourseLanguage", "language must be one of [\"German\", \"English\"]")

  /** The string fields the validator dereferences with `.equals("")`. */
  predicate HasStrings(c: Course) {
    c.courseId.Some? && c.courseName.Some? && c.lecturerId.Some?
  }

  /** The validator's checks, in evaluation order, by the violation each
      one reports. */
  const Rules: seq<InvalidParameter> := [
    CourseIdEmpty, CourseNameEmpty, CourseTypeInvalid, StartDateInvalid, EndDateInvalid,
    EctsInvalid, LecturerIdEmpty, MaxParticipantsInvalid, CourseLanguageInvalid]

  /** For each check, in the same order, whether the course passes it. */
  function Verdicts(c: Course): (v: seq<bool>)
    requires HasStrings(c)
    ensures |v| == |Rules|
  {
    [ c.courseId.value != "",
      c.courseName.value != "",
      c.courseType.Some?,
      c.startDate.Some?,
      c.endDate.Some?,
      c.ects.Some? && c.ects.value >= 1,
      c.lecturerId.value != "",
      c.maxParticipants.Some? && c.maxParticipants.value >= 0,
      c.courseLanguage.Some? ]
  }

  /** `getErrorForCourse`. A null id, name or lecturer id throws when it is
      compared with "". */
  function CourseErrors(c: Course): (r: Validated)
    ensures r.Thrown? <==> !HasStrings(c)
    ensures r.Thrown? ==> r.exception == NullPointer
    ensures r.Violations? ==> |r.params| <= |Rules|
  {
    if !HasStrings(c) then Thrown(NullPointer) else Violations(Failed(Verdicts(c), Rules, |Rules|))
  }
}
