/** What `getErrorForCourse` decides, field by field: which violation each
    field produces, when a course passes, and what is never looked at. */
module CourseValidity {
  import opened Wrappers
  import opened Errors
  import opened Codec
  import opened CourseValidator

  /** A course every check accepts, in terms of its fields. */
  predicate CourseValid(c: Course) {
    && c.courseId.Some? && c.courseId.value != ""
    && c.courseName.Some? && c.courseName.value != ""
    && c.courseType.Some?
    && c.startDate.Some? && c.endDate.Some?
    && c.ects.Some? && c.ects.value >= 1
    && c.lecturerId.Some? && c.lecturerId.value != ""
    && c.maxParticipants.Some? && c.maxParticipants.value >= 0
    && c.courseLanguage.Some?
  }

  lemma RulesDistinct()
    ensures forall i, j | 0 <= i < j < |Rules| :: Rules[i] != Rules[j]
  {
    assert forall i | 0 <= i < |Rules| :: Rules[i].name == ["CourseID", "CourseName", "CourseType", "StartDate",
      "EndDate", "Ects", "LecturerID", "MaxParticipants", "CourseLanguage"][i];
  }

  /** Check `i` is reported exactly when it fails. */
  lemma RuleReportedIff(c: Course, i: nat)
    requires HasStrings(c) && i < |Rules|
    ensures Rules[i] in CourseErrors(c).params <==> !Verdicts(c)[i]
  {
    FailedMembers(Verdicts(c), Rules, |Rules|);
    RulesDistinct();
  }

  /** Each field's violation, by the field's value. */
  lemma FieldViolationsIff(c: Course)
    requires HasStrings(c)
    ensures CourseIdEmpty in CourseErrors(c).params <==> c.courseId.value == ""
    ensures CourseNameEmpty in CourseErrors(c).params <==> c.courseName.value == ""
    ensures CourseTypeInvalid in CourseErrors(c).params <==> c.courseType.None?
    ensures StartDateInvalid in CourseErrors(c).params <==> c.startDate.None?
    ensures EndDateInvalid in CourseErrors(c).params <==> c.endDate.None?
    ensures EctsInvalid in CourseErrors(c).params <==> c.ects.None? || c.ects.value < 1
    ensures LecturerIdEmpty in CourseErrors(c).params <==> c.lecturerId.value == ""
    ensures MaxParticipantsInvalid in CourseErrors(c).params <==>
              c.maxParticipants.None? || c.maxParticipants.value < 0
    ensures CourseLanguageInvalid in CourseErrors(c).params <==> c.courseLanguage.None?
  {
    RuleReportedIff(c, 0);
    RuleReportedIff(c, 1);
    RuleReportedIff(c, 2);
    RuleReportedIff(c, 3);
    RuleReportedIff(c, 4);
    RuleReportedIff(c, 5);
    RuleReportedIff(c, 6);
    RuleReportedIff(c, 7);
    RuleReportedIff(c, 8);
  }

  /** Nothing is reported exactly for the valid courses. */
  lemma CoursePassesIff(c: Course)
    ensures CourseErrors(c).Passes() <==> CourseValid(c)
  {
    if HasStrings(c) {
      if CourseValid(c) {
        NothingFailed(Verdicts(c), Rules, |Rules|);
      } else {
        FieldViolationsIff(c);
      }
    }
  }

  /** `currentParticipants` and `courseDescription` never affect the verdict. */
  lemma UncheckedFields(c: Course, current: Option<Int32>, description: Option<string>)
    ensures CourseErrors(c.(currentParticipants := current, courseDescription := description)) == CourseErrors(c)
  {
    var d := c.(currentParticipants := current, courseDescription := description);
    if HasStrings(c) {
      assert Verdicts(d) == Verdicts(c);
    }
  }

  /** When check `j` is the only one a course fails, its violation is the
      whole report. */
  lemma OnlyFailure(c: Course, j: nat)
    requires HasStrings(c) && j < |Rules|
    requires forall k | 0 <= k < |Rules| :: Verdicts(c)[k] <==> k != j
    ensures CourseErrors(c) == Violations([Rules[j]])
  {
    FailedOnly(Verdicts(c), Rules, j, |Rules|);
  }

  /** Emptying one string field of a valid course yields that field's
      violation and no other. */
  lemma EmptyStringField(c: Course)
    requires CourseValid(c)
    ensures CourseErrors(c.(courseId := Some(""))) == Violations([CourseIdEmpty])
    ensures CourseErrors(c.(courseName := Some(""))) == Violations([CourseNameEmpty])
    ensures CourseErrors(c.(lecturerId := Some(""))) == Violations([LecturerIdEmpty])
  {
    OnlyFailure(c.(courseId := Some("")), 0);
    OnlyFailure(c.(courseName := Some("")), 1);
    OnlyFailure(c.(lecturerId := Some("")), 6);
  }

  /** An enum or date that did not decode (it arrives as `None`) yields that
      field's violation and no other. */
  lemma UndecodedField(c: Course)
    requires CourseValid(c)
    ensures CourseErrors(c.(courseType := None)) == Violations([CourseTypeInvalid])
    ensures CourseErrors(c.(startDate := None)) == Violations([StartDateInvalid])
    ensures CourseErrors(c.(endDate := None)) == Violations([EndDateInvalid])
    ensures CourseErrors(c.(courseLanguage := None)) == Violations([CourseLanguageInvalid])
  {
    OnlyFailure(c.(courseType := None), 2);
    OnlyFailure(c.(startDate := None), 3);
    OnlyFailure(c.(endDate := None), 4);
    OnlyFailure(c.(courseLanguage := None), 8);
  }

  /** The numeric bounds: ects must be at least 1, a participant limit of 0
      is accepted, and a missing or non-numeric value is reported. */
  lemma NumericBounds(c: Course)
    requires CourseValid(c)
    ensures CourseErrors(c.(maxParticipants := Some(0))).Passes()
    ensures CourseErrors(c.(ects := None)) == Violations([EctsInvalid])
    ensures CourseErrors(c.(ects := Some(0))) == Violations([EctsInvalid])
    ensures CourseErrors(c.(maxParticipants := Some(-1))) == Violations([MaxParticipantsInvalid])
  {
    CoursePassesIff(c.(maxParticipants := Some(0)));
    OnlyFailure(c.(ects := None), 5);
    OnlyFailure(c.(ects := Some(0)), 5);
    OnlyFailure(c.(maxParticipants := Some(-1)), 7);
  }
}
