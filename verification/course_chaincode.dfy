/** The Course transactions. Course records are stored under their own
    `courseId`; look-ups by id return the record or JSON `null`. */
module CourseChaincode {
  import opened Wrappers
  import opened Errors
  import opened Codec
  import opened Ledger
  import opened CourseValidator
  import opened CourseValidity

  type Courses = Store<Course>

  const ParserError := Detailed("unprocessableEntity", FormatTitle, [])
  const IdMismatch := Coded("00", "Course ID and ID in path do not match")
  const CourseNotFound := Coded("03", "Course not found")

  /** The envelope `addCourse` wraps violations in ("Pamameter" sic). */
  function InvalidParams(params: seq<InvalidParameter>): ErrorDoc {
    Detailed("invalidPamameter", "The following parameters are invalid.", params)
  }

  /** Every stored value is a course document filed under its own id, which
      is what the transactions below only ever write. */
  predicate KeyedById(ledger: Courses) {
    forall k | k in ledger :: ledger[k].Doc? && ledger[k].doc.courseId == Some(k)
  }

  /** `addCourse` as the code reads: the validator's list is never null, so
      the `!= null` guard refuses every course, valid or not. */
  function AddCourseAsWritten(ledger: Courses, input: Decoded<Course>): (t: Tx<Course, Course>)
    ensures t.store == ledger
    ensures !t.reply.Empty?
    ensures input.Parsed? && CourseValid(input.value) ==> t.reply == Refused(InvalidParams([]))
  {
    match input
    case Malformed => Tx(ledger, Refused(ParserError))
    case JsonNull => Tx(ledger, Aborted(NullPointer))
    case Parsed(c) =>
      CoursePassesIff(c);
      match CourseErrors(c)
      case Thrown(e) => Tx(ledger, Aborted(e))
      case Violations(ps) => Tx(ledger, Refused(InvalidParams(ps)))
  }

  /** `addCourse` with the guard it evidently intends (a non-empty list):
      decode inside a try block, validate, then write with no existence
      check, so an existing course is overwritten. */
  function AddCourse(ledger: Courses, input: Decoded<Course>): (t: Tx<Course, Course>)
    ensures !t.reply.Empty? ==> t.store == ledger
    ensures !t.reply.Value?
    ensures input.Malformed? ==> t.reply == Refused(ParserError)
    ensures input.JsonNull? ==> t.reply == Aborted(NullPointer)
    ensures input.Parsed? && !HasStrings(input.value) ==> t.reply == Aborted(NullPointer)
    ensures input.Parsed? && CourseErrors(input.value).Violations? && CourseErrors(input.value).params != [] ==>
              t.reply == Refused(InvalidParams(CourseErrors(input.value).params))
    ensures t.reply.Empty? <==> input.Parsed? && CourseValid(input.value)
    ensures t.reply.Empty? ==> t.store == ledger[input.value.courseId.value := Doc(input.value)]
  {
    match input
    case Malformed => Tx(ledger, Refused(ParserError))
    case JsonNull => Tx(ledger, Aborted(NullPointer))
    case Parsed(c) =>
      CoursePassesIff(c);
      match CourseErrors(c)
      case Thrown(e) => Tx(ledger, Aborted(e))
      case Violations(ps) =>
        if ps != [] then Tx(ledger, Refused(InvalidParams(ps)))
        else Tx(ledger[c.courseId.value := Doc(c)], Empty)
  }

  /** `updateCourseById` as the code reads: the validator's result is never
      null, so every course whose id matches the path is refused with its
      (possibly empty) list of violations. */
  function UpdateCourseByIdAsWritten(ledger: Courses, courseId: string, input: Decoded<Course>): (t: Tx<Course, Course>)
    ensures t.store == ledger
    ensures !t.reply.Empty?
    ensures input.Parsed? && CourseValid(input.value) && input.value.courseId == Some(courseId) ==>
              t.reply == Refused(Listed([]))
  {
    match input
    case Malformed => Tx(ledger, Aborted(JsonSyntax))
    case JsonNull => Tx(ledger, Aborted(NullPointer))
    case Parsed(c) =>
      CoursePassesIff(c);
      if c.courseId != Some(courseId) then Tx(ledger, Refused(IdMismatch))
      else
        match CourseErrors(c)
        case Thrown(e) => Tx(ledger, Aborted(e))
        case Violations(ps) => Tx(ledger, Refused(Listed(ps)))
  }

  /** `updateCourseById` with the evidently intended guard: decode (outside
      any try block), compare the ids, validate, check existence, then
      replace the record under the same key. */
  function UpdateCourseById(ledger: Courses, courseId: string, input: Decoded<Course>): (t: Tx<Course, Course>)
    ensures !t.reply.Empty? ==> t.store == ledger
    ensures !t.reply.Value?
    ensures input.Malformed? ==> t.reply == Aborted(JsonSyntax)
    ensures input.JsonNull? ==> t.reply == Aborted(NullPointer)
    ensures input.Parsed? && input.value.courseId != Some(courseId) ==> t.reply == Refused(IdMismatch)
    ensures input.Parsed? && input.value.courseId == Some(courseId) && CourseErrors(input.value).Violations?
              && CourseErrors(input.value).params != [] ==>
              t.reply == Refused(Listed(CourseErrors(input.value).params))
    ensures input.Parsed? && input.value.courseId == Some(courseId) && CourseValid(input.value) && !Present(ledger, courseId) ==>
              t.reply == Refused(CourseNotFound)
    ensures t.reply.Empty? <==>
              input.Parsed? && input.value.courseId == Some(courseId) && CourseValid(input.value) && Present(ledger, courseId)
    ensures t.reply.Empty? ==>
              && t.store.Keys == ledger.Keys
              && t.store[courseId] == Doc(input.value)
              && forall k | k in ledger && k != courseId :: t.store[k] == ledger[k]
  {
    match input
    case Malformed => Tx(ledger, Aborted(JsonSyntax))
    case JsonNull => Tx(ledger, Aborted(NullPointer))
    case Parsed(c) =>
      CoursePassesIff(c);
      if c.courseId != Some(courseId) then Tx(ledger, Refused(IdMismatch))
      else
        match CourseErrors(c)
        case Thrown(e) => Tx(ledger, Aborted(e))
        case Violations(ps) =>
          if ps != [] then Tx(ledger, Refused(Listed(ps)))
          else if !Present(ledger, courseId) then Tx(ledger, Refused(CourseNotFound))
          else Tx((ledger - {courseId})[courseId := Doc(c)], Empty)
  }

  /** `deleteCourseById`: remove the record if one is stored. */
  function DeleteCourseById(ledger: Courses, courseId: string): (t: Tx<Course, Course>)
    ensures t.reply == Empty || t.reply == Refused(CourseNotFound)
    ensures t.reply.Empty? <==> Present(ledger, courseId)
    ensures t.reply.Empty? ==> t.store.Keys == ledger.Keys - {courseId}
    ensures forall k | k in t.store :: k in ledger && t.store[k] == ledger[k]
  {
    if !Present(ledger, courseId) then Tx(ledger, Refused(CourseNotFound))
    else Tx(ledger - {courseId}, Empty)
  }

  /** `getCourseById`: the stored record, or `None` (JSON `null`) when the
      state is missing or blank. */
  function GetCourseById(ledger: Courses, courseId: string): (r: Option<Course>)
    ensures r.Some? <==> Present(ledger, courseId)
    ensures r.Some? ==> ledger[courseId] == Doc(r.value)
  {
    if Present(ledger, courseId) then Some(ledger[courseId].doc) else None
  }

  /** The `getAllCourses` selector: documents with a string `courseId`. */
  predicate HasCourseId(c: Course) {
    c.courseId.Some?
  }

  /** `getAllCourses`: every stored course in the host's iteration order. */
  function GetAllCourses(ledger: Courses, order: seq<string>): (r: seq<Course>)
    ensures forall c :: c in r ==> c.courseId.Some? && exists k :: k in order && k in ledger && ledger[k] == Doc(c)
    ensures forall i :: 0 <= i < |order| && Present(ledger, order[i]) && HasCourseId(ledger[order[i]].doc) ==>
              ledger[order[i]].doc in r
  {
    Select(ledger, order, HasCourseId)
  }

  /** Every course the transactions wrote is listed, one per key. */
  lemma GetAllCoursesListsEveryKey(ledger: Courses, order: seq<string>)
    requires KeyedById(ledger) && IsListing(ledger, order)
    ensures |GetAllCourses(ledger, order)| == |ledger|
    ensures forall k | k in ledger :: ledger[k].doc in GetAllCourses(ledger, order)
  {
    SelectAll(ledger, order, HasCourseId);
    forall k | k in ledger
      ensures ledger[k].doc in GetAllCourses(ledger, order)
    {
      var i :| 0 <= i < |order| && order[i] == k;
    }
  }

  /** The writing transactions keep every record under its own id. */
  lemma TransactionsKeepKeyedById(ledger: Courses, courseId: string, input: Decoded<Course>)
    requires KeyedById(ledger)
    ensures KeyedById(AddCourse(ledger, input).store)
    ensures KeyedById(UpdateCourseById(ledger, courseId, input).store)
    ensures KeyedById(DeleteCourseById(ledger, courseId).store)
  {
  }

  /** A course that was added can be read back under its id. */
  lemma AddThenGet(ledger: Courses, c: Course)
    requires AddCourse(ledger, Parsed(c)).reply.Empty?
    ensures GetCourseById(AddCourse(ledger, Parsed(c)).store, c.courseId.value) == Some(c)
  {
  }

  /** Adding a valid course under an id already in use replaces the stored
      record instead of refusing. */
  lemma AddCourseOverwrites(ledger: Courses, c: Course)
    requires CourseValid(c) && Present(ledger, c.courseId.value)
    ensures AddCourse(ledger, Parsed(c)).reply == Empty
    ensures AddCourse(ledger, Parsed(c)).store.Keys == ledger.Keys
    ensures AddCourse(ledger, Parsed(c)).store[c.courseId.value] == Doc(c)
  {
  }

  /** After a delete the id reads as `null`, and a second delete is refused. */
  lemma DeleteThenGet(ledger: Courses, courseId: string)
    ensures GetCourseById(DeleteCourseById(ledger, courseId).store, courseId) == None
    ensures DeleteCourseById(DeleteCourseById(ledger, courseId).store, courseId).reply == Refused(CourseNotFound)
  {
  }

  /** An update that succeeds is what a read returns afterwards, and it
      leaves the number of courses unchanged. */
  lemma UpdateThenGet(ledger: Courses, courseId: string, c: Course)
    requires UpdateCourseById(ledger, courseId, Parsed(c)).reply.Empty?
    ensures GetCourseById(UpdateCourseById(ledger, courseId, Parsed(c)).store, courseId) == Some(c)
    ensures |UpdateCourseById(ledger, courseId, Parsed(c)).store| == |ledger|
  {
    var s := UpdateCourseById(ledger, courseId, Parsed(c)).store;
    assert s.Keys == ledger.Keys;
  }

  /** The finding: under the guards as written no course can ever be added
      or updated, while the intended guards accept exactly the valid ones. */
  lemma NullGuardRefusesValidCourses(ledger: Courses, c: Course)
    requires CourseValid(c) && Present(ledger, c.courseId.value)
    ensures AddCourseAsWritten(ledger, Parsed(c)).reply == Refused(InvalidParams([]))
    ensures AddCourse(ledger, Parsed(c)).reply == Empty
    ensures UpdateCourseByIdAsWritten(ledger, c.courseId.value, Parsed(c)).reply == Refused(Listed([]))
    ensures UpdateCourseById(ledger, c.courseId.value, Parsed(c)).reply == Empty
  {
  }
}
