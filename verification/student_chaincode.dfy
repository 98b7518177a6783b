/** The Student transactions: each is a short decision sequence over the
    ledger that returns "" (here `Empty`), a record, an error envelope, or
    aborts with an exception. */
module StudentChaincode {
  import opened Wrappers
  import opened Errors
  import opened Codec
  import opened Ledger
  import opened StudentValidator
  import opened StudentValidity

  type Students = Store<Student>

  const NoStudentTitle := "There is no student for the given matriculationId."

  const ParseFailure := Detailed("Unprocessable Entity", FormatTitle, [])
  const Conflict := Detailed("Conflict", "There is already a student for the given matriculationId.", [])
  /** `deleteStudent` spells its type with a lower-case "found" ... */
  const DeleteNotFound := Detailed("Not found", NoStudentTitle, [])
  /** ... `updateStudent` and `getStudent` with an upper-case one. */
  const NotFound := Detailed("Not Found", NoStudentTitle, [])

  function Unprocessable(params: seq<InvalidParameter>): ErrorDoc {
    Detailed("Unprocessable Entity", FormatTitle, params)
  }

  /** `immatriculateStudent` as the code reads. `getStringState` builds a
      new string from the bytes it reads, an empty array for a missing key,
      so the result is never the interned literal and `result != ""`
      compares references that always differ. Every decoded student with an
      id therefore meets an "existing" student, whatever the ledger holds. */
  function ImmatriculateStudentAsWritten(ledger: Students, input: Decoded<Student>): (t: Tx<Student, Student>)
    ensures t.store == ledger
    ensures input.Malformed? ==> t.reply == Refused(ParseFailure)
    ensures input.Parsed? && input.value.matriculationId.Some? ==> t.reply == Refused(Conflict)
  {
    match input
    case Malformed => Tx(ledger, Refused(ParseFailure))
    case JsonNull => Tx(ledger, Aborted(NullPointer))
    case Parsed(s) =>
      match s.matriculationId
      case None => Tx(ledger, Aborted(NullPointer))   // the host rejects a null key
      case Some(_) => Tx(ledger, Refused(Conflict))
  }

  /** `immatriculateStudent` with the existence test it evidently intends
      (the one the other transactions use: missing or blank): decode inside
      a try block, then the existence check, then validation, then the
      write. */
  function ImmatriculateStudent(ledger: Students, input: Decoded<Student>): (t: Tx<Student, Student>)
    ensures !t.reply.Empty? ==> t.store == ledger
    ensures !t.reply.Value?
    ensures input.Malformed? ==> t.reply == Refused(ParseFailure)
    ensures input.JsonNull? ==> t.reply == Aborted(NullPointer)
    ensures input.Parsed? && input.value.matriculationId.Some? && Present(ledger, input.value.matriculationId.value) ==>
              t.reply == Refused(Conflict)
    ensures input.Parsed? && input.value.matriculationId.Some? && !Present(ledger, input.value.matriculationId.value) ==>
              match StudentErrors(input.value)
              case Thrown(e) => t.reply == Aborted(e)
              case Violations(ps) => ps != [] ==> t.reply == Refused(Unprocessable(ps))
    ensures t.reply.Empty? <==>
              input.Parsed? && StudentValid(input.value) && !Present(ledger, input.value.matriculationId.value)
    ensures t.reply.Empty? ==>
              t.store == ledger[input.value.matriculationId.value := Doc(input.value)]
  {
    match input
    case Malformed => Tx(ledger, Refused(ParseFailure))
    case JsonNull => Tx(ledger, Aborted(NullPointer))
    case Parsed(s) =>
      StudentPassesIff(s);
      match s.matriculationId
      case None => Tx(ledger, Aborted(NullPointer))   // the host rejects a null key
      case Some(id) =>
        if Present(ledger, id) then Tx(ledger, Refused(Conflict))
        else
          match StudentErrors(s)
          case Thrown(e) => Tx(ledger, Aborted(e))
          case Violations(ps) =>
            if ps != [] then Tx(ledger, Refused(Unprocessable(ps)))
            else Tx(ledger[id := Doc(s)], Empty)
  }

  /** `updateStudent`: decode (outside any try block), validate, then the
      existence check, then overwrite under the same key. */
  function UpdateStudent(ledger: Students, input: Decoded<Student>): (t: Tx<Student, Student>)
    ensures !t.reply.Empty? ==> t.store == ledger
    ensures !t.reply.Value?
    ensures input.Malformed? ==> t.reply == Aborted(JsonSyntax)
    ensures input.Parsed? && StudentErrors(input.value).Violations? && StudentErrors(input.value).params != [] ==>
              t.reply == Refused(Unprocessable(StudentErrors(input.value).params))
    ensures input.Parsed? && StudentCrashes(input.value) ==> t.reply.Aborted?
    ensures input.Parsed? && StudentValid(input.value) && !Present(ledger, input.value.matriculationId.value) ==>
              t.reply == Refused(NotFound)
    ensures t.reply.Empty? <==>
              input.Parsed? && StudentValid(input.value) && Present(ledger, input.value.matriculationId.value)
    ensures t.reply.Empty? ==>
              && t.store.Keys == ledger.Keys
              && t.store[input.value.matriculationId.value] == Doc(input.value)
              && forall k | k in ledger && k != input.value.matriculationId.value :: t.store[k] == ledger[k]
  {
    match input
    case Malformed => Tx(ledger, Aborted(JsonSyntax))
    case JsonNull => Tx(ledger, Aborted(NullPointer))
    case Parsed(s) =>
      StudentPassesIff(s);
      StudentThrowsIff(s);
      match StudentErrors(s)
      case Thrown(e) => Tx(ledger, Aborted(e))
      case Violations(ps) =>
        if ps != [] then Tx(ledger, Refused(Unprocessable(ps)))
        else
          match s.matriculationId
          case None => Tx(ledger, Aborted(NullPointer))
          case Some(id) =>
            if !Present(ledger, id) then Tx(ledger, Refused(NotFound))
            else Tx(ledger[id := Doc(s)], Empty)
  }

  /** `deleteStudent`. */
  function DeleteStudent(ledger: Students, matriculationId: string): (t: Tx<Student, Student>)
    ensures t.reply.Empty? <==> Present(ledger, matriculationId)
    ensures !t.reply.Empty? ==> t.reply == Refused(DeleteNotFound) && t.store == ledger
    ensures t.reply.Empty? ==>
              && t.store.Keys == ledger.Keys - {matriculationId}
              && forall k | k in t.store :: t.store[k] == ledger[k]
  {
    if !Present(ledger, matriculationId) then Tx(ledger, Refused(DeleteNotFound))
    else Tx(ledger - {matriculationId}, Empty)
  }

  /** `getStudent` / `getStudentByMatriculationId`: a blank or missing state
      decodes to null and is reported as not found. */
  function GetStudent(ledger: Students, matriculationId: string): (r: Reply<Student>)
    ensures r.Value? <==> Present(ledger, matriculationId)
    ensures r.Value? ==> ledger[matriculationId] == Doc(r.value)
    ensures !r.Value? ==> r == Refused(NotFound)
  {
    if Present(ledger, matriculationId) then Value(ledger[matriculationId].doc) else Refused(NotFound)
  }

  /** The `getAllStudents` selector: documents with a string
      `matriculationId`. */
  predicate HasMatriculationId(s: Student) {
    s.matriculationId.Some?
  }

  /** `getAllStudents`: the selector matches documents whose
      `matriculationId` is a string. */
  function GetAllStudents(ledger: Students, order: seq<string>): (r: seq<Student>)
    ensures forall s :: s in r ==> s.matriculationId.Some? && exists k :: k in ledger && ledger[k] == Doc(s)
    ensures forall k | k in order && Present(ledger, k) && ledger[k].doc.matriculationId.Some? ::
              ledger[k].doc in r
  {
    var all := Select(ledger, order, HasMatriculationId);
    assert forall i | 0 <= i < |order| :: order[i] in order;
    all
  }

  // ---------------------------------------------------------------------
  // Transactions in sequence

  /** A student just immatriculated can be read back unchanged. */
  lemma ImmatriculateThenGet(ledger: Students, s: Student)
    requires ImmatriculateStudent(ledger, Parsed(s)).reply.Empty?
    ensures GetStudent(ImmatriculateStudent(ledger, Parsed(s)).store, s.matriculationId.value) == Value(s)
  {
  }

  /** Once immatriculated, the key refuses every further immatriculation,
      valid or not. */
  lemma ImmatriculateTwiceConflicts(ledger: Students, s: Student, other: Student)
    requires ImmatriculateStudent(ledger, Parsed(s)).reply.Empty?
    requires other.matriculationId == s.matriculationId
    ensures ImmatriculateStudent(ImmatriculateStudent(ledger, Parsed(s)).store, Parsed(other)).reply == Refused(Conflict)
  {
  }

  /** After a delete the record is gone: reading it and deleting it again
      both report not found. */
  lemma DeleteThenGet(ledger: Students, id: string)
    requires DeleteStudent(ledger, id).reply.Empty?
    ensures GetStudent(DeleteStudent(ledger, id).store, id) == Refused(NotFound)
    ensures DeleteStudent(DeleteStudent(ledger, id).store, id).reply == Refused(DeleteNotFound)
  {
  }

  /** An update replaces what a later read returns. */
  lemma UpdateThenGet(ledger: Students, s: Student)
    requires UpdateStudent(ledger, Parsed(s)).reply.Empty?
    ensures GetStudent(UpdateStudent(ledger, Parsed(s)).store, s.matriculationId.value) == Value(s)
  {
  }

  /** Every stored value is a student document filed under its own
      matriculation id. */
  predicate KeyedById(ledger: Students) {
    forall k | k in ledger :: ledger[k].Doc? && ledger[k].doc.matriculationId == Some(k)
  }

  /** The writing transactions keep every record under its own id. */
  lemma TransactionsKeepKeyedById(ledger: Students, id: string, input: Decoded<Student>)
    requires KeyedById(ledger)
    ensures KeyedById(ImmatriculateStudent(ledger, input).store)
    ensures KeyedById(UpdateStudent(ledger, input).store)
    ensures KeyedById(DeleteStudent(ledger, id).store)
  {
    if input.Parsed? && input.value.matriculationId.Some? {
      WriteKeepsKeyedById(ledger, input.value);
    }
  }

  lemma WriteKeepsKeyedById(ledger: Students, s: Student)
    requires KeyedById(ledger) && s.matriculationId.Some?
    ensures KeyedById(ledger[s.matriculationId.value := Doc(s)])
  {
  }

  /** On such a ledger `getAllStudents` lists every record, one per key. */
  lemma GetAllStudentsListsEveryKey(ledger: Students, order: seq<string>)
    requires KeyedById(ledger) && IsListing(ledger, order)
    ensures |GetAllStudents(ledger, order)| == |ledger|
    ensures forall k | k in ledger :: ledger[k].doc in GetAllStudents(ledger, order)
  {
    SelectAll(ledger, order, HasMatriculationId);
  }

  /** The finding: the reference comparison refuses every student, on an
      empty ledger as on any other, while the intended test admits every
      valid student whose id is missing or blank. */
  lemma ReferenceGuardRefusesEveryStudent(ledger: Students, s: Student)
    requires StudentValid(s)
    ensures ImmatriculateStudentAsWritten(ledger, Parsed(s)) == Tx(ledger, Refused(Conflict))
    ensures !Present(ledger, s.matriculationId.value) ==>
              ImmatriculateStudent(ledger, Parsed(s)) == Tx(ledger[s.matriculationId.value := Doc(s)], Empty)
    ensures ImmatriculateStudent(map[], Parsed(s)) == Tx(map[s.matriculationId.value := Doc(s)], Empty)
  {
  }
}
