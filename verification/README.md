# UC4 chaincode: Student, Course and Lecture contracts

This project models the Hyperledger Fabric chaincode of the UC4 university
platform. The chaincode is the code that runs inside the ledger peer and
decides, for one transaction at a time, what is written to the world state.
It has three contracts.

- **Student** (`StudentChaincode`): immatriculate, update, delete, read and
  list student records. A record is stored under its `matriculationId`. Before
  any write, `getErrorForStudent` checks it and collects an ordered list of
  invalid parameters. The checks cover header fields, the matriculation
  status entries, each entry's field of study (no field twice), and each
  interval's semester tokens (`WS2020`, `SS2021`): their format, their
  chronological order, and whether they start before the birth year.
- **Course** (`CourseChaincode`): add, update, delete, read and list courses
  keyed by `courseId`. `getErrorForCourse` runs nine field checks in a fixed
  order.
- **Lecture** (`LectureChaincode`): a demonstration contract. It seeds two
  lectures, lists them, and renames lecture ids in bulk.

The ledger is a map from keys to stored values (`Ledger.Store`). A stored
value is a document or the empty string (`Blank`). "Present" means the
source's `!= null && !equals("")`. Each transaction is a pure function from
the ledger and the decoded input to a `Tx`, which holds the ledger after the
transaction and the reply: `Empty` (the source's `""`), a record, an error
envelope, or a Java exception. An exception aborts the transaction, so its
store is the old one. JSON decoding is summarised by `Codec.Decoded`: the
text does not parse, it parses to `null`, or it parses to a record. A field
that is missing or undecodable is `None`.

`Integer.parseInt` (over ASCII digits), `substring(2)` (over UTF-16 code
units, `JavaString`) and the `(WS|SS)\d{4}` pattern are modelled closely
enough to tell which of a null pointer, an index and a number-format
exception the student validator throws. The code behaves as follows where a
reader might expect otherwise:

- `addCourse` has no existence check, so it overwrites a stored course.
- `getCourseById` returns JSON `null` for a missing course; only `deleteCourseById` and `updateCourseById` answer "Course not found".
- `matches()` requires the whole token to be six characters, so `"WS2020/21"` is malformed.
- Only the first semester of an interval is compared with the birth year.
- A null token, interval list or course string raises an exception, which aborts the transaction, instead of producing an invalid-parameter entry.

## Model

| member | source | states |
|---|---|---|
| Numerals.ParseInt | product_code/hyperledger/chaincode/src/main/java/de/upb/cs/uc4/chaincode/StudentChaincode.java:225-226 | Some exactly for an optionally signed run of ASCII digits whose value lies in the 32-bit range, as `Integer.parseInt` accepts; the value is in range |
| Numerals.ParseIntValue | product_code/hyperledger/chaincode/src/main/java/de/upb/cs/uc4/chaincode/StudentChaincode.java:225-226 | for any run of digits, `parseInt` returns the digits' value when it fits, the same value after a '+', and its negation after a '-' when that fits; otherwise it throws |
| Numerals.ParsePlus | product_code/hyperledger/chaincode/src/main/java/de/upb/cs/uc4/chaincode/StudentChaincode.java:225-226 | a '+' before a run of digits changes neither the value `parseInt` returns nor whether it throws |
| Numerals.ParseMinus | product_code/hyperledger/chaincode/src/main/java/de/upb/cs/uc4/chaincode/StudentChaincode.java:225-226 | a '-' before a run of digits yields the negated value, accepted down to -2147483648 and refused below it |
| Numerals.LeadingZero | product_code/hyperledger/chaincode/src/main/java/de/upb/cs/uc4/chaincode/StudentChaincode.java:226 | a leading zero does not change the value a digit run stands for |
| Numerals.ParseShowRoundTrip | product_code/hyperledger/chaincode/src/main/java/de/upb/cs/uc4/chaincode/StudentChaincode.java:225-226 | parsing the decimal text of any 32-bit integer gives that integer back |
| Numerals.DigitsValueInjective | product_code/hyperledger/chaincode/src/main/java/de/upb/cs/uc4/chaincode/StudentChaincode.java:225 | two digit strings of equal length with equal value are equal, so a year pins down its four digits |
| Semester.SemesterFormatValid | product_code/hyperledger/chaincode/src/main/java/de/upb/cs/uc4/chaincode/StudentChaincode.java:271-275 | the whole-string match of `^(WS\|SS)\d{4}`: exactly six characters, W or S, then S, then four digits |
| Semester.SemesterYear | product_code/hyperledger/chaincode/src/main/java/de/upb/cs/uc4/chaincode/StudentChaincode.java:225-226 | `parseInt(s.substring(2))` yields an int and can fail only with the index or the number-format exception |
| Semester.SemesterYearReadsRest | product_code/hyperledger/chaincode/src/main/java/de/upb/cs/uc4/chaincode/StudentChaincode.java:225-226 | the index exception exactly when the token has fewer than two UTF-16 code units; a year exactly when the units after the second spell an int numeral, and then that numeral's value |
| JavaString.Substring2CutsTwoUnits | product_code/hyperledger/chaincode/src/main/java/de/upb/cs/uc4/chaincode/StudentChaincode.java:226 | `substring(2)` throws exactly for fewer than two code units, yields no string exactly when the cut splits a surrogate pair, and otherwise yields the string of every unit after the second |
| JavaString.UnitsInjective | product_code/hyperledger/chaincode/src/main/java/de/upb/cs/uc4/chaincode/StudentChaincode.java:226 | two strings with the same UTF-16 code units are the same string |
| JavaString.RestUnique | product_code/hyperledger/chaincode/src/main/java/de/upb/cs/uc4/chaincode/StudentChaincode.java:226 | any string whose code units are those after the second is the one `substring(2)` returns |
| Semester.Year | product_code/hyperledger/chaincode/src/main/java/de/upb/cs/uc4/chaincode/StudentChaincode.java:247 | the year of a well-formed token is at most 9999 and is what `parseInt(substring(2))` returns |
| Semester.Ordinal | product_code/hyperledger/chaincode/src/main/java/de/upb/cs/uc4/chaincode/StudentChaincode.java:228-242 | position on the time line: twice the year, plus one for a winter term |
| Semester.OrdinalInjective | product_code/hyperledger/chaincode/src/main/java/de/upb/cs/uc4/chaincode/StudentChaincode.java:228-242 | two well-formed tokens at the same position are the same token |
| Semester.BeforeIsStrictTotalOrder | product_code/hyperledger/chaincode/src/main/java/de/upb/cs/uc4/chaincode/StudentChaincode.java:228-242 | chronological order of well-formed tokens is irreflexive, transitive and total on distinct tokens |
| Semester.BeforeByYearThenSeason | product_code/hyperledger/chaincode/src/main/java/de/upb/cs/uc4/chaincode/StudentChaincode.java:228-242 | a term comes before another exactly when its year is earlier, or the year is equal and it is the summer term while the other is the winter term |
| Semester.FormatExamples | product_code/hyperledger/chaincode/src/main/java/de/upb/cs/uc4/chaincode/StudentChaincode.java:271-275 | "WS2020" and "SS2020" match; "WWS2018", "SS20200", "WS2020/21" and "" do not |
| StudentValidator.IntervalErrors | product_code/hyperledger/chaincode/src/main/java/de/upb/cs/uc4/chaincode/StudentChaincode.java:210-263 | an interval that does not throw had both tokens non-null, and yields at most four violations, since a well-formed first token is non-empty and a malformed one skips the chronology and birth-year checks |
| StudentValidator.StudentErrors | product_code/hyperledger/chaincode/src/main/java/de/upb/cs/uc4/chaincode/StudentChaincode.java:157-186 | the header violations (id, first name, last name, birth date) come first in the list; a missing or empty status list adds exactly the status violation after them |
| StudentValidity.IntervalThrowsIff | product_code/hyperledger/chaincode/src/main/java/de/upb/cs/uc4/chaincode/StudentChaincode.java:213-263 | one interval throws exactly when a token is null, or when the first token is well formed and the last is too short for `substring(2)` or is not numeric after it |
| StudentValidity.IntervalChronology | product_code/hyperledger/chaincode/src/main/java/de/upb/cs/uc4/chaincode/StudentChaincode.java:223-242 | for a well-formed first token and a numeric last token, chronology is reported exactly when the first year is later, or the years are equal with a winter first and an "SS" last; it is reported at most once |
| StudentValidity.IntervalChronologyOfValid | product_code/hyperledger/chaincode/src/main/java/de/upb/cs/uc4/chaincode/StudentChaincode.java:223-242 | for two well-formed tokens, chronology is reported exactly when the last term comes before the first |
| StudentValidity.IntervalBirthYear | product_code/hyperledger/chaincode/src/main/java/de/upb/cs/uc4/chaincode/StudentChaincode.java:245-253 | for an interval that does not throw, the birth-date violation appears exactly when the first token is well formed, the birth date is known and its year is later than the token's year |
| StudentValidity.IntervalInRuleOrder | product_code/hyperledger/chaincode/src/main/java/de/upb/cs/uc4/chaincode/StudentChaincode.java:213-263 | an interval that does not throw lists violations in the order first-empty, last-empty, chronology, birth date, first format, last format, each at most once, and nothing else |
| StudentValidity.IntervalEmptinessAndFormat | product_code/hyperledger/chaincode/src/main/java/de/upb/cs/uc4/chaincode/StudentChaincode.java:213-263 | for an interval that does not throw: first-empty iff the first token is "", last-empty iff the last is "", and each format violation iff that token misses the pattern |
| StudentValidity.IntervalPassesIff | product_code/hyperledger/chaincode/src/main/java/de/upb/cs/uc4/chaincode/StudentChaincode.java:213-263 | an interval yields no violation exactly when both tokens are well formed, in order, and not before the birth year |
| StudentValidity.IntervalsPassIff | product_code/hyperledger/chaincode/src/main/java/de/upb/cs/uc4/chaincode/StudentChaincode.java:210-264 | an interval list yields no violation exactly when every interval is valid |
| StudentValidity.IntervalsThrowIff | product_code/hyperledger/chaincode/src/main/java/de/upb/cs/uc4/chaincode/StudentChaincode.java:210-264 | an interval list throws exactly when some interval crashes |
| StudentValidity.EntryPassesIff | product_code/hyperledger/chaincode/src/main/java/de/upb/cs/uc4/chaincode/StudentChaincode.java:191-264 | one status entry yields nothing exactly when it names a field not yet recorded and has a non-empty list of valid intervals |
| StudentValidity.EntryThrowsIff | product_code/hyperledger/chaincode/src/main/java/de/upb/cs/uc4/chaincode/StudentChaincode.java:205-264 | one entry throws exactly when its interval list is null or one of its intervals crashes |
| StudentValidity.StatusPassesIff | product_code/hyperledger/chaincode/src/main/java/de/upb/cs/uc4/chaincode/StudentChaincode.java:189-265 | the entry loop yields nothing exactly when every remaining entry is valid, names no field already recorded, and the remaining fields are pairwise distinct |
| StudentValidity.StatusThrowsIff | product_code/hyperledger/chaincode/src/main/java/de/upb/cs/uc4/chaincode/StudentChaincode.java:189-265 | the entry loop throws exactly when some remaining entry crashes |
| StudentValidity.StudentPassesIff | product_code/hyperledger/chaincode/src/main/java/de/upb/cs/uc4/chaincode/StudentChaincode.java:157-269 | the validator returns the empty list exactly for the students every rule accepts |
| StudentValidity.StudentThrowsIff | product_code/hyperledger/chaincode/src/main/java/de/upb/cs/uc4/chaincode/StudentChaincode.java:157-269 | the validator throws exactly when the status list is non-empty and some entry has a null interval list or a crashing interval |
| StudentValidity.ExistingIsEarlierFields | product_code/hyperledger/chaincode/src/main/java/de/upb/cs/uc4/chaincode/StudentChaincode.java:189-203 | the recorded fields are exactly the fields named by earlier entries, each recorded once |
| StudentValidity.DuplicateFieldIff | product_code/hyperledger/chaincode/src/main/java/de/upb/cs/uc4/chaincode/StudentChaincode.java:193-203 | entry i gets the empty-field violation exactly when it names no field, and the duplicate violation exactly when an earlier entry names the same field; otherwise the field check passes |
| StudentValidity.StatusIsEntryVerdicts | product_code/hyperledger/chaincode/src/main/java/de/upb/cs/uc4/chaincode/StudentChaincode.java:191-265 | the entry loop's result is every entry's verdict concatenated in list order, so a violated entry never stops the loop |
| StudentScenarios.FirstSemesterBeforeBirthDate | product_code/hyperledger/chaincode/src/test/java/de/upb/cs/uc4/chaincode/StudentChaincodeTest.java:1363-1400 | born 2020 with first semester WS2018: exactly the birth-date violation |
| StudentScenarios.ChronologicallyInvalidYears | product_code/hyperledger/chaincode/src/test/java/de/upb/cs/uc4/chaincode/StudentChaincodeTest.java:1284-1323 | WS2020 to SS2018: exactly the chronology violation |
| StudentScenarios.ChronologicallyInvalidSemesters | product_code/hyperledger/chaincode/src/test/java/de/upb/cs/uc4/chaincode/StudentChaincodeTest.java:1324-1362 | WS2020 to SS2020: exactly the chronology violation |
| StudentScenarios.DuplicateFieldOfStudy | product_code/hyperledger/chaincode/src/test/java/de/upb/cs/uc4/chaincode/StudentChaincodeTest.java:1401-1445 | two Computer Science entries: exactly one duplicate violation, for the second entry |
| StudentScenarios.InvalidLastSemester | product_code/hyperledger/chaincode/src/test/java/de/upb/cs/uc4/chaincode/StudentChaincodeTest.java:1246-1283 | last semester "SS20200": only the last-semester format violation, because its year still parses |
| StudentScenarios.InvalidFirstSemester | product_code/hyperledger/chaincode/src/test/java/de/upb/cs/uc4/chaincode/StudentChaincodeTest.java:1208-1245 | first semester "WWS2018": only the first-semester format violation |
| StudentScenarios.MalformedNumericToken | product_code/hyperledger/chaincode/src/main/java/de/upb/cs/uc4/chaincode/StudentChaincode.java:226 | "SS20200" is malformed but `parseInt(substring(2))` reads it as 20200 |
| StudentScenarios.SingleSemesterInterval | product_code/hyperledger/chaincode/src/main/java/de/upb/cs/uc4/chaincode/StudentChaincode.java:235-242 | WS2018 to WS2018 is accepted: equal terms are not out of order |
| StudentScenarios.EmptyLists | product_code/hyperledger/chaincode/src/test/java/de/upb/cs/uc4/chaincode/StudentChaincodeTest.java:1107-1169 | an empty interval list and an empty status list each give exactly their one violation |
| StudentScenarios.EmptyTokens | product_code/hyperledger/chaincode/src/main/java/de/upb/cs/uc4/chaincode/StudentChaincode.java:213-263 | both tokens empty: first-empty, last-empty, first format, last format, in that order |
| StudentScenarios.SupplementaryCharacters | product_code/hyperledger/chaincode/src/main/java/de/upb/cs/uc4/chaincode/StudentChaincode.java:226 | an emoji before "2021" is two code units, so the year is 2021; an emoji alone or in second place leaves no numeral; "W" is too short |
| StudentScenarios.SupplementaryLastSemester | product_code/hyperledger/chaincode/src/main/java/de/upb/cs/uc4/chaincode/StudentChaincode.java:223-263 | WS2020 to an emoji followed by 2021: the year 2021 is not earlier, so only the last-format violation |
| StudentScenarios.SignedAndPaddedYears | product_code/hyperledger/chaincode/src/main/java/de/upb/cs/uc4/chaincode/StudentChaincode.java:226 | "SS+2019" and "SS02019" read as 2019 and "SS-0" as 0 |
| StudentScenarios.SignedLastSemester | product_code/hyperledger/chaincode/src/main/java/de/upb/cs/uc4/chaincode/StudentChaincode.java:223-263 | WS2020 to "SS+2019": the signed year is read and is earlier, so chronology and last format are reported |
| StudentChaincode.ImmatriculateStudentAsWritten | product_code/hyperledger/chaincode/src/main/java/de/upb/cs/uc4/chaincode/StudentChaincode.java:60-65 | with the reference comparison against "", every decoded student with an id gets Conflict, whatever the ledger holds; the ledger never changes |
| StudentChaincode.ImmatriculateStudent | product_code/hyperledger/chaincode/src/main/java/de/upb/cs/uc4/chaincode/StudentChaincode.java:43-78 | unparsable text gives the format error; null gives an exception; an existing id gives Conflict before validation; violations are reported; success exactly for a valid student whose id is absent, and it writes the record under its id; nothing is written otherwise |
| StudentChaincode.UpdateStudent | product_code/hyperledger/chaincode/src/main/java/de/upb/cs/uc4/chaincode/StudentChaincode.java:115-139 | unparsable text throws; validation comes before the existence check; an absent id gives Not Found; success exactly for a valid student whose id is present, and it replaces only that record |
| StudentChaincode.DeleteStudent | product_code/hyperledger/chaincode/src/main/java/de/upb/cs/uc4/chaincode/StudentChaincode.java:100-112 | success exactly when the id is present; then only that key is removed; otherwise "Not found" and no change |
| StudentChaincode.GetStudent | product_code/hyperledger/chaincode/src/main/java/de/upb/cs/uc4/chaincode/StudentChaincode.java:142-155 | the stored record exactly when the id is present, otherwise "Not Found" |
| StudentChaincode.GetAllStudents | product_code/hyperledger/chaincode/src/main/java/de/upb/cs/uc4/chaincode/StudentChaincode.java:81-92 | every listed record is a stored document with a matriculation id, and every such document is listed |
| StudentChaincode.GetAllStudentsListsEveryKey | product_code/hyperledger/chaincode/src/main/java/de/upb/cs/uc4/chaincode/StudentChaincode.java:85-91 | on a ledger the transactions wrote, the query returns one record per key, covering every key |
| StudentChaincode.TransactionsKeepKeyedById | product_code/hyperledger/chaincode/src/main/java/de/upb/cs/uc4/chaincode/StudentChaincode.java:43-139 | immatriculate, update and delete keep every stored student under its own matriculation id |
| StudentChaincode.ImmatriculateThenGet | product_code/hyperledger/chaincode/src/main/java/de/upb/cs/uc4/chaincode/StudentChaincode.java:76 | a student just immatriculated reads back unchanged |
| StudentChaincode.ImmatriculateTwiceConflicts | product_code/hyperledger/chaincode/src/main/java/de/upb/cs/uc4/chaincode/StudentChaincode.java:60-65 | after an immatriculation, any further immatriculation with the same id gives Conflict, valid or not |
| StudentChaincode.DeleteThenGet | product_code/hyperledger/chaincode/src/main/java/de/upb/cs/uc4/chaincode/StudentChaincode.java:100-112 | after a delete, a read and a second delete both report not found |
| StudentChaincode.UpdateThenGet | product_code/hyperledger/chaincode/src/main/java/de/upb/cs/uc4/chaincode/StudentChaincode.java:136-137 | after an update, a read returns the new record |
| StudentChaincode.ReferenceGuardRefusesEveryStudent | product_code/hyperledger/chaincode/src/main/java/de/upb/cs/uc4/chaincode/StudentChaincode.java:60-61 | every valid student is refused as written, an empty ledger included, while the intended test writes it whenever its id is missing or blank |
| CourseValidator.CourseErrors | product_code/hyperledger/chaincode/src/main/java/de/upb/cs/uc4/chaincode/CourseChaincode.java:137-187 | throws a null-pointer exception exactly when the id, name or lecturer id is null; otherwise at most nine violations |
| CourseValidity.RuleReportedIff | product_code/hyperledger/chaincode/src/main/java/de/upb/cs/uc4/chaincode/CourseChaincode.java:141-184 | each check's violation is in the list exactly when that check fails |
| CourseValidity.FieldViolationsIff | product_code/hyperledger/chaincode/src/main/java/de/upb/cs/uc4/chaincode/CourseChaincode.java:141-184 | per field: an empty id, name or lecturer id; a missing type, start date, end date or language; ects missing or below 1; a participant limit missing or negative; each gives exactly its own violation |
| CourseValidity.CoursePassesIff | product_code/hyperledger/chaincode/src/main/java/de/upb/cs/uc4/chaincode/CourseChaincode.java:137-187 | the list is empty exactly for a course every field check accepts |
| CourseValidity.UncheckedFields | product_code/hyperledger/chaincode/src/main/java/de/upb/cs/uc4/chaincode/CourseChaincode.java:137-187 | `currentParticipants` and `courseDescription` never change the result |
| CourseValidity.OnlyFailure | product_code/hyperledger/chaincode/src/main/java/de/upb/cs/uc4/chaincode/CourseChaincode.java:137-187 | when exactly one check fails, its violation is the whole list |
| CourseValidity.EmptyStringField | product_code/hyperledger/chaincode/src/main/java/de/upb/cs/uc4/chaincode/CourseChaincode.java:141-174 | emptying the id, name or lecturer id of a valid course gives exactly that field's violation |
| CourseValidity.UndecodedField | product_code/hyperledger/chaincode/src/main/java/de/upb/cs/uc4/chaincode/CourseChaincode.java:151-184 | an undecodable type, start date, end date or language in a valid course gives exactly that field's violation |
| CourseValidity.NumericBounds | product_code/hyperledger/chaincode/src/main/java/de/upb/cs/uc4/chaincode/CourseChaincode.java:166-179 | ects 0 or missing, and a participant limit of -1, each give exactly their violation; a participant limit of 0 passes |
| CourseChaincode.AddCourseAsWritten | product_code/hyperledger/chaincode/src/main/java/de/upb/cs/uc4/chaincode/CourseChaincode.java:54-60 | the `!= null` guard refuses every course: nothing is ever written, and a valid course gets an empty invalid-parameter envelope |
| CourseChaincode.AddCourse | product_code/hyperledger/chaincode/src/main/java/de/upb/cs/uc4/chaincode/CourseChaincode.java:44-65 | unparsable text gives the parser error; null throws; a null string field throws; violations come in the "invalidPamameter" envelope; success exactly for a valid course, and it writes the record under its id whether or not one exists |
| CourseChaincode.UpdateCourseByIdAsWritten | product_code/hyperledger/chaincode/src/main/java/de/upb/cs/uc4/chaincode/CourseChaincode.java:119-121 | the `!= null` guard returns the violation list for every course whose id matches, even an empty list; nothing is written |
| CourseChaincode.UpdateCourseById | product_code/hyperledger/chaincode/src/main/java/de/upb/cs/uc4/chaincode/CourseChaincode.java:105-130 | unparsable text and null throw; a body id that differs from the path id (or is null) gives the mismatch error before validation; violations come next; then "Course not found"; success exactly for a valid body under the path id that is present, and it replaces only that record |
| CourseChaincode.DeleteCourseById | product_code/hyperledger/chaincode/src/main/java/de/upb/cs/uc4/chaincode/CourseChaincode.java:92-102 | success exactly when the id is present; then only that key is removed; otherwise "Course not found"; no other value changes |
| CourseChaincode.GetCourseById | product_code/hyperledger/chaincode/src/main/java/de/upb/cs/uc4/chaincode/CourseChaincode.java:82-84 | the stored course exactly when the id is present, otherwise JSON null |
| CourseChaincode.GetAllCourses | product_code/hyperledger/chaincode/src/main/java/de/upb/cs/uc4/chaincode/CourseChaincode.java:68-79 | every listed course is a stored document with a course id, and every such document is listed |
| CourseChaincode.GetAllCoursesListsEveryKey | product_code/hyperledger/chaincode/src/main/java/de/upb/cs/uc4/chaincode/CourseChaincode.java:72-78 | on a ledger the transactions wrote, the query returns one course per key, covering every key |
| CourseChaincode.TransactionsKeepKeyedById | product_code/hyperledger/chaincode/src/main/java/de/upb/cs/uc4/chaincode/CourseChaincode.java:63 | add, update and delete keep every stored course under its own id |
| CourseChaincode.AddThenGet | product_code/hyperledger/chaincode/src/main/java/de/upb/cs/uc4/chaincode/CourseChaincode.java:63-64 | a course just added reads back unchanged under its id |
| CourseChaincode.AddCourseOverwrites | product_code/hyperledger/chaincode/src/main/java/de/upb/cs/uc4/chaincode/CourseChaincode.java:44-65 | adding a valid course under an id in use succeeds and replaces the stored record, keeping the key set |
| CourseChaincode.DeleteThenGet | product_code/hyperledger/chaincode/src/main/java/de/upb/cs/uc4/chaincode/CourseChaincode.java:92-102 | after a delete the id reads as null, and a second delete gives "Course not found" |
| CourseChaincode.UpdateThenGet | product_code/hyperledger/chaincode/src/main/java/de/upb/cs/uc4/chaincode/CourseChaincode.java:127-129 | after an update, a read returns the new course, and the number of courses is unchanged |
| CourseChaincode.NullGuardRefusesValidCourses | product_code/hyperledger/chaincode/src/main/java/de/upb/cs/uc4/chaincode/CourseChaincode.java:56-60 | for a valid, stored course, add and update as written refuse it, while the intended guards accept it |
| LectureChaincode.InitLedger | product_code/hyperledger/chaincode/src/main/java/LectureChaincode.java:24-35 | the two seed lectures are written under keys "0" and "1"; every other key keeps its value |
| LectureChaincode.SeedKeys | product_code/hyperledger/chaincode/src/main/java/LectureChaincode.java:32 | `String.format("%d", i)` gives "0" and "1" for the two seed positions |
| LectureChaincode.QueryAll | product_code/hyperledger/chaincode/src/main/java/LectureChaincode.java:38-56 | every listed lecture is a stored document with an id, and every such document is listed |
| LectureChaincode.InitThenQueryAll | product_code/hyperledger/chaincode/src/main/java/LectureChaincode.java:24-56 | after seeding an empty ledger, the query returns exactly the two seed lectures |
| LectureChaincode.RenameAll | product_code/hyperledger/chaincode/src/main/java/LectureChaincode.java:59-70 | renaming keeps the set of keys |
| LectureChaincode.ChangeLectureId | product_code/hyperledger/chaincode/src/main/java/LectureChaincode.java:59-70 | the loop rewrites each listed document whose id is the old id, under its own key, and changes nothing else; over a full listing this is `RenameAll` |
| LectureChaincode.RenameAllChangesOnlyIds | product_code/hyperledger/chaincode/src/main/java/LectureChaincode.java:65-69 | lecturers and non-matching records are untouched; matching records get the new id; when the ids differ, no record keeps the old id |
| LectureChaincode.RenameAllIdempotent | product_code/hyperledger/chaincode/src/main/java/LectureChaincode.java:59-70 | a second identical rename changes nothing |
| LectureChaincode.RenameBackMerges | product_code/hyperledger/chaincode/src/main/java/LectureChaincode.java:59-70 | renaming SSSP to FoC and back does not restore the seed, because both lectures end up as SSSP |
| Ledger.Select | product_code/hyperledger/chaincode/src/main/java/de/upb/cs/uc4/chaincode/StudentChaincode.java:85-91 | a selector query returns only stored documents the selector matches, and every such document is returned |
| Ledger.SelectAll | product_code/hyperledger/chaincode/src/main/java/de/upb/cs/uc4/chaincode/StudentChaincode.java:85-91 | when every stored value is a matching document, the query returns one record per key |

## Left out

- JSON text and the Gson codec are not modelled. Decoding is summarised by `Codec.Decoded`, and the round trip of encode and decode is not stated. `GsonWrapper` is not part of this model.
- HTML stripping of input strings with Jsoup is not modelled. Strings are taken as decoded.
- The invalid-parameter field names are not modelled. The last two course checks write `detail` where the others write `reason`; here both are the same `reason` field.
- Numerals.ParseInt: accepts only ASCII digits. Java's `parseInt` also accepts other Unicode decimal digits of the Basic Multilingual Plane.
- A Java string holding an unpaired surrogate cannot be a Dafny string, so decoded strings hold only Unicode scalar values; the one place such a value arises, the rest of a token cut inside a surrogate pair, is modelled as a number-format exception, which is what `parseInt` throws on it.
- A null element inside the status list or an interval list is not modelled. Lists hold records, not nulls.
- The host's transaction arguments (path ids, matriculation ids) are never null here. A null key reaching `getStringState` is modelled only for the id inside a decoded body.
- `changeLectureId` builds its selector by pasting `oldId` into JSON text. An id containing quotes would change the query; here the selector is exact id equality.
- The three contracts share one `UC4` contract namespace and one world state. Each is modelled over its own ledger of its own record type.
- `initLedger` of the Student and Course contracts does nothing and has no model.
- The query iteration order is a parameter (`order`). The host's order is unspecified.
- Logging, the signing service of the matriculation service, and the Fabric context are not modelled.
- `addEntryToMatriculationData` does not appear in this revision of the code and is not modelled.
- The course tests expect numeric parameter names ("10", "20", ...) and one error per request; the code uses "CourseID", "CourseName", ... and reports every violation. The model follows the code.
- The course update test expects a write on an empty store. By the code that call answers "Course not found"; the model follows the code.
- `model/Course.java` declares `startDate` and `endDate` as `String` and `ects`, `maxParticipants` and `currentParticipants` as `int`. With those types `getEcts() == null` does not compile and a missing number would decode to 0. The model follows the validator's null checks and the tests' builder (`LocalDate`, `Integer`): a date or number that is missing or does not decode is `None`.
- `CourseChaincode.java` does not compile as written: `try:`, an unbalanced parenthesis, a list assigned to a `String`, and an empty `notfoundError`. The model reads each statement for its evident meaning. Two guards read as written are kept as separate members; see Findings.
- CourseChaincode.UpdateCourseById: returns the violation list as a bare array (`Listed`), as `return error` does. It does not use the `addCourse` envelope.

## Findings

| source | as written | input that shows it | evidently intended | confidence | as-written member | corrected member |
|---|---|---|---|---|---|---|
| product_code/hyperledger/chaincode/src/main/java/de/upb/cs/uc4/chaincode/CourseChaincode.java:56 | `if(invalidParams != null)` refuses: the list is never null | any valid course, e.g. every field filled and ects 5 | refuse only when the list is non-empty | high, not executed | CourseChaincode.AddCourseAsWritten (with CourseChaincode.NullGuardRefusesValidCourses) | CourseChaincode.AddCourse |
| product_code/hyperledger/chaincode/src/main/java/de/upb/cs/uc4/chaincode/CourseChaincode.java:120 | `if (error != null) return error;` returns: the result is never null | a valid course whose id matches the path and is stored | return only when there are violations | high, not executed | CourseChaincode.UpdateCourseByIdAsWritten (with CourseChaincode.NullGuardRefusesValidCourses) | CourseChaincode.UpdateCourseById |
| product_code/hyperledger/chaincode/src/main/java/de/upb/cs/uc4/chaincode/StudentChaincode.java:61 | `result != ""` compares references; `getStringState` returns a new string, an empty one for a missing key, so the test always holds | any valid student, even on an empty ledger | `!result.equals("")`, the test the other transactions use | medium, not executed | StudentChaincode.ImmatriculateStudentAsWritten (with StudentChaincode.ReferenceGuardRefusesEveryStudent) | StudentChaincode.ImmatriculateStudent |
