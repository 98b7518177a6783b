/** What `getErrorForStudent` decides, stated independently of how it is
    computed: when a student passes, when evaluation throws, and which
    violation each rule contributes. */
module StudentValidity {
  import opened Wrappers
  import opened Numerals
  import opened Errors
  import opened Codec
  import opened JavaString
  import opened Semester
  import opened StudentValidator

  /** A consistent interval: two well-formed tokens, the first not after the
      last, and the first not in a year before the birth year. */
  predicate IntervalValid(iv: MatriculationInterval, birthYear: int) {
    && iv.firstSemester.Some? && iv.lastSemester.Some?
    && SemesterFormatValid(iv.firstSemester.value) && SemesterFormatValid(iv.lastSemester.value)
    && !Before(iv.lastSemester.value, iv.firstSemester.value)
    && birthYear <= Year(iv.firstSemester.value)
  }

  predicate EntryValid(e: SubjectMatriculationInterval, birthYear: int) {
    && e.fieldOfStudy.Some?
    && e.intervals.Some? && |e.intervals.value| > 0
    && forall k | 0 <= k < |e.intervals.value| :: IntervalValid(e.intervals.value[k], birthYear)
  }

  predicate FieldsDistinct(es: seq<SubjectMatriculationInterval>) {
    forall i, j | 0 <= i < j < |es| :: es[i].fieldOfStudy != es[j].fieldOfStudy
  }

  /** A student record every rule accepts. */
  predicate StudentValid(s: Student) {
    && Filled(s.matriculationId) && Filled(s.firstName) && Filled(s.lastName)
    && s.birthDate.Some?
    && s.matriculationStatus.Some? && |s.matriculationStatus.value| > 0
    && FieldsDistinct(s.matriculationStatus.value)
    && forall i | 0 <= i < |s.matriculationStatus.value| ::
         EntryValid(s.matriculationStatus.value[i], s.birthDate.value.year)
  }

  /** An interval on which evaluation throws: a null token, or a well-formed
      first token with a last token too short for `substring(2)` or whose
      remainder is not an `int` numeral. */
  ghost predicate IntervalCrashes(iv: MatriculationInterval) {
    || iv.firstSemester.None? || iv.lastSemester.None?
    || (SemesterFormatValid(iv.firstSemester.value) && !YearReadable(iv.lastSemester.value))
  }

  ghost predicate EntryCrashes(e: SubjectMatriculationInterval) {
    || e.intervals.None?
    || exists k | 0 <= k < |e.intervals.value| :: IntervalCrashes(e.intervals.value[k])
  }

  ghost predicate StudentCrashes(s: Student) {
    && s.matriculationStatus.Some? && |s.matriculationStatus.value| > 0
    && exists i | 0 <= i < |s.matriculationStatus.value| :: EntryCrashes(s.matriculationStatus.value[i])
  }

  // ---------------------------------------------------------------------
  // One interval

  lemma IntervalThrowsIff(iv: MatriculationInterval, birth: Option<Date>)
    ensures IntervalErrors(iv, birth).Thrown? <==> IntervalCrashes(iv)
  {
    if iv.lastSemester.Some? {
      SemesterYearReadsRest(iv.lastSemester.value);
    }
  }

  /** The chronology rule, also for a malformed last token whose year still
      parses: compare (year, season) lexicographically, where a last token
      not starting with "SS" ranks as a winter term. At most one such
      violation per interval. */
  lemma IntervalChronology(iv: MatriculationInterval, birth: Option<Date>, lastYear: int)
    requires iv.firstSemester.Some? && SemesterFormatValid(iv.firstSemester.value)
    requires iv.lastSemester.Some? && SemesterYear(iv.lastSemester.value) == Success(lastYear)
    ensures IntervalErrors(iv, birth).Violations?
    ensures Chronology in IntervalErrors(iv, birth).params <==>
              var first, last := iv.firstSemester.value, iv.lastSemester.value;
              || Year(first) > lastYear
              || (Year(first) == lastYear && IsWinter(first) && StartsWith(last, "SS"))
    ensures multiset(IntervalErrors(iv, birth).params)[Chronology] <= 1
  {
    var first, last := iv.firstSemester.value, iv.lastSemester.value;
    var v := IntervalVerdicts(first, last, birth);
    IntervalRulesDistinct();
    FailedReported(v, IntervalRules);
    assert IntervalRules[2] == Chronology;
    FailedOnce(v, IntervalRules, |IntervalRules|, Chronology);
  }

  /** For two well-formed tokens the chronology rule is exactly `Before`. */
  lemma IntervalChronologyOfValid(iv: MatriculationInterval, birth: Option<Date>)
    requires iv.firstSemester.Some? && SemesterFormatValid(iv.firstSemester.value)
    requires iv.lastSemester.Some? && SemesterFormatValid(iv.lastSemester.value)
    ensures IntervalErrors(iv, birth).Violations?
    ensures Chronology in IntervalErrors(iv, birth).params <==>
              Before(iv.lastSemester.value, iv.firstSemester.value)
  {
    var first, last := iv.firstSemester.value, iv.lastSemester.value;
    IntervalChronology(iv, birth, Year(last));
    assert StartsWith(last, "SS") <==> !IsWinter(last);
  }

  /** Only the first token's year is compared with the birth year, and only
      when the birth date is known and the first token is well formed. */
  lemma IntervalBirthYear(iv: MatriculationInterval, birth: Option<Date>)
    requires !IntervalCrashes(iv)
    ensures IntervalErrors(iv, birth).Violations?
    ensures BeforeBirthDate in IntervalErrors(iv, birth).params <==>
              && SemesterFormatValid(iv.firstSemester.value) && birth.Some?
              && Year(iv.firstSemester.value) < birth.value.year
  {
    var first, last := iv.firstSemester.value, iv.lastSemester.value;
    SemesterYearReadsRest(last);
    IntervalRulesDistinct();
    FailedReported(IntervalVerdicts(first, last, birth), IntervalRules);
    assert IntervalRules[3] == BeforeBirthDate;
  }

  /** The interval checks hold distinct violations. */
  lemma IntervalRulesDistinct()
    ensures forall i, j | 0 <= i < j < |IntervalRules| :: IntervalRules[i] != IntervalRules[j]
  {
    assert FirstSemesterEmpty != LastSemesterEmpty && FirstSemesterEmpty != Chronology;
    assert FirstSemesterEmpty != BeforeBirthDate && FirstSemesterEmpty != FirstSemesterFormat;
    assert FirstSemesterEmpty != LastSemesterFormat && LastSemesterEmpty != Chronology;
    assert LastSemesterEmpty != BeforeBirthDate && LastSemesterEmpty != FirstSemesterFormat;
    assert LastSemesterEmpty != LastSemesterFormat && Chronology != BeforeBirthDate;
    assert Chronology != FirstSemesterFormat && Chronology != LastSemesterFormat;
    assert BeforeBirthDate != FirstSemesterFormat && BeforeBirthDate != LastSemesterFormat;
    assert FirstSemesterFormat != LastSemesterFormat;
  }

  /** For each check of the table, whether a list leaves its violation out. */
  function Omitted(ps: seq<InvalidParameter>, rules: seq<InvalidParameter>): (v: seq<bool>)
    ensures |v| == |rules|
    ensures forall j | 0 <= j < |rules| :: v[j] <==> rules[j] !in ps
  {
    seq(|rules|, j requires 0 <= j < |rules| => rules[j] !in ps)
  }

  /** An interval that does not throw lists the violations of the table in
      table order, each at most once, and nothing else. */
  lemma IntervalInRuleOrder(iv: MatriculationInterval, birth: Option<Date>)
    requires !IntervalCrashes(iv)
    ensures IntervalErrors(iv, birth).Violations?
    ensures var ps := IntervalErrors(iv, birth).params;
            ps == Failed(Omitted(ps, IntervalRules), IntervalRules, |IntervalRules|)
  {
    var first, last := iv.firstSemester.value, iv.lastSemester.value;
    SemesterYearReadsRest(last);
    var v := IntervalVerdicts(first, last, birth);
    IntervalRulesDistinct();
    FailedReported(v, IntervalRules);
    assert v == Omitted(IntervalErrors(iv, birth).params, IntervalRules);
  }

  /** The emptiness and format checks, by the tokens: an empty token gets
      its empty-token violation, and a token off the pattern its format
      violation; the empty token gets both. */
  lemma IntervalEmptinessAndFormat(iv: MatriculationInterval, birth: Option<Date>)
    requires !IntervalCrashes(iv)
    ensures IntervalErrors(iv, birth).Violations?
    ensures var ps, first, last := IntervalErrors(iv, birth).params, iv.firstSemester.value, iv.lastSemester.value;
            && (FirstSemesterEmpty in ps <==> first == "")
            && (LastSemesterEmpty in ps <==> last == "")
            && (FirstSemesterFormat in ps <==> !SemesterFormatValid(first))
            && (LastSemesterFormat in ps <==> !SemesterFormatValid(last))
  {
    var first, last := iv.firstSemester.value, iv.lastSemester.value;
    SemesterYearReadsRest(last);
    IntervalRulesDistinct();
    FailedReported(IntervalVerdicts(first, last, birth), IntervalRules);
    assert IntervalRules[0] == FirstSemesterEmpty && IntervalRules[1] == LastSemesterEmpty;
    assert IntervalRules[4] == FirstSemesterFormat && IntervalRules[5] == LastSemesterFormat;
  }

  lemma IntervalPassesIff(iv: MatriculationInterval, b: Date)
    ensures IntervalErrors(iv, Some(b)).Passes() <==> IntervalValid(iv, b.year)
  {
    IntervalThrowsIff(iv, Some(b));
    if !IntervalCrashes(iv) {
      var first, last := iv.firstSemester.value, iv.lastSemester.value;
      SemesterYearReadsRest(last);
      var v := IntervalVerdicts(first, last, Some(b));
      assert IntervalErrors(iv, Some(b)) == Violations(Failed(v, IntervalRules, |IntervalRules|));
      FailedEmptyIff(v, IntervalRules);
      if SemesterFormatValid(first) && SemesterFormatValid(last) {
        assert SemesterYear(last).value == Year(last);
        assert OutOfOrder(first, Year(first), last, Year(last)) <==> Before(last, first) by {
          BeforeByYearThenSeason(last, first);
          assert StartsWith(last, "SS") <==> !IsWinter(last);
        }
        assert first != "" && last != "";
        assert v == [true, true, !Before(last, first), b.year <= Year(first), true, true];
        assert (forall k | 0 <= k < |v| :: v[k]) <==> v[2] && v[3] by {
          if v[2] && v[3] {
            forall k | 0 <= k < |v| ensures v[k] {
              assert k in {0, 1, 2, 3, 4, 5};
            }
          }
        }
      }
    }
  }

  // ---------------------------------------------------------------------
  // The interval list of one entry

  lemma {:induction false} IntervalsPassIff(ivs: seq<MatriculationInterval>, b: Date)
    ensures IntervalsErrors(ivs, Some(b)).Passes() <==>
              forall k | 0 <= k < |ivs| :: IntervalValid(ivs[k], b.year)
  {
    if ivs != [] {
      IntervalPassesIff(ivs[0], b);
      IntervalsPassIff(ivs[1..], b);
      assert forall k | 1 <= k < |ivs| :: ivs[k] == ivs[1..][k - 1];
    }
  }

  lemma {:induction false} IntervalsThrowIff(ivs: seq<MatriculationInterval>, birth: Option<Date>)
    ensures IntervalsErrors(ivs, birth).Thrown? <==>
              exists k | 0 <= k < |ivs| :: IntervalCrashes(ivs[k])
  {
    if ivs != [] {
      IntervalThrowsIff(ivs[0], birth);
      IntervalsThrowIff(ivs[1..], birth);
      assert forall k | 1 <= k < |ivs| :: ivs[k] == ivs[1..][k - 1];
    }
  }

  // ---------------------------------------------------------------------
  // One entry

  lemma EntryPassesIff(e: SubjectMatriculationInterval, existing: seq<FieldOfStudy>, b: Date)
    ensures EntryErrors(e, existing, Some(b)).Passes() <==>
              EntryValid(e, b.year) && e.fieldOfStudy.value !in existing
  {
    if e.intervals.Some? {
      IntervalsPassIff(e.intervals.value, b);
    }
  }

  lemma EntryThrowsIff(e: SubjectMatriculationInterval, existing: seq<FieldOfStudy>, birth: Option<Date>)
    ensures EntryErrors(e, existing, birth).Thrown? <==> EntryCrashes(e)
  {
    if e.intervals.Some? {
      IntervalsThrowIff(e.intervals.value, birth);
    }
  }

  // ---------------------------------------------------------------------
  // The entry loop

  /** The entries from position `i` on are valid, name no field recorded
      before `i`, and name pairwise distinct fields. */
  predicate StatusValidFrom(es: seq<SubjectMatriculationInterval>, i: nat, existing: seq<FieldOfStudy>, birthYear: int)
    requires i <= |es|
  {
    && (forall k | i <= k < |es| :: EntryValid(es[k], birthYear) && es[k].fieldOfStudy.value !in existing)
    && (forall k, m | i <= k < m < |es| :: es[k].fieldOfStudy != es[m].fieldOfStudy)
  }

  lemma StatusValidStep(es: seq<SubjectMatriculationInterval>, i: nat, existing: seq<FieldOfStudy>, birthYear: int)
    requires i < |es|
    ensures StatusValidFrom(es, i, existing, birthYear) <==>
              && EntryValid(es[i], birthYear) && es[i].fieldOfStudy.value !in existing
              && StatusValidFrom(es, i + 1, existing + [es[i].fieldOfStudy.value], birthYear)
  {
  }

  lemma {:induction false} StatusPassesIff(es: seq<SubjectMatriculationInterval>, i: nat,
                                           existing: seq<FieldOfStudy>, b: Date)
    requires i <= |es|
    ensures StatusErrorsFrom(es, i, existing, Some(b)).Passes() <==> StatusValidFrom(es, i, existing, b.year)
    decreases |es| - i
  {
    if i < |es| {
      var next := Recorded(existing, es[i].fieldOfStudy);
      EntryPassesIff(es[i], existing, b);
      StatusPassesIff(es, i + 1, next, b);
      StatusValidStep(es, i, existing, b.year);
      assert StatusErrorsFrom(es, i, existing, Some(b)) ==
             Then(EntryErrors(es[i], existing, Some(b)), StatusErrorsFrom(es, i + 1, next, Some(b)));
    }
  }

  lemma {:induction false} StatusThrowsIff(es: seq<SubjectMatriculationInterval>, i: nat,
                                           existing: seq<FieldOfStudy>, birth: Option<Date>)
    requires i <= |es|
    ensures StatusErrorsFrom(es, i, existing, birth).Thrown? <==>
              exists k | i <= k < |es| :: EntryCrashes(es[k])
    decreases |es| - i
  {
    if i < |es| {
      EntryThrowsIff(es[i], existing, birth);
      StatusThrowsIff(es, i + 1, Recorded(existing, es[i].fieldOfStudy), birth);
      assert (exists k | i <= k < |es| :: EntryCrashes(es[k])) <==>
             EntryCrashes(es[i]) || exists k | i + 1 <= k < |es| :: EntryCrashes(es[k]);
    }
  }

  // ---------------------------------------------------------------------
  // The whole record

  /** The validator reports nothing exactly for the students every rule
      accepts. */
  lemma StudentPassesIff(s: Student)
    ensures StudentErrors(s).Passes() <==> StudentValid(s)
  {
    if s.birthDate.Some? && s.matriculationStatus.Some? && |s.matriculationStatus.value| > 0 {
      StatusPassesIff(s.matriculationStatus.value, 0, [], s.birthDate.value);
      assert StatusValidFrom(s.matriculationStatus.value, 0, [], s.birthDate.value.year) <==>
             FieldsDistinct(s.matriculationStatus.value) &&
             forall i | 0 <= i < |s.matriculationStatus.value| ::
               EntryValid(s.matriculationStatus.value[i], s.birthDate.value.year);
    }
  }

  /** Evaluation throws exactly when some entry has a null interval list or
      some interval crashes; a missing or empty status list never throws. */
  lemma StudentThrowsIff(s: Student)
    ensures StudentErrors(s).Thrown? <==> StudentCrashes(s)
  {
    if s.matriculationStatus.Some? && |s.matriculationStatus.value| > 0 {
      StatusThrowsIff(s.matriculationStatus.value, 0, [], s.birthDate);
    }
  }

  // ---------------------------------------------------------------------
  // Duplicate fields of study: the first occurrence wins

  /** `existingFields` after the loop has visited the first `i` entries. */
  function Existing(es: seq<SubjectMatriculationInterval>, i: nat): seq<FieldOfStudy>
    requires i <= |es|
  {
    if i == 0 then [] else Recorded(Existing(es, i - 1), es[i - 1].fieldOfStudy)
  }

  /** The recorded fields are exactly the fields named by earlier entries,
      each recorded once. */
  lemma {:induction false} ExistingIsEarlierFields(es: seq<SubjectMatriculationInterval>, i: nat)
    requires i <= |es|
    ensures forall f :: f in Existing(es, i) <==> exists j | 0 <= j < i :: es[j].fieldOfStudy == Some(f)
    ensures forall a, b | 0 <= a < b < |Existing(es, i)| :: Existing(es, i)[a] != Existing(es, i)[b]
  {
    if i > 0 {
      ExistingIsEarlierFields(es, i - 1);
    }
  }

  /** Entry `i` is flagged as empty iff it names no field, as a duplicate
      iff an earlier entry names the same field, and passes the field check
      otherwise. */
  lemma DuplicateFieldIff(es: seq<SubjectMatriculationInterval>, i: nat)
    requires i < |es|
    ensures FieldErrors(es[i].fieldOfStudy, Existing(es, i)) == [FieldEmpty] <==> es[i].fieldOfStudy.None?
    ensures FieldErrors(es[i].fieldOfStudy, Existing(es, i)) == [FieldDuplicate] <==>
              es[i].fieldOfStudy.Some? && exists j | 0 <= j < i :: es[j].fieldOfStudy == es[i].fieldOfStudy
    ensures FieldErrors(es[i].fieldOfStudy, Existing(es, i)) == [] <==>
              es[i].fieldOfStudy.Some? && forall j | 0 <= j < i :: es[j].fieldOfStudy != es[i].fieldOfStudy
  {
    ExistingIsEarlierFields(es, i);
    assert FieldEmpty != FieldDuplicate;
  }

  /** The verdict on each entry, given the fields of the entries before it. */
  function EntryVerdicts(es: seq<SubjectMatriculationInterval>, birth: Option<Date>): (vs: seq<Validated>)
    ensures |vs| == |es|
  {
    seq(|es|, i requires 0 <= i < |es| => EntryErrors(es[i], Existing(es, i), birth))
  }

  /** Sequential composition of verdicts. */
  function ThenAll(vs: seq<Validated>): Validated
  {
    if vs == [] then Violations([]) else Then(vs[0], ThenAll(vs[1..]))
  }

  /** The entry loop never stops at a violated entry: its result is the
      concatenation of every entry's verdict, in list order. */
  lemma {:induction false} StatusIsEntryVerdicts(es: seq<SubjectMatriculationInterval>, i: nat, birth: Option<Date>)
    requires i <= |es|
    ensures StatusErrorsFrom(es, i, Existing(es, i), birth) == ThenAll(EntryVerdicts(es, birth)[i..])
    decreases |es| - i
  {
    if i < |es| {
      StatusIsEntryVerdicts(es, i + 1, birth);
      assert EntryVerdicts(es, birth)[i..][1..] == EntryVerdicts(es, birth)[i + 1..];
    }
  }
}
