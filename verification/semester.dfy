/** Semester tokens such as "WS2020" (winter) and "SS2021" (summer): the
    whole-string format `(WS|SS)\d{4}`, year extraction, and the
    chronological order of semesters. */
module Semester {
  import opened Wrappers
  import opened Numerals
  import opened Errors
  import opened JavaString

  predicate StartsWith(s: string, prefix: string) {
    |prefix| <= |s| && s[..|prefix|] == prefix
  }

  /** `\d{n}` consuming the rest of the input: exactly `n` ASCII digits. */
  function MatchDigits(s: string, n: nat): (b: bool)
    ensures b <==> |s| == n && AllDigits(s)
  {
    if n == 0 then s == []
    else |s| > 0 && IsDigit(s[0]) && MatchDigits(s[1..], n - 1)
  }

  /** `Pattern.compile("^(WS|SS)\\d{4}").matcher(s).matches()`: the pattern
      must cover the whole string, so a token is exactly six characters. */
  function SemesterFormatValid(s: string): (b: bool)
    ensures b <==> |s| == 6 && (s[0] == 'W' || s[0] == 'S') && s[1] == 'S' && AllDigits(s[2..])
  {
    (StartsWith(s, "WS") || StartsWith(s, "SS")) && MatchDigits(s[2..], 4)
  }

  /** Some numeral Java's `Integer.parseInt` accepts follows the first two
      code units of `s`. */
  ghost predicate YearReadable(s: string) {
    exists t :: RestIs(s, t) && ParseInt(t).Some?
  }

  /** `Integer.parseInt(s.substring(2))`, the year of a semester token. It is
      applied to tokens whose format was never checked, so it can throw. The
      cut counts UTF-16 code units, as Java's `substring` does; what it
      reads is stated by `SemesterYearReadsRest`. */
  function SemesterYear(s: string): (r: Result<int, JavaException>)
    ensures r.Success? ==> InIntRange(r.value)
    ensures r.Failure? ==> r.error == StringIndexOutOfBounds || r.error == NumberFormat
  {
    match Substring2(s)
    case Failure(e) => Failure(e)
    case Success(rest) =>
      if rest.None? then Failure(NumberFormat)
      else
        match ParseInt(rest.value)
        case None => Failure(NumberFormat)
        case Some(y) => Success(y)
  }

  /** The year is the numeral after the first two code units: the index
      exception exactly for fewer than two units, a year exactly when an
      `int` numeral follows them, and then that numeral's value. */
  lemma SemesterYearReadsRest(s: string)
    ensures |Units(s)| < 2 <==> SemesterYear(s) == Failure(StringIndexOutOfBounds)
    ensures SemesterYear(s).Success? <==> YearReadable(s)
    ensures forall t | RestIs(s, t) :: SemesterYear(s).Success? ==> ParseInt(t) == Some(SemesterYear(s).value)
  {
    RestUniqueAll(s);
    Substring2CutsTwoUnits(s);
  }

  /** The four-digit year of a well-formed token. */
  function Year(s: string): (y: nat)
    requires SemesterFormatValid(s)
    ensures y <= 9999
    ensures SemesterYear(s) == Success(y)
  {
    DigitsValueBound(s[2..]);
    BmpRest(s);
    DigitsValue(s[2..])
  }

  predicate IsWinter(s: string) {
    StartsWith(s, "WS")
  }

  /** Position of a well-formed token on the time line: summer term of year
      Y, then winter term of year Y, then summer term of year Y + 1. */
  function Ordinal(s: string): (n: nat)
    requires SemesterFormatValid(s)
    ensures n / 2 == Year(s)
    ensures n % 2 == 1 <==> IsWinter(s)
  {
    2 * Year(s) + (if IsWinter(s) then 1 else 0)
  }

  /** Strict chronological order on well-formed tokens. */
  predicate Before(a: string, b: string)
    requires SemesterFormatValid(a) && SemesterFormatValid(b)
  {
    Ordinal(a) < Ordinal(b)
  }

  /** A token is determined by its position on the time line. */
  lemma OrdinalInjective(a: string, b: string)
    requires SemesterFormatValid(a) && SemesterFormatValid(b)
    requires Ordinal(a) == Ordinal(b)
    ensures a == b
  {
    assert a[0] == b[0] by {
      assert IsWinter(a) <==> a[0] == 'W';
      assert IsWinter(b) <==> b[0] == 'W';
    }
    DigitsValueInjective(a[2..], b[2..]);
    assert a == a[..2] + a[2..] && b == b[..2] + b[2..];
    assert a[..2] == [a[0], a[1]] && b[..2] == [b[0], b[1]];
  }

  /** `Before` is a strict total order on well-formed tokens: irreflexive,
      transitive, and any two different tokens are comparable. */
  lemma BeforeIsStrictTotalOrder(a: string, b: string, c: string)
    requires SemesterFormatValid(a) && SemesterFormatValid(b) && SemesterFormatValid(c)
    ensures !Before(a, a)
    ensures Before(a, b) && Before(b, c) ==> Before(a, c)
    ensures a != b ==> Before(a, b) || Before(b, a)
  {
    if a != b && Ordinal(a) == Ordinal(b) {
      OrdinalInjective(a, b);
    }
  }

  /** Within one year the summer term comes first; every term of an earlier
      year comes before every term of a later year. */
  lemma BeforeByYearThenSeason(a: string, b: string)
    requires SemesterFormatValid(a) && SemesterFormatValid(b)
    ensures Before(a, b) <==>
              Year(a) < Year(b) || (Year(a) == Year(b) && !IsWinter(a) && IsWinter(b))
  {
  }

  /** The accepted and rejected examples of the format. */
  lemma FormatExamples()
    ensures SemesterFormatValid("WS2020") && SemesterFormatValid("SS2020")
    ensures !SemesterFormatValid("WWS2018") && !SemesterFormatValid("SS20200")
    ensures !SemesterFormatValid("WS2020/21") && !SemesterFormatValid("")
  {
    assert AllDigits("WS2020"[2..]) by { assert "WS2020"[2..] == "2020"; }
    assert AllDigits("SS2020"[2..]) by { assert "SS2020"[2..] == "2020"; }
  }
}
