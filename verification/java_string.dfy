/** Java strings are sequences of UTF-16 code units, while a Dafny `string`
    is a sequence of Unicode scalar values. `length()` and `substring` count
    code units, so a character beyond U+FFFF counts twice and a cut can fall
    between its two halves. */
module JavaString {
  import opened Wrappers
  import opened Errors

  /** A character of the Basic Multilingual Plane, stored as one code unit. */
  predicate InBmp(c: char) {
    (c as int) < 0x1_0000
  }

  predicate IsHighSurrogate(u: int) {
    0xD800 <= u < 0xDC00
  }

  predicate IsLowSurrogate(u: int) {
    0xDC00 <= u < 0xE000
  }

  /** The UTF-16 encoding of one character: itself, or a high surrogate
      followed by a low one. */
  function CharUnits(c: char): (u: seq<int>)
    ensures |u| == if InBmp(c) then 1 else 2
    ensures InBmp(c) ==> !IsHighSurrogate(u[0]) && !IsLowSurrogate(u[0])
    ensures !InBmp(c) ==> IsHighSurrogate(u[0]) && IsLowSurrogate(u[1])
  {
    if InBmp(c) then [c as int]
    else
      var v := (c as int) - 0x1_0000;
      [0xD800 + v / 0x400, 0xDC00 + v % 0x400]
  }

  /** The code units Java stores for a string. */
  function Units(s: string): (u: seq<int>)
    ensures |u| >= |s|
    ensures s != [] ==> !IsLowSurrogate(u[0])
  {
    if s == [] then [] else CharUnits(s[0]) + Units(s[1..])
  }

  /** A character is determined by its code units. */
  lemma CharUnitsInjective(a: char, b: char)
    requires CharUnits(a) == CharUnits(b)
    ensures a == b
  {
    if !InBmp(a) {
      var v, w := (a as int) - 0x1_0000, (b as int) - 0x1_0000;
      assert v / 0x400 == w / 0x400 && v % 0x400 == w % 0x400;
      assert v == 0x400 * (v / 0x400) + v % 0x400;
      assert w == 0x400 * (w / 0x400) + w % 0x400;
    }
  }

  /** The encoding is injective: two strings with the same code units are
      the same string. */
  lemma {:induction false} UnitsInjective(a: string, b: string)
    requires Units(a) == Units(b)
    ensures a == b
  {
    if a != [] && b != [] {
      var ua, ub := CharUnits(a[0]), CharUnits(b[0]);
      assert Units(a) == ua + Units(a[1..]) && Units(b) == ub + Units(b[1..]);
      assert ua == Units(a)[..|ua|] && ub == Units(b)[..|ub|];
      CharUnitsInjective(a[0], b[0]);
      assert Units(a[1..]) == Units(a)[|ua|..] && Units(b[1..]) == Units(b)[|ub|..];
      UnitsInjective(a[1..], b[1..]);
      assert a == [a[0]] + a[1..] && b == [b[0]] + b[1..];
    }
  }

  /** `s` holds `t` after its first two code units. */
  predicate RestIs(s: string, t: string) {
    |Units(s)| >= 2 && Units(t) == Units(s)[2..]
  }

  /** `s.substring(2)`. It throws when `s` has fewer than two code units.
      It yields `None` when the cut separates the two halves of a character
      beyond U+FFFF: the rest then begins with a lone low surrogate, which
      no string of scalar values holds. `Substring2CutsTwoUnits` states
      the cut in terms of code units. */
  function Substring2(s: string): (r: Result<Option<string>, JavaException>)
    ensures r.Failure? ==> r.error == StringIndexOutOfBounds
  {
    if |s| == 0 || (|s| == 1 && InBmp(s[0])) then Failure(StringIndexOutOfBounds)
    else if !InBmp(s[0]) then Success(Some(s[1..]))
    else if !InBmp(s[1]) then Success(None)
    else Success(Some(s[2..]))
  }

  /** The index exception exactly for fewer than two code units; no string
      exactly when the third unit is a low surrogate; otherwise the string
      made of every unit after the second. */
  lemma Substring2CutsTwoUnits(s: string)
    ensures Substring2(s).Failure? <==> |Units(s)| < 2
    ensures Substring2(s).Success? && Substring2(s).value.None? <==> |Units(s)| > 2 && IsLowSurrogate(Units(s)[2])
    ensures Substring2(s).Success? && Substring2(s).value.Some? ==> RestIs(s, Substring2(s).value.value)
  {
    if |s| >= 1 && !InBmp(s[0]) {
      assert Units(s) == CharUnits(s[0]) + Units(s[1..]);
    } else if |s| >= 2 && !InBmp(s[1]) {
      assert Units(s) == [s[0] as int] + (CharUnits(s[1]) + Units(s[2..])) by {
        assert s[1..][1..] == s[2..];
      }
    } else if |s| >= 2 {
      assert Units(s) == [s[0] as int] + ([s[1] as int] + Units(s[2..])) by {
        assert s[1..][1..] == s[2..];
      }
    }
  }

  /** Whatever is left after two code units is unique when it is a string:
      `Substring2` finds it exactly when some string is left. */
  lemma RestUnique(s: string, t: string)
    requires RestIs(s, t)
    ensures Substring2(s) == Success(Some(t))
  {
    Substring2CutsTwoUnits(s);
    var r := Substring2(s);
    if r.value.Some? {
      UnitsInjective(r.value.value, t);
    }
  }

  lemma RestUniqueAll(s: string)
    ensures forall t | RestIs(s, t) :: Substring2(s) == Success(Some(t))
  {
    forall t | RestIs(s, t) {
      RestUnique(s, t);
    }
  }

  /** A string whose first two characters are each one code unit keeps the
      rest as it is. */
  lemma BmpRest(s: string)
    requires |s| >= 2 && InBmp(s[0]) && InBmp(s[1])
    ensures RestIs(s, s[2..])
    ensures Substring2(s) == Success(Some(s[2..]))
  {
    Substring2CutsTwoUnits(s);
  }
}
