/** The chaincode's outcomes: invalid-parameter lists, the JSON error
    envelopes returned as transaction results, and the Java exceptions that
    abort a transaction. */
module Errors {

  /** One violated rule: the parameter's name and a human-readable reason. */
  datatype InvalidParameter = InvalidParameter(name: string, reason: string)

  /** Runtime exceptions the validators and transactions can raise. The host
      turns any of them into a failed transaction and commits no write. */
  datatype JavaException =
    | NullPointer              // a null field or document is dereferenced
    | StringIndexOutOfBounds   // `substring(2)` on a string shorter than two
    | NumberFormat             // `Integer.parseInt` on a non-numeral
    | JsonSyntax               // the document decoder fails outside a try block

  /** What a validator returns: the accumulated violations, in the order
      the rules were evaluated, unless an exception cut evaluation short. */
  datatype Validated = Violations(params: seq<InvalidParameter>) | Thrown(exception: JavaException)
  {
    predicate Passes() {
      this == Violations([])
    }
  }

  /** Sequential evaluation: `a`'s checks run first, and an exception in
      either stops everything. */
  function Then(a: Validated, b: Validated): (r: Validated)
    ensures r.Violations? <==> a.Violations? && b.Violations?
    ensures r.Passes() <==> a.Passes() && b.Passes()
  {
    if a.Thrown? then a
    else if b.Thrown? then b
    else Violations(a.params + b.params)
  }

  /** A validator that runs a table of checks in order: the list after the
      first `n` checks, where each failed check appends its violation. */
  function Failed(verdicts: seq<bool>, rules: seq<InvalidParameter>, n: nat): (ps: seq<InvalidParameter>)
    requires |verdicts| == |rules| && n <= |rules|
    ensures |ps| <= n
  {
    if n == 0 then []
    else Failed(verdicts, rules, n - 1) + (if verdicts[n - 1] then [] else [rules[n - 1]])
  }

  /** The list holds exactly the violations of the failed checks. */
  lemma {:induction false} FailedMembers(v: seq<bool>, rules: seq<InvalidParameter>, n: nat)
    requires |v| == |rules| && n <= |rules|
    ensures forall p :: p in Failed(v, rules, n) <==> exists j | 0 <= j < n :: !v[j] && p == rules[j]
  {
    if n > 0 {
      FailedMembers(v, rules, n - 1);
    }
  }

  /** When check `j` is the only one that fails, the list is its violation
      alone. */
  lemma {:induction false} FailedOnly(v: seq<bool>, rules: seq<InvalidParameter>, j: nat, n: nat)
    requires |v| == |rules| && j < |rules| && n <= |rules|
    requires forall k | 0 <= k < |v| :: v[k] <==> k != j
    ensures Failed(v, rules, n) == if j < n then [rules[j]] else []
  {
    if n > 0 {
      FailedOnly(v, rules, j, n - 1);
    }
  }

  lemma {:induction false} NothingFailed(v: seq<bool>, rules: seq<InvalidParameter>, n: nat)
    requires |v| == |rules| && n <= |rules|
    requires forall k | 0 <= k < |v| :: v[k]
    ensures Failed(v, rules, n) == []
  {
    if n > 0 {
      NothingFailed(v, rules, n - 1);
    }
  }

  /** With distinct rules, a rule's violation is listed exactly when its
      check fails. */
  lemma FailedReported(v: seq<bool>, rules: seq<InvalidParameter>)
    requires |v| == |rules|
    requires forall i, j | 0 <= i < j < |rules| :: rules[i] != rules[j]
    ensures forall j | 0 <= j < |rules| :: rules[j] in Failed(v, rules, |rules|) <==> !v[j]
  {
    FailedMembers(v, rules, |rules|);
    forall j | 0 <= j < |rules|
      ensures rules[j] in Failed(v, rules, |rules|) ==> !v[j]
    {
      if rules[j] in Failed(v, rules, |rules|) {
        var k :| 0 <= k < |rules| && !v[k] && rules[j] == rules[k];
        assert k == j;
      }
    }
  }

  /** The list is empty exactly when every check passes. */
  lemma FailedEmptyIff(v: seq<bool>, rules: seq<InvalidParameter>)
    requires |v| == |rules|
    ensures Failed(v, rules, |rules|) == [] <==> forall k | 0 <= k < |v| :: v[k]
  {
    FailedMembers(v, rules, |rules|);
    if forall k | 0 <= k < |v| :: v[k] {
      NothingFailed(v, rules, |rules|);
    } else {
      var k :| 0 <= k < |v| && !v[k];
      assert rules[k] in Failed(v, rules, |rules|);
    }
  }

  /** A passing check adds nothing, so one pass keeps the list below `n`. */
  lemma {:induction false} FailedBound(v: seq<bool>, rules: seq<InvalidParameter>, n: nat, i: nat)
    requires |v| == |rules| && i < n <= |rules| && v[i]
    ensures |Failed(v, rules, n)| <= n - 1
  {
    if n - 1 != i {
      FailedBound(v, rules, n - 1, i);
    }
  }

  lemma {:induction false} FailedBound2(v: seq<bool>, rules: seq<InvalidParameter>, n: nat, i: nat, j: nat)
    requires |v| == |rules| && i < j < n <= |rules| && v[i] && v[j]
    ensures |Failed(v, rules, n)| <= n - 2
  {
    if n - 1 == j {
      FailedBound(v, rules, n - 1, i);
    } else {
      FailedBound2(v, rules, n - 1, i, j);
    }
  }

  /** With distinct rules no violation is listed twice. */
  lemma {:induction false} FailedOnce(v: seq<bool>, rules: seq<InvalidParameter>, n: nat, p: InvalidParameter)
    requires |v| == |rules| && n <= |rules|
    requires forall i, j | 0 <= i < j < |rules| :: rules[i] != rules[j]
    ensures multiset(Failed(v, rules, n))[p] <= 1
  {
    if n > 0 {
      FailedOnce(v, rules, n - 1, p);
      if !v[n - 1] && rules[n - 1] == p {
        FailedMembers(v, rules, n - 1);
        assert p !in Failed(v, rules, n - 1);
      }
    }
  }

  /** The JSON error envelopes. `Detailed` is the type/title/invalidParams
      shape (an empty list stands for an absent `invalidParams` field);
      `Coded` is the name/detail shape used for course look-ups; `Listed` is
      a bare array of invalid parameters, returned without an envelope. */
  datatype ErrorDoc =
    | Detailed(kind: string, title: string, invalidParams: seq<InvalidParameter>)
    | Coded(name: string, detail: string)
    | Listed(params: seq<InvalidParameter>)

  /** The title of every "does not parse" envelope. */
  const FormatTitle := "The given string does not conform to the specified json format."

  /** The result of one transaction: the empty string, an encoded record, an
      encoded error, or an exception that aborts the transaction. */
  datatype Reply<+T> = Empty | Value(value: T) | Refused(error: ErrorDoc) | Aborted(exception: JavaException)
}
