/** The host's key-value ledger, seen through the calls the chaincode makes:
    `getStringState`, `putStringState`, `delState` and selector queries. */
module Ledger {
  import opened Errors

  /** A stored value: a record the chaincode wrote, or the empty string. */
  datatype Stored<+T> = Blank | Doc(doc: T)

  type Store<T> = map<string, Stored<T>>

  /** The chaincode's existence test: the state read under `key` is neither
      missing nor the empty string. */
  predicate Present<T>(m: Store<T>, key: string) {
    key in m && m[key].Doc?
  }

  /** The effect of one transaction: the ledger it leaves and its result. */
  datatype Tx<T, +R> = Tx(store: Store<T>, reply: Reply<R>)

  /** `order` lists every key of `m` exactly once, in the host's (unspecified)
      iteration order. */
  predicate IsListing<T>(m: Store<T>, order: seq<string>) {
    && |order| == |m|
    && (forall k | k in m :: k in order)
    && (forall i | 0 <= i < |order| :: order[i] in m)
  }

  /** A selector query, as a full scan in `order`: the decoded record of
      every stored document the selector `matches`. A blank value is not a
      JSON document and matches no selector. */
  function Select<T>(m: Store<T>, order: seq<string>, matches: T -> bool): (r: seq<T>)
    ensures |r| <= |order|
    ensures forall x :: x in r ==> matches(x) && exists k :: k in order && k in m && m[k] == Doc(x)
    ensures forall i :: 0 <= i < |order| && Present(m, order[i]) && matches(m[order[i]].doc) ==>
              m[order[i]].doc in r
  {
    if order == [] then []
    else
      var k := order[0];
      var head := if Present(m, k) && matches(m[k].doc) then [m[k].doc] else [];
      head + Select(m, order[1..], matches)
  }

  /** When every stored value is a document the selector matches, the query
      returns exactly one record per key. */
  lemma {:induction false} SelectAll<T>(m: Store<T>, order: seq<string>, matches: T -> bool)
    requires IsListing(m, order)
    requires forall k :: k in m ==> m[k].Doc? && matches(m[k].doc)
    ensures |Select(m, order, matches)| == |m|
  {
    SelectCountsKeys(m, order, matches);
  }

  lemma {:induction false} SelectCountsKeys<T>(m: Store<T>, order: seq<string>, matches: T -> bool)
    requires forall i | 0 <= i < |order| :: order[i] in m
    requires forall k :: k in m ==> m[k].Doc? && matches(m[k].doc)
    ensures |Select(m, order, matches)| == |order|
  {
    if order != [] {
      assert order[0] in m;
      SelectCountsKeys(m, order[1..], matches);
    }
  }
}
