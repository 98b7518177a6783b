/** The demonstration Lecture contract: two seed records, a listing query,
    and a bulk rename of lecture ids. */
module LectureChaincode {
  import opened Wrappers
  import opened Numerals
  import opened Ledger

  datatype Lecturer = Lecturer(name: Option<string>, group: Option<string>)

  /** A stored lecture. `id` is `None` when the document has no string id. */
  datatype Lecture = Lecture(id: Option<string>, lecturer: Option<Lecturer>)

  type Lectures = Store<Lecture>

  /** The records `initLedger` writes, in order. */
  const Seed: seq<Lecture> := [
    Lecture(Some("SSSP"), Some(Lecturer(Some("Karl"), Some("Computer Networks")))),
    Lecture(Some("FoC"), Some(Lecturer(Some("Blömer"), Some("Cryptography and Codes"))))]

  /** `initLedger`: seed record `i` is written under the decimal key `i`;
      any other state is left as it was. */
  method InitLedger(ledger: Lectures) returns (store: Lectures)
    ensures store.Keys == ledger.Keys + {"0", "1"}
    ensures store["0"] == Doc(Seed[0]) && store["1"] == Doc(Seed[1])
    ensures forall k | k in ledger && k != "0" && k != "1" :: store[k] == ledger[k]
  {
    SeedKeys();
    store := ledger;
    var i := 0;
    while i < |Seed|
      invariant 0 <= i <= |Seed|
      invariant forall k :: k in store <==> k in ledger || exists j | 0 <= j < i :: k == ShowNat(j)
      invariant forall j | 0 <= j < i :: store[ShowNat(j)] == Doc(Seed[j])
      invariant forall k | k in ledger && (forall j | 0 <= j < i :: k != ShowNat(j)) :: store[k] == ledger[k]
    {
      store := store[ShowNat(i) := Doc(Seed[i])];
      i := i + 1;
    }
  }

  lemma SeedKeys()
    ensures ShowNat(0) == "0" && ShowNat(1) == "1"
  {
    assert ShowNat(0) == [DigitChar(0)];
    assert ShowNat(1) == [DigitChar(1)];
  }

  /** The `queryAll` selector: documents with a string `id`. */
  predicate HasId(l: Lecture) {
    l.id.Some?
  }

  /** `queryAll`: every stored lecture with an id, in the host's order. */
  function QueryAll(ledger: Lectures, order: seq<string>): (r: seq<Lecture>)
    ensures forall l :: l in r ==> l.id.Some? && exists k :: k in order && k in ledger && ledger[k] == Doc(l)
    ensures forall i :: 0 <= i < |order| && Present(ledger, order[i]) && HasId(ledger[order[i]].doc) ==>
              ledger[order[i]].doc in r
  {
    Select(ledger, order, HasId)
  }

  /** After `initLedger` on an empty ledger, `queryAll` returns both seed
      records and nothing else. */
  lemma InitThenQueryAll(order: seq<string>, store: Lectures)
    requires store == map["0" := Doc(Seed[0]), "1" := Doc(Seed[1])]
    requires IsListing(store, order)
    ensures |QueryAll(store, order)| == 2
    ensures Seed[0] in QueryAll(store, order) && Seed[1] in QueryAll(store, order)
    ensures forall l :: l in QueryAll(store, order) ==> l in Seed
  {
    assert store.Keys == {"0", "1"};
    SelectAll(store, order, HasId);
    var i0 :| 0 <= i0 < |order| && order[i0] == "0";
    var i1 :| 0 <= i1 < |order| && order[i1] == "1";
  }

  /** The `changeLectureId` selector `{"id": oldId}`. */
  predicate HasLectureId(s: Stored<Lecture>, id: string) {
    s.Doc? && s.doc.id == Some(id)
  }

  /** The effect of `changeLectureId` on every key at once: each document
      whose id is `oldId` gets `newId`, and nothing else changes. */
  function RenameAll(ledger: Lectures, oldId: string, newId: string): (r: Lectures)
    ensures r.Keys == ledger.Keys
  {
    map k | k in ledger :: if HasLectureId(ledger[k], oldId) then Doc(ledger[k].doc.(id := Some(newId))) else ledger[k]
  }

  /** `changeLectureId`: the query runs against the state before the
      transaction, so each matching document is read once and rewritten
      under its own key. */
  method ChangeLectureId(ledger: Lectures, order: seq<string>, oldId: string, newId: string) returns (store: Lectures)
    ensures store.Keys == ledger.Keys
    ensures forall k | k in ledger :: store[k] ==
              if k in order && HasLectureId(ledger[k], oldId) then Doc(ledger[k].doc.(id := Some(newId))) else ledger[k]
    ensures IsListing(ledger, order) ==> store == RenameAll(ledger, oldId, newId)
  {
    store := ledger;
    var i := 0;
    while i < |order|
      invariant 0 <= i <= |order|
      invariant store.Keys == ledger.Keys
      invariant forall k | k in ledger :: store[k] ==
                  if k in order[..i] && HasLectureId(ledger[k], oldId) then Doc(ledger[k].doc.(id := Some(newId))) else ledger[k]
    {
      var key := order[i];
      if key in ledger && HasLectureId(ledger[key], oldId) {
        store := store[key := Doc(ledger[key].doc.(id := Some(newId)))];
      }
      assert order[..i + 1] == order[..i] + [key];
      i := i + 1;
    }
    assert order[..i] == order;
  }

  /** A rename touches only matching documents and only their id: keys,
      lecturers and every other record stay as they were, and when the ids
      differ no document keeps the old id. */
  lemma RenameAllChangesOnlyIds(ledger: Lectures, oldId: string, newId: string)
    ensures forall k | k in ledger && ledger[k].Doc? ::
              RenameAll(ledger, oldId, newId)[k].Doc? &&
              RenameAll(ledger, oldId, newId)[k].doc.lecturer == ledger[k].doc.lecturer
    ensures forall k | k in ledger && !HasLectureId(ledger[k], oldId) :: RenameAll(ledger, oldId, newId)[k] == ledger[k]
    ensures forall k | k in ledger && HasLectureId(ledger[k], oldId) :: HasLectureId(RenameAll(ledger, oldId, newId)[k], newId)
    ensures oldId != newId ==> forall k | k in ledger :: !HasLectureId(RenameAll(ledger, oldId, newId)[k], oldId)
  {
  }

  /** Repeating a rename changes nothing. */
  lemma RenameAllIdempotent(ledger: Lectures, oldId: string, newId: string)
    ensures RenameAll(RenameAll(ledger, oldId, newId), oldId, newId) == RenameAll(ledger, oldId, newId)
  {
    var once := RenameAll(ledger, oldId, newId);
    var twice := RenameAll(once, oldId, newId);
    assert forall k | k in once :: twice[k] == once[k];
  }

  /** Renaming back does not undo a rename once another lecture already
      had the new id: both end up with the old one. */
  lemma RenameBackMerges()
    ensures var m: Lectures := map["0" := Doc(Seed[0]), "1" := Doc(Seed[1])];
            RenameAll(RenameAll(m, "SSSP", "FoC"), "FoC", "SSSP") != m
  {
    var m: Lectures := map["0" := Doc(Seed[0]), "1" := Doc(Seed[1])];
    var back := RenameAll(RenameAll(m, "SSSP", "FoC"), "FoC", "SSSP");
    assert back["1"].doc.id == Some("SSSP");
  }
}
