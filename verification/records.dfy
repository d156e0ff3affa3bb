/** The student record and the results the ledger's handlers report. */
module Records {
  import opened Text

  datatype Option<T> = None | Some(value: T)

  /** One row of the table. `si` is the serial number as typed; `createdAt` is
      the creation time in milliseconds, which delete uses to find the record. */
  datatype Record = Record(
    si: string,
    id: string,
    name: string,
    topic: string,
    ownerID: string,
    referenced: bool,
    createdAt: int)

  /** Why a handler changed nothing (each one an alert, or a dismissed dialog, in the page). */
  datatype Error =
    | NoActiveIdentity   // no student ID has been set
    | EmptyIdentity      // the ID typed was blank
    | MissingField       // one of the four fields of a new record was blank
    | NotOwner           // the record belongs to another ID
    | RecordReferenced   // a referenced record cannot be deleted
    | Cancelled          // a confirm was declined or a prompt was cancelled

  datatype Outcome = Ok | Fail(error: Error)

  /** `dataList.findIndex(d => d.createdAt === stamp)`, with |rs| standing for -1. */
  function FindStamp(rs: seq<Record>, stamp: int): (i: nat)
    ensures i <= |rs|
    ensures i < |rs| ==> rs[i].createdAt == stamp
    ensures forall j :: 0 <= j < i ==> rs[j].createdAt != stamp
  {
    if rs == [] then 0
    else if rs[0].createdAt == stamp then 0
    else 1 + FindStamp(rs[1..], stamp)
  }

  /** No two records share a creation stamp. */
  predicate DistinctStamps(rs: seq<Record>) {
    forall i, j :: 0 <= i < j < |rs| ==> rs[i].createdAt != rs[j].createdAt
  }

  predicate StampUsed(rs: seq<Record>, stamp: int) {
    exists i :: 0 <= i < |rs| && rs[i].createdAt == stamp
  }

  /** The search for a record's own stamp stops at that record or before it, and
      exactly at it when stamps are distinct. */
  lemma FindOwnStamp(rs: seq<Record>, pos: nat)
    requires pos < |rs|
    ensures FindStamp(rs, rs[pos].createdAt) <= pos
    ensures DistinctStamps(rs) ==> FindStamp(rs, rs[pos].createdAt) == pos
  {
  }

  /** With a repeated stamp the search lands on the earlier record: here the
      record clicked is the second one, but the first one (someone else's, and
      referenced) is what `findIndex` returns. */
  lemma StampCollision()
    ensures var other := Record("1", "a", "A", "T", "S2", true, 7);
      var mine := Record("2", "b", "B", "U", "S1", false, 7);
      FindStamp([other, mine], mine.createdAt) == 0
  {
  }

  /** The fields a handler writes are trimmed and every owner is a non-empty ID. */
  predicate Tidy(r: Record) {
    Trimmed(r.si) && Trimmed(r.id) && Trimmed(r.name) && Trimmed(r.topic)
    && Trimmed(r.ownerID) && r.ownerID != ""
  }

  predicate AllTidy(rs: seq<Record>) {
    forall i :: 0 <= i < |rs| ==> Tidy(rs[i])
  }

  /** Replacing one record by one with the same stamp keeps the stamps distinct,
      and keeps the list tidy when the new record is. */
  lemma {:induction false} ReplaceKeeps(rs: seq<Record>, pos: nat, r: Record)
    requires pos < |rs| && r.createdAt == rs[pos].createdAt
    ensures DistinctStamps(rs) ==> DistinctStamps(rs[pos := r])
    ensures AllTidy(rs) && Tidy(r) ==> AllTidy(rs[pos := r])
  {
    var rs' := rs[pos := r];
    assert forall i :: 0 <= i < |rs| ==> rs'[i].createdAt == rs[i].createdAt;
  }

  /** `rs` with the record at `pos` replaced by `r`, which has the same stamp. */
  function Replace(rs: seq<Record>, pos: nat, r: Record): (rs': seq<Record>)
    requires pos < |rs| && r.createdAt == rs[pos].createdAt
    ensures |rs'| == |rs| && rs'[pos] == r
    ensures forall i :: 0 <= i < |rs| && i != pos ==> rs'[i] == rs[i]
    ensures DistinctStamps(rs) ==> DistinctStamps(rs')
    ensures AllTidy(rs) && Tidy(r) ==> AllTidy(rs')
  {
    ReplaceKeeps(rs, pos, r);
    rs[pos := r]
  }

  /** Removing a record keeps the stamps distinct and the list tidy. */
  lemma {:induction false} RemoveKeeps(rs: seq<Record>, i: nat)
    requires i < |rs|
    ensures DistinctStamps(rs) ==> DistinctStamps(rs[..i] + rs[i + 1..])
    ensures AllTidy(rs) ==> AllTidy(rs[..i] + rs[i + 1..])
  {
    var rs' := rs[..i] + rs[i + 1..];
    assert forall j :: 0 <= j < |rs'| ==> rs'[j] == rs[if j < i then j else j + 1];
  }

  /** Appending a record with an unused stamp keeps the stamps distinct; appending
      a tidy record keeps the list tidy. */
  lemma {:induction false} AppendKeeps(rs: seq<Record>, r: Record)
    ensures DistinctStamps(rs) && !StampUsed(rs, r.createdAt) ==> DistinctStamps(rs + [r])
    ensures AllTidy(rs) && Tidy(r) ==> AllTidy(rs + [r])
  {
    var rs' := rs + [r];
    assert forall j :: 0 <= j < |rs| ==> rs'[j] == rs[j];
  }
}
