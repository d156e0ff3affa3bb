/** The page's state and its button handlers. The record list and the
    self-declared student ID are the fields of one Ledger object; each handler is
    a method, and a browser dialog it opens is an argument (`confirm` a bool,
    `prompt` an Option that is None when cancelled). Saving to local storage and
    redrawing the table after a change are left to the caller. */
module StudentLedger {
  import opened Text
  import opened Records

  class Ledger {
    var records: seq<Record>
    var currentUser: string

    /** What the handlers keep true once it holds: the ID and every field a
        handler writes are trimmed, and every record has a non-empty owner. */
    predicate Valid()
      reads this
    {
      Trimmed(currentUser)
      && AllTidy(records)
    }

    /** Start-up: the list saved in local storage, or an empty one, and no ID. */
    constructor (saved: Option<seq<Record>>)
      ensures records == (if saved.Some? then saved.value else [])
      ensures currentUser == ""
    {
      records := if saved.Some? then saved.value else [];
      currentUser := "";
    }

    /** The "set ID" button: a blank ID is refused, any other replaces the current one. */
    method SetIdentity(raw: string) returns (outcome: Outcome)
      modifies this
      ensures records == old(records)
      ensures Trim(raw) == "" ==> outcome == Fail(EmptyIdentity) && currentUser == old(currentUser)
      ensures Trim(raw) != "" ==> outcome == Ok && currentUser == Trim(raw)
      ensures old(Valid()) ==> Valid()
    {
      var v := Trim(raw);
      if v == "" {
        return Fail(EmptyIdentity);
      }
      currentUser := v;
      return Ok;
    }

    /** The "add" button: needs an ID and four non-blank fields, and appends one
        record owned by the current ID, not referenced, stamped `now`. */
    method Create(si: string, id: string, name: string, topic: string, now: int)
      returns (outcome: Outcome)
      modifies this
      ensures currentUser == old(currentUser)
      ensures old(currentUser) == "" ==> outcome == Fail(NoActiveIdentity)
      ensures old(currentUser) != ""
              && (Trim(si) == "" || Trim(id) == "" || Trim(name) == "" || Trim(topic) == "")
              ==> outcome == Fail(MissingField)
      ensures outcome == Ok <==>
        old(currentUser) != "" && Trim(si) != "" && Trim(id) != "" && Trim(name) != "" && Trim(topic) != ""
      ensures outcome != Ok ==> records == old(records)
      ensures outcome == Ok ==>
        records == old(records)
                   + [Record(Trim(si), Trim(id), Trim(name), Trim(topic), old(currentUser), false, now)]
      ensures old(Valid()) ==> Valid()
      ensures old(DistinctStamps(records)) && !old(StampUsed(records, now)) ==> DistinctStamps(records)
    {
      if currentUser == "" {
        return Fail(NoActiveIdentity);
      }
      var s, i, n, t := Trim(si), Trim(id), Trim(name), Trim(topic);
      if s == "" || i == "" || n == "" || t == "" {
        return Fail(MissingField);
      }
      var item := Record(s, i, n, t, currentUser, false, now);
      AppendKeeps(records, item);
      records := records + [item];
      return Ok;
    }

    /** The "reference" button: anyone may flip the flag of any record. */
    method ToggleReference(pos: nat)
      requires pos < |records|
      modifies this
      ensures currentUser == old(currentUser)
      ensures records == old(records)[pos := old(records)[pos].(referenced := !old(records)[pos].referenced)]
      ensures old(Valid()) ==> Valid()
      ensures old(DistinctStamps(records)) ==> DistinctStamps(records)
    {
      var item := records[pos];
      records := Replace(records, pos, item.(referenced := !item.referenced));
    }

    /** The "edit" button: only the owner may edit, and the four answers replace
        the four fields, trimmed but not checked for blanks; a cancelled prompt
        changes nothing. Owner, flag and stamp are kept. */
    method Edit(pos: nat, newSi: Option<string>, newId: Option<string>,
                newName: Option<string>, newTopic: Option<string>)
      returns (outcome: Outcome)
      requires pos < |records|
      modifies this
      ensures currentUser == old(currentUser)
      ensures old(currentUser) == "" ==> outcome == Fail(NoActiveIdentity)
      ensures old(currentUser) != "" && old(records)[pos].ownerID != old(currentUser)
              ==> outcome == Fail(NotOwner)
      ensures old(currentUser) != "" && old(records)[pos].ownerID == old(currentUser)
              && (newSi.None? || newId.None? || newName.None? || newTopic.None?)
              ==> outcome == Fail(Cancelled)
      ensures outcome == Ok <==>
        old(currentUser) != "" && old(records)[pos].ownerID == old(currentUser)
        && newSi.Some? && newId.Some? && newName.Some? && newTopic.Some?
      ensures outcome != Ok ==> records == old(records)
      ensures outcome == Ok ==>
        records == old(records)[pos := old(records)[pos].(
          si := Trim(newSi.value), id := Trim(newId.value),
          name := Trim(newName.value), topic := Trim(newTopic.value))]
      ensures old(Valid()) ==> Valid()
      ensures old(DistinctStamps(records)) ==> DistinctStamps(records)
    {
      if currentUser == "" {
        return Fail(NoActiveIdentity);
      }
      var item := records[pos];
      if item.ownerID != currentUser {
        return Fail(NotOwner);
      }
      if newSi.None? || newId.None? || newName.None? || newTopic.None? {
        return Fail(Cancelled);
      }
      var s, i, n, t := Trim(newSi.value), Trim(newId.value), Trim(newName.value), Trim(newTopic.value);
      var edited := item.(si := s, id := i, name := n, topic := t);
      assert Tidy(item) ==> Tidy(edited);
      records := Replace(records, pos, edited);
      return Ok;
    }

    /** The "delete" button: only the owner, only an unreferenced record, only
        after confirmation; then the first record with the clicked record's stamp
        is spliced out. */
    method Delete(pos: nat, confirmed: bool) returns (outcome: Outcome)
      requires pos < |records|
      modifies this
      ensures currentUser == old(currentUser)
      ensures old(currentUser) == "" ==> outcome == Fail(NoActiveIdentity)
      ensures old(currentUser) != "" && old(records)[pos].ownerID != old(currentUser)
              ==> outcome == Fail(NotOwner)
      ensures old(currentUser) != "" && old(records)[pos].ownerID == old(currentUser)
              && old(records)[pos].referenced
              ==> outcome == Fail(RecordReferenced)
      ensures old(currentUser) != "" && old(records)[pos].ownerID == old(currentUser)
              && !old(records)[pos].referenced && !confirmed
              ==> outcome == Fail(Cancelled)
      ensures outcome == Ok <==>
        old(currentUser) != "" && old(records)[pos].ownerID == old(currentUser)
        && !old(records)[pos].referenced && confirmed
      ensures outcome != Ok ==> records == old(records)
      ensures outcome == Ok ==>
        var i := FindStamp(old(records), old(records)[pos].createdAt);
        i <= pos && records == old(records)[..i] + old(records)[i + 1..]
      ensures outcome == Ok && old(DistinctStamps(records)) ==>
        records == old(records)[..pos] + old(records)[pos + 1..]
      ensures old(Valid()) ==> Valid()
      ensures old(DistinctStamps(records)) ==> DistinctStamps(records)
    {
      if currentUser == "" {
        return Fail(NoActiveIdentity);
      }
      var item := records[pos];
      if item.ownerID != currentUser {
        return Fail(NotOwner);
      }
      if item.referenced {
        return Fail(RecordReferenced);
      }
      if !confirmed {
        return Fail(Cancelled);
      }
      FindOwnStamp(records, pos);
      var i := FindStamp(records, item.createdAt);
      if i < |records| {
        RemoveKeeps(records, i);
        records := records[..i] + records[i + 1..];
      }
      return Ok;
    }

    /** The "clear all" button: after confirmation the list is emptied, whoever owns what. */
    method ClearAll(confirmed: bool) returns (outcome: Outcome)
      modifies this
      ensures currentUser == old(currentUser)
      ensures confirmed ==> outcome == Ok && records == []
      ensures !confirmed ==> outcome == Fail(Cancelled) && records == old(records)
      ensures old(Valid()) ==> Valid()
    {
      if !confirmed {
        return Fail(Cancelled);
      }
      records := [];
      return Ok;
    }
  }

  /** Setting an ID and adding a record: the record is owned by that ID. */
  method CreateScenario() {
    var ledger := new Ledger(None);
    TrimFixes("S1");
    var outcome := ledger.SetIdentity("S1");
    TrimFixes("7");
    TrimFixes("Ann");
    TrimFixes("Art");
    assert Trim("7") == "7" && Trim("Ann") == "Ann" && Trim("Art") == "Art";
    outcome := ledger.Create("7", "7", "Ann", "Art", 100);
    assert outcome == Ok;
    var made := Record("7", "7", "Ann", "Art", "S1", false, 100);
    assert ledger.records == [] + [made];
  }

  /** Deleting a saved record: another ID cannot, its owner cannot while it is
      referenced, and once it is unreferenced the owner's delete removes it. */
  method DeleteScenario() {
    TrimFixes("S1");
    TrimFixes("S2");
    var mine := Record("1", "C-7", "Alice", "Math", "S1", false, 100);
    var ledger := new Ledger(Some([mine]));
    var outcome := ledger.SetIdentity("S2");
    outcome := ledger.Delete(0, true);
    assert outcome == Fail(NotOwner);
    ledger.ToggleReference(0);
    outcome := ledger.SetIdentity("S1");
    outcome := ledger.Delete(0, true);
    assert outcome == Fail(RecordReferenced);
    ledger.ToggleReference(0);
    outcome := ledger.Delete(0, true);
    assert outcome == Ok && ledger.records == [];
  }

  /** Two records share a stamp: S2's referenced record comes first, S1's own
      unreferenced one second. S1 deletes its own record, and the guards pass on
      it, but the splice removes the first record with that stamp: S2's
      referenced record is the one that goes. */
  method CollisionScenario() {
    TrimFixes("S1");
    var other := Record("1", "a", "A", "T", "S2", true, 7);
    var mine := Record("2", "b", "B", "U", "S1", false, 7);
    var ledger := new Ledger(Some([other, mine]));
    var outcome := ledger.SetIdentity("S1");
    assert FindStamp([other, mine], 7) == 0;
    outcome := ledger.Delete(1, true);
    assert outcome == Ok && ledger.records == [mine];
  }
}
