/** mongo.go: the validity check, and the loops that turn lists of records
    into collection calls. Each Go function opens and closes its own client
    connection; here every function receives the collection instead. */
module Mongo {
  import opened Schema
  import opened Constants
  import opened Database

  /** checkIfEntryIsValid: the early-return cascade of mongo.go, which
      behaves as the schema's rule. The record is updated through a
      pointer in Go and returned here. */
  method CheckIfEntryIsValid(entry: Expense) returns (updated: Expense)
    ensures updated == Schema.CheckIfEntryIsValid(entry)
    ensures updated.valid <==> entry.valid || Eligible(entry)
  {
    updated := entry;
    if entry.month == 0 {
      return;
    } else if entry.day == 0 {
      return;
    } else if entry.year == 0 {
      return;
    } else if entry.description == "" {
      return;
    } else if entry.debit == 0.0 && entry.credit == 0.0 {
      return;
    }
    updated := updated.(valid := true);
  }

  /** mongoInsertEntries: one InsertOne per valid record, in order. */
  method InsertEntries(db: Collection, entries: seq<Expense>)
    modifies db
    ensures db.docs == InsertAll(old(db.docs), ValidOnly(entries))
    ensures db.log == old(db.log) + InsertCalls(ValidOnly(entries))
  {
    var i := 0;
    ghost var kept: seq<Expense> := [];
    while i < |entries|
      invariant 0 <= i <= |entries|
      invariant kept == ValidOnly(entries[..i])
      invariant db.docs == InsertAll(old(db.docs), kept)
      invariant db.log == old(db.log) + InsertCalls(kept)
    {
      assert entries[..i + 1][..i] == entries[..i];
      if entries[i].valid {
        db.InsertOne(entries[i]);
        InsertAllSnoc(old(db.docs), kept, entries[i]);
        InsertCallsSnoc(kept, entries[i]);
        assert db.log == old(db.log) + (InsertCalls(kept) + [InsertCall(entries[i])]);
        kept := kept + [entries[i]];
      }
      i := i + 1;
    }
    assert entries[..i] == entries;
  }

  /** The query document of mongoFindMatchingEntries, built by appending
      one criterion per set field of the search record. */
  method FindFilter(entry: Expense) returns (filter: Filter)
    ensures filter == FilterFor(entry)
  {
    var filters: seq<Criterion> := [];
    if entry.year != Invalid {
      filters := filters + [YearIs(entry.year)];
    }
    assert filters == YearPart(entry);
    if entry.month != Invalid {
      filters := filters + [MonthIs(entry.month)];
    }
    assert filters == YearPart(entry) + MonthPart(entry);
    if entry.day != Invalid {
      filters := filters + [DayIs(entry.day)];
    }
    assert filters == YearPart(entry) + MonthPart(entry) + DayPart(entry);
    if entry.description != "" {
      filters := filters + [DescriptionContains(entry.description)];
    }
    assert filters == YearPart(entry) + MonthPart(entry) + DayPart(entry) + DescriptionPart(entry);
    if entry.debit != Invalid as real {
      filters := filters + [DebitIs(entry.debit)];
    }
    assert filters == YearPart(entry) + MonthPart(entry) + DayPart(entry) + DescriptionPart(entry) + DebitPart(entry);
    if entry.credit != Invalid as real {
      filters := filters + [CreditIs(entry.credit)];
    }
    assert filters == Criteria(entry);
    filter := MatchAll;
    if |filters| > 0 {
      filter := And(filters);
    }
  }

  /** mongoFindMatchingEntries: the documents matching the search record,
      in storage order. */
  method FindMatchingEntries(db: Collection, entry: Expense) returns (expenses: seq<Expense>)
    modifies db
    ensures db.docs == old(db.docs)
    ensures expenses == Query(db.docs, FilterFor(entry))
    ensures db.log == old(db.log) + [FindCall(FilterFor(entry), expenses)]
  {
    var filter := FindFilter(entry);
    expenses := db.Find(filter);
  }

  /** mongoUpdateEntries: the i-th old record is overwritten with the i-th
      new one; Go indexes new_entries[idx], so it must be at least as long. */
  method UpdateEntries(db: Collection, oldEntries: seq<Expense>, newEntries: seq<Expense>)
    requires |newEntries| >= |oldEntries|
    modifies db
    ensures db.docs == UpdateAll(old(db.docs), oldEntries, newEntries)
    ensures db.log == old(db.log) + UpdateCalls(oldEntries, newEntries)
  {
    var i := 0;
    while i < |oldEntries|
      invariant 0 <= i <= |oldEntries|
      invariant db.docs == UpdateAll(old(db.docs), oldEntries[..i], newEntries)
      invariant db.log == old(db.log) + UpdateCalls(oldEntries[..i], newEntries)
    {
      assert oldEntries[..i + 1][..i] == oldEntries[..i];
      UpdateEntry(db, oldEntries[i], newEntries[i]);
      i := i + 1;
    }
    assert oldEntries[..i] == oldEntries;
  }

  /** mongoUpdateEntry: match on the old record's id and $set the six
      editable fields from the new record. */
  method UpdateEntry(db: Collection, oldEntry: Expense, newEntry: Expense)
    modifies db
    ensures db.docs == UpdateFirst(old(db.docs), oldEntry.id, SetOf(newEntry))
    ensures db.log == old(db.log) + [UpdateCall(oldEntry.id, SetOf(newEntry))]
  {
    var update := FieldSet(newEntry.year, newEntry.month, newEntry.day,
                           newEntry.description, newEntry.debit, newEntry.credit);
    db.UpdateOne(oldEntry.id, update);
  }

  /** mongoDeleteEntries: one delete by id per record, in order. */
  method DeleteEntries(db: Collection, entries: seq<Expense>)
    modifies db
    ensures db.docs == DeleteAll(old(db.docs), entries)
    ensures db.log == old(db.log) + DeleteCalls(entries)
  {
    var i := 0;
    while i < |entries|
      invariant 0 <= i <= |entries|
      invariant db.docs == DeleteAll(old(db.docs), entries[..i])
      invariant db.log == old(db.log) + DeleteCalls(entries[..i])
    {
      assert entries[..i + 1][..i] == entries[..i];
      DeleteEntry(db, entries[i]);
      i := i + 1;
    }
    assert entries[..i] == entries;
  }

  /** mongoDeleteEntry: DeleteOne with the filter {"_id": id}. */
  method DeleteEntry(db: Collection, entry: Expense)
    modifies db
    ensures db.docs == DeleteFirst(old(db.docs), entry.id)
    ensures db.log == old(db.log) + [DeleteCall(entry.id)]
  {
    db.DeleteOne(entry.id);
  }
}
