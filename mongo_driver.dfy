/** mongo_driver.go: a second copy of the collection helpers (insert,
    find, delete; no update). It declares the same Go functions as mongo.go,
    so the two files cannot be linked into one program; each is modelled as
    its own module. */
module MongoDriver {
  import opened Schema
  import opened Constants
  import opened Database

  /** mongoInsertEntries: one InsertOne per valid record, in order. */
  method InsertEntries(db: Collection, entries: seq<Expense>)
    modifies db
    ensures db.docs == InsertAll(old(db.docs), ValidOnly(entries))
    ensures db.log == old(db.log) + InsertCalls(ValidOnly(entries))
  {
    var i := 0;
    ghost var kept: seq<Expense> := [];
    while i < |entries|
      invariant 0 <= i <= |entries|
      invariant kept == ValidOnly(entries[..i])
      invariant db.docs == InsertAll(old(db.docs), kept)
      invariant db.log == old(db.log) + InsertCalls(kept)
    {
      assert entries[..i + 1][..i] == entries[..i];
      if entries[i].valid {
        db.InsertOne(entries[i]);
        InsertAllSnoc(old(db.docs), kept, entries[i]);
        InsertCallsSnoc(kept, entries[i]);
        assert db.log == old(db.log) + (InsertCalls(kept) + [InsertCall(entries[i])]);
        kept := kept + [entries[i]];
      }
      i := i + 1;
    }
    assert entries[..i] == entries;
  }

  /** The query document of mongoFindMatchingEntries, built by appending
      one criterion per set field of the search record. */
  method FindFilter(entry: Expense) returns (filter: Filter)
    ensures filter == FilterFor(entry)
  {
    var filters: seq<Criterion> := [];
    if entry.year != Invalid {
      filters := filters + [YearIs(entry.year)];
    }
    assert filters == YearPart(entry);
    if entry.month != Invalid {
      filters := filters + [MonthIs(entry.month)];
    }
    assert filters == YearPart(entry) + MonthPart(entry);
    if entry.day != Invalid {
      filters := filters + [DayIs(entry.day)];
    }
    assert filters == YearPart(entry) + MonthPart(entry) + DayPart(entry);
    if entry.description != "" {
      filters := filters + [DescriptionContains(entry.description)];
    }
    assert filters == YearPart(entry) + MonthPart(entry) + DayPart(entry) + DescriptionPart(entry);
    if entry.debit != Invalid as real {
      filters := filters + [DebitIs(entry.debit)];
    }
    assert filters == YearPart(entry) + MonthPart(entry) + DayPart(entry) + DescriptionPart(entry) + DebitPart(entry);
    if entry.credit != Invalid as real {
      filters := filters + [CreditIs(entry.credit)];
    }
    assert filters == Criteria(entry);
    filter := MatchAll;
    if |filters| > 0 {
      filter := And(filters);
    }
  }

  /** mongoFindMatchingEntries: the documents matching the search record,
      in storage order. */
  method FindMatchingEntries(db: Collection, entry: Expense) returns (expenses: seq<Expense>)
    modifies db
    ensures db.docs == old(db.docs)
    ensures expenses == Query(db.docs, FilterFor(entry))
    ensures db.log == old(db.log) + [FindCall(FilterFor(entry), expenses)]
  {
    var filter := FindFilter(entry);
    expenses := db.Find(filter);
  }

  /** mongoDeleteEntries: one delete by id per record, in order. */
  method DeleteEntries(db: Collection, entries: seq<Expense>)
    modifies db
    ensures db.docs == DeleteAll(old(db.docs), entries)
    ensures db.log == old(db.log) + DeleteCalls(entries)
  {
    var i := 0;
    while i < |entries|
      invariant 0 <= i <= |entries|
      invariant db.docs == DeleteAll(old(db.docs), entries[..i])
      invariant db.log == old(db.log) + DeleteCalls(entries[..i])
    {
      assert entries[..i + 1][..i] == entries[..i];
      DeleteEntry(db, entries[i]);
      i := i + 1;
    }
    assert entries[..i] == entries;
  }

  /** mongoDeleteEntry: DeleteOne with the filter {"_id": id}. */
  method DeleteEntry(db: Collection, entry: Expense)
    modifies db
    ensures db.docs == DeleteFirst(old(db.docs), entry.id)
    ensures db.log == old(db.log) + [DeleteCall(entry.id)]
  {
    db.DeleteOne(entry.id);
  }
}
