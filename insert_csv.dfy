/** insert_csv_screen.go: turning the records of a bank statement (CSV
    rows already split into fields) into Expense records, and inserting
    the valid ones. Reading the file and splitting it into records is not
    part of this model: the records are the input. */
module InsertCsv {
  import opened Codec
  import opened Schema
  import opened Database

  datatype Date = Date(month: int, day: int, year: int)

  predicate IsLeap(year: int)
  {
    year % 4 == 0 && (year % 100 != 0 || year % 400 == 0)
  }

  /** Days in a month of the Gregorian calendar. */
  function DaysIn(month: int, year: int): (n: int)
    requires 1 <= month <= 12
    ensures 28 <= n <= 31
  {
    if month == 2 then (if IsLeap(year) then 29 else 28)
    else if month == 4 || month == 6 || month == 9 || month == 11 then 30
    else 31
  }

  /** time.Parse("01/02/2006", s): exactly two digits of month, '/', two
      digits of day, '/', four digits of year and nothing after; the month
      must be 1..12 and the day must exist in that month of that year. */
  function ParseDate(s: string): (r: Option<Date>)
    ensures r.Some? ==> |s| == 10 && s[2] == '/' && s[5] == '/'
    ensures r.Some? ==> 1 <= r.value.month <= 12 && 1 <= r.value.day <= DaysIn(r.value.month, r.value.year)
    ensures r.Some? ==> 0 <= r.value.year <= 9999
  {
    if |s| == 10 && s[2] == '/' && s[5] == '/'
       && AllDigits(s[..2]) && AllDigits(s[3..5]) && AllDigits(s[6..]) then
      var month := DigitsValue(s[..2]);
      var day := DigitsValue(s[3..5]);
      var year := DigitsValue(s[6..]);
      DigitsBound(s[..2]);
      DigitsBound(s[6..]);
      if 1 <= month <= 12 && 1 <= day <= DaysIn(month, year) then Some(Date(month, day, year)) else None
    else None
  }

  lemma {:induction false} DigitsBound(s: string)
    requires AllDigits(s)
    ensures DigitsValue(s) < Pow10(|s|)
    decreases |s|
  {
    if s != [] {
      DigitsBound(s[..|s| - 1]);
    }
  }

  /** n as exactly k digits, with leading zeros. */
  function PadDigits(n: nat, k: nat): (s: string)
    requires n < Pow10(k)
    ensures |s| == k && AllDigits(s) && DigitsValue(s) == n
    decreases k
  {
    if k == 0 then []
    else
      var front := PadDigits(n / 10, k - 1);
      var s := front + [DigitChar(n % 10)];
      assert s[..|s| - 1] == front;
      s
  }

  /** The MM/DD/YYYY text of a date. */
  function FormatDate(d: Date): string
    requires 1 <= d.month <= 12 && 1 <= d.day <= 31 && 0 <= d.year <= 9999
  {
    PadDigits(d.month, 2) + "/" + PadDigits(d.day, 2) + "/" + PadDigits(d.year, 4)
  }

  /** Every existing date in years 0..9999 is read back from its
      MM/DD/YYYY text, and nothing else parses from that text. */
  lemma FormatDateRoundTrip(d: Date)
    requires 1 <= d.month <= 12 && 1 <= d.day <= DaysIn(d.month, d.year) && 0 <= d.year <= 9999
    ensures ParseDate(FormatDate(d)) == Some(d)
  {
    var m, dd, y := PadDigits(d.month, 2), PadDigits(d.day, 2), PadDigits(d.year, 4);
    var s := FormatDate(d);
    assert s[..2] == m;
    assert s[3..5] == dd;
    assert s[6..] == y;
  }

  /** The effect of one field of a record on the entry being built, by
      column: 0 the date, 1 the description, 2 the debit, 3 the credit,
      4 the total (stored as the credit); other columns are ignored, and a
      field that does not parse leaves the entry as it was. */
  function ApplyColumn(entry: Expense, col: nat, field: string): Expense
  {
    if col == CsvDateCol then
      match ParseDate(field)
      case Some(d) => entry.(month := d.month, day := d.day, year := d.year)
      case None => entry
    else if col == CsvDescriptionCol then entry.(description := field)
    else if col == CsvDebitCol then
      match ParseAmount(field)
      case Some(v) => entry.(debit := v)
      case None => entry
    else if col == CsvCreditCol || col == CsvTotalCol then
      match ParseAmount(field)
      case Some(v) => entry.(credit := v)
      case None => entry
    else entry
  }

  /** The entry after the first n fields of the record, in column order. */
  function ApplyColumns(record: seq<string>, n: nat): Expense
    requires n <= |record|
    decreases n
  {
    if n == 0 then ZeroExpense else ApplyColumn(ApplyColumns(record, n - 1), n - 1, record[n - 1])
  }

  /** The record read column by column, stated field by field: the date
      only when column 0 parses, the description from column 1, the debit
      when column 2 parses, and the credit from the total in column 4 when
      it parses, else from column 3 when that parses, else zero. */
  function RecordFields(record: seq<string>): (e: Expense)
    ensures e.id == 0 && e.total == 0.0 && !e.valid
  {
    var date := if |record| > CsvDateCol then ParseDate(record[CsvDateCol]) else None;
    var debit := if |record| > CsvDebitCol then ParseAmount(record[CsvDebitCol]) else None;
    var credit := if |record| > CsvCreditCol then ParseAmount(record[CsvCreditCol]) else None;
    var total := if |record| > CsvTotalCol then ParseAmount(record[CsvTotalCol]) else None;
    Expense(
      0,
      if date.Some? then date.value.month else 0,
      if date.Some? then date.value.day else 0,
      if date.Some? then date.value.year else 0,
      if |record| > CsvDescriptionCol then record[CsvDescriptionCol] else "",
      if debit.Some? then debit.value else 0.0,
      if total.Some? then total.value else if credit.Some? then credit.value else 0.0,
      0.0,
      false)
  }

  /** Processing the columns in order gives the field-by-field reading. */
  lemma {:induction false} ApplyColumnsFields(record: seq<string>, n: nat)
    requires n <= |record|
    ensures ApplyColumns(record, n) == RecordFields(record[..n])
    decreases n
  {
    if n > 0 {
      ApplyColumnsFields(record, n - 1);
      var front := record[..n - 1];
      var cur := record[..n];
      assert cur[..n - 1] == front;
      assert forall i :: 0 <= i < n - 1 ==> cur[i] == front[i];
    }
  }

  /** Columns after the total are ignored. */
  lemma ExtraColumnsIgnored(record: seq<string>)
    requires |record| > CsvTotalCol + 1
    ensures RecordFields(record) == RecordFields(record[..CsvTotalCol + 1])
  {
  }

  /** The entry built from one record (the column loop of
      insertCSVIntoMongo). */
  method RecordToExpense(record: seq<string>) returns (entry: Expense)
    ensures entry == RecordFields(record)
  {
    entry := ZeroExpense;
    var i := 0;
    while i < |record|
      invariant 0 <= i <= |record|
      invariant entry == ApplyColumns(record, i)
    {
      var str := record[i];
      if i == CsvDateCol {
        var parsedDate := ParseDate(str);
        if parsedDate.Some? {
          entry := entry.(month := parsedDate.value.month, day := parsedDate.value.day, year := parsedDate.value.year);
        }
      } else if i == CsvDescriptionCol {
        entry := entry.(description := str);
      } else if i == CsvDebitCol {
        var val := ParseAmount(str);
        if val.Some? {
          entry := entry.(debit := val.value);
        }
      } else if i == CsvCreditCol {
        var val := ParseAmount(str);
        if val.Some? {
          entry := entry.(credit := val.value);
        }
      } else if i == CsvTotalCol {
        var val := ParseAmount(str);
        if val.Some? {
          entry := entry.(credit := val.value);
        }
      }
      i := i + 1;
    }
    ApplyColumnsFields(record, |record|);
    assert record[..|record|] == record;
  }

  /** check_if_entry_is_valid as declared in this file (over lower-case
      field names); it behaves as the schema's rule. */
  method CheckIfEntryIsValid(entry: Expense) returns (updated: Expense)
    ensures updated == Schema.CheckIfEntryIsValid(entry)
    ensures updated.valid <==> entry.valid || Eligible(entry)
  {
    updated := entry;
    if entry.month == 0 {
      return;
    } else if entry.day == 0 {
      return;
    } else if entry.year == 0 {
      return;
    } else if entry.description == "" {
      return;
    } else if entry.debit == 0.0 && entry.credit == 0.0 {
      return;
    }
    updated := updated.(valid := true);
  }

  /** The entry for one record, with its valid flag. */
  function CsvEntry(record: seq<string>): (e: Expense)
    ensures e.valid <==> Eligible(RecordFields(record))
  {
    Schema.CheckIfEntryIsValid(RecordFields(record))
  }

  /** An imported row is kept exactly when its date parses, its
      description is non-empty and it moves some money; the date it is
      stored with is then a real calendar date. */
  lemma CsvEntryValid(record: seq<string>)
    requires CsvEntry(record).valid
    ensures |record| > CsvDescriptionCol && record[CsvDescriptionCol] != ""
    ensures ParseDate(record[CsvDateCol]).Some?
    ensures 1 <= CsvEntry(record).month <= 12
    ensures 1 <= CsvEntry(record).day <= DaysIn(CsvEntry(record).month, CsvEntry(record).year)
    ensures CsvEntry(record).debit != 0.0 || CsvEntry(record).credit != 0.0
  {
  }

  /** The entries for a list of records, one per record, in order. */
  function CsvEntries(records: seq<seq<string>>): (r: seq<Expense>)
    ensures |r| == |records|
    decreases |records|
  {
    if records == [] then []
    else CsvEntries(records[..|records| - 1]) + [CsvEntry(records[|records| - 1])]
  }

  lemma {:induction false} CsvEntriesAt(records: seq<seq<string>>, i: nat)
    requires i < |records|
    ensures CsvEntries(records)[i] == CsvEntry(records[i])
    decreases |records|
  {
    var n := |records| - 1;
    if i < n {
      CsvEntriesAt(records[..n], i);
    }
  }

  /** Imported rows carry no id, so the server gives each one marked valid
      a fresh id and none is refused: every valid row is stored, in CSV
      order. */
  lemma CsvImportStoresEveryValidRow(docs: seq<Expense>, records: seq<seq<string>>)
    ensures var v := ValidOnly(CsvEntries(records));
            var r := InsertAll(docs, v);
            |r| == |docs| + |v|
            && forall i :: 0 <= i < |v| ==> r[|docs| + i] == v[i].(id := r[|docs| + i].id)
  {
    var entries := CsvEntries(records);
    forall i | 0 <= i < |entries|
      ensures entries[i].id == 0
    {
      CsvEntriesAt(records, i);
    }
    InsertValidNew(docs, entries);
  }

  /** insertCSVIntoMongo: every record becomes an entry, in order; only
      the valid entries are inserted, in order; every entry is returned. */
  method InsertCsvIntoMongo(db: Collection, records: seq<seq<string>>) returns (entries: seq<Expense>)
    modifies db
    ensures entries == CsvEntries(records)
    ensures db.docs == InsertAll(old(db.docs), ValidOnly(entries))
    ensures db.log == old(db.log) + InsertCalls(ValidOnly(entries))
  {
    entries := [];
    var r := 0;
    while r < |records|
      invariant 0 <= r <= |records|
      invariant entries == CsvEntries(records[..r])
      invariant db.docs == old(db.docs) && db.log == old(db.log)
    {
      var entry := RecordToExpense(records[r]);
      entry := CheckIfEntryIsValid(entry);
      assert records[..r + 1][..r] == records[..r];
      entries := entries + [entry];
      r := r + 1;
    }
    assert records[..r] == records;
    InsertValidEntries(db, entries);
  }

  /** The insert loop at the end of insertCSVIntoMongo: one InsertOne per
      valid entry, in order. */
  method InsertValidEntries(db: Collection, entries: seq<Expense>)
    modifies db
    ensures db.docs == InsertAll(old(db.docs), ValidOnly(entries))
    ensures db.log == old(db.log) + InsertCalls(ValidOnly(entries))
  {
    var i := 0;
    ghost var kept: seq<Expense> := [];
    while i < |entries|
      invariant 0 <= i <= |entries|
      invariant kept == ValidOnly(entries[..i])
      invariant db.docs == InsertAll(old(db.docs), kept)
      invariant db.log == old(db.log) + InsertCalls(kept)
    {
      assert entries[..i + 1][..i] == entries[..i];
      if entries[i].valid {
        db.InsertOne(entries[i]);
        InsertAllSnoc(old(db.docs), kept, entries[i]);
        InsertCallsSnoc(kept, entries[i]);
        assert db.log == old(db.log) + (InsertCalls(kept) + [InsertCall(entries[i])]);
        kept := kept + [entries[i]];
      }
      i := i + 1;
    }
    assert entries[..i] == entries;
  }
}
