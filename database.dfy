/** The MongoDB collection that the screens talk to, as a collaborator: an
    in-memory list of documents with the four driver calls the program
    makes (InsertOne, UpdateOne, DeleteOne, Find), and a ghost log of every
    call in the order it was issued. Connection handling, BSON encoding and
    the driver's error returns are not part of this model. */
module Database {
  import opened Schema
  import opened Constants
  import opened Codec

  /** One entry of a query's $and list. */
  datatype Criterion =
    | YearIs(year: int)
    | MonthIs(month: int)
    | DayIs(day: int)
    | DescriptionContains(text: string)   // {"$regex": ".*" + text + ".*", "$options": "i"}
    | DebitIs(debit: real)
    | CreditIs(credit: real)

  /** The query document: {} or {"$and": [...]}. */
  datatype Filter = MatchAll | And(criteria: seq<Criterion>)

  predicate FoldMatchAt(hay: string, needle: string, i: int)
  {
    0 <= i && i + |needle| <= |hay| && EqualFold(hay[i..i + |needle|], needle)
  }

  /** Case-insensitive substring test: what the ".*text.*" regular
      expression with option "i" matches when text holds no regular
      expression operators. */
  predicate ContainsFold(hay: string, needle: string)
  {
    exists i :: 0 <= i <= |hay| && FoldMatchAt(hay, needle, i)
  }

  predicate Satisfies(e: Expense, c: Criterion)
  {
    match c
    case YearIs(y) => e.year == y
    case MonthIs(m) => e.month == m
    case DayIs(d) => e.day == d
    case DescriptionContains(t) => ContainsFold(e.description, t)
    case DebitIs(a) => e.debit == a
    case CreditIs(a) => e.credit == a
  }

  predicate AllHold(e: Expense, cs: seq<Criterion>)
  {
    forall c :: c in cs ==> Satisfies(e, c)
  }

  lemma AllHoldOne(e: Expense, c: Criterion)
    ensures AllHold(e, [c]) <==> Satisfies(e, c)
  {
    assert c in [c];
  }

  predicate Matches(f: Filter, e: Expense)
  {
    match f
    case MatchAll => true
    case And(cs) => AllHold(e, cs)
  }

  lemma AllHoldAppend(e: Expense, a: seq<Criterion>, b: seq<Criterion>)
    ensures AllHold(e, a + b) <==> AllHold(e, a) && AllHold(e, b)
  {
    assert forall c :: c in a + b <==> c in a || c in b;
  }

  /** The criteria a search record asks for, in the order the Go code
      appends them: one per numeric field that is not the Invalid sentinel,
      and a description criterion when the description is non-empty. */
  function Criteria(s: Expense): seq<Criterion>
  {
    YearPart(s) + MonthPart(s) + DayPart(s) + DescriptionPart(s) + DebitPart(s) + CreditPart(s)
  }

  function YearPart(s: Expense): seq<Criterion>
  {
    if s.year != Invalid then [YearIs(s.year)] else []
  }

  function MonthPart(s: Expense): seq<Criterion>
  {
    if s.month != Invalid then [MonthIs(s.month)] else []
  }

  function DayPart(s: Expense): seq<Criterion>
  {
    if s.day != Invalid then [DayIs(s.day)] else []
  }

  function DescriptionPart(s: Expense): seq<Criterion>
  {
    if s.description != "" then [DescriptionContains(s.description)] else []
  }

  function DebitPart(s: Expense): seq<Criterion>
  {
    if s.debit != Invalid as real then [DebitIs(s.debit)] else []
  }

  function CreditPart(s: Expense): seq<Criterion>
  {
    if s.credit != Invalid as real then [CreditIs(s.credit)] else []
  }

  /** The query for a search record: the empty document when no criterion
      is set, otherwise a single $and of all of them. */
  function FilterFor(s: Expense): Filter
  {
    if Criteria(s) == [] then MatchAll else And(Criteria(s))
  }

  /** What a search matches: every set criterion must hold, and unset
      criteria (the sentinel, or a blank description) match anything. */
  lemma FilterForMeaning(s: Expense, e: Expense)
    ensures Matches(FilterFor(s), e) <==>
      (s.year != Invalid ==> e.year == s.year)
      && (s.month != Invalid ==> e.month == s.month)
      && (s.day != Invalid ==> e.day == s.day)
      && (s.description != "" ==> ContainsFold(e.description, s.description))
      && (s.debit != Invalid as real ==> e.debit == s.debit)
      && (s.credit != Invalid as real ==> e.credit == s.credit)
  {
    var p1, p2, p3 := YearPart(s), MonthPart(s), DayPart(s);
    var p4, p5, p6 := DescriptionPart(s), DebitPart(s), CreditPart(s);
    AllHoldAppend(e, p1, p2);
    AllHoldAppend(e, p1 + p2, p3);
    AllHoldAppend(e, p1 + p2 + p3, p4);
    AllHoldAppend(e, p1 + p2 + p3 + p4, p5);
    AllHoldAppend(e, p1 + p2 + p3 + p4 + p5, p6);
    if s.year != Invalid { AllHoldOne(e, YearIs(s.year)); }
    if s.month != Invalid { AllHoldOne(e, MonthIs(s.month)); }
    if s.day != Invalid { AllHoldOne(e, DayIs(s.day)); }
    if s.description != "" { AllHoldOne(e, DescriptionContains(s.description)); }
    if s.debit != Invalid as real { AllHoldOne(e, DebitIs(s.debit)); }
    if s.credit != Invalid as real { AllHoldOne(e, CreditIs(s.credit)); }
  }

  /** The filter is the empty document exactly when every criterion is
      unset, and it then matches every record. */
  lemma FilterForEmpty(s: Expense)
    ensures FilterFor(s) == MatchAll <==>
      s.year == Invalid && s.month == Invalid && s.day == Invalid && s.description == ""
      && s.debit == Invalid as real && s.credit == Invalid as real
    ensures FilterFor(s).And? ==> 0 < |FilterFor(s).criteria| <= 6
  {
  }

  /** The body of a {"$set": ...} update: the six user-editable fields. */
  datatype FieldSet = FieldSet(year: int, month: int, day: int, description: string, debit: real, credit: real)

  function ApplySet(e: Expense, u: FieldSet): (r: Expense)
    ensures r.id == e.id && r.total == e.total && r.valid == e.valid
    ensures r.year == u.year && r.month == u.month && r.day == u.day
    ensures r.description == u.description && r.debit == u.debit && r.credit == u.credit
  {
    e.(year := u.year, month := u.month, day := u.day,
       description := u.description, debit := u.debit, credit := u.credit)
  }

  /** The documents matching a filter, in storage order. */
  function Query(docs: seq<Expense>, f: Filter): (r: seq<Expense>)
    ensures |r| <= |docs|
    ensures forall e :: e in r ==> e in docs && Matches(f, e)
    decreases |docs|
  {
    if docs == [] then []
    else (if Matches(f, docs[0]) then [docs[0]] else []) + Query(docs[1..], f)
  }

  /** A document is in a query's result exactly when it is stored and
      matches the filter. */
  lemma {:induction false} QueryMembers(docs: seq<Expense>, f: Filter, e: Expense)
    ensures e in Query(docs, f) <==> e in docs && Matches(f, e)
    decreases |docs|
  {
    if docs != [] {
      QueryMembers(docs[1..], f, e);
      assert docs == [docs[0]] + docs[1..];
    }
  }

  /** UpdateOne: the first document with the id gets the new fields. */
  function UpdateFirst(docs: seq<Expense>, id: ObjectId, u: FieldSet): (r: seq<Expense>)
    ensures |r| == |docs|
    decreases |docs|
  {
    if docs == [] then []
    else if docs[0].id == id then [ApplySet(docs[0], u)] + docs[1..]
    else [docs[0]] + UpdateFirst(docs[1..], id, u)
  }

  /** DeleteOne: the first document with the id is removed. */
  function DeleteFirst(docs: seq<Expense>, id: ObjectId): (r: seq<Expense>)
    ensures |r| == |docs| || |r| == |docs| - 1
    ensures forall e :: e in r ==> e in docs
    decreases |docs|
  {
    if docs == [] then []
    else if docs[0].id == id then docs[1..]
    else [docs[0]] + DeleteFirst(docs[1..], id)
  }

  /** The six editable fields of a record, as a $set payload. */
  function SetOf(e: Expense): (u: FieldSet)
    ensures ApplySet(ZeroExpense, u) == ZeroExpense.(year := e.year, month := e.month, day := e.day,
              description := e.description, debit := e.debit, credit := e.credit)
  {
    FieldSet(e.year, e.month, e.day, e.description, e.debit, e.credit)
  }

  /** No two stored documents share an id. */
  predicate UniqueIds(docs: seq<Expense>)
  {
    forall i, j :: 0 <= i < |docs| && 0 <= j < |docs| && docs[i].id == docs[j].id ==> i == j
  }

  function IdsOf(entries: seq<Expense>): set<ObjectId>
  {
    set i | 0 <= i < |entries| :: entries[i].id
  }

  /** An id above every stored one, standing for the ObjectId the server
      generates: it is not zero and no stored document has it. */
  function FreshId(docs: seq<Expense>): (id: ObjectId)
    ensures id != 0 && id !in IdsOf(docs)
    ensures forall i :: 0 <= i < |docs| ==> docs[i].id < id
    decreases |docs|
  {
    if docs == [] then 1
    else
      var n := |docs| - 1;
      var m := FreshId(docs[..n]);
      assert forall i :: 0 <= i < n ==> docs[..n][i] == docs[i];
      if docs[n].id < m then m else docs[n].id + 1
  }

  /** The collection after one InsertOne. The _id tag is omitempty, so a
      record whose id is zero is sent without one and the server stores it
      under a fresh id. A record whose id is already stored is refused with
      a duplicate-key error, which the caller drops. */
  function Stored(docs: seq<Expense>, e: Expense): seq<Expense>
  {
    if e.id == 0 then docs + [e.(id := FreshId(docs))]
    else if e.id in IdsOf(docs) then docs
    else docs + [e]
  }

  /** A record with a stored id leaves the collection as it was; any other
      record is appended, under its own id when it has one and under a
      fresh one otherwise. */
  lemma StoredSpec(docs: seq<Expense>, e: Expense)
    ensures e.id != 0 && e.id in IdsOf(docs) ==> Stored(docs, e) == docs
    ensures !(e.id != 0 && e.id in IdsOf(docs)) ==>
              var r := Stored(docs, e);
              |r| == |docs| + 1 && r[..|docs|] == docs && r[|docs|] == e.(id := r[|docs|].id)
              && r[|docs|].id != 0 && r[|docs|].id !in IdsOf(docs)
              && (e.id != 0 ==> r[|docs|].id == e.id)
  {
    var r := Stored(docs, e);
    if !(e.id != 0 && e.id in IdsOf(docs)) {
      assert r[..|docs|] == docs;
    }
  }

  /** An insert never gives two documents the same id. */
  lemma StoredKeepsUnique(docs: seq<Expense>, e: Expense)
    requires UniqueIds(docs)
    ensures UniqueIds(Stored(docs, e))
  {
    var r := Stored(docs, e);
    StoredSpec(docs, e);
    if r != docs {
      assert forall i :: 0 <= i < |docs| ==> r[i] == docs[i] && docs[i].id in IdsOf(docs);
    }
  }

  /** The collection after inserting each record in turn. */
  function InsertAll(docs: seq<Expense>, rs: seq<Expense>): seq<Expense>
    decreases |rs|
  {
    if rs == [] then docs
    else Stored(InsertAll(docs, rs[..|rs| - 1]), rs[|rs| - 1])
  }

  /** Inserting records only ever appends, at most one document each. */
  lemma {:induction false} InsertAllPrefix(docs: seq<Expense>, rs: seq<Expense>)
    ensures var r := InsertAll(docs, rs);
            |docs| <= |r| <= |docs| + |rs| && r[..|docs|] == docs
    decreases |rs|
  {
    if rs != [] {
      var before := InsertAll(docs, rs[..|rs| - 1]);
      InsertAllPrefix(docs, rs[..|rs| - 1]);
      StoredSpec(before, rs[|rs| - 1]);
      var r := Stored(before, rs[|rs| - 1]);
      assert r[..|docs|] == before[..|before|][..|docs|];
    }
  }

  lemma InsertAllSnoc(docs: seq<Expense>, rs: seq<Expense>, e: Expense)
    ensures InsertAll(docs, rs + [e]) == Stored(InsertAll(docs, rs), e)
  {
    assert (rs + [e])[..|rs|] == rs;
  }

  /** Inserting records keeps every id unique. */
  lemma {:induction false} InsertAllUnique(docs: seq<Expense>, rs: seq<Expense>)
    requires UniqueIds(docs)
    ensures UniqueIds(InsertAll(docs, rs))
    decreases |rs|
  {
    if rs != [] {
      InsertAllUnique(docs, rs[..|rs| - 1]);
      StoredKeepsUnique(InsertAll(docs, rs[..|rs| - 1]), rs[|rs| - 1]);
    }
  }

  /** Records without an id are all stored: after the old documents, one
      document per record, in order, equal to the record but for the id
      the server gave it. */
  lemma {:induction false} InsertAllNew(docs: seq<Expense>, rs: seq<Expense>)
    requires forall i :: 0 <= i < |rs| ==> rs[i].id == 0
    ensures var r := InsertAll(docs, rs);
            |r| == |docs| + |rs|
            && forall i :: 0 <= i < |rs| ==> r[|docs| + i] == rs[i].(id := r[|docs| + i].id)
    decreases |rs|
  {
    if rs != [] {
      var n := |rs| - 1;
      var before := InsertAll(docs, rs[..n]);
      InsertAllNew(docs, rs[..n]);
      var r := Stored(before, rs[n]);
      StoredSpec(before, rs[n]);
      forall i | 0 <= i < |rs|
        ensures r[|docs| + i] == rs[i].(id := r[|docs| + i].id)
      {
        if i < n {
          assert r[|docs| + i] == before[|docs| + i];
          assert rs[..n][i] == rs[i];
        }
      }
    }
  }

  /** Of records without an id, every one marked valid is stored, in
      order, after the old documents. */
  lemma InsertValidNew(docs: seq<Expense>, entries: seq<Expense>)
    requires forall i :: 0 <= i < |entries| ==> entries[i].id == 0
    ensures var v := ValidOnly(entries);
            var r := InsertAll(docs, v);
            |r| == |docs| + |v|
            && forall i :: 0 <= i < |v| ==> r[|docs| + i] == v[i].(id := r[|docs| + i].id)
  {
    var v := ValidOnly(entries);
    forall i | 0 <= i < |v|
      ensures v[i].id == 0
    {
      ValidOnlyMembers(entries, v[i]);
    }
    InsertAllNew(docs, v);
  }

  /** The records whose valid flag is set, in their original order. */
  function ValidOnly(entries: seq<Expense>): (r: seq<Expense>)
    ensures |r| <= |entries|
    decreases |entries|
  {
    if entries == [] then []
    else
      var n := |entries| - 1;
      ValidOnly(entries[..n]) + (if entries[n].valid then [entries[n]] else [])
  }

  /** ValidOnly keeps exactly the valid records. */
  lemma {:induction false} ValidOnlyMembers(entries: seq<Expense>, x: Expense)
    ensures x in ValidOnly(entries) <==> x in entries && x.valid
    decreases |entries|
  {
    if entries != [] {
      var n := |entries| - 1;
      ValidOnlyMembers(entries[..n], x);
      assert entries == entries[..n] + [entries[n]];
    }
  }

  /** Keeping the valid records twice is keeping them once. */
  lemma {:induction false} ValidOnlyIdempotent(entries: seq<Expense>)
    ensures ValidOnly(ValidOnly(entries)) == ValidOnly(entries)
    decreases |entries|
  {
    if entries != [] {
      var n := |entries| - 1;
      var front := ValidOnly(entries[..n]);
      ValidOnlyIdempotent(entries[..n]);
      ValidOnlyAppend(front, if entries[n].valid then [entries[n]] else []);
    }
  }

  lemma {:induction false} ValidOnlyAppend(a: seq<Expense>, b: seq<Expense>)
    ensures ValidOnly(a + b) == ValidOnly(a) + ValidOnly(b)
    decreases |b|
  {
    if b == [] {
      assert a + b == a;
    } else {
      var n := |b| - 1;
      ValidOnlyAppend(a, b[..n]);
      assert (a + b)[..|a + b| - 1] == a + b[..n];
    }
  }

  /** One insert call per record, in order. */
  function InsertCalls(docs: seq<Expense>): (r: seq<Call>)
    ensures |r| == |docs| && forall i :: 0 <= i < |docs| ==> r[i] == InsertCall(docs[i])
  {
    seq(|docs|, i requires 0 <= i < |docs| => InsertCall(docs[i]))
  }

  /** One more insert call at the end. */
  lemma InsertCallsSnoc(docs: seq<Expense>, e: Expense)
    ensures InsertCalls(docs + [e]) == InsertCalls(docs) + [InsertCall(e)]
  {
  }

  /** One delete-by-id call per record, in order. */
  function DeleteCalls(entries: seq<Expense>): (r: seq<Call>)
    ensures |r| == |entries| && forall i :: 0 <= i < |entries| ==> r[i] == DeleteCall(entries[i].id)
  {
    seq(|entries|, i requires 0 <= i < |entries| => DeleteCall(entries[i].id))
  }

  /** One update call per old record, matching its id and carrying the
      fields of the new record at the same position. */
  function UpdateCalls(olds: seq<Expense>, news: seq<Expense>): (r: seq<Call>)
    requires |news| >= |olds|
    ensures |r| == |olds| && forall i :: 0 <= i < |olds| ==> r[i] == UpdateCall(olds[i].id, SetOf(news[i]))
  {
    seq(|olds|, i requires 0 <= i < |olds| => UpdateCall(olds[i].id, SetOf(news[i])))
  }

  /** The collection after deleting each record's id in turn. */
  function DeleteAll(docs: seq<Expense>, entries: seq<Expense>): seq<Expense>
    decreases |entries|
  {
    if entries == [] then docs
    else DeleteFirst(DeleteAll(docs, entries[..|entries| - 1]), entries[|entries| - 1].id)
  }

  /** The collection after updating each old record's id with the new
      record at the same position. */
  function UpdateAll(docs: seq<Expense>, olds: seq<Expense>, news: seq<Expense>): seq<Expense>
    requires |news| >= |olds|
    decreases |olds|
  {
    if olds == [] then docs
    else
      var n := |olds| - 1;
      UpdateFirst(UpdateAll(docs, olds[..n], news), olds[n].id, SetOf(news[n]))
  }

  /** The tail of a collection with unique ids has unique ids, none of
      them the head's. */
  lemma UniqueTail(docs: seq<Expense>)
    requires UniqueIds(docs) && docs != []
    ensures UniqueIds(docs[1..])
    ensures forall e :: e in docs[1..] ==> e.id != docs[0].id
  {
    var rest := docs[1..];
    forall i, j | 0 <= i < |rest| && 0 <= j < |rest| && rest[i].id == rest[j].id
      ensures i == j
    {
      assert docs[i + 1].id == docs[j + 1].id;
    }
    forall e | e in rest
      ensures e.id != docs[0].id
    {
      var k :| 0 <= k < |rest| && rest[k] == e;
      assert docs[k + 1] == e;
    }
  }

  /** Putting a record whose id is new in front keeps the ids unique. */
  lemma UniqueCons(x: Expense, rest: seq<Expense>)
    requires UniqueIds(rest)
    requires forall e :: e in rest ==> e.id != x.id
    ensures UniqueIds([x] + rest)
  {
    var r := [x] + rest;
    assert forall k :: 0 <= k < |rest| ==> rest[k].id != x.id;
    forall i, j | 0 <= i < |r| && 0 <= j < |r| && r[i].id == r[j].id
      ensures i == j
    {
      if i > 0 && j > 0 {
        assert rest[i - 1].id == rest[j - 1].id;
      }
    }
  }

  /** With unique ids, DeleteOne removes exactly the document with that id. */
  lemma {:induction false} DeleteFirstSpec(docs: seq<Expense>, id: ObjectId)
    requires UniqueIds(docs)
    ensures UniqueIds(DeleteFirst(docs, id))
    ensures forall e :: e in DeleteFirst(docs, id) <==> e in docs && e.id != id
    decreases |docs|
  {
    if docs != [] {
      var rest := docs[1..];
      UniqueTail(docs);
      assert docs == [docs[0]] + rest;
      if docs[0].id != id {
        DeleteFirstSpec(rest, id);
        assert DeleteFirst(docs, id) == [docs[0]] + DeleteFirst(rest, id);
        UniqueCons(docs[0], DeleteFirst(rest, id));
      }
    }
  }

  /** With unique ids, deleting a list of records removes exactly the
      documents whose id appears in the list and keeps every other one. */
  lemma {:induction false} DeleteAllSpec(docs: seq<Expense>, entries: seq<Expense>)
    requires UniqueIds(docs)
    ensures UniqueIds(DeleteAll(docs, entries))
    ensures forall e :: e in DeleteAll(docs, entries) <==> e in docs && e.id !in IdsOf(entries)
    decreases |entries|
  {
    if entries != [] {
      var n := |entries| - 1;
      DeleteAllSpec(docs, entries[..n]);
      DeleteFirstSpec(DeleteAll(docs, entries[..n]), entries[n].id);
      IdsOfSnoc(entries);
    }
  }

  lemma IdsOfSnoc(entries: seq<Expense>)
    requires entries != []
    ensures IdsOf(entries) == IdsOf(entries[..|entries| - 1]) + {entries[|entries| - 1].id}
  {
    var n := |entries| - 1;
    forall x | x in IdsOf(entries)
      ensures x in IdsOf(entries[..n]) + {entries[n].id}
    {
      var i :| 0 <= i < |entries| && entries[i].id == x;
      if i < n { assert entries[..n][i].id == x; }
    }
    forall x | x in IdsOf(entries[..n])
      ensures x in IdsOf(entries)
    {
      var i :| 0 <= i < n && entries[..n][i].id == x;
      assert entries[i].id == x;
    }
  }

  /** With unique ids, UpdateOne rewrites the six fields of the document
      with that id and leaves every other document as it was. */
  lemma {:induction false} UpdateFirstSpec(docs: seq<Expense>, id: ObjectId, u: FieldSet)
    requires UniqueIds(docs)
    ensures forall i :: 0 <= i < |docs| ==>
              UpdateFirst(docs, id, u)[i] == if docs[i].id == id then ApplySet(docs[i], u) else docs[i]
    ensures UniqueIds(UpdateFirst(docs, id, u))
    decreases |docs|
  {
    if docs != [] {
      var rest := docs[1..];
      assert UniqueIds(rest) by {
        forall i, j | 0 <= i < |rest| && 0 <= j < |rest| && rest[i].id == rest[j].id
          ensures i == j
        {
          assert docs[i + 1].id == docs[j + 1].id;
        }
      }
      if docs[0].id == id {
        forall i | 1 <= i < |docs|
          ensures docs[i].id != id
        {
        }
      } else {
        UpdateFirstSpec(rest, id, u);
      }
      var r := UpdateFirst(docs, id, u);
      assert forall i :: 0 <= i < |docs| ==> r[i].id == docs[i].id;
    }
  }

  datatype Call =
    | InsertCall(doc: Expense)
    | UpdateCall(id: ObjectId, fields: FieldSet)
    | DeleteCall(id: ObjectId)
    | FindCall(filter: Filter, result: seq<Expense>)

  class Collection {
    var docs: seq<Expense>
    ghost var log: seq<Call>

    constructor (initial: seq<Expense>)
      ensures docs == initial && log == []
    {
      docs := initial;
      log := [];
    }

    method InsertOne(e: Expense)
      modifies this
      ensures docs == Stored(old(docs), e)
      ensures UniqueIds(old(docs)) ==> UniqueIds(docs)
      ensures log == old(log) + [InsertCall(e)]
    {
      if UniqueIds(docs) {
        StoredKeepsUnique(docs, e);
      }
      docs := Stored(docs, e);
      log := log + [InsertCall(e)];
    }

    method UpdateOne(id: ObjectId, u: FieldSet)
      modifies this
      ensures docs == UpdateFirst(old(docs), id, u)
      ensures UniqueIds(old(docs)) ==> UniqueIds(docs)
      ensures log == old(log) + [UpdateCall(id, u)]
    {
      if UniqueIds(docs) {
        UpdateFirstSpec(docs, id, u);
      }
      docs := UpdateFirst(docs, id, u);
      log := log + [UpdateCall(id, u)];
    }

    method DeleteOne(id: ObjectId)
      modifies this
      ensures docs == DeleteFirst(old(docs), id)
      ensures UniqueIds(old(docs)) ==> UniqueIds(docs)
      ensures log == old(log) + [DeleteCall(id)]
    {
      if UniqueIds(docs) {
        DeleteFirstSpec(docs, id);
      }
      docs := DeleteFirst(docs, id);
      log := log + [DeleteCall(id)];
    }

    method Find(f: Filter) returns (r: seq<Expense>)
      modifies this
      ensures r == Query(docs, f) && docs == old(docs)
      ensures log == old(log) + [FindCall(f, r)]
    {
      r := Query(docs, f);
      log := log + [FindCall(f, r)];
    }
  }
}
