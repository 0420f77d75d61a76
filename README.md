# budgie: a verified model of the expense tracker's editors

budgie is a terminal expense tracker. Expenses live in a MongoDB collection. The user works with them on a few screens:

- A manual-insert table of ten rows.
- A CSV import of bank statements.
- A search form.
- The result screens where found records are marked for deletion or edited in a grid.

Each screen keeps its state in a struct. Each key press goes through the screen's `Update`.

This project models, one Dafny module per Go file:

- the cell-validation passes;
- the modified-cell tracker;
- the 2-D cursor, paging and view machines;
- the selection mask;
- the commit gates;
- the search-form validator;
- the query-filter builder;
- the validity check;
- the CSV column mapping.

Modules and classes:

- Each screen is a `class`. Its fields are the Go struct's fields.
- Its methods (`Update` and the helpers it calls) change them in place.
- Every method is proved against a pure step function on a snapshot datatype `State`.
- The properties the code promises are lemmas about those step functions.

Modules shared by the screens:

- `Codec`: `strconv.Atoi`/`Itoa`, `time.Parse("Jan")`, and `ParseFloat`/`FormatFloat('f', 2)` over exact reals.
- `Cells`: the six text cells of a row, their parse rules, and their edit-mode and insert-mode statuses.
- `EditTable`: its helpers are duplicated word for word in found_entries_model.go and update_entries_model.go, so they are defined once here and used by both screens. The rows below cite the found_entries_model.go copy.
- `Seqs`: mask selection, counting and toggling.
- `Grid`: paging.

MongoDB is replaced by `Database.Collection`, an in-memory collection. It has a ghost `log` that records every insert, update, delete and find call in order. InsertOne follows the server: a record whose id is zero (left out by the `omitempty` tag, schema.go:8) gets a fresh id, and a record whose id is already stored is refused. So every write keeps ids unique, and the update and delete lemmas that assume unique ids apply to every collection the program builds from one with unique ids.

Two behaviours of the code are easy to miss:

- In the manual-insert table, a blank debit or blank credit is an error whenever another cell of the row is filled in, so an insert needs both amounts (insert_manual_entry.go:388-410).
- The search screen of find_entry_screen.go accepts only a month abbreviation, with no numeric fallback (find_entry_screen.go:132-142). `FindEntryScreen.NumericMonthRejected` states this for every non-empty text of digits.

## Model

| member | source | states |
|---|---|---|
| Schema.CheckIfEntryIsValid | schema.go:40-54 | the result differs from the input at most in `valid`, and `valid` is set iff it already was or month, day and year are non-zero, the description is non-empty and some amount is non-zero |
| Schema.CheckNeverClears | schema.go:40-54 | a record already marked valid comes back unchanged: the flag is never cleared |
| Schema.CheckIdempotent | schema.go:40-54 | checking twice is the same as checking once |
| Schema.CheckAmounts | schema.go:49-53 | for a record whose date and description are filled in, the flag is set iff debit or credit is non-zero |
| Mongo.CheckIfEntryIsValid | mongo.go:48-62 | the in-place update of mongo.go gives the same record as the schema rule, and sets `valid` iff it was set or the record is eligible |
| Mongo.InsertEntries | mongo.go:64-85 | one InsertOne per record marked valid, in input order: the collection is what storing those records one by one gives, and the log gains one insert call each |
| Mongo.FindFilter | mongo.go:88-116 | the criteria appended one by one form the filter of `Database.FilterFor` (see FilterForMeaning) |
| Mongo.FindMatchingEntries | mongo.go:87-145 | the collection is unchanged; the result is its matching documents in storage order; one find call is logged |
| Mongo.UpdateEntries | mongo.go:147-151 | each old record's document, by id, receives the six fields of the new record at the same index, in order; needs at least as many new records as old ones |
| Mongo.UpdateEntry | mongo.go:153-185 | the first document with the old record's id gets the `$set` of the new record's six fields; one update call is logged |
| Mongo.DeleteEntries | mongo.go:187-191 | one delete by id per record, in order |
| Mongo.DeleteEntry | mongo.go:193-217 | the first document with the record's id is removed; one delete call is logged |
| MongoDriver.InsertEntries | mongo_driver.go:12-33 | one InsertOne per record marked valid, in input order: the collection is what storing those records one by one gives |
| MongoDriver.FindFilter | mongo_driver.go:36-64 | the filter is the one of `Database.FilterFor`: one criterion per field that is not the sentinel, description iff non-empty, match-all when none |
| MongoDriver.FindMatchingEntries | mongo_driver.go:35-93 | the collection is unchanged; the result is its matching documents; one find call is logged |
| MongoDriver.DeleteEntries | mongo_driver.go:95-99 | one delete by id per record, in order |
| MongoDriver.DeleteEntry | mongo_driver.go:101-125 | the first document with the record's id is removed; one delete call is logged |
| Database.FilterForMeaning | mongo.go:88-116 | a document matches the built filter iff it equals the search record on each numeric field that is not the sentinel -99 and, when the search description is non-empty, contains it ignoring case |
| Database.FilterForEmpty | mongo.go:113-116 | the filter is the empty document (match all) iff every field is unset; otherwise it is one `$and` of one to six criteria |
| Database.ApplySet | mongo.go:170-179 | the `$set` of mongoUpdateEntry writes year, month, day, description, debit and credit, and keeps id, total and valid |
| Database.SetOf | mongo.go:171-179 | the update payload carries the new record's six fields |
| Database.Query | mongo.go:133-144 | the found documents are documents of the collection that match the filter, never more than the collection holds |
| Database.QueryMembers | mongo.go:133-144 | a record is found iff it is in the collection and matches the filter |
| Database.UpdateFirst | mongo.go:181 | UpdateOne keeps the number of documents |
| Database.UpdateFirstSpec | mongo.go:170-181 | with unique ids, exactly the document with the id gets the new fields, the others are untouched, and ids stay unique |
| Database.DeleteFirst | mongo.go:210-213 | DeleteOne removes at most one document and adds none |
| Database.DeleteFirstSpec | mongo.go:210-213 | with unique ids, what remains is exactly the documents whose id differs, and ids stay unique |
| Database.DeleteAllSpec | mongo.go:187-191 | after deleting a list, what remains is exactly the documents whose id is not among the list's ids |
| Database.ValidOnly | mongo.go:80-84 | the records sent to InsertOne are no more than the input |
| Database.ValidOnlyMembers | mongo.go:80-84 | a record is inserted iff it is in the input and marked valid |
| Database.ValidOnlyIdempotent | mongo.go:80-84 | filtering the inserted records again changes nothing |
| Database.ValidOnlyAppend | mongo.go:80-84 | the insert filter distributes over concatenation, so record order is kept |
| Database.FreshId | schema.go:8 | the id given to a record sent without one is non-zero and above every stored id, so no stored document has it |
| Database.StoredSpec | mongo.go:82 | one InsertOne leaves the collection as it was when the id is already stored, and otherwise appends the record, under its own id when it has one and under a fresh id otherwise |
| Database.StoredKeepsUnique | mongo.go:82 | one InsertOne never gives two documents the same id |
| Database.InsertAllPrefix | mongo.go:80-84 | an insert loop only appends, at most one document per record |
| Database.InsertAllSnoc | mongo.go:80-84 | the insert loop handles the records one at a time, in order |
| Database.InsertAllUnique | mongo.go:80-84 | an insert loop keeps ids unique |
| Database.InsertAllNew | mongo.go:80-84 | records without an id all get stored, after the old documents and in order, each equal to its record except for the id the server gives it |
| Database.InsertValidNew | mongo.go:80-84 | when no record has an id, every record marked valid is stored, after the old documents and in order |
| Database.InsertCallsSnoc | mongo.go:82 | one more record adds one insert call at the end of the log |
| Database.InsertCalls | mongo.go:82 | one insert call per inserted record, in order |
| Database.DeleteCalls | mongo.go:188-190 | one delete call per record, by id, in order |
| Database.UpdateCalls | mongo.go:148-150 | call i updates old record i's id with new record i's fields |
| Database.Collection.constructor | mongo.go:78 | a collection holding the given documents and an empty call log |
| Database.Collection.InsertOne | mongo.go:82 | stores the record as the server does (a fresh id for a record without one, a duplicate id refused), keeps ids unique, and logs the call |
| Database.Collection.UpdateOne | mongo.go:181 | updates the first document with the id, keeps ids unique, and logs the call |
| Database.Collection.DeleteOne | mongo.go:213 | removes the first document with the id, keeps ids unique, and logs the call |
| Database.Collection.Find | mongo.go:133-142 | returns the matching documents, changes none, and logs the call with its result |
| Codec.Atoi | found_entries_model.go:305 | a parsed integer lies in the 64-bit range and comes from non-empty text |
| Codec.Itoa | found_entries_model.go:69-71 | `strconv.Itoa` writes a '-' exactly for a negative number, and never yields blank text |
| Codec.ItoaNonEmpty | found_entries_model.go:428 | `strconv.Itoa` never yields blank text |
| Codec.NatDigitsCorrect | found_entries_model.go:428 | Itoa of a natural number is a non-empty digit string whose value is the number |
| Codec.AtoiItoa | found_entries_model.go:428 | parsing the text Itoa prints gives the number back, for every 64-bit integer |
| Codec.FindMonth | found_entries_model.go:321 | the month table is searched in order; a hit is the first abbreviation equal ignoring case, a miss means none past the index matches |
| Codec.ParseMonthName | found_entries_model.go:321-323 | `time.Parse("Jan", s)` succeeds with month m iff s equals the m-th abbreviation ignoring case, and fails iff no abbreviation matches |
| Codec.ParseMonth | found_entries_model.go:320-334 | a month is the abbreviation's number when one matches, else an Atoi integer that lies in 1..12, else an error |
| Codec.ParseDay | found_entries_model.go:343-350 | a day parses iff Atoi succeeds with a value in 1..31, whatever the month |
| Codec.DotIndex | found_entries_model.go:371 | finds the first decimal point of an amount |
| Codec.ParseAmount | found_entries_model.go:371 | a parsed amount comes from non-empty text |
| Codec.CentsTextRoundTrip | found_entries_model.go:452 | parsing the two-decimal text of c cents gives c/100 exactly |
| Codec.RoundHalfEven | found_entries_model.go:73-74 | the whole number nearest a non-negative value, an exact half going to the even neighbour |
| Codec.CentsNearest | found_entries_model.go:73-74 | the cents `FormatFloat(x, 'f', 2, 64)` prints lie within half a cent of x, and are even at an exact half cent |
| Codec.CentsIsNearestEven | found_entries_model.go:73-74 | any whole number of cents within half a cent of x, and even at an exact half cent, is the one printed: the rounding rule has one answer |
| Codec.CentsAtTies | found_entries_model.go:73-74 | exact half cents go to the even cent: 0.125 prints 0.12, -0.375 prints -0.38 and 0.375 prints 0.38 |
| Codec.Format2 | found_entries_model.go:73-74 | `FormatFloat(x, 'f', 2, 64)` writes a '-' exactly when the rounded amount is negative, at least four characters in all, with the '.' third from the end |
| Codec.Format2RoundTrip | found_entries_model.go:452 | `FormatFloat(x, 'f', 2, 64)` parsed back gives x rounded to the nearest cent, an exact half cent to the even one |
| Codec.CentsOfCents | found_entries_model.go:452 | an amount that is already a whole number of cents survives formatting exactly |
| Seqs.AllFalse | find_entry_screen.go:206 | `make([]bool, n)`: n flags, none set |
| Seqs.Toggle | find_entry_screen.go:209-213 | the flag at i flips and no other flag changes |
| Seqs.ToggleTwice | find_entry_screen.go:209-213 | toggling the same flag twice restores the mask |
| Seqs.ToggleCount | find_entry_screen.go:209-213 | a toggle changes the number of selected rows by exactly one, down if the row was selected |
| Seqs.CountAllFalse | find_entry_screen.go:206 | a fresh mask selects nothing |
| Seqs.CountTrueBounds | found_entries_model.go:546-554 | the selected count is at most the mask length, and positive iff some row is selected |
| Seqs.SelectLength | found_entries_model.go:413-424 | rejectUnselectedRows returns as many entries as there are set flags among its rows |
| Seqs.SelectMembers | found_entries_model.go:413-424 | an entry is kept iff it sits at an index whose flag is set |
| Seqs.SelectZip | found_entries_model.go:222-225 | filtering two aligned lists with the same mask keeps them aligned |
| Seqs.SelectNone | found_entries_model.go:413-424 | with no flag set nothing is kept |
| Seqs.Zip | found_entries_model.go:222-225 | pairs the old and new lists index by index |
| Grid.NumEntriesOnPage | find_entry_screen.go:91 | the rows on a page are at most ten, at least one on a page that starts inside the result, and never run past its end |
| Grid.RowOnPageInRange | find_entry_screen.go:91-94 | a row strictly inside the current page addresses an existing result at page*10+row |
| Grid.LastPageEmptyIff | find_entry_screen.go:101-106 | Right reaches a page with no rows exactly when the number of results is a multiple of ten |
| Cells.SetCell | insert_manual_entry.go:184-209 | writes one cell and leaves the other five as they were |
| Cells.RemoveLastChar | insert_manual_entry.go:219-226 | the text without its last character when non-empty, unchanged when empty |
| Cells.TypeInto | insert_manual_entry.go:182-209 | the key text is appended to the cursor cell only while that cell is shorter than its width (5, 36 or 15); no other cell changes; a cursor outside the six columns changes nothing |
| Cells.EraseFrom | insert_manual_entry.go:139-154 | backspace trims the last character of the cursor cell only |
| Cells.EraseBlankCell | insert_manual_entry.go:139-154 | backspace on an empty cell, or outside the six columns, is a no-op |
| Cells.TypeIntoKeepsWidth | insert_manual_entry.go:182-209 | a key of one character never takes a cell past its width |
| Cells.EraseUndoesType | insert_manual_entry.go:139-209 | typing one character into a cell with room and then erasing restores the row |
| Cells.OthersFilledCases | found_entries_model.go:313 | "some other cell is filled" means one of the five other cells is non-empty |
| Cells.EditStatus | found_entries_model.go:301-401 | edit rules: a filled cell is error iff it does not parse, never inactive; a blank date or description cell is error iff another cell is filled; a blank debit (credit) is error iff date or description is filled and credit (debit) is blank |
| Cells.InsertStatus | insert_manual_entry.go:311-411 | insert rules: a filled cell is error iff it does not parse; a blank cell is error iff another cell is filled; a blank credit in an all-blank row is selected, not inactive |
| Cells.InsertStatusAgrees | insert_manual_entry.go:313-378 | for date and description cells, and for filled amount cells, the insert and edit rules agree |
| Cells.BlankAmountRules | insert_manual_entry.go:388-410 | a blank amount is an insert error but not an edit error exactly when another cell is filled and either the other amount is filled or no date or description cell is |
| Cells.ParsedExpense | found_entries_model.go:298-402 | each parsed field holds the parsed cell value and stays zero when the cell does not parse; the description is copied |
| Cells.RowExpense | found_entries_model.go:404-407 | the row's record is the parsed record with `valid` set iff it is eligible |
| Cells.EditErrorFreeRow | found_entries_model.go:301-405 | a non-blank row without edit errors has month 1..12, day 1..31, a description and some amount, and is valid iff its year and an amount are non-zero |
| Cells.InsertErrorFreeRow | insert_manual_entry.go:311-411 | a non-blank row without insert errors has all six cells filled and parsing |
| Cells.BlankRowHasNoError | insert_manual_entry.go:323-327 | an all-blank row is inactive everywhere in edit mode, and inactive except for a selected credit in insert mode |
| Cells.RowRecords | found_entries_model.go:296-408 | one checked record per text row, in order |
| Cells.ValidateYear | found_entries_model.go:303-318 | the year case yields the parsed year and the status of both rule sets |
| Cells.ValidateMonth | found_entries_model.go:319-341 | the month case: abbreviation first, then 1..12 |
| Cells.ValidateDay | found_entries_model.go:342-357 | the day case: 1..31 |
| Cells.ValidateDescription | found_entries_model.go:358-368 | the description case |
| Cells.ValidateInsertDebit | insert_manual_entry.go:379-394 | the insert debit case |
| Cells.ValidateInsertCredit | insert_manual_entry.go:395-410 | the insert credit case |
| Cells.ValidateEditDebit | found_entries_model.go:369-384 | the edit debit case |
| Cells.ValidateEditCredit | found_entries_model.go:385-400 | the edit credit case |
| Cells.RowText | found_entries_model.go:62-76 | the text row of a record: Itoa of year, month and day, the description, and the two amounts to two decimals, each rounded to the nearest cent with exact half cents to the even one |
| Cells.RowsText | found_entries_model.go:62-76 | populateEntries: one text row per found record, in order |
| Cells.BaselineCell | found_entries_model.go:428-458 | the text checkIfEntryModified compares a cell against is that cell of the record's text row |
| Cells.ModifiedFlags | found_entries_model.go:426-464 | flag f is set iff cell f differs from the text form of the stored field f; the Selected column is never flagged |
| Cells.UnmodifiedIffPopulated | found_entries_model.go:426-464 | no flag is set iff the row is exactly the populated text of its record |
| Cells.ItoaIsNoMonthName | found_entries_model.go:321 | a number printed by Itoa is never read as a month abbreviation |
| Cells.PopulatedDateParses | found_entries_model.go:62-76 | the populated year, month and day text parses back to the stored values |
| Cells.PopulatedCellSelected | found_entries_model.go:62-76 | every cell of a populated row with a description is filled in and parses, so its status is Selected |
| Cells.PopulatedRowParses | found_entries_model.go:296-405 | the record parsed from a populated row is the stored one with a zero id and its amounts rounded to cents |
| Cells.PopulatedRowRoundTrip | found_entries_model.go:296-405 | an unedited row of a well-formed record has no error cell and parses back to the record with its amounts rounded to cents |
| EditTable.PopulatedTableTracks | found_entries_model.go:62-76 | right after populateEntries every modified flag is 0 |
| EditTable.FlagMeansEdited | found_entries_model.go:426-464 | in every reachable grid, modified[y][x] is set iff cell x of row y differs from its baseline text |
| EditTable.Remark | found_entries_model.go:426-464 | recomputing one row's flags leaves the cursor and the statuses alone |
| EditTable.RemarkTracks | found_entries_model.go:426-464 | retyping a row and recomputing its flags keeps every row's flags equal to its diff |
| EditTable.UpDownStayOnPage | update_entries_model.go:85-97 | Up clamps y at 0 and Down moves only while y < rows-on-page - 1; x is unchanged |
| EditTable.RightWalk | update_entries_model.go:105-113 | Right steps x up to 6 (the Selected column); at x = 6 it wraps to x = 0 of the next row only below row 9, and otherwise stays put |
| EditTable.LeftFromFirstColumn | update_entries_model.go:98-104 | Left at x = 0 sets x to 5 (credit, not 6) and decrements y with no lower bound |
| EditTable.LeftUndoesRight | update_entries_model.go:98-113 | Left undoes Right inside a row |
| EditTable.EditedRow | found_entries_model.go:301-401 | the validation pass gives each field cell its edit status and keeps the Selected column's |
| EditTable.EditedGrid | found_entries_model.go:296-408 | rows of the result get their new statuses; the rows below keep theirs |
| EditTable.ValidateEditCell | found_entries_model.go:302-401 | one step of the column switch |
| EditTable.ValidateEditRow | found_entries_model.go:298-405 | the column loop yields the parsed record and the row's statuses |
| EditTable.CheckIfEditedEntriesValid | found_entries_model.go:293-411 | the new grid is the edited grid and the records are one checked record per row |
| EditTable.CheckForInvalidEntries | found_entries_model.go:280-291 | true iff some selected row among the first len(found) has an error cell in columns 0..5 |
| EditTable.UnselectedErrorsIgnored | found_entries_model.go:284 | changing the statuses of unselected rows cannot change the answer |
| EditTable.RejectUnselectedRows | found_entries_model.go:413-424 | the kept entries are exactly those whose flag is set, in order, as many as there are set flags |
| EditTable.CheckIfEntryModified | found_entries_model.go:426-464 | each field flag is set iff the cell differs from the baseline text; the Selected column's flag is kept |
| EditTable.NumSelectedEntries | found_entries_model.go:546-554 | the number of set flags |
| EditTable.ShowsActionPrompt | update_entries_model.go:484-497 | the action prompt is shown iff some row is selected |
| EditTable.EditedOriginals | found_entries_model.go:222-225 | entries_being_modified is as long as filtered_valid_edits |
| EditTable.UpdatePairsSameRow | found_entries_model.go:222-229 | update call k pairs a selected row's stored record with that same row's edited record |
| EditTable.AcceptedRowsWellFormed | found_entries_model.go:226-229 | a non-blank selected row of an accepted edit commit has month 1..12, day 1..31, a description and some amount |
| EditTable.BlankSelectedRowPassesGate | found_entries_model.go:226-229 | a selected row erased to blank passes the gate, and its edit is the zero record |
| EditTable.UneditedRowsPass | found_entries_model.go:296-405 | untouched rows of well-formed records raise no error and re-check to the record with amounts rounded to cents |
| EditTable.SelectUpdateEntryStyle | found_entries_model.go:598-608 | style priority: cursor, then error, then modified (question), then inactive |
| EditTable.EditedCellsStandOut | found_entries_model.go:598-608 | away from the cursor and without an error, a cell is highlighted as modified iff its text differs from the record's |
| EditTable.ActiveViewStyle | found_entries_model.go:572-578 | the selected style iff the view is the active one, else the text style |
| InsertManual.Create | insert_manual_entry.go:46-54 | ten blank rows, cursor (0,0), the table view |
| InsertManual.Advance | insert_manual_entry.go:97-125 | Right and Tab keep the state consistent |
| InsertManual.Retreat | insert_manual_entry.go:87-137 | Left and Shift+Tab keep the state consistent |
| InsertManual.Step | insert_manual_entry.go:60-217 | every key but the commit keeps the state consistent |
| InsertManual.StepNext | insert_manual_entry.go:68-69 | the screen quits iff the key is Ctrl+C or q |
| InsertManual.AdvanceWalksCells | insert_manual_entry.go:97-125 | in the table, Right and Tab step x, wrap to x = 0 of the next row, and at x = 5 of row 9 switch to the confirm view |
| InsertManual.UpDownViews | insert_manual_entry.go:71-85 | Up in the confirm view returns to the table without moving the cursor; Up in the table clamps at 0; Down at row 9 enters the confirm view |
| InsertManual.LeftFromFirstCellLeavesGrid | insert_manual_entry.go:87-95 | Left at (0,0) moves to (5,-1), where typing would index out of range |
| InsertManual.EnterInTableConfirms | insert_manual_entry.go:178-179 | Enter in the table only switches to the confirm view |
| InsertManual.EditTouchesOneCell | insert_manual_entry.go:139-209 | typing or backspace changes only the cursor cell, as TypeInto or RemoveLastChar says, and nothing else |
| InsertManual.InsertRowStatus | insert_manual_entry.go:311-411 | the insert status of each of a row's six cells |
| InsertManual.ValidationGrid | insert_manual_entry.go:307-418 | the status grid the pass writes: one status row per table row |
| InsertManual.ValidateCell | insert_manual_entry.go:312-411 | one step of the column switch |
| InsertManual.ValidateRow | insert_manual_entry.go:309-412 | the column loop yields the parsed record and the row's statuses |
| InsertManual.ValidateAndCheckRow | insert_manual_entry.go:309-415 | the row's record after check_if_entry_is_valid, with its statuses |
| InsertManual.FilterEmptyRows | insert_manual_entry.go:425-452 | keeps, in order, exactly the records with a non-zero number or a description |
| InsertManual.KeepNonEmptyMembers | insert_manual_entry.go:425-452 | a record is kept iff it is an input record and not empty |
| InsertManual.KeepNonEmptyIsSelect | insert_manual_entry.go:425-452 | filter_empty_rows is the order-preserving selection by the non-empty mask |
| InsertManual.KeepNonEmptyOfEmpties | insert_manual_entry.go:425-452 | only empty records in, nothing out |
| InsertManual.BlankRowIsEmpty | insert_manual_entry.go:432-446 | a blank row's record is dropped as empty |
| InsertManual.CommittedRowOf | insert_manual_entry.go:417-420 | every committed record is the non-empty record of one table row |
| InsertManual.NonEmptyRowNotBlank | insert_manual_entry.go:432-446 | a row whose record is non-empty has some text |
| InsertManual.ErrorFreeGridRow | insert_manual_entry.go:160-168 | with no error anywhere in the grid, no cell of any row is an error |
| InsertManual.CompleteRowFields | insert_manual_entry.go:329-367 | a row with every cell filled and parsing has month 1..12, day 1..31 and a description |
| InsertManual.ManualInsertStoresEveryValidRow | insert_manual_entry.go:157-173 | rows typed by hand carry no id, so a commit stores every committed record marked valid, in row order |
| InsertManual.CommittedRowComplete | insert_manual_entry.go:388-410 | a row with some text in an error-free grid has all six cells filled in and parsed, a month in 1..12, a day in 1..31 and a description |
| InsertManual.CommittedRecordsComplete | insert_manual_entry.go:157-173 | every record an error-free commit inserts comes from a row whose six cells are all filled and parse, with month 1..12, day 1..31 and a description |
| InsertManual.FreshTableCommitsNothing | insert_manual_entry.go:46-54 | a fresh table has no error and commits no record |
| InsertManual.ManualInsertModel.constructor | insert_manual_entry.go:46-54 | the state of createManualInsertScreenModel |
| InsertManual.ValidateEntries | insert_manual_entry.go:307-418 | the row loop's statuses are the status grid of the rows and its records one checked record per row |
| InsertManual.ManualInsertModel.InsertManualEntriesIntoMongo | insert_manual_entry.go:304-423 | writes the status grid of the current rows and returns their non-empty checked records |
| InsertManual.ManualInsertModel.AnyEntryInvalid | insert_manual_entry.go:160-168 | true iff some cell of the ten rows is an error |
| InsertManual.ManualInsertModel.Commit | insert_manual_entry.go:157-177 | with no error cell the valid records are inserted in order and the post-insert screen is next; otherwise nothing is inserted and the view returns to the table |
| InsertManual.ManualInsertModel.Update | insert_manual_entry.go:60-217 | the key's step, or the commit when Enter is pressed in the confirm view |
| InsertManual.ManualInsertModel.MoveForward | insert_manual_entry.go:97-125 | the Right/Tab step |
| InsertManual.ManualInsertModel.MoveBack | insert_manual_entry.go:87-137 | the Left/Shift+Tab step |
| InsertManual.StyleIfCursorIsHere | insert_manual_entry.go:261-269 | the cursor style on the cursor cell, else the error style iff the status is error, else inactive |
| InsertCsv.DaysIn | insert_csv_screen.go:134-135 | the days of a month in the Gregorian calendar |
| InsertCsv.ParseDate | insert_csv_screen.go:134-135 | `time.Parse("01/02/2006")` accepts only MM/DD/YYYY with month 1..12 and day within that month |
| InsertCsv.FormatDateRoundTrip | insert_csv_screen.go:134-135 | every calendar date written as MM/DD/YYYY parses back to itself |
| InsertCsv.RecordFields | insert_csv_screen.go:128-159 | column 0 gives the date, 1 the description, 2 the debit; the credit is the parseable total of column 4, else column 3; a field that does not parse stays zero |
| InsertCsv.ApplyColumnsFields | insert_csv_screen.go:130-158 | the column loop over the record gives RecordFields, so a parseable total overwrites the credit |
| InsertCsv.ExtraColumnsIgnored | insert_csv_screen.go:130-158 | columns past the fifth are ignored |
| InsertCsv.RecordToExpense | insert_csv_screen.go:128-159 | the loop builds RecordFields of the record |
| InsertCsv.CheckIfEntryIsValid | insert_csv_screen.go:191-205 | the file's own check is the schema rule |
| InsertCsv.CsvEntry | insert_csv_screen.go:128-162 | a record's entry is valid iff its fields are eligible |
| InsertCsv.CsvEntryValid | insert_csv_screen.go:162 | a valid CSV entry has a parseable date, a description and some amount |
| InsertCsv.CsvEntries | insert_csv_screen.go:117-165 | one entry per record |
| InsertCsv.CsvEntriesAt | insert_csv_screen.go:117-165 | entry i is the entry of record i, in CSV order |
| InsertCsv.InsertCsvIntoMongo | insert_csv_screen.go:113-189 | returns every parsed entry in CSV order and inserts exactly the valid ones, in order |
| InsertCsv.CsvImportStoresEveryValidRow | insert_csv_screen.go:182-186 | imported rows carry no id, so every valid row is stored, in CSV order, equal to its record except for the id the server gives it |
| InsertCsv.InsertValidEntries | insert_csv_screen.go:182-186 | only entries marked valid are stored, one InsertOne each, in order |
| DeleteEntry.Create | delete_entry_model.go:37-48 | one text row per found record, nothing selected |
| DeleteEntry.Step | delete_entry_model.go:70-149 | every key but the commit keeps the state consistent and leaves the records and rows alone |
| DeleteEntry.StepNext | delete_entry_model.go:141-142 | the home screen is next iff the key is Ctrl+C |
| DeleteEntry.AfterCommit | delete_entry_model.go:132-138 | the state after the commit is consistent and keeps its page index |
| DeleteEntry.NavigationStaysInRange | delete_entry_model.go:77-101 | paging stays within 0..len/10 and the cursor stays on the page |
| DeleteEntry.PageMovesOnlyByArrows | delete_entry_model.go:91-101 | only Left (down by one) and Right (up by one) change the page, and each page change resets the cursor to 0 |
| DeleteEntry.ToggleFlipsOne | delete_entry_model.go:105-120 | x or Enter in the entries view flips exactly flag page*10+cursor and the count moves by one |
| DeleteEntry.ToggleTwiceRestores | delete_entry_model.go:105-120 | toggling twice restores the state |
| DeleteEntry.TabAlternates | delete_entry_model.go:103-104 | Tab alternates the two views |
| DeleteEntry.OtherKeysChangeNothing | delete_entry_model.go:143-144 | typed keys, q, backspace and shift+tab change nothing |
| DeleteEntry.RightCanReachEmptyPage | delete_entry_model.go:96-101 | with exactly ten results and the cursor on the first page, a toggle is in range, but Right moves to an empty page where a toggle would index out of range |
| DeleteEntry.CommitClearsSelection | delete_entry_model.go:132-138 | after the commit no flag is set, the mask has the refreshed length and the rows are rebuilt from it |
| DeleteEntry.CommitRemovesMarked | delete_entry_model.go:122-132 | the refreshed result is exactly the matching documents whose id is not among the marked ones |
| DeleteEntry.DeleteEntriesModel.constructor | delete_entry_model.go:37-48 | the state of createDeleteEntriesModel |
| DeleteEntry.DeleteEntriesModel.PopulateDeleteEntries | delete_entry_model.go:50-64 | the rows become the text rows of the found records, nothing else changes |
| DeleteEntry.DeleteEntriesModel.CollectMarked | delete_entry_model.go:122-127 | the marked records, in their original order |
| DeleteEntry.DeleteEntriesModel.NumDeleteSelectedEntries | delete_entry_model.go:231-239 | the number of set flags |
| DeleteEntry.DeleteEntriesModel.Commit | delete_entry_model.go:121-139 | exactly the marked records are deleted in order, the search is re-run once, and the state is reset from the new result |
| DeleteEntry.DeleteEntriesModel.Update | delete_entry_model.go:70-149 | the key's step; or, on Enter in the action view, exactly the marked records are deleted in order, the search is re-run and the state is reset |
| FindEntryModel.Create | find_entry_model.go:23-36 | blank fields, none validated |
| FindEntryModel.Accept | find_entry_model.go:70-74 | an accepted field keeps the form consistent |
| FindEntryModel.Reject | find_entry_model.go:75-78 | a rejected field keeps the form consistent |
| FindEntryModel.EnterField | find_entry_model.go:65-169 | Enter on a field keeps the form consistent |
| FindEntryModel.Step | find_entry_model.go:42-188 | keys keep the form consistent and the action and results |
| FindEntryModel.SearchNext | find_entry_model.go:173-177 | the delete screen is next iff the action text is "delete", else the update screen |
| FindEntryModel.BlankFieldAccepted | find_entry_model.go:79-84 | Enter on a blank field validates it, stores the sentinel -99 (or an empty description) and advances, except at credit |
| FindEntryModel.EnterAcceptsIffParses | find_entry_model.go:65-169 | Enter on a filled field validates it iff it parses; a failure changes only the flag and the feedback message |
| FindEntryModel.AcceptedValueStored | find_entry_model.go:67-157 | an accepted field stores its parsed value in the search record (month: abbreviation or 1..12) |
| FindEntryModel.EnterTouchesOneFlag | find_entry_model.go:65-169 | Enter changes no text and no other field's flag |
| FindEntryModel.SearchNeedsEveryField | find_entry_model.go:170-178 | the search starts only when every other field is validated and the current one is blank or parses |
| FindEntryModel.FreshFormNeverSearches | find_entry_model.go:23-36 | no single key on a fresh form starts a search |
| FindEntryModel.EditKeepsFlags | find_entry_model.go:59-185 | backspace trims and other keys append to the current field only; flags, cursor and search record are unchanged |
| FindEntryModel.CursorClamps | find_entry_model.go:49-57 | Up and Down clamp the cursor to 0..5 |
| FindEntryModel.FindEntriesModel.constructor | find_entry_model.go:23-36 | the state of createFindEntryModel |
| FindEntryModel.FindEntriesModel.AllValidFlags | find_entry_model.go:225-232 | true iff all six flags are set |
| FindEntryModel.FindEntriesModel.EnterOnField | find_entry_model.go:65-169 | the per-field Enter switch |
| FindEntryModel.FindEntriesModel.Update | find_entry_model.go:42-188 | the key's step; after an Enter that validates every field, the search runs and the delete or update screen comes next with its result |
| FindEntryScreen.Create | find_entry_screen.go:41-56 | the search view, no results, no field validated |
| FindEntryScreen.Accept | find_entry_screen.go:119-122 | an accepted field keeps the form consistent |
| FindEntryScreen.EnterField | find_entry_screen.go:114-203 | Enter on a field keeps the screen consistent |
| FindEntryScreen.Step | find_entry_screen.go:62-223 | every key keeps the screen consistent |
| FindEntryScreen.RejectChangesOnlyFeedback | find_entry_screen.go:123-125 | a failed parse changes only the feedback text: flag and cursor stay |
| FindEntryScreen.AcceptStoresValue | find_entry_screen.go:114-203 | an accepted field sets its flag, stores its value (the sentinel when blank) and advances except at credit |
| FindEntryScreen.NumericMonthRejected | find_entry_screen.go:132-142 | every non-empty text of digits in the month field is refused with the invalid-month feedback and nothing else changes: this screen has no numeric fallback |
| FindEntryScreen.FlagsNeverCleared | find_entry_screen.go:112-203 | a validated flag is never cleared |
| FindEntryScreen.AllValidKeepsSearching | find_entry_screen.go:204-207 | once every flag is set, each Enter on the form runs the search again |
| FindEntryScreen.FreshFormNeverSearches | find_entry_screen.go:41-56 | no single key on a fresh form starts a search |
| FindEntryScreen.ViewSwitches | find_entry_screen.go:69-95 | Up at entry 0 returns to the form; Down at the credit field enters the result list iff there are results |
| FindEntryScreen.ToggleFlipsOne | find_entry_screen.go:208-214 | Enter in the result list flips exactly flag page*10+cursor and the count moves by one |
| FindEntryScreen.SearchShowsNoErrors | find_entry_screen.go:204-207 | after a search no field shows the error style and nothing is selected |
| FindEntryScreen.SelectStyle | find_entry_screen.go:340-348 | selected on the cursor field, error on a field not validated, else inactive |
| FindEntryScreen.SelectEntryStyle | find_entry_screen.go:332-338 | selected iff the row is the cursor row, else inactive |
| FindEntryScreen.ActiveViewStyle | find_entry_screen.go:324-330 | selected iff the view is active, else the text style |
| FindEntryScreen.FindFilter | find_entry_screen.go:360-388 | the appended criteria form the filter of `Database.FilterFor` |
| FindEntryScreen.FindMatchingEntriesInMongo | find_entry_screen.go:359-417 | the matching documents, with the collection unchanged and one find logged |
| FindEntryScreen.FindEntryScreenModel.constructor | find_entry_screen.go:41-56 | the state of createFindEntryScreenModel |
| FindEntryScreen.FindEntryScreenModel.AllValidFlags | find_entry_screen.go:350-357 | true iff all six flags are set |
| FindEntryScreen.FindEntryScreenModel.EnterOnField | find_entry_screen.go:114-203 | the per-field Enter switch |
| FindEntryScreen.FindEntryScreenModel.RunSearch | find_entry_screen.go:205-206 | the result is the search's matching documents, and the mask is reset to all-false of that length |
| FindEntryScreen.FindEntryScreenModel.EnterOnForm | find_entry_screen.go:113-207 | Enter on the form validates the field and searches iff all six flags are then set |
| FindEntryScreen.FindEntryScreenModel.PressEnter | find_entry_screen.go:112-214 | Enter searches on the form or toggles in the list |
| FindEntryScreen.FindEntryScreenModel.Update | find_entry_screen.go:62-223 | the key's step, or the search |
| FoundEntries.Create | found_entries_model.go:48-60 | one text row per found record, nothing selected, in a consistent state |
| FoundEntries.DeleteStep | found_entries_model.go:89-209 | a delete-mode key keeps the shapes and the action |
| FoundEntries.EditStep | found_entries_model.go:89-273 | an edit-mode key keeps the shapes and the action |
| FoundEntries.Step | found_entries_model.go:82-278 | every key but the commit keeps the result, the search and the action |
| FoundEntries.DeleteStepKeepsInv | found_entries_model.go:89-209 | delete-mode keys keep the grid untouched and the rows populated |
| FoundEntries.EditStepKeepsInv | found_entries_model.go:89-273 | edit-mode keys keep the page and row cursor at 0 and the flags equal to the diff |
| FoundEntries.RetypeKeepsInv | found_entries_model.go:151-273 | an edit followed by checkIfEntryModified keeps the flags equal to the diff |
| FoundEntries.StepNext | found_entries_model.go:239-240 | the home screen is next iff the key is Ctrl+C |
| FoundEntries.AfterDelete | found_entries_model.go:201-208 | the state after the delete commit is consistent and keeps its page index |
| FoundEntries.Originals | found_entries_model.go:222 | the stored records to update are as many as the edits |
| FoundEntries.AfterCheck | found_entries_model.go:224 | the validation pass keeps the state consistent |
| FoundEntries.AfterReject | found_entries_model.go:232-235 | a refused commit keeps the state consistent |
| FoundEntries.SelectDeleteEntryStyle | found_entries_model.go:589-595 | the whole cursor row is selected, other rows inactive |
| FoundEntries.SelectEntryStyle | found_entries_model.go:580-586 | the row style when deleting, the cell style when editing |
| FoundEntries.ArrowsByMode | found_entries_model.go:120-150 | when editing, Left and Right move only the cell cursor and never the page; when deleting, they move only the page, resetting the cursor |
| FoundEntries.TypingOnlyWhenEditing | found_entries_model.go:151-273 | typed keys and backspace change nothing unless the action is "edit"; the delete mode never changes the rows or the grid |
| FoundEntries.XIsNeverTyped | found_entries_model.go:173-181 | "x" toggles a selection flag and is never typed into a cell |
| FoundEntries.DeleteToggle | found_entries_model.go:173-189 | when deleting, x or Enter flips exactly flag page*10+cursor; twice restores |
| FoundEntries.EditToggle | found_entries_model.go:211-218 | when editing, Enter at x = 6 flips the cursor row's flag (twice restores), and elsewhere does nothing |
| FoundEntries.TabAlternates | found_entries_model.go:171-172 | Tab alternates the two views |
| FoundEntries.DeleteCommitRefreshes | found_entries_model.go:190-209 | after deleting, no flag is set, the rows are rebuilt, and the result is exactly the matching documents not marked |
| FoundEntries.RejectKeepsEdits | found_entries_model.go:232-235 | a refused edit commit keeps the rows and the selection, sets the error prompt and returns to the table |
| FoundEntries.FoundEntriesModel.constructor | found_entries_model.go:48-60 | the state of createFoundEntriesModel |
| FoundEntries.FoundEntriesModel.PopulateEntries | found_entries_model.go:62-76 | the rows become the text rows of the found records |
| FoundEntries.FoundEntriesModel.ToggleAt | found_entries_model.go:185-189 | flips one selection flag |
| FoundEntries.FoundEntriesModel.RemarkCursorRow | found_entries_model.go:426-464 | recomputes the cursor row's modified flags |
| FoundEntries.FoundEntriesModel.RetypeCursorRow | found_entries_model.go:153-169 | writes the cursor row and recomputes its flags |
| FoundEntries.FoundEntriesModel.PressDelete | found_entries_model.go:89-189 | the delete-mode step |
| FoundEntries.FoundEntriesModel.MoveTableCursor | found_entries_model.go:97-150 | the edit-mode arrow step |
| FoundEntries.FoundEntriesModel.PressEdit | found_entries_model.go:96-273 | the edit-mode step |
| FoundEntries.FoundEntriesModel.CommitDelete | found_entries_model.go:190-209 | exactly the marked records are deleted in order, the search is re-run once, and the state is reset from the new result |
| FoundEntries.FoundEntriesModel.CheckEdits | found_entries_model.go:222-226 | the stored and edited records of the selected rows, the validated grid, and `invalid` iff the gate refuses |
| FoundEntries.FoundEntriesModel.CommitEdit | found_entries_model.go:219-236 | when no selected row has an error and some row is selected, old record i is updated with edit i and the post-insert screen is next; otherwise nothing is written and the table returns with the error prompt |
| FoundEntries.FoundEntriesModel.Update | found_entries_model.go:82-278 | the key's step, the delete commit or the edit commit |
| FoundEntries.FoundEntriesModel.NumSelected | found_entries_model.go:546-554 | the number of set flags |
| Tui.KeyText | update_entries_model.go:172-201 | the text a typed key appends: a character key's own text, and for a named key a non-empty name that is one character long only for the x and q keys |
| UpdateEntries.Create | update_entries_model.go:45-56 | one text row per found record, nothing selected |
| UpdateEntries.Step | update_entries_model.go:78-206 | every key but the commit keeps the result, the search and the statuses |
| UpdateEntries.StepKeepsInv | update_entries_model.go:78-206 | every key but the commit keeps the flags equal to the diff |
| UpdateEntries.RetypeKeepsInv | update_entries_model.go:114-201 | an edit followed by checkIfEntryModified keeps the flags equal to the diff |
| UpdateEntries.StepNext | update_entries_model.go:170-171 | the home screen is next iff the key is Ctrl+C |
| UpdateEntries.Originals | update_entries_model.go:154 | the stored records to update are as many as the edits |
| UpdateEntries.AfterCheck | update_entries_model.go:156 | the validation pass keeps the state consistent |
| UpdateEntries.AfterReject | update_entries_model.go:164-167 | a refused commit keeps the state consistent |
| UpdateEntries.ArrowsMoveOnlyTheCursor | update_entries_model.go:85-113 | arrows move only the cell cursor (Right and Left as RightWalk and LeftFromFirstColumn say), never the page |
| UpdateEntries.UpDownInEntriesView | update_entries_model.go:85-97 | Up and Down act only in the entries view and keep the row on the page |
| UpdateEntries.LeftFromFirstCellLeavesGrid | update_entries_model.go:98-104 | Left at (0,0) gives y = -1, where typing or backspace would index out of range |
| UpdateEntries.XTogglesFirstRow | update_entries_model.go:134-142 | "x" flips flag page*10+entries_cursor, which is always row 0 here, and types nothing |
| UpdateEntries.EnterTogglesCursorRow | update_entries_model.go:144-151 | Enter at x = 6 flips exactly the cursor row's flag (twice restores); elsewhere it does nothing |
| UpdateEntries.TabAlternates | update_entries_model.go:132-133 | Tab sets view (view+1) % 2 |
| UpdateEntries.CharStep | update_entries_model.go:172-201 | a typed key appends to the cursor cell and recomputes that row's flags |
| UpdateEntries.NamedKeyStep | update_entries_model.go:172-201 | shift+tab and q reach the default case and are typed as their names |
| UpdateEntries.TypingStep | update_entries_model.go:172-201 | every key of the default case is typed into the cursor cell |
| UpdateEntries.BackspaceStep | update_entries_model.go:114-131 | backspace trims the cursor cell and recomputes that row's flags |
| UpdateEntries.RetypeFrame | update_entries_model.go:115-131 | an edit changes only the cursor row, never the selection or cursor |
| UpdateEntries.RetypeTwice | update_entries_model.go:115-131 | two edits of the cursor row equal the last one |
| UpdateEntries.RetypeSame | update_entries_model.go:131 | rewriting a row with its own text changes nothing |
| UpdateEntries.TypingEditsOneCell | update_entries_model.go:172-201 | typing appends to the cursor cell only while it is shorter than its width; no other cell or row changes; at x = 6 or a full cell nothing changes |
| UpdateEntries.BackspaceOnBlankCell | update_entries_model.go:114-131 | backspace on an empty cell or on the Selected column changes nothing |
| UpdateEntries.TypeThenErase | update_entries_model.go:114-201 | typing one character into a cell with room, then backspace, restores the state |
| UpdateEntries.BackspaceUndoesTyping | update_entries_model.go:114-201 | the same for every reachable state |
| UpdateEntries.RejectKeepsEdits | update_entries_model.go:164-167 | a refused commit keeps rows, selection, cursor and flags, sets the error prompt and returns to the table |
| UpdateEntries.AcceptedWritesMarkedRows | update_entries_model.go:154-161 | an accepted commit writes one update per selected row and needs at least one; with nothing selected it is refused |
| UpdateEntries.UpdateEntriesModel.constructor | update_entries_model.go:45-56 | the state of createUpdateEntriesModel |
| UpdateEntries.UpdateEntriesModel.PopulateUpdateEntries | update_entries_model.go:58-72 | the rows become the text rows of the found records |
| UpdateEntries.UpdateEntriesModel.ToggleAt | update_entries_model.go:146-150 | flips one selection flag |
| UpdateEntries.UpdateEntriesModel.RemarkCursorRow | update_entries_model.go:354-392 | recomputes the cursor row's modified flags |
| UpdateEntries.UpdateEntriesModel.RetypeCursorRow | update_entries_model.go:115-131 | writes the cursor row and recomputes its flags |
| UpdateEntries.UpdateEntriesModel.MoveTableCursor | update_entries_model.go:85-113 | the arrow step |
| UpdateEntries.UpdateEntriesModel.Press | update_entries_model.go:85-201 | the step of every key but the commit |
| UpdateEntries.UpdateEntriesModel.CheckEdits | update_entries_model.go:154-158 | the stored and edited records of the selected rows, the validated grid, and `invalid` iff the gate refuses |
| UpdateEntries.UpdateEntriesModel.Commit | update_entries_model.go:152-168 | when no selected row has an error and some row is selected, old record i is updated with edit i and the post-insert screen is next; otherwise nothing is written and the table returns with the error prompt |
| UpdateEntries.UpdateEntriesModel.Update | update_entries_model.go:78-206 | the key's step or the commit |
| UpdateEntries.UpdateEntriesModel.NumUpdateSelectedEntries | update_entries_model.go:474-482 | the number of set flags |

## Left out

- Rendering: every `View` and `render*` function, the lipgloss styles' looks, styles.go and post_insert_csv_screen.go's display. Only the style choices are kept, as the `Style` tag.
- MongoDB plumbing: connecting, disconnecting, BSON encoding, and the `panic`/`log.Fatal` on a failed call. `Database.Collection` stands in for the collection.
- Generating ObjectIds: ids are plain numbers, 0 stands for the zero ObjectId that `omitempty` leaves out, and the id the server generates is modelled as one more than the largest stored id (`Database.FreshId`). Any unused id would do; the model does not capture the time and counter parts of a real ObjectId.
- Insert errors: a duplicate id makes InsertOne fail, and every caller drops that error, so the model leaves the collection unchanged and records no error.
- Regular-expression metacharacters in the description search: the `$regex` criterion is modelled as a substring test that ignores the case of ASCII letters only, so a search text with regex syntax in it is not modelled.
- File and CSV I/O: reading the file, the CSV reader and its EOF and error loop. The records arrive already split into fields.
- budgie.go (`main`, a duplicate home screen, `processCSV`), home_screen.go and update_entry_screen.go (menu routing and a bare struct) are not part of this model.
- Leaving a screen is returned as a `Next` value naming the following screen; that screen's model is not built.
- `action.next_model` (a `tea.Model` in the action struct) is not modelled; only `action_text` is.
- Floating point: amounts are exact reals. `ParseFloat` accepts plain decimal notation with an optional sign; exponents, hex floats, "inf" and "nan" are not modelled. `FormatFloat(x, 'f', 2, 64)` is modelled as rounding the exact value to the nearest cent, an exact half cent to the even one; Go rounds the nearest binary double, so a decimal such as 0.005 that is not exactly representable can print differently from its exact value. A negative amount that rounds to zero, such as -0.001, is printed "-0.00" by `FormatFloat` and "0.00" by `Format2`.
- String lengths: Go's `len` counts bytes, the model counts characters, which agree only for ASCII text.
- `default_feedback` is not declared in any modelled file; `DefaultFeedback` uses a stand-in text.
- Compile conflicts are not reconciled. `Expense` is declared twice, `rejectUnselectedRows` and friends in two files, `DescriptionWidth` as 36 and as 30, and `createPostInsertCSVScreenModel` is called with two arguments at insert_csv_screen.go:91. The model uses one `Expense` and width 36 for description cells. The lowercase field names of insert_csv_screen.go are read as the schema's fields.
- createFoundEntriesModel has no caller among the modelled files; it is modelled as written.
- FoundEntries.FoundEntriesModel.CommitEdit: requires at most ten results. The Go validation pass indexes the ten-row status array by result row and panics past row 9.
- UpdateEntries.UpdateEntriesModel.Commit: requires at most ten results, for the same reason.
- Indexing preconditions: a key that makes Go index outside a slice is excluded by `Ready` on each screen. Examples are a toggle past the results, or typing on row -1 after Left at (0,0). These are the panic cases, and lemmas such as `UpdateEntries.LeftFromFirstCellLeavesGrid` and `DeleteEntry.RightCanReachEmptyPage` exhibit states that reach them.
