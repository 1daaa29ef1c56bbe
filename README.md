# Participation tracker core, modelled in Dafny

The tracker keeps five CSV tables in a data folder: employees, workshops, cohorts,
events and participants. Its record-keeping core is modelled here.

- **Loading and saving a table.** `load_table` fixes up a file's columns: it renames
  `Work Email Address` to `Email`, adds any missing canonical column as empty cells,
  keeps the employees file's extra columns after `Standard ID` and `Email`, and fixes
  the column order. `save_table` undoes the rename.
- **Marking employees on an event or a cohort.** The marks are stored in list-valued
  cells: Standard IDs kept as a sorted, comma-joined list.
  - `update_event_participation` merges IDs into an event's `Registrations` and/or
    `Participants` cell.
  - It also writes one record per employee and event into the participants table.
  - `update_cohort_membership` does the same for a cohort's `Nominated` and
    `Participants` cells.
  - Both report how many IDs were new.
- **Turning pasted text into Standard IDs.** This has two variants:
  - the app's `get_employee_ids_from_input`, which returns the valid IDs sorted;
  - the selector's `_parse_employee_identifiers`, which returns them in order of first
    appearance.

  `employee_selector` then merges its three sources without repeats.
- **Small rules of the table pages:**
  - the Event ID a new event gets;
  - pagination;
  - the order of the displayed employee columns;
  - the new-cohort name check;
  - the `;`-separated Categories list.

## How the model is laid out

Modules:

- `Text` models the Python string operations used: `strip`, `split`, `join`,
  `split(...)[-1]` and `split(" - ")[0]`.
- `Sequences` and `Ordering` model order-preserving deduplication and `sorted(set(...))`
  under Python's string order.
- `ListCells` models the list-valued cells.
- `Tables` models frames, and what a load returns and a save writes.
- `Membership` models finding a row and marking IDs on it.
- `Records` models the participants records.
- `Updates` models the two updates as functions over the disk. The disk is a map from
  table to frame, and a table without a file is absent from it.
- `Store` holds the same operations written step by step:
  - the class `TableStore` has a mutable `disk` field;
  - its methods `LoadTable`, `SaveTable`, `UpdateEventParticipation` and
    `UpdateCohortMembership` are proved equal to the functions of `Tables` and `Updates`;
  - helper methods with loop invariants cover the loops (`MergeCell`,
    `RecordParticipants`, `AppendColumns`, `FillMissing`).
- `Identifiers` models both resolvers and the selector. Each has its loops as methods,
  proved equal to a function.
- `EventIds`, `Display` and `Categories` model the small page rules.

Python exceptions on the modelled paths are values of `Tables.Failure`:

- `MissingColumn`: the `KeyError` of a column that is not there.
- `NoEmployeeRow`: the `IndexError` of `.iloc[0]` for an ID with no employee row.
- `AmbiguousEmail`: an email held by several employee rows. The lookup then returns a
  Series; adding it to a set raises `TypeError`, and testing it with `if` raises
  `ValueError`.
- `NotANumber`: `int()` of an Event ID suffix that is not a number.

An update that fails writes nothing, as in the code, where the exception propagates
before any save. The model follows the code, so:

- There is no schema migration, backup, unresolved-identifier log or per-employee
  rollup table.
- Unknown tokens are reported as invalid, not kept.
- `load_table` does not write repaired columns back to the file.
- In the selector, an Email column without a Standard ID column is a `KeyError`
  (`MissingColumn`), not a reason to treat tokens as invalid. A missing Email column
  only makes every email token invalid.
- The participants table has one record per (Standard ID, Event ID) with a `Status`
  string.

## Model

| member | source | states |
|---|---|---|
| Tables.Canonical | app.py:21-46 | Each table's canonical columns, in order, none repeated, none named Work Email Address |
| Tables.AddColumn | app.py:129-130 | Adding a column appends it last with an empty cell in every row; every other cell is unchanged |
| Tables.Select | app.py:138 | `df[cols]`: exactly the given columns in that order; each row holds exactly those keys, with the source row's values |
| Tables.AppendNew | app.py:100-102 | The kept columns extend the canonical ones, hold exactly the canonical and file columns, and add no repeats |
| Tables.AddMissing | app.py:128-130 | Existing columns stay first, exactly the missing listed columns are added, the row count is kept, and nothing changes when none is missing |
| Tables.AddMissingCell | app.py:128-130 | After filling, each cell is the frame's own cell, or "" in an added column |
| Tables.Loaded | app.py:71-138 | A missing file loads as the empty canonical table; a file keeps its row count; the canonical columns come first, and are all the columns except for employees |
| Tables.Saved | app.py:141-150 | Only employees are changed: the rows are kept, and Email is written back as Work Email Address |
| Tables.Created | app.py:110-124 | The file written for a missing table has no rows and the canonical header, with Work Email Address for employees |
| Tables.EmployeeFrame | app.py:87-96 | After the rename, Standard ID and Email exist and Work Email Address does not; every cell comes from the renamed file or is "" |
| Tables.LoadedInShape | app.py:126-138 | Every loaded table has no repeated column and full rows; non-employee tables have exactly their canonical columns; employees start with Standard ID, Email |
| Tables.LoadedCell | app.py:87-90 | Loading keeps every row and each cell of the file (after the rename); columns the file lacks read as "" |
| Tables.EmployeeColumns | app.py:87-102 | Employees columns are Standard ID, Email, then the file's other columns in file order, each once |
| Tables.RenameBack | app.py:147-148 | Renaming a column and renaming it back restores the frame |
| Tables.SaveLoadRoundTrip | app.py:141-150 | Saving a loaded table and loading the file again gives the same table; the save's Email rename undoes the load's |
| Tables.CreatedLoadsEmpty | app.py:110-124 | The header-only file written for a missing table loads as the empty canonical table |
| Store.TableStore.constructor | app.py:59-67 | The store starts with the given files |
| Store.TableStore.LoadTable | app.py:71-138 | Returns what a load of the old files gives; the files gain a header-only file for a missing table and nothing else |
| Store.TableStore.SaveTable | app.py:141-150 | Only the table's own file is replaced, by the frame with Email renamed back for employees |
| Store.TableStore.UpdateEventParticipation | app.py:176-252 | The new files and the result are exactly those of the functional event update `Updates.EventUpdate` |
| Store.TableStore.UpdateCohortMembership | app.py:255-289 | The new files and the counts are exactly those of the functional cohort update `Updates.CohortUpdate` |
| Store.MergeCell | app.py:200-204 | The set-update-sort-join loop code computes the specified merge of a list cell and its growth |
| Store.RecordParticipants | app.py:214-247 | The records loop with its in-place restamps and collected new rows computes the specified participants table, or stops at the first unknown ID |
| Store.KeptColumns | app.py:76-102 | The kept-columns code computes the specified column list |
| Store.AppendColumns | app.py:100-102 | The append loop computes the specified extension of the column list |
| Store.FillMissing | app.py:128-130 | The fill loop computes the specified frame with missing columns added |
| Store.HasRecordRestamp | app.py:240-243 | Restamping earlier IDs changes no Standard ID and no Event ID, so the same records are found |
| ListCells.ParseList | app.py:200 | Parsing a cell gives no entries exactly for "", no entry holds a comma, and joining the entries gives the cell back |
| ListCells.ListCellOfUnique | app.py:203 | A set of IDs has exactly one written cell text |
| ListCells.ReadBack | app.py:200-203 | A written cell reads back as its set of entries, ascending, each once |
| ListCells.MergeList | app.py:200-204 | The new cell is the sorted comma-join of the old entries and the IDs; the count is the number of IDs not already present, at most the number of distinct IDs |
| ListCells.MergeReadBack | app.py:199-211 | The merged cell reads back ascending, holding every old entry and every ID; the count is the new set size minus the old one |
| ListCells.MergeIdempotent | app.py:204 | Merging the same IDs again adds nothing and leaves the cell as it is (for non-empty IDs without a comma) |
| ListCells.EmptyIdRecounted | app.py:200-204 | An empty ID written into an empty cell leaves it empty and is counted as new, so on every run |
| ListCells.CommaIdRecounted | app.py:200-204 | An ID holding a comma is written whole but reads back as two entries, so the next merge counts it again |
| Membership.FirstRowWith | app.py:186-191 | The index of the first row holding the value, or none exactly when no row holds it |
| Membership.Mark | app.py:199-211 | An unflagged column leaves the row with count 0; a flagged one holds the written list of the old entries and the IDs, and counts the IDs not already there; no other cell changes |
| Membership.EditRow | app.py:273-285 | Editing keeps the columns, the row count and every row except the matched one |
| Membership.MarkEffect | app.py:273-278 | A flagged column is merged, an unflagged one is untouched with count 0, and no other cell changes |
| Membership.EditRowEffect | app.py:199-211 | Both list columns of the matched row are marked as their flags say; every other cell of the row is kept |
| Membership.EditRowWellFormed | app.py:273-285 | Editing a well-formed table keeps it well formed |
| Membership.MarkIdempotent | app.py:280-285 | Marking a column again with the same IDs changes nothing and counts 0 (for non-empty IDs without a comma) |
| Membership.EditRowIdempotent | app.py:273-285 | Editing the edited row again changes nothing and counts (0, 0) (for non-empty IDs without a comma) |
| Membership.EditRowAgain | app.py:263-285 | The edited row is still the first with its key, and editing again changes nothing (for non-empty IDs without a comma) |
| Records.NewRecord | app.py:231-239 | A new record has exactly the participants columns and carries the ID, event, email, status and time |
| Records.StatusText | app.py:217-221 | The status reads "Registered, Participated", "Registered", "Participated" or "" as the two flags say |
| Records.Restamped | app.py:242-243 | An existing record gets the new Status and Last Updated; its Standard ID and Event ID are kept |
| Records.Restamp | app.py:240-243 | Every record of a listed ID at the event gets the status and time; other rows are unchanged, and no cell but Status and Last Updated changes |
| Records.Retime | app.py:243 | Only Last Updated changes, and only on the records of the listed IDs at the event |
| Records.EmailOf | app.py:216 | The Email of an employee row with the ID; an IndexError failure exactly when no row has the ID |
| Records.Lacking | app.py:224-229 | The listed IDs that have no record at the event yet, and only those |
| Records.NewRecords | app.py:214-243 | The records loop succeeds exactly when every listed ID has an employee row |
| Records.NewRecordsFailure | app.py:215-216 | A failed update stops at the first listed ID without an employee row |
| Records.NewRecordsErrorStampFree | app.py:214-216 | Which ID stops the update does not depend on the event, status or time |
| Records.NewRecordsAre | app.py:224-239 | New records are, in order, one per listing of an ID lacking a record, each with that ID's email and the update's stamp |
| Records.NewRecordsOnce | app.py:224-239 | With distinct IDs, each ID lacking a record gets exactly one new record |
| Records.EditParticipants | app.py:242-247 | The participants update succeeds exactly when every ID has an employee row, and keeps the columns |
| Records.EveryIdRecorded | app.py:214-247 | After the update every listed ID has a record of the event with the update's status and time, and every record of the ID at the event carries them |
| Records.EditParticipantsStamped | app.py:214-247 | After the update every record of a listed ID at the event carries the status and time |
| Records.OldRowsKept | app.py:240-247 | The table grows by the new records only; old rows keep their place and every cell but Status and Last Updated, and only records of listed IDs at the event change |
| Records.EditParticipantsIdempotent | app.py:214-247 | A second update with the same IDs at time t adds no record and only sets Last Updated to t on the IDs' records at the event; at the first run's time it leaves the table as it is |
| Records.RerunRestamps | app.py:240-243 | A second update at another time does change the table: the IDs' records carry the new time |
| Records.EditParticipantsShape | app.py:245-247 | The updated participants table keeps the shape a load gives it |
| Updates.TouchKeepsLoads | app.py:110-124 | Creating a missing table's file does not change what any load returns |
| Updates.Load | app.py:71-138 | Every load has the loaded shape; a table without a file loads as the empty canonical table |
| Updates.Touch | app.py:110-124 | A load adds a header-only file for a missing table and changes no existing file |
| Updates.LoadAfterSave | app.py:141-150 | A table saved in load shape loads back unchanged |
| Updates.TouchEventTables | app.py:181-183 | The three loads leave a file for events, employees and participants |
| Updates.EditEvent | app.py:186-247 | No edit exactly when no event row has the ID; a NoEmployeeRow failure exactly when the event exists and some ID has no employee row; an edit keeps both tables' columns |
| Updates.EventUpdate | app.py:176-252 | Nothing to do changes nothing and reports (0, 0); otherwise the three tables gain a file if missing and no other file appears; the only failure is NoEmployeeRow |
| Updates.Apply | app.py:249-250 | A failure or a missing event writes nothing; an edit is saved with its counts as the result |
| Updates.Commit | app.py:249-250 | Only the events and participants files are written |
| Updates.CommitLoads | app.py:249-250 | The saved events and participants tables load back as they were edited |
| Updates.EventUpdateWrites | app.py:178-189 | Every table but events and participants is unchanged; a failed update, or one with nothing to do or no such event, changes no table |
| Updates.EditEventEffect | app.py:191-211 | The event's Registrations and Participants hold the old entries plus the IDs when flagged, the counts are the growth, and every other row and cell is kept |
| Updates.EventUpdateSaved | app.py:176-252 | A successful update saves the edit and returns its counts; every ID has a record of the event, and every record of the ID at the event carries the status and time |
| Updates.EditEventRecords | app.py:214-247 | The edit holds a participant record of the event for each ID, and every record of the ID at the event carries the status and time |
| Updates.EditedShapes | app.py:199-247 | The edited events and participants tables keep the loaded shape |
| Updates.EditEventIdempotent | app.py:186-247 | Editing the edited tables again at time t keeps the events table, counts (0, 0) and only sets Last Updated to t on the IDs' records at the event; at the same time nothing changes (for non-empty IDs without a comma) |
| Updates.EventUpdateIdempotent | app.py:176-252 | A second run at time t reports (0, 0), or the same failure; after a saved edit it only sets Last Updated to t on the IDs' records at the event, otherwise it writes nothing; at the same time it writes nothing (for non-empty IDs without a comma) |
| Updates.EventRerunSaved | app.py:176-252 | After a saved edit, a second run at time t reports (0, 0) and only sets Last Updated to t on the IDs' records at the event |
| Updates.EventRerunUnsaved | app.py:176-252 | After a failed run or one that found no event, a second run gives the same outcome |
| Updates.CohortUpdateEffect | app.py:260-287 | After a cohort update the reloaded cohort row holds the old entries plus the IDs in each flagged column, the counts are the growth, and the rest is kept |
| Updates.EditCohort | app.py:263-285 | No edit exactly when no cohort row has the name; an edit keeps the columns and the row count |
| Updates.CohortUpdate | app.py:255-289 | Never fails; nothing to do changes nothing, otherwise only a cohorts file may appear |
| Updates.CohortSaved | app.py:263-287 | A cohort update that finds the cohort saves the edited table and reports the edit's counts |
| Updates.CohortUpdateWrites | app.py:257-266 | Only the cohorts table can change, and it changes only when a cohort has the name |
| Updates.CohortUpdateIdempotent | app.py:255-289 | Running the same cohort update twice is running it once, and the second run reports (0, 0) (for non-empty IDs without a comma) |
| Updates.EditCohortIdempotent | app.py:263-285 | Editing the edited cohorts table again changes nothing and keeps the loaded shape (for non-empty IDs without a comma) |
| Text.Strip | app.py:155 | `strip`: the input with only its leading and trailing whitespace removed: a slice of it with only whitespace before and after, neither end whitespace, empty exactly when the text is blank |
| Text.Split | app.py:200 | `split` on one character: at least one piece, none holding the separator, and the join gives the text back |
| Text.SplitOfJoin | app.py:203 | Splitting a join gives the parts back when no part holds the separator |
| Text.AfterLast | app.py:556 | `split("-")[-1]` holds no separator |
| Text.AfterLastOf | app.py:556 | The piece after the last separator is exactly the text that followed it |
| Text.BeforeFirst | ui_components.py:90 | `split(" - ")[0]` is the prefix before the first occurrence of the separator, or the whole text |
| Sequences.DropEmpty | app.py:155 | `if item` keeps exactly the non-empty items, and the whole list when none is empty |
| Sequences.DropEmptyInOrder | app.py:155 | The kept items are the non-empty items at increasing positions, each occurrence kept: order and repeats are kept |
| Sequences.Dedup | ui_components.py:35-40 | The seen-set result has no repeats and exactly the input's elements |
| Sequences.DedupOrder | ui_components.py:118-123 | Deduplication keeps the order of first appearance |
| Sequences.DedupDistinct | ui_components.py:35-40 | A list without repeats is its own deduplication |
| Sequences.DedupInOrder | ui_components.py:35-40 | The seen-set loop computes the specified deduplication |
| Ordering.LessTotal | app.py:173 | Python's string order ranks any two different strings |
| Ordering.SortedUnique | app.py:173 | `sorted(set(xs))`: strictly ascending, with exactly the elements of xs |
| Ordering.SortedListingUnique | app.py:173 | A set has exactly one strictly ascending listing |
| Ordering.SortSet | app.py:173 | `sorted(list(s))` of a set is strictly ascending with exactly its members |
| Identifiers.TokensClean | ui_components.py:12 | Every token is non-empty, holds no line break and has no surrounding whitespace |
| Identifiers.Tokens | ui_components.py:12 | No token is empty |
| Identifiers.BlankTextNoTokens | ui_components.py:12-14 | Blank text gives no tokens |
| Identifiers.LookupEmailMeaning | app.py:159-165 | An email lookup finds nothing, the Standard ID of the only row holding it, or several rows |
| Identifiers.LookupEmail | app.py:159-165 | Nothing found exactly when no row holds the email; a found ID is that of a row holding it |
| Identifiers.ResolveTokenMeaning | app.py:162-172 | A token fails only as an email on several rows; an email names its row's ID and a non-email token names itself only when it is a known ID. Conversely a known ID names itself when IDs are checked, an email on exactly one row names that row's ID (non-empty for the selector), and an email on no row names nothing |
| Identifiers.ResolveToken | ui_components.py:21-32 | The only failure is AmbiguousEmail of an email token; the selector never names an empty ID for a non-empty token |
| Identifiers.SoleHolder | app.py:159-165 | The lookup of an email held by exactly one row gives that row's Standard ID |
| Identifiers.ResolveAll | app.py:162-172 | The loop puts every token on one side: the valid and invalid lists together are as long as the tokens |
| Identifiers.ResolveAllSides | app.py:162-172 | The invalid list is exactly the tokens naming no employee, and the valid list exactly the IDs the others name |
| Identifiers.ResolvedAreKnown | ui_components.py:16-32 | Every valid ID is the Standard ID of an employee row, and never empty for the selector |
| Identifiers.InvalidInOrder | app.py:166-172 | The invalid tokens are the unresolved tokens, in input order, repeats kept |
| Identifiers.EmployeeIdsFromInput | app.py:153-173 | A missing Email or Standard ID column is a KeyError failure; the valid IDs come back strictly ascending |
| Identifiers.EmployeeIdsMeaning | app.py:153-173 | The app's valid IDs are exactly those its tokens name, each an employee's Standard ID; its invalid tokens are the unresolved ones in order |
| Identifiers.CheckToken | app.py:163-172 | The loop body computes the specified resolution of one token |
| Identifiers.CollectAppIds | app.py:156-172 | The app's loop builds the specified set of valid IDs and list of invalid tokens, or stops at the first ambiguous email |
| Identifiers.GetEmployeeIdsFromInput | app.py:153-173 | get_employee_ids_from_input as written computes the specified result |
| Identifiers.ParseIdentifiers | ui_components.py:7-42 | The selector's valid IDs have no repeats |
| Identifiers.ParseIdentifiersEdges | ui_components.py:12-17 | No tokens give ([], []); otherwise an Email column without a Standard ID column is a KeyError failure |
| Identifiers.ParseIdentifiersMeaning | ui_components.py:21-42 | The selector's valid IDs are exactly the IDs its tokens name, none empty, each an employee's Standard ID, ordered by first appearance among the resolved IDs; invalid tokens in input order |
| Identifiers.CollectSelectorIds | ui_components.py:19-32 | The selector's loop builds the specified valid and invalid lists |
| Identifiers.ParseEmployeeIdentifiers | ui_components.py:7-42 | _parse_employee_identifiers as written computes the specified result |
| Identifiers.OptionId | ui_components.py:81-90 | Splitting an option label at " - " gives back its Standard ID when the ID holds no '-' |
| Identifiers.SelectedIds | ui_components.py:90 | One ID per selected option |
| Identifiers.Collected | ui_components.py:63-115 | Fails exactly when the pasted text is non-empty and its parse fails; keeps every selected ID; with nothing pasted or uploaded it is the selected IDs |
| Identifiers.PastedIds | ui_components.py:63-70 | Nothing pasted gives []; fails exactly when the parse fails; the IDs have no repeats |
| Identifiers.UploadedIds | ui_components.py:96-113 | No file or a failed parse gives []; the IDs have no repeats |
| Identifiers.Selection | ui_components.py:45-128 | An empty table gives []; otherwise the result has no repeats and holds exactly the gathered IDs |
| Identifiers.SelectionOrder | ui_components.py:117-123 | The selection keeps the order in which IDs were first gathered |
| Identifiers.EmployeeSelector | ui_components.py:45-128 | employee_selector as written computes the specified selection |
| EventIds.Prefix | app.py:551-552 | Workshop, Demo, Meeting and Conference map to W, D, M and C, their first letter; every other category maps to E, and only those |
| EventIds.Stem | app.py:551-554 | The stem is the prefix letter, the date, then "-" |
| EventIds.ParseInt | app.py:556 | Succeeds exactly on a non-empty run of digits, giving the number the digits write; otherwise fails naming the text |
| EventIds.Pad2 | app.py:557 | `{n:02d}` is at least two digits |
| EventIds.Pad2RoundTrip | app.py:556-557 | The padded number parses back to itself |
| EventIds.SuffixOf | app.py:556 | The last piece of an ID parses exactly when it is a run of digits, giving their number |
| EventIds.Suffixes | app.py:554-556 | At most one number per existing ID; the only failure is a non-numeric suffix |
| EventIds.SuffixesMeaning | app.py:554-556 | Collecting the suffixes fails exactly when some ID with the stem has a non-numeric last piece; otherwise it holds exactly those IDs' numbers |
| EventIds.MaxOf | app.py:556 | `.max()` is a member, at least every member |
| EventIds.NextNumber | app.py:555-556 | 1 with no numbers, otherwise one past the largest, above every number |
| EventIds.NextEventId | app.py:551-557 | The new ID starts with prefix + date + "-" and ends in at least two digits |
| EventIds.NextEventIdSuffix | app.py:556-557 | The new ID's last piece parses back to the next number |
| EventIds.NextEventIdFails | app.py:556 | The ID fails exactly when an existing ID with the stem has a non-numeric suffix |
| EventIds.NextEventIdNumber | app.py:555-556 | The new number is 1 when no ID has the stem, and above every existing number with it |
| EventIds.NextEventIdAfterLargest | app.py:556 | With IDs under the stem, the new number is one past the number of some existing ID |
| EventIds.NextEventIdFresh | app.py:551-557 | The new ID differs from every existing ID |
| Display.Optional | app.py:461 | The optional columns are exactly those other than Standard ID and Email |
| Display.DisplayColumns | app.py:453-478 | Other tables show their canonical columns; employees start with Standard ID then Email |
| Display.EmployeeColumnsOrder | app.py:453-478 | Employees display Standard ID, Email, then the chosen columns ascending; each once and nothing else |
| Display.EmployeeColumnsUnique | app.py:478 | The sort key allows only that one order |
| Display.TotalPages | app.py:488 | Pages just cover the rows: none for no rows, all but the last full, none empty |
| Display.PageBounds | app.py:490-491 | A page's end is its start plus the page size |
| Display.PageOfRow | app.py:488-491 | Every row lies on exactly one page, and that page is offered by the picker |
| Display.PageStartInside | app.py:489-491 | Every offered page starts inside the table |
| Display.Shown | app.py:486-495 | Up to 1000 rows all are shown; otherwise 1 to page-size consecutive rows starting at the page's start |
| Display.ShownCaption | app.py:492-493 | The caption's numbers name the first and last row shown; a page shows 1 to page-size rows, in order |
| Display.CheckNewCohort | app.py:626-641 | An empty name is refused, a taken name is refused, and any other name gives a row with empty member lists |
| Display.NewCohortAppended | app.py:626-637 | Appending an accepted cohort keeps names unique, and the membership update finds the new row |
| Categories.MasterPlain | app.py:768 | The offered roles are non-empty and free of ';' |
| Categories.RolesOf | app.py:771 | Reading a Categories cell gives non-empty roles free of ';' |
| Categories.RolesRoundTrip | app.py:771-775 | Writing plain roles and reading them back gives the same roles, in order |
| Categories.FormatRoles | app.py:775 | No roles give ""; otherwise the text starts with the first role, and plain roles give "" only when there are none |
| Categories.CurrentRoles | app.py:769-771 | The current roles are plain, and none when no row has the ID |
| Categories.AssignRoles | app.py:775 | Every row with the ID gets the joined roles; every other cell is kept |
| Categories.AssignRolesWellFormed | app.py:775-776 | With a Categories column, assigning keeps the table well formed |
| Categories.AssignThenCurrent | app.py:769-775 | After assigning, the employee's current roles are the assigned ones |
| Categories.AssignRolesIdempotent | app.py:775 | Assigning the same roles twice is assigning them once |

## Left out

- The Streamlit interface: widgets, the data editor, session state, reruns, messages and tabs. Their inputs appear as parameters: IDs, flags, the chosen page, the chosen columns, the selected options.
- Reading and writing CSV text. The disk is an abstract map from table to frame of strings.
- The load cache (`st.cache_data`, `load_table.clear()`). Every load sees the current files.
- Date handling: `pd.to_datetime` on load and `strftime` when a record or an Event ID is made. Dates are opaque strings, and the date part of an Event ID is a parameter.
- `datetime.now()`: the update time is a parameter.
- Decoding an uploaded file. The upload arrives as text or nothing. Only a parse failure of its text is modelled as caught.
- The paginated write-back of edited rows. It is tied to editor state; only the page arithmetic is modelled.
- Tables.EmployeeFrame: a file holding both `Email` and `Work Email Address` would get two `Email` columns in pandas; the model lets the renamed column win, since a frame here has one value per column name.
- EventIds.ParseInt: `int()` also accepts a sign, surrounding whitespace and underscores between digits; only plain digit runs are modelled as numbers, and anything else as the failure. Suffixes are unbounded naturals: pandas' `.astype(int)` holds 64-bit integers, so a suffix of 2^63 or more raises `OverflowError`, and `.max() + 1` on 2^63 - 1 wraps to a negative number (app.py:556-557); neither is modelled.
- Display.DisplayColumns: the chosen columns are not restricted to the offered options, which the multiselect guarantees.
- Categories.AssignRoles: the assigned roles are not restricted to the four offered ones, which the multiselect guarantees.
- Records.NewRecords: an ID listed twice gets two new records, as the code does. The forms build their ID lists as `[opt.split(' - ')[0] for opt in ...]` without removing repeats (app.py:407, 684), so two employee rows sharing a Standard ID give two records; Records.NewRecordsOnce states the distinct case.
- ListCells.MergeIdempotent: proved only for non-empty IDs without a comma. The code counts such an ID as new on every run: an empty ID leaves the cell empty (ListCells.EmptyIdRecounted), and an ID with a comma reads back as two entries (ListCells.CommaIdRecounted). An empty ID reaches an update when an employee row has an empty Standard ID: its option label " - x@y" splits to "" (app.py:407, 684), and the app's email lookup returns it (app.py:165).
- Membership.MarkIdempotent: proved only for non-empty IDs without a comma, for the reason given at ListCells.MergeIdempotent; for other IDs a second run counts them again.
- Membership.EditRowIdempotent: proved only for non-empty IDs without a comma, for the reason given at ListCells.MergeIdempotent; for other IDs a second run counts them again.
- Membership.EditRowAgain: proved only for non-empty IDs without a comma, for the reason given at ListCells.MergeIdempotent; for other IDs a second run counts them again.
- Updates.CohortUpdateIdempotent: proved only for non-empty IDs without a comma, for the reason given at ListCells.MergeIdempotent; for other IDs a second run counts them again.
- Updates.EditCohortIdempotent: proved only for non-empty IDs without a comma, for the reason given at ListCells.MergeIdempotent; for other IDs a second run counts them again.
- Updates.EditEventIdempotent: proved only for non-empty IDs without a comma, for the reason given at ListCells.MergeIdempotent; for other IDs a second run counts them again.
- Updates.EventUpdateIdempotent: proved only for non-empty IDs without a comma, for the reason given at ListCells.MergeIdempotent; for other IDs a second run counts them again.
- Records.EditParticipantsIdempotent: a second run at a later time is not a no-op, since the code reads `datetime.now()` on each run (app.py:196) and rewrites Last Updated on the IDs' records (app.py:240-243). The lemma states that change; the table is unchanged only when both runs share the time, and Records.RerunRestamps shows that another time does change it.
- Updates.EditEventIdempotent: as at Records.EditParticipantsIdempotent, a second run at another time rewrites Last Updated on the IDs' records at the event; the participants file is unchanged only at the same time.
- Updates.EventUpdateIdempotent: as at Records.EditParticipantsIdempotent, a second run at another time rewrites Last Updated on the IDs' records at the event; the participants file is unchanged only at the same time.
- The workshops table is only loaded and saved; none of the modelled operations edits it.
