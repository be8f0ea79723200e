# Document-tracking dashboard, modelled in Dafny

This project models the core of a document-tracking dashboard for oil and gas
projects, and proves properties of that model. In the dashboard, each engineering
document of a project passes three submission milestones: IFR, IFA and IFB.
The store keeps one monitoring row per document and milestone. Each row
carries the status and dates of all three milestones, and a category that says
which milestone the row stands for.

The model covers:

- the scheduled job that moves `Start` milestones older than one day to
  `In-Progress`;
- the validation schemas of the edit and create forms;
- what the two document-tracking pages (Area 2 and the Prabumulih project
  detail) compute from the loaded rows: the field filter, the grouping of rows
  into documents, the PIC/name sort, the recap, the rows shown per milestone
  filter, the on-time classification and the list of known PICs;
- the pages' save, approve, delete and add handlers over the monitoring table;
- the Limau project list: its dialog defaults, the `finished_at` rule, create,
  edit and delete;
- the attachments dialog: selection, the upload loop with its 10 MiB cap, the
  download loop, delete ordering and the activity log;
- the data repository's review workflow, pending → reviewed → approved, with its
  role gating and search filter;
- the user management page: the admin gate, the role shown per user, and
  removing, replacing or appending one role entry.

The project is split into these modules:

| file | module | what it holds |
|---|---|---|
| `common.dfy` | `Common` | Option, Result and Outcome; the JavaScript-like string helpers (trim, `x \|\| null`, ASCII lower-casing, substring search); scalar-value (code-point) string order |
| `domain.dfy` | `Domain` | the database enums; `Milestone` and `Row`; how a page learns its user's role; the role-to-action policy |
| `validation.dfy` | `Validation` | `validateMonitoringData` and `validateProjectData`, as ordered issue lists that report the first issue |
| `sweep.dfy` | `StartSweep` | the escalation job over an `array<Row>` |
| `tracking_view.dfy` | `TrackingView` | everything the document pages derive from the loaded rows |
| `tracking_edits.dfy` | `TrackingEdits` | class `MonitoringTable`, with the handlers of both document pages |
| `projects.dfy` | `LimauProjects` | class `ProjectTable` |
| `document_files.dfy` | `DocumentFiles` | class `FilesDialog`, with the selection and log functions |
| `repository.dfy` | `Repository` | class `RepoTable`, the gating predicates and the filter |
| `user_roles.dfy` | `UserManagement` | class `RolePage` |

The model's conventions:

- Stored state that a handler changes is a `seq` field of a class. The handler
  is a method that states its whole new state.
- Each store call's success, the store's generated ids and column defaults,
  the clock and the signed-in user are method parameters.
- A timestamp is an `int` count of milliseconds.
- A nullable column is an `Option`.

Some behaviours of the source are kept as they are, and proved as such:

- Renaming a document onto a name that already exists merges the two
  documents (`TrackingEdits.RenameOntoExistingNameMerges`).
- A stored name longer than 255 characters blocks every approval on the
  Area 2 page (`TrackingEdits.LongStoredNameBlocksArea2Approval`).
- A Limau project created as Completed never receives a finish date
  (`LimauProjects.CreatedCompletedStaysUndated`).
- Ten downloads in a row hide the last upload line
  (`DocumentFiles.LastUploadHiddenByTenDownloads`).
- A failed record insert leaves its uploaded blob behind
  (`DocumentFiles.RecordFailureOrphansBlob`).
- While 'all' is selected, unchecking one field leaves 'all'
  (`TrackingView.UncheckingFromAllStaysAll`).
- A user with two role entries gets no role on the document pages
  (`Domain.DuplicateEntriesGiveNoRole`).

## Model

| member | source | states |
|---|---|---|
| Common.Trim | src/lib/validation.ts:7 | the result is never longer than the input, and has no leading or trailing JavaScript white space |
| Common.TrimIsInfix | src/lib/validation.ts:7 | the result is a contiguous piece of the input, and everything dropped from either end is white space |
| Common.TrimBounds | src/lib/validation.ts:7 | names where trim cuts: the result is the input between two positions, with only white space before the first and from the second on |
| Common.TrimIdempotent | src/lib/validation.ts:7 | trimming twice is trimming once |
| Common.OrNull | src/lib/validation.ts:17 | `val \|\| null`: the empty string becomes null, and every other string is kept |
| Common.ToLower | src/pages/Repository.tsx:183 | keeps the length; each ASCII capital becomes its small letter, and every other character is kept |
| Common.OrElse | src/pages/Limau.tsx:114-115 | `x \|\| fallback`: a null or empty value gives the fallback, and any other value is kept |
| Common.StrLtTotal | src/pages/Area2DocumentTracking.tsx:466 | the scalar-value (code-point) order used for `localeCompare` relates any two strings, or they are equal |
| Common.StrLtTransitive | src/pages/Area2DocumentTracking.tsx:466 | the scalar-value (code-point) order is transitive |
| Common.Without | src/components/DocumentFilesDialog.tsx:252 | `filter(id => id !== x)` keeps exactly the other elements, and leaves a list without x as it was |
| Domain.CategoriesComplete | src/integrations/supabase/types.ts:745 | the three milestones IFR, IFA and IFB are all the categories |
| Domain.PageRole | src/pages/Area2DocumentTracking.tsx:143-149 | `maybeSingle()` gives a role exactly when the user is signed in and has exactly one entry, and that role is one of the user's entries |
| Domain.PermissionsByRole | src/pages/Area2DocumentTracking.tsx:171-175 | admin may do everything; reviewer may add and edit file info; user may edit status; approver may approve; viewer and no role may do nothing |
| Domain.DuplicateEntriesGiveNoRole | src/pages/Area2DocumentTracking.tsx:145 | two entries of the same user, even two admin entries, give no role |
| Validation.NormalizeOptional | src/lib/validation.ts:10-31 | an optional field is null when it is absent or blank after trimming, and is otherwise its trimmed text |
| Validation.ValidateMonitoringData | src/lib/validation.ts:4-74 | succeeds iff every field check passes, with the fields trimmed and blank optionals null; otherwise reports the first failing check's message, in field order and check order |
| Validation.ParseProjectStatus | src/lib/validation.ts:53 | recognises exactly the four enum texts |
| Validation.StatusIssuesMeaning | src/lib/validation.ts:53 | the status raises no issue iff it is absent or one of the four texts; otherwise it raises zod's enum message |
| Validation.ValidateProjectData | src/lib/validation.ts:40-88 | succeeds iff the name, description and status checks pass; the status defaults to Active; otherwise reports the first message in field order |
| StartSweep.Threshold | supabase/functions/update-start-status/index.ts:21 | the threshold is exactly one day, 86 400 000 ms, before now |
| StartSweep.Promote | supabase/functions/update-start-status/index.ts:25-30 | an eligible row gets status In-Progress in that milestone only; every other row is unchanged |
| StartSweep.PromoteAll | supabase/functions/update-start-status/index.ts:25-30 | the bulk update keeps the table's length and leaves every row it does not match as it was |
| StartSweep.PromoteChangesIffEligible | supabase/functions/update-start-status/index.ts:25-30 | the update changes a row exactly when the row is eligible |
| StartSweep.UpdatedIds | supabase/functions/update-start-status/index.ts:30 | never more ids than rows; what the ids are is proved as UpdatedIdsMeaning |
| StartSweep.UpdatedIdsMeaning | supabase/functions/update-start-status/index.ts:30 | the reported ids are exactly the ids of the eligible rows: each id is an eligible row's, every eligible row's id is reported, one per eligible row; the list is empty iff no row is eligible |
| StartSweep.ReportedCountIsChangedRows | supabase/functions/update-start-status/index.ts:30-36 | the count a milestone reports is the number of rows its update changed |
| StartSweep.PromoteMilestone | supabase/functions/update-start-status/index.ts:25-36 | the in-place loop over the array equals the bulk update, and returns the matched ids; a store error changes nothing and returns no data |
| StartSweep.UpdateStartStatus | supabase/functions/update-start-status/index.ts:13-79 | the three milestone updates run in sequence; the response total is the sum of the counts; a client failure gives the 500 body and changes nothing |
| StartSweep.Sweep | supabase/functions/update-start-status/index.ts:24-58 | the three updates keep the table's length, and change nothing when all three fail; SweepPointwise states each row's outcome |
| StartSweep.ThresholdIsStrict | supabase/functions/update-start-status/index.ts:21-29 | a row started exactly one day ago stays Start; one started a millisecond earlier is promoted |
| StartSweep.PromoteAllFrame | supabase/functions/update-start-status/index.ts:27 | a milestone update writes only that milestone's status, and only on matching rows |
| StartSweep.IdsAfterPromote | supabase/functions/update-start-status/index.ts:24-58 | promoting one milestone leaves no match in that milestone, and neither adds nor removes matches of the others |
| StartSweep.PromoteCommutes | supabase/functions/update-start-status/index.ts:24-58 | updates of two different milestones commute |
| StartSweep.SweepPointwise | supabase/functions/update-start-status/index.ts:24-58 | the sequenced sweep decides each milestone of each row on the original table |
| StartSweep.SweepIdempotent | supabase/functions/update-start-status/index.ts:24-58 | a second successful run with the same clock changes nothing and reports 0 |
| StartSweep.SecondRunTotal | supabase/functions/update-start-status/index.ts:32-66 | a second run reports exactly what the first run's failed updates left behind |
| TrackingView.FieldFilterChange | src/pages/Area2DocumentTracking.tsx:87-107 | 'all' toggles between ['all'] and []; a field click drops 'all', then appends the field if checked or removes it if not, and falls back to ['all'] when that leaves 0 or 3 fields; any other result holds the value iff it was checked |
| TrackingView.FieldFilterCollapse | src/pages/Area2DocumentTracking.tsx:87-107 | for a click that does not re-check a selected field, the filter falls back to ['all'] iff 0 or 3 distinct fields would remain, and otherwise holds exactly those fields, each once |
| TrackingView.UncheckingFromAllStaysAll | src/pages/Area2DocumentTracking.tsx:87-107 | unchecking a field while 'all' is selected gives ['all'] again |
| TrackingView.ClickKeepsFilterWellFormed | src/pages/Area2DocumentTracking.tsx:866-877 | a click on a drawn checkbox keeps the filter 'all' alone, or up to two distinct field names |
| TrackingView.RowField | src/pages/Area2DocumentTracking.tsx:164 | a null or empty field is shown as Prabumulih |
| TrackingView.Kept | src/pages/Area2DocumentTracking.tsx:471-475 | keeps exactly the rows that pass both filters |
| TrackingView.KeptAppend | src/pages/Area2DocumentTracking.tsx:471-475 | the filter keeps load order: the kept rows of a concatenation are the kept rows of each part, in turn |
| TrackingView.EmptyFieldFilterHidesAll | src/pages/Area2DocumentTracking.tsx:471-473 | an empty field filter hides every row |
| TrackingView.AllFiltersKeepEveryRow | src/pages/Area2DocumentTracking.tsx:472-474 | with both filters at 'all', every row is kept, in order |
| TrackingView.GroupFold | src/pages/Area2DocumentTracking.tsx:471-492 | at most one key per row, each key with its group; FilterThenGroup proves it groups exactly the kept rows |
| TrackingView.GroupRows | src/pages/Area2DocumentTracking.tsx:471-492 | the in-place reduce loop computes the grouping fold |
| TrackingView.FilterThenGroup | src/pages/Area2DocumentTracking.tsx:471-492 | filtering inside the reduce is grouping the kept rows |
| TrackingView.GroupAllKeys | src/pages/Area2DocumentTracking.tsx:476-487 | one key per file name with a row, none twice, with the record and the key order agreeing |
| TrackingView.GroupAllHeaders | src/pages/Area2DocumentTracking.tsx:476-486 | each group's header comes from its document's first row |
| TrackingView.GroupAllSlots | src/pages/Area2DocumentTracking.tsx:488-490 | each milestone slot holds the document's last row of that milestone |
| TrackingView.GroupAllOrder | src/pages/Area2DocumentTracking.tsx:494 | groups are in the order of their documents' first rows |
| TrackingView.GroupedData | src/pages/PrabumulihProjectDetail.tsx:365-384 | one group per key, in key order |
| TrackingView.GroupedHeadersAndSlots | src/pages/PrabumulihProjectDetail.tsx:365-382 | each listed group takes its header from the first kept row, and its slots from the last kept rows |
| TrackingView.GroupedCoversKept | src/pages/PrabumulihProjectDetail.tsx:365-384 | every kept row's document is listed |
| TrackingView.GroupedOrder | src/pages/PrabumulihProjectDetail.tsx:384 | listed groups are in the order of their documents' first kept rows |
| TrackingView.SlotsMatch | src/pages/Area2DocumentTracking.tsx:488-490 | a slot holds a kept row of its own document and milestone |
| TrackingView.KeyLtTransitive | src/pages/Area2DocumentTracking.tsx:494-499 | the comparator on (lower-cased pic, lower-cased name) is transitive |
| TrackingView.SortByKey | src/pages/Area2DocumentTracking.tsx:494-499 | the sort returns a permutation of its input, sorted by the comparator |
| TrackingView.SortedGroupedData | src/pages/Area2DocumentTracking.tsx:494-499 | a permutation of the listed groups, non-decreasing by PIC then file name |
| TrackingView.RecapFold | src/pages/Area2DocumentTracking.tsx:438-462 | at most one key per row, each key with its entry; RecapFoldIsGroupAll proves the entries are the groups' statuses |
| TrackingView.BuildRecap | src/pages/Area2DocumentTracking.tsx:438-462 | the in-place recap loop computes the recap fold |
| TrackingView.RecapFoldIsGroupAll | src/pages/Area2DocumentTracking.tsx:438-462 | the recap has the groups' keys, in the same order, each showing its slots' statuses or 'Not Yet' |
| TrackingView.RecapIsUnfilteredGroups | src/pages/Area2DocumentTracking.tsx:438-463 | the recap ignores both filters: its entries are the unfiltered groups |
| TrackingView.RecapData | src/pages/Area2DocumentTracking.tsx:463-468 | the recap is a permutation of its entries, sorted by the comparator |
| TrackingView.SelectItems | src/pages/Area2DocumentTracking.tsx:938-948 | one row at most per visible milestone, each a filled slot of the group; SelectItemsSpec proves which and in what order |
| TrackingView.SelectItemsSpec | src/pages/Area2DocumentTracking.tsx:938-948 | the shown rows are exactly the filled slots of the visible milestones, in IFR, IFA, IFB order |
| TrackingView.VisibleCategories | src/pages/PrabumulihProjectDetail.tsx:545 | exactly the milestones the filter shows, in order |
| TrackingView.RenderGroup | src/pages/PrabumulihProjectDetail.tsx:544-599 | one line per visible milestone; RenderGroupSpec states each line |
| TrackingView.RenderGroupSpec | src/pages/PrabumulihProjectDetail.tsx:546-553 | one line per visible milestone; an empty slot shows 'Not Yet' and no dates; delete is offered to admin only, on the first line |
| TrackingView.RenderedItemsAreSelected | src/pages/PrabumulihProjectDetail.tsx:544-553 | both pages show the same records for a group under the same milestone filter |
| TrackingView.ExplanationByDay | src/pages/Area2DocumentTracking.tsx:427-436 | only local days count: a submission on the target day is On Time, and a later submission never classifies better |
| TrackingView.SubmitExplanation | src/pages/Area2DocumentTracking.tsx:427-436 | '-' iff a date is missing; a submission no later than the target is never Over Due, one no earlier is never Ahead; On Time only on the target's local day |
| TrackingView.InsertUnique | src/pages/Area2DocumentTracking.tsx:138-139 | inserting keeps the list strictly sorted and adds exactly that element |
| TrackingView.CollectPics | src/pages/Area2DocumentTracking.tsx:130-141 | the result stays strictly sorted and holds the earlier PICs and every non-empty PIC of the rows, and nothing else |
| TrackingView.ExistingPics | src/pages/Area2DocumentTracking.tsx:130-141 | the distinct non-empty PICs of the rows, strictly sorted |
| TrackingEdits.WithStatusEdit | src/pages/Area2DocumentTracking.tsx:216-230 | writes one milestone's status and actual submit date, and nothing else |
| TrackingEdits.WithTarget | src/pages/Area2DocumentTracking.tsx:276-289 | writes one milestone's target date, and nothing else |
| TrackingEdits.WithFileInfo | src/pages/Area2DocumentTracking.tsx:263-274 | writes the name and PIC, and the document number and field when the patch carries them; milestones and approval are kept |
| TrackingEdits.WithApproval | src/pages/Area2DocumentTracking.tsx:319-325 | writes the approval and comment only |
| TrackingEdits.EditStatusById | src/pages/Area2DocumentTracking.tsx:229-232 | the update by id keeps the table's length, ids and names, and leaves every row with another id as it was |
| TrackingEdits.EditApprovalById | src/pages/Area2DocumentTracking.tsx:319-325 | the rows with that id take the approval and comment; every other row is as it was |
| TrackingEdits.FanOut | src/pages/Area2DocumentTracking.tsx:270-274 | only the rows of that document in that project change; every row keeps its id and milestone |
| TrackingEdits.SetTargetWhere | src/pages/Area2DocumentTracking.tsx:284-289 | only the document's row of that milestone changes; every row keeps its id and name |
| TrackingEdits.DeleteDocument | src/pages/Area2DocumentTracking.tsx:336-341 | keeps exactly the rows of other documents; a document with no rows leaves the table unchanged |
| TrackingEdits.NewRow | src/pages/Area2DocumentTracking.tsx:368-404 | a new row carries the document's columns, its milestone's category, every target, and the store defaults |
| TrackingEdits.DocumentRows | src/pages/Area2DocumentTracking.tsx:368-404 | three rows of the same document, one per milestone in order, sharing columns and targets |
| TrackingEdits.MonitoringTable.SaveStatusEdit | src/pages/Area2DocumentTracking.tsx:216-241 | writes the edited row by id, or changes nothing on failure or with no row |
| TrackingEdits.MonitoringTable.Area2SaveFileInfo | src/pages/Area2DocumentTracking.tsx:243-304 | validate, then the PIC gate, then the fan-out over the document's rows, then the target date |
| TrackingEdits.MonitoringTable.PrabumulihSaveFileInfo | src/pages/PrabumulihProjectDetail.tsx:209-256 | the PIC gate, then the name and trimmed PIC over the document, then the target date, with no validation |
| TrackingEdits.MonitoringTable.Area2SaveApproval | src/pages/Area2DocumentTracking.tsx:306-334 | validates the stored name with the comment, then writes the approval by id |
| TrackingEdits.MonitoringTable.PrabumulihSaveApproval | src/pages/PrabumulihProjectDetail.tsx:258-275 | writes the approval and `comment \|\| null` by id |
| TrackingEdits.MonitoringTable.DeleteData | src/pages/Area2DocumentTracking.tsx:336-348 | removes every row of the document in the project |
| TrackingEdits.MonitoringTable.Area2AddNew | src/pages/Area2DocumentTracking.tsx:350-420 | validate, then the gate, then append the document's three rows |
| TrackingEdits.MonitoringTable.PrabumulihAddNew | src/pages/PrabumulihProjectDetail.tsx:291-347 | blank name refused; no project ignored; the gate; then append three rows |
| TrackingEdits.StatusEditTouchesOneRow | src/pages/PrabumulihProjectDetail.tsx:182-207 | with unique ids, a status edit changes one milestone of one row only |
| TrackingEdits.StatusEditIdempotent | src/pages/Area2DocumentTracking.tsx:216-241 | saving the same status edit twice is saving it once |
| TrackingEdits.FanOutPropagates | src/pages/Area2DocumentTracking.tsx:263-274 | every row of the document takes the new name and PIC; other rows are untouched; no milestone changes |
| TrackingEdits.RenameLeavesNoOldName | src/pages/Area2DocumentTracking.tsx:263-274 | after a rename, no row of the project has the old name |
| TrackingEdits.TargetFollowsRename | src/pages/Area2DocumentTracking.tsx:276-289 | the target update under the new name reaches exactly the renamed document's row of that milestone |
| TrackingEdits.RenameOntoExistingNameMerges | src/pages/Area2DocumentTracking.tsx:284-289 | renaming onto an existing name also retargets that other document's row |
| TrackingEdits.DeleteIdempotent | src/pages/Area2DocumentTracking.tsx:336-341 | deleting a document twice is deleting it once |
| TrackingEdits.DeleteUndoesAdd | src/pages/Area2DocumentTracking.tsx:336-404 | deleting a freshly added document restores the table |
| TrackingEdits.AddedDocumentGroups | src/pages/Area2DocumentTracking.tsx:471-492 | an added document forms one group filled in every slot, with the IFR row's id |
| TrackingEdits.PicGateSpec | src/pages/Area2DocumentTracking.tsx:257-262 | the gate refuses exactly a new non-blank PIC from a role that may not add |
| TrackingEdits.PicGateRejects | src/pages/Area2DocumentTracking.tsx:257-262 | a new non-blank trimmed PIC from a role other than admin or reviewer; PicGateSpec proves the gate refuses exactly these |
| TrackingEdits.StoredPicPassesGate | src/pages/Area2DocumentTracking.tsx:130-262 | a PIC that some row already stores passes the gate |
| TrackingEdits.Area2StoresTrimmedInput | src/pages/Area2DocumentTracking.tsx:246-250 | validation stores the trimmed PIC and document number, with blanks as null |
| TrackingEdits.LongStoredNameBlocksArea2Approval | src/pages/Area2DocumentTracking.tsx:309-317 | a stored name longer than 255 characters makes every Area 2 approval fail validation |
| LimauProjects.DialogDefaults | src/pages/Limau.tsx:109-126 | prefills the name, the description (null as empty) and the status (null or empty as Active); a new project starts blank and Active |
| LimauProjects.FinishedAtRule | src/pages/Limau.tsx:141-148 | sets now when the status becomes Completed, clears it when it stops being Completed, and leaves it otherwise |
| LimauProjects.ApplyPatch | src/pages/Limau.tsx:134-148 | writes the patch's columns and keeps the id and creator |
| LimauProjects.UpdateById | src/pages/Limau.tsx:150-153 | keeps the table's length; the projects with that id take the patch, and every other project is as it was |
| LimauProjects.DeleteById | src/pages/Limau.tsx:183-200 | keeps exactly the other projects |
| LimauProjects.DeleteByIdAppend | src/pages/Limau.tsx:186-189 | the delete keeps the others' order: deleting from a concatenation deletes from each part, in turn |
| LimauProjects.ProjectTable.Submit | src/pages/Limau.tsx:128-181 | refuses a blank name; edits through the patch; creates without a finish date; a failure changes nothing |
| LimauProjects.ProjectTable.Delete | src/pages/Limau.tsx:183-200 | deletes by id, or changes nothing |
| LimauProjects.LimauFlagsMatchDocumentPages | src/pages/Limau.tsx:106-107 | canEdit and canDelete grant what the document pages grant for file-info edits and deletes |
| LimauProjects.EditKeepsUnfinishedUnlessCompleted | src/pages/Limau.tsx:141-148 | an edit keeps "not Completed means no finish date" |
| LimauProjects.EditKeepsFinishedIfCompleted | src/pages/Limau.tsx:141-148 | an edit keeps "Completed means a finish date", and entering Completed stamps now |
| LimauProjects.CreatedCompletedStaysUndated | src/pages/Limau.tsx:141-170 | a project created as Completed has no finish date, and edits that keep it Completed add none |
| LimauProjects.UpdateKeepsTableInvariant | src/pages/Limau.tsx:134-153 | the table keeps "not Completed means no finish date" through every edit |
| LimauProjects.DeleteRemovesOnlyTheProject | src/pages/Limau.tsx:183-200 | a project survives the delete iff its id differs |
| DocumentFiles.ToggleFileSelection | src/components/DocumentFilesDialog.tsx:249-255 | a selected id is removed, keeping the others in order; an unselected id is appended at the end; no repeats are introduced |
| DocumentFiles.ToggleTwice | src/components/DocumentFilesDialog.tsx:249-255 | toggling twice restores the selected set, and restores the list when the id was absent |
| DocumentFiles.SelectAll | src/components/DocumentFilesDialog.tsx:257-263 | clears when every listed file is selected, and otherwise selects every listed file |
| DocumentFiles.SelectAllTwice | src/components/DocumentFilesDialog.tsx:257-263 | select-all then select-all again clears the selection |
| DocumentFiles.SelectAllAfterDeleteClears | src/components/DocumentFilesDialog.tsx:257-263 | with file c gone from the list, a stale selection of a and c makes the length test clear instead of selecting all |
| DocumentFiles.SelectAllAsWritten | src/components/DocumentFilesDialog.tsx:257-263 | the toggle as written, clearing whenever the selection is as long as the list; SelectAllAfterDeleteClears shows where it differs from SelectAll |
| DocumentFiles.SelectAllAgreesOnCurrentSelection | src/components/DocumentFilesDialog.tsx:257-263 | while the selection holds only listed ids without repeats, the length test is the intended test |
| DocumentFiles.NatText | src/components/DocumentFilesDialog.tsx:126 | `Date.now()` is written as non-empty decimal digits |
| DocumentFiles.UploadedRecords | src/components/DocumentFilesDialog.tsx:119-164 | one record per counted upload, within the size cap, for this document and milestone, pointing at an uploaded blob |
| DocumentFiles.UploadedCountBounds | src/components/DocumentFilesDialog.tsx:117-171 | the count is at most the number of picked files, and is zero iff no file got both blob and record |
| DocumentFiles.CountIgnoresLogs | src/components/DocumentFilesDialog.tsx:154-163 | a failed log write still counts the upload |
| DocumentFiles.SizeCapIsInclusive | src/components/DocumentFilesDialog.tsx:121 | exactly 10 MiB is accepted; one byte more is skipped before storage |
| DocumentFiles.RecordFailureOrphansBlob | src/components/DocumentFilesDialog.tsx:128-152 | a failed record insert leaves the blob stored, with no record |
| DocumentFiles.NewestFirstFiles | src/components/DocumentFilesDialog.tsx:73-81 | the listing holds exactly this document's files for this milestone |
| DocumentFiles.NewestFirstLogs | src/components/DocumentFilesDialog.tsx:91-98 | the log listing holds exactly this document's lines for this milestone |
| DocumentFiles.NewestFirstFilesAppend | src/components/DocumentFilesDialog.tsx:73-81 | rows inserted later are listed first: the listing of a grown table is the new rows' matches, newest first, ahead of the older listing |
| DocumentFiles.NewestFirstLogsAppend | src/components/DocumentFilesDialog.tsx:91-98 | the same newest-first order for the log lines |
| DocumentFiles.RecentLogs | src/components/DocumentFilesDialog.tsx:91-99 | the newest ten log lines at most, as a prefix of the newest-first list |
| DocumentFiles.FirstWithAction | src/components/DocumentFilesDialog.tsx:276-277 | the first line with that action, or none iff there is no such line |
| DocumentFiles.LastLog | src/components/DocumentFilesDialog.tsx:276-277 | a line of this document and milestone with that action, or none iff none of the ten newest lines has it |
| DocumentFiles.LastUploadHiddenByTenDownloads | src/components/DocumentFilesDialog.tsx:98-277 | after ten downloads, the last upload line shows nothing |
| DocumentFiles.FindById | src/components/DocumentFilesDialog.tsx:184 | `find` by id: a listed file with that id, or none iff there is none |
| DocumentFiles.Downloads | src/components/DocumentFilesDialog.tsx:182-194 | never more files than selected ids; DownloadsMeaning states which |
| DocumentFiles.DownloadsMeaning | src/components/DocumentFilesDialog.tsx:183-194 | the downloaded files are listed, selected and not failing, and every listed selected file that does not fail is downloaded |
| DocumentFiles.DownloadLogs | src/components/DocumentFilesDialog.tsx:206-214 | at most one download line per downloaded file |
| DocumentFiles.DownloadLogsMeaning | src/components/DocumentFilesDialog.tsx:206-214 | a download is logged iff its log insert succeeds, and every line is such a download's; with no failing insert, one line per download in order |
| DocumentFiles.RemoveRecord | src/components/DocumentFilesDialog.tsx:235-238 | keeps exactly the other records |
| DocumentFiles.FilesDialog.HandleFileUpload | src/components/DocumentFilesDialog.tsx:112-176 | blobs, records and logs grow by the loop's results; a notice iff something was uploaded; the list is refreshed after a notice |
| DocumentFiles.FilesDialog.UploadEach | src/components/DocumentFilesDialog.tsx:119-170 | the loop's counter and effects equal the specification folds |
| DocumentFiles.FilesDialog.UploadOne | src/components/DocumentFilesDialog.tsx:120-163 | one file: skipped over 10 MB, stored then recorded, each failure ending the turn; a failed log insert still counts the upload |
| DocumentFiles.FilesDialog.HandleDownloadSelected | src/components/DocumentFilesDialog.tsx:178-221 | hands over the selected listed files whose download succeeds, logs those whose log insert succeeds, then clears the selection |
| DocumentFiles.FilesDialog.DownloadEach | src/components/DocumentFilesDialog.tsx:182-214 | the loop hands over exactly the specification's downloads, and adds exactly their log lines |
| DocumentFiles.FilesDialog.DownloadOne | src/components/DocumentFilesDialog.tsx:183-214 | a listed file whose download succeeds is handed over, and logged unless its log insert fails; a missing or failing file changes nothing |
| DocumentFiles.FilesDialog.HandleDeleteFile | src/components/DocumentFilesDialog.tsx:223-247 | storage first; the record only after storage succeeds; the list is refreshed after both |
| Repository.RepositoryRole | src/pages/Repository.tsx:26-50 | viewer until the lookup returns, and the looked-up role when exactly one entry exists |
| Repository.Reviewed | src/pages/Repository.tsx:111-116 | a review sets reviewed, the notes, the reviewer and the time, and keeps the approval columns |
| Repository.Approved | src/pages/Repository.tsx:144-148 | an approval sets approved, the approver and the time, and keeps the review columns |
| Repository.ReviewById | src/pages/Repository.tsx:109-117 | the files with that id become reviewed by that user; every other file is as it was |
| Repository.ApproveById | src/pages/Repository.tsx:142-149 | the files with that id become approved by that user; every other file is as it was |
| Repository.UploadRecord | src/pages/Repository.tsx:78-83 | the stored path is `/uploads/<name>`; the status is the store default |
| Repository.RepoTable.Upload | src/pages/Repository.tsx:70-103 | no file or no user ignores; a store error reports its message; otherwise appends the record |
| Repository.RepoTable.Review | src/pages/Repository.tsx:105-136 | without a role or status check, writes the review by id, or changes nothing |
| Repository.RepoTable.Approve | src/pages/Repository.tsx:138-166 | writes the approval by id, or changes nothing |
| Repository.OfferedStep | src/pages/Repository.tsx:270-309 | a press writes a record iff the page offers that button to that role on that file; a review writes the file's reviewed record, an approval its approved record |
| Repository.NoDirectApproval | src/pages/Repository.tsx:270-309 | from pending, only a reviewer's review is offered; approval comes only from reviewed, by an approver |
| Repository.ViewerIsOfferedNothing | src/pages/Repository.tsx:26-309 | before the role arrives, and for viewer or user, nothing is offered |
| Repository.OneActionPerRole | src/pages/Repository.tsx:199-309 | no role is offered two kinds of action |
| Repository.ReviewTouchesOnlyThatFile | src/pages/Repository.tsx:109-117 | only the files with that id change, and only in their review columns |
| Repository.ApprovalKeepsReview | src/pages/Repository.tsx:138-149 | approving after review keeps the reviewer, notes and time |
| Repository.FilterFiles | src/pages/Repository.tsx:181-185 | keeps exactly the files whose lower-cased name or status contains the lower-cased term |
| Repository.FilterFilesAppend | src/pages/Repository.tsx:181-185 | the search keeps list order: filtering a concatenation filters each part, in turn |
| Repository.Matches | src/pages/Repository.tsx:181-185 | the lower-cased term occurs in the lower-cased name or status; NameMatchKept and FilterFiles use it |
| Repository.EmptyTermKeepsAll | src/pages/Repository.tsx:181-185 | an empty term keeps every file, in order |
| Repository.FilterIgnoresTermCase | src/pages/Repository.tsx:182-184 | the term's case does not matter |
| Repository.NameMatchKept | src/pages/Repository.tsx:183 | a file whose name contains the term is kept |
| UserManagement.AvailableRolesAreAllRoles | src/pages/UserManagement.tsx:31 | the menu lists the five app roles, each once |
| UserManagement.FirstEntry | src/pages/UserManagement.tsx:89 | `find`: the first entry of the user, or none iff there is none |
| UserManagement.UserRoleShown | src/pages/UserManagement.tsx:83-85 | the role of the user's first entry, or 'none' iff the user has no entry |
| UserManagement.RemoveById | src/pages/UserManagement.tsx:101 | keeps exactly the entries with other ids |
| UserManagement.SetRoleById | src/pages/UserManagement.tsx:113-115 | the entries with that id take the role; every other entry is as it was |
| UserManagement.AdminEntries | src/pages/UserManagement.tsx:38-43 | exactly the user's admin entries |
| UserManagement.PassesAdminGate | src/pages/UserManagement.tsx:38-50 | `.single()` succeeds iff the user has exactly one admin entry; TwoAdminEntriesAreRefused and NonAdminIsRefused use it |
| UserManagement.RolePage.Load | src/pages/UserManagement.tsx:33-81 | without a single admin entry nothing is loaded; a profiles error loads nothing; a roles error loads an empty list |
| UserManagement.RolePage.ChangeRole | src/pages/UserManagement.tsx:87-134 | 'none' removes the first entry by id; a role replaces that entry's role; no entry appends; any error leaves the list |
| UserManagement.AssignedRoleIsShown | src/pages/UserManagement.tsx:104-128 | after a replace or an append, the page shows the chosen role for the user |
| UserManagement.ReplaceChangesOnlyTheRole | src/pages/UserManagement.tsx:113-115 | ids and users stay; only entries with that id change, and only in their role |
| UserManagement.RemovingOnlyEntryShowsNone | src/pages/UserManagement.tsx:91-102 | with unique ids, removing a user's only entry shows 'none' and keeps every other entry |
| UserManagement.TwoAdminEntriesAreRefused | src/pages/UserManagement.tsx:38-50 | `.single()` refuses a user with two admin entries |
| UserManagement.NonAdminIsRefused | src/pages/UserManagement.tsx:38-50 | a user with no admin entry is refused |

## Left out

- Transport and plumbing are left out: the store client, HTTP serving and CORS of the job, toasts, console logging, React state and rendering, object URLs and link clicks. The job's and handlers' store results are inputs.
- Strings are Dafny strings, which are sequences of Unicode scalar values, not UTF-16 code units. This gives three differences from JavaScript. First, zod's `.min` and `.max` count code units, so a character outside the Basic Multilingual Plane counts twice in the source but once here: 200 emoji (400 code units) fail the source's 255 limit but pass the model's. Second, `localeCompare` is modelled as scalar-value order (StrLt). That differs from code-unit order between a character outside the Basic Multilingual Plane and one in U+E000–U+FFFF. Third, lone surrogates cannot be represented. Locale collation is not modelled.
- `toLowerCase` is modelled for ASCII letters only.
- `trim` uses the ECMAScript white-space and line-terminator set.
- Validation.ValidateMonitoringData: a null `file_name` is not modelled. zod reports its invalid-type message for it, while an absent one gives 'Required'.
- Times are integer milliseconds, and `new Date(...).toISOString()` round trips are not modelled. `setHours(0, 0, 0, 0)` is modelled with a fixed offset of local time from UTC, so daylight-saving changes are left out.
- Store-generated ids, column defaults and timestamps are parameters. The defaults of a new monitoring row (status 'Not Yet', approval 'Pending') and of a repository upload (review status 'pending') are not shown in the source.
- Listing refreshes assume that store insertion order is timestamp order, so "newest first" is a reversed filter.
- TrackingView.GroupFold and TrackingView.RecapFold: the reduce accumulators are the plain object `{}`. A file named after a property that every object inherits ("constructor", "toString", "valueOf", "hasOwnProperty", "__proto__", ...) finds a truthy inherited value, so no own entry is created and that document is missing from the table and the recap. The model treats every name as a fresh key.
- `Object.values` order is modelled as key-insertion order. JavaScript puts array-index-like keys first (for example, a file named "12"), and that is not modelled.
- `Array.prototype.sort` is modelled as an insertion sort. Its stability among equal keys is not stated beyond the permutation and order properties.
- A PIC named 'all' collides with the pages' "all PICs" filter value. The model keeps the source's comparison and does not single this out.
- Repository.FilterFiles: the review status is modelled as non-null text. A null `review_status` makes the source's `toLowerCase` throw when the name does not match, and that is not modelled.
- UserManagement.RolePage.Load: the loading spinner and the access-denied rendering are left out. Only the state the gate sets is modelled.
- Calculator, Dashboard, Monitoring, PowerBI, the chart and table components, the sidebar and the file-size formatting are not part of this model. They are UI, or floating-point and coercion code.
- `getRoleBadgeVariant`, `getStatusColor` and the other colour helpers are presentation only.
- ProjectTable, MonitoringTable and the other classes hold one table each. Concurrent edits between a page's read and its write are not modelled.

## Findings

| source | as written | input that shows it | evidently intended | confidence | as-written member | corrected member |
|---|---|---|---|---|---|---|
| src/components/DocumentFilesDialog.tsx:257-263 | select-all clears whenever the selection is as long as the file list | files a, b, c; select a and c; delete c, so the list is a, b; the selection a, c has length 2, so select-all clears instead of selecting b | clear only when every listed file is selected, and otherwise select every listed file | not executed | DocumentFiles.SelectAllAfterDeleteClears | DocumentFiles.SelectAll |
