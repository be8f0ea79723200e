/** The attachments dialog of a monitoring row (`src/components/DocumentFilesDialog.tsx`):
    the selection of listed files, the upload loop with its size cap and success
    counter, the download loop over the selection, the delete of one file, and
    the "last upload / last download" lines read from the newest logs.
    Storage paths, the `document_files` records and the `document_file_logs`
    entries are fields of a class; every storage or store result is an input. */
module DocumentFiles {
  import opened Common
  import opened Domain

  /** `10 * 1024 * 1024` bytes. */
  const MaxUploadBytes: nat := 10_485_760

  /** How many logs the dialog loads. */
  const LogLimit: nat := 10

  const StorageDeleteFailedMsg := "Failed to delete file from storage"
  const RecordDeleteFailedMsg := "Failed to delete file record"

  /** The `item` the dialog is opened for. */
  datatype DialogItem = DialogItem(id: string, category: Category)

  /** A row of `document_files`. */
  datatype DocumentFile = DocumentFile(
    id: string,
    monitoringDataId: string,
    fileName: string,
    filePath: string,
    fileType: string,
    fileSize: nat,
    uploadedBy: string,
    category: Category)

  datatype LogAction = UploadAction | DownloadAction

  /** A row of `document_file_logs`; the table keeps them in creation order. */
  datatype LogEntry = LogEntry(
    documentFileId: Option<string>,
    monitoringDataId: string,
    action: LogAction,
    userId: string,
    userName: string,
    category: Category)

  /** One picked file together with what each store call does for it: the
      clock reading, the storage upload, the record insert (with the id the
      store gives the record) and the log insert. */
  datatype UploadAttempt = UploadAttempt(
    name: string,
    size: nat,
    fileType: string,
    now: nat,
    storageOk: bool,
    recordId: string,
    recordOk: bool,
    logOk: bool)

  // ---------------------------------------------------------------------------
  // Selection

  /** `toggleFileSelection`: drop the id if selected, append it otherwise. */
  function ToggleFileSelection(prev: seq<string>, id: string): (r: seq<string>)
    ensures forall x :: x in r <==> (x in prev && x != id) || (x == id && id !in prev)
    ensures NoDuplicates(prev) ==> NoDuplicates(r)
    ensures id in prev ==> r == Without(prev, id)
    ensures id !in prev ==> r == prev + [id]
  {
    if id in prev then
      assert NoDuplicates(prev) ==> NoDuplicates(Without(prev, id)) by {
        if NoDuplicates(prev) { WithoutKeepsNoDuplicates(prev, id); }
      }
      Without(prev, id)
    else prev + [id]
  }

  /** Toggling the same id twice restores which ids are selected, and restores
      the selection exactly when the id was not selected before. */
  lemma ToggleTwice(prev: seq<string>, id: string)
    ensures forall x :: x in ToggleFileSelection(ToggleFileSelection(prev, id), id) <==> x in prev
    ensures id !in prev ==> ToggleFileSelection(ToggleFileSelection(prev, id), id) == prev
  {
    if id !in prev {
      assert id in prev + [id];
      WithoutAppended(prev, id);
    }
  }

  lemma {:induction false} WithoutAppended(s: seq<string>, x: string)
    requires x !in s
    ensures Without(s + [x], x) == s
    decreases |s|
  {
    if |s| == 0 {
      assert [x][1..] == [];
    } else {
      assert (s + [x])[1..] == s[1..] + [x];
      WithoutAppended(s[1..], x);
      assert s == [s[0]] + s[1..];
    }
  }

  /** The ids of the listed files, in list order. */
  function Ids(files: seq<DocumentFile>): (ids: seq<string>)
    ensures |ids| == |files|
    ensures forall i :: 0 <= i < |files| ==> ids[i] == files[i].id
  {
    seq(|files|, i requires 0 <= i < |files| => files[i].id)
  }

  /** `handleSelectAll` as written: it clears when the selection is as long as the list. */
  function SelectAllAsWritten(selected: seq<string>, files: seq<DocumentFile>): seq<string> {
    if |selected| == |files| then [] else Ids(files)
  }

  predicate AllSelected(selected: seq<string>, files: seq<DocumentFile>) {
    forall i :: 0 <= i < |files| ==> files[i].id in selected
  }

  /** The select-all toggle as evidently intended: clear when every listed file is
      selected, select every listed file otherwise. */
  function SelectAll(selected: seq<string>, files: seq<DocumentFile>): (r: seq<string>)
    ensures AllSelected(selected, files) ==> r == []
    ensures !AllSelected(selected, files) ==> r == Ids(files) && AllSelected(r, files)
  {
    if AllSelected(selected, files) then [] else Ids(files)
  }

  /** Pressing the corrected toggle twice on a non-empty list with something
      unselected selects everything, then nothing. */
  lemma SelectAllTwice(selected: seq<string>, files: seq<DocumentFile>)
    requires |files| > 0 && !AllSelected(selected, files)
    ensures AllSelected(SelectAll(selected, files), files)
    ensures SelectAll(SelectAll(selected, files), files) == []
  {
  }

  /** Three files, the first and the third selected, then the third deleted: the
      selection still has two ids for two listed files, so the written toggle
      clears the selection although the second file was never selected, where
      the intended toggle selects both files. */
  lemma SelectAllAfterDeleteClears(a: DocumentFile, b: DocumentFile, c: DocumentFile)
    requires a.id == "a" && b.id == "b" && c.id == "c"
    ensures var sel := ToggleFileSelection(ToggleFileSelection([], a.id), c.id);
      sel == ["a", "c"]
      && SelectAllAsWritten(sel, [a, b]) == []
      && !AllSelected(sel, [a, b])
      && SelectAll(sel, [a, b]) == ["a", "b"]
  {
    var sel := ToggleFileSelection(ToggleFileSelection([], a.id), c.id);
    assert sel == ["a", "c"];
    assert "b" !in sel;
    assert !AllSelected(sel, [a, b]) by { assert [a, b][1].id == "b"; }
  }

  /** While the selection holds only ids of listed files, without repeats, and the
      listed ids are distinct, comparing lengths is the same as checking that
      every file is selected. */
  lemma SelectAllAgreesOnCurrentSelection(selected: seq<string>, files: seq<DocumentFile>)
    requires NoDuplicates(selected) && NoDuplicates(Ids(files))
    requires forall x :: x in selected ==> x in Ids(files)
    ensures SelectAllAsWritten(selected, files) == SelectAll(selected, files)
  {
    var ids := Ids(files);
    if AllSelected(selected, files) {
      CoveringSelectionIsFull(selected, ids);
    }
    if |selected| == |files| {
      FullSelectionCovers(selected, ids);
      assert forall i :: 0 <= i < |files| ==> files[i].id == ids[i];
    }
  }

  /** Distinct ids that are all among distinct ids and cover them are as many. */
  lemma CoveringSelectionIsFull(selected: seq<string>, ids: seq<string>)
    requires NoDuplicates(selected) && NoDuplicates(ids)
    requires forall x :: x in selected ==> x in ids
    requires forall i :: 0 <= i < |ids| ==> ids[i] in selected
    ensures |selected| == |ids|
  {
    var s := set x | x in selected;
    var t := set x | x in ids;
    DistinctCard(selected);
    DistinctCard(ids);
    forall x | x in t ensures x in s {
      var i :| 0 <= i < |ids| && ids[i] == x;
    }
    assert s == t;
  }

  /** As many distinct ids as there are distinct listed ids, all listed, cover the list. */
  lemma FullSelectionCovers(selected: seq<string>, ids: seq<string>)
    requires NoDuplicates(selected) && NoDuplicates(ids)
    requires forall x :: x in selected ==> x in ids
    requires |selected| == |ids|
    ensures forall i :: 0 <= i < |ids| ==> ids[i] in selected
  {
    var s := set x | x in selected;
    var t := set x | x in ids;
    DistinctCard(selected);
    DistinctCard(ids);
    assert s <= t;
    assert |t - s| == 0 by { assert t == s + (t - s); }
    forall i | 0 <= i < |ids| ensures ids[i] in selected {
      assert ids[i] in t;
    }
  }

  // ---------------------------------------------------------------------------
  // Upload

  /** The decimal text of a natural number (`${Date.now()}`). */
  function NatText(n: nat): (s: string)
    ensures |s| >= 1
    ensures forall i :: 0 <= i < |s| ==> '0' <= s[i] <= '9'
    decreases n
  {
    if n < 10 then [('0' as int + n) as char]
    else NatText(n / 10) + [('0' as int + n % 10) as char]
  }

  /** `${userId}/${item.id}/${Date.now()}_${file.name}`. */
  function UploadPath(userId: string, itemId: string, a: UploadAttempt): string {
    userId + "/" + itemId + "/" + NatText(a.now) + "_" + a.name
  }

  predicate SizeOk(a: UploadAttempt) { a.size <= MaxUploadBytes }

  /** The attempt reaches storage and its record is saved. */
  predicate Uploaded(a: UploadAttempt) { SizeOk(a) && a.storageOk && a.recordOk }

  function NewRecord(a: UploadAttempt, userId: string, item: DialogItem): DocumentFile {
    DocumentFile(a.recordId, item.id, a.name, UploadPath(userId, item.id, a), a.fileType, a.size, userId, item.category)
  }

  /** The storage paths the loop writes: every attempt within the cap whose upload succeeded. */
  function BlobsOf(atts: seq<UploadAttempt>, userId: string, itemId: string): seq<string>
    decreases |atts|
  {
    if |atts| == 0 then []
    else
      var a := atts[|atts| - 1];
      BlobsOf(atts[..|atts| - 1], userId, itemId)
      + (if SizeOk(a) && a.storageOk then [UploadPath(userId, itemId, a)] else [])
  }

  /** The records the loop inserts, in loop order. */
  function RecordsOf(atts: seq<UploadAttempt>, userId: string, item: DialogItem): seq<DocumentFile>
    decreases |atts|
  {
    if |atts| == 0 then []
    else
      var a := atts[|atts| - 1];
      RecordsOf(atts[..|atts| - 1], userId, item) + (if Uploaded(a) then [NewRecord(a, userId, item)] else [])
  }

  /** Every saved record is within the cap, belongs to the item and the uploader,
      and points at a stored file; there is one record per counted file. */
  lemma {:induction false} UploadedRecords(atts: seq<UploadAttempt>, userId: string, item: DialogItem)
    ensures var rs := RecordsOf(atts, userId, item);
      |rs| == UploadedCount(atts)
      && (forall r :: r in rs ==>
            (r.fileSize <= MaxUploadBytes && r.monitoringDataId == item.id
             && r.category == item.category && r.uploadedBy == userId
             && r.filePath in BlobsOf(atts, userId, item.id)))
    decreases |atts|
  {
    if |atts| > 0 {
      UploadedRecords(atts[..|atts| - 1], userId, item);
    }
  }

  /** The upload logs the loop writes: one per saved record whose log insert succeeded. */
  function UploadLogsOf(atts: seq<UploadAttempt>, userId: string, userEmail: string, item: DialogItem): seq<LogEntry>
    decreases |atts|
  {
    if |atts| == 0 then []
    else
      var a := atts[|atts| - 1];
      UploadLogsOf(atts[..|atts| - 1], userId, userEmail, item)
      + (if Uploaded(a) && a.logOk then [LogEntry(None, item.id, UploadAction, userId, userEmail, item.category)] else [])
  }

  /** `uploadedCount`: the attempts within the cap whose upload and record both succeeded. */
  function UploadedCount(atts: seq<UploadAttempt>): nat
    decreases |atts|
  {
    if |atts| == 0 then 0
    else UploadedCount(atts[..|atts| - 1]) + (if Uploaded(atts[|atts| - 1]) then 1 else 0)
  }

  /** The count is at most the number of picked files, and zero exactly when no
      file was uploaded with its record saved. */
  lemma {:induction false} UploadedCountBounds(atts: seq<UploadAttempt>)
    ensures UploadedCount(atts) <= |atts|
    ensures UploadedCount(atts) == 0 <==> forall i :: 0 <= i < |atts| ==> !Uploaded(atts[i])
    decreases |atts|
  {
    if |atts| > 0 {
      var init := atts[..|atts| - 1];
      assert forall i :: 0 <= i < |init| ==> init[i] == atts[i];
      UploadedCountBounds(init);
    }
  }

  /** The log inserts do not affect the count: with every log insert failing the
      count is the same, and no more logs are written than files counted. */
  lemma {:induction false} CountIgnoresLogs(atts: seq<UploadAttempt>, userId: string, userEmail: string, item: DialogItem)
    ensures |UploadLogsOf(atts, userId, userEmail, item)| <= UploadedCount(atts)
    ensures (forall i :: 0 <= i < |atts| ==> atts[i].logOk) ==>
      |UploadLogsOf(atts, userId, userEmail, item)| == UploadedCount(atts)
    decreases |atts|
  {
    if |atts| > 0 {
      var init := atts[..|atts| - 1];
      assert forall i :: 0 <= i < |init| ==> init[i] == atts[i];
      CountIgnoresLogs(init, userId, userEmail, item);
    }
  }

  /** A file of exactly 10 MiB is uploaded; one byte more and it is skipped before
      any store call. */
  lemma SizeCapIsInclusive(a: UploadAttempt, userId: string, item: DialogItem)
    requires a.storageOk && a.recordOk
    ensures a.size == MaxUploadBytes ==> UploadedCount([a]) == 1
    ensures a.size == MaxUploadBytes + 1 ==> UploadedCount([a]) == 0 && BlobsOf([a], userId, item.id) == []
  {
    assert [a][..0] == [];
  }

  /** A failed record insert after a successful upload leaves a stored file with
      no record. */
  lemma RecordFailureOrphansBlob(a: UploadAttempt, userId: string, item: DialogItem)
    requires SizeOk(a) && a.storageOk && !a.recordOk
    ensures BlobsOf([a], userId, item.id) == [UploadPath(userId, item.id, a)]
    ensures RecordsOf([a], userId, item) == []
  {
    assert [a][..0] == [];
  }

  // ---------------------------------------------------------------------------
  // Listing, logs and download

  /** The matching entries of a creation-ordered table, newest first. */
  function NewestFirstFiles(records: seq<DocumentFile>, item: DialogItem): (r: seq<DocumentFile>)
    ensures forall f :: f in r <==> f in records && f.monitoringDataId == item.id && f.category == item.category
    decreases |records|
  {
    if |records| == 0 then []
    else
      var last := records[|records| - 1];
      var init := records[..|records| - 1];
      assert records == init + [last];
      (if last.monitoringDataId == item.id && last.category == item.category then [last] else [])
      + NewestFirstFiles(init, item)
  }

  function NewestFirstLogs(logs: seq<LogEntry>, item: DialogItem): (r: seq<LogEntry>)
    ensures forall e :: e in r <==> e in logs && e.monitoringDataId == item.id && e.category == item.category
    decreases |logs|
  {
    if |logs| == 0 then []
    else
      var last := logs[|logs| - 1];
      var init := logs[..|logs| - 1];
      assert logs == init + [last];
      (if last.monitoringDataId == item.id && last.category == item.category then [last] else [])
      + NewestFirstLogs(init, item)
  }

  /** Rows inserted later are listed earlier: the newest-first list of a table
      that grew by `b` is `b`'s matches, newest first, ahead of the older ones. */
  lemma {:induction false} NewestFirstFilesAppend(a: seq<DocumentFile>, b: seq<DocumentFile>, item: DialogItem)
    ensures NewestFirstFiles(a + b, item) == NewestFirstFiles(b, item) + NewestFirstFiles(a, item)
    decreases |b|
  {
    if |b| == 0 {
      assert a + b == a;
    } else {
      var init := b[..|b| - 1];
      var last := b[|b| - 1];
      assert b == init + [last];
      assert a + b == (a + init) + [last];
      var head := if last.monitoringDataId == item.id && last.category == item.category then [last] else [];
      var older := NewestFirstFiles(a, item);
      var newer := NewestFirstFiles(init, item);
      calc {
        NewestFirstFiles(a + b, item);
        == { NewestFirstFilesSnoc(a + init, last, item); }
        head + NewestFirstFiles(a + init, item);
        == { NewestFirstFilesAppend(a, init, item); }
        head + (newer + older);
        == { assert head + (newer + older) == (head + newer) + older; }
        (head + newer) + older;
        == { NewestFirstFilesSnoc(init, last, item); }
        NewestFirstFiles(b, item) + older;
      }
    }
  }

  lemma NewestFirstFilesSnoc(s: seq<DocumentFile>, x: DocumentFile, item: DialogItem)
    ensures NewestFirstFiles(s + [x], item)
            == (if x.monitoringDataId == item.id && x.category == item.category then [x] else []) + NewestFirstFiles(s, item)
  {
    assert (s + [x])[..|s|] == s;
  }

  /** The same order for the log table. */
  lemma {:induction false} NewestFirstLogsAppend(a: seq<LogEntry>, b: seq<LogEntry>, item: DialogItem)
    ensures NewestFirstLogs(a + b, item) == NewestFirstLogs(b, item) + NewestFirstLogs(a, item)
    decreases |b|
  {
    if |b| == 0 {
      assert a + b == a;
    } else {
      var init := b[..|b| - 1];
      var last := b[|b| - 1];
      assert b == init + [last];
      assert a + b == (a + init) + [last];
      var head := if last.monitoringDataId == item.id && last.category == item.category then [last] else [];
      var older := NewestFirstLogs(a, item);
      var newer := NewestFirstLogs(init, item);
      calc {
        NewestFirstLogs(a + b, item);
        == { NewestFirstLogsSnoc(a + init, last, item); }
        head + NewestFirstLogs(a + init, item);
        == { NewestFirstLogsAppend(a, init, item); }
        head + (newer + older);
        == { assert head + (newer + older) == (head + newer) + older; }
        (head + newer) + older;
        == { NewestFirstLogsSnoc(init, last, item); }
        NewestFirstLogs(b, item) + older;
      }
    }
  }

  lemma NewestFirstLogsSnoc(s: seq<LogEntry>, x: LogEntry, item: DialogItem)
    ensures NewestFirstLogs(s + [x], item)
            == (if x.monitoringDataId == item.id && x.category == item.category then [x] else []) + NewestFirstLogs(s, item)
  {
    assert (s + [x])[..|s|] == s;
  }

  /** `fetchFileLogs`: the ten newest logs of the item. */
  function RecentLogs(logs: seq<LogEntry>, item: DialogItem): (r: seq<LogEntry>)
    ensures |r| <= LogLimit && |r| <= |NewestFirstLogs(logs, item)|
    ensures r == NewestFirstLogs(logs, item)[..|r|]
    ensures |NewestFirstLogs(logs, item)| <= LogLimit ==> r == NewestFirstLogs(logs, item)
    ensures |NewestFirstLogs(logs, item)| >= LogLimit ==> |r| == LogLimit
  {
    var all := NewestFirstLogs(logs, item);
    if |all| <= LogLimit then all else all[..LogLimit]
  }

  /** `fileLogs.find(log => log.action === a)`. */
  function FirstWithAction(logs: seq<LogEntry>, a: LogAction): (r: Option<LogEntry>)
    ensures r.Some? ==> exists i :: 0 <= i < |logs| && logs[i] == r.value && r.value.action == a
                                   && forall j :: 0 <= j < i ==> logs[j].action != a
    ensures r.None? <==> forall i :: 0 <= i < |logs| ==> logs[i].action != a
    decreases |logs|
  {
    if |logs| == 0 then None
    else if logs[0].action == a then Some(logs[0])
    else
      var r := FirstWithAction(logs[1..], a);
      assert forall i :: 1 <= i < |logs| ==> logs[i] == logs[1..][i - 1];
      r
  }

  /** `lastUploadLog` / `lastDownloadLog`. */
  function LastLog(logs: seq<LogEntry>, item: DialogItem, a: LogAction): (r: Option<LogEntry>)
    ensures r.Some? ==> r.value in logs && r.value.action == a
                        && r.value.monitoringDataId == item.id && r.value.category == item.category
    ensures r.None? <==> forall e :: e in RecentLogs(logs, item) ==> e.action != a
  {
    FirstWithAction(RecentLogs(logs, item), a)
  }

  /** The "last upload" line is empty once ten downloads have been logged after
      the last upload, although an upload log exists. */
  lemma LastUploadHiddenByTenDownloads(logs: seq<LogEntry>, item: DialogItem, down: LogEntry)
    requires down.action == DownloadAction && down.monitoringDataId == item.id && down.category == item.category
    ensures LastLog(logs + seq(LogLimit, _ => down), item, UploadAction) == None
  {
    var tail := seq(LogLimit, _ => down);
    NewestFirstAfterRepeats(logs, tail, item, down);
    var recent := RecentLogs(logs + tail, item);
    assert forall i :: 0 <= i < |recent| ==> recent[i] == down;
  }

  /** Entries of the item appended last come first in the newest-first list. */
  lemma {:induction false} NewestFirstAfterRepeats(logs: seq<LogEntry>, tail: seq<LogEntry>, item: DialogItem, down: LogEntry)
    requires down.monitoringDataId == item.id && down.category == item.category
    requires forall i :: 0 <= i < |tail| ==> tail[i] == down
    ensures |NewestFirstLogs(logs + tail, item)| >= |tail|
    ensures forall i :: 0 <= i < |tail| ==> NewestFirstLogs(logs + tail, item)[i] == down
    decreases |tail|
  {
    if |tail| > 0 {
      var all := logs + tail;
      var init := tail[..|tail| - 1];
      assert all[..|all| - 1] == logs + init;
      assert all[|all| - 1] == down;
      NewestFirstAfterRepeats(logs, init, item, down);
      assert NewestFirstLogs(all, item) == [down] + NewestFirstLogs(logs + init, item);
    }
  }

  /** `documentFiles.find(f => f.id === fileId)`. */
  function FindById(files: seq<DocumentFile>, id: string): (r: Option<DocumentFile>)
    ensures r.Some? ==> r.value in files && r.value.id == id
    ensures r.None? <==> forall f :: f in files ==> f.id != id
    decreases |files|
  {
    if |files| == 0 then None
    else if files[0].id == id then Some(files[0])
    else
      assert forall f :: f in files && f != files[0] ==> f in files[1..];
      FindById(files[1..], id)
  }

  /** The files the download loop hands to the browser, in selection order: each
      selected id that is listed and whose download does not fail. */
  function Downloads(selected: seq<string>, files: seq<DocumentFile>, failing: set<string>): (ds: seq<DocumentFile>)
    ensures |ds| <= |selected|
    decreases |selected|
  {
    if |selected| == 0 then []
    else
      var f := FindById(files, selected[|selected| - 1]);
      Downloads(selected[..|selected| - 1], files, failing) + (if f.Some? && f.value.filePath !in failing then [f.value] else [])
  }

  /** Every downloaded file is listed, selected and not failing, and every selected
      id that is listed and does not fail is downloaded. */
  lemma {:induction false} DownloadsMeaning(selected: seq<string>, files: seq<DocumentFile>, failing: set<string>)
    ensures forall d :: d in Downloads(selected, files, failing) ==> d in files && d.id in selected && d.filePath !in failing
    ensures forall i :: 0 <= i < |selected| && FindById(files, selected[i]).Some?
                        && FindById(files, selected[i]).value.filePath !in failing
                        ==> FindById(files, selected[i]).value in Downloads(selected, files, failing)
    decreases |selected|
  {
    if |selected| > 0 {
      var init := selected[..|selected| - 1];
      DownloadsMeaning(init, files, failing);
      assert forall i :: 0 <= i < |init| ==> init[i] == selected[i];
    }
  }

  /** The log row the download loop inserts for a downloaded file. */
  function DownloadEntry(d: DocumentFile, userId: string, userEmail: string, item: DialogItem): LogEntry {
    LogEntry(Some(d.id), item.id, DownloadAction, userId, userEmail, item.category)
  }

  /** The log rows the download loop adds for the downloaded files, in order; the
      insert of the files whose ids are in `logFailing` fails, and the loop goes on
      without it. */
  function DownloadLogs(ds: seq<DocumentFile>, logFailing: set<string>, userId: string, userEmail: string, item: DialogItem): (ls: seq<LogEntry>)
    ensures |ls| <= |ds|
    decreases |ds|
  {
    if |ds| == 0 then []
    else
      var last := ds[|ds| - 1];
      DownloadLogs(ds[..|ds| - 1], logFailing, userId, userEmail, item)
      + (if last.id in logFailing then [] else [DownloadEntry(last, userId, userEmail, item)])
  }

  /** A download is logged exactly when its log insert does not fail; with no
      failing insert every download is logged once, in download order. */
  lemma {:induction false} DownloadLogsMeaning(ds: seq<DocumentFile>, logFailing: set<string>, userId: string, userEmail: string, item: DialogItem)
    ensures forall d :: d in ds && d.id !in logFailing ==> DownloadEntry(d, userId, userEmail, item) in DownloadLogs(ds, logFailing, userId, userEmail, item)
    ensures forall e :: e in DownloadLogs(ds, logFailing, userId, userEmail, item) ==>
      exists d :: d in ds && d.id !in logFailing && e == DownloadEntry(d, userId, userEmail, item)
    ensures logFailing == {} ==>
      DownloadLogs(ds, logFailing, userId, userEmail, item) == seq(|ds|, i requires 0 <= i < |ds| => DownloadEntry(ds[i], userId, userEmail, item))
    decreases |ds|
  {
    if |ds| > 0 {
      var init := ds[..|ds| - 1];
      var last := ds[|ds| - 1];
      assert ds == init + [last];
      DownloadLogsMeaning(init, logFailing, userId, userEmail, item);
      var ls0 := DownloadLogs(init, logFailing, userId, userEmail, item);
      var ls := DownloadLogs(ds, logFailing, userId, userEmail, item);
      assert ls == ls0 + (if last.id in logFailing then [] else [DownloadEntry(last, userId, userEmail, item)]);
      forall e | e in ls
        ensures exists d :: d in ds && d.id !in logFailing && e == DownloadEntry(d, userId, userEmail, item)
      {
        if e in ls0 {
          var d :| d in init && d.id !in logFailing && e == DownloadEntry(d, userId, userEmail, item);
          assert d in ds;
        } else {
          assert last in ds;
        }
      }
      if logFailing == {} {
        var all := seq(|ds|, i requires 0 <= i < |ds| => DownloadEntry(ds[i], userId, userEmail, item));
        assert ls0 == all[..|init|];
        assert all == all[..|init|] + [DownloadEntry(last, userId, userEmail, item)];
      }
    } else {
      assert DownloadLogs(ds, logFailing, userId, userEmail, item) == [];
    }
  }

  /** One turn of the download loop adds at most the file of the next selected id. */
  lemma DownloadStep(sel: seq<string>, i: nat, files: seq<DocumentFile>, failing: set<string>)
    requires i < |sel|
    ensures var f := FindById(files, sel[i]);
      Downloads(sel[..i + 1], files, failing)
      == Downloads(sel[..i], files, failing) + (if f.Some? && f.value.filePath !in failing then [f.value] else [])
  {
    assert sel[..i + 1][..i] == sel[..i];
  }

  lemma DownloadLogsSnoc(ds: seq<DocumentFile>, d: DocumentFile, logFailing: set<string>, userId: string, userEmail: string, item: DialogItem)
    ensures DownloadLogs(ds + [d], logFailing, userId, userEmail, item)
            == DownloadLogs(ds, logFailing, userId, userEmail, item)
               + (if d.id in logFailing then [] else [DownloadEntry(d, userId, userEmail, item)])
  {
    assert (ds + [d])[..|ds|] == ds;
  }

  /** `.remove([path])` leaves every other stored path. */
  function RemovePath(blobs: seq<string>, path: string): seq<string> {
    Without(blobs, path)
  }

  /** `.delete().eq('id', id)` on the records. */
  function RemoveRecord(records: seq<DocumentFile>, id: string): (r: seq<DocumentFile>)
    ensures forall f :: f in r <==> f in records && f.id != id
    decreases |records|
  {
    if |records| == 0 then []
    else (if records[0].id == id then [] else [records[0]]) + RemoveRecord(records[1..], id)
  }

  /** One more attempt extends each of the loop's results by that attempt's part. */
  lemma UploadStep(atts: seq<UploadAttempt>, i: nat, userId: string, userEmail: string, item: DialogItem)
    requires i < |atts|
    ensures var a, pre := atts[i], atts[..i];
      UploadedCount(atts[..i + 1]) == UploadedCount(pre) + (if Uploaded(a) then 1 else 0)
      && BlobsOf(atts[..i + 1], userId, item.id)
         == BlobsOf(pre, userId, item.id) + (if SizeOk(a) && a.storageOk then [UploadPath(userId, item.id, a)] else [])
      && RecordsOf(atts[..i + 1], userId, item)
         == RecordsOf(pre, userId, item) + (if Uploaded(a) then [NewRecord(a, userId, item)] else [])
      && UploadLogsOf(atts[..i + 1], userId, userEmail, item)
         == UploadLogsOf(pre, userId, userEmail, item)
            + (if Uploaded(a) && a.logOk then [LogEntry(None, item.id, UploadAction, userId, userEmail, item.category)] else [])
  {
    assert atts[..i + 1][..i] == atts[..i];
  }

  // ---------------------------------------------------------------------------
  // The dialog

  /** The dialog's listing and selection, together with the parts of the store
      its handlers write. */
  class FilesDialog {
    var files: seq<DocumentFile>
    var selected: seq<string>
    var blobs: seq<string>
    var records: seq<DocumentFile>
    var logs: seq<LogEntry>

    constructor (blobs0: seq<string>, records0: seq<DocumentFile>, logs0: seq<LogEntry>, item: DialogItem)
      ensures files == NewestFirstFiles(records0, item) && selected == []
      ensures blobs == blobs0 && records == records0 && logs == logs0
    {
      files := NewestFirstFiles(records0, item);
      selected := [];
      blobs := blobs0;
      records := records0;
      logs := logs0;
    }

    /** `handleFileUpload`: the loop over the picked files. */
    method HandleFileUpload(picked: Option<seq<UploadAttempt>>, item: Option<DialogItem>, userId: string, userEmail: string)
      returns (uploadedCount: nat, notified: bool)
      modifies this
      ensures picked.None? || item.None? || userId == "" ==>
        uploadedCount == 0 && !notified
        && files == old(files) && blobs == old(blobs) && records == old(records) && logs == old(logs)
      ensures picked.Some? && item.Some? && userId != "" ==>
        uploadedCount == UploadedCount(picked.value)
        && blobs == old(blobs) + BlobsOf(picked.value, userId, item.value.id)
        && records == old(records) + RecordsOf(picked.value, userId, item.value)
        && logs == old(logs) + UploadLogsOf(picked.value, userId, userEmail, item.value)
        && notified == (uploadedCount > 0)
        && files == (if notified then NewestFirstFiles(records, item.value) else old(files))
      ensures selected == old(selected)
    {
      if picked.None? || item.None? || userId == "" {
        return 0, false;
      }
      uploadedCount := UploadEach(picked.value, item.value, userId, userEmail);
      notified := uploadedCount > 0;
      if notified {
        files := NewestFirstFiles(records, item.value);
      }
    }

    /** The `for` loop of `handleFileUpload`. */
    method UploadEach(atts: seq<UploadAttempt>, it: DialogItem, userId: string, userEmail: string)
      returns (uploadedCount: nat)
      modifies `blobs, `records, `logs
      ensures uploadedCount == UploadedCount(atts)
      ensures blobs == old(blobs) + BlobsOf(atts, userId, it.id)
      ensures records == old(records) + RecordsOf(atts, userId, it)
      ensures logs == old(logs) + UploadLogsOf(atts, userId, userEmail, it)
      ensures files == old(files) && selected == old(selected)
    {
      uploadedCount := 0;
      for i := 0 to |atts|
        invariant uploadedCount == UploadedCount(atts[..i])
        invariant blobs == old(blobs) + BlobsOf(atts[..i], userId, it.id)
        invariant records == old(records) + RecordsOf(atts[..i], userId, it)
        invariant logs == old(logs) + UploadLogsOf(atts[..i], userId, userEmail, it)
      {
        UploadStep(atts, i, userId, userEmail, it);
        var uploaded := UploadOne(atts[i], it, userId, userEmail);
        if uploaded {
          uploadedCount := uploadedCount + 1;
        }
      }
      assert atts[..|atts|] == atts;
    }

    /** One turn of that loop: a file over the size limit is skipped, a failed
        storage upload or record insert ends the turn, and a failed log insert is
        ignored. */
    method UploadOne(a: UploadAttempt, it: DialogItem, userId: string, userEmail: string)
      returns (uploaded: bool)
      modifies `blobs, `records, `logs
      ensures uploaded == Uploaded(a)
      ensures blobs == old(blobs) + (if SizeOk(a) && a.storageOk then [UploadPath(userId, it.id, a)] else [])
      ensures records == old(records) + (if Uploaded(a) then [NewRecord(a, userId, it)] else [])
      ensures logs == old(logs)
                      + (if Uploaded(a) && a.logOk then [LogEntry(None, it.id, UploadAction, userId, userEmail, it.category)] else [])
    {
      if a.size > MaxUploadBytes {
        return false;
      }
      var path := UploadPath(userId, it.id, a);
      if !a.storageOk {
        return false;
      }
      blobs := blobs + [path];
      if !a.recordOk {
        return false;
      }
      records := records + [NewRecord(a, userId, it)];
      if a.logOk {
        logs := logs + [LogEntry(None, it.id, UploadAction, userId, userEmail, it.category)];
      }
      uploaded := true;
    }

    /** One turn of the download loop: a listed file whose download succeeds is
        handed over and, unless its log insert fails, logged. */
    method DownloadOne(file: Option<DocumentFile>, it: DialogItem, userId: string, userEmail: string,
                       failing: set<string>, logFailing: set<string>)
      returns (got: bool)
      modifies `logs
      ensures got == (file.Some? && file.value.filePath !in failing)
      ensures logs == old(logs) + (if got && file.value.id !in logFailing then [DownloadEntry(file.value, userId, userEmail, it)] else [])
    {
      if file.None? || file.value.filePath in failing {
        return false;
      }
      if file.value.id !in logFailing {
        logs := logs + [DownloadEntry(file.value, userId, userEmail, it)];
      }
      got := true;
    }

    /** `handleDownloadSelected`: the loop over the selected ids; the selection is
        emptied at the end. The downloads of the paths in `failing` fail, and the
        log inserts for the file ids in `logFailing` fail without stopping the loop. */
    method HandleDownloadSelected(item: Option<DialogItem>, userId: string, userEmail: string,
                                  failing: set<string>, logFailing: set<string>)
      returns (downloaded: seq<DocumentFile>)
      modifies `selected, `logs
      ensures item.None? || userId == "" ==>
        downloaded == [] && selected == old(selected) && logs == old(logs)
      ensures item.Some? && userId != "" ==>
        downloaded == Downloads(old(selected), old(files), failing)
        && logs == old(logs) + DownloadLogs(downloaded, logFailing, userId, userEmail, item.value)
        && selected == []
      ensures files == old(files) && blobs == old(blobs) && records == old(records)
    {
      if item.None? || userId == "" {
        return [];
      }
      downloaded := DownloadEach(selected, item.value, userId, userEmail, failing, logFailing);
      selected := [];
    }

    /** The `for` loop of `handleDownloadSelected` over the ids `sel`. */
    method DownloadEach(sel: seq<string>, it: DialogItem, userId: string, userEmail: string,
                        failing: set<string>, logFailing: set<string>)
      returns (downloaded: seq<DocumentFile>)
      modifies `logs
      ensures downloaded == Downloads(sel, files, failing)
      ensures logs == old(logs) + DownloadLogs(downloaded, logFailing, userId, userEmail, it)
    {
      downloaded := [];
      for i := 0 to |sel|
        invariant downloaded == Downloads(sel[..i], files, failing)
        invariant logs == old(logs) + DownloadLogs(downloaded, logFailing, userId, userEmail, it)
      {
        DownloadStep(sel, i, files, failing);
        var file := FindById(files, sel[i]);
        var got := DownloadOne(file, it, userId, userEmail, failing, logFailing);
        if got {
          DownloadLogsSnoc(downloaded, file.value, logFailing, userId, userEmail, it);
          downloaded := downloaded + [file.value];
        }
      }
      assert sel[..|sel|] == sel;
    }

    /** `handleDeleteFile`: storage first; the record is deleted only after the
        stored file is gone, and the listing is reloaded after both succeed. */
    method HandleDeleteFile(file: DocumentFile, item: DialogItem, storageOk: bool, recordOk: bool)
      returns (o: Outcome)
      modifies this
      ensures !storageOk ==>
        o == Failed(StorageDeleteFailedMsg) && blobs == old(blobs) && records == old(records) && files == old(files)
      ensures storageOk && !recordOk ==>
        o == Failed(RecordDeleteFailedMsg) && blobs == RemovePath(old(blobs), file.filePath)
        && records == old(records) && files == old(files)
      ensures storageOk && recordOk ==>
        o == Saved && blobs == RemovePath(old(blobs), file.filePath)
        && records == RemoveRecord(old(records), file.id) && files == NewestFirstFiles(records, item)
      ensures selected == old(selected) && logs == old(logs)
    {
      if !storageOk {
        return Failed(StorageDeleteFailedMsg);
      }
      blobs := RemovePath(blobs, file.filePath);
      if !recordOk {
        return Failed(RecordDeleteFailedMsg);
      }
      records := RemoveRecord(records, file.id);
      files := NewestFirstFiles(records, item);
      o := Saved;
    }
  }
}
