/** The record edits of the two document-tracking pages (`Area2DocumentTracking.tsx`
    and `PrabumulihProjectDetail.tsx`) over the `prabumulih_monitoring_data` table:
    the status edit and the approval edit by row id, the file-info edit fanned out
    to every row of a document, the delete of a document and the insert of its
    three milestone rows. The store is the `rows` field of a class; whether each
    store call succeeds is a parameter. */
module TrackingEdits {
  import opened Common
  import opened Domain
  import opened Validation
  import opened TrackingView

  /** The project the Area 2 page is fixed to. */
  const Area2Project := "32ab11e0-59df-4e56-9586-a51315672be4"

  const SaveFailedMsg := "Failed to save changes"
  const NewPicMsg := "Only Admin and Reviewer can add new PIC names"
  const TargetFailedMsg := "Failed to save target date"
  const ApprovalFailedMsg := "Failed to update approval status"
  const DeleteFailedMsg := "Failed to delete data"
  const AddFailedMsg := "Failed to add monitoring data"

  /** The rows of one document: same file name, same project. */
  predicate OfDocument(r: Row, name: string, project: string) {
    r.fileName == name && r.projectId == project
  }

  // ---------------------------------------------------------------------------
  // Row-level edits

  /** The status edit of a row of milestone `c`: its status and actual submission
      are replaced and every other column is kept. */
  function WithStatusEdit(r: Row, c: Category, status: Option<Status>, actual: Option<int>): (e: Row)
    ensures e.Col(c).status == status && e.Col(c).actualSubmit == actual
    ensures e.Col(c).actualStart == r.Col(c).actualStart && e.Col(c).targetSubmit == r.Col(c).targetSubmit
    ensures forall d :: d != c ==> e.Col(d) == r.Col(d)
    ensures SameHeader(e, r) && e.category == r.category
    ensures e.approval == r.approval && e.approvalComment == r.approvalComment
  {
    r.WithCol(c, r.Col(c).(status := status, actualSubmit := actual))
  }

  /** The target-date edit of milestone `c`. */
  function WithTarget(r: Row, c: Category, date: Option<int>): (e: Row)
    ensures e.Col(c).targetSubmit == date
    ensures e.Col(c).status == r.Col(c).status && e.Col(c).actualStart == r.Col(c).actualStart
            && e.Col(c).actualSubmit == r.Col(c).actualSubmit
    ensures forall d :: d != c ==> e.Col(d) == r.Col(d)
    ensures SameHeader(e, r) && e.category == r.category
    ensures e.approval == r.approval && e.approvalComment == r.approvalComment
  {
    r.WithCol(c, r.Col(c).(targetSubmit := date))
  }

  /** The columns a file-info edit writes: file name and PIC always, document
      number and field only on the Area 2 page. */
  datatype FileInfoPatch = FileInfoPatch(
    fileName: string,
    pic: Option<string>,
    documentNumber: Write<Option<string>>,
    field: Write<Option<string>>)

  function WithFileInfo(r: Row, p: FileInfoPatch): (e: Row)
    ensures e.fileName == p.fileName && e.pic == p.pic
    ensures e.documentNumber == p.documentNumber.Apply(r.documentNumber) && e.field == p.field.Apply(r.field)
    ensures e.id == r.id && e.projectId == r.projectId && e.category == r.category
    ensures forall c :: e.Col(c) == r.Col(c)
    ensures e.approval == r.approval && e.approvalComment == r.approvalComment
  {
    r.(fileName := p.fileName, pic := p.pic,
       documentNumber := p.documentNumber.Apply(r.documentNumber), field := p.field.Apply(r.field))
  }

  function WithApproval(r: Row, a: Approval, comment: Option<string>): (e: Row)
    ensures e.approval == a && e.approvalComment == comment
    ensures SameHeader(e, r) && e.category == r.category
    ensures forall c :: e.Col(c) == r.Col(c)
  {
    r.(approval := a, approvalComment := comment)
  }

  // ---------------------------------------------------------------------------
  // Table-level edits (one store call each)

  /** `.update({status_description_<c>, actual_submit_<c>}).eq('id', id)`. */
  function EditStatusById(rows: seq<Row>, id: string, c: Category, status: Option<Status>, actual: Option<int>): (r: seq<Row>)
    ensures |r| == |rows|
    ensures forall i :: 0 <= i < |rows| && rows[i].id != id ==> r[i] == rows[i]
    ensures forall i :: 0 <= i < |rows| ==> r[i].id == rows[i].id && r[i].fileName == rows[i].fileName
  {
    seq(|rows|, i requires 0 <= i < |rows| =>
      if rows[i].id == id then WithStatusEdit(rows[i], c, status, actual) else rows[i])
  }

  /** `.update({approval_status, approval_comment}).eq('id', id)`. */
  function EditApprovalById(rows: seq<Row>, id: string, a: Approval, comment: Option<string>): (r: seq<Row>)
    ensures |r| == |rows|
    ensures forall i :: 0 <= i < |rows| && rows[i].id != id ==> r[i] == rows[i]
    ensures forall i :: 0 <= i < |rows| && rows[i].id == id ==> r[i].approval == a && r[i].approvalComment == comment
  {
    seq(|rows|, i requires 0 <= i < |rows| =>
      if rows[i].id == id then WithApproval(rows[i], a, comment) else rows[i])
  }

  /** `.update(commonUpdates).eq('file_name', name).eq('project_id', project)`. */
  function FanOut(rows: seq<Row>, name: string, project: string, p: FileInfoPatch): (r: seq<Row>)
    ensures |r| == |rows|
    ensures forall i :: 0 <= i < |rows| && !OfDocument(rows[i], name, project) ==> r[i] == rows[i]
    ensures forall i :: 0 <= i < |rows| ==> r[i].id == rows[i].id && r[i].category == rows[i].category
  {
    seq(|rows|, i requires 0 <= i < |rows| =>
      if OfDocument(rows[i], name, project) then WithFileInfo(rows[i], p) else rows[i])
  }

  /** `.update({target_submit_<c>}).eq('file_name', name).eq('status_category', c).eq('project_id', project)`. */
  function SetTargetWhere(rows: seq<Row>, name: string, c: Category, project: string, date: Option<int>): (r: seq<Row>)
    ensures |r| == |rows|
    ensures forall i :: 0 <= i < |rows| && !(OfDocument(rows[i], name, project) && rows[i].category == c) ==> r[i] == rows[i]
    ensures forall i :: 0 <= i < |rows| ==> r[i].id == rows[i].id && r[i].fileName == rows[i].fileName
  {
    seq(|rows|, i requires 0 <= i < |rows| =>
      if OfDocument(rows[i], name, project) && rows[i].category == c then WithTarget(rows[i], c, date) else rows[i])
  }

  /** `.delete().eq('file_name', name).eq('project_id', project)`: the other rows, in order. */
  function DeleteDocument(rows: seq<Row>, name: string, project: string): (r: seq<Row>)
    ensures forall x :: x in r <==> x in rows && !OfDocument(x, name, project)
    ensures |r| <= |rows|
    ensures (forall x :: x in rows ==> !OfDocument(x, name, project)) ==> r == rows
    decreases |rows|
  {
    if |rows| == 0 then []
    else
      var init := rows[..|rows| - 1];
      var last := rows[|rows| - 1];
      assert rows == init + [last];
      DeleteDocument(init, name, project) + (if OfDocument(last, name, project) then [] else [last])
  }

  /** The columns the add form supplies for a new document. */
  datatype NewDocument = NewDocument(
    projectId: string,
    field: Option<string>,
    fileName: string,
    documentNumber: Option<string>,
    pic: Option<string>,
    targetIfr: Option<int>,
    targetIfa: Option<int>,
    targetIfb: Option<int>)
  {
    function Target(c: Category): Option<int> {
      match c
      case IFR => targetIfr
      case IFA => targetIfa
      case IFB => targetIfb
    }
  }

  /** What the store fills in for the columns an insert leaves out; the model
      takes them as given. Columns that are nullable and unwritten are null. */
  datatype StoreDefaults = StoreDefaults(status: Option<Status>, approval: Approval)

  /** One of the three inserted rows: the given milestone, the shared columns,
      and all three target dates. */
  function NewRow(d: NewDocument, c: Category, id: string, st: StoreDefaults): (r: Row)
    ensures r.id == id && r.category == c && r.projectId == d.projectId && r.fileName == d.fileName
    ensures r.field == d.field && r.documentNumber == d.documentNumber && r.pic == d.pic
    ensures forall m :: r.Col(m) == Milestone(st.status, None, d.Target(m), None)
    ensures r.approval == st.approval && r.approvalComment == None
  {
    Row(id, d.projectId, d.field, d.fileName, d.documentNumber, d.pic, c,
        Milestone(st.status, None, d.targetIfr, None),
        Milestone(st.status, None, d.targetIfa, None),
        Milestone(st.status, None, d.targetIfb, None),
        st.approval, None)
  }

  /** The three rows of one insert call, in the order IFR, IFA, IFB. */
  function DocumentRows(d: NewDocument, idIfr: string, idIfa: string, idIfb: string, st: StoreDefaults): (rs: seq<Row>)
    ensures |rs| == 3
    ensures forall i :: 0 <= i < 3 ==> rs[i].category == Categories[i]
    ensures forall i :: 0 <= i < 3 ==> OfDocument(rs[i], d.fileName, d.projectId)
    ensures forall i, j :: 0 <= i < 3 && 0 <= j < 3 ==>
      rs[i].field == rs[j].field && rs[i].documentNumber == rs[j].documentNumber && rs[i].pic == rs[j].pic
    ensures forall i, m :: 0 <= i < 3 ==> rs[i].Col(m).targetSubmit == d.Target(m)
  {
    [NewRow(d, IFR, idIfr, st), NewRow(d, IFA, idIfa, st), NewRow(d, IFB, idIfb, st)]
  }

  // ---------------------------------------------------------------------------
  // The new-PIC gate and the inputs of the Area 2 validator

  /** A non-blank trimmed PIC that is not among the known PICs may be introduced
      only by an admin or a reviewer. */
  predicate PicGateRejects(picInput: string, existing: seq<string>, role: Option<Role>) {
    Trim(picInput) != "" && Trim(picInput) !in existing && role != Some(Admin) && role != Some(Reviewer)
  }

  /** The validator argument of the Area 2 add and file-info edit: the name as
      typed, PIC and document number trimmed with empty as null, no comment. */
  function FileInfoInput(name: string, pic: string, documentNumber: string): MonitoringInput {
    MonitoringInput(Some(name), OrNull(Trim(pic)), OrNull(Trim(documentNumber)), None)
  }

  /** The validator argument of the Area 2 approval edit. */
  function ApprovalInput(storedName: string, comment: string): MonitoringInput {
    MonitoringInput(Some(storedName), None, None, OrNull(Trim(comment)))
  }

  // ---------------------------------------------------------------------------
  // The table and its handlers

  class MonitoringTable {
    var rows: seq<Row>

    constructor (initial: seq<Row>)
      ensures rows == initial
    {
      rows := initial;
    }

    /** `handleSaveEdit` (identical on both pages): the item's own milestone gets the
        chosen status and actual submission date (None for an empty date). */
    method SaveStatusEdit(item: Option<Row>, status: Option<Status>, actual: Option<int>, storeOk: bool)
      returns (o: Outcome)
      modifies this
      ensures item.None? ==> o == Ignored && rows == old(rows)
      ensures item.Some? && storeOk ==>
        o == Saved && rows == EditStatusById(old(rows), item.value.id, item.value.category, status, actual)
      ensures item.Some? && !storeOk ==> o == Failed(SaveFailedMsg) && rows == old(rows)
    {
      if item.None? {
        return Ignored;
      }
      if !storeOk {
        return Failed(SaveFailedMsg);
      }
      rows := EditStatusById(rows, item.value.id, item.value.category, status, actual);
      o := Saved;
    }

    /** Area 2's `handleSaveReviewerEdit`: validate, apply the new-PIC gate, fan the
        validated file info out to the document's rows, and only then set the
        target date of the item's milestone on the rows carrying the new name. */
    method Area2SaveFileInfo(item: Option<Row>, editFileName: string, editPic: string,
                             editDocumentNumber: string, editField: string, target: Option<int>,
                             existing: seq<string>, role: Option<Role>, commonOk: bool, targetOk: bool)
      returns (o: Outcome)
      modifies this
      ensures item.None? ==> o == Ignored && rows == old(rows)
      ensures var v := ValidateMonitoringData(FileInfoInput(editFileName, editPic, editDocumentNumber));
        item.Some? && v.Err? ==> o == Rejected(v.error) && rows == old(rows)
      ensures var v := ValidateMonitoringData(FileInfoInput(editFileName, editPic, editDocumentNumber));
        item.Some? && v.Ok? && PicGateRejects(editPic, existing, role) ==> o == Rejected(NewPicMsg) && rows == old(rows)
      ensures var v := ValidateMonitoringData(FileInfoInput(editFileName, editPic, editDocumentNumber));
        item.Some? && v.Ok? && !PicGateRejects(editPic, existing, role) ==>
          var p := FileInfoPatch(v.value.fileName, v.value.pic, Set(v.value.documentNumber), Set(Some(editField)));
          var fanned := FanOut(old(rows), item.value.fileName, Area2Project, p);
          (!commonOk ==> o == Failed(SaveFailedMsg) && rows == old(rows))
          && (commonOk && !targetOk ==> o == Failed(TargetFailedMsg) && rows == fanned)
          && (commonOk && targetOk ==>
                o == Saved && rows == SetTargetWhere(fanned, v.value.fileName, item.value.category, Area2Project, target))
    {
      if item.None? {
        return Ignored;
      }
      var v := ValidateMonitoringData(FileInfoInput(editFileName, editPic, editDocumentNumber));
      if v.Err? {
        return Rejected(v.error);
      }
      if PicGateRejects(editPic, existing, role) {
        return Rejected(NewPicMsg);
      }
      var p := FileInfoPatch(v.value.fileName, v.value.pic, Set(v.value.documentNumber), Set(Some(editField)));
      if !commonOk {
        return Failed(SaveFailedMsg);
      }
      rows := FanOut(rows, item.value.fileName, Area2Project, p);
      if !targetOk {
        return Failed(TargetFailedMsg);
      }
      rows := SetTargetWhere(rows, v.value.fileName, item.value.category, Area2Project, target);
      o := Saved;
    }

    /** The Prabumulih page's `handleSaveReviewerEdit`: no validation; the name is
        stored as typed and the PIC trimmed, empty as null. */
    method PrabumulihSaveFileInfo(item: Option<Row>, projectId: string, editFileName: string, editPic: string,
                                  target: Option<int>, existing: seq<string>, role: Option<Role>,
                                  commonOk: bool, targetOk: bool)
      returns (o: Outcome)
      modifies this
      ensures item.None? ==> o == Ignored && rows == old(rows)
      ensures item.Some? && PicGateRejects(editPic, existing, role) ==> o == Rejected(NewPicMsg) && rows == old(rows)
      ensures item.Some? && !PicGateRejects(editPic, existing, role) ==>
        var p := FileInfoPatch(editFileName, OrNull(Trim(editPic)), Keep, Keep);
        var fanned := FanOut(old(rows), item.value.fileName, projectId, p);
        (!commonOk ==> o == Failed(SaveFailedMsg) && rows == old(rows))
        && (commonOk && !targetOk ==> o == Failed(TargetFailedMsg) && rows == fanned)
        && (commonOk && targetOk ==>
              o == Saved && rows == SetTargetWhere(fanned, editFileName, item.value.category, projectId, target))
    {
      if item.None? {
        return Ignored;
      }
      if PicGateRejects(editPic, existing, role) {
        return Rejected(NewPicMsg);
      }
      var p := FileInfoPatch(editFileName, OrNull(Trim(editPic)), Keep, Keep);
      if !commonOk {
        return Failed(SaveFailedMsg);
      }
      rows := FanOut(rows, item.value.fileName, projectId, p);
      if !targetOk {
        return Failed(TargetFailedMsg);
      }
      rows := SetTargetWhere(rows, editFileName, item.value.category, projectId, target);
      o := Saved;
    }

    /** Area 2's `handleSaveApproval`: the stored file name and the trimmed comment
        go through the validator before the row is updated. */
    method Area2SaveApproval(item: Option<Row>, approval: Approval, comment: string, storeOk: bool)
      returns (o: Outcome)
      modifies this
      ensures item.None? ==> o == Ignored && rows == old(rows)
      ensures item.Some? ==>
        var v := ValidateMonitoringData(ApprovalInput(item.value.fileName, comment));
        (v.Err? ==> o == Rejected(v.error) && rows == old(rows))
        && (v.Ok? && !storeOk ==> o == Failed(ApprovalFailedMsg) && rows == old(rows))
        && (v.Ok? && storeOk ==>
              o == Saved && rows == EditApprovalById(old(rows), item.value.id, approval, v.value.approvalComment))
    {
      if item.None? {
        return Ignored;
      }
      var v := ValidateMonitoringData(ApprovalInput(item.value.fileName, comment));
      if v.Err? {
        return Rejected(v.error);
      }
      if !storeOk {
        return Failed(ApprovalFailedMsg);
      }
      rows := EditApprovalById(rows, item.value.id, approval, v.value.approvalComment);
      o := Saved;
    }

    /** The Prabumulih page's `handleSaveApproval`: no validation. */
    method PrabumulihSaveApproval(item: Option<Row>, approval: Approval, comment: string, storeOk: bool)
      returns (o: Outcome)
      modifies this
      ensures item.None? ==> o == Ignored && rows == old(rows)
      ensures item.Some? && !storeOk ==> o == Failed(ApprovalFailedMsg) && rows == old(rows)
      ensures item.Some? && storeOk ==>
        o == Saved && rows == EditApprovalById(old(rows), item.value.id, approval, OrNull(Trim(comment)))
    {
      if item.None? {
        return Ignored;
      }
      if !storeOk {
        return Failed(ApprovalFailedMsg);
      }
      rows := EditApprovalById(rows, item.value.id, approval, OrNull(Trim(comment)));
      o := Saved;
    }

    /** `handleDeleteData` (both pages; Area 2 passes its fixed project). */
    method DeleteData(name: string, project: string, storeOk: bool) returns (o: Outcome)
      modifies this
      ensures storeOk ==> o == Saved && rows == DeleteDocument(old(rows), name, project)
      ensures !storeOk ==> o == Failed(DeleteFailedMsg) && rows == old(rows)
    {
      if !storeOk {
        return Failed(DeleteFailedMsg);
      }
      rows := DeleteDocument(rows, name, project);
      o := Saved;
    }

    /** Area 2's `handleAddNew`: validate, apply the new-PIC gate, then insert the
        three rows in one call. */
    method Area2AddNew(fileName: string, pic: string, documentNumber: string, field: string,
                       targetIfr: Option<int>, targetIfa: Option<int>, targetIfb: Option<int>,
                       existing: seq<string>, role: Option<Role>,
                       idIfr: string, idIfa: string, idIfb: string, st: StoreDefaults, storeOk: bool)
      returns (o: Outcome)
      modifies this
      ensures var v := ValidateMonitoringData(FileInfoInput(fileName, pic, documentNumber));
        v.Err? ==> o == Rejected(v.error) && rows == old(rows)
      ensures var v := ValidateMonitoringData(FileInfoInput(fileName, pic, documentNumber));
        v.Ok? && PicGateRejects(pic, existing, role) ==> o == Rejected(NewPicMsg) && rows == old(rows)
      ensures var v := ValidateMonitoringData(FileInfoInput(fileName, pic, documentNumber));
        v.Ok? && !PicGateRejects(pic, existing, role) ==>
          var d := NewDocument(Area2Project, Some(field), v.value.fileName, v.value.documentNumber, v.value.pic,
                               targetIfr, targetIfa, targetIfb);
          (!storeOk ==> o == Failed(AddFailedMsg) && rows == old(rows))
          && (storeOk ==> o == Saved && rows == old(rows) + DocumentRows(d, idIfr, idIfa, idIfb, st))
    {
      var v := ValidateMonitoringData(FileInfoInput(fileName, pic, documentNumber));
      if v.Err? {
        return Rejected(v.error);
      }
      if PicGateRejects(pic, existing, role) {
        return Rejected(NewPicMsg);
      }
      if !storeOk {
        return Failed(AddFailedMsg);
      }
      var d := NewDocument(Area2Project, Some(field), v.value.fileName, v.value.documentNumber, v.value.pic,
                           targetIfr, targetIfa, targetIfb);
      rows := rows + DocumentRows(d, idIfr, idIfa, idIfb, st);
      o := Saved;
    }

    /** The Prabumulih page's `handleAddNew`: a blank name is refused, a missing
        route project returns silently, then the new-PIC gate; the name is stored
        as typed, the PIC trimmed (empty as null), field and document number unset. */
    method PrabumulihAddNew(fileName: string, pic: string, projectId: Option<string>,
                            targetIfr: Option<int>, targetIfa: Option<int>, targetIfb: Option<int>,
                            existing: seq<string>, role: Option<Role>,
                            idIfr: string, idIfa: string, idIfb: string, st: StoreDefaults, storeOk: bool)
      returns (o: Outcome)
      modifies this
      ensures Trim(fileName) == "" ==> o == Rejected(FileNameRequiredMsg) && rows == old(rows)
      ensures Trim(fileName) != "" && projectId.None? ==> o == Ignored && rows == old(rows)
      ensures Trim(fileName) != "" && projectId.Some? && PicGateRejects(pic, existing, role) ==>
        o == Rejected(NewPicMsg) && rows == old(rows)
      ensures Trim(fileName) != "" && projectId.Some? && !PicGateRejects(pic, existing, role) ==>
        var d := NewDocument(projectId.value, None, fileName, None, OrNull(Trim(pic)), targetIfr, targetIfa, targetIfb);
        (!storeOk ==> o == Failed(AddFailedMsg) && rows == old(rows))
        && (storeOk ==> o == Saved && rows == old(rows) + DocumentRows(d, idIfr, idIfa, idIfb, st))
    {
      if Trim(fileName) == "" {
        return Rejected(FileNameRequiredMsg);
      }
      if projectId.None? {
        return Ignored;
      }
      if PicGateRejects(pic, existing, role) {
        return Rejected(NewPicMsg);
      }
      if !storeOk {
        return Failed(AddFailedMsg);
      }
      var d := NewDocument(projectId.value, None, fileName, None, OrNull(Trim(pic)), targetIfr, targetIfa, targetIfb);
      rows := rows + DocumentRows(d, idIfr, idIfa, idIfb, st);
      o := Saved;
    }
  }

  // ---------------------------------------------------------------------------
  // Properties of the edits

  /** With unique ids, a status edit changes one row only, and on that row only
      the status and the actual submission of its own milestone. */
  lemma StatusEditTouchesOneRow(rows: seq<Row>, k: nat, status: Option<Status>, actual: Option<int>)
    requires k < |rows|
    requires forall i, j :: 0 <= i < j < |rows| ==> rows[i].id != rows[j].id
    ensures var r := EditStatusById(rows, rows[k].id, rows[k].category, status, actual);
      |r| == |rows|
      && (forall i :: 0 <= i < |rows| && i != k ==> r[i] == rows[i])
      && r[k].Col(rows[k].category).status == status
      && r[k].Col(rows[k].category).actualSubmit == actual
      && (forall d :: d != rows[k].category ==> r[k].Col(d) == rows[k].Col(d))
      && SameHeader(r[k], rows[k]) && r[k].approval == rows[k].approval
  {
    var r := EditStatusById(rows, rows[k].id, rows[k].category, status, actual);
    forall i | 0 <= i < |rows| && i != k ensures r[i] == rows[i] {
      if i < k { assert rows[i].id != rows[k].id; } else { assert rows[k].id != rows[i].id; }
    }
  }

  /** Saving the same status edit twice leaves the table as saving it once. */
  lemma StatusEditIdempotent(rows: seq<Row>, id: string, c: Category, status: Option<Status>, actual: Option<int>)
    ensures var once := EditStatusById(rows, id, c, status, actual);
      EditStatusById(once, id, c, status, actual) == once
  {
    var once := EditStatusById(rows, id, c, status, actual);
    var twice := EditStatusById(once, id, c, status, actual);
    assert |twice| == |once|;
    forall i | 0 <= i < |once| ensures twice[i] == once[i] {
      if rows[i].id == id {
        assert once[i].id == id;
      }
    }
  }

  /** After a file-info edit every row of the document carries the new file name
      and PIC; rows of other documents and other projects are untouched, and
      milestone columns, category and approval of every row are kept. */
  lemma FanOutPropagates(rows: seq<Row>, name: string, project: string, p: FileInfoPatch)
    ensures var r := FanOut(rows, name, project, p);
      |r| == |rows|
      && (forall i :: 0 <= i < |rows| && OfDocument(rows[i], name, project) ==>
            (OfDocument(r[i], p.fileName, project) && r[i].pic == p.pic))
      && (forall i :: 0 <= i < |rows| && !OfDocument(rows[i], name, project) ==> r[i] == rows[i])
      && (forall i, c :: 0 <= i < |rows| ==>
            (r[i].Col(c) == rows[i].Col(c) && r[i].category == rows[i].category
             && r[i].approval == rows[i].approval && r[i].id == rows[i].id))
  {
  }

  /** A rename leaves no row of the project under the old name. */
  lemma RenameLeavesNoOldName(rows: seq<Row>, name: string, project: string, p: FileInfoPatch)
    requires p.fileName != name
    ensures forall x :: x in FanOut(rows, name, project, p) ==> !OfDocument(x, name, project)
  {
    var r := FanOut(rows, name, project, p);
    forall x | x in r ensures !OfDocument(x, name, project) {
      var i :| 0 <= i < |r| && r[i] == x;
      assert !OfDocument(rows[i], name, project) || r[i].fileName == p.fileName;
    }
  }

  /** When the new name is not already used by another document of the project,
      the target update that follows the fan-out reaches exactly the edited
      document's rows of the edited milestone, and changes only their target date. */
  lemma TargetFollowsRename(rows: seq<Row>, name: string, project: string, p: FileInfoPatch,
                            c: Category, date: Option<int>)
    requires p.fileName == name || forall x :: x in rows ==> !OfDocument(x, p.fileName, project)
    ensures var r := SetTargetWhere(FanOut(rows, name, project, p), p.fileName, c, project, date);
      |r| == |rows|
      && (forall i :: 0 <= i < |rows| ==>
            r[i].Col(c).targetSubmit
              == (if OfDocument(rows[i], name, project) && rows[i].category == c then date else rows[i].Col(c).targetSubmit))
      && (forall i, d :: 0 <= i < |rows| && d != c ==> r[i].Col(d) == rows[i].Col(d))
  {
    var f := FanOut(rows, name, project, p);
    var r := SetTargetWhere(f, p.fileName, c, project, date);
    forall i | 0 <= i < |rows|
      ensures r[i].Col(c).targetSubmit
              == (if OfDocument(rows[i], name, project) && rows[i].category == c then date else rows[i].Col(c).targetSubmit)
    {
      if !OfDocument(rows[i], name, project) {
        assert f[i] == rows[i];
        if p.fileName != name {
          assert rows[i] in rows;
          assert !OfDocument(f[i], p.fileName, project);
        }
      }
    }
  }

  /** Renaming a document onto the name of another document of the same project
      merges them: the other document's row of the edited milestone gets the
      target date too. */
  lemma RenameOntoExistingNameMerges(rows: seq<Row>, name: string, project: string, p: FileInfoPatch,
                                     c: Category, date: Option<int>, k: nat)
    requires k < |rows| && OfDocument(rows[k], p.fileName, project) && rows[k].category == c
    ensures var r := SetTargetWhere(FanOut(rows, name, project, p), p.fileName, c, project, date);
      r[k].Col(c).targetSubmit == date && r[k].id == rows[k].id
  {
    var f := FanOut(rows, name, project, p);
    assert OfDocument(f[k], p.fileName, project) && f[k].category == c;
  }

  /** Deleting a document twice is deleting it once. */
  lemma DeleteIdempotent(rows: seq<Row>, name: string, project: string)
    ensures DeleteDocument(DeleteDocument(rows, name, project), name, project) == DeleteDocument(rows, name, project)
  {
  }

  /** Deleting a just-added document undoes the add, provided the table held no
      row of that document before. */
  lemma DeleteUndoesAdd(rows: seq<Row>, d: NewDocument, idIfr: string, idIfa: string, idIfb: string, st: StoreDefaults)
    requires forall x :: x in rows ==> !OfDocument(x, d.fileName, d.projectId)
    ensures DeleteDocument(rows + DocumentRows(d, idIfr, idIfa, idIfb, st), d.fileName, d.projectId) == rows
  {
    var rs := DocumentRows(d, idIfr, idIfa, idIfb, st);
    var n, f := d.fileName, d.projectId;
    var a3, a2, a1 := rows + rs, rows + rs[..2], rows + rs[..1];
    assert a3[..|a3| - 1] == a2 && a3[|a3| - 1] == rs[2];
    assert a2[..|a2| - 1] == a1 && a2[|a2| - 1] == rs[1];
    assert a1[..|a1| - 1] == rows && a1[|a1| - 1] == rs[0];
    assert DeleteDocument(a1, n, f) == DeleteDocument(rows, n, f) == rows;
    assert DeleteDocument(a2, n, f) == DeleteDocument(a1, n, f);
    assert DeleteDocument(a3, n, f) == DeleteDocument(a2, n, f);
  }

  /** An added document shows in the view as one group with all three milestone
      slots filled by the new rows. */
  lemma AddedDocumentGroups(d: NewDocument, idIfr: string, idIfa: string, idIfb: string, st: StoreDefaults)
    ensures var rs := DocumentRows(d, idIfr, idIfa, idIfb, st);
      var g := GroupAll(rs);
      g.order == [d.fileName] && d.fileName in g.groups
      && g.groups[d.fileName].Slot(IFR) == Some(rs[0])
      && g.groups[d.fileName].Slot(IFA) == Some(rs[1])
      && g.groups[d.fileName].Slot(IFB) == Some(rs[2])
      && g.groups[d.fileName].id == idIfr
  {
    var rs := DocumentRows(d, idIfr, idIfa, idIfb, st);
    var k := d.fileName;
    assert rs[..1][..0] == [] && rs[..2][..1] == rs[..1] && rs[..|rs| - 1] == rs[..2];
    assert GroupAll(rs[..1][..0]) == Grouping([], map[]);
    var g1 := GroupAll(rs[..1]);
    assert g1 == AddRow(Grouping([], map[]), rs[0]);
    assert g1.order == [k] && g1.groups.Keys == {k};
    assert g1.groups[k] == NewGroup(rs[0]).WithSlot(IFR, rs[0]);
    var g2 := GroupAll(rs[..2]);
    assert g2 == AddRow(g1, rs[1]);
    assert g2.order == [k] && g2.groups[k] == g1.groups[k].WithSlot(IFA, rs[1]);
    assert GroupAll(rs) == AddRow(g2, rs[2]);
  }

  /** The new-PIC gate never stops an admin or a reviewer, never stops a blank or
      known PIC, and stops every other role exactly on a new PIC. */
  lemma PicGateSpec(picInput: string, existing: seq<string>, role: Option<Role>)
    ensures Permitted(role, AddNew) ==> !PicGateRejects(picInput, existing, role)
    ensures Trim(picInput) == "" || Trim(picInput) in existing ==> !PicGateRejects(picInput, existing, role)
    ensures !Permitted(role, AddNew) && Trim(picInput) != "" && Trim(picInput) !in existing
            ==> PicGateRejects(picInput, existing, role)
  {
  }

  /** With the known PICs loaded from the table, reusing the PIC already stored on
      a row passes the gate for every role. */
  lemma StoredPicPassesGate(rows: seq<Row>, k: nat, picInput: string, role: Option<Role>)
    requires k < |rows| && rows[k].pic == Some(Trim(picInput))
    ensures !PicGateRejects(picInput, ExistingPics(rows), role)
  {
  }

  /** Trimming and `|| null` before the validator, then the validator's own
      normalisation, give the same value as trimming once. */
  lemma NormalizeTrimmedInput(s: string)
    ensures NormalizeOptional(OrNull(Trim(s))) == OrNull(Trim(s))
  {
    TrimIdempotent(s);
  }

  /** When Area 2's validator accepts a file-info edit, it stores the same PIC as the
      Prabumulih page would (trimmed, empty as null), and a trimmed, non-empty name. */
  lemma Area2StoresTrimmedInput(name: string, pic: string, documentNumber: string)
    ensures var v := ValidateMonitoringData(FileInfoInput(name, pic, documentNumber));
      v.Ok? ==> v.value.pic == OrNull(Trim(pic)) && v.value.documentNumber == OrNull(Trim(documentNumber))
                && v.value.fileName == Trim(name) && v.value.fileName != ""
  {
    NormalizeTrimmedInput(pic);
    NormalizeTrimmedInput(documentNumber);
  }

  /** A stored file name longer than 255 characters after trimming (possible
      through the Prabumulih page, which does not check lengths) blocks every
      approval on the Area 2 page. */
  lemma LongStoredNameBlocksArea2Approval(storedName: string, comment: string)
    requires |Trim(storedName)| > FileNameMax
    ensures ValidateMonitoringData(ApprovalInput(storedName, comment)) == Err(FileNameTooLongMsg)
  {
  }
}
