/** The input validators of `src/lib/validation.ts`. A zod object schema checks
    its fields in declaration order and, within a field, its checks in the order
    they were chained; every failing check adds an issue, and the validators
    report the message of the first issue only. `.trim()` replaces the value
    before the length and character checks that follow it, and
    `.transform(val => val || null)` turns an absent, null or empty value into null. */
module Validation {
  import opened Common

  const FileNameMax: nat := 255
  const PicMax: nat := 100
  const DocumentNumberMax: nat := 50
  const CommentMax: nat := 1000
  const ProjectNameMax: nat := 255
  const DescriptionMax: nat := 1000

  /** zod's message for a required key that is undefined. */
  const RequiredMsg := "Required"
  const FileNameRequiredMsg := "File name is required"
  const FileNameTooLongMsg := "File name must be less than 255 characters"
  const PicTooLongMsg := "PIC name must be less than 100 characters"
  const PicInvalidMsg := "PIC contains invalid characters"
  const DocumentNumberTooLongMsg := "Document number must be less than 50 characters"
  const CommentTooLongMsg := "Comment must be less than 1000 characters"
  const ProjectNameRequiredMsg := "Project name is required"
  const ProjectNameTooLongMsg := "Project name must be less than 255 characters"
  const DescriptionTooLongMsg := "Description must be less than 1000 characters"
  const FallbackMsg := "Validation failed"

  /** The argument of `validateMonitoringData`; None stands for undefined, and in the
      three optional fields also for null, which they treat alike. */
  datatype MonitoringInput = MonitoringInput(
    fileName: Option<string>,
    pic: Option<string>,
    documentNumber: Option<string>,
    approvalComment: Option<string>)

  /** The parsed value handed back on success. */
  datatype MonitoringData = MonitoringData(
    fileName: string,
    pic: Option<string>,
    documentNumber: Option<string>,
    approvalComment: Option<string>)

  /** The class `[a-zA-Z0-9\s'\-\.]` of the PIC pattern. */
  predicate PicChar(c: char) {
    ('a' <= c <= 'z') || ('A' <= c <= 'Z') || ('0' <= c <= '9') || IsJsSpace(c)
    || c == '\'' || c == '-' || c == '.'
  }

  predicate AllPicChars(s: string) {
    forall i :: 0 <= i < |s| ==> PicChar(s[i])
  }

  /** The issues of a required trimmed string with a minimum of 1 and a maximum. */
  function RequiredStringIssues(v: Option<string>, max: nat, emptyMsg: string, longMsg: string): seq<string> {
    match v
    case None => [RequiredMsg]
    case Some(s) =>
      var t := Trim(s);
      (if |t| < 1 then [emptyMsg] else []) + (if |t| > max then [longMsg] else [])
  }

  /** The issues of an optional, nullable trimmed string with a maximum. */
  function OptionalStringIssues(v: Option<string>, max: nat, longMsg: string): seq<string> {
    match v
    case None => []
    case Some(s) => if |Trim(s)| > max then [longMsg] else []
  }

  function PicIssues(v: Option<string>): seq<string> {
    match v
    case None => []
    case Some(s) =>
      var t := Trim(s);
      (if |t| > PicMax then [PicTooLongMsg] else []) + (if !AllPicChars(t) then [PicInvalidMsg] else [])
  }

  /** Every issue `monitoringDataSchema` raises, in the order zod raises them. */
  function MonitoringIssues(d: MonitoringInput): seq<string> {
    RequiredStringIssues(d.fileName, FileNameMax, FileNameRequiredMsg, FileNameTooLongMsg)
    + PicIssues(d.pic)
    + OptionalStringIssues(d.documentNumber, DocumentNumberMax, DocumentNumberTooLongMsg)
    + OptionalStringIssues(d.approvalComment, CommentMax, CommentTooLongMsg)
  }

  /** `firstError?.message || 'Validation failed'`. */
  function FirstMessage(issues: seq<string>): string {
    if |issues| == 0 || issues[0] == "" then FallbackMsg else issues[0]
  }

  /** trim, then `val || null`. */
  function NormalizeOptional(v: Option<string>): (r: Option<string>)
    ensures r.None? <==> v.None? || Trim(v.value) == ""
    ensures r.Some? ==> r.value == Trim(v.value) && Trimmed(r.value)
  {
    match v
    case None => None
    case Some(s) => OrNull(Trim(s))
  }

  /** Each field's acceptance condition, stated on its own. */
  predicate FileNameOk(v: Option<string>) { v.Some? && 1 <= |Trim(v.value)| <= FileNameMax }
  predicate PicLengthOk(v: Option<string>) { v.None? || |Trim(v.value)| <= PicMax }
  predicate PicCharsOk(v: Option<string>) { v.None? || AllPicChars(Trim(v.value)) }
  predicate DocumentNumberOk(v: Option<string>) { v.None? || |Trim(v.value)| <= DocumentNumberMax }
  predicate CommentOk(v: Option<string>) { v.None? || |Trim(v.value)| <= CommentMax }

  /** `validateMonitoringData`: success exactly when every check passes, with every
      string trimmed and empty optional strings null; otherwise the message of the
      first failing check, in field order and, within a field, in check order. */
  function ValidateMonitoringData(d: MonitoringInput): (r: Result<MonitoringData, string>)
    ensures r.Ok? <==> FileNameOk(d.fileName) && PicLengthOk(d.pic) && PicCharsOk(d.pic)
                       && DocumentNumberOk(d.documentNumber) && CommentOk(d.approvalComment)
    ensures r.Ok? ==>
      r.value.fileName == Trim(d.fileName.value) && Trimmed(r.value.fileName) && r.value.fileName != ""
      && r.value.pic == NormalizeOptional(d.pic)
      && r.value.documentNumber == NormalizeOptional(d.documentNumber)
      && r.value.approvalComment == NormalizeOptional(d.approvalComment)
    ensures d.fileName.None? ==> r == Err(RequiredMsg)
    ensures d.fileName.Some? && Trim(d.fileName.value) == "" ==> r == Err(FileNameRequiredMsg)
    ensures d.fileName.Some? && |Trim(d.fileName.value)| > FileNameMax ==> r == Err(FileNameTooLongMsg)
    ensures FileNameOk(d.fileName) && !PicLengthOk(d.pic) ==> r == Err(PicTooLongMsg)
    ensures FileNameOk(d.fileName) && PicLengthOk(d.pic) && !PicCharsOk(d.pic) ==> r == Err(PicInvalidMsg)
    ensures (FileNameOk(d.fileName) && PicLengthOk(d.pic) && PicCharsOk(d.pic)
             && !DocumentNumberOk(d.documentNumber)) ==> r == Err(DocumentNumberTooLongMsg)
    ensures (FileNameOk(d.fileName) && PicLengthOk(d.pic) && PicCharsOk(d.pic)
             && DocumentNumberOk(d.documentNumber) && !CommentOk(d.approvalComment)) ==> r == Err(CommentTooLongMsg)
  {
    var issues := MonitoringIssues(d);
    if |issues| == 0 then
      Ok(MonitoringData(Trim(d.fileName.value), NormalizeOptional(d.pic),
                        NormalizeOptional(d.documentNumber), NormalizeOptional(d.approvalComment)))
    else Err(FirstMessage(issues))
  }

  /** `z.enum(['Active', 'On Hold', 'Completed', 'Cancelled'])`. */
  datatype ProjectStatus = Active | OnHold | Completed | Cancelled

  function ProjectStatusText(s: ProjectStatus): string {
    match s
    case Active => "Active"
    case OnHold => "On Hold"
    case Completed => "Completed"
    case Cancelled => "Cancelled"
  }

  function ParseProjectStatus(s: string): (r: Option<ProjectStatus>)
    ensures r.Some? ==> ProjectStatusText(r.value) == s
    ensures r.None? ==> forall st: ProjectStatus :: ProjectStatusText(st) != s
  {
    if s == "Active" then Some(Active)
    else if s == "On Hold" then Some(OnHold)
    else if s == "Completed" then Some(Completed)
    else if s == "Cancelled" then Some(Cancelled)
    else None
  }

  /** zod's own message for a value outside an enum. */
  function EnumMsg(received: string): string {
    "Invalid enum value. Expected 'Active' | 'On Hold' | 'Completed' | 'Cancelled', received '"
    + received + "'"
  }

  /** The argument of `validateProjectData`; None stands for undefined (or null, for the description). */
  datatype ProjectInput = ProjectInput(
    projectName: Option<string>,
    description: Option<string>,
    status: Option<string>)

  datatype ProjectData = ProjectData(projectName: string, description: Option<string>, status: ProjectStatus)

  function StatusIssues(v: Option<string>): seq<string> {
    match v
    case None => []
    case Some(s) => if ParseProjectStatus(s).None? then [EnumMsg(s)] else []
  }

  /** Every issue `projectDataSchema` raises, in order. */
  function ProjectIssues(d: ProjectInput): seq<string> {
    RequiredStringIssues(d.projectName, ProjectNameMax, ProjectNameRequiredMsg, ProjectNameTooLongMsg)
    + OptionalStringIssues(d.description, DescriptionMax, DescriptionTooLongMsg)
    + StatusIssues(d.status)
  }

  lemma StatusIssuesMeaning(v: Option<string>)
    ensures StatusIssues(v) == [] <==> StatusOk(v)
    ensures !StatusOk(v) ==> StatusIssues(v) == [EnumMsg(v.value)] && EnumMsg(v.value) != ""
  {
    if v.Some? && ParseProjectStatus(v.value).Some? {
      assert ProjectStatusText(ParseProjectStatus(v.value).value) == v.value;
    }
  }

  predicate ProjectNameOk(v: Option<string>) { v.Some? && 1 <= |Trim(v.value)| <= ProjectNameMax }
  predicate DescriptionOk(v: Option<string>) { v.None? || |Trim(v.value)| <= DescriptionMax }
  predicate StatusOk(v: Option<string>) { v.None? || exists st: ProjectStatus :: ProjectStatusText(st) == v.value }

  /** `validateProjectData`: a trimmed name of 1 to 255 characters, a trimmed
      description of at most 1000 characters (empty becomes null), and a status
      from the enum, `Active` when absent; otherwise the first message. */
  function ValidateProjectData(d: ProjectInput): (r: Result<ProjectData, string>)
    ensures r.Ok? <==> ProjectNameOk(d.projectName) && DescriptionOk(d.description) && StatusOk(d.status)
    ensures r.Ok? ==>
      r.value.projectName == Trim(d.projectName.value) && r.value.projectName != ""
      && r.value.description == NormalizeOptional(d.description)
      && (d.status.None? ==> r.value.status == Active)
      && (d.status.Some? ==> ProjectStatusText(r.value.status) == d.status.value)
    ensures d.projectName.None? ==> r == Err(RequiredMsg)
    ensures d.projectName.Some? && Trim(d.projectName.value) == "" ==> r == Err(ProjectNameRequiredMsg)
    ensures d.projectName.Some? && |Trim(d.projectName.value)| > ProjectNameMax ==> r == Err(ProjectNameTooLongMsg)
    ensures ProjectNameOk(d.projectName) && !DescriptionOk(d.description) ==> r == Err(DescriptionTooLongMsg)
    ensures (ProjectNameOk(d.projectName) && DescriptionOk(d.description) && !StatusOk(d.status))
            ==> r == Err(EnumMsg(d.status.value))
  {
    StatusIssuesMeaning(d.status);
    var issues := ProjectIssues(d);
    if |issues| == 0 then
      var status := if d.status.Some? then ParseProjectStatus(d.status.value).value else Active;
      Ok(ProjectData(Trim(d.projectName.value), NormalizeOptional(d.description), status))
    else Err(FirstMessage(issues))
  }
}
