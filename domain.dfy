/** The shared vocabulary of the document-tracking pages: the enums of the
    database schema, one monitoring row per (document, milestone), the way a
    page learns its user's role, and the role-derived action flags. */
module Domain {
  import opened Common

  /** `app_role`. */
  datatype Role = Admin | Reviewer | Approver | Viewer | User

  /** `status_category`: the three submission milestones. */
  datatype Category = IFR | IFA | IFB

  /** `status_description`, including the `Start` state the escalation sweep reads
      (the generated enum lists only the other three). */
  datatype Status = NotYet | Start | InProgress | Complete

  /** `approval_status`. */
  datatype Approval = Approved | Denied | Pending | DeniedWithComment

  const Categories: seq<Category> := [IFR, IFA, IFB]

  lemma CategoriesComplete()
    ensures forall c: Category :: c in Categories
  {
    forall c: Category ensures c in Categories {
      match c
      case IFR => assert Categories[0] == c;
      case IFA => assert Categories[1] == c;
      case IFB => assert Categories[2] == c;
    }
  }

  /** Milliseconds in a day, `24 * 60 * 60 * 1000`. */
  const DayMs: int := 86_400_000

  function CategoryText(c: Category): string {
    match c
    case IFR => "IFR"
    case IFA => "IFA"
    case IFB => "IFB"
  }

  function StatusText(s: Status): string {
    match s
    case NotYet => "Not Yet"
    case Start => "Start"
    case InProgress => "In-Progress"
    case Complete => "Complete"
  }

  /** The four columns a row keeps per milestone: `status_description_<m>`,
      `actual_start_<m>`, `target_submit_<m>` and `actual_submit_<m>`.
      Timestamps are milliseconds since the epoch; null is None. */
  datatype Milestone = Milestone(
    status: Option<Status>,
    actualStart: Option<int>,
    targetSubmit: Option<int>,
    actualSubmit: Option<int>)

  /** A row of `prabumulih_monitoring_data`. Every row carries the columns of all
      three milestones; `category` says which milestone the row stands for. */
  datatype Row = Row(
    id: string,
    projectId: string,
    field: Option<string>,
    fileName: string,
    documentNumber: Option<string>,
    pic: Option<string>,
    category: Category,
    ifr: Milestone,
    ifa: Milestone,
    ifb: Milestone,
    approval: Approval,
    approvalComment: Option<string>)
  {
    /** The columns of milestone `c`. */
    function Col(c: Category): Milestone {
      match c
      case IFR => ifr
      case IFA => ifa
      case IFB => ifb
    }

    /** This row with the columns of milestone `c` replaced and nothing else changed. */
    function WithCol(c: Category, m: Milestone): (r: Row)
      ensures r.Col(c) == m
      ensures forall d :: d != c ==> r.Col(d) == Col(d)
      ensures SameHeader(r, this) && r.category == category
      ensures r.approval == approval && r.approvalComment == approvalComment
    {
      match c
      case IFR => this.(ifr := m)
      case IFA => this.(ifa := m)
      case IFB => this.(ifb := m)
    }
  }

  /** Two rows agree on the identifying and descriptive columns. */
  predicate SameHeader(a: Row, b: Row) {
    a.id == b.id && a.projectId == b.projectId && a.field == b.field && a.fileName == b.fileName
    && a.documentNumber == b.documentNumber && a.pic == b.pic
  }

  /** A row of `user_roles`. */
  datatype RoleEntry = RoleEntry(id: string, userId: string, role: Role)

  /** The entries of one user, in table order. */
  function EntriesOf(entries: seq<RoleEntry>, user: string): (r: seq<RoleEntry>)
    ensures |r| <= |entries|
    ensures forall e :: e in r <==> e in entries && e.userId == user
  {
    if |entries| == 0 then []
    else (if entries[0].userId == user then [entries[0]] else []) + EntriesOf(entries[1..], user)
  }

  /** The role a page learns with `select('role').eq('user_id', id).maybeSingle()`:
      nothing before sign-in, and nothing unless the user has exactly one entry
      (zero rows give null data, several rows give an error). */
  function PageRole(entries: seq<RoleEntry>, user: Option<string>): (r: Option<Role>)
    ensures r.Some? <==> user.Some? && |EntriesOf(entries, user.value)| == 1
    ensures r.Some? ==> exists e :: e in entries && e.userId == user.value && e.role == r.value
  {
    if user.Some? && |EntriesOf(entries, user.value)| == 1 then
      var e := EntriesOf(entries, user.value)[0];
      assert e in EntriesOf(entries, user.value);
      Some(e.role)
    else None
  }

  /** The actions the document pages gate on the role. */
  datatype Action = AddNew | EditStatus | EditFileInfo | Approve | Delete

  /** `canAddNew`, `canEditStatus`, `canEditFileInfo`, `canApprove`, `isAdmin`. */
  function AllowedRoles(a: Action): set<Role> {
    match a
    case AddNew => {Admin, Reviewer}
    case EditStatus => {Admin, User}
    case EditFileInfo => {Admin, Reviewer}
    case Approve => {Admin, Approver}
    case Delete => {Admin}
  }

  predicate Permitted(role: Option<Role>, a: Action) {
    role.Some? && role.value in AllowedRoles(a)
  }

  /** The same policy read by role: what each role may do on the document pages. */
  lemma PermissionsByRole(a: Action)
    ensures Permitted(Some(Admin), a)
    ensures Permitted(Some(Reviewer), a) <==> a == AddNew || a == EditFileInfo
    ensures Permitted(Some(User), a) <==> a == EditStatus
    ensures Permitted(Some(Approver), a) <==> a == Approve
    ensures !Permitted(Some(Viewer), a) && !Permitted(None, a)
  {
  }

  /** A user with two `user_roles` entries gets no role on the document pages,
      even if both entries say admin. */
  lemma DuplicateEntriesGiveNoRole(entries: seq<RoleEntry>, user: string, i: nat, j: nat)
    requires i < j < |entries| && entries[i].userId == user && entries[j].userId == user
    ensures PageRole(entries, Some(user)) == None
  {
    TwoEntriesCounted(entries, user, i, j);
  }

  lemma {:induction false} TwoEntriesCounted(entries: seq<RoleEntry>, user: string, i: nat, j: nat)
    requires i < j < |entries| && entries[i].userId == user && entries[j].userId == user
    ensures |EntriesOf(entries, user)| >= 2
  {
    if i == 0 {
      assert entries[j - 1 + 1] == entries[1..][j - 1];
      assert entries[1..][j - 1] in EntriesOf(entries[1..], user);
    } else {
      assert entries[1..][i - 1] == entries[i] && entries[1..][j - 1] == entries[j];
      TwoEntriesCounted(entries[1..], user, i - 1, j - 1);
    }
  }
}
