/** The data repository page (`src/pages/Repository.tsx`): the files table with
    its review workflow pending → reviewed → approved, the role gating of the
    three actions, and the search filter. The `files` table is the field of a
    class; the clock, the store's error and the store's defaults are parameters. */
module Repository {
  import opened Common
  import opened Domain

  const PendingStatus := "pending"
  const ReviewedStatus := "reviewed"
  const ApprovedStatus := "approved"

  /** A row of `files`. `reviewStatus` is free text; uploads take the store's default. */
  datatype RepoFile = RepoFile(
    id: string,
    fileName: string,
    filePath: string,
    fileType: Option<string>,
    uploadedBy: string,
    reviewStatus: string,
    reviewNotes: Option<string>,
    reviewedBy: Option<string>,
    reviewedAt: Option<int>,
    approvedBy: Option<string>,
    approvedAt: Option<int>)

  /** The file the upload card picked. */
  datatype PickedFile = PickedFile(name: string, fileType: string)

  /** The page's role: Viewer until the lookup returns; `.single()` answers only
      for a user with exactly one entry. */
  function RepositoryRole(entries: seq<RoleEntry>, user: Option<string>): (r: Role)
    ensures user.None? ==> r == Viewer
    ensures PageRole(entries, user).Some? ==> r == PageRole(entries, user).value
    ensures PageRole(entries, user).None? ==> r == Viewer
  {
    PageRole(entries, user).GetOr(Viewer)
  }

  predicate UploadOffered(role: Role) { role == Admin }
  predicate ReviewOffered(role: Role, f: RepoFile) { role == Reviewer && f.reviewStatus == PendingStatus }
  predicate ApproveOffered(role: Role, f: RepoFile) { role == Approver && f.reviewStatus == ReviewedStatus }

  /** The record `handleReview` writes over one file. */
  function Reviewed(f: RepoFile, notes: string, user: string, now: int): (g: RepoFile)
    ensures g.reviewStatus == ReviewedStatus && g.reviewNotes == Some(notes)
    ensures g.reviewedBy == Some(user) && g.reviewedAt == Some(now)
    ensures g.id == f.id && g.fileName == f.fileName && g.filePath == f.filePath && g.uploadedBy == f.uploadedBy
    ensures g.approvedBy == f.approvedBy && g.approvedAt == f.approvedAt
  {
    f.(reviewStatus := ReviewedStatus, reviewNotes := Some(notes), reviewedBy := Some(user), reviewedAt := Some(now))
  }

  /** The record `handleApprove` writes over one file; the review columns stay. */
  function Approved(f: RepoFile, user: string, now: int): (g: RepoFile)
    ensures g.reviewStatus == ApprovedStatus && g.approvedBy == Some(user) && g.approvedAt == Some(now)
    ensures g.reviewNotes == f.reviewNotes && g.reviewedBy == f.reviewedBy && g.reviewedAt == f.reviewedAt
    ensures g.id == f.id && g.fileName == f.fileName && g.filePath == f.filePath && g.uploadedBy == f.uploadedBy
  {
    f.(reviewStatus := ApprovedStatus, approvedBy := Some(user), approvedAt := Some(now))
  }

  /** `.update(...).eq('id', id)` with the given record change. */
  function ReviewById(files: seq<RepoFile>, id: string, notes: string, user: string, now: int): (r: seq<RepoFile>)
    ensures |r| == |files|
    ensures forall i :: 0 <= i < |files| && files[i].id != id ==> r[i] == files[i]
    ensures forall i :: 0 <= i < |files| && files[i].id == id ==> r[i].reviewStatus == ReviewedStatus && r[i].reviewedBy == Some(user)
  {
    seq(|files|, i requires 0 <= i < |files| => if files[i].id == id then Reviewed(files[i], notes, user, now) else files[i])
  }

  function ApproveById(files: seq<RepoFile>, id: string, user: string, now: int): (r: seq<RepoFile>)
    ensures |r| == |files|
    ensures forall i :: 0 <= i < |files| && files[i].id != id ==> r[i] == files[i]
    ensures forall i :: 0 <= i < |files| && files[i].id == id ==> r[i].reviewStatus == ApprovedStatus && r[i].approvedBy == Some(user)
  {
    seq(|files|, i requires 0 <= i < |files| => if files[i].id == id then Approved(files[i], user, now) else files[i])
  }

  /** The record `handleUpload` inserts: metadata only, under `/uploads/<name>`. */
  function UploadRecord(p: PickedFile, user: string, id: string, defaultStatus: string): (f: RepoFile)
    ensures f.filePath == "/uploads/" + p.name && f.fileName == p.name && f.uploadedBy == user
    ensures f.reviewStatus == defaultStatus && f.reviewedBy == None && f.approvedBy == None
  {
    RepoFile(id, p.name, "/uploads/" + p.name, Some(p.fileType), user, defaultStatus, None, None, None, None, None)
  }

  class RepoTable {
    var files: seq<RepoFile>

    constructor (initial: seq<RepoFile>)
      ensures files == initial
    {
      files := initial;
    }

    /** `handleUpload`. */
    method Upload(picked: Option<PickedFile>, user: Option<string>, newId: string, defaultStatus: string,
                  storeError: Option<string>)
      returns (o: Outcome)
      modifies this
      ensures picked.None? || user.None? ==> o == Ignored && files == old(files)
      ensures picked.Some? && user.Some? && storeError.Some? ==> o == Failed(storeError.value) && files == old(files)
      ensures picked.Some? && user.Some? && storeError.None? ==>
        o == Saved && files == old(files) + [UploadRecord(picked.value, user.value, newId, defaultStatus)]
    {
      if picked.None? || user.None? {
        return Ignored;
      }
      if storeError.Some? {
        return Failed(storeError.value);
      }
      files := files + [UploadRecord(picked.value, user.value, newId, defaultStatus)];
      o := Saved;
    }

    /** `handleReview`: no check of the role or of the current status. */
    method Review(fileId: string, notes: string, user: Option<string>, now: int, storeError: Option<string>)
      returns (o: Outcome)
      modifies this
      ensures user.None? ==> o == Ignored && files == old(files)
      ensures user.Some? && storeError.Some? ==> o == Failed(storeError.value) && files == old(files)
      ensures user.Some? && storeError.None? ==> o == Saved && files == ReviewById(old(files), fileId, notes, user.value, now)
    {
      if user.None? {
        return Ignored;
      }
      if storeError.Some? {
        return Failed(storeError.value);
      }
      files := ReviewById(files, fileId, notes, user.value, now);
      o := Saved;
    }

    /** `handleApprove`. */
    method Approve(fileId: string, user: Option<string>, now: int, storeError: Option<string>)
      returns (o: Outcome)
      modifies this
      ensures user.None? ==> o == Ignored && files == old(files)
      ensures user.Some? && storeError.Some? ==> o == Failed(storeError.value) && files == old(files)
      ensures user.Some? && storeError.None? ==> o == Saved && files == ApproveById(old(files), fileId, user.value, now)
    {
      if user.None? {
        return Ignored;
      }
      if storeError.Some? {
        return Failed(storeError.value);
      }
      files := ApproveById(files, fileId, user.value, now);
      o := Saved;
    }
  }

  /** A button press on one file of the list. */
  datatype RepoAction = ReviewAction(notes: string, user: string, now: int) | ApproveAction(user: string, now: int)

  /** The record a press writes, when the page offers that button to the role on that file. */
  function OfferedStep(role: Role, f: RepoFile, a: RepoAction): (g: Option<RepoFile>)
    ensures g.Some? <==> (a.ReviewAction? && ReviewOffered(role, f)) || (a.ApproveAction? && ApproveOffered(role, f))
    ensures g.Some? && a.ReviewAction? ==> g.value == Reviewed(f, a.notes, a.user, a.now)
    ensures g.Some? && a.ApproveAction? ==> g.value == Approved(f, a.user, a.now)
  {
    match a
    case ReviewAction(notes, user, now) => if ReviewOffered(role, f) then Some(Reviewed(f, notes, user, now)) else None
    case ApproveAction(user, now) => if ApproveOffered(role, f) then Some(Approved(f, user, now)) else None
  }

  /** A pending file can only be reviewed next, and only by a reviewer; a file is
      approved only from reviewed, by an approver. So no offered step goes from
      pending straight to approved. */
  lemma NoDirectApproval(role: Role, f: RepoFile, a: RepoAction)
    requires OfferedStep(role, f, a).Some?
    ensures f.reviewStatus == PendingStatus ==> OfferedStep(role, f, a).value.reviewStatus == ReviewedStatus && role == Reviewer
    ensures OfferedStep(role, f, a).value.reviewStatus == ApprovedStatus ==> f.reviewStatus == ReviewedStatus && role == Approver
  {
  }

  /** Before the role arrives, and for anyone but an admin, reviewer or approver,
      the page offers nothing. */
  lemma ViewerIsOfferedNothing(entries: seq<RoleEntry>, user: Option<string>, f: RepoFile)
    requires PageRole(entries, user).None? || PageRole(entries, user) == Some(Viewer)
             || PageRole(entries, user) == Some(User)
    ensures var role := RepositoryRole(entries, user);
      !UploadOffered(role) && !ReviewOffered(role, f) && !ApproveOffered(role, f)
  {
  }

  /** Each role is offered at most one kind of action. */
  lemma OneActionPerRole(role: Role, f: RepoFile)
    ensures !(UploadOffered(role) && (ReviewOffered(role, f) || ApproveOffered(role, f)))
    ensures !(ReviewOffered(role, f) && ApproveOffered(role, f))
  {
  }

  /** `handleReview` changes exactly the files with that id, and only their review columns. */
  lemma ReviewTouchesOnlyThatFile(files: seq<RepoFile>, id: string, notes: string, user: string, now: int, k: nat)
    requires k < |files|
    ensures |ReviewById(files, id, notes, user, now)| == |files|
    ensures files[k].id != id ==> ReviewById(files, id, notes, user, now)[k] == files[k]
    ensures files[k].id == id ==>
      ReviewById(files, id, notes, user, now)[k] == files[k].(reviewStatus := ReviewedStatus, reviewNotes := Some(notes),
                                                               reviewedBy := Some(user), reviewedAt := Some(now))
  {
  }

  /** Approving a reviewed file keeps who reviewed it, when, and the notes. */
  lemma ApprovalKeepsReview(files: seq<RepoFile>, id: string, notes: string, reviewer: string, t1: int,
                            approver: string, t2: int, k: nat)
    requires k < |files| && files[k].id == id
    ensures var g := ApproveById(ReviewById(files, id, notes, reviewer, t1), id, approver, t2)[k];
      g.reviewStatus == ApprovedStatus && g.reviewNotes == Some(notes) && g.reviewedBy == Some(reviewer)
      && g.reviewedAt == Some(t1) && g.approvedBy == Some(approver) && g.approvedAt == Some(t2)
  {
  }

  /** The filter's test: the lower-cased term occurs in the lower-cased name or status. */
  predicate Matches(f: RepoFile, term: string) {
    Contains(ToLower(f.fileName), ToLower(term)) || Contains(ToLower(f.reviewStatus), ToLower(term))
  }

  /** `filteredFiles`: the matching files, in their original order. */
  function FilterFiles(files: seq<RepoFile>, term: string): (r: seq<RepoFile>)
    ensures forall f :: f in r <==> f in files && Matches(f, term)
    ensures |r| <= |files|
    decreases |files|
  {
    if |files| == 0 then []
    else (if Matches(files[0], term) then [files[0]] else []) + FilterFiles(files[1..], term)
  }

  /** The search keeps the listed order: filtering a concatenation filters each part in turn. */
  lemma {:induction false} FilterFilesAppend(a: seq<RepoFile>, b: seq<RepoFile>, term: string)
    ensures FilterFiles(a + b, term) == FilterFiles(a, term) + FilterFiles(b, term)
    decreases |a|
  {
    if |a| > 0 {
      assert (a + b)[0] == a[0];
      assert (a + b)[1..] == a[1..] + b;
      FilterFilesAppend(a[1..], b, term);
    } else {
      assert a + b == b;
    }
  }

  /** An empty search term keeps every file, in order. */
  lemma {:induction false} EmptyTermKeepsAll(files: seq<RepoFile>)
    ensures FilterFiles(files, "") == files
    decreases |files|
  {
    if |files| > 0 {
      assert ToLower("") == "";
      assert Matches(files[0], "");
      EmptyTermKeepsAll(files[1..]);
    }
  }

  lemma ToLowerIdempotent(s: string)
    ensures ToLower(ToLower(s)) == ToLower(s)
  {
  }

  /** The search ignores the case of the term. */
  lemma {:induction false} FilterIgnoresTermCase(files: seq<RepoFile>, term: string)
    ensures FilterFiles(files, ToLower(term)) == FilterFiles(files, term)
    decreases |files|
  {
    ToLowerIdempotent(term);
    if |files| > 0 {
      FilterIgnoresTermCase(files[1..], term);
    }
  }

  /** Filtering by a term that a file name contains keeps that file. */
  lemma NameMatchKept(files: seq<RepoFile>, term: string, k: nat, at: nat)
    requires k < |files|
    requires at + |term| <= |files[k].fileName| && ToLower(files[k].fileName)[at..at + |term|] == ToLower(term)
    ensures files[k] in FilterFiles(files, term)
  {
    ContainsAt(ToLower(files[k].fileName), ToLower(term), at);
  }
}
