/** The project list of the Limau page (`src/pages/Limau.tsx`): the edit dialog's
    defaults, the create and edit submit with its `finished_at` rule, the delete,
    and the page's two role flags. The `limau_projects` table is the `projects`
    field of a class; the clock and the store's success are parameters. */
module LimauProjects {
  import opened Common
  import opened Domain

  const CompletedStatus := "Completed"
  const ActiveStatus := "Active"

  const NameRequiredMsg := "Project name is required"
  const UpdateFailedMsg := "Failed to update project"
  const CreateFailedMsg := "Failed to create project"
  const DeleteFailedMsg := "Failed to delete project"

  /** A row of `limau_projects`; `status` is free text, `finishedAt` milliseconds. */
  datatype Project = Project(
    id: string,
    projectName: string,
    description: Option<string>,
    status: Option<string>,
    createdBy: Option<string>,
    finishedAt: Option<int>)

  /** The dialog's form state. */
  datatype ProjectForm = ProjectForm(projectName: string, description: string, status: string)

  /** `handleOpenDialog`: an existing project prefills its name, its description
      (null as empty) and its status (null or empty as Active); a new one starts
      blank and Active. */
  function DialogDefaults(selected: Option<Project>): (f: ProjectForm)
    ensures selected.None? ==> f == ProjectForm("", "", ActiveStatus)
    ensures selected.Some? ==>
      f.projectName == selected.value.projectName
      && (selected.value.description.Some? ==> f.description == selected.value.description.value)
      && (selected.value.description.None? ==> f.description == "")
      && (selected.value.status.Some? && selected.value.status.value != "" ==> f.status == selected.value.status.value)
      && (selected.value.status.None? || selected.value.status.value == "" ==> f.status == ActiveStatus)
  {
    match selected
    case None => ProjectForm("", "", ActiveStatus)
    case Some(p) => ProjectForm(p.projectName, OrElse(p.description, ""), OrElse(p.status, ActiveStatus))
  }

  /** The `finished_at` entry of an edit's patch: set to now when the status becomes
      Completed, cleared when it stops being Completed, left out otherwise. */
  function FinishedAtRule(formStatus: string, prevStatus: Option<string>, now: int): (w: Write<Option<int>>)
    ensures w == Set(Some(now)) <==> formStatus == CompletedStatus && prevStatus != Some(CompletedStatus)
    ensures w == Set(None) <==> formStatus != CompletedStatus && prevStatus == Some(CompletedStatus)
    ensures w == Keep <==> (formStatus == CompletedStatus <==> prevStatus == Some(CompletedStatus))
  {
    if formStatus == CompletedStatus && prevStatus != Some(CompletedStatus) then Set(Some(now))
    else if formStatus != CompletedStatus && prevStatus == Some(CompletedStatus) then Set(None)
    else Keep
  }

  /** The columns an edit writes. */
  datatype ProjectPatch = ProjectPatch(
    projectName: string,
    description: Option<string>,
    status: string,
    finishedAt: Write<Option<int>>)

  function ApplyPatch(p: Project, patch: ProjectPatch): (q: Project)
    ensures q.id == p.id && q.createdBy == p.createdBy
    ensures q.projectName == patch.projectName && q.description == patch.description
    ensures q.status == Some(patch.status) && q.finishedAt == patch.finishedAt.Apply(p.finishedAt)
  {
    p.(projectName := patch.projectName, description := patch.description, status := Some(patch.status),
       finishedAt := patch.finishedAt.Apply(p.finishedAt))
  }

  /** `.update(updateData).eq('id', id)`. */
  function UpdateById(projects: seq<Project>, id: string, patch: ProjectPatch): (r: seq<Project>)
    ensures |r| == |projects|
    ensures forall i :: 0 <= i < |projects| && projects[i].id == id ==> r[i] == ApplyPatch(projects[i], patch)
    ensures forall i :: 0 <= i < |projects| && projects[i].id != id ==> r[i] == projects[i]
  {
    seq(|projects|, i requires 0 <= i < |projects| =>
      if projects[i].id == id then ApplyPatch(projects[i], patch) else projects[i])
  }

  /** `.delete().eq('id', id)`: the other projects, in order. */
  function DeleteById(projects: seq<Project>, id: string): (r: seq<Project>)
    ensures forall p :: p in r <==> p in projects && p.id != id
    decreases |projects|
  {
    if |projects| == 0 then []
    else (if projects[0].id == id then [] else [projects[0]]) + DeleteById(projects[1..], id)
  }

  /** The delete keeps the order of the others: deleting from a concatenation
      deletes from each part, in turn. */
  lemma {:induction false} DeleteByIdAppend(a: seq<Project>, b: seq<Project>, id: string)
    ensures DeleteById(a + b, id) == DeleteById(a, id) + DeleteById(b, id)
    decreases |a|
  {
    if |a| > 0 {
      assert (a + b)[0] == a[0];
      assert (a + b)[1..] == a[1..] + b;
      DeleteByIdAppend(a[1..], b, id);
    } else {
      assert a + b == b;
    }
  }

  /** A project that is not Completed has no finish date. */
  predicate UnfinishedUnlessCompleted(p: Project) {
    p.status != Some(CompletedStatus) ==> p.finishedAt == None
  }

  /** A Completed project has a finish date. */
  predicate FinishedIfCompleted(p: Project) {
    p.status == Some(CompletedStatus) ==> p.finishedAt.Some?
  }

  class ProjectTable {
    var projects: seq<Project>

    constructor (initial: seq<Project>)
      ensures projects == initial
    {
      projects := initial;
    }

    /** `handleSubmit`: a name that is blank after trimming is refused; otherwise
        the edit patch (untrimmed name, empty description as null, the form's
        status and the `finished_at` rule) or the new project is written. */
    method Submit(selected: Option<Project>, form: ProjectForm, now: int, user: Option<string>,
                  newId: string, storeOk: bool)
      returns (o: Outcome)
      modifies this
      ensures Trim(form.projectName) == "" ==> o == Rejected(NameRequiredMsg) && projects == old(projects)
      ensures Trim(form.projectName) != "" && selected.Some? ==>
        var patch := ProjectPatch(form.projectName, OrNull(form.description), form.status,
                                  FinishedAtRule(form.status, selected.value.status, now));
        (storeOk ==> o == Saved && projects == UpdateById(old(projects), selected.value.id, patch))
        && (!storeOk ==> o == Failed(UpdateFailedMsg) && projects == old(projects))
      ensures Trim(form.projectName) != "" && selected.None? ==>
        var created := Project(newId, form.projectName, OrNull(form.description), Some(form.status), user, None);
        (storeOk ==> o == Saved && projects == old(projects) + [created])
        && (!storeOk ==> o == Failed(CreateFailedMsg) && projects == old(projects))
    {
      if Trim(form.projectName) == "" {
        return Rejected(NameRequiredMsg);
      }
      if selected.Some? {
        var finishedAt: Write<Option<int>> := Keep;
        if form.status == CompletedStatus && selected.value.status != Some(CompletedStatus) {
          finishedAt := Set(Some(now));
        }
        if form.status != CompletedStatus && selected.value.status == Some(CompletedStatus) {
          finishedAt := Set(None);
        }
        var patch := ProjectPatch(form.projectName, OrNull(form.description), form.status, finishedAt);
        if !storeOk {
          return Failed(UpdateFailedMsg);
        }
        projects := UpdateById(projects, selected.value.id, patch);
        o := Saved;
      } else {
        if !storeOk {
          return Failed(CreateFailedMsg);
        }
        projects := projects + [Project(newId, form.projectName, OrNull(form.description), Some(form.status), user, None)];
        o := Saved;
      }
    }

    /** `handleDelete`. */
    method Delete(selected: Option<Project>, storeOk: bool) returns (o: Outcome)
      modifies this
      ensures selected.None? ==> o == Ignored && projects == old(projects)
      ensures selected.Some? && storeOk ==> o == Saved && projects == DeleteById(old(projects), selected.value.id)
      ensures selected.Some? && !storeOk ==> o == Failed(DeleteFailedMsg) && projects == old(projects)
    {
      if selected.None? {
        return Ignored;
      }
      if !storeOk {
        return Failed(DeleteFailedMsg);
      }
      projects := DeleteById(projects, selected.value.id);
      o := Saved;
    }
  }

  /** `canEdit` and `canDelete`. */
  predicate CanEdit(role: Option<Role>) { role == Some(Admin) || role == Some(Reviewer) }
  predicate CanDelete(role: Option<Role>) { role == Some(Admin) }

  /** The Limau flags grant what the document pages grant for file-info edits and deletes. */
  lemma LimauFlagsMatchDocumentPages(role: Option<Role>)
    ensures CanEdit(role) <==> Permitted(role, EditFileInfo)
    ensures CanDelete(role) <==> Permitted(role, Delete)
  {
  }

  /** Edits keep "not Completed means no finish date", whatever the form says. */
  lemma EditKeepsUnfinishedUnlessCompleted(p: Project, form: ProjectForm, now: int)
    requires UnfinishedUnlessCompleted(p)
    ensures UnfinishedUnlessCompleted(ApplyPatch(p, ProjectPatch(form.projectName, OrNull(form.description),
                                                                 form.status, FinishedAtRule(form.status, p.status, now))))
  {
  }

  /** Edits keep "Completed means a finish date", and a change into Completed
      stamps the edit time. */
  lemma EditKeepsFinishedIfCompleted(p: Project, form: ProjectForm, now: int)
    requires FinishedIfCompleted(p)
    ensures var q := ApplyPatch(p, ProjectPatch(form.projectName, OrNull(form.description),
                                                form.status, FinishedAtRule(form.status, p.status, now)));
      FinishedIfCompleted(q)
      && (form.status == CompletedStatus && p.status != Some(CompletedStatus) ==> q.finishedAt == Some(now))
  {
  }

  /** Creating a project as Completed leaves it without a finish date, and a later
      edit that keeps it Completed does not add one. */
  lemma CreatedCompletedStaysUndated(newId: string, name: string, description: string, user: Option<string>,
                                     form: ProjectForm, now: int)
    requires form.status == CompletedStatus
    ensures var p := Project(newId, name, OrNull(description), Some(CompletedStatus), user, None);
      !FinishedIfCompleted(p)
      && ApplyPatch(p, ProjectPatch(form.projectName, OrNull(form.description), form.status,
                                    FinishedAtRule(form.status, p.status, now))).finishedAt == None
  {
  }

  /** The table keeps "not Completed means no finish date" through every submit. */
  lemma {:induction false} UpdateKeepsTableInvariant(projects: seq<Project>, id: string, form: ProjectForm,
                                                     prev: Option<string>, now: int)
    requires forall p :: p in projects ==> UnfinishedUnlessCompleted(p)
    requires forall p :: p in projects && p.id == id ==> p.status == prev
    ensures var patch := ProjectPatch(form.projectName, OrNull(form.description), form.status,
                                      FinishedAtRule(form.status, prev, now));
      forall q :: q in UpdateById(projects, id, patch) ==> UnfinishedUnlessCompleted(q)
  {
    var patch := ProjectPatch(form.projectName, OrNull(form.description), form.status,
                              FinishedAtRule(form.status, prev, now));
    var r := UpdateById(projects, id, patch);
    forall q | q in r ensures UnfinishedUnlessCompleted(q) {
      var i :| 0 <= i < |r| && r[i] == q;
      assert projects[i] in projects;
      if projects[i].id == id {
        EditKeepsUnfinishedUnlessCompleted(projects[i], form, now);
      }
    }
  }

  /** Deleting keeps every other project and removes the selected one. */
  lemma DeleteRemovesOnlyTheProject(projects: seq<Project>, id: string, k: nat)
    requires k < |projects|
    ensures projects[k].id != id <==> projects[k] in DeleteById(projects, id)
  {
  }
}
