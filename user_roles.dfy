/** The user management page (`src/pages/UserManagement.tsx`): the admin gate
    that loads the page's data, the role shown per user, and the role change that
    removes, replaces or appends one `user_roles` entry. The page's lists are the
    fields of a class; the store's answers are parameters. */
module UserManagement {
  import opened Common
  import opened Domain

  const RoleChangeFailedMsg := "Failed to update role"
  const AccessDeniedMsg := "Access denied. Admin privileges required."
  const UsersLoadFailedMsg := "Failed to load users"
  const RolesLoadFailedMsg := "Failed to load roles"

  /** The roles the page offers to assign, in menu order. */
  const AvailableRoles: seq<Role> := [Admin, Reviewer, Approver, Viewer, User]

  lemma AvailableRolesAreAllRoles()
    ensures forall r: Role :: r in AvailableRoles
    ensures |AvailableRoles| == 5
    ensures forall i, j :: 0 <= i < j < |AvailableRoles| ==> AvailableRoles[i] != AvailableRoles[j]
  {
    forall r: Role ensures r in AvailableRoles {
      match r
      case Admin => assert AvailableRoles[0] == r;
      case Reviewer => assert AvailableRoles[1] == r;
      case Approver => assert AvailableRoles[2] == r;
      case Viewer => assert AvailableRoles[3] == r;
      case User => assert AvailableRoles[4] == r;
    }
  }

  /** A row of `profiles`. */
  datatype Profile = Profile(id: string, email: Option<string>, fullName: Option<string>)

  /** The menu choice: `none` or one of the roles. */
  datatype RoleChoice = NoRole | Assign(role: Role)

  /** The position of the first entry of `user` (`Array.prototype.find`). */
  function FirstEntry(entries: seq<RoleEntry>, user: string): (r: Option<nat>)
    ensures r.None? <==> forall e :: e in entries ==> e.userId != user
    ensures r.Some? ==> r.value < |entries| && entries[r.value].userId == user
                        && forall j :: 0 <= j < r.value ==> entries[j].userId != user
    decreases |entries|
  {
    if |entries| == 0 then None
    else if entries[0].userId == user then Some(0)
    else
      match FirstEntry(entries[1..], user)
      case None => None
      case Some(k) => Some(k + 1)
  }

  /** `getUserRole`: the role of the user's first entry, None for `none`. */
  function UserRoleShown(entries: seq<RoleEntry>, user: string): (r: Option<Role>)
    ensures r.None? <==> forall e :: e in entries ==> e.userId != user
    ensures r.Some? ==> exists i :: 0 <= i < |entries| && entries[i].userId == user && entries[i].role == r.value
                                    && forall j :: 0 <= j < i ==> entries[j].userId != user
  {
    match FirstEntry(entries, user)
    case None => None
    case Some(k) => Some(entries[k].role)
  }

  /** `userRoles.filter(ur => ur.id !== id)`. */
  function RemoveById(entries: seq<RoleEntry>, id: string): (r: seq<RoleEntry>)
    ensures forall e :: e in r <==> e in entries && e.id != id
    ensures |r| <= |entries|
    decreases |entries|
  {
    if |entries| == 0 then []
    else (if entries[0].id == id then [] else [entries[0]]) + RemoveById(entries[1..], id)
  }

  /** `userRoles.map(ur => ur.id === id ? { ...ur, role } : ur)`. */
  function SetRoleById(entries: seq<RoleEntry>, id: string, role: Role): (r: seq<RoleEntry>)
    ensures |r| == |entries|
    ensures forall i :: 0 <= i < |entries| && entries[i].id != id ==> r[i] == entries[i]
    ensures forall i :: 0 <= i < |entries| && entries[i].id == id ==> r[i].role == role
  {
    seq(|entries|, i requires 0 <= i < |entries| => if entries[i].id == id then entries[i].(role := role) else entries[i])
  }

  /** No two entries share an id. */
  predicate UniqueIds(entries: seq<RoleEntry>) {
    forall i, j :: 0 <= i < j < |entries| ==> entries[i].id != entries[j].id
  }

  /** The admin lookup: `.eq('role', 'admin').single()` finds exactly one admin
      entry of the user. */
  function AdminEntries(entries: seq<RoleEntry>, user: string): (r: seq<RoleEntry>)
    ensures forall e :: e in r <==> e in entries && e.userId == user && e.role == Admin
    decreases |entries|
  {
    if |entries| == 0 then []
    else (if entries[0].userId == user && entries[0].role == Admin then [entries[0]] else [])
         + AdminEntries(entries[1..], user)
  }

  predicate PassesAdminGate(entries: seq<RoleEntry>, user: string) {
    |AdminEntries(entries, user)| == 1
  }

  class RolePage {
    var profiles: seq<Profile>
    var userRoles: seq<RoleEntry>
    var loading: bool
    var isAdmin: bool

    constructor ()
      ensures profiles == [] && userRoles == [] && loading && !isAdmin
    {
      profiles := [];
      userRoles := [];
      loading := true;
      isAdmin := false;
    }

    /** `checkAdminAndFetchData`. `storeRoles` is the `user_roles` table;
        `profilesAnswer` is None when the profiles query fails, and
        `rolesLoadOk` says whether the roles query succeeds. */
    method Load(user: Option<string>, storeRoles: seq<RoleEntry>, profilesAnswer: Option<seq<Profile>>,
                rolesLoadOk: bool)
      returns (error: Option<string>)
      modifies this
      ensures user.None? ==>
        error == None && profiles == old(profiles) && userRoles == old(userRoles)
        && loading == old(loading) && isAdmin == old(isAdmin)
      ensures user.Some? && !PassesAdminGate(storeRoles, user.value) ==>
        error == Some(AccessDeniedMsg) && !isAdmin && !loading
        && profiles == old(profiles) && userRoles == old(userRoles)
      ensures user.Some? && PassesAdminGate(storeRoles, user.value) && profilesAnswer.None? ==>
        error == Some(UsersLoadFailedMsg) && isAdmin && !loading
        && profiles == old(profiles) && userRoles == old(userRoles)
      ensures user.Some? && PassesAdminGate(storeRoles, user.value) && profilesAnswer.Some? ==>
        isAdmin && !loading && profiles == profilesAnswer.value
        && (rolesLoadOk ==> error == None && userRoles == storeRoles)
        && (!rolesLoadOk ==> error == Some(RolesLoadFailedMsg) && userRoles == [])
    {
      if user.None? {
        return None;
      }
      if !PassesAdminGate(storeRoles, user.value) {
        isAdmin := false;
        loading := false;
        return Some(AccessDeniedMsg);
      }
      isAdmin := true;
      if profilesAnswer.None? {
        loading := false;
        return Some(UsersLoadFailedMsg);
      }
      error := None;
      if !rolesLoadOk {
        error := Some(RolesLoadFailedMsg);
      }
      profiles := profilesAnswer.value;
      userRoles := if rolesLoadOk then storeRoles else [];
      loading := false;
    }

    /** `handleRoleChange`. `storeOk` is the store call's success and `newId`
        the id the store gives an inserted entry. */
    method ChangeRole(userId: string, choice: RoleChoice, storeOk: bool, newId: string)
      returns (o: Outcome)
      modifies this
      ensures profiles == old(profiles) && loading == old(loading) && isAdmin == old(isAdmin)
      ensures !storeOk && o != Ignored ==> o == Failed(RoleChangeFailedMsg) && userRoles == old(userRoles)
      ensures choice.NoRole? && FirstEntry(old(userRoles), userId).None? ==> o == Ignored && userRoles == old(userRoles)
      ensures storeOk && FirstEntry(old(userRoles), userId).Some? ==>
        var current := old(userRoles)[FirstEntry(old(userRoles), userId).value];
        o == Saved
        && (choice.NoRole? ==> userRoles == RemoveById(old(userRoles), current.id))
        && (choice.Assign? ==> userRoles == SetRoleById(old(userRoles), current.id, choice.role))
      ensures storeOk && choice.Assign? && FirstEntry(old(userRoles), userId).None? ==>
        o == Saved && userRoles == old(userRoles) + [RoleEntry(newId, userId, choice.role)]
      ensures o == Ignored <==> choice.NoRole? && FirstEntry(old(userRoles), userId).None?
    {
      var current := FirstEntry(userRoles, userId);
      if choice.NoRole? {
        if current.Some? {
          if !storeOk {
            return Failed(RoleChangeFailedMsg);
          }
          userRoles := RemoveById(userRoles, userRoles[current.value].id);
          return Saved;
        }
        return Ignored;
      } else if current.Some? {
        if !storeOk {
          return Failed(RoleChangeFailedMsg);
        }
        userRoles := SetRoleById(userRoles, userRoles[current.value].id, choice.role);
        return Saved;
      } else {
        if !storeOk {
          return Failed(RoleChangeFailedMsg);
        }
        userRoles := userRoles + [RoleEntry(newId, userId, choice.role)];
        return Saved;
      }
    }
  }

  /** After a role is assigned, the page shows that role for the user, whether
      the entry was replaced or appended. */
  lemma AssignedRoleIsShown(entries: seq<RoleEntry>, userId: string, role: Role, newId: string)
    ensures FirstEntry(entries, userId).Some? ==>
      UserRoleShown(SetRoleById(entries, entries[FirstEntry(entries, userId).value].id, role), userId) == Some(role)
    ensures FirstEntry(entries, userId).None? ==>
      UserRoleShown(entries + [RoleEntry(newId, userId, role)], userId) == Some(role)
  {
    var all := entries + [RoleEntry(newId, userId, role)];
    match FirstEntry(entries, userId)
    case Some(k) =>
      var updated := SetRoleById(entries, entries[k].id, role);
      FirstEntryAt(updated, userId, k);
    case None =>
      forall j | 0 <= j < |entries| ensures all[j].userId != userId {
        assert all[j] == entries[j] && entries[j] in entries;
      }
      FirstEntryAt(all, userId, |entries|);
  }

  /** The first entry of a user is at `k` when `k` is theirs and no earlier one is. */
  lemma FirstEntryAt(entries: seq<RoleEntry>, user: string, k: nat)
    requires k < |entries| && entries[k].userId == user
    requires forall j :: 0 <= j < k ==> entries[j].userId != user
    ensures FirstEntry(entries, user) == Some(k)
  {
    var r := FirstEntry(entries, user);
    assert r.Some? by {
      assert entries[k] in entries;
    }
  }

  /** Replacing a role changes only that entry's role: ids, users and the other
      entries stay (with unique ids, exactly one entry changes). */
  lemma ReplaceChangesOnlyTheRole(entries: seq<RoleEntry>, id: string, role: Role, k: nat)
    requires k < |entries|
    ensures |SetRoleById(entries, id, role)| == |entries|
    ensures SetRoleById(entries, id, role)[k].id == entries[k].id
    ensures SetRoleById(entries, id, role)[k].userId == entries[k].userId
    ensures entries[k].id != id ==> SetRoleById(entries, id, role)[k] == entries[k]
    ensures entries[k].id == id ==> SetRoleById(entries, id, role)[k].role == role
  {
  }

  /** Removing the user's only entry makes the page show `none` for them, and
      every other entry survives. */
  lemma RemovingOnlyEntryShowsNone(entries: seq<RoleEntry>, userId: string, k: nat)
    requires UniqueIds(entries)
    requires k < |entries| && entries[k].userId == userId
    requires forall j :: 0 <= j < |entries| && j != k ==> entries[j].userId != userId
    ensures UserRoleShown(RemoveById(entries, entries[k].id), userId) == None
    ensures forall j :: 0 <= j < |entries| && j != k ==> entries[j] in RemoveById(entries, entries[k].id)
  {
    var r := RemoveById(entries, entries[k].id);
    forall e | e in r ensures e.userId != userId {
      var j :| 0 <= j < |entries| && entries[j] == e;
      assert e.id != entries[k].id;
      assert j != k;
    }
  }

  /** Users who pass the gate are exactly those with one admin entry: a user
      with two admin entries is refused, like one with none. */
  lemma TwoAdminEntriesAreRefused(entries: seq<RoleEntry>, user: string, i: nat, j: nat)
    requires i < j < |entries|
    requires entries[i].userId == user && entries[i].role == Admin
    requires entries[j].userId == user && entries[j].role == Admin
    ensures !PassesAdminGate(entries, user)
  {
    TwoAdminEntriesCounted(entries, user, i, j);
  }

  lemma {:induction false} TwoAdminEntriesCounted(entries: seq<RoleEntry>, user: string, i: nat, j: nat)
    requires i < j < |entries|
    requires entries[i].userId == user && entries[i].role == Admin
    requires entries[j].userId == user && entries[j].role == Admin
    ensures |AdminEntries(entries, user)| >= 2
  {
    if i == 0 {
      assert entries[1..][j - 1] == entries[j];
      assert entries[1..][j - 1] in AdminEntries(entries[1..], user);
    } else {
      assert entries[1..][i - 1] == entries[i] && entries[1..][j - 1] == entries[j];
      TwoAdminEntriesCounted(entries[1..], user, i - 1, j - 1);
    }
  }

  /** A user whose only entries are not admin is refused. */
  lemma NonAdminIsRefused(entries: seq<RoleEntry>, user: string)
    requires forall e :: e in entries && e.userId == user ==> e.role != Admin
    ensures AdminEntries(entries, user) == [] && !PassesAdminGate(entries, user)
  {
  }
}
