/** The role administration actions: the access level each action checks,
    the permission back-fill of `new` and `edit`, and the cascade of
    `delete`. Every action reads the store as the request loads it,
    `Reload(db)`; lookups (`findOneBy`) read the stored rows of `db`. The
    role form binds the three plain fields of the role and the access of
    each permission entry of its collection, position by position. */
module RoleController {
  import opened Wrappers
  import opened Strings
  import opened Entities
  import opened Levels
  import opened Persistence
  import opened Access
  import opened Rights
  import Statuses
  import Registration
  import Collections

  const NAMESPACE: string := "App\\Chore\\Controller"
  const ROLE_CONTROLLER_CLASS: string := "App\\Chore\\Controller\\RoleController"

  datatype Action = Index | Show | New | Edit | Delete

  /** The answer of an action: the route's status was not found, the
      rights check denied, a page was rendered, the browser was redirected,
      or the database refused the flush. */
  datatype Response = NotFound | Denied | Rendered | Redirected | Rejected

  /** The role form: whether it was submitted and passed the constraints
      other than the access choices, the label, colour and icon it binds,
      and the access submitted for each entry of the permission
      collection, in collection order. */
  datatype RoleForm = RoleForm(
    submittedValid: bool,
    name: string,
    color: string,
    icon: string,
    accesses: seq<int>)

  /** The values the access field of a permission entry offers. The
      delete level is not among them. */
  const ACCESS_CHOICES: set<int> := {CAN_NOTHING, CAN_VIEW, CAN_EDIT, CAN_CREATE, CAN_ALL}

  /** `isSubmitted() && isValid()`: a submitted access outside the choices
      fails the entry's choice field, so the form is not valid. */
  predicate Accepted(form: RoleForm) {
    form.submittedValid && forall k :: 0 <= k < |form.accesses| ==> form.accesses[k] in ACCESS_CHOICES
  }

  /** The level each action hands to `checkRights`. */
  function RequiredLevel(action: Action): (level: int)
    ensures CAN_VIEW <= level <= CAN_CREATE
  {
    match action
    case Index => CAN_VIEW
    case Show => CAN_VIEW
    case New => CAN_CREATE
    case Edit => CAN_EDIT
    case Delete => CAN_DELETE
  }

  /** The logged-in user `uid`, as loaded, is granted the level of
      `action` on the `roles` entry of the registry. */
  predicate Allowed(db: Store, uid: Id, action: Action, now: int)
    requires Valid(db) && uid in db.users
  {
    var st := Reload(db);
    Granted(st, st.users[uid], Request("roles", RequiredLevel(action)), now)
  }

  /** The rights check of the role controller decides on the `roles`
      entry: `checkRights` of an action lets the request through exactly
      when the action is allowed. */
  lemma CheckRightsOfRoles(db: Store, uid: Id, action: Action, now: int)
    requires Valid(db) && uid in db.users
    ensures var st := Reload(db);
      (CheckRights(st, st.users[uid], ROLE_CONTROLLER_CLASS, RequiredLevel(action), now)
       <==> Allowed(db, uid, action, now))
  {
    RegisteredControllerNames(NAMESPACE);
    assert NAMESPACE + "\\RoleController" == ROLE_CONTROLLER_CLASS;
    RolesRegistered();
  }

  lemma RolesRegistered()
    ensures Lower("Roles") == "roles" && '_' !in "Roles" && Registered("Roles")
  {
    Levels.RegistryDistinct();
    assert LoweredRegistry()[1] == "roles";
  }

  /** An action allowed to a user allows every action of a lower or equal
      level: the decision is monotone in the level. */
  lemma AllowedMonotone(db: Store, uid: Id, a: Action, b: Action, now: int)
    requires Valid(db) && uid in db.users
    requires RequiredLevel(b) <= RequiredLevel(a)
    ensures Allowed(db, uid, a, now) ==> Allowed(db, uid, b, now)
  {
    var st := Reload(db);
    if Allowed(db, uid, a, now) {
      GrantedMonotone(st, st.users[uid], "roles", RequiredLevel(a), RequiredLevel(b), now);
    }
  }

  /** Creating is the highest level the controller asks for: a user allowed
      to create roles may delete, edit and view them, one allowed to delete
      may edit, and one allowed to edit may view. */
  lemma AllowedOrder(db: Store, uid: Id, now: int)
    requires Valid(db) && uid in db.users
    ensures Allowed(db, uid, New, now) ==> Allowed(db, uid, Delete, now)
    ensures Allowed(db, uid, Delete, now) ==> Allowed(db, uid, Edit, now)
    ensures Allowed(db, uid, Edit, now) ==> Allowed(db, uid, Index, now) && Allowed(db, uid, Show, now)
  {
    AllowedMonotone(db, uid, New, Delete, now);
    AllowedMonotone(db, uid, Delete, Edit, now);
    AllowedMonotone(db, uid, Edit, Index, now);
    AllowedMonotone(db, uid, Edit, Show, now);
  }

  /** `index`: the rights check, then the list page. The list itself is a
      repository query and is not modelled. */
  function IndexRoles(db: Store, uid: Id, now: int): (r: Response)
    requires Valid(db) && uid in db.users
    ensures r == Rendered <==> Allowed(db, uid, Index, now)
    ensures r == Rendered || r == Denied
  {
    if Allowed(db, uid, Index, now) then Rendered else Denied
  }

  /** `show`: the route's status must exist, then the rights check. */
  function ShowRole(db: Store, uid: Id, now: int, rid: Id): (r: Response)
    requires Valid(db) && uid in db.users
    ensures r == NotFound <==> rid !in db.statuses
    ensures r == Rendered <==> rid in db.statuses && Allowed(db, uid, Show, now)
  {
    if rid !in db.statuses then NotFound
    else if Allowed(db, uid, Show, now) then Rendered
    else Denied
  }

  // ---------------------------------------------------------------------
  // delete

  /** A row other than the role's own permissions still points at the role,
      so the database refuses to drop it: an assignment of the role, or a
      permission on the role as controller that belongs to another role. */
  predicate StillReferenced(db: Store, rid: Id) {
    || (exists aid :: aid in db.assignments && db.assignments[aid].role == Some(rid))
    || (exists pid :: pid in db.permissions && db.permissions[pid].role != Some(rid)
                      && db.permissions[pid].controller == rid)
  }

  /** The loaded store without the role and the permissions of its list. */
  function RemoveRole(db: Store, rid: Id): (r: Store)
    requires Valid(db) && rid in db.statuses
    ensures rid !in r.statuses && r.statuses.Keys == db.statuses.Keys - {rid}
    ensures forall pid :: pid in r.permissions <==> pid in db.permissions && db.permissions[pid].role != Some(rid)
    ensures forall pid :: pid in r.permissions ==> r.permissions[pid] == db.permissions[pid]
    ensures r.assignments == db.assignments && r.users.Keys == db.users.Keys && r.next == db.next
  {
    var st := Reload(db);
    Store(map sid | sid in st.statuses && sid != rid :: st.statuses[sid],
          map pid | pid in st.permissions && st.permissions[pid].role != Some(rid) :: st.permissions[pid],
          st.assignments, st.users, st.next)
  }

  /** Every remaining status is the loaded one: only the permission lists
      are the ones a reload gives. */
  lemma RemoveRoleKeepsStatuses(db: Store, rid: Id)
    requires Valid(db) && rid in db.statuses
    ensures var r := RemoveRole(db, rid);
      forall sid :: sid in r.statuses ==> r.statuses[sid] == Reload(db).statuses[sid]
  {
  }

  /** Removing the role and its permissions keeps the store consistent
      when nothing else refers to the role. */
  lemma RemoveRoleValid(db: Store, rid: Id)
    requires Valid(db) && rid in db.statuses && !StillReferenced(db, rid)
    ensures Valid(RemoveRole(db, rid))
  {
    var st := Reload(db);
    var r := RemoveRole(db, rid);
    RemoveRoleKeepsStatuses(db, rid);
    assert Bounded(r);
    forall pid | pid in r.permissions
      ensures PermissionRefs(r, r.permissions[pid])
    {
      assert PermissionRefs(db, db.permissions[pid]);
    }
    forall aid | aid in r.assignments
      ensures AssignmentRefs(r, r.assignments[aid])
    {
      assert AssignmentRefs(db, db.assignments[aid]);
    }
    forall sid, i | sid in r.statuses && 0 <= i < |r.statuses[sid].permissions|
      ensures r.statuses[sid].permissions[i] in r.permissions
    {
      assert r.statuses[sid].permissions[i] in st.statuses[sid].permissions;
    }
    forall u | u in r.users
      ensures UserRefs(r, r.users[u])
    {
      assert UserRefs(st, st.users[u]);
    }
    assert Linked(r);
  }

  /** `delete`: the route's status must exist, then the rights check; with
      a valid CSRF token every permission the role lists is removed with
      the role, and without one nothing changes. */
  function DeleteRole(db: Store, uid: Id, now: int, rid: Id, csrfValid: bool): (res: (Store, Response))
    requires Valid(db) && uid in db.users
    ensures res.1 == NotFound <==> rid !in db.statuses
    ensures res.1 == Denied <==> rid in db.statuses && !Allowed(db, uid, Delete, now)
    ensures res.1 == Rejected <==>
      rid in db.statuses && Allowed(db, uid, Delete, now) && csrfValid && StillReferenced(db, rid)
    ensures res.0 != db ==> res.1 == Redirected && csrfValid
    ensures Valid(res.0)
  {
    if rid !in db.statuses then (db, NotFound)
    else if !Allowed(db, uid, Delete, now) then (db, Denied)
    else if !csrfValid then (db, Redirected)
    else if StillReferenced(db, rid) then (db, Rejected)
    else
      RemoveRoleValid(db, rid);
      (RemoveRole(db, rid), Redirected)
  }

  /** A successful delete leaves neither the role nor any permission of
      it, and keeps every other row. */
  lemma DeleteCascades(db: Store, uid: Id, now: int, rid: Id)
    requires Valid(db) && uid in db.users && rid in db.statuses
    requires Allowed(db, uid, Delete, now) && !StillReferenced(db, rid)
    ensures var (r, out) := DeleteRole(db, uid, now, rid, true);
      && out == Redirected
      && rid !in r.statuses
      && (forall pid :: pid in r.permissions ==> r.permissions[pid].role != Some(rid))
      && (forall pid :: pid in db.permissions && db.permissions[pid].role != Some(rid) ==>
            pid in r.permissions && r.permissions[pid] == db.permissions[pid])
      && (forall sid :: sid in db.statuses && sid != rid ==>
            sid in r.statuses && r.statuses[sid].name == db.statuses[sid].name)
      && r.assignments == db.assignments && r.users.Keys == db.users.Keys
  {
  }

  /** Without a valid CSRF token `delete` redirects and changes nothing. */
  lemma DeleteNeedsToken(db: Store, uid: Id, now: int, rid: Id)
    requires Valid(db) && uid in db.users
    ensures DeleteRole(db, uid, now, rid, false).0 == db
  {
  }

  // ---------------------------------------------------------------------
  // new

  /** The working store of `new`: it grew from the loaded rows and holds
      the new role `rid`. */
  predicate NewStaged(db: Store, st: Store, rid: Id) {
    Valid(db) && Valid(st) && Extends(db, st) && NewRoleRow(db, st, rid)
  }

  /** `rid` is a role not stored before, and every permission that points
      at it is on its list. */
  predicate NewRoleRow(db: Store, st: Store, rid: Id) {
    && rid !in db.statuses && rid in st.statuses && st.statuses[rid].kind == Some(ROLE_TYPE)
    && forall pid :: pid in st.permissions && st.permissions[pid].role == Some(rid) ==>
         pid in st.statuses[rid].permissions
  }

  /** Permission `pid` belongs to the role and sits on the controller
      labelled `text`: the stored status of that label when there is one. */
  predicate OnController(db: Store, st: Store, rid: Id, pid: Id, text: string)
    requires Valid(db)
  {
    && pid in st.permissions && st.permissions[pid].role == Some(rid)
    && var c := st.permissions[pid].controller;
       && c in st.statuses && c != rid && st.statuses[c].name == text
       && (Registration.FindByLabel(db, text).Some? ==> c == Registration.FindByLabel(db, text).value)
  }

  /** Permission `pid` is one the loop of `new` built for the controller
      labelled `text`: on that controller, with no access yet. */
  predicate BackFilled(db: Store, st: Store, rid: Id, pid: Id, text: string)
    requires Valid(db)
  {
    OnController(db, st, rid, pid, text) && st.permissions[pid].access.None?
  }

  /** A new permission of role `rid` on controller `cid`, appended to the
      role's list. */
  function LinkNew(st: Store, rid: Id, cid: Id): (r: Store)
    requires Valid(st) && rid in st.statuses && cid in st.statuses
    requires st.statuses[rid].kind == Some(ROLE_TYPE)
    ensures r.next == st.next + 1
    ensures r.statuses == st.statuses[rid := st.statuses[rid].(permissions := st.statuses[rid].permissions + [st.next])]
    ensures r.permissions == st.permissions[st.next := Permission(None, cid, Some(rid))]
    ensures r.assignments == st.assignments && r.users == st.users
  {
    var pid := st.next;
    var st2 := InsertPermission(st, Permission(None, cid, Some(rid)));
    assert pid !in st.permissions;
    assert pid !in st2.statuses[rid].permissions;
    Statuses.AddPermission(st2, rid, pid)
  }

  /** The linked store is consistent again. */
  lemma LinkNewValid(st: Store, rid: Id, cid: Id)
    requires Valid(st) && rid in st.statuses && cid in st.statuses
    requires st.statuses[rid].kind == Some(ROLE_TYPE)
    ensures Valid(LinkNew(st, rid, cid))
  {
    var st2 := InsertPermission(st, Permission(None, cid, Some(rid)));
    Statuses.AddPermissionValid(st2, rid, st.next);
  }

  /** `r` grew from `st` during `new`: only the role's list changed among
      the stored statuses, and no stored permission changed. */
  predicate NewGrown(st: Store, r: Store, rid: Id) {
    && Extends(st, r) && Keeps(st.permissions, r.permissions)
    && r.assignments == st.assignments && r.users == st.users
    && rid in st.statuses && rid in r.statuses
    && r.statuses[rid] == st.statuses[rid].(permissions := r.statuses[rid].permissions)
  }

  /** One iteration of the loop of `new`: the controller found by label or
      a new one, a new permission of the role on it, appended to the
      role's list. */
  function NewOne(db: Store, st: Store, rid: Id, text: string): (res: (Store, Id))
    requires NewStaged(db, st, rid)
    ensures NewStaged(db, res.0, rid) && NewGrown(st, res.0, rid)
  {
    var (st1, cid) := Registration.CreateController(db, st, text);
    assert st1.statuses[rid] == st.statuses[rid];
    LinkNewStaged(db, st, st1, rid, cid);
    LinkNewGrown(st, st1, rid, cid);
    (LinkNew(st1, rid, cid), st1.next)
  }

  lemma LinkNewGrown(st: Store, st1: Store, rid: Id, cid: Id)
    requires Valid(st1) && Extends(st, st1) && rid in st.statuses && cid in st1.statuses
    requires st1.statuses[rid] == st.statuses[rid] && st.statuses[rid].kind == Some(ROLE_TYPE)
    requires st1.permissions == st.permissions && st1.assignments == st.assignments && st1.users == st.users
    ensures NewGrown(st, LinkNew(st1, rid, cid), rid)
  {
    var r := LinkNew(st1, rid, cid);
    assert Extends(st1, r);
    ExtendsTrans(st, st1, r);
  }

  lemma LinkNewStaged(db: Store, st: Store, st1: Store, rid: Id, cid: Id)
    requires NewStaged(db, st, rid) && Grown(st, st1) && st1.statuses[rid] == st.statuses[rid]
    requires st1.permissions == st.permissions
    requires cid in st1.statuses
    ensures NewStaged(db, LinkNew(st1, rid, cid), rid)
  {
    var r := LinkNew(st1, rid, cid);
    LinkNewValid(st1, rid, cid);
    assert Extends(st1, r);
    ExtendsTrans(st, st1, r);
    ExtendsTrans(db, st, r);
  }

  /** The iteration appends the new permission to the role's list, and it
      is a back-filled permission for the label. */
  lemma NewOneLinks(db: Store, st: Store, rid: Id, text: string)
    requires NewStaged(db, st, rid)
    ensures var (r, pid) := NewOne(db, st, rid, text);
      && r.statuses[rid].permissions == st.statuses[rid].permissions + [pid]
      && pid !in st.statuses[rid].permissions
      && BackFilled(db, r, rid, pid, text)
  {
    var (st1, cid) := Registration.CreateController(db, st, text);
    assert cid != rid;
    forall i | 0 <= i < |st.statuses[rid].permissions|
      ensures st.statuses[rid].permissions[i] < st1.next
    {
      assert st.statuses[rid].permissions[i] in st.permissions;
    }
  }

  /** Appending a value not yet present keeps a list duplicate-free. */
  lemma AppendFresh(s: seq<Id>, x: Id)
    requires x !in s
    ensures NoDuplicates(s) ==> NoDuplicates(s + [x])
  {
    assert forall i :: 0 <= i < |s| ==> (s + [x])[i] == s[i];
  }

  /** Growth during `new` composes. */
  lemma NewGrownTrans(a: Store, b: Store, c: Store, rid: Id)
    requires NewGrown(a, b, rid) && NewGrown(b, c, rid)
    ensures NewGrown(a, c, rid)
  {
    ExtendsTrans(a, b, c);
    KeepsTrans(a.permissions, b.permissions, c.permissions);
  }

  /** A back-filled permission stays one as the store grows. */
  lemma BackFilledKept(db: Store, a: Store, b: Store, rid: Id, pid: Id, text: string)
    requires Valid(db) && BackFilled(db, a, rid, pid, text) && NewGrown(a, b, rid)
    ensures BackFilled(db, b, rid, pid, text)
  {
    assert b.permissions[pid] == a.permissions[pid];
  }

  /** The loop of `new` over the controller names: it appends one new
      permission per name to the role's list and returns their ids, each
      back-filled for its name. */
  function NewBackFill(db: Store, st: Store, rid: Id, names: seq<string>): (res: (Store, seq<Id>))
    requires NewStaged(db, st, rid)
    ensures NewStaged(db, res.0, rid) && NewGrown(st, res.0, rid)
    ensures res.0.statuses[rid].permissions == st.statuses[rid].permissions + res.1
    ensures |res.1| == |names|
    ensures forall k :: 0 <= k < |names| ==> BackFilled(db, res.0, rid, res.1[k], names[k])
    ensures NoDuplicates(st.statuses[rid].permissions) ==> NoDuplicates(res.0.statuses[rid].permissions)
    decreases |names|
  {
    if names == [] then
      assert NewGrown(st, st, rid);
      assert st.statuses[rid].permissions + [] == st.statuses[rid].permissions;
      (st, [])
    else
      var (st1, pid) := NewOne(db, st, rid, names[0]);
      NewOneLinks(db, st, rid, names[0]);
      AppendFresh(st.statuses[rid].permissions, pid);
      var (r, pids) := NewBackFill(db, st1, rid, names[1..]);
      NewGrownTrans(st, st1, r, rid);
      BackFilledKept(db, st1, r, rid, pid, names[0]);
      BackFilledPrepend(db, r, rid, pid, pids, names);
      Collections.AppendAssoc(st.statuses[rid].permissions, [pid], pids);
      (r, [pid] + pids)
  }

  /** The first name's permission in front of the rest's. */
  lemma BackFilledPrepend(db: Store, r: Store, rid: Id, pid: Id, pids: seq<Id>, names: seq<string>)
    requires Valid(db) && names != [] && |pids| == |names| - 1
    requires BackFilled(db, r, rid, pid, names[0])
    requires forall k :: 0 <= k < |pids| ==> BackFilled(db, r, rid, pids[k], names[1..][k])
    ensures forall k :: 0 <= k < |names| ==> BackFilled(db, r, rid, ([pid] + pids)[k], names[k])
  {
    forall k | 0 <= k < |names|
      ensures BackFilled(db, r, rid, ([pid] + pids)[k], names[k])
    {
      if k > 0 {
        assert names[1..][k - 1] == names[k];
        assert ([pid] + pids)[k] == pids[k - 1];
      }
    }
  }

  /** The role `new` starts from: a fresh status of the role type. */
  function NewRoleStatus(): Status {
    NewStatus().(kind := Some(ROLE_TYPE))
  }

  /** The loaded store with the fresh role inserted is where the loop of
      `new` starts. */
  lemma NewRoleStaged(db: Store)
    requires Valid(db)
    ensures var st0 := Reload(db);
      NewStaged(db, InsertStatus(st0, NewRoleStatus()), st0.next)
  {
    var st0 := Reload(db);
    var st1 := InsertStatus(st0, NewRoleStatus());
    assert Extends(db, st0);
    assert Extends(db, st1);
    forall pid | pid in st1.permissions
      ensures st1.permissions[pid].role != Some(st0.next)
    {
      assert PermissionRefs(st0, st0.permissions[pid]);
    }
  }

  /** The entries of the collection the request submits an access for:
      the first `|accesses|` permissions of the list. */
  function BoundIds(list: seq<Id>, accesses: seq<int>): (b: seq<Id>)
    ensures b <= list && |b| <= |accesses|
    ensures |b| == |list| || |b| == |accesses|
  {
    if |list| <= |accesses| then list else list[..|accesses|]
  }

  /** `setAccess` on a stored permission keeps the store consistent. */
  lemma SetAccessValid(st: Store, pid: Id, level: int)
    requires Valid(st) && pid in st.permissions
    ensures Valid(st.(permissions := st.permissions[pid := st.permissions[pid].(access := Some(level))]))
  {
    var r := st.(permissions := st.permissions[pid := st.permissions[pid].(access := Some(level))]);
    assert PermissionRefs(r, r.permissions[pid]);
  }

  /** The entries are bound in collection order, each by `setAccess` with
      its submitted value. */
  function BindAccesses(st: Store, list: seq<Id>, accesses: seq<int>): (r: Store)
    requires Valid(st) && forall i :: 0 <= i < |list| ==> list[i] in st.permissions
    ensures Valid(r)
    ensures r.statuses == st.statuses && r.assignments == st.assignments && r.users == st.users
    ensures r.permissions.Keys == st.permissions.Keys && r.next == st.next
    decreases |list|
  {
    if |list| == 0 || |accesses| == 0 then st
    else
      var pid := list[0];
      SetAccessValid(st, pid, accesses[0]);
      var st1 := st.(permissions := st.permissions[pid := st.permissions[pid].(access := Some(accesses[0]))]);
      BindAccesses(st1, list[1..], accesses[1..])
  }

  /** Binding changes accesses only, and only of the entries the request
      reaches: every other permission is as it was. */
  lemma {:induction false} BindAccessesOnly(st: Store, list: seq<Id>, accesses: seq<int>)
    requires Valid(st) && forall i :: 0 <= i < |list| ==> list[i] in st.permissions
    ensures var r := BindAccesses(st, list, accesses);
      && (forall pid :: pid in st.permissions ==>
            r.permissions[pid].(access := st.permissions[pid].access) == st.permissions[pid])
      && (forall pid :: pid in st.permissions && pid !in BoundIds(list, accesses) ==>
            r.permissions[pid] == st.permissions[pid])
    decreases |list|
  {
    if |list| == 0 || |accesses| == 0 {
    } else {
      var pid := list[0];
      var st1 := st.(permissions := st.permissions[pid := st.permissions[pid].(access := Some(accesses[0]))]);
      SetAccessValid(st, pid, accesses[0]);
      BindAccessesOnly(st1, list[1..], accesses[1..]);
      var b := BoundIds(list, accesses);
      assert BoundIds(list[1..], accesses[1..]) == b[1..];
      assert forall x :: x in b[1..] ==> x in b;
    }
  }

  /** Each entry the request reaches whose permission no later reached
      entry holds ends with the access submitted for it: the last entry
      holding a permission wins. */
  lemma {:induction false} BindAccessesSets(st: Store, list: seq<Id>, accesses: seq<int>)
    requires Valid(st) && forall i :: 0 <= i < |list| ==> list[i] in st.permissions
    ensures var r := BindAccesses(st, list, accesses); var b := BoundIds(list, accesses);
      forall k :: 0 <= k < |b| && list[k] !in b[k + 1..] ==> r.permissions[list[k]].access == Some(accesses[k])
    decreases |list|
  {
    if |list| == 0 || |accesses| == 0 {
    } else {
      var pid := list[0];
      var st1 := st.(permissions := st.permissions[pid := st.permissions[pid].(access := Some(accesses[0]))]);
      SetAccessValid(st, pid, accesses[0]);
      BindAccessesSets(st1, list[1..], accesses[1..]);
      BindAccessesOnly(st1, list[1..], accesses[1..]);
      var r := BindAccesses(st, list, accesses);
      var b := BoundIds(list, accesses);
      assert BoundIds(list[1..], accesses[1..]) == b[1..];
      forall k | 0 <= k < |b| && list[k] !in b[k + 1..]
        ensures r.permissions[list[k]].access == Some(accesses[k])
      {
        if k > 0 {
          assert b[k + 1..] == b[1..][k..];
          assert list[k] == list[1..][k - 1];
        }
      }
    }
  }

  /** `handleRequest`: the label, colour and icon of the form go to the
      role, and each submitted access to the permission at its position
      of the role's list. */
  function BindRole(st: Store, rid: Id, form: RoleForm): (r: Store)
    requires Valid(st) && rid in st.statuses
    ensures Valid(r)
  {
    var s := st.statuses[rid].(name := form.name, color := form.color, icon := form.icon);
    UpdateStatusValid(st, rid, s);
    var st1 := st.(statuses := st.statuses[rid := s]);
    assert forall i :: 0 <= i < |s.permissions| ==> s.permissions[i] in st1.permissions;
    BindAccesses(st1, s.permissions, form.accesses)
  }

  /** Binding the form changes the status's own label, colour and icon,
      and the access of the entries of its list the request reaches; every
      other row and field is as it was. */
  lemma BindRoleKeeps(st: Store, rid: Id, form: RoleForm)
    requires Valid(st) && rid in st.statuses
    ensures var r := BindRole(st, rid, form);
      && r.assignments == st.assignments && r.users == st.users && r.next == st.next
      && r.statuses.Keys == st.statuses.Keys
      && r.statuses[rid] == st.statuses[rid].(name := form.name, color := form.color, icon := form.icon)
      && (forall id :: id in st.statuses && id != rid ==> r.statuses[id] == st.statuses[id])
      && r.permissions.Keys == st.permissions.Keys
      && (forall pid :: pid in st.permissions ==>
            r.permissions[pid].(access := st.permissions[pid].access) == st.permissions[pid])
      && (forall pid :: pid in st.permissions && pid !in BoundIds(st.statuses[rid].permissions, form.accesses) ==>
            r.permissions[pid] == st.permissions[pid])
  {
    var s := st.statuses[rid].(name := form.name, color := form.color, icon := form.icon);
    UpdateStatusValid(st, rid, s);
    var st1 := st.(statuses := st.statuses[rid := s]);
    assert forall i :: 0 <= i < |s.permissions| ==> s.permissions[i] in st1.permissions;
    BindAccessesOnly(st1, s.permissions, form.accesses);
  }

  /** On a duplicate-free list, the permission at position `k` ends with
      the access submitted at position `k`, when one is. */
  lemma BindRoleSets(st: Store, rid: Id, form: RoleForm, k: nat)
    requires Valid(st) && rid in st.statuses && NoDuplicates(st.statuses[rid].permissions)
    ensures var list := st.statuses[rid].permissions;
      k < |list| && k < |form.accesses| ==>
        BindRole(st, rid, form).permissions[list[k]].access == Some(form.accesses[k])
  {
    var list := st.statuses[rid].permissions;
    var s := st.statuses[rid].(name := form.name, color := form.color, icon := form.icon);
    UpdateStatusValid(st, rid, s);
    var st1 := st.(statuses := st.statuses[rid := s]);
    assert forall i :: 0 <= i < |s.permissions| ==> s.permissions[i] in st1.permissions;
    BindAccessesSets(st1, list, form.accesses);
    if k < |list| && k < |form.accesses| {
      var b := BoundIds(list, form.accesses);
      assert forall i :: k < i < |b| ==> b[i] == list[i];
    }
  }

  /** On a duplicate-free list, a permission at a position past the
      submitted entries is not reached by the binding. */
  lemma PastBound(list: seq<Id>, accesses: seq<int>, k: nat)
    requires NoDuplicates(list) && |accesses| <= k < |list|
    ensures list[k] !in BoundIds(list, accesses)
  {
    assert forall i :: 0 <= i < |BoundIds(list, accesses)| ==> BoundIds(list, accesses)[i] == list[i];
  }

  /** The loop of `new` run from the loaded store with the fresh role
      inserted: the role's list is exactly the new permissions, one per
      name, and every row stored before is still there. */
  function NewRoleFilled(db: Store, names: seq<string>): (res: (Store, seq<Id>))
    requires Valid(db)
    ensures NewStaged(db, res.0, db.next)
    ensures res.0.statuses[db.next] == NewRoleStatus().(permissions := res.1)
    ensures |res.1| == |names|
    ensures forall k :: 0 <= k < |names| ==> BackFilled(db, res.0, db.next, res.1[k], names[k])
    ensures NoDuplicates(res.1)
    ensures Keeps(db.permissions, res.0.permissions) && res.0.assignments == db.assignments
  {
    var st0 := Reload(db);
    NewRoleStaged(db);
    var st1 := InsertStatus(st0, NewRoleStatus());
    var res := NewBackFill(db, st1, st0.next, names);
    assert [] + res.1 == res.1;
    assert Keeps(db.permissions, st1.permissions);
    KeepsTrans(db.permissions, st1.permissions, res.0.permissions);
    res
  }

  /** On a duplicate-free list, the permission at position `k` keeps every
      field but its access, which becomes the one submitted at `k` when
      the request reaches `k` and stays as it was otherwise. */
  lemma BindRoleAt(st: Store, rid: Id, form: RoleForm, k: nat)
    requires Valid(st) && rid in st.statuses && NoDuplicates(st.statuses[rid].permissions)
    requires k < |st.statuses[rid].permissions|
    ensures var pid := st.statuses[rid].permissions[k];
      var p := st.permissions[pid];
      && pid in st.permissions
      && BindRole(st, rid, form).permissions[pid]
           == p.(access := if k < |form.accesses| then Some(form.accesses[k]) else p.access)
  {
    var list := st.statuses[rid].permissions;
    BindRoleKeeps(st, rid, form);
    BindRoleSets(st, rid, form, k);
    if |form.accesses| <= k {
      PastBound(list, form.accesses, k);
    }
  }

  /** Binding an accepted form to a duplicate-free list whose permissions
      have no access yet leaves each with none or with one of the offered
      choices, so never with the delete level. */
  lemma BindRoleChoices(st: Store, rid: Id, form: RoleForm)
    requires Valid(st) && rid in st.statuses && NoDuplicates(st.statuses[rid].permissions)
    requires forall k :: 0 <= k < |st.statuses[rid].permissions| ==>
      st.permissions[st.statuses[rid].permissions[k]].access.None?
    requires Accepted(form)
    ensures var r := BindRole(st, rid, form); var list := st.statuses[rid].permissions;
      forall k :: 0 <= k < |list| ==>
        var a := r.permissions[list[k]].access;
        (a.None? || a.value in ACCESS_CHOICES) && a != Some(CAN_DELETE)
  {
    var list := st.statuses[rid].permissions;
    forall k | 0 <= k < |list|
      ensures var a := BindRole(st, rid, form).permissions[list[k]].access;
        (a.None? || a.value in ACCESS_CHOICES) && a != Some(CAN_DELETE)
    {
      BindRoleAt(st, rid, form, k);
      if k < |form.accesses| {
        assert form.accesses[k] in ACCESS_CHOICES;
      }
    }
  }

  /** The rows a successful `new` flushes: the fresh role, one new
      permission of it per name, and the form bound to the role. */
  function NewRoleRows(db: Store, names: seq<string>, form: RoleForm): (r: Store)
    requires Valid(db)
    ensures Valid(r)
  {
    BindRole(NewRoleFilled(db, names).0, db.next, form)
  }

  /** `new`: the rights check, then the fresh role with one permission per
      controller of the registry, flushed only when the form was submitted
      and valid. */
  function NewRole(db: Store, uid: Id, now: int, form: RoleForm): (res: (Store, Response))
    requires Valid(db) && uid in db.users
    ensures res.1 == Denied <==> !Allowed(db, uid, New, now)
    ensures res.1 == Redirected <==> Allowed(db, uid, New, now) && Accepted(form)
    ensures res.1 == Denied || res.1 == Rendered || res.1 == Redirected
    ensures res.1 != Redirected ==> res.0 == db
    ensures res.1 == Redirected ==> res.0 == NewRoleRows(db, CONTROLLER_LIST, form)
    ensures Valid(res.0)
  {
    if !Allowed(db, uid, New, now) then (db, Denied)
    else if !Accepted(form) then (db, Rendered)
    else (NewRoleRows(db, CONTROLLER_LIST, form), Redirected)
  }

  /** `new` stores a fresh role of the role type, with the form's label,
      colour and icon, and one new permission per name on its list. */
  lemma NewRoleCreates(db: Store, names: seq<string>, form: RoleForm)
    requires Valid(db)
    ensures var r := NewRoleRows(db, names, form);
      && db.next !in db.statuses && db.next in r.statuses
      && r.statuses[db.next] == Status(form.name, Some(ROLE_TYPE), form.color, form.icon, true,
                                      r.statuses[db.next].permissions)
      && |r.statuses[db.next].permissions| == |names|
  {
    var (st, pids) := NewRoleFilled(db, names);
    BindRoleKeeps(st, db.next, form);
  }

  /** The new role's permissions were not stored before: each points at
      the new role, which no stored row can. */
  lemma NewPermissionsFresh(db: Store, names: seq<string>)
    requires Valid(db)
    ensures var (st, pids) := NewRoleFilled(db, names);
      forall pid :: pid in st.statuses[db.next].permissions ==> pid !in db.permissions
  {
    var (st, pids) := NewRoleFilled(db, names);
    forall q | q in db.permissions
      ensures db.permissions[q].role != Some(db.next)
    {
      assert PermissionRefs(db, db.permissions[q]);
    }
    forall pid | pid in st.statuses[db.next].permissions
      ensures pid !in db.permissions
    {
      var k :| 0 <= k < |pids| && pids[k] == pid;
      assert BackFilled(db, st, db.next, pids[k], names[k]);
    }
  }

  /** Every row stored before `new` is still there: no stored permission
      or assignment changes, and every stored status keeps its label. */
  lemma NewRoleKeeps(db: Store, names: seq<string>, form: RoleForm)
    requires Valid(db)
    ensures var r := NewRoleRows(db, names, form);
      Extends(db, r) && Keeps(db.permissions, r.permissions) && r.assignments == db.assignments
  {
    var st := NewRoleFilled(db, names).0;
    NewPermissionsFresh(db, names);
    BindFreshKeeps(db, st, db.next, form);
  }

  /** Binding the form to a status not stored before, whose permissions
      are not stored before either, keeps every stored row. */
  lemma BindFreshKeeps(db: Store, st: Store, rid: Id, form: RoleForm)
    requires Valid(st) && rid in st.statuses && rid !in db.statuses && Extends(db, st)
    requires Keeps(db.permissions, st.permissions)
    requires forall pid :: pid in st.statuses[rid].permissions ==> pid !in db.permissions
    ensures var r := BindRole(st, rid, form);
      Extends(db, r) && Keeps(db.permissions, r.permissions) && r.assignments == st.assignments
  {
    BindRoleKeeps(st, rid, form);
    var list := st.statuses[rid].permissions;
    assert forall pid :: pid in BoundIds(list, form.accesses) ==> pid in list;
  }

  /** `new` gives the role, in order, one permission per name, on the
      stored controller of that label when there is one and on a new
      controller status of that label otherwise. Its access is the one
      submitted at its position, and none when the request submits none
      there. */
  lemma NewRoleBackFills(db: Store, names: seq<string>, form: RoleForm, k: nat)
    requires Valid(db) && k < |names|
    ensures var r := NewRoleRows(db, names, form);
      && db.next in r.statuses && k < |r.statuses[db.next].permissions|
      && var pid := r.statuses[db.next].permissions[k];
         && OnController(db, r, db.next, pid, names[k])
         && r.permissions[pid].access == (if k < |form.accesses| then Some(form.accesses[k]) else None)
  {
    var res := NewRoleFilled(db, names);
    var st := res.0;
    assert BackFilled(db, st, db.next, res.1[k], names[k]);
    BindRoleKeeps(st, db.next, form);
    BindRoleAt(st, db.next, form, k);
  }

  /** A role made through the form holds only accesses the form offers,
      so never the delete level. */
  lemma NewRoleChoices(db: Store, names: seq<string>, form: RoleForm)
    requires Valid(db) && Accepted(form)
    ensures var r := NewRoleRows(db, names, form);
      forall k :: 0 <= k < |r.statuses[db.next].permissions| ==>
        var a := r.permissions[r.statuses[db.next].permissions[k]].access;
        (a.None? || a.value in ACCESS_CHOICES) && a != Some(CAN_DELETE)
  {
    var st := NewRoleFilled(db, names).0;
    NewRoleUnset(db, names);
    BindRoleKeeps(st, db.next, form);
    BindRoleChoices(st, db.next, form);
  }

  /** Before the form is bound, the new role's list is duplicate-free and
      none of its permissions has an access. */
  lemma NewRoleUnset(db: Store, names: seq<string>)
    requires Valid(db)
    ensures var (st, pids) := NewRoleFilled(db, names);
      && Valid(st) && db.next in st.statuses && st.statuses[db.next].permissions == pids
      && NoDuplicates(pids)
      && forall k :: 0 <= k < |pids| ==> pids[k] in st.permissions && st.permissions[pids[k]].access.None?
  {
    var (st, pids) := NewRoleFilled(db, names);
    forall k | 0 <= k < |pids|
      ensures pids[k] in st.permissions && st.permissions[pids[k]].access.None?
    {
      assert BackFilled(db, st, db.next, pids[k], names[k]);
    }
  }

  // ---------------------------------------------------------------------
  // edit

  /** What `edit` may do to a stored permission: leave it alone or, for the
      admin role, raise a permission of the role to full access. */
  predicate EditedFrom(p: Permission, q: Permission, rid: Id, admin: bool) {
    q == p || (admin && p.role == Some(rid) && q == p.(access := Some(CAN_ALL)))
  }

  /** Every permission row of `a` is in `b`, edited at most as above. */
  predicate EditedAll(a: Store, b: Store, rid: Id, admin: bool) {
    forall pid :: pid in a.permissions ==>
      pid in b.permissions && EditedFrom(a.permissions[pid], b.permissions[pid], rid, admin)
  }

  /** Every permission that points at the status is on its list. */
  predicate Owned(st: Store, rid: Id)
    requires rid in st.statuses
  {
    forall pid :: pid in st.permissions && st.permissions[pid].role == Some(rid) ==>
      pid in st.statuses[rid].permissions
  }

  /** The working store of `edit` on the stored status `rid`. */
  predicate EditStaged(db: Store, st: Store, rid: Id, admin: bool) {
    var grown := Valid(db) && Valid(st) && Extends(db, st);
    grown && EditRoleRow(db, st, rid, admin)
  }

  predicate EditRoleRow(db: Store, st: Store, rid: Id, admin: bool) {
    && rid in db.statuses && rid in st.statuses
    && st.statuses[rid].kind == db.statuses[rid].kind && Owned(st, rid)
    && EditedAll(db, st, rid, admin)
  }

  /** `setAccess` on a stored permission. */
  function SetAccess(st: Store, pid: Id, level: int): (r: Store)
    requires Valid(st) && pid in st.permissions
    ensures Valid(r)
  {
    var r := st.(permissions := st.permissions[pid := st.permissions[pid].(access := Some(level))]);
    assert PermissionRefs(r, r.permissions[pid]);
    assert Linked(r);
    r
  }

  /** `findOneBy(['controller' => cid, 'role' => rid])` on the stored
      permissions, or else a new permission on the controller with no
      role yet. */
  function FindOrNewPermission(db: Store, st: Store, cid: Id, rid: Id, admin: bool): (res: (Store, Id))
    requires EditStaged(db, st, rid, admin) && cid in st.statuses
    ensures Valid(res.0) && res.1 in res.0.permissions
    ensures res.0.statuses == st.statuses && res.0.assignments == st.assignments && res.0.users == st.users
    ensures Keeps(st.permissions, res.0.permissions) && res.0.next >= st.next
    ensures res.0.permissions.Keys == st.permissions.Keys + {res.1}
    ensures res.0.permissions[res.1].controller == cid
    ensures res.1 in st.permissions ==> st.permissions[res.1].role == Some(rid)
    ensures res.1 !in st.permissions ==> res.0.permissions[res.1].role.None?
  {
    match Registration.FindPermission(db, cid, rid)
    case Some(p) => (st, p)
    case None => (InsertPermission(st, Permission(None, cid, None)), st.next)
  }

  /** A stored permission of the pair is reused: the store is unchanged and
      the result is that stored row, so `edit` never stores a second
      permission for the same controller and role. Without one, a new row
      is made. */
  lemma EditReusesPermission(db: Store, st: Store, cid: Id, rid: Id, admin: bool)
    requires EditStaged(db, st, rid, admin) && cid in st.statuses
    ensures var (r, pid) := FindOrNewPermission(db, st, cid, rid, admin);
      && ((exists q :: q in db.permissions && db.permissions[q].controller == cid
                       && db.permissions[q].role == Some(rid))
          <==> r == st && pid in db.permissions)
      && (pid in db.permissions ==> db.permissions[pid].controller == cid && db.permissions[pid].role == Some(rid))
  {
    assert st.next !in st.permissions;
  }

  /** The permission `edit` links for a controller: the one found or made,
      raised to full access for the admin role. */
  function EditPermission(db: Store, st: Store, cid: Id, rid: Id, admin: bool): (res: (Store, Id))
    requires EditStaged(db, st, rid, admin) && cid in st.statuses
    ensures Valid(res.0) && res.1 in res.0.permissions
    ensures res.0.statuses == st.statuses && res.0.assignments == st.assignments && res.0.users == st.users
    ensures res.0.permissions.Keys == st.permissions.Keys + {res.1} && res.0.next >= st.next
    ensures EditedAll(st, res.0, rid, admin)
    ensures res.0.permissions[res.1].controller == cid
    ensures admin ==> res.0.permissions[res.1].access == Some(CAN_ALL)
    ensures res.1 in st.permissions ==> st.permissions[res.1].role == Some(rid)
    ensures res.1 in st.permissions ==> res.0.permissions[res.1].role == Some(rid)
    ensures res.1 !in st.permissions ==> res.0.permissions[res.1].role.None?
  {
    var (st2, pid) := FindOrNewPermission(db, st, cid, rid, admin);
    if admin then (SetAccess(st2, pid, CAN_ALL), pid) else (st2, pid)
  }

  /** `r` grew from `st` during `edit`: rows are only added, stored
      permissions edited as allowed, and the status's own row changed only
      in its list. */
  predicate EditGrown(db: Store, st: Store, r: Store, rid: Id, admin: bool) {
    var rowsKept := Extends(st, r) && EditedAll(st, r, rid, admin)
      && r.assignments == st.assignments && r.users == st.users;
    && EditStaged(db, r, rid, admin) && rowsKept
    && rid in st.statuses && r.statuses[rid] == st.statuses[rid].(permissions := r.statuses[rid].permissions)
  }

  /** Permission `pid` links the role to a controller labelled `text`,
      with full access for the admin role. */
  predicate EditGranted(st: Store, rid: Id, pid: Id, text: string, admin: bool) {
    && pid in st.permissions && st.permissions[pid].role == Some(rid)
    && st.permissions[pid].controller in st.statuses
    && st.statuses[st.permissions[pid].controller].name == text
    && (admin ==> st.permissions[pid].access == Some(CAN_ALL))
  }

  /** Finding or creating the controller keeps the working store staged. */
  lemma EditControllerStaged(db: Store, st: Store, st1: Store, rid: Id, admin: bool)
    requires EditStaged(db, st, rid, admin) && Grown(st, st1) && Keeps(st.statuses, st1.statuses)
    requires st1.permissions == st.permissions
    ensures EditStaged(db, st1, rid, admin)
  {
    ExtendsTrans(db, st, st1);
  }

  /** Linking the permission to the status leaves every other row alone:
      a permission found for the status is on its list already, and a new
      one is not stored yet. */
  lemma EditLinkEdited(st: Store, st3: Store, rid: Id, pid: Id, admin: bool)
    requires rid in st.statuses && Owned(st, rid) && pid in st3.permissions
    requires st3.statuses == st.statuses
    requires st3.permissions.Keys == st.permissions.Keys + {pid}
    requires EditedAll(st, st3, rid, admin)
    requires pid in st.permissions ==> st3.permissions[pid].role == Some(rid)
    requires pid !in st.permissions ==> st3.permissions[pid].role.None?
    ensures var r := Statuses.AddPermission(st3, rid, pid);
      EditedAll(st, r, rid, admin) && Owned(r, rid)
  {
    var r := Statuses.AddPermission(st3, rid, pid);
    if pid in st.permissions {
      assert pid in st.statuses[rid].permissions;
    }
  }

  /** Linking the permission to the status keeps the store consistent
      and grown from the loaded one. */
  lemma EditLinkValid(db: Store, st: Store, st3: Store, rid: Id, pid: Id)
    requires Extends(db, st) && Valid(st3) && Extends(st, st3) && pid in st3.permissions
    requires rid in st.statuses && st3.statuses == st.statuses
    ensures var r := Statuses.AddPermission(st3, rid, pid);
      Valid(r) && Extends(st, r) && Extends(db, r)
  {
    var r := Statuses.AddPermission(st3, rid, pid);
    Statuses.AddPermissionValid(st3, rid, pid);
    ExtendsTrans(st, st3, r);
    ExtendsTrans(db, st, r);
  }

  /** Linking the permission to the status keeps the working store
      staged. */
  lemma EditLinkStaged(db: Store, st: Store, st3: Store, rid: Id, pid: Id, admin: bool)
    requires EditStaged(db, st, rid, admin) && Valid(st3) && Extends(st, st3) && pid in st3.permissions
    requires st3.statuses == st.statuses
    requires st3.permissions.Keys == st.permissions.Keys + {pid}
    requires EditedAll(st, st3, rid, admin)
    requires pid in st.permissions ==> st3.permissions[pid].role == Some(rid)
    requires pid !in st.permissions ==> st3.permissions[pid].role.None?
    ensures EditStaged(db, Statuses.AddPermission(st3, rid, pid), rid, admin)
  {
    var r := Statuses.AddPermission(st3, rid, pid);
    EditLinkValid(db, st, st3, rid, pid);
    EditLinkEdited(st, st3, rid, pid, admin);
    EditedAllTrans(db, st, r, rid, admin);
  }

  /** Linking the permission to the status: the store grew as `edit`
      allows. */
  lemma EditLinkGrown(db: Store, st: Store, st3: Store, rid: Id, pid: Id, admin: bool)
    requires EditStaged(db, st, rid, admin) && Valid(st3) && Extends(st, st3) && pid in st3.permissions
    requires st3.statuses == st.statuses && st3.assignments == st.assignments && st3.users == st.users
    requires st3.permissions.Keys == st.permissions.Keys + {pid}
    requires EditedAll(st, st3, rid, admin)
    requires pid in st.permissions ==> st3.permissions[pid].role == Some(rid)
    requires pid !in st.permissions ==> st3.permissions[pid].role.None?
    ensures EditGrown(db, st, Statuses.AddPermission(st3, rid, pid), rid, admin)
  {
    EditLinkStaged(db, st, st3, rid, pid, admin);
    EditLinkValid(db, st, st3, rid, pid);
    EditLinkEdited(st, st3, rid, pid, admin);
  }

  /** Edits compose: raising to full access twice is raising it once. */
  lemma EditedAllTrans(a: Store, b: Store, c: Store, rid: Id, admin: bool)
    requires EditedAll(a, b, rid, admin) && EditedAll(b, c, rid, admin)
    ensures EditedAll(a, c, rid, admin)
  {
    forall pid | pid in a.permissions
      ensures pid in c.permissions && EditedFrom(a.permissions[pid], c.permissions[pid], rid, admin)
    {
      var p, q := a.permissions[pid], b.permissions[pid];
      assert EditedFrom(p, q, rid, admin);
      assert EditedFrom(q, c.permissions[pid], rid, admin);
    }
  }

  /** One iteration of the loop of `edit`: the controller found by label or
      a new one, the permission of the pair found or a new one, raised for
      the admin role, and linked to the status. */
  function EditOne(db: Store, st: Store, rid: Id, text: string, admin: bool): (res: (Store, Id))
    requires EditStaged(db, st, rid, admin)
    ensures EditGrown(db, st, res.0, rid, admin)
    ensures st.statuses[rid].kind == Some(ROLE_TYPE) ==> EditGranted(res.0, rid, res.1, text, admin)
  {
    var (st1, cid) := Registration.CreateController(db, st, text);
    EditControllerStaged(db, st, st1, rid, admin);
    var (st3, pid) := EditPermission(db, st1, cid, rid, admin);
    EditOneGrown(db, st, st1, st3, rid, pid, admin);
    EditOneGranted(st1, st3, rid, pid, cid, text, admin);
    (Statuses.AddPermission(st3, rid, pid), pid)
  }

  lemma EditOneGrown(db: Store, st: Store, st1: Store, st3: Store, rid: Id, pid: Id, admin: bool)
    requires EditStaged(db, st, rid, admin) && EditStaged(db, st1, rid, admin)
    requires Extends(st, st1) && st1.permissions == st.permissions
    requires st1.assignments == st.assignments && st1.users == st.users
    requires Keeps(st.statuses, st1.statuses)
    requires Valid(st3) && pid in st3.permissions
    requires st3.statuses == st1.statuses && st3.assignments == st1.assignments && st3.users == st1.users
    requires st3.permissions.Keys == st1.permissions.Keys + {pid} && st3.next >= st1.next
    requires EditedAll(st1, st3, rid, admin)
    requires pid in st1.permissions ==> st3.permissions[pid].role == Some(rid)
    requires pid !in st1.permissions ==> st3.permissions[pid].role.None?
    ensures EditGrown(db, st, Statuses.AddPermission(st3, rid, pid), rid, admin)
  {
    var r := Statuses.AddPermission(st3, rid, pid);
    assert Extends(st1, st3);
    EditLinkGrown(db, st1, st3, rid, pid, admin);
    ExtendsTrans(st, st1, r);
    EditedAllTrans(st, st1, r, rid, admin);
  }

  /** For a role, the linked permission belongs to it, on the controller
      of the label, with full access for the admin role. */
  lemma EditOneGranted(st1: Store, st3: Store, rid: Id, pid: Id, cid: Id, text: string, admin: bool)
    requires Valid(st1) && rid in st1.statuses && cid in st1.statuses && st1.statuses[cid].name == text
    requires pid in st3.permissions && st3.statuses == st1.statuses
    requires st3.permissions[pid].controller == cid
    requires admin ==> st3.permissions[pid].access == Some(CAN_ALL)
    requires pid in st1.permissions ==> st1.permissions[pid].role == Some(rid)
    requires pid in st1.permissions ==> st3.permissions[pid].role == Some(rid)
    requires pid !in st1.permissions ==> st3.permissions[pid].role.None?
    requires Owned(st1, rid)
    requires st3.permissions.Keys == st1.permissions.Keys + {pid}
    ensures st1.statuses[rid].kind == Some(ROLE_TYPE) ==>
      EditGranted(Statuses.AddPermission(st3, rid, pid), rid, pid, text, admin)
  {
    if pid in st1.permissions {
      assert pid in st1.statuses[rid].permissions;
    } else {
      assert pid !in st1.statuses[rid].permissions;
    }
  }

  /** Growth during `edit` composes. */
  lemma EditGrownTrans(db: Store, a: Store, b: Store, c: Store, rid: Id, admin: bool)
    requires EditGrown(db, a, b, rid, admin) && EditGrown(db, b, c, rid, admin)
    ensures EditGrown(db, a, c, rid, admin)
  {
    ExtendsTrans(a, b, c);
    EditedAllTrans(a, b, c, rid, admin);
  }

  /** A granting permission keeps granting while `edit` goes on. */
  lemma EditGrantedKept(a: Store, b: Store, rid: Id, pid: Id, text: string, admin: bool)
    requires EditGranted(a, rid, pid, text, admin) && Extends(a, b) && EditedAll(a, b, rid, admin)
    ensures EditGranted(b, rid, pid, text, admin)
  {
    assert EditedFrom(a.permissions[pid], b.permissions[pid], rid, admin);
  }

  /** The first name's permission in front of the rest's. */
  lemma EditGrantedPrepend(r: Store, rid: Id, pid: Id, pids: seq<Id>, names: seq<string>, admin: bool)
    requires names != [] && |pids| == |names| - 1
    requires EditGranted(r, rid, pid, names[0], admin)
    requires forall k :: 0 <= k < |pids| ==> EditGranted(r, rid, pids[k], names[1..][k], admin)
    ensures forall k :: 0 <= k < |names| ==> EditGranted(r, rid, ([pid] + pids)[k], names[k], admin)
  {
    forall k | 0 <= k < |names|
      ensures EditGranted(r, rid, ([pid] + pids)[k], names[k], admin)
    {
      if k > 0 {
        assert names[1..][k - 1] == names[k];
        assert ([pid] + pids)[k] == pids[k - 1];
      }
    }
  }

  /** The loop of `edit` over the controller names: it returns the
      permission linked for each name; for a role, each links the role to
      the controller of that name. */
  function EditAll(db: Store, st: Store, rid: Id, names: seq<string>, admin: bool): (res: (Store, seq<Id>))
    requires EditStaged(db, st, rid, admin)
    ensures EditGrown(db, st, res.0, rid, admin)
    ensures |res.1| == |names|
    ensures st.statuses[rid].kind == Some(ROLE_TYPE) ==>
      forall k :: 0 <= k < |names| ==> EditGranted(res.0, rid, res.1[k], names[k], admin)
    decreases |names|
  {
    if names == [] then
      assert EditGrown(db, st, st, rid, admin);
      (st, [])
    else
      var (st1, pid) := EditOne(db, st, rid, names[0], admin);
      var (r, pids) := EditAll(db, st1, rid, names[1..], admin);
      EditGrownTrans(db, st, st1, r, rid, admin);
      if st.statuses[rid].kind == Some(ROLE_TYPE) then
        EditGrantedKept(st1, r, rid, pid, names[0], admin);
        EditGrantedPrepend(r, rid, pid, pids, names, admin);
        (r, [pid] + pids)
      else
        (r, [pid] + pids)
  }

  /** One iteration of `edit` keeps the status's list duplicate-free:
      `addPermission` appends only a permission not on it. */
  lemma EditOneList(db: Store, st: Store, rid: Id, text: string, admin: bool)
    requires EditStaged(db, st, rid, admin)
    ensures NoDuplicates(st.statuses[rid].permissions) ==>
      NoDuplicates(EditOne(db, st, rid, text, admin).0.statuses[rid].permissions)
  {
    var (st1, cid) := Registration.CreateController(db, st, text);
    EditControllerStaged(db, st, st1, rid, admin);
    var (st3, pid) := EditPermission(db, st1, cid, rid, admin);
    assert st3.statuses[rid] == st.statuses[rid];
  }

  /** The loop of `edit` keeps the status's list duplicate-free. */
  lemma {:induction false} EditAllList(db: Store, st: Store, rid: Id, names: seq<string>, admin: bool)
    requires EditStaged(db, st, rid, admin)
    ensures NoDuplicates(st.statuses[rid].permissions) ==>
      NoDuplicates(EditAll(db, st, rid, names, admin).0.statuses[rid].permissions)
    decreases |names|
  {
    if names != [] {
      var st1 := EditOne(db, st, rid, names[0], admin).0;
      EditOneList(db, st, rid, names[0], admin);
      EditAllList(db, st1, rid, names[1..], admin);
    }
  }

  /** A list whose values ascend has no duplicates. */
  lemma AscendingDistinct(s: seq<Id>)
    requires forall i, j :: 0 <= i < j < |s| ==> s[i] < s[j]
    ensures NoDuplicates(s)
  {
  }

  /** `edit` raises the permissions of a role to full access when the
      role's stored label is the admin label. */
  predicate IsAdmin(db: Store, rid: Id)
    requires rid in db.statuses
  {
    db.statuses[rid].name == Registration.ADMIN_LABEL
  }

  /** The loaded store is where the loop of `edit` starts. */
  lemma EditStart(db: Store, rid: Id, admin: bool)
    requires Valid(db) && rid in db.statuses
    ensures EditStaged(db, Reload(db), rid, admin)
  {
    var st0 := Reload(db);
    assert Extends(db, st0);
    assert EditedAll(db, st0, rid, admin);
  }

  /** The loop of `edit` run from the loaded store: stored permissions are
      edited only as allowed, every stored status keeps its label, and for
      a role each name's permission links the role to its controller. */
  function EditFilled(db: Store, rid: Id, names: seq<string>): (res: (Store, seq<Id>))
    requires Valid(db) && rid in db.statuses
    ensures Valid(res.0) && Extends(db, res.0) && rid in res.0.statuses
    ensures EditedAll(db, res.0, rid, IsAdmin(db, rid)) && res.0.assignments == db.assignments
    ensures |res.1| == |names|
    ensures db.statuses[rid].kind == Some(ROLE_TYPE) ==>
      forall k :: 0 <= k < |names| ==> EditGranted(res.0, rid, res.1[k], names[k], IsAdmin(db, rid))
    ensures NoDuplicates(res.0.statuses[rid].permissions) && Owned(res.0, rid)
  {
    var admin := IsAdmin(db, rid);
    var st0 := Reload(db);
    AscendingDistinct(st0.statuses[rid].permissions);
    EditStart(db, rid, admin);
    var res := EditAll(db, st0, rid, names, admin);
    EditAllList(db, st0, rid, names, admin);
    EditedAllTrans(db, st0, res.0, rid, admin);
    res
  }

  /** The rows a successful `edit` flushes: the loop over the names, then
      the form bound to the status. */
  function EditRows(db: Store, rid: Id, names: seq<string>, form: RoleForm): (r: Store)
    requires Valid(db) && rid in db.statuses
    ensures Valid(r)
  {
    BindRole(EditFilled(db, rid, names).0, rid, form)
  }

  /** `edit`: the route's status must exist, then the rights check; the
      back-filled and bound rows are flushed only when the form was
      submitted and valid. */
  function EditRole(db: Store, uid: Id, now: int, rid: Id, form: RoleForm): (res: (Store, Response))
    requires Valid(db) && uid in db.users
    ensures res.1 == NotFound <==> rid !in db.statuses
    ensures res.1 == Denied <==> rid in db.statuses && !Allowed(db, uid, Edit, now)
    ensures res.1 == Redirected <==> rid in db.statuses && Allowed(db, uid, Edit, now) && Accepted(form)
    ensures res.1 != Rejected
    ensures res.1 != Redirected ==> res.0 == db
    ensures res.1 == Redirected ==> res.0 == EditRows(db, rid, CONTROLLER_LIST, form)
    ensures Valid(res.0)
  {
    if rid !in db.statuses then (db, NotFound)
    else if !Allowed(db, uid, Edit, now) then (db, Denied)
    else if !Accepted(form) then (db, Rendered)
    else (EditRows(db, rid, CONTROLLER_LIST, form), Redirected)
  }

  /** `edit` changes no field of a stored permission but its access, and
      the access only of a permission on the edited status's list: one the
      request submits an access for, or, for the admin role, one raised to
      full access. Every stored status other than the edited one keeps its
      label, and no assignment changes. */
  lemma EditKeepsStored(db: Store, rid: Id, names: seq<string>, form: RoleForm)
    requires Valid(db) && rid in db.statuses
    ensures var r := EditRows(db, rid, names, form);
      var list := r.statuses[rid].permissions;
      && (forall pid :: pid in db.permissions ==>
            (pid in r.permissions && r.permissions[pid].(access := db.permissions[pid].access) == db.permissions[pid]))
      && (forall pid :: pid in db.permissions && r.permissions[pid] != db.permissions[pid] ==>
            pid in list
            && (pid in BoundIds(list, form.accesses)
                || (IsAdmin(db, rid) && r.permissions[pid].access == Some(CAN_ALL))))
      && (forall id :: id in db.statuses && id != rid ==> id in r.statuses && r.statuses[id].name == db.statuses[id].name)
      && r.assignments == db.assignments
  {
    var st := EditFilled(db, rid, names).0;
    var r := EditRows(db, rid, names, form);
    BindRoleKeeps(st, rid, form);
    var list := st.statuses[rid].permissions;
    assert r.statuses[rid].permissions == list;
    forall pid | pid in db.permissions
      ensures pid in r.permissions
      ensures r.permissions[pid].(access := db.permissions[pid].access) == db.permissions[pid]
      ensures r.permissions[pid] != db.permissions[pid] ==>
        pid in list && (pid in BoundIds(list, form.accesses)
                        || (IsAdmin(db, rid) && r.permissions[pid].access == Some(CAN_ALL)))
    {
      assert EditedFrom(db.permissions[pid], st.permissions[pid], rid, IsAdmin(db, rid));
      assert forall x :: x in BoundIds(list, form.accesses) ==> x in list;
      if st.permissions[pid] != db.permissions[pid] {
        assert st.permissions[pid].role == Some(rid);
      }
    }
  }

  /** Editing a role that is not the admin role leaves every stored
      permission the request submits no access for as it was: the loop
      only adds the missing ones. */
  lemma EditNonAdminKeeps(db: Store, rid: Id, names: seq<string>, form: RoleForm)
    requires Valid(db) && rid in db.statuses && !IsAdmin(db, rid)
    ensures var r := EditRows(db, rid, names, form);
      forall pid :: pid in db.permissions && pid !in BoundIds(r.statuses[rid].permissions, form.accesses) ==>
        pid in r.permissions && r.permissions[pid] == db.permissions[pid]
  {
    EditKeepsStored(db, rid, names, form);
  }

  /** The permission at position `k` of the edited status's list ends with
      the access submitted at position `k`, whichever the role, the admin
      one included: the binding comes after the loop. */
  lemma EditBindsAccess(db: Store, rid: Id, names: seq<string>, form: RoleForm, k: nat)
    requires Valid(db) && rid in db.statuses
    ensures var r := EditRows(db, rid, names, form);
      var list := r.statuses[rid].permissions;
      k < |list| && k < |form.accesses| ==> r.permissions[list[k]].access == Some(form.accesses[k])
  {
    var st := EditFilled(db, rid, names).0;
    BindRoleKeeps(st, rid, form);
    BindRoleSets(st, rid, form, k);
  }

  /** After `edit` of a role, the permission the loop linked for each name
      belongs to the role, sits on a controller of that name and is on the
      role's list. Its access is the one submitted at its position; where
      the request submits none, the admin role holds full access. This
      needs the role's own label not to be one of the names. */
  lemma EditGrants(db: Store, rid: Id, names: seq<string>, form: RoleForm, k: nat)
    requires Valid(db) && rid in db.statuses && db.statuses[rid].kind == Some(ROLE_TYPE)
    requires k < |names| && names[k] != db.statuses[rid].name
    ensures var r := EditRows(db, rid, names, form);
      var list := r.statuses[rid].permissions;
      var pid := EditFilled(db, rid, names).1[k];
      && EditGranted(r, rid, pid, names[k], false) && pid in list
      && var at := Collections.IndexOf(list, pid);
         && (at < |form.accesses| ==> r.permissions[pid].access == Some(form.accesses[at]))
         && (at >= |form.accesses| && IsAdmin(db, rid) ==> r.permissions[pid].access == Some(CAN_ALL))
  {
    var res := EditFilled(db, rid, names);
    var st := res.0;
    var list := st.statuses[rid].permissions;
    EditLinked(db, rid, names, k);
    BindRoleKeeps(st, rid, form);
    BindRoleAt(st, rid, form, Collections.IndexOf(list, res.1[k]));
  }

  /** After the loop of `edit` on a role, the permission linked for a
      name is on the role's duplicate-free list, and the role keeps its
      label. */
  lemma EditLinked(db: Store, rid: Id, names: seq<string>, k: nat)
    requires Valid(db) && rid in db.statuses && db.statuses[rid].kind == Some(ROLE_TYPE) && k < |names|
    ensures var (st, pids) := EditFilled(db, rid, names);
      && Valid(st) && rid in st.statuses && st.statuses[rid].name == db.statuses[rid].name
      && NoDuplicates(st.statuses[rid].permissions)
      && EditGranted(st, rid, pids[k], names[k], IsAdmin(db, rid))
      && pids[k] in st.statuses[rid].permissions
  {
    var (st, pids) := EditFilled(db, rid, names);
    assert EditGranted(st, rid, pids[k], names[k], IsAdmin(db, rid));
  }
}
