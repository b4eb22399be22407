/** Registration and the provisioning of the first user: the super-admin
    role, one controller and one full-access permission per registered
    controller, and an assignment starting now. Lookups (`findOneBy`) read
    the store as loaded at the start of the request, `db`; new objects are
    added to the working store `st`. */
module Registration {
  import opened Wrappers
  import opened Strings
  import opened Entities
  import opened Levels
  import opened Assignments
  import opened Persistence
  import opened Access
  import Users

  const ADMIN_LABEL: string := "admin"
  const ADMIN_ICON: string := "bi-person-fill"

  /** The role `createSuperAdminRole` builds when none is labelled admin. */
  function AdminRole(): Status {
    NewStatus().(kind := Some(ROLE_TYPE), name := ADMIN_LABEL, icon := ADMIN_ICON)
  }

  /** The controller `createController` builds when none has the label. */
  function ControllerStatus(text: string): Status {
    NewStatus().(kind := Some(CONTROLLER_TYPE), name := text)
  }

  /** `isFirstUser`: no user is stored yet. */
  predicate IsFirstUser(db: Store) {
    |db.users| == 0
  }

  /** `findOneBy(['label' => text])` on statuses. */
  function FindByLabel(db: Store, text: string): (r: Option<Id>)
    requires Valid(db)
    ensures r.Some? ==> r.value in db.statuses && db.statuses[r.value].name == text
    ensures r.None? <==> forall id :: id in db.statuses ==> db.statuses[id].name != text
  {
    FirstId(db.statuses, (s: Status) => s.name == text, 0, db.next)
  }

  /** `findOneBy(['role' => rid])` on assignments. */
  function FindByRole(db: Store, rid: Id): (r: Option<Id>)
    requires Valid(db)
    ensures r.Some? ==> r.value in db.assignments && db.assignments[r.value].role == Some(rid)
    ensures r.None? <==> forall aid :: aid in db.assignments ==> db.assignments[aid].role != Some(rid)
  {
    FirstId(db.assignments, (a: Assignment) => a.role == Some(rid), 0, db.next)
  }

  /** `createSuperAdminRole`: the stored status labelled admin, whatever its
      type, or else a new admin role. */
  function CreateSuperAdminRole(db: Store, st: Store): (res: (Store, Id))
    requires Valid(db) && Valid(st) && Extends(db, st)
    ensures Grown(st, res.0) && res.1 in res.0.statuses
    ensures res.0.statuses[res.1].name == ADMIN_LABEL
    ensures res.0.permissions == st.permissions && res.0.assignments == st.assignments && res.0.users == st.users
    ensures (exists id :: id in db.statuses && db.statuses[id].name == ADMIN_LABEL) ==>
      res.0 == st && res.1 in db.statuses
    ensures (forall id :: id in db.statuses ==> db.statuses[id].name != ADMIN_LABEL) ==>
      res.1 == st.next && res.0 == InsertStatus(st, AdminRole())
  {
    match FindByLabel(db, ADMIN_LABEL)
    case Some(id) => (st, id)
    case None => (InsertStatus(st, AdminRole()), st.next)
  }

  /** `createController`: the stored status with the label, or else a new
      controller with it. */
  function CreateController(db: Store, st: Store, text: string): (res: (Store, Id))
    requires Valid(db) && Valid(st) && Extends(db, st)
    ensures Grown(st, res.0) && res.1 in res.0.statuses && Keeps(st.statuses, res.0.statuses)
    ensures res.0.statuses[res.1].name == text
    ensures res.0.permissions == st.permissions && res.0.assignments == st.assignments && res.0.users == st.users
    ensures (exists id :: id in db.statuses && db.statuses[id].name == text) ==>
      res.0 == st && res.1 in db.statuses
    ensures (forall id :: id in db.statuses ==> db.statuses[id].name != text) ==>
      res.1 == st.next && res.0 == InsertStatus(st, ControllerStatus(text))
  {
    match FindByLabel(db, text)
    case Some(id) => (st, id)
    case None => (InsertStatus(st, ControllerStatus(text)), st.next)
  }

  /** The working store `st` grew from the loaded store `db` and kept its
      permissions unchanged. */
  predicate Staged(db: Store, st: Store) {
    Valid(db) && Valid(st) && Extends(db, st) && Keeps(db.permissions, st.permissions)
  }

  /** `findOneBy(['controller' => cid, 'role' => rid])` on permissions. */
  function FindPermission(db: Store, cid: Id, rid: Id): (r: Option<Id>)
    requires Valid(db)
    ensures r.Some? ==>
      && r.value in db.permissions
      && db.permissions[r.value].controller == cid && db.permissions[r.value].role == Some(rid)
    ensures r.None? <==> forall pid :: pid in db.permissions ==>
      db.permissions[pid].controller != cid || db.permissions[pid].role != Some(rid)
  {
    FirstId(db.permissions, (p: Permission) => p.controller == cid && p.role == Some(rid), 0, db.next)
  }

  /** `createPermission`: the stored permission of the pair or else a new
      one; either way the result links the controller to the role. */
  function CreatePermission(db: Store, st: Store, cid: Id, rid: Id): (res: (Store, Id))
    requires Staged(db, st)
    requires cid in st.statuses && rid in st.statuses
    ensures Grown(st, res.0) && res.1 in res.0.permissions
    ensures res.0.permissions[res.1].controller == cid && res.0.permissions[res.1].role == Some(rid)
    ensures res.0.statuses == st.statuses && res.0.assignments == st.assignments && res.0.users == st.users
    ensures Keeps(st.permissions, res.0.permissions)
  {
    match FindPermission(db, cid, rid)
    case Some(pid) => (st, pid)
    case None => (InsertPermission(st, Permission(Some(CAN_ALL), cid, Some(rid))), st.next)
  }

  /** A stored permission of the pair is returned as it is. */
  lemma CreatePermissionReuses(db: Store, st: Store, cid: Id, rid: Id)
    requires Staged(db, st)
    requires cid in st.statuses && rid in st.statuses
    requires exists pid :: pid in db.permissions && db.permissions[pid].controller == cid
                           && db.permissions[pid].role == Some(rid)
    ensures CreatePermission(db, st, cid, rid).0 == st
    ensures CreatePermission(db, st, cid, rid).1 in db.permissions
  {
  }

  /** Without one, the new permission has full access. */
  lemma CreatePermissionFresh(db: Store, st: Store, cid: Id, rid: Id)
    requires Staged(db, st)
    requires cid in st.statuses && rid in st.statuses
    requires forall pid :: pid in db.permissions ==>
      db.permissions[pid].controller != cid || db.permissions[pid].role != Some(rid)
    ensures CreatePermission(db, st, cid, rid) ==
      (InsertPermission(st, Permission(Some(CAN_ALL), cid, Some(rid))), st.next)
  {
  }

  /** The role holds a permission on a controller labelled `text`, with
      full access when `full` holds. */
  ghost predicate GrantsOn(st: Store, rid: Id, text: string, full: bool) {
    exists pid :: pid in st.permissions && st.permissions[pid].role == Some(rid)
      && st.permissions[pid].controller in st.statuses
      && st.statuses[st.permissions[pid].controller].name == text
      && (full ==> st.permissions[pid].access == Some(CAN_ALL))
  }

  /** Growing the store keeps such a permission. */
  lemma GrantsOnKept(a: Store, b: Store, rid: Id, text: string, full: bool)
    requires GrantsOn(a, rid, text, full) && Extends(a, b) && Keeps(a.permissions, b.permissions)
    ensures GrantsOn(b, rid, text, full)
  {
    var pid :| pid in a.permissions && a.permissions[pid].role == Some(rid)
      && a.permissions[pid].controller in a.statuses
      && a.statuses[a.permissions[pid].controller].name == text
      && (full ==> a.permissions[pid].access == Some(CAN_ALL));
    assert b.permissions[pid] == a.permissions[pid];
  }

  /** One iteration of the loop of `createSuperAdminAssignment`: find or
      create the controller, then find or create its permission for the
      role. */
  function GrantOne(db: Store, st: Store, rid: Id, text: string): (r: Store)
    requires Staged(db, st)
    requires rid in st.statuses
    ensures Grown(st, r)
    ensures r.assignments == st.assignments && r.users == st.users
    ensures Keeps(st.permissions, r.permissions)
    ensures GrantsOn(r, rid, text, rid !in db.statuses)
  {
    var (st1, cid) := CreateController(db, st, text);
    var (st2, pid) := CreatePermission(db, st1, cid, rid);
    assert rid !in db.statuses ==> st2.permissions[pid].access == Some(CAN_ALL) by {
      if rid !in db.statuses {
        forall x | x in db.permissions
          ensures db.permissions[x].role != Some(rid)
        {
          assert PermissionRefs(db, db.permissions[x]);
        }
        CreatePermissionFresh(db, st1, cid, rid);
      }
    }
    assert st2.statuses[st2.permissions[pid].controller].name == text;
    st2
  }

  /** The loop of `createSuperAdminAssignment` over the controller names. */
  function GrantAll(db: Store, st: Store, rid: Id, names: seq<string>): (r: Store)
    requires Staged(db, st)
    requires rid in st.statuses
    ensures Grown(st, r)
    ensures r.assignments == st.assignments && r.users == st.users
    ensures Keeps(st.permissions, r.permissions)
    decreases |names|
  {
    if names == [] then st
    else
      var st1 := GrantOne(db, st, rid, names[0]);
      KeepsTrans(db.permissions, st.permissions, st1.permissions);
      ExtendsTrans(db, st, st1);
      var r := GrantAll(db, st1, rid, names[1..]);
      ExtendsTrans(st, st1, r);
      KeepsTrans(st.permissions, st1.permissions, r.permissions);
      r
  }

  /** One step of the loop, unfolded. */
  lemma GrantAllStep(db: Store, st: Store, rid: Id, names: seq<string>)
    requires Staged(db, st)
    requires rid in st.statuses && names != []
    ensures Staged(db, GrantOne(db, st, rid, names[0]))
    ensures GrantAll(db, st, rid, names) == GrantAll(db, GrantOne(db, st, rid, names[0]), rid, names[1..])
  {
    var st1 := GrantOne(db, st, rid, names[0]);
    KeepsTrans(db.permissions, st.permissions, st1.permissions);
    ExtendsTrans(db, st, st1);
  }

  /** The permission the first iteration grants survives the rest of the
      loop. */
  lemma GrantAllHead(db: Store, st: Store, rid: Id, names: seq<string>)
    requires Staged(db, st)
    requires rid in st.statuses && names != []
    ensures GrantsOn(GrantAll(db, st, rid, names), rid, names[0], rid !in db.statuses)
  {
    var st1 := GrantOne(db, st, rid, names[0]);
    GrantAllStep(db, st, rid, names);
    GrantsOnKept(st1, GrantAll(db, st1, rid, names[1..]), rid, names[0], rid !in db.statuses);
  }

  /** After the loop, the role holds a permission on a controller of every
      name, with full access when the role is new. */
  lemma {:induction false} GrantAllGrants(db: Store, st: Store, rid: Id, names: seq<string>, k: nat)
    requires Staged(db, st)
    requires rid in st.statuses && k < |names|
    ensures GrantsOn(GrantAll(db, st, rid, names), rid, names[k], rid !in db.statuses)
    decreases |names|
  {
    if k == 0 {
      GrantAllHead(db, st, rid, names);
    } else {
      GrantAllStep(db, st, rid, names);
      GrantAllGrants(db, GrantOne(db, st, rid, names[0]), rid, names[1..], k - 1);
      assert names[1..][k - 1] == names[k];
    }
  }

  /** A new assignment set to the role and starting now. */
  function NewAssignment(st: Store, rid: Id, now: int): (res: (Store, Id))
    requires Valid(st) && rid in st.statuses
    ensures Grown(st, res.0) && res.1 == st.next && res.1 in res.0.assignments
    ensures res.0.assignments == st.assignments[st.next := Assignment(None, Some(rid), now, None)]
    ensures res.0.statuses == st.statuses[rid := st.statuses[rid].(kind := Some(ROLE_TYPE))]
    ensures res.0.permissions == st.permissions && res.0.users == st.users
  {
    var st1 := InsertAssignment(st, Assignment(None, None, now, None));
    var r := SetRole(st1, st.next, rid);
    assert r.assignments == st.assignments[st.next := Assignment(None, Some(rid), now, None)];
    (r, st.next)
  }

  /** A stored assignment restarted now. */
  function RestartAssignment(st: Store, aid: Id, now: int): (r: Store)
    requires Valid(st) && aid in st.assignments
    ensures Grown(st, r) && aid in r.assignments
    ensures r.assignments[aid] == st.assignments[aid].(startDate := now)
    ensures r.statuses == st.statuses && r.permissions == st.permissions && r.users == st.users
  {
    var r := st.(assignments := st.assignments[aid := st.assignments[aid].(startDate := now)]);
    assert AssignmentRefs(st, st.assignments[aid]);
    r
  }

  /** `createAssignment`: the stored assignment of the role or else a new
      one set to the role, in both cases starting now. */
  function CreateAssignment(db: Store, st: Store, rid: Id, now: int): (res: (Store, Id))
    requires Valid(db) && Valid(st) && Extends(db, st) && rid in st.statuses
    requires st.assignments == db.assignments
    ensures Grown(st, res.0) && res.1 in res.0.assignments
    ensures res.0.assignments[res.1].startDate == now && res.0.assignments[res.1].role == Some(rid)
    ensures res.0.permissions == st.permissions && res.0.users == st.users
  {
    match FindByRole(db, rid)
    case Some(aid) => (RestartAssignment(st, aid, now), aid)
    case None => NewAssignment(st, rid, now)
  }

  /** An assignment of the role already stored is restarted now, and is the
      only one that changes. */
  lemma CreateAssignmentReuses(db: Store, st: Store, rid: Id, now: int)
    requires Valid(db) && Valid(st) && Extends(db, st) && rid in st.statuses
    requires st.assignments == db.assignments
    requires exists aid :: aid in db.assignments && db.assignments[aid].role == Some(rid)
    ensures var (r, aid) := CreateAssignment(db, st, rid, now);
      && aid in db.assignments && db.assignments[aid].role == Some(rid)
      && r.assignments == db.assignments[aid := db.assignments[aid].(startDate := now)]
      && r.statuses == st.statuses
  {
  }

  /** Without one, a new assignment of the role, starting now, open-ended and
      not yet linked to a user, is the only one added; the role is forced to
      the role type. */
  lemma CreateAssignmentFresh(db: Store, st: Store, rid: Id, now: int)
    requires Valid(db) && Valid(st) && Extends(db, st) && rid in st.statuses
    requires st.assignments == db.assignments
    requires forall aid :: aid in db.assignments ==> db.assignments[aid].role != Some(rid)
    ensures var (r, aid) := CreateAssignment(db, st, rid, now);
      && aid == st.next
      && r.assignments == st.assignments[st.next := Assignment(None, Some(rid), now, None)]
      && r.statuses == st.statuses[rid := st.statuses[rid].(kind := Some(ROLE_TYPE))]
  {
  }

  /** `createSuperAdminAssignment`: role, permissions, then the assignment. */
  function CreateSuperAdminAssignment(db: Store, st: Store, now: int): (res: (Store, Id))
    requires Staged(db, st)
    requires st.assignments == db.assignments
    ensures Grown(st, res.0) && res.0.users == st.users
    ensures res.1 in res.0.assignments
    ensures var a := res.0.assignments[res.1];
      && a.startDate == now && a.role.Some? && a.role.value in res.0.statuses
      && res.0.statuses[a.role.value].name == ADMIN_LABEL
  {
    var (st1, rid) := CreateSuperAdminRole(db, st);
    ExtendsTrans(db, st, st1);
    assert Staged(db, st1);
    var st2 := GrantAll(db, st1, rid, CONTROLLER_LIST);
    ExtendsTrans(db, st1, st2);
    ExtendsTrans(st, st1, st2);
    var res := CreateAssignment(db, st2, rid, now);
    ExtendsTrans(st, st2, res.0);
    res
  }

  /** No stored assignment refers to an id at or above `next`. */
  lemma NoAssignmentOfFreshRole(db: Store, rid: Id)
    requires Valid(db) && rid >= db.next
    ensures forall x :: x in db.assignments ==> db.assignments[x].role != Some(rid)
  {
    forall x | x in db.assignments
      ensures db.assignments[x].role != Some(rid)
    {
      assert AssignmentRefs(db, db.assignments[x]);
    }
  }

  /** On a store without an admin status, the assignment is new, open-ended,
      not yet linked to a user, and its role is the new admin role. */
  lemma FreshSuperAdminAssignment(db: Store, st: Store, now: int)
    requires Staged(db, st)
    requires st.assignments == db.assignments
    requires forall id :: id in db.statuses ==> db.statuses[id].name != ADMIN_LABEL
    ensures var (r, aid) := CreateSuperAdminAssignment(db, st, now);
      && aid !in st.assignments
      && r.assignments == st.assignments[aid := Assignment(None, Some(st.next), now, None)]
      && r.statuses[st.next].kind == Some(ROLE_TYPE)
  {
    var (st1, rid) := CreateSuperAdminRole(db, st);
    ExtendsTrans(db, st, st1);
    assert Staged(db, st1);
    var st2 := GrantAll(db, st1, rid, CONTROLLER_LIST);
    ExtendsTrans(db, st1, st2);
    NoAssignmentOfFreshRole(db, rid);
    assert st2.assignments == db.assignments;
    CreateAssignmentFresh(db, st2, rid, now);
    var (st3, aid) := CreateAssignment(db, st2, rid, now);
    assert (st3, aid) == CreateSuperAdminAssignment(db, st, now);
    assert aid == st2.next && st2.next >= st.next;
  }

  /** On a store without an admin status, the new admin role holds a
      full-access permission on every registered controller. */
  lemma SuperAdminGrants(db: Store, st: Store, now: int, k: nat)
    requires Staged(db, st)
    requires st.assignments == db.assignments
    requires forall id :: id in db.statuses ==> db.statuses[id].name != ADMIN_LABEL
    requires k < |CONTROLLER_LIST|
    ensures GrantsOn(CreateSuperAdminAssignment(db, st, now).0, st.next, CONTROLLER_LIST[k], true)
  {
    var (st1, rid) := CreateSuperAdminRole(db, st);
    ExtendsTrans(db, st, st1);
    assert Staged(db, st1);
    var st2 := GrantAll(db, st1, rid, CONTROLLER_LIST);
    ExtendsTrans(db, st1, st2);
    GrantAllGrants(db, st1, rid, CONTROLLER_LIST, k);
    var st3 := CreateAssignment(db, st2, rid, now).0;
    GrantsOnKept(st2, st3, rid, CONTROLLER_LIST[k], true);
    assert st3 == CreateSuperAdminAssignment(db, st, now).0;
  }

  /** The registration form: whether it was submitted and valid, the CSRF
      check, and the fields the model reads. */
  datatype RegistrationForm = RegistrationForm(
    submittedValid: bool,
    csrfValid: bool,
    email: string,
    plainPassword: string,
    confirmPassword: string)

  /** The checks `register` makes before it stores anything. */
  predicate Accepted(form: RegistrationForm) {
    form.submittedValid && form.csrfValid && form.plainPassword == form.confirmPassword
  }

  /** The account `register` builds; the password hash and the hashed random
      secret key are inputs. */
  function Account(form: RegistrationForm, hashedPassword: string, hashedSecret: string): User {
    NewUser().(email := form.email, password := Some(hashedPassword), secretKey := Some(hashedSecret))
  }

  /** `register`: nothing is stored unless the form is valid, the CSRF token
      is valid and both passwords match; the first user also receives the
      super-admin assignment. Returns the store after the flush and the new
      user's id. */
  function Register(db: Store, form: RegistrationForm, hashedPassword: string, hashedSecret: string, now: int)
    : (res: (Store, Option<Id>))
    requires Valid(db)
    ensures res.1.None? <==> !Accepted(form)
    ensures res.1.None? ==> res.0 == db
    ensures res.1.Some? ==>
      && Valid(res.0) && Extends(db, res.0) && res.1.value == db.next
      && res.1.value !in db.users && res.1.value in res.0.users
      && res.0.users[res.1.value] == Account(form, hashedPassword, hashedSecret).(assignments := res.0.users[res.1.value].assignments)
    ensures res.1.Some? && !IsFirstUser(db) ==> res.0 == InsertUser(db, Account(form, hashedPassword, hashedSecret))
    ensures res.1.Some? && IsFirstUser(db) ==>
      var uid := res.1.value;
      |res.0.users[uid].assignments| == 1
      && var a := res.0.assignments[res.0.users[uid].assignments[0]];
         a.appUser == Some(uid) && a.startDate == now && a.role.Some? && a.role.value in res.0.statuses
         && res.0.statuses[a.role.value].name == ADMIN_LABEL
  {
    if !Accepted(form) then (db, None)
    else
      var uid: Id := db.next;
      var st := InsertUser(db, Account(form, hashedPassword, hashedSecret));
      if IsFirstUser(db) then
        var (st1, aid) := CreateSuperAdminAssignment(db, st, now);
        (Users.AddAssignment(st1, uid, aid), Some(uid))
      else
        (st, Some(uid))
  }

  /** A second update of the same key overrides the first. */
  lemma UpdateTwice<V>(m: map<Id, V>, k: Id, a: V, b: V)
    ensures m[k := a][k := b] == m[k := b]
  {
  }

  /** Storing the new account keeps the store consistent. */
  lemma AccountStaged(db: Store, acc: User)
    requires Valid(db) && acc.assignments == []
    ensures Staged(db, InsertUser(db, acc))
  {
  }

  /** The store `r` holds what the first registration provisions: the user
      `uid`, the admin role `rid`, one full-access permission of the role per
      registered controller, and a single new assignment linking the user to
      the role from `now` on, open-ended. */
  ghost predicate SuperAdminProvisioned(db: Store, r: Store, uid: Id, rid: Id, now: int) {
    && Valid(r) && uid in r.users
    && rid in r.statuses && r.statuses[rid].name == ADMIN_LABEL && r.statuses[rid].kind == Some(ROLE_TYPE)
    && (exists aid: Id :: aid !in db.assignments
          && r.assignments == db.assignments[aid := Assignment(Some(uid), Some(rid), now, None)])
    && forall k :: 0 <= k < |CONTROLLER_LIST| ==> GrantsOn(r, rid, CONTROLLER_LIST[k], true)
  }

  /** The first registration on a store without an admin status stores the
      user at the next id and provisions the super-admin role right after
      it. */
  lemma FirstRegistration(db: Store, form: RegistrationForm, hashedPassword: string, hashedSecret: string, now: int)
    requires Valid(db) && IsFirstUser(db) && Accepted(form)
    requires forall id :: id in db.statuses ==> db.statuses[id].name != ADMIN_LABEL
    ensures Register(db, form, hashedPassword, hashedSecret, now).1 == Some(db.next)
    ensures SuperAdminProvisioned(db, Register(db, form, hashedPassword, hashedSecret, now).0, db.next, db.next + 1, now)
  {
    var uid: Id := db.next;
    var acc := Account(form, hashedPassword, hashedSecret);
    var st := InsertUser(db, acc);
    AccountStaged(db, acc);
    FreshSuperAdminAssignment(db, st, now);
    var (st1, aid) := CreateSuperAdminAssignment(db, st, now);
    var a0 := Assignment(None, Some(st.next), now, None);
    assert st1.assignments == db.assignments[aid := a0];
    assert st1.users[uid] == acc;
    var r := Users.AddAssignment(st1, uid, aid);
    assert r.assignments == st1.assignments[aid := a0.(appUser := Some(uid))];
    UpdateTwice(db.assignments, aid, a0, Assignment(Some(uid), Some(st.next), now, None));
    assert (r, Some(uid)) == Register(db, form, hashedPassword, hashedSecret, now);
    forall k | 0 <= k < |CONTROLLER_LIST|
      ensures GrantsOn(r, st.next, CONTROLLER_LIST[k], true)
    {
      SuperAdminGrants(db, st, now, k);
      GrantsOnKept(st1, r, st.next, CONTROLLER_LIST[k], true);
    }
    assert SuperAdminProvisioned(db, r, uid, st.next, now);
  }

  /** The only stored assignment the first user can hold is the new one:
      every older one belongs to no user, as there was none. */
  lemma FirstUserOwnsOnlyNew(db: Store, r: Store, uid: Id, aid: Id, a: Assignment)
    requires Valid(db) && IsFirstUser(db) && aid !in db.assignments
    requires r.assignments == db.assignments[aid := a]
    ensures forall x :: x in r.assignments && r.assignments[x].appUser == Some(uid) ==> x == aid
  {
    forall x | x in db.assignments
      ensures db.assignments[x].appUser == None
    {
      assert AssignmentRefs(db, db.assignments[x]);
    }
  }

  /** An assignment of the user in the voter's window whose role holds a
      full-access permission on a registered controller grants every level
      on it, once the store is reloaded. */
  lemma GrantedThroughRole(r: Store, uid: Id, aid: Id, rid: Id, k: nat, level: int, t: int)
    requires Valid(r) && uid in r.users && aid in r.assignments
    requires r.assignments[aid].appUser == Some(uid) && r.assignments[aid].role == Some(rid)
    requires InVoterWindow(r.assignments[aid], t)
    requires k < |CONTROLLER_LIST| && GrantsOn(r, rid, CONTROLLER_LIST[k], true) && level <= CAN_ALL
    ensures Granted(Reload(r), Reload(r).users[uid], Request(LoweredRegistry()[k], level), t)
  {
    var st := Reload(r);
    var req := Request(LoweredRegistry()[k], level);
    assert AssignmentRefs(r, r.assignments[aid]);
    var pid :| pid in r.permissions && r.permissions[pid].role == Some(rid)
      && r.permissions[pid].controller in r.statuses
      && r.statuses[r.permissions[pid].controller].name == CONTROLLER_LIST[k]
      && r.permissions[pid].access == Some(CAN_ALL);
    assert pid in st.statuses[rid].permissions;
    var j :| 0 <= j < |st.statuses[rid].permissions| && st.statuses[rid].permissions[j] == pid;
    assert PermissionMatches(st, pid, req);
    assert RoleGrants(st, rid, req);
    assert AssignmentGrants(st, aid, req, t);
    assert aid in st.users[uid].assignments;
    var i :| 0 <= i < |st.users[uid].assignments| && st.users[uid].assignments[i] == aid;
  }

  /** When `aid` is the user's only assignment and lies outside the voter's
      window, nothing is granted after reloading. */
  lemma NothingGrantedOutside(r: Store, uid: Id, aid: Id, req: Request, t: int)
    requires Valid(r) && uid in r.users && aid in r.assignments
    requires forall x :: x in r.assignments && r.assignments[x].appUser == Some(uid) ==> x == aid
    requires !InVoterWindow(r.assignments[aid], t)
    ensures !Granted(Reload(r), Reload(r).users[uid], req, t)
  {
    var st := Reload(r);
    forall i | 0 <= i < |st.users[uid].assignments|
      ensures !AssignmentGrants(st, st.users[uid].assignments[i], req, t)
    {
      assert st.users[uid].assignments[i] in st.users[uid].assignments;
    }
  }

  /** The first user, registered at `now` on a store without an admin
      status, is granted every level on every registered controller at any
      later instant, and nothing at `now` or before. */
  lemma FirstUserIsSuperAdmin(db: Store, form: RegistrationForm, hashedPassword: string, hashedSecret: string,
                              now: int, k: nat, level: int, t: int)
    requires Valid(db) && IsFirstUser(db) && Accepted(form)
    requires forall id :: id in db.statuses ==> db.statuses[id].name != ADMIN_LABEL
    requires k < |CONTROLLER_LIST| && level <= CAN_ALL
    ensures var (r, u) := Register(db, form, hashedPassword, hashedSecret, now);
      && u.Some? && Valid(r) && u.value in r.users
      && (Granted(Reload(r), Reload(r).users[u.value], Request(LoweredRegistry()[k], level), t) <==> now < t)
  {
    FirstRegistration(db, form, hashedPassword, hashedSecret, now);
    var (r, u) := Register(db, form, hashedPassword, hashedSecret, now);
    var uid: Id := db.next;
    var rid: Id := db.next + 1;
    assert SuperAdminProvisioned(db, r, uid, rid, now);
    var aid: Id :| aid !in db.assignments
      && r.assignments == db.assignments[aid := Assignment(Some(uid), Some(rid), now, None)];
    if now < t {
      GrantedThroughRole(r, uid, aid, rid, k, level, t);
    } else {
      FirstUserOwnsOnlyNew(db, r, uid, aid, Assignment(Some(uid), Some(rid), now, None));
      NothingGrantedOutside(r, uid, aid, Request(LoweredRegistry()[k], level), t);
    }
  }

  /** The admin label gives the security role `ROLE_ADMIN`. */
  lemma AdminRoleName()
    ensures Users.RoleName(ADMIN_LABEL) == "ROLE_ADMIN"
  {
    var u := Upper(ADMIN_LABEL);
    assert u[0] == 'A' && u[1] == 'D' && u[2] == 'M' && u[3] == 'I' && u[4] == 'N';
    assert u == "ADMIN";
  }

  /** At `t` every active assignment of user `uid` has a stored role, and
      the user's role list holds `name`. */
  predicate RoleListed(st: Store, uid: Id, name: string, t: int)
    requires Valid(st) && uid in st.users
  {
    && Users.ActiveHaveRoles(st, st.users[uid].assignments, t)
    && name in Users.GetRoles(st, st.users[uid], t)
  }

  /** A user whose only assignment is active at `t` with a role labelled
      admin has the admin role name in the role list, once reloaded. */
  lemma AdminRoleListed(r: Store, uid: Id, aid: Id, rid: Id, t: int)
    requires Valid(r) && uid in r.users && aid in r.assignments
    requires forall x :: x in r.assignments && r.assignments[x].appUser == Some(uid) ==> x == aid
    requires r.assignments[aid].appUser == Some(uid) && r.assignments[aid].role == Some(rid)
    requires rid in r.statuses && r.statuses[rid].name == ADMIN_LABEL
    requires IsActive(r.assignments[aid], t)
    ensures RoleListed(Reload(r), uid, Users.RoleName(ADMIN_LABEL), t)
  {
    var st := Reload(r);
    var ids := st.users[uid].assignments;
    forall i | 0 <= i < |ids|
      ensures ids[i] == aid
    {
      assert ids[i] in ids;
    }
    assert st.assignments[aid].role == Some(rid) && rid in st.statuses;
    assert Users.ActiveHaveRoles(st, ids, t);
    assert aid in ids;
    var i :| 0 <= i < |ids| && ids[i] == aid;
    assert st.statuses[rid].name == ADMIN_LABEL;
  }

  /** From the instant of registration on, the first user's role list holds
      the admin role name, `ROLE_ADMIN` by `AdminRoleName`. */
  lemma FirstUserHasAdminRole(db: Store, r: Store, uid: Id, rid: Id, now: int, t: int)
    requires Valid(db) && IsFirstUser(db) && SuperAdminProvisioned(db, r, uid, rid, now)
    requires now <= t
    ensures RoleListed(Reload(r), uid, Users.RoleName(ADMIN_LABEL), t)
  {
    var a := Assignment(Some(uid), Some(rid), now, None);
    var aid: Id :| aid !in db.assignments && r.assignments == db.assignments[aid := a];
    FirstUserOwnsOnlyNew(db, r, uid, aid, a);
    AdminRoleListed(r, uid, aid, rid, t);
  }

  /** A user that no assignment refers to, with no stored role, reloads with
      an empty assignment list, is granted nothing and holds only
      `ROLE_USER`. */
  lemma UnassignedHasNoAccess(r: Store, uid: Id, req: Request, t: int)
    requires Valid(r) && uid in r.users && r.users[uid].roles == []
    requires forall x :: x in r.assignments ==> r.assignments[x].appUser != Some(uid)
    ensures var st := Reload(r);
      && st.users[uid].assignments == []
      && !Granted(st, st.users[uid], req, t)
      && forall x :: x in Users.GetRoles(st, st.users[uid], t) <==> x == Users.ROLE_USER
  {
    var ids := Reload(r).users[uid].assignments;
    assert multiset(ids) == multiset{};
  }

  /** A later registration stores only the account: after reloading, the
      user holds no assignment, is granted nothing, and has no role beyond
      `ROLE_USER`. */
  lemma LaterUserHasNoAccess(db: Store, form: RegistrationForm, hashedPassword: string, hashedSecret: string,
                             now: int, req: Request, t: int)
    requires Valid(db) && !IsFirstUser(db) && Accepted(form)
    ensures var (r, u) := Register(db, form, hashedPassword, hashedSecret, now);
      var st := Reload(r);
      && u.Some? && Valid(r) && u.value in st.users
      && st.users[u.value].assignments == []
      && !Granted(st, st.users[u.value], req, t)
      && forall x :: x in Users.GetRoles(st, st.users[u.value], t) <==> x == Users.ROLE_USER
  {
    var (r, u) := Register(db, form, hashedPassword, hashedSecret, now);
    var uid: Id := db.next;
    forall x | x in r.assignments
      ensures r.assignments[x].appUser != Some(uid)
    {
      assert AssignmentRefs(db, db.assignments[x]);
    }
    UnassignedHasNoAccess(r, uid, req, t);
  }

  /** What `save` reads from the request: whether the form was submitted
      and valid, the CSRF check, the secret key typed in, and both
      passwords. */
  datatype PasswordForm = PasswordForm(
    submittedValid: bool,
    csrfValid: bool,
    secretToken: Option<string>,
    plainPassword: string,
    confirmPassword: string)

  /** The user `save` binds the form to. `getIterator` counts every body
      parameter: a non-empty body is looked up by its registration email,
      which finds a stored user (`Existing`) or nothing (`Missing`, the null
      `findOneBy` returns); an empty body gets a new user (`Fresh`), and an
      empty body carries no form fields, so the form is not submitted. */
  datatype SaveTarget = Existing(uid: Id) | Missing | Fresh

  /** The page `save` answers with: the form again, with the error it adds
      if any, the redirect to the login page, or the Error PHP throws when
      the secret key is read from a null user. */
  datatype SaveOutcome = Rendered(error: Option<string>) | RedirectedToLogin | Crashed

  const INVALID_CSRF: string := "Invalid CSRF Token"
  const INVALID_SECRET: string := "Invalid Secret Key"
  const PASSWORD_MISMATCH: string := "Password and Confirm Password do not match"

  /** The two checks of `save` on a stored user, after the form was
      submitted and valid and the CSRF token accepted. */
  predicate SaveChecksPass(db: Store, uid: Id, form: PasswordForm)
    requires uid in db.users
  {
    && form.secretToken == db.users[uid].secretKey
    && form.plainPassword == form.confirmPassword
  }

  /** `save`: for a submitted, valid form, the CSRF token, then the secret
      key against the stored one, then the password confirmation are
      checked, each failure rendering the form with its error; when all
      pass the hashed password is stored. The hash is an input. */
  function Save(db: Store, target: SaveTarget, form: PasswordForm, hashedPassword: string): (res: (Store, SaveOutcome))
    requires Valid(db) && (target.Existing? ==> target.uid in db.users)
    ensures res.1.RedirectedToLogin? <==>
      target.Existing? && form.submittedValid && form.csrfValid && SaveChecksPass(db, target.uid, form)
    ensures res.1.Crashed? <==> target.Missing? && form.submittedValid && form.csrfValid
    ensures target.Fresh? ==> res == (db, Rendered(None))
    ensures !res.1.RedirectedToLogin? ==> res.0 == db
    ensures Valid(res.0)
  {
    if target.Fresh? || !form.submittedValid then (db, Rendered(None))
    else if !form.csrfValid then (db, Rendered(Some(INVALID_CSRF)))
    else
      match target
      case Missing => (db, Crashed)
      case Existing(uid) =>
        if form.secretToken != db.users[uid].secretKey then (db, Rendered(Some(INVALID_SECRET)))
        else if form.plainPassword != form.confirmPassword then (db, Rendered(Some(PASSWORD_MISMATCH)))
        else (db.(users := db.users[uid := db.users[uid].(password := Some(hashedPassword))]), RedirectedToLogin)
  }

  /** On a stored user `save` touches the password and nothing else: it is
      the new hash exactly when every check passed, and the old one
      otherwise. */
  lemma SaveChangesOnlyPassword(db: Store, uid: Id, form: PasswordForm, hashedPassword: string)
    requires Valid(db) && uid in db.users
    ensures var r := Save(db, Existing(uid), form, hashedPassword).0;
      && r.statuses == db.statuses && r.permissions == db.permissions && r.assignments == db.assignments
      && r.next == db.next && r.users.Keys == db.users.Keys
      && (forall x :: x in db.users && x != uid ==> r.users[x] == db.users[x])
      && r.users[uid] == db.users[uid].(password := r.users[uid].password)
      && (r.users[uid].password == Some(hashedPassword) || r.users[uid].password == db.users[uid].password)
      && (r.users[uid].password != db.users[uid].password ==>
            form.submittedValid && form.csrfValid && form.plainPassword == form.confirmPassword
            && form.secretToken == db.users[uid].secretKey)
  {
  }

  /** The checks run in order and the first failing one names the error;
      a request that names no stored user fails only past the CSRF check. */
  lemma SaveErrorOrder(db: Store, target: SaveTarget, form: PasswordForm, hashedPassword: string)
    requires Valid(db) && (target.Existing? ==> target.uid in db.users)
    ensures var out := Save(db, target, form, hashedPassword).1;
      && (out == Rendered(None) <==> target.Fresh? || !form.submittedValid)
      && (out == Rendered(Some(INVALID_CSRF)) <==> !target.Fresh? && form.submittedValid && !form.csrfValid)
      && (out == Rendered(Some(INVALID_SECRET)) <==>
            target.Existing? && form.submittedValid && form.csrfValid
            && form.secretToken != db.users[target.uid].secretKey)
      && (out == Rendered(Some(PASSWORD_MISMATCH)) <==>
            target.Existing? && form.submittedValid && form.csrfValid
            && form.secretToken == db.users[target.uid].secretKey
            && form.plainPassword != form.confirmPassword)
  {
    MessagesDistinct();
  }

  lemma MessagesDistinct()
    ensures INVALID_CSRF != INVALID_SECRET && INVALID_CSRF != PASSWORD_MISMATCH && INVALID_SECRET != PASSWORD_MISMATCH
  {
    assert INVALID_CSRF[8] != INVALID_SECRET[8];
    assert INVALID_CSRF[0] != PASSWORD_MISMATCH[0];
    assert INVALID_SECRET[0] != PASSWORD_MISMATCH[0];
  }

  /** Saving the same form twice stores what saving it once does: the
      secret key is never changed, so the second save passes the same
      checks and writes the same hash. */
  lemma SaveIdempotent(db: Store, uid: Id, form: PasswordForm, hashedPassword: string)
    requires Valid(db) && uid in db.users
    ensures var r := Save(db, Existing(uid), form, hashedPassword).0;
      uid in r.users && Save(r, Existing(uid), form, hashedPassword).0 == r
  {
    var r := Save(db, Existing(uid), form, hashedPassword).0;
    SaveChangesOnlyPassword(db, uid, form, hashedPassword);
    SaveChangesOnlyPassword(r, uid, form, hashedPassword);
  }

  /** A registered user who types the stored secret key and two equal
      passwords gets the password set. */
  lemma RegisteredUserCanSetPassword(db: Store, form: RegistrationForm, hashedPassword: string, hashedSecret: string,
                                     now: int, plain: string, newHash: string)
    requires Valid(db) && Accepted(form)
    ensures var (r, u) := Register(db, form, hashedPassword, hashedSecret, now);
      && u.Some? && u.value in r.users
      && var (r', out) := Save(r, Existing(u.value), PasswordForm(true, true, Some(hashedSecret), plain, plain), newHash);
         out == RedirectedToLogin && r'.users[u.value].password == Some(newHash)
  {
  }

  /** Only a stored user's password is ever set: a request that names no
      stored user stores nothing, whatever it sends, and with a submitted
      form and a valid token it ends in the Error, before any check of the
      secret key. */
  lemma UnknownEmailCrashes(db: Store, form: PasswordForm, hashedPassword: string)
    requires Valid(db)
    ensures Save(db, Missing, form, hashedPassword).0 == db
    ensures Save(db, Fresh, form, hashedPassword).0 == db
    ensures form.submittedValid && form.csrfValid ==> Save(db, Missing, form, hashedPassword).1 == Crashed
    ensures Save(db, Missing, form, hashedPassword).1 != RedirectedToLogin
  {
  }
}
