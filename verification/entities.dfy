/** The entities of the access-control core as plain records, and the store
    that holds them. Every object reference of the original becomes an `Id`
    into one of the store's maps, so object identity is id equality. */
module Entities {
  import opened Wrappers

  type Id = nat

  /** Type tags of the polymorphic Status entity. */
  const ROLE_TYPE: int := 1
  const CONTROLLER_TYPE: int := 2

  /** The level (`access`) a role (`role`) has on a controller
      (`controller`). Every construction site sets the controller, so it is
      never null here; the role may be. */
  datatype Permission = Permission(access: Option<int>, controller: Id, role: Option<Id>)

  /** A named object: a role when `kind` is ROLE_TYPE, a controller when it
      is CONTROLLER_TYPE. `name` is the Status label. `permissions` is the in-memory side of the
      Permission.role association, kept by hand by addPermission and
      removePermission. */
  datatype Status = Status(
    name: string,
    kind: Option<int>,
    color: string,
    icon: string,
    active: bool,
    permissions: seq<Id>)

  /** A grant of `role` to `appUser` over the window that opens at
      `startDate` and closes at `endDate`, if any. */
  datatype Assignment = Assignment(
    appUser: Option<Id>,
    role: Option<Id>,
    startDate: int,
    endDate: Option<int>)

  /** An account. `roles` is the stored role list; `assignments` is the
      in-memory side of the Assignment.appUser association. */
  datatype User = User(
    email: string,
    roles: seq<string>,
    password: Option<string>,
    lastName: string,
    firstName: string,
    phone: string,
    profilePicture: string,
    assignments: seq<Id>,
    secretKey: Option<string>)

  /** All objects in play, by id; `next` is the next unused id. */
  datatype Store = Store(
    statuses: map<Id, Status>,
    permissions: map<Id, Permission>,
    assignments: map<Id, Assignment>,
    users: map<Id, User>,
    next: nat)

  /** A Status as its constructor leaves it: active, black, no icon, no
      permissions, and no label (empty) or type yet. */
  function NewStatus(): Status {
    Status("", None, "000000", "", true, [])
  }

  /** A User as its constructor leaves it: no assignments, empty names,
      phone and picture. */
  function NewUser(): User {
    User("", [], None, "", "", "", "", [], None)
  }

  predicate PermissionRefs(st: Store, p: Permission) {
    p.controller in st.statuses && (p.role.Some? ==> p.role.value in st.statuses)
  }

  predicate AssignmentRefs(st: Store, a: Assignment) {
    (a.role.Some? ==> a.role.value in st.statuses)
    && (a.appUser.Some? ==> a.appUser.value in st.users)
  }

  /** Every id of a user's assignment list names a stored assignment. */
  predicate UserRefs(st: Store, u: User) {
    forall i :: 0 <= i < |u.assignments| ==> u.assignments[i] in st.assignments
  }

  /** Referential integrity: every stored id is below `next`, and every id
      the objects hold names a stored object. */
  predicate Valid(st: Store) {
    Bounded(st) && Linked(st)
  }

  /** Every stored id is below `next`, the id the next insert gets. */
  predicate Bounded(st: Store) {
    && (forall id :: id in st.statuses ==> id < st.next)
    && (forall id :: id in st.permissions ==> id < st.next)
    && (forall id :: id in st.assignments ==> id < st.next)
    && (forall id :: id in st.users ==> id < st.next)
  }

  /** Every id an object holds names a stored object. */
  predicate Linked(st: Store) {
    && (forall sid, i :: sid in st.statuses && 0 <= i < |st.statuses[sid].permissions|
          ==> st.statuses[sid].permissions[i] in st.permissions)
    && (forall pid :: pid in st.permissions ==> PermissionRefs(st, st.permissions[pid]))
    && (forall aid :: aid in st.assignments ==> AssignmentRefs(st, st.assignments[aid]))
    && (forall uid :: uid in st.users ==> UserRefs(st, st.users[uid]))
  }

  /** The database's NOT NULL join columns: a stored assignment has a user
      and a role, a stored permission has a role. */
  predicate NotNullColumns(st: Store) {
    && (forall aid :: aid in st.assignments ==>
          st.assignments[aid].appUser.Some? && st.assignments[aid].role.Some?)
    && (forall pid :: pid in st.permissions ==> st.permissions[pid].role.Some?)
  }
}
