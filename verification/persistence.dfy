/** What the database gives back on the next request: the inverse
    collections (a status's permissions, a user's assignments) are not
    stored but rebuilt from the owning side of each association, and a
    `findOneBy` yields the first matching row. */
module Persistence {
  import opened Wrappers
  import opened Entities

  /** The ids in `[from, bound)` whose object satisfies `keep`, ascending. */
  function IdsWhere<T>(m: map<Id, T>, keep: T -> bool, from: nat, bound: nat): (r: seq<Id>)
    requires from <= bound
    ensures forall i :: 0 <= i < |r| ==> from <= r[i] < bound
    ensures forall id :: id in r <==> from <= id < bound && id in m && keep(m[id])
    ensures forall i, j :: 0 <= i < j < |r| ==> r[i] < r[j]
    decreases bound - from
  {
    if from == bound then []
    else
      var rest := IdsWhere(m, keep, from + 1, bound);
      if from in m && keep(m[from]) then
        assert forall j :: 0 < j <= |rest| ==> ([from] + rest)[j] == rest[j - 1];
        [from] + rest
      else rest
  }

  /** `findOneBy`: the least id in `[from, bound)` whose object satisfies
      `keep`, if any. */
  function FirstId<T>(m: map<Id, T>, keep: T -> bool, from: nat, bound: nat): (r: Option<Id>)
    requires from <= bound
    ensures r.Some? ==> from <= r.value < bound && r.value in m && keep(m[r.value])
    ensures r.Some? ==> forall id :: from <= id < r.value && id in m ==> !keep(m[id])
    ensures r.None? ==> forall id :: from <= id < bound && id in m ==> !keep(m[id])
    decreases bound - from
  {
    if from == bound then None
    else if from in m && keep(m[from]) then Some(from)
    else FirstId(m, keep, from + 1, bound)
  }

  /** The permissions whose role column points at `sid`. */
  function PermissionsOf(st: Store, sid: Id): seq<Id> {
    IdsWhere(st.permissions, (p: Permission) => p.role == Some(sid), 0, st.next)
  }

  /** The assignments whose user column points at `uid`. */
  function AssignmentsOf(st: Store, uid: Id): seq<Id> {
    IdsWhere(st.assignments, (a: Assignment) => a.appUser == Some(uid), 0, st.next)
  }

  /** Every status with its permission list rebuilt. */
  function ReloadStatuses(st: Store): (r: map<Id, Status>)
    ensures r.Keys == st.statuses.Keys
    ensures forall sid :: sid in r ==> r[sid] == st.statuses[sid].(permissions := PermissionsOf(st, sid))
  {
    map sid | sid in st.statuses :: st.statuses[sid].(permissions := PermissionsOf(st, sid))
  }

  /** Every user with its assignment list rebuilt. */
  function ReloadUsers(st: Store): (r: map<Id, User>)
    ensures r.Keys == st.users.Keys
    ensures forall uid :: uid in r ==> r[uid] == st.users[uid].(assignments := AssignmentsOf(st, uid))
  {
    map uid | uid in st.users :: st.users[uid].(assignments := AssignmentsOf(st, uid))
  }

  /** The rebuilt lists hold exactly the rows whose owning column points
      back. */
  lemma PermissionsOfMembers(st: Store, sid: Id)
    requires Valid(st)
    ensures forall pid :: pid in PermissionsOf(st, sid) <==> pid in st.permissions && st.permissions[pid].role == Some(sid)
  {
  }

  lemma AssignmentsOfMembers(st: Store, uid: Id)
    requires Valid(st)
    ensures forall aid :: aid in AssignmentsOf(st, uid) <==> aid in st.assignments && st.assignments[aid].appUser == Some(uid)
  {
  }

  /** Rebuilding the inverse lists keeps referential integrity. */
  lemma ReloadValid(st: Store)
    requires Valid(st)
    ensures Valid(Store(ReloadStatuses(st), st.permissions, st.assignments, ReloadUsers(st), st.next))
  {
    var r := Store(ReloadStatuses(st), st.permissions, st.assignments, ReloadUsers(st), st.next);
    forall sid, i | sid in r.statuses && 0 <= i < |r.statuses[sid].permissions|
      ensures r.statuses[sid].permissions[i] in r.permissions
    {
      PermissionsOfMembers(st, sid);
      assert r.statuses[sid].permissions[i] in PermissionsOf(st, sid);
    }
    forall pid | pid in r.permissions
      ensures PermissionRefs(r, r.permissions[pid])
    {
      assert PermissionRefs(st, st.permissions[pid]);
    }
    forall aid | aid in r.assignments
      ensures AssignmentRefs(r, r.assignments[aid])
    {
      assert AssignmentRefs(st, st.assignments[aid]);
    }
    forall uid | uid in r.users
      ensures UserRefs(r, r.users[uid])
    {
      AssignmentsOfMembers(st, uid);
      assert forall i :: 0 <= i < |r.users[uid].assignments| ==> r.users[uid].assignments[i] in AssignmentsOf(st, uid);
    }
  }

  /** The store as the next request loads it: every inverse collection is
      recomputed from the owning side; the rows themselves are unchanged. */
  function Reload(st: Store): (r: Store)
    requires Valid(st)
    ensures Valid(r)
    ensures r.permissions == st.permissions && r.assignments == st.assignments && r.next == st.next
    ensures r.statuses.Keys == st.statuses.Keys && r.users.Keys == st.users.Keys
    ensures forall sid :: sid in st.statuses ==>
      r.statuses[sid] == st.statuses[sid].(permissions := r.statuses[sid].permissions)
    ensures forall uid :: uid in st.users ==>
      r.users[uid] == st.users[uid].(assignments := r.users[uid].assignments)
    ensures forall sid, pid :: sid in st.statuses ==>
      (pid in r.statuses[sid].permissions <==> pid in st.permissions && st.permissions[pid].role == Some(sid))
    ensures forall uid, aid :: uid in st.users ==>
      (aid in r.users[uid].assignments <==> aid in st.assignments && st.assignments[aid].appUser == Some(uid))
    ensures forall sid, i, j :: sid in st.statuses && 0 <= i < j < |r.statuses[sid].permissions| ==>
      r.statuses[sid].permissions[i] < r.statuses[sid].permissions[j]
  {
    ReloadValid(st);
    var r := Store(ReloadStatuses(st), st.permissions, st.assignments, ReloadUsers(st), st.next);
    assert forall sid :: sid in st.statuses ==> r.statuses[sid].permissions == PermissionsOf(st, sid);
    forall sid | sid in st.statuses
      ensures forall pid :: pid in r.statuses[sid].permissions <==> pid in st.permissions && st.permissions[pid].role == Some(sid)
    {
      PermissionsOfMembers(st, sid);
    }
    forall uid | uid in st.users
      ensures forall aid :: aid in r.users[uid].assignments <==> aid in st.assignments && st.assignments[aid].appUser == Some(uid)
    {
      AssignmentsOfMembers(st, uid);
    }
    r
  }

  /** Loading twice is loading once. */
  lemma ReloadIdempotent(st: Store)
    requires Valid(st)
    ensures Reload(Reload(st)) == Reload(st)
  {
    var r := Reload(st);
    assert forall sid :: PermissionsOf(r, sid) == PermissionsOf(st, sid);
    assert forall uid :: AssignmentsOf(r, uid) == AssignmentsOf(st, uid);
    forall sid | sid in st.statuses
      ensures ReloadStatuses(r)[sid] == ReloadStatuses(st)[sid]
    {
    }
    assert ReloadStatuses(r) == ReloadStatuses(st);
    forall uid | uid in st.users
      ensures ReloadUsers(r)[uid] == ReloadUsers(st)[uid]
    {
    }
    assert ReloadUsers(r) == ReloadUsers(st);
  }

  /** Every row of `a` is in `b`, unchanged. */
  predicate Keeps<T(==)>(a: map<Id, T>, b: map<Id, T>) {
    forall id :: id in a ==> id in b && b[id] == a[id]
  }

  /** Every row of `a` is still there in `b` (ids are never reused), and
      every status keeps its label. */
  predicate Extends(a: Store, b: Store) {
    && a.statuses.Keys <= b.statuses.Keys
    && (forall id :: id in a.statuses ==> b.statuses[id].name == a.statuses[id].name)
    && a.permissions.Keys <= b.permissions.Keys
    && a.assignments.Keys <= b.assignments.Keys
    && a.users.Keys <= b.users.Keys
    && a.next <= b.next
  }

  /** `b` is a consistent store that grew from `a`. */
  predicate Grown(a: Store, b: Store) {
    Valid(b) && Extends(a, b)
  }

  /** Growth composes. */
  lemma ExtendsTrans(a: Store, b: Store, c: Store)
    requires Extends(a, b) && Extends(b, c)
    ensures Extends(a, c)
  {
  }

  /** Keeping rows composes. */
  lemma KeepsTrans<T>(a: map<Id, T>, b: map<Id, T>, c: map<Id, T>)
    requires Keeps(a, b) && Keeps(b, c)
    ensures Keeps(a, c)
  {
  }

  /** Replacing a status by one with the same permission list keeps the
      store consistent. */
  lemma UpdateStatusValid(st: Store, sid: Id, s: Status)
    requires Valid(st) && sid in st.statuses && s.permissions == st.statuses[sid].permissions
    ensures Valid(st.(statuses := st.statuses[sid := s]))
  {
    var r := st.(statuses := st.statuses[sid := s]);
    assert r.statuses.Keys == st.statuses.Keys;
    assert forall x :: x in st.statuses ==> r.statuses[x].permissions == st.statuses[x].permissions;
    assert Bounded(r);
  }

  /** `persist` of a new status: it gets the next id. */
  function InsertStatus(st: Store, s: Status): (r: Store)
    ensures r.statuses == st.statuses[st.next := s] && r.next == st.next + 1
    ensures r.permissions == st.permissions && r.assignments == st.assignments && r.users == st.users
    ensures Valid(st) && (forall i :: 0 <= i < |s.permissions| ==> s.permissions[i] in st.permissions) ==> Valid(r)
  {
    st.(statuses := st.statuses[st.next := s], next := st.next + 1)
  }

  /** `persist` of a new permission. */
  function InsertPermission(st: Store, p: Permission): (r: Store)
    ensures r.permissions == st.permissions[st.next := p] && r.next == st.next + 1
    ensures r.statuses == st.statuses && r.assignments == st.assignments && r.users == st.users
    ensures Valid(st) && PermissionRefs(st, p) ==> Valid(r)
  {
    st.(permissions := st.permissions[st.next := p], next := st.next + 1)
  }

  /** `persist` of a new assignment. */
  function InsertAssignment(st: Store, a: Assignment): (r: Store)
    ensures r.assignments == st.assignments[st.next := a] && r.next == st.next + 1
    ensures r.statuses == st.statuses && r.permissions == st.permissions && r.users == st.users
    ensures Valid(st) && AssignmentRefs(st, a) ==> Valid(r)
  {
    st.(assignments := st.assignments[st.next := a], next := st.next + 1)
  }

  /** `persist` of a new user. */
  function InsertUser(st: Store, u: User): (r: Store)
    ensures r.users == st.users[st.next := u] && r.next == st.next + 1
    ensures r.statuses == st.statuses && r.permissions == st.permissions && r.assignments == st.assignments
    ensures Valid(st) && UserRefs(st, u) ==> Valid(r)
  {
    st.(users := st.users[st.next := u], next := st.next + 1)
  }
}
