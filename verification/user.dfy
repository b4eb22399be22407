/** The User entity's derived views (e-mail, security roles, current
    assignments) and its hand-kept assignment list. */
module Users {
  import opened Wrappers
  import opened Strings
  import opened Collections
  import opened Entities
  import opened Assignments

  const ENCODED_AT: string := "&#64;"
  const ROLE_USER: string := "ROLE_USER"

  /** `getEmail`: the stored address with every HTML-encoded at sign
      decoded. */
  function GetEmail(u: User): string {
    ReplaceAll(u.email, ENCODED_AT, "@")
  }

  /** `getUserIdentifier`: the stored address, undecoded. */
  function GetUserIdentifier(u: User): string {
    u.email
  }

  lemma EncodedAtBorderless()
    ensures Borderless(ENCODED_AT)
  {
    FirstCharUniqueBorderless(ENCODED_AT);
  }

  /** The displayed address and the identifier coincide exactly when the
      stored address holds no encoded at sign; otherwise the displayed one
      is strictly shorter. */
  lemma EmailVersusIdentifier(u: User)
    ensures GetEmail(u) == GetUserIdentifier(u) <==> !Contains(u.email, ENCODED_AT)
    ensures |GetEmail(u)| <= |GetUserIdentifier(u)|
  {
    ReplaceShrinks(u.email, ENCODED_AT, "@");
    if !Contains(u.email, ENCODED_AT) {
      ReplaceAbsent(u.email, ENCODED_AT, "@");
    }
  }

  /** Each encoded at sign becomes `@`, and the text around it is decoded
      on its own. */
  lemma EmailDecodesEachOccurrence(a: string, b: string)
    ensures GetEmail(NewUser().(email := a + ENCODED_AT + b))
         == GetEmail(NewUser().(email := a)) + "@" + GetEmail(NewUser().(email := b))
  {
    EncodedAtBorderless();
    ReplaceSplits(a, ENCODED_AT, b, "@");
  }

  /** The security role a role label gives: `ROLE_` and the label upper-cased. */
  function RoleName(text: string): string {
    "ROLE_" + Upper(text)
  }

  /** Every assignment in `ids` that is active at `now` has a stored role. */
  predicate ActiveHaveRoles(st: Store, ids: seq<Id>, now: int)
    requires forall i :: 0 <= i < |ids| ==> ids[i] in st.assignments
  {
    forall i :: 0 <= i < |ids| && IsActive(st.assignments[ids[i]], now) ==>
      st.assignments[ids[i]].role.Some? && st.assignments[ids[i]].role.value in st.statuses
  }

  /** The role names of the active assignments among `ids`, in order. */
  function ActiveRoleNames(st: Store, ids: seq<Id>, now: int): (names: seq<string>)
    requires forall i :: 0 <= i < |ids| ==> ids[i] in st.assignments
    requires ActiveHaveRoles(st, ids, now)
    ensures forall x :: x in names <==> (exists i :: 0 <= i < |ids| && IsActive(st.assignments[ids[i]], now)
                                                 && x == RoleName(st.statuses[st.assignments[ids[i]].role.value].name))
    decreases |ids|
  {
    if |ids| == 0 then []
    else
      var prev := ActiveRoleNames(st, ids[..|ids| - 1], now);
      var a := st.assignments[ids[|ids| - 1]];
      if IsActive(a, now) then prev + [RoleName(st.statuses[a.role.value].name)] else prev
  }

  /** `getRoles`: the stored roles, `ROLE_USER`, and the role name of every
      started and not ended assignment, each once, first occurrence kept. */
  function GetRoles(st: Store, u: User, now: int): (roles: seq<string>)
    requires UserRefs(st, u) && ActiveHaveRoles(st, u.assignments, now)
    ensures ROLE_USER in roles
    ensures NoDuplicates(roles)
    ensures forall x :: x in roles <==>
      (|| x in u.roles
       || x == ROLE_USER
       || exists i :: 0 <= i < |u.assignments| && IsActive(st.assignments[u.assignments[i]], now)
                      && x == RoleName(st.statuses[st.assignments[u.assignments[i]].role.value].name))
  {
    Dedupe(u.roles + [ROLE_USER] + ActiveRoleNames(st, u.assignments, now))
  }

  /** The role list does not look at whether the role is active. */
  lemma GetRolesIgnoresActiveFlag(st: Store, u: User, now: int, sid: Id, flag: bool)
    requires UserRefs(st, u) && ActiveHaveRoles(st, u.assignments, now) && sid in st.statuses
    ensures var st' := st.(statuses := st.statuses[sid := st.statuses[sid].(active := flag)]);
      UserRefs(st', u) && ActiveHaveRoles(st', u.assignments, now)
      && GetRoles(st', u, now) == GetRoles(st, u, now)
  {
    var st' := st.(statuses := st.statuses[sid := st.statuses[sid].(active := flag)]);
    assert forall x :: x in st.statuses ==> st'.statuses[x].name == st.statuses[x].name;
    NamesIgnoreActiveFlag(st, st', u.assignments, now);
  }

  lemma {:induction false} NamesIgnoreActiveFlag(st: Store, st': Store, ids: seq<Id>, now: int)
    requires st'.assignments == st.assignments && st'.statuses.Keys == st.statuses.Keys
    requires forall x :: x in st.statuses ==> st'.statuses[x].name == st.statuses[x].name
    requires forall i :: 0 <= i < |ids| ==> ids[i] in st.assignments
    requires ActiveHaveRoles(st, ids, now)
    ensures ActiveHaveRoles(st', ids, now)
    ensures ActiveRoleNames(st', ids, now) == ActiveRoleNames(st, ids, now)
    decreases |ids|
  {
    if |ids| > 0 {
      NamesIgnoreActiveFlag(st, st', ids[..|ids| - 1], now);
    }
  }

  /** The label of an assignment's role. */
  function RoleLabel(st: Store, aid: Id): string
    requires aid in st.assignments
    requires st.assignments[aid].role.Some? && st.assignments[aid].role.value in st.statuses
  {
    st.statuses[st.assignments[aid].role.value].name
  }

  /** Every assignment in `ids` has a stored role (getCurrentAssignments
      reads the role of each before any other test). */
  predicate AllHaveRoles(st: Store, ids: seq<Id>) {
    forall i :: 0 <= i < |ids| ==>
      (ids[i] in st.assignments && st.assignments[ids[i]].role.Some? && st.assignments[ids[i]].role.value in st.statuses)
  }

  /** Active role and active assignment. */
  predicate Eligible(st: Store, aid: Id, now: int)
    requires aid in st.assignments
    requires st.assignments[aid].role.Some? && st.assignments[aid].role.value in st.statuses
  {
    st.statuses[st.assignments[aid].role.value].active && IsActive(st.assignments[aid], now)
  }

  /** The reference definition: position `i` is the first eligible one with
      its label. */
  predicate FirstOfLabel(st: Store, ids: seq<Id>, i: nat, now: int)
    requires AllHaveRoles(st, ids) && i < |ids|
  {
    Eligible(st, ids[i], now)
    && forall j :: 0 <= j < i && Eligible(st, ids[j], now) ==> RoleLabel(st, ids[j]) != RoleLabel(st, ids[i])
  }

  /** The labels of the picked positions, in order. */
  function PickedLabels(st: Store, ids: seq<Id>, picks: seq<nat>): (labels: seq<string>)
    requires AllHaveRoles(st, ids)
    requires forall k :: 0 <= k < |picks| ==> picks[k] < |ids|
    ensures |labels| == |picks|
    ensures forall k :: 0 <= k < |picks| ==> labels[k] == RoleLabel(st, ids[picks[k]])
  {
    seq(|picks|, k requires 0 <= k < |picks| => RoleLabel(st, ids[picks[k]]))
  }

  /** The `foreach` of `getCurrentAssignments` over the first `n` positions:
      the positions kept, in order, with the labels seen so far. */
  function Picks(st: Store, ids: seq<Id>, n: nat, now: int): (picks: seq<nat>)
    requires AllHaveRoles(st, ids) && n <= |ids|
    ensures forall k :: 0 <= k < |picks| ==> picks[k] < n
    ensures forall k, l :: 0 <= k < l < |picks| ==> picks[k] < picks[l]
    ensures forall i :: 0 <= i < n ==> (i in picks <==> FirstOfLabel(st, ids, i, now))
    decreases n, 1
  {
    if n == 0 then []
    else
      var prev := Picks(st, ids, n - 1, now);
      var i := n - 1;
      if Eligible(st, ids[i], now) && RoleLabel(st, ids[i]) !in PickedLabels(st, ids, prev) then
        assert FirstOfLabel(st, ids, i, now) by {
          forall j | 0 <= j < i && Eligible(st, ids[j], now)
            ensures RoleLabel(st, ids[j]) != RoleLabel(st, ids[i])
          {
            FirstPickedSharesLabel(st, ids, n - 1, j, now);
          }
        }
        prev + [i]
      else
        assert !FirstOfLabel(st, ids, i, now) by {
          if Eligible(st, ids[i], now) {
            var k :| 0 <= k < |prev| && PickedLabels(st, ids, prev)[k] == RoleLabel(st, ids[i]);
            assert prev[k] in prev;
          }
        }
        prev
  }

  /** Every eligible position among the first `n` shares its label with a
      picked position. */
  lemma {:induction false} FirstPickedSharesLabel(st: Store, ids: seq<Id>, n: nat, j: nat, now: int)
    requires AllHaveRoles(st, ids) && j < n <= |ids| && Eligible(st, ids[j], now)
    ensures exists k :: (0 <= k < |Picks(st, ids, n, now)|
                         && RoleLabel(st, ids[Picks(st, ids, n, now)[k]]) == RoleLabel(st, ids[j]))
    decreases n, 2, j
  {
    var picks := Picks(st, ids, n, now);
    if FirstOfLabel(st, ids, j, now) {
      assert j in picks;
      var k :| 0 <= k < |picks| && picks[k] == j;
    } else {
      var j' :| 0 <= j' < j && Eligible(st, ids[j'], now) && RoleLabel(st, ids[j']) == RoleLabel(st, ids[j]);
      FirstPickedSharesLabel(st, ids, n, j', now);
    }
  }

  /** The selection of the picked positions. */
  function Select(ids: seq<Id>, picks: seq<nat>): (r: seq<Id>)
    requires forall k :: 0 <= k < |picks| ==> picks[k] < |ids|
    ensures |r| == |picks| && forall k :: 0 <= k < |picks| ==> r[k] == ids[picks[k]]
  {
    seq(|picks|, k requires 0 <= k < |picks| => ids[picks[k]])
  }

  /** Picked positions are eligible, carry distinct labels, and cover
      every eligible label. */
  lemma PicksSound(st: Store, ids: seq<Id>, now: int)
    requires AllHaveRoles(st, ids)
    ensures var current := Select(ids, Picks(st, ids, |ids|, now));
      && (forall k :: 0 <= k < |current| ==> current[k] in ids && Eligible(st, current[k], now))
      && (forall k, l :: 0 <= k < l < |current| ==> RoleLabel(st, current[k]) != RoleLabel(st, current[l]))
  {
    var picks := Picks(st, ids, |ids|, now);
    var current := Select(ids, picks);
    forall k, l | 0 <= k < l < |picks|
      ensures RoleLabel(st, current[k]) != RoleLabel(st, current[l])
    {
      assert picks[k] in picks && picks[l] in picks;
      assert FirstOfLabel(st, ids, picks[k], now) && FirstOfLabel(st, ids, picks[l], now);
    }
    forall k | 0 <= k < |picks|
      ensures current[k] in ids && Eligible(st, current[k], now)
    {
      assert picks[k] in picks && FirstOfLabel(st, ids, picks[k], now);
    }
  }

  lemma PicksComplete(st: Store, ids: seq<Id>, now: int)
    requires AllHaveRoles(st, ids)
    ensures var current := Select(ids, Picks(st, ids, |ids|, now));
      forall i :: 0 <= i < |ids| && Eligible(st, ids[i], now) ==>
        exists k :: 0 <= k < |current| && RoleLabel(st, current[k]) == RoleLabel(st, ids[i])
  {
    var picks := Picks(st, ids, |ids|, now);
    var current := Select(ids, picks);
    forall i | 0 <= i < |ids| && Eligible(st, ids[i], now)
      ensures exists k :: 0 <= k < |current| && RoleLabel(st, current[k]) == RoleLabel(st, ids[i])
    {
      FirstPickedSharesLabel(st, ids, |ids|, i, now);
      var k :| 0 <= k < |picks| && RoleLabel(st, ids[picks[k]]) == RoleLabel(st, ids[i]);
      assert current[k] == ids[picks[k]];
    }
  }

  /** `getCurrentAssignments`: the active assignments with an active role,
      keeping the first one per role label. */
  function GetCurrentAssignments(st: Store, u: User, now: int): (current: seq<Id>)
    requires AllHaveRoles(st, u.assignments)
    ensures forall k :: 0 <= k < |current| ==>
      (current[k] in u.assignments && current[k] in st.assignments && Eligible(st, current[k], now))
    ensures forall k, l :: 0 <= k < l < |current| ==> RoleLabel(st, current[k]) != RoleLabel(st, current[l])
    ensures forall i :: 0 <= i < |u.assignments| && Eligible(st, u.assignments[i], now) ==>
      exists k :: 0 <= k < |current| && RoleLabel(st, current[k]) == RoleLabel(st, u.assignments[i])
  {
    PicksSound(st, u.assignments, now);
    PicksComplete(st, u.assignments, now);
    Select(u.assignments, Picks(st, u.assignments, |u.assignments|, now))
  }

  /** The result is the order-preserving selection of exactly the positions
      that are the first eligible ones with their label. */
  lemma CurrentAssignmentsAreFirstOfLabel(st: Store, u: User, now: int)
    requires AllHaveRoles(st, u.assignments)
    ensures var picks := Picks(st, u.assignments, |u.assignments|, now);
      && GetCurrentAssignments(st, u, now) == Select(u.assignments, picks)
      && (forall k, l :: 0 <= k < l < |picks| ==> picks[k] < picks[l])
      && (forall i :: 0 <= i < |u.assignments| ==> (i in picks <==> FirstOfLabel(st, u.assignments, i, now)))
  {
  }

  /** The in-memory assignment lists agree with the owning side. */
  ghost predicate Synced(st: Store) {
    forall uid :: uid in st.users ==>
      NoDuplicates(st.users[uid].assignments)
      && forall aid :: aid in st.users[uid].assignments <==>
           aid in st.assignments && st.assignments[aid].appUser == Some(uid)
  }

  /** `addAssignment`: appends the assignment unless present and points it
      back at the user. */
  function AddAssignment(st: Store, uid: Id, aid: Id): (r: Store)
    requires uid in st.users && aid in st.assignments
    ensures r.users.Keys == st.users.Keys && r.assignments.Keys == st.assignments.Keys
    ensures aid in r.users[uid].assignments
    ensures aid in st.users[uid].assignments ==> r == st
    ensures aid !in st.users[uid].assignments ==>
      r.users[uid].assignments == st.users[uid].assignments + [aid]
      && r.assignments == st.assignments[aid := st.assignments[aid].(appUser := Some(uid))]
    ensures r.users[uid] == st.users[uid].(assignments := r.users[uid].assignments)
    ensures forall x :: x in st.users && x != uid ==> r.users[x] == st.users[x]
    ensures forall x :: x in st.assignments && x != aid ==> r.assignments[x] == st.assignments[x]
    ensures r.statuses == st.statuses && r.permissions == st.permissions && r.next == st.next
    ensures Valid(st) ==> Valid(r)
  {
    var u := st.users[uid];
    if aid in u.assignments then st
    else
      st.(users := st.users[uid := u.(assignments := u.assignments + [aid])],
          assignments := st.assignments[aid := st.assignments[aid].(appUser := Some(uid))])
  }

  /** Adding an assignment twice is adding it once. */
  lemma AddAssignmentIdempotent(st: Store, uid: Id, aid: Id)
    requires uid in st.users && aid in st.assignments
    ensures AddAssignment(AddAssignment(st, uid, aid), uid, aid) == AddAssignment(st, uid, aid)
  {
  }

  /** Adding a free assignment keeps the lists in sync with the owning side. */
  lemma AddAssignmentKeepsSync(st: Store, uid: Id, aid: Id)
    requires Synced(st) && uid in st.users && aid in st.assignments
    requires st.assignments[aid].appUser.None? || st.assignments[aid].appUser == Some(uid)
    ensures Synced(AddAssignment(st, uid, aid))
  {
    var r := AddAssignment(st, uid, aid);
    forall x | x in r.users
      ensures NoDuplicates(r.users[x].assignments)
      ensures forall a :: a in r.users[x].assignments <==> a in r.assignments && r.assignments[a].appUser == Some(x)
    {
      if x != uid && aid !in st.users[uid].assignments {
        assert aid !in st.users[x].assignments;
      }
    }
  }

  /** `removeAssignment`: drops the first occurrence and, when something was
      dropped and the assignment points at this user, clears that reference. */
  function RemoveAssignment(st: Store, uid: Id, aid: Id): (r: Store)
    requires uid in st.users && aid in st.assignments
    ensures r.users.Keys == st.users.Keys && r.assignments.Keys == st.assignments.Keys
    ensures r.users[uid].assignments == RemoveFirst(st.users[uid].assignments, aid)
    ensures r.users[uid] == st.users[uid].(assignments := r.users[uid].assignments)
    ensures r.assignments[aid].appUser ==
      if aid in st.users[uid].assignments && st.assignments[aid].appUser == Some(uid) then None
      else st.assignments[aid].appUser
    ensures r.assignments[aid] == st.assignments[aid].(appUser := r.assignments[aid].appUser)
    ensures forall x :: x in st.users && x != uid ==> r.users[x] == st.users[x]
    ensures forall x :: x in st.assignments && x != aid ==> r.assignments[x] == st.assignments[x]
    ensures r.statuses == st.statuses && r.permissions == st.permissions && r.next == st.next
  {
    var u := st.users[uid];
    if aid in u.assignments then
      var st' := st.(users := st.users[uid := u.(assignments := RemoveFirst(u.assignments, aid))]);
      if st.assignments[aid].appUser == Some(uid) then
        st'.(assignments := st.assignments[aid := st.assignments[aid].(appUser := None)])
      else
        st'
    else
      st
  }

  /** Removal keeps the lists in sync, so the assignment stays detached
      after a reload. */
  lemma RemoveAssignmentKeepsSync(st: Store, uid: Id, aid: Id)
    requires Synced(st) && uid in st.users && aid in st.assignments
    ensures Synced(RemoveAssignment(st, uid, aid))
    ensures aid !in RemoveAssignment(st, uid, aid).users[uid].assignments
  {
    var r := RemoveAssignment(st, uid, aid);
    RemoveFirstDistinct(st.users[uid].assignments, aid);
    forall x | x in r.users
      ensures NoDuplicates(r.users[x].assignments)
      ensures forall a :: a in r.users[x].assignments <==> a in r.assignments && r.assignments[a].appUser == Some(x)
    {
    }
  }
}
