/** The Status entity's own behaviour: constructor defaults, the colour
    helper, the sortable attributes, and the hand-kept permission list. */
module Statuses {
  import opened Wrappers
  import opened Strings
  import opened Collections
  import opened Entities
  import opened Persistence
  import opened RequestAnalyzer

  /** The attributes a status list may be sorted on. */
  const ATTRIBUTES: seq<string> := ["label", "active"]

  /** A fresh status is active, black, icon-less and holds no permission. */
  lemma ConstructorDefaults()
    ensures NewStatus().active && NewStatus().color == "000000" && NewStatus().icon == ""
    ensures NewStatus().permissions == [] && NewStatus().kind.None?
  {
  }

  /** `getFullColor`: the stored colour behind a hash sign. */
  function FullColor(s: Status): (r: string)
    ensures |r| == |s.color| + 1 && r[0] == '#' && r[1..] == s.color
  {
    "#" + s.color
  }

  /** A fresh status shows as black, and two statuses show the same full
      colour exactly when they store the same colour. */
  lemma FullColorInjective(a: Status, b: Status)
    ensures FullColor(NewStatus()) == "#000000"
    ensures FullColor(a) == FullColor(b) <==> a.color == b.color
  {
    if FullColor(a) == FullColor(b) {
      assert a.color == FullColor(a)[1..] == FullColor(b)[1..] == b.color;
    }
  }

  /** `__toString`: the label. */
  function ToString(s: Status): string {
    s.name
  }

  /** Status lists sort on the label: `label_up` orders by label,
      descending. */
  lemma SortByLabel()
    ensures GetSortParams(Some("label_up"), Some(ATTRIBUTES)) == SortParams(map["label" := "DESC"], None)
  {
    assert "label_up" == "label" + [SORT_SEPARATOR] + "up" + "";
    SortAccepted("label_up", "label", "up", "", ATTRIBUTES);
  }

  /** and on the active flag: `active_down` orders by it, ascending. */
  lemma SortByActive()
    ensures GetSortParams(Some("active_down"), Some(ATTRIBUTES)) == SortParams(map["active" := "ASC"], None)
  {
    assert "active_down" == "active" + [SORT_SEPARATOR] + "down" + "";
    SortAccepted("active_down", "active", "down", "", ATTRIBUTES);
  }

  /** but not on the colour, which `getAttributes` does not list. */
  lemma SortByColorRefused()
    ensures GetSortParams(Some("color_down"), Some(ATTRIBUTES)) == SortParams(map[], Some(BadAttribute("color")))
  {
    assert "color_down" == "color" + [SORT_SEPARATOR] + "down" + "";
    SortRequestTokens("color_down", "color", "down", "");
    var tokens := SortTokens("color_down");
    assert tokens[0] == "color" && tokens[1] == "down" by {
      assert tokens[..2][0] == tokens[0] && tokens[..2][1] == tokens[1];
    }
    assert "color" !in ATTRIBUTES;
    SortBadAttribute("color_down", Some(ATTRIBUTES));
  }

  /** The in-memory permission lists agree with the owning side: each list
      is duplicate-free and holds exactly the permissions whose role is the
      status. This is what a reload produces. */
  ghost predicate Synced(st: Store) {
    forall sid :: sid in st.statuses ==> SyncedAt(st, sid)
  }

  /** The list of status `sid` agrees with the owning side. */
  ghost predicate SyncedAt(st: Store, sid: Id)
    requires sid in st.statuses
  {
    NoDuplicates(st.statuses[sid].permissions)
    && forall pid :: pid in st.statuses[sid].permissions <==>
         pid in st.permissions && st.permissions[pid].role == Some(sid)
  }

  /** A synced store's lists have the members a reload gives them. */
  lemma SyncedAgreesWithReload(st: Store, sid: Id, pid: Id)
    requires Valid(st) && Synced(st) && sid in st.statuses
    ensures pid in st.statuses[sid].permissions <==> pid in Reload(st).statuses[sid].permissions
  {
  }

  /** `addPermission`: appends the permission unless present, then points
      its role (for a role) or its controller (for a controller) at the
      status. */
  function AddPermission(st: Store, sid: Id, pid: Id): (r: Store)
    requires sid in st.statuses && pid in st.permissions
    ensures r.statuses.Keys == st.statuses.Keys && r.permissions.Keys == st.permissions.Keys
    ensures pid in r.statuses[sid].permissions
    ensures pid in st.statuses[sid].permissions ==> r == st
    ensures pid !in st.statuses[sid].permissions ==>
      r.statuses[sid].permissions == st.statuses[sid].permissions + [pid]
    ensures r.statuses[sid] == st.statuses[sid].(permissions := r.statuses[sid].permissions)
    ensures pid !in st.statuses[sid].permissions && st.statuses[sid].kind == Some(ROLE_TYPE) ==>
      r.permissions[pid] == st.permissions[pid].(role := Some(sid))
    ensures pid !in st.statuses[sid].permissions && st.statuses[sid].kind == Some(CONTROLLER_TYPE) ==>
      r.permissions[pid] == st.permissions[pid].(controller := sid)
    ensures st.statuses[sid].kind != Some(ROLE_TYPE) && st.statuses[sid].kind != Some(CONTROLLER_TYPE) ==>
      r.permissions == st.permissions
    ensures forall x :: x in st.statuses && x != sid ==> r.statuses[x] == st.statuses[x]
    ensures forall x :: x in st.permissions && x != pid ==> r.permissions[x] == st.permissions[x]
    ensures r.assignments == st.assignments && r.users == st.users && r.next == st.next
    ensures NoDuplicates(st.statuses[sid].permissions) ==> NoDuplicates(r.statuses[sid].permissions)
  {
    var s := st.statuses[sid];
    if pid in s.permissions then st
    else
      var p := st.permissions[pid];
      var p' := if s.kind == Some(ROLE_TYPE) then p.(role := Some(sid))
                else if s.kind == Some(CONTROLLER_TYPE) then p.(controller := sid)
                else p;
      st.(statuses := st.statuses[sid := s.(permissions := s.permissions + [pid])],
          permissions := st.permissions[pid := p'])
  }

  /** Adding a permission keeps the store consistent. */
  lemma AddPermissionValid(st: Store, sid: Id, pid: Id)
    requires Valid(st) && sid in st.statuses && pid in st.permissions
    ensures Valid(AddPermission(st, sid, pid))
  {
    var r := AddPermission(st, sid, pid);
    assert Bounded(r);
    assert Linked(r);
  }

  /** Adding a permission twice is adding it once. */
  lemma AddPermissionIdempotent(st: Store, sid: Id, pid: Id)
    requires sid in st.statuses && pid in st.permissions
    ensures AddPermission(AddPermission(st, sid, pid), sid, pid) == AddPermission(st, sid, pid)
  {
  }

  /** Linking a free permission to a role keeps the lists in sync with the
      owning side. */
  lemma AddPermissionKeepsSync(st: Store, sid: Id, pid: Id)
    requires Valid(st) && Synced(st)
    requires sid in st.statuses && pid in st.permissions
    requires st.statuses[sid].kind == Some(ROLE_TYPE)
    requires st.permissions[pid].role.None? || st.permissions[pid].role == Some(sid)
    ensures Synced(AddPermission(st, sid, pid))
  {
    var r := AddPermission(st, sid, pid);
    if pid !in st.statuses[sid].permissions {
      forall x | x in r.statuses
        ensures SyncedAt(r, x)
      {
        assert SyncedAt(st, x);
        if x != sid {
          assert pid !in st.statuses[x].permissions;
        }
      }
    }
  }

  /** `removePermission` as written: drops the first occurrence and, when
      something was dropped, clears the permission's role only if the
      permission's controller is this status. */
  function RemovePermission(st: Store, sid: Id, pid: Id): (r: Store)
    requires sid in st.statuses && pid in st.permissions
    ensures r.statuses.Keys == st.statuses.Keys && r.permissions.Keys == st.permissions.Keys
    ensures r.statuses[sid].permissions == RemoveFirst(st.statuses[sid].permissions, pid)
    ensures r.statuses[sid] == st.statuses[sid].(permissions := r.statuses[sid].permissions)
    ensures r.permissions[pid].role.None? <==>
      (pid in st.statuses[sid].permissions && st.permissions[pid].controller == sid)
      || st.permissions[pid].role.None?
    ensures r.permissions[pid] == st.permissions[pid].(role := r.permissions[pid].role)
    ensures forall x :: x in st.statuses && x != sid ==> r.statuses[x] == st.statuses[x]
    ensures forall x :: x in st.permissions && x != pid ==> r.permissions[x] == st.permissions[x]
    ensures r.assignments == st.assignments && r.users == st.users && r.next == st.next
  {
    var s := st.statuses[sid];
    if pid in s.permissions then
      var st' := st.(statuses := st.statuses[sid := s.(permissions := RemoveFirst(s.permissions, pid))]);
      if st.permissions[pid].controller == sid then
        st'.(permissions := st.permissions[pid := st.permissions[pid].(role := None)])
      else
        st'
    else
      st
  }

  /** `removePermission` clearing the side it was added through: the role
      is cleared when it is this status. */
  function RemovePermissionOwningSide(st: Store, sid: Id, pid: Id): (r: Store)
    requires sid in st.statuses && pid in st.permissions
    ensures r.statuses.Keys == st.statuses.Keys && r.permissions.Keys == st.permissions.Keys
    ensures r.statuses[sid].permissions == RemoveFirst(st.statuses[sid].permissions, pid)
    ensures r.statuses[sid] == st.statuses[sid].(permissions := r.statuses[sid].permissions)
    ensures r.permissions[pid].role.None? <==>
      (pid in st.statuses[sid].permissions && st.permissions[pid].role == Some(sid))
      || st.permissions[pid].role.None?
    ensures r.permissions[pid] == st.permissions[pid].(role := r.permissions[pid].role)
    ensures forall x :: x in st.statuses && x != sid ==> r.statuses[x] == st.statuses[x]
    ensures forall x :: x in st.permissions && x != pid ==> r.permissions[x] == st.permissions[x]
    ensures r.assignments == st.assignments && r.users == st.users && r.next == st.next
  {
    var s := st.statuses[sid];
    if pid in s.permissions then
      var st' := st.(statuses := st.statuses[sid := s.(permissions := RemoveFirst(s.permissions, pid))]);
      if st.permissions[pid].role == Some(sid) then
        st'.(permissions := st.permissions[pid := st.permissions[pid].(role := None)])
      else
        st'
    else
      st
  }

  /** The corrected removal keeps the lists in sync with the owning side,
      so the permission stays detached after a reload. */
  lemma RemoveOwningSideKeepsSync(st: Store, sid: Id, pid: Id)
    requires Synced(st) && sid in st.statuses && pid in st.permissions
    ensures Synced(RemovePermissionOwningSide(st, sid, pid))
    ensures pid !in RemovePermissionOwningSide(st, sid, pid).statuses[sid].permissions
  {
    var r := RemovePermissionOwningSide(st, sid, pid);
    RemoveFirstDistinct(st.statuses[sid].permissions, pid);
    forall x | x in r.statuses
      ensures SyncedAt(r, x)
    {
      assert SyncedAt(st, x);
    }
  }

  /** A role (1) holding one permission (2) on a controller (0). */
  function SampleStore(): (st: Store)
    ensures Valid(st) && Synced(st)
  {
    var st := Store(
      map[0 := NewStatus().(name := "Users", kind := Some(CONTROLLER_TYPE)),
          1 := NewStatus().(name := "editor", kind := Some(ROLE_TYPE), permissions := [2])],
      map[2 := Permission(Some(5), 0, Some(1))],
      map[], map[], 3);
    assert forall sid :: sid in st.statuses ==> sid == 0 || sid == 1;
    st
  }

  /** As written, removing a permission from the role it belongs to leaves
      its role column pointing at the role, so the next load puts it back
      in the role's list. */
  lemma RemovePermissionComesBack()
    ensures var r := RemovePermission(SampleStore(), 1, 2);
      && 2 !in r.statuses[1].permissions
      && Valid(r) && !Synced(r)
      && 2 in Reload(r).statuses[1].permissions
  {
    var r := RemovePermission(SampleStore(), 1, 2);
    assert r.permissions[2].role == Some(1);
    assert r.statuses[1].permissions == [];
  }
}
