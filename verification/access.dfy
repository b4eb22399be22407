/** What an access decision means, stated independently of how the voters
    compute it: the shape of an access attribute, and the existence of an
    assignment whose role holds a sufficient permission. */
module Access {
  import opened Wrappers
  import opened Strings
  import opened Decimal
  import opened Entities
  import opened Levels
  import opened Assignments

  /** A decoded access attribute: lower-cased controller name and level. */
  datatype Request = Request(controller: string, level: int)

  /** The attribute a request is written as: `ACCESS_<controller>_<level>`. */
  function Format(controller: string, level: string): string {
    "ACCESS_" + controller + "_" + level
  }

  /** The controller is in the registry, ignoring case. */
  predicate Registered(controller: string) {
    Lower(controller) in LoweredRegistry()
  }

  /** The attributes the voter decides on: the fixed prefix, a controller
      name without underscore that is registered, and a digit-only level. */
  ghost predicate WellFormed(attribute: string) {
    exists c, d :: attribute == Format(c, d) && '_' !in c && IsDigits(d) && Registered(c)
  }

  /** The voter's time test: started strictly before now, and not ended
      at or before now. */
  predicate InVoterWindow(a: Assignment, now: int) {
    a.startDate < now && (a.endDate.None? || a.endDate.value > now)
  }

  /** The voter's window is the active window minus its opening instant. */
  lemma VoterWindowVersusActive(a: Assignment, now: int)
    ensures InVoterWindow(a, now) <==> IsActive(a, now) && now != a.startDate
  {
  }

  /** At the start instant the entity calls the assignment started while
      the voter does not yet count it. */
  lemma StartBoundaryDiffers(a: Assignment)
    ensures HasStarted(a, a.startDate)
    ensures !InVoterWindow(a, a.startDate)
  {
  }

  /** Permission `pid` is on the requested controller (compared lower-cased)
      at a sufficient level. */
  predicate PermissionMatches(st: Store, pid: Id, req: Request)
    requires Valid(st) && pid in st.permissions
  {
    var p := st.permissions[pid];
    Lower(st.statuses[p.controller].name) == req.controller && Satisfies(p.access, req.level)
  }

  /** Some permission of status `rid` matches. */
  predicate RoleGrants(st: Store, rid: Id, req: Request)
    requires Valid(st) && rid in st.statuses
  {
    exists i :: 0 <= i < |st.statuses[rid].permissions|
      && PermissionMatches(st, st.statuses[rid].permissions[i], req)
  }

  /** Assignment `aid` is in the voter's window and has a role that
      grants the request. */
  predicate AssignmentGrants(st: Store, aid: Id, req: Request, now: int)
    requires Valid(st) && aid in st.assignments
  {
    var a := st.assignments[aid];
    InVoterWindow(a, now) && a.role.Some? && RoleGrants(st, a.role.value, req)
  }

  /** Some assignment of the user grants the request at `now`. */
  predicate Granted(st: Store, u: User, req: Request, now: int)
    requires Valid(st) && UserRefs(st, u)
  {
    exists i :: 0 <= i < |u.assignments| && AssignmentGrants(st, u.assignments[i], req, now)
  }

  /** A grant at some level is a grant at every lower non-negative level. */
  lemma GrantedMonotone(st: Store, u: User, controller: string, n: int, m: int, now: int)
    requires Valid(st) && UserRefs(st, u)
    requires 0 <= m <= n && Granted(st, u, Request(controller, n), now)
    ensures Granted(st, u, Request(controller, m), now)
  {
    var i :| 0 <= i < |u.assignments| && AssignmentGrants(st, u.assignments[i], Request(controller, n), now);
    var rid := st.assignments[u.assignments[i]].role.value;
    var j :| 0 <= j < |st.statuses[rid].permissions|
      && PermissionMatches(st, st.statuses[rid].permissions[j], Request(controller, n));
    var p := st.permissions[st.statuses[rid].permissions[j]];
    SatisfiesMonotone(p.access, n, m);
    assert PermissionMatches(st, st.statuses[rid].permissions[j], Request(controller, m));
    assert AssignmentGrants(st, u.assignments[i], Request(controller, m), now);
  }

  /** Switching a status's active flag keeps the store consistent. */
  lemma ActiveFlagKeepsValid(st: Store, sid: Id, flag: bool)
    requires Valid(st) && sid in st.statuses
    ensures Valid(st.(statuses := st.statuses[sid := st.statuses[sid].(active := flag)]))
  {
    var st' := st.(statuses := st.statuses[sid := st.statuses[sid].(active := flag)]);
    assert st'.statuses.Keys == st.statuses.Keys;
    assert forall x :: x in st.statuses ==> st'.statuses[x].permissions == st.statuses[x].permissions;
    assert Bounded(st');
  }

  /** Switching a status's active flag changes no decision: the voter never
      looks at it. */
  lemma GrantedIgnoresActive(st: Store, u: User, req: Request, now: int, sid: Id, flag: bool)
    requires Valid(st) && UserRefs(st, u) && sid in st.statuses
    ensures var st' := st.(statuses := st.statuses[sid := st.statuses[sid].(active := flag)]);
      Valid(st') && UserRefs(st', u) && (Granted(st', u, req, now) <==> Granted(st, u, req, now))
  {
    var st' := st.(statuses := st.statuses[sid := st.statuses[sid].(active := flag)]);
    assert forall x :: x in st.statuses ==>
      st'.statuses[x].permissions == st.statuses[x].permissions && st'.statuses[x].name == st.statuses[x].name;
    ActiveFlagKeepsValid(st, sid, flag);
    forall pid | pid in st.permissions
      ensures PermissionMatches(st', pid, req) <==> PermissionMatches(st, pid, req)
    {
    }
    forall rid | rid in st.statuses
      ensures RoleGrants(st', rid, req) <==> RoleGrants(st, rid, req)
    {
    }
    assert forall aid :: aid in st.assignments ==>
      (AssignmentGrants(st', aid, req, now) <==> AssignmentGrants(st, aid, req, now));
  }
}
