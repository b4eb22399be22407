/** The voter of the legacy namespace. Its attribute test is the same
    sequence of checks as the current voter's; its decision is written here
    as a recursive first-match scan and shown to agree with the declarative
    grant relation, hence with the current voter on every input. */
module LegacyMainVoter {
  import opened Wrappers
  import opened Strings
  import opened Entities
  import opened Levels
  import opened Access
  import MainVoter

  /** `supports`: the checks are those of the current voter. */
  function Supports(attribute: string): (r: bool)
    ensures r <==> WellFormed(attribute)
  {
    MainVoter.SupportsIffWellFormed(attribute);
    MainVoter.Supports(attribute)
  }

  /** The inner `foreach` over a role's permissions, from position `j`. */
  function ScanPermissions(st: Store, permissions: seq<Id>, j: nat, req: Request): (r: bool)
    requires Valid(st) && j <= |permissions|
    requires forall k :: 0 <= k < |permissions| ==> permissions[k] in st.permissions
    ensures r <==> exists k :: j <= k < |permissions| && PermissionMatches(st, permissions[k], req)
    decreases |permissions| - j
  {
    if j == |permissions| then false
    else
      var permission := st.permissions[permissions[j]];
      if Lower(st.statuses[permission.controller].name) == req.controller && Satisfies(permission.access, req.level) then
        true
      else
        ScanPermissions(st, permissions, j + 1, req)
  }

  /** The outer `foreach` over the user's assignments, from position `i`. */
  function ScanAssignments(st: Store, user: User, i: nat, req: Request, now: int): (r: bool)
    requires Valid(st) && UserRefs(st, user)
    requires i <= |user.assignments|
    ensures r <==> exists k :: i <= k < |user.assignments| && AssignmentGrants(st, user.assignments[k], req, now)
    decreases |user.assignments| - i
  {
    if i == |user.assignments| then false
    else
      var assignment := st.assignments[user.assignments[i]];
      if InVoterWindow(assignment, now) && assignment.role.Some?
        && ScanPermissions(st, st.statuses[assignment.role.value].permissions, 0, req)
      then
        true
      else
        ScanAssignments(st, user, i + 1, req, now)
  }

  /** `voteOnAttribute` of the legacy voter. */
  function VoteOnAttribute(st: Store, user: User, attribute: string, now: int): (granted: bool)
    requires Valid(st) && UserRefs(st, user)
    requires Supports(attribute)
    ensures granted <==> Granted(st, user, MainVoter.ParseRequest(attribute), now)
  {
    ScanAssignments(st, user, 0, MainVoter.ParseRequest(attribute), now)
  }

  /** The legacy voter's vote, with abstention on unsupported attributes. */
  function Decision(st: Store, user: User, attribute: string, now: int): MainVoter.Vote
    requires Valid(st) && UserRefs(st, user)
  {
    if !Supports(attribute) then MainVoter.AccessAbstain
    else if VoteOnAttribute(st, user, attribute, now) then MainVoter.AccessGranted
    else MainVoter.AccessDenied
  }

  /** The two voters decide alike on every store, user, attribute and
      instant. */
  lemma AgreesWithCurrent(st: Store, user: User, attribute: string, now: int)
    requires Valid(st) && UserRefs(st, user)
    ensures Decision(st, user, attribute, now) == MainVoter.Decision(st, user, attribute, now)
  {
  }
}
