/** The voter of the current namespace: which attributes it decides on, and
    its decision, a scan of the user's assignments that returns at the first
    sufficient permission. */
module MainVoter {
  import opened Wrappers
  import opened Strings
  import opened Decimal
  import opened Entities
  import opened Levels
  import opened Access

  const PREFIX: string := "ACCESS_"

  /** Symfony's three possible votes. */
  datatype Vote = AccessGranted | AccessAbstain | AccessDenied

  /** `supports`: prefix test, exactly three `_`-separated tokens, a
      digit-only level token, and a registered controller token once
      lower-cased. */
  function Supports(attribute: string): bool {
    if !(PREFIX <= attribute) then false
    else
      var access := Split(attribute, '_');
      if |access| != 3 then false
      else
        var controller := Lower(access[1]);
        var action := access[2];
        if !IsDigits(action) then false
        else if controller !in LoweredRegistry() then false
        else true
  }

  /** The first lines of `voteOnAttribute`: the lower-cased controller token
      and the `intval` of the level token. */
  function ParseRequest(attribute: string): Request
    requires Supports(attribute)
  {
    var access := Split(attribute, '_');
    Request(Lower(access[1]), IntVal(access[2]))
  }

  /** How a well-shaped attribute splits. */
  lemma SplitFormat(c: string, d: string)
    requires '_' !in c && '_' !in d
    ensures Split(Format(c, d), '_') == ["ACCESS", c, d]
  {
    assert Format(c, d) == "ACCESS" + ['_'] + (c + ['_'] + d);
    SplitCons("ACCESS", '_', c + ['_'] + d);
    SplitCons(c, '_', d);
    SplitNoSep(d, '_');
  }

  /** `supports` accepts exactly the attributes `ACCESS_<c>_<d>` with `c`
      underscore-free and registered up to case, and `d` all digits. */
  lemma SupportsIffWellFormed(attribute: string)
    ensures Supports(attribute) <==> WellFormed(attribute)
  {
    if Supports(attribute) {
      var rest := attribute[|PREFIX|..];
      assert attribute == "ACCESS" + ['_'] + rest;
      SplitCons("ACCESS", '_', rest);
      var parts := Split(rest, '_');
      assert Split(attribute, '_') == ["ACCESS"] + parts;
      JoinSplit(rest, '_');
      assert |parts| == 2;
      assert rest == parts[0] + ['_'] + parts[1];
      assert attribute == Format(parts[0], parts[1]);
    }
    if WellFormed(attribute) {
      var c, d :| attribute == Format(c, d) && '_' !in c && IsDigits(d) && Registered(c);
      DigitsExclude(d, '_');
      SplitFormat(c, d);
    }
  }

  /** A well-shaped attribute decodes to its lower-cased controller and the
      value of its level digits. */
  lemma ParseFormat(c: string, d: string)
    requires '_' !in c && IsDigits(d) && Registered(c)
    ensures Supports(Format(c, d))
    ensures ParseRequest(Format(c, d)) == Request(Lower(c), IntVal(d))
  {
    DigitsExclude(d, '_');
    SplitFormat(c, d);
  }

  /** `voteOnAttribute`: the nested `foreach` over the user's assignments
      and their role's permissions, returning true at the first match. */
  method VoteOnAttribute(st: Store, user: User, attribute: string, now: int) returns (granted: bool)
    requires Valid(st) && UserRefs(st, user)
    requires Supports(attribute)
    ensures granted <==> Granted(st, user, ParseRequest(attribute), now)
  {
    var access := Split(attribute, '_');
    var controller := Lower(access[1]);
    var action := IntVal(access[2]);
    var req := Request(controller, action);
    var i := 0;
    while i < |user.assignments|
      invariant 0 <= i <= |user.assignments|
      invariant forall k :: 0 <= k < i ==> !AssignmentGrants(st, user.assignments[k], req, now)
    {
      var assignment := st.assignments[user.assignments[i]];
      if assignment.startDate < now && (assignment.endDate.None? || assignment.endDate.value > now) {
        if assignment.role.Some? {
          var permissions := st.statuses[assignment.role.value].permissions;
          var j := 0;
          while j < |permissions|
            invariant 0 <= j <= |permissions|
            invariant forall k :: 0 <= k < j ==> !PermissionMatches(st, permissions[k], req)
          {
            var permission := st.permissions[permissions[j]];
            if Lower(st.statuses[permission.controller].name) == controller
              && Satisfies(permission.access, action)
            {
              assert PermissionMatches(st, permissions[j], req);
              assert AssignmentGrants(st, user.assignments[i], req, now);
              return true;
            }
            j := j + 1;
          }
        }
      }
      i := i + 1;
    }
    return false;
  }

  /** Symfony's `Voter::vote` for one attribute: abstain on unsupported
      attributes, otherwise grant or deny by the decision. */
  function Decision(st: Store, user: User, attribute: string, now: int): Vote
    requires Valid(st) && UserRefs(st, user)
  {
    if !Supports(attribute) then AccessAbstain
    else if Granted(st, user, ParseRequest(attribute), now) then AccessGranted
    else AccessDenied
  }

  /** Running the voter: `supports` first, then the scan. */
  method VoteOn(st: Store, user: User, attribute: string, now: int) returns (vote: Vote)
    requires Valid(st) && UserRefs(st, user)
    ensures vote == AccessAbstain <==> !WellFormed(attribute)
    ensures vote == AccessGranted <==> Supports(attribute) && Granted(st, user, ParseRequest(attribute), now)
    ensures vote == Decision(st, user, attribute, now)
  {
    SupportsIffWellFormed(attribute);
    if !Supports(attribute) {
      return AccessAbstain;
    }
    var granted := VoteOnAttribute(st, user, attribute, now);
    vote := if granted then AccessGranted else AccessDenied;
  }

  /** What running the voter gives when the token may carry no user: a
      vote, or the Error PHP throws when a method is called on null. */
  datatype Outcome = Voted(vote: Vote) | Crashed

  /** A token's user as the voter reads it: `None` is the null that
      `getUser()` returns for an unauthenticated request. */
  predicate TokenRefs(st: Store, token: Option<User>) {
    token.Some? ==> UserRefs(st, token.value)
  }

  /** The voter as written, on any token: after `supports`, the loop calls
      `getAssignments()` on the token's user, which throws when there is
      none. */
  function VoteAsWritten(st: Store, token: Option<User>, attribute: string, now: int): (r: Outcome)
    requires Valid(st) && TokenRefs(st, token)
    ensures r.Crashed? <==> token.None? && Supports(attribute)
    ensures r == Voted(AccessAbstain) <==> !Supports(attribute)
    ensures r == Voted(AccessGranted) <==>
      token.Some? && Supports(attribute) && Granted(st, token.value, ParseRequest(attribute), now)
  {
    if !Supports(attribute) then Voted(AccessAbstain)
    else if token.None? then Crashed
    else Voted(Decision(st, token.value, attribute, now))
  }

  /** An unauthenticated request crashes the voter on every attribute it
      decides on, such as `ACCESS_Users_1`. */
  lemma AnonymousCrashes(st: Store, now: int)
    requires Valid(st)
    ensures VoteAsWritten(st, None, "ACCESS_Users_1", now) == Crashed
  {
    Levels.RegistryDistinct();
    assert Lower("Users") == "users";
    assert IsDigits("1");
    ParseFormat("Users", "1");
    assert Format("Users", "1") == "ACCESS_Users_1";
  }

  /** The voter as evidently intended: a request without a user holds no
      assignment, so it is denied what the voter decides on. */
  function VoteOnToken(st: Store, token: Option<User>, attribute: string, now: int): (v: Vote)
    requires Valid(st) && TokenRefs(st, token)
    ensures token.None? ==> (v == AccessAbstain <==> !Supports(attribute)) && v != AccessGranted
    ensures token.Some? ==> VoteAsWritten(st, token, attribute, now) == Voted(v)
  {
    if token.None? then (if Supports(attribute) then AccessDenied else AccessAbstain)
    else Decision(st, token.value, attribute, now)
  }

  /** The corrected voter treats the missing user as a user without
      assignments, and never crashes where the written one votes. */
  lemma AnonymousIsUnassigned(st: Store, attribute: string, now: int)
    requires Valid(st)
    ensures UserRefs(st, NewUser())
    ensures VoteOnToken(st, None, attribute, now) == Decision(st, NewUser(), attribute, now)
  {
  }

  /** Granting at a requested level means granting at every lower level of
      the same controller. */
  lemma DecisionMonotone(st: Store, user: User, c: string, n: nat, m: nat, now: int)
    requires Valid(st) && UserRefs(st, user)
    requires m <= n <= PHP_INT_MAX && '_' !in c && Registered(c)
    requires Decision(st, user, Format(c, DecimalOf(n)), now) == AccessGranted
    ensures Decision(st, user, Format(c, DecimalOf(m)), now) == AccessGranted
  {
    DecimalOfRoundTrip(n);
    DecimalOfRoundTrip(m);
    ParseFormat(c, DecimalOf(n));
    ParseFormat(c, DecimalOf(m));
    GrantedMonotone(st, user, Lower(c), n, m, now);
  }

  /** Without an assignment that is in the voter's window and has a role,
      a supported attribute is denied: this covers a user with no
      assignment, with only expired ones, and with only role-less ones. */
  lemma DeniedWithoutLiveRole(st: Store, user: User, attribute: string, now: int)
    requires Valid(st) && UserRefs(st, user) && Supports(attribute)
    requires forall i :: 0 <= i < |user.assignments| ==>
      st.assignments[user.assignments[i]].role.None? || !InVoterWindow(st.assignments[user.assignments[i]], now)
    ensures Decision(st, user, attribute, now) == AccessDenied
  {
  }

  /** A role labelled `test` (1) with one permission (2) of level 1 on the
      `Users` controller (0), assigned (3) from `now - 1` to `now + 1` to
      the user (4). */
  function GrantingStore(now: int): (st: Store)
    ensures Valid(st) && 4 in st.users && UserRefs(st, st.users[4])
  {
    var st := Store(
      map[0 := NewStatus().(name := "Users", kind := Some(CONTROLLER_TYPE)),
          1 := NewStatus().(name := "test", kind := Some(ROLE_TYPE), permissions := [2])],
      map[2 := Permission(Some(1), 0, Some(1))],
      map[3 := Assignment(Some(4), Some(1), now - 1, Some(now + 1))],
      map[4 := NewUser().(assignments := [3])],
      5);
    assert Linked(st);
    st
  }

  /** That user is granted `ACCESS_Users_1` at `now`. */
  lemma GrantingScenario(now: int)
    ensures var st := GrantingStore(now);
      Decision(st, st.users[4], "ACCESS_Users_1", now) == AccessGranted
  {
    var st := GrantingStore(now);
    Levels.RegistryDistinct();
    assert Lower("Users") == "users";
    assert IsDigits("1") && DigitsValue("1") == 1;
    ParseFormat("Users", "1");
    assert Format("Users", "1") == "ACCESS_Users_1";
    var req := Request("users", 1);
    assert PermissionMatches(st, st.statuses[1].permissions[0], req);
    assert AssignmentGrants(st, st.users[4].assignments[0], req, now);
  }
}
