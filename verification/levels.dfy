/** Permission levels and the controller registry (the constants of the
    Permission entity) and the level-to-label mapping. */
module Levels {
  import opened Wrappers
  import opened Strings

  const CAN_NOTHING: int := 0
  const CAN_VIEW: int := 1
  const CAN_EDIT: int := 2
  const CAN_DELETE: int := 3
  const CAN_CREATE: int := 4
  const CAN_ALL: int := 5

  /** The controllers subject to access control. */
  const CONTROLLER_LIST: seq<string> := ["Users", "Roles"]

  /** The registry as the voter compares it: every entry lower-cased. */
  function LoweredRegistry(): seq<string> {
    seq(|CONTROLLER_LIST|, i requires 0 <= i < |CONTROLLER_LIST| => Lower(CONTROLLER_LIST[i]))
  }

  /** PHP's `$permission->getAccess() >= $level` on a nullable access. A null
      access is compared as a boolean: false is at least `(bool) $level`
      only when the level is 0. */
  predicate Satisfies(access: Option<int>, level: int) {
    match access
    case Some(a) => a >= level
    case None => level == 0
  }

  /** The label a level reads as; None where `__toString` throws. */
  function ToString(access: Option<int>): (r: Option<string>)
    ensures r.Some? <==> access.Some? && CAN_NOTHING <= access.value <= CAN_ALL
    ensures r.Some? ==> LevelOf(r.value) == access
  {
    match access
    case None => None
    case Some(a) =>
      if a == CAN_NOTHING then Some("No Access")
      else if a == CAN_VIEW then Some("Can View")
      else if a == CAN_EDIT then Some("Can Edit")
      else if a == CAN_DELETE then Some("Can Delete")
      else if a == CAN_CREATE then Some("Can Create")
      else if a == CAN_ALL then Some("Full Access")
      else None
  }

  /** Reading a label back into its level. */
  function LevelOf(text: string): Option<int> {
    if text == "No Access" then Some(CAN_NOTHING)
    else if text == "Can View" then Some(CAN_VIEW)
    else if text == "Can Edit" then Some(CAN_EDIT)
    else if text == "Can Delete" then Some(CAN_DELETE)
    else if text == "Can Create" then Some(CAN_CREATE)
    else if text == "Full Access" then Some(CAN_ALL)
    else None
  }

  /** Distinct valid levels never share a label. */
  lemma ToStringInjective(a: Option<int>, b: Option<int>)
    requires ToString(a).Some? && ToString(a) == ToString(b)
    ensures a == b
  {
  }

  /** The levels are strictly increasing in declaration order, so a CREATE
      grant passes a DELETE check while a DELETE grant fails a CREATE one. */
  lemma LevelOrder()
    ensures CAN_NOTHING < CAN_VIEW < CAN_EDIT < CAN_DELETE < CAN_CREATE < CAN_ALL
    ensures Satisfies(Some(CAN_CREATE), CAN_DELETE)
    ensures !Satisfies(Some(CAN_DELETE), CAN_CREATE)
  {
  }

  /** Meeting a requirement means meeting every lower non-negative one. */
  lemma SatisfiesMonotone(access: Option<int>, n: int, m: int)
    requires 0 <= m <= n && Satisfies(access, n)
    ensures Satisfies(access, m)
  {
  }

  /** The registry holds Users and Roles, which stay distinct once
      lower-cased. */
  lemma RegistryDistinct()
    ensures CONTROLLER_LIST == ["Users", "Roles"]
    ensures LoweredRegistry() == ["users", "roles"]
    ensures NoDuplicates(LoweredRegistry())
  {
    assert Lower("Users") == "users";
    assert Lower("Roles") == "roles";
  }
}
