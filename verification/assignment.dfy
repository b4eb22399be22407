/** The validity window of an assignment and its role setter. */
module Assignments {
  import opened Wrappers
  import opened Entities

  /** `hasStarted`: the interval from the start date to now is not
      inverted, i.e. now is not before the start. */
  predicate HasStarted(a: Assignment, now: int) {
    now >= a.startDate
  }

  /** `hasEnded`: an end date is set and now is not before it. */
  predicate HasEnded(a: Assignment, now: int) {
    a.endDate.Some? && now >= a.endDate.value
  }

  /** Started and not ended. */
  predicate IsActive(a: Assignment, now: int) {
    HasStarted(a, now) && !HasEnded(a, now)
  }

  /** An assignment is active exactly on the half-open window
      [startDate, endDate), which is unbounded when there is no end date. */
  lemma ActiveIffInWindow(a: Assignment, now: int)
    ensures IsActive(a, now) <==>
      a.startDate <= now && (a.endDate.None? || now < a.endDate.value)
  {
  }

  /** A window that closes no later than it opens is empty. */
  lemma EmptyWindowNeverActive(a: Assignment, now: int)
    requires a.endDate.Some? && a.endDate.value <= a.startDate
    ensures !IsActive(a, now)
  {
  }

  /** `setRole`: forces the status to be a role and links the assignment to
      it. Only the status's type and the assignment's role change. */
  function SetRole(st: Store, aid: Id, rid: Id): (r: Store)
    requires aid in st.assignments && rid in st.statuses
    ensures r.statuses.Keys == st.statuses.Keys && r.assignments.Keys == st.assignments.Keys
    ensures r.statuses[rid].kind == Some(ROLE_TYPE)
    ensures r.statuses[rid].(kind := st.statuses[rid].kind) == st.statuses[rid]
    ensures r.assignments[aid].role == Some(rid)
    ensures r.assignments[aid].(role := st.assignments[aid].role) == st.assignments[aid]
    ensures forall sid :: sid in st.statuses && sid != rid ==> r.statuses[sid] == st.statuses[sid]
    ensures forall x :: x in st.assignments && x != aid ==> r.assignments[x] == st.assignments[x]
    ensures r.permissions == st.permissions && r.users == st.users && r.next == st.next
    ensures Valid(st) ==> Valid(r)
  {
    var role := st.statuses[rid].(kind := Some(ROLE_TYPE));
    var a := st.assignments[aid].(role := Some(rid));
    st.(statuses := st.statuses[rid := role], assignments := st.assignments[aid := a])
  }
}
