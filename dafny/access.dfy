/**
  * The two view gates of the cafeteria: `admin_comedor_required` for the
  * management screens and `auditor_required` for the audit screens. Both
  * sit behind the login check and then decide from the user's flags and
  * the role of the linked person, if any.
  */
module Access {
  import opened Wrappers

  /** What a gate sees of the requesting user; `personaRole` is the role
      of the linked person, absent when no person is linked. */
  datatype Requester = Requester(
    authenticated: bool,
    superuser: bool,
    staff: bool,
    personaRole: Option<string>)

  datatype Decision = ToLogin | Allow | Deny

  /** `admin_comedor_required`. */
  function AdminComedorGate(r: Requester): Decision {
    if !r.authenticated then ToLogin
    else if r.superuser then Allow
    else if r.personaRole.Some? && (r.personaRole.value == "admin_comedor" || r.personaRole.value == "admin") then Allow
    else Deny
  }

  /** `auditor_required`: a linked person decides by its role alone; only a
      user without one is let through for being staff. */
  function AuditorGate(r: Requester): Decision {
    if !r.authenticated then ToLogin
    else if r.superuser then Allow
    else if r.personaRole.Some? then (if r.personaRole.value == "auditor" then Allow else Deny)
    else if r.staff then Allow
    else Deny
  }

  /** A signed-in user passes the cafeteria-admin gate exactly when they are
      a superuser or their person has a cafeteria-admin role; the staff flag
      plays no part. */
  lemma AdminComedorGateAllows(r: Requester)
    requires r.authenticated
    ensures AdminComedorGate(r) == Allow <==>
              r.superuser || r.personaRole == Some("admin_comedor") || r.personaRole == Some("admin")
    ensures AdminComedorGate(r) != ToLogin
    ensures AdminComedorGate(r) == AdminComedorGate(r.(staff := !r.staff))
  {
  }

  /** A signed-in user passes the auditor gate exactly when they are a
      superuser, their person is an auditor, or they are staff with no
      linked person. */
  lemma AuditorGateAllows(r: Requester)
    requires r.authenticated
    ensures AuditorGate(r) == Allow <==>
              r.superuser || r.personaRole == Some("auditor") || (r.staff && r.personaRole.None?)
    ensures AuditorGate(r) != ToLogin
  {
  }

  /** Staff whose linked person has any role other than auditor are turned
      away, where the same user without a person would be let in. */
  lemma StaffWithPersonaDenied(r: Requester, role: string)
    requires r.authenticated && !r.superuser && r.staff && role != "auditor"
    ensures AuditorGate(r.(personaRole := Some(role))) == Deny
    ensures AuditorGate(r.(personaRole := None)) == Allow
  {
  }

  /** Plain staff are not cafeteria administrators. */
  lemma PlainStaffNotAdmin(r: Requester)
    requires r.authenticated && !r.superuser && r.staff
    requires r.personaRole.None? || (r.personaRole.value != "admin_comedor" && r.personaRole.value != "admin")
    ensures AdminComedorGate(r) == Deny
  {
  }

  /** Both gates send an anonymous user to the login page whatever else
      is true of them. */
  lemma LoginFirst(r: Requester)
    requires !r.authenticated
    ensures AdminComedorGate(r) == ToLogin && AuditorGate(r) == ToLogin
  {
  }
}
