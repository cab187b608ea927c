/** The role guard of `require_role`. */
module Access {
  import opened Outcomes

  /** The role that passes every guard. */
  const Admin: string := "admin"

  /** `None` lets the request through; otherwise the status code it is refused
      with. */
  function RequireRole(role: string, required: string): (r: Option<int>)
    ensures r.None? <==> role == required || role == Admin
    ensures r.Some? ==> r.value == 403
  {
    if role != required && role != Admin then Some(403) else None
  }

  /** An administrator passes every guard, and a guard for the administrator role
      admits nobody else. */
  lemma AdminPassesEverything(required: string, role: string)
    ensures RequireRole(Admin, required).None?
    ensures RequireRole(role, Admin).None? ==> role == Admin
  {
  }
}
