/** The administrator gate of src/utils/auth.py. The password typed into the
    page is a parameter; the wrapped function is `f` applied to its
    arguments `args`. */
module Auth {
  import opened Common

  /** `ADMIN_PASSWORD` of src/config/settings.py. */
  const AdminPassword: string := "00277"

  /** check_admin_auth. */
  predicate CheckAdminAuth(password: string) {
    password == AdminPassword
  }

  /** The wrapper made by require_admin_auth: the wrapped function's own
      result when the password is right, `None` (after the warning) when it
      is not. */
  function RequireAdminAuth<A, R>(f: A -> R, password: string, args: A): (r: Option<R>)
    ensures r.Some? <==> password == "00277"
    ensures r.Some? ==> r.value == f(args)
  {
    if CheckAdminAuth(password) then Some(f(args)) else None
  }

  /** A wrong password gives `None` whatever the wrapped function is, so the
      function is not consulted. */
  lemma RejectedIgnoresFunction<A, R>(f: A -> R, g: A -> R, password: string, args: A)
    requires password != AdminPassword
    ensures RequireAdminAuth(f, password, args) == RequireAdminAuth(g, password, args) == None
  {
  }

  /** The inline check of admin_upload_center in app.py (`password != "00277"`
      returns early) lets through exactly the passwords the gate accepts. */
  lemma SameGateAsUploadCenter(password: string)
    ensures CheckAdminAuth(password) <==> !(password != "00277")
  {
  }

  /** Exactly one password opens the gate. */
  lemma OnlyOnePassword(p: string, q: string)
    requires CheckAdminAuth(p) && CheckAdminAuth(q)
    ensures p == q && |p| == 5
  {
  }
}
