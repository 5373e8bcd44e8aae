/** The role gate: `backend/middlewares/checkRole.js`. */
module CheckRole {
  import opened Common
  import opened UserAuth
  import opened UserModel

  /** The argument of `checkRole`: one role string or a list of them. */
  datatype AllowedRoles = One(role: string) | Many(roles: seq<string>)

  /** The string-to-list normalisation of line 6; applying it again changes nothing. */
  function Normalise(a: AllowedRoles): (r: AllowedRoles)
    ensures r.Many?
    ensures a.One? ==> r.roles == [a.role]
    ensures a.Many? ==> r == a
  {
    match a
    case One(role) => Many([role])
    case Many(_) => a
  }

  lemma NormaliseIdempotent(a: AllowedRoles)
    ensures Normalise(Normalise(a)) == Normalise(a)
  {
  }

  /** `next()` is called, or the reply is 403 with `error: true`. */
  datatype Gate = Next | Denied(status: int, error: bool, message: string)

  /** The gate passes exactly when the request carries user info whose role is in the allowed list;
      otherwise it answers 403 "Access Denied: Unauthorized role" with `error: true`. */
  function Check(allowed: AllowedRoles, userInfo: Option<UserInfo>): (g: Gate)
    ensures g == Next <==> userInfo.Some? && userInfo.value.role in Normalise(allowed).roles
    ensures g != Next ==> g == Denied(403, true, "Access Denied: Unauthorized role")
  {
    if userInfo.None? || userInfo.value.role !in Normalise(allowed).roles then
      Denied(403, true, "Access Denied: Unauthorized role")
    else Next
  }

  /** `checkRole("user")` turns away every caller whose role is one a stored user can have. */
  lemma UserRoleGateRejectsStoredRoles(r: Role, info: UserInfo)
    requires info.role == RoleName(r)
    ensures Check(One("user"), Some(info)).Denied?
  {
    NoRoleIsUser(r);
  }
}
