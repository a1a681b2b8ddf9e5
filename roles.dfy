/** The four roles a user can be assigned in `user_roles`. */
module Roles {
  import opened Wrappers

  datatype Role = Student | HallAdmin | Security | SuperAdmin

  /** The token stored in the `role` column. */
  function RoleToken(r: Role): string {
    match r
    case Student => "student"
    case HallAdmin => "hall_admin"
    case Security => "security"
    case SuperAdmin => "super_admin"
  }

  /** Reads a role string: exactly the four tokens name a role. */
  function ParseRole(t: string): (r: Option<Role>)
    ensures r.Some? ==> RoleToken(r.value) == t
    ensures r.None? ==> forall role: Role :: RoleToken(role) != t
  {
    if t == "student" then Some(Student)
    else if t == "hall_admin" then Some(HallAdmin)
    else if t == "security" then Some(Security)
    else if t == "super_admin" then Some(SuperAdmin)
    else None
  }
}
