/** The user document: `backend/model/UserModel.js`. */
module UserModel {
  import opened Common

  /** The `role` enum. */
  datatype Role = Student | Librarian | Admin

  function RoleName(r: Role): string {
    match r
    case Student => "student"
    case Librarian => "librarian"
    case Admin => "admin"
  }

  /** The enum validator: a role string is accepted exactly when it names one of the three roles.
      In particular "user" is rejected. */
  function ParseRole(name: string): (r: Option<Role>)
    ensures r.Some? <==> name in {"student", "librarian", "admin"}
    ensures r.Some? ==> RoleName(r.value) == name
  {
    if name == "student" then Some(Student)
    else if name == "librarian" then Some(Librarian)
    else if name == "admin" then Some(Admin)
    else None
  }

  /** No stored role is spelled "user". */
  lemma NoRoleIsUser(r: Role)
    ensures RoleName(r) != "user"
  {
  }

  /** A password hash. bcrypt is not modelled: a hash is a symbolic wrapper of its plain text, and
      `bcrypt.compare` is equality of plain texts. */
  datatype PasswordHash = Hash(plain: string)

  /** A stored user. */
  datatype User = User(
    id: Id,
    name: string,
    email: string,
    password: PasswordHash,
    stream: Option<string>,
    year: Option<string>,
    role: Role)

  /** Creating and validating a user: name and email are required (non-empty); `stream` and `year`
      default to null; `role` defaults to student and must be in the enum. */
  function NewUser(id: Id, name: string, email: string, password: PasswordHash,
                   stream: Option<string>, year: Option<string>, role: Option<string>): (r: Option<User>)
    ensures r.Some? <==> name != "" && email != "" && (role.Some? ==> ParseRole(role.value).Some?)
    ensures r.Some? && role.None? ==> r.value.role == Student
    ensures r.Some? && role.Some? ==> RoleName(r.value.role) == role.value
    ensures r.Some? ==> r.value.stream == stream && r.value.year == year && r.value.email == email
  {
    if name == "" || email == "" then None
    else
      var parsed := if role.None? then Some(Student) else ParseRole(role.value);
      if parsed.None? then None
      else Some(User(id, name, email, password, stream, year, parsed.value))
  }
}
