/**
 * Accounts, contact messages and password reset: `backend/controller/userController.js`.
 * The user collection is keyed by email (its unique index); the OTP collection holds at
 * most one code per email.
 */
module Users {
  import opened Common
  import opened Text
  import opened UserModel

  const AdminSuffix: string := "@admin.com"
  const LibrarianSuffix: string := "@librarian.com"
  const InternalError := Reply(500, "Internal Server Error")
  /** The catch-all reply of `login` and `resetPassword`. */
  const ServerError := Reply(500, "Server error")
  /** One OTP stays valid for ten minutes. */
  const OtpLifetimeMs: int := 10 * 60 * 1000

  /** The registration role rule: the email's domain decides the role. */
  function RoleForEmail(email: string): (r: Role)
    ensures r == Admin <==> EndsWith(email, AdminSuffix)
    ensures r == Librarian <==> !EndsWith(email, AdminSuffix) && EndsWith(email, LibrarianSuffix)
    ensures r == Student <==> !EndsWith(email, AdminSuffix) && !EndsWith(email, LibrarianSuffix)
  {
    if EndsWith(email, AdminSuffix) then Admin
    else if EndsWith(email, LibrarianSuffix) then Librarian
    else Student
  }

  /** No email ends with both domains, so the order of the two tests in the rule does not matter. */
  lemma SuffixesExclusive(email: string)
    ensures !(EndsWith(email, AdminSuffix) && EndsWith(email, LibrarianSuffix))
  {
    if EndsWith(email, LibrarianSuffix) {
      var n := |email|;
      assert email[n - 14..][4] == 'r';
      assert email[n - 10..][0] == 'r';
    }
  }

  /** The rule gives "librarian" exactly to the librarian domain and never the "user" role. */
  lemma RoleForEmailLibrarian(email: string)
    ensures RoleForEmail(email) == Librarian <==> EndsWith(email, LibrarianSuffix)
    ensures RoleName(RoleForEmail(email)) != "user"
  {
    SuffixesExclusive(email);
  }

  /** `value || null` on an optional string field: a missing or empty value is stored as null. */
  function OrNull(s: Option<string>): (r: Option<string>)
    ensures r.None? <==> s.None? || s.value == ""
    ensures r.Some? ==> r == s
  {
    if s.Some? && s.value != "" then s else None
  }

  /** What `login` signs into the token (`jwt.sign` is not modelled). */
  datatype Session = Session(id: Id, email: string, name: string, role: Role)

  datatype LoginResult = Refused(reply: Reply) | LoggedIn(session: Session)

  datatype Contact = Contact(name: string, email: string, subject: string, message: string)

  /** A stored reset code and when it was issued. */
  datatype Otp = Otp(code: string, createdAt: Time)

  /** `!value` on a body field: missing or empty. */
  predicate Falsy(s: Option<string>) {
    s.None? || s.value == ""
  }

  /** The OTP's age in minutes, as the handler computes it in floating point. */
  function AgeMinutes(now: Time, createdAt: Time): real {
    (now - createdAt) as real / 60000.0
  }

  class UserStore {
    var users: map<string, User>
    var otps: map<string, Otp>
    var contacts: seq<Contact>
    var nextUserId: nat

    ghost predicate Valid()
      reads this
    {
      forall e :: e in users ==> users[e].email == e && users[e].id < nextUserId
    }

    /** Every stored role is the one the registration rule gives its email. */
    predicate RolesFollowEmails()
      reads this
    {
      forall e :: e in users ==> users[e].role == RoleForEmail(e)
    }

    constructor()
      ensures Valid() && RolesFollowEmails()
      ensures users == map[] && otps == map[] && contacts == [] && nextUserId == 0
    {
      users, otps, contacts, nextUserId := map[], map[], [], 0;
    }

    /**
     * `userRegistration`: a new email gets the role its domain decides; a known one is refused.
     * A body without a password reaches `bcrypt.hash` for a new email, which throws.
     */
    method Register(name: string, email: string, password: Option<string>, stream: Option<string>, year: Option<string>)
      returns (reply: Reply, role: Option<Role>)
      requires Valid()
      modifies this
      ensures Valid()
      ensures otps == old(otps) && contacts == old(contacts)
      ensures email in old(users) ==> reply == Reply(400, "Email already exists") && role.None? && unchanged(this)
      ensures email !in old(users) && password.None? ==> reply == InternalError && role.None? && unchanged(this)
      ensures email !in old(users) && (name == "" || email == "") ==> reply == InternalError && role.None? && unchanged(this)
      ensures email !in old(users) && password.Some? && name != "" && email != "" ==>
        && reply == Reply(201, "User registered successfully")
        && role == Some(RoleForEmail(email))
        && users == old(users)[email := User(old(nextUserId), name, email, Hash(password.value), OrNull(stream), OrNull(year), RoleForEmail(email))]
        && nextUserId == old(nextUserId) + 1
      ensures old(RolesFollowEmails()) ==> RolesFollowEmails()
    {
      if email in users {
        return Reply(400, "Email already exists"), None;
      }
      if password.None? {
        return InternalError, None;
      }
      var r := RoleForEmail(email);
      var user := NewUser(nextUserId, name, email, Hash(password.value), OrNull(stream), OrNull(year), Some(RoleName(r)));
      if user.None? {
        return InternalError, None;
      }
      assert user.value.role == r by {
        assert ParseRole(RoleName(r)) == Some(r);
      }
      users := users[email := user.value];
      nextUserId := nextUserId + 1;
      reply, role := Reply(201, "User registered successfully"), Some(r);
    }

    /**
     * `login`: one message for an unknown email and for a wrong password; a
     * staff domain whose stored role does not match is forbidden. A known email
     * with no password reaches `bcrypt.compare`, which throws.
     */
    function Login(email: string, password: Option<string>): (r: LoginResult)
      reads this
      ensures email !in users ==> r == Refused(Reply(400, "Invalid email or password"))
      ensures email in users && password.None? ==> r == Refused(ServerError)
      ensures email in users && password.Some? && users[email].password != Hash(password.value) ==>
        r == Refused(Reply(400, "Invalid email or password"))
      ensures r.Refused? && r.reply.status == 403 <==>
        email in users && password.Some? && users[email].password == Hash(password.value) &&
        ((EndsWith(email, AdminSuffix) && users[email].role != Admin) ||
         (EndsWith(email, LibrarianSuffix) && users[email].role != Librarian))
      ensures r.LoggedIn? ==>
        && email in users && password.Some? && users[email].password == Hash(password.value)
        && r.session == Session(users[email].id, users[email].email, users[email].name, users[email].role)
        && (EndsWith(email, AdminSuffix) ==> r.session.role == Admin)
        && (EndsWith(email, LibrarianSuffix) ==> r.session.role == Librarian)
    {
      if email !in users then Refused(Reply(400, "Invalid email or password"))
      else
        var user := users[email];
        if password.None? then Refused(ServerError)
        else if user.password != Hash(password.value) then Refused(Reply(400, "Invalid email or password"))
        else if EndsWith(email, AdminSuffix) && user.role != Admin then
          Refused(Reply(403, "You are not allowed to login as admin"))
        else if EndsWith(email, LibrarianSuffix) && user.role != Librarian then
          Refused(Reply(403, "You are not allowed to login as librarian"))
        else LoggedIn(Session(user.id, user.email, user.name, user.role))
    }

    /** With every account made by registration, the domain guards never fire: a right password always logs in. */
    lemma LoginGuardsNeverFire(email: string, password: string)
      requires RolesFollowEmails()
      requires email in users && users[email].password == Hash(password)
      ensures Login(email, Some(password)).LoggedIn?
    {
      SuffixesExclusive(email);
    }

    /** `addContact`: all four fields must be present and non-empty before the message is kept. */
    method AddContact(name: Option<string>, email: Option<string>, subject: Option<string>, message: Option<string>)
      returns (reply: Reply)
      modifies this
      ensures users == old(users) && otps == old(otps) && nextUserId == old(nextUserId)
      ensures Falsy(name) || Falsy(email) || Falsy(subject) || Falsy(message) ==>
        reply == Reply(400, "All fields required") && contacts == old(contacts)
      ensures !(Falsy(name) || Falsy(email) || Falsy(subject) || Falsy(message)) ==>
        reply == Reply(200, "Message sent! We will contact you soon.") &&
        contacts == old(contacts) + [Contact(name.value, email.value, subject.value, message.value)]
    {
      if Falsy(name) || Falsy(email) || Falsy(subject) || Falsy(message) {
        return Reply(400, "All fields required");
      }
      contacts := contacts + [Contact(name.value, email.value, subject.value, message.value)];
      reply := Reply(200, "Message sent! We will contact you soon.");
    }

    /** `forgotPassword`: a known email gets a fresh code, replacing any earlier one. The code is an input. */
    method ForgotPassword(email: string, code: string, now: Time) returns (reply: Reply)
      modifies this
      ensures users == old(users) && contacts == old(contacts) && nextUserId == old(nextUserId)
      ensures email !in old(users) ==> reply == Reply(400, "User not found") && otps == old(otps)
      ensures email in old(users) ==>
        reply == Reply(200, "OTP sent to your email") && otps == old(otps)[email := Otp(code, now)]
    {
      if email !in users {
        return Reply(400, "User not found");
      }
      otps := otps[email := Otp(code, now)];
      reply := Reply(200, "OTP sent to your email");
    }

    /** `verifyOTP`: the stored code must match; it has expired only when strictly more than ten minutes old. */
    function VerifyOtp(email: string, code: string, now: Time): (reply: Reply)
      reads this
      ensures reply.status == 200 <==>
        email in otps && otps[email].code == code && now - otps[email].createdAt <= OtpLifetimeMs
      ensures reply == Reply(400, "Invalid OTP") <==> email !in otps || otps[email].code != code
      ensures reply == Reply(400, "OTP expired") <==>
        email in otps && otps[email].code == code && now - otps[email].createdAt > OtpLifetimeMs
    {
      if email !in otps || otps[email].code != code then Reply(400, "Invalid OTP")
      else if AgeMinutes(now, otps[email].createdAt) > 10.0 then Reply(400, "OTP expired")
      else Reply(200, "OTP verified")
    }

    /**
     * `resetPassword`: sets the new password of the account with that email (if
     * any) and deletes its code. No code is asked for, so anyone who knows an
     * email can reset it. A body without a new password makes `bcrypt.hash`
     * throw before anything is changed.
     */
    method ResetPassword(email: string, newPassword: Option<string>) returns (reply: Reply)
      requires Valid()
      modifies this
      ensures Valid()
      ensures newPassword.None? ==> reply == ServerError && unchanged(this)
      ensures newPassword.Some? ==> reply == Reply(200, "Password reset successful")
      ensures contacts == old(contacts) && nextUserId == old(nextUserId)
      ensures newPassword.Some? ==> otps == old(otps) - {email}
      ensures newPassword.Some? && email in old(users) ==>
        users == old(users)[email := old(users)[email].(password := Hash(newPassword.value))]
      ensures newPassword.Some? && email !in old(users) ==> users == old(users)
      ensures old(RolesFollowEmails()) ==> RolesFollowEmails()
    {
      if newPassword.None? {
        return ServerError;
      }
      if email in users {
        users := users[email := users[email].(password := Hash(newPassword.value))];
      }
      otps := otps - {email};
      reply := Reply(200, "Password reset successful");
    }
  }
}
