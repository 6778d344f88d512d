/** The credential branch of the log-in page (login/page.tsx): the user is
    looked up by id or e-mail within the selected role, and the password
    is then checked against the store. */
module Login {
  import opened Strings
  import opened UserDb
  import SignUp

  datatype LoginOutcome = NotFound | WrongPassword | LoggedIn(route: string)

  /** Where a successful log-in goes: applicants to their home page with
      their stored id, administrators to the dashboard. */
  function RouteFor(u: User, role: Role): string
  {
    if role == Applicant then "/applicant?userId=" + u.id else "/dashboard"
  }

  /** The outcome of `handleLogin` on a store. */
  function LoginSpec(users: seq<User>, loginId: string, role: Role, password: string): LoginOutcome
  {
    match FindByIdOrEmailIn(users, loginId, Some(role))
    case None => NotFound
    case Some(u) => if VerifySpec(users, u.id, role, password) then LoggedIn(RouteFor(u, role)) else WrongPassword
  }

  /** In any store, NotFound exactly when no user of the role has the
      identifier as id or e-mail. */
  lemma LoginNotFoundIff(users: seq<User>, loginId: string, role: Role, password: string)
    ensures LoginSpec(users, loginId, role, password) == NotFound <==>
      forall i :: 0 <= i < |users| ==> !MatchesIdentifier(users[i], loginId, Some(role))
  {
  }

  /** In a store without clashes, the first user of the role with the
      identifier as id or e-mail decides: the log-in succeeds exactly when
      its stored password is the one typed, going to that user's route. */
  lemma LoginOutcomes(users: seq<User>, loginId: string, role: Role, password: string)
    requires Unique(users)
    ensures var found := FindByIdOrEmailIn(users, loginId, Some(role));
      found.Some? ==>
        && (LoginSpec(users, loginId, role, password).LoggedIn? <==> found.value.passwordHash == password)
        && (LoginSpec(users, loginId, role, password) == WrongPassword <==> found.value.passwordHash != password)
        && (LoginSpec(users, loginId, role, password).LoggedIn? ==>
              LoginSpec(users, loginId, role, password).route == RouteFor(found.value, role))
  {
    var found := FindByIdOrEmailIn(users, loginId, Some(role));
    if found.Some? {
      var i :| 0 <= i < |users| && users[i] == found.value && MatchesIdentifier(found.value, loginId, Some(role));
      FindUnique(users, i, found.value.id, role);
    }
  }

  /** A user registered only under the other role is not found. */
  lemma OtherRoleNotFound(users: seq<User>, loginId: string, role: Role, password: string)
    requires forall i :: 0 <= i < |users| && MatchesIdentifier(users[i], loginId, None) ==> users[i].role != role
    ensures LoginSpec(users, loginId, role, password) == NotFound
  {
  }

  /** The default administrator logs in with its seeded password. */
  lemma DefaultAdminLogsIn()
    ensures LoginSpec(DefaultUsers, "admin@futa.edu.ng", Admin, "AdminPass123!") == LoggedIn("/dashboard")
  {
    FindUnique(DefaultUsers, 0, DefaultUsers[0].id, Admin);
    DefaultUsersFacts();
  }

  /** The default applicant logs in by id, in any case. */
  lemma DefaultApplicantLogsInById()
    ensures LoginSpec(DefaultUsers, "12345678ab", Applicant, "Password123!") == LoggedIn("/applicant?userId=12345678AB")
  {
    var u := DefaultUsers[1];
    assert Lower("12345678ab") == Lower(u.id);
    assert DefaultUsers[0].role != Applicant;
    FindByIdOrEmailFirst(DefaultUsers, 1, "12345678ab", Some(Applicant));
    DefaultUsersFacts();
    LoginOutcomes(DefaultUsers, "12345678ab", Applicant, "Password123!");
    assert RouteFor(u, Applicant) == "/applicant?userId=12345678AB";
  }

  /** The default applicant logs in by e-mail. */
  lemma DefaultApplicantLogsInByEmail()
    ensures LoginSpec(DefaultUsers, "john@example.com", Applicant, "Password123!") == LoggedIn("/applicant?userId=12345678AB")
  {
    var u := DefaultUsers[1];
    assert Lower(u.email) == Lower("john@example.com");
    assert DefaultUsers[0].role != Applicant;
    FindByIdOrEmailFirst(DefaultUsers, 1, "john@example.com", Some(Applicant));
    DefaultUsersFacts();
    LoginOutcomes(DefaultUsers, "john@example.com", Applicant, "Password123!");
    assert RouteFor(u, Applicant) == "/applicant?userId=12345678AB";
  }

  /** The applicant account is not found under the administrator role. */
  lemma DefaultApplicantNotAdmin()
    ensures LoginSpec(DefaultUsers, "12345678AB", Admin, "Password123!") == NotFound
  {
    var a := DefaultUsers[0];
    assert Lower(a.id)[0] == 'a' && Lower("12345678AB")[0] == '1';
  }

  /** After a sign-up, logging in with the new id and password succeeds,
      unless an older account of the same role has that id as its e-mail:
      the id-or-e-mail search then finds the older account first. */
  lemma SignUpThenLogIn(users: seq<User>, f: SignUp.Form)
    requires Unique(users)
    requires SignUp.SignUpSpec(users, f).1.Created?
    requires forall i :: 0 <= i < |users| && users[i].role == f.role ==> Lower(users[i].email) != Lower(f.userId)
    ensures LoginSpec(SignUp.SignUpSpec(users, f).0, f.userId, f.role, f.password).LoggedIn?
  {
    SignUp.StoreChangesOnlyOnCreate(users, f);
    SignUp.SignUpKeepsUnique(users, f);
    var users' := SignUp.SignUpSpec(users, f).0;
    var u := users'[|users|];
    assert !MatchesId(u, f.userId, f.role) ==> false;
    forall i | 0 <= i < |users| ensures !MatchesIdentifier(users'[i], f.userId, Some(f.role)) {
      assert users'[i] == users[i];
      assert FindIn(users, f.userId, f.role).None?;
    }
    assert MatchesIdentifier(u, f.userId, Some(f.role));
    LoginOutcomes(users', f.userId, f.role, f.password);
  }

  /** An applicant whose e-mail is "x@y.z". */
  function ShadowingUser(): User
  {
    User("11111111AA", Applicant, "A", "x@y.z", "1", "Secret111", false, Male)
  }

  /** A second applicant signing up with id "x@y.z". */
  function ShadowedForm(): SignUp.Form
  {
    SignUp.Form(Applicant, false, "x@y.z", "B", "b@y.z", "2", "Secret222", "Secret222", Some(Female))
  }

  lemma ShadowedPasswordAccepted()
    ensures SignUp.PasswordRegexTest(ShadowedForm().password)
  {
    var p := ShadowedForm().password;
    assert IsUpper(p[0]) && IsLower(p[1]) && IsDigit(p[6]);
    assert forall i :: 0 <= i < |p| ==> SignUp.IsAlnum(p[i]);
    SignUp.RegexIsPolicy(p);
  }

  lemma ShadowedSignUpSucceeds()
    ensures SignUp.SignUpSpec([ShadowingUser()], ShadowedForm()).1.Created?
    ensures SignUp.SignUpSpec([ShadowingUser()], ShadowedForm()).0[0] == ShadowingUser()
  {
    var first, f := ShadowingUser(), ShadowedForm();
    ShadowedPasswordAccepted();
    assert Lower(first.id) != Lower(f.userId) by { assert Lower(first.id)[0] == '1' && Lower(f.userId)[0] == 'x'; }
    assert FindIn([first], f.userId, f.role) == None;
    SignUp.StoreChangesOnlyOnCreate([first], f);
  }

  /** The shadowing is real: after the second applicant signs up, logging
      in with the new id and the new password is refused, because the
      search finds the first applicant by e-mail. */
  lemma SignUpShadowedByEmail()
    ensures var users' := SignUp.SignUpSpec([ShadowingUser()], ShadowedForm()).0;
            LoginSpec(users', "x@y.z", Applicant, "Secret222") == WrongPassword
  {
    ShadowedSignUpSucceeds();
    var first := ShadowingUser();
    var users' := SignUp.SignUpSpec([first], ShadowedForm()).0;
    SignUp.SignUpKeepsUnique([first], ShadowedForm());
    assert MatchesIdentifier(first, "x@y.z", Some(Applicant));
    FindByIdOrEmailFirst(users', 0, "x@y.z", Some(Applicant));
    FindUnique(users', 0, first.id, Applicant);
  }

  /** `handleLogin`, once its timer fires; it reads the store and never
      changes it. */
  method HandleLogin(db: UserDB, loginId: string, role: Role, password: string) returns (outcome: LoginOutcome)
    ensures outcome == LoginSpec(db.users, loginId, role, password)
  {
    var user := db.FindUserByIdOrEmail(loginId, Some(role));
    if user.None? {
      return NotFound;
    }
    var isPasswordCorrect := db.VerifyPassword(user.value.id, role, password);
    if isPasswordCorrect {
      outcome := LoggedIn(RouteFor(user.value, role));
    } else {
      outcome := WrongPassword;
    }
  }
}
