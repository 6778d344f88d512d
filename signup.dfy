/** The sign-up page (signup/page.tsx): the password-policy regular
    expression and the chain of checks `handleSignUp` runs before it adds
    the account to the user store. */
module SignUp {
  import opened Strings
  import opened UserDb

  /** `[a-zA-Z\d]`. */
  predicate IsAlnum(c: char)
  {
    IsLower(c) || IsUpper(c) || IsDigit(c)
  }

  /** The characters `.` does not match. */
  predicate IsLineTerminator(c: char)
  {
    c == '\n' || c == '\r' || c == '\U{2028}' || c == '\U{2029}'
  }

  datatype CharClass = LowerLetters | UpperLetters | Digits

  predicate InClass(c: char, k: CharClass)
  {
    match k
    case LowerLetters => IsLower(c)
    case UpperLetters => IsUpper(c)
    case Digits => IsDigit(c)
  }

  /** A look-ahead `(?=.*[k])` at the start of `s`: some character of the
      class is reached through characters that `.` matches. */
  predicate LookaheadAtStart(s: string, k: CharClass)
  {
    exists n :: 0 <= n < |s| && InClass(s[n], k) && forall j :: 0 <= j < n ==> !IsLineTerminator(s[j])
  }

  /** `/^(?=.*[a-z])(?=.*[A-Z])(?=.*\d)[a-zA-Z\d]{8,}$/.test(s)`. */
  predicate PasswordRegexTest(s: string)
  {
    && LookaheadAtStart(s, LowerLetters)
    && LookaheadAtStart(s, UpperLetters)
    && LookaheadAtStart(s, Digits)
    && |s| >= 8
    && forall i :: 0 <= i < |s| ==> IsAlnum(s[i])
  }

  /** The policy the page states: at least eight characters, only ASCII
      letters and digits, and at least one lower-case letter, one
      upper-case letter and one digit. */
  predicate MeetsPolicy(s: string)
  {
    && |s| >= 8
    && (forall i :: 0 <= i < |s| ==> IsAlnum(s[i]))
    && (exists i :: 0 <= i < |s| && IsLower(s[i]))
    && (exists i :: 0 <= i < |s| && IsUpper(s[i]))
    && (exists i :: 0 <= i < |s| && IsDigit(s[i]))
  }

  lemma LookaheadOnAlnum(s: string, k: CharClass)
    requires forall i :: 0 <= i < |s| ==> IsAlnum(s[i])
    ensures LookaheadAtStart(s, k) <==> exists i :: 0 <= i < |s| && InClass(s[i], k)
  {
    if i :| 0 <= i < |s| && InClass(s[i], k) {
      assert forall j :: 0 <= j < i ==> !IsLineTerminator(s[j]) by {
        forall j | 0 <= j < i ensures !IsLineTerminator(s[j]) { assert IsAlnum(s[j]); }
      }
    }
  }

  /** The regular expression accepts exactly the passwords that meet the
      stated policy. */
  lemma RegexIsPolicy(s: string)
    ensures PasswordRegexTest(s) <==> MeetsPolicy(s)
  {
    if forall i :: 0 <= i < |s| ==> IsAlnum(s[i]) {
      LookaheadOnAlnum(s, LowerLetters);
      LookaheadOnAlnum(s, UpperLetters);
      LookaheadOnAlnum(s, Digits);
    }
  }

  /** A password with any character other than an ASCII letter or digit is
      refused. */
  lemma SymbolRejected(s: string, i: nat)
    requires i < |s| && !IsAlnum(s[i])
    ensures !PasswordRegexTest(s)
  {
  }

  /** The passwords seeded for the two default accounts could not have
      been chosen on this page. */
  lemma SeededPasswordsRefused()
    ensures !PasswordRegexTest("AdminPass123!") && !PasswordRegexTest("Password123!")
  {
    SymbolRejected("AdminPass123!", 12);
    SymbolRejected("Password123!", 11);
  }

  /** The same password without its '!' is accepted. */
  lemma PasswordWithoutSymbolAccepted()
    ensures PasswordRegexTest("Password123")
  {
    var p := "Password123";
    assert forall i :: 0 <= i < |p| ==> IsAlnum(p[i]);
    assert IsUpper(p[0]) && IsLower(p[1]) && IsDigit(p[8]);
    RegexIsPolicy(p);
  }

  /** The sign-up form. */
  datatype Form = Form(
    role: Role,
    enableFaceId: bool,
    userId: string,
    fullName: string,
    email: string,
    phone: string,
    password: string,
    confirmPassword: string,
    gender: Option<Gender>)

  /** How a submission ends. */
  datatype Outcome =
    | InvalidPassword
    | PasswordMismatch
    | GenderMissing
    | AccountExists
    | SignUpFailed
    | Created(route: string)

  /** The account `handleSignUp` hands to `addUser`. */
  function NewUserOf(f: Form): NewUser
    requires f.gender.Some?
  {
    NewUser(f.userId, f.role, f.fullName, f.email, f.phone, f.enableFaceId, f.gender.value)
  }

  /** `handleSignUp` on a store: the password policy, then the
      confirmation, then the gender, then an existing account, then
      `addUser`; the first failing check ends the submission. */
  function SignUpSpec(users: seq<User>, f: Form): (seq<User>, Outcome)
  {
    if !PasswordRegexTest(f.password) then (users, InvalidPassword)
    else if f.password != f.confirmPassword then (users, PasswordMismatch)
    else if f.gender.None? then (users, GenderMissing)
    else if FindIn(users, f.userId, f.role).Some? then (users, AccountExists)
    else
      var (users', result) := AddSpec(users, NewUserOf(f), f.password);
      if result == AlreadyExists then (users', SignUpFailed)
      else (users', Created(if f.enableFaceId then "/face-id-setup" else "/"))
  }

  /** The checks run in their order, each one only when all before it
      passed; `addUser` never fails once they pass, so `SignUpFailed` is
      never the outcome. */
  lemma GuardOrder(users: seq<User>, f: Form)
    ensures var o := SignUpSpec(users, f).1;
      && (o == InvalidPassword <==> !MeetsPolicy(f.password))
      && (o == PasswordMismatch <==> MeetsPolicy(f.password) && f.password != f.confirmPassword)
      && (o == GenderMissing <==> MeetsPolicy(f.password) && f.password == f.confirmPassword && f.gender.None?)
      && (o == AccountExists <==>
            MeetsPolicy(f.password) && f.password == f.confirmPassword && f.gender.Some?
            && exists i :: 0 <= i < |users| && MatchesId(users[i], f.userId, f.role))
      && o != SignUpFailed
  {
    RegexIsPolicy(f.password);
    if f.gender.Some? {
      AddSpecFacts(users, NewUserOf(f), f.password);
    }
  }

  /** The store changes only when the account is created, and then by the
      one new account at its end, whose password verifies; the route is
      the Face ID set-up page when Face ID was chosen, else the start
      page. */
  lemma StoreChangesOnlyOnCreate(users: seq<User>, f: Form)
    ensures var (users', o) := SignUpSpec(users, f);
      && (!o.Created? ==> users' == users)
      && (o.Created? ==>
            && f.gender.Some?
            && users' == users + [WithPassword(NewUserOf(f), f.password)]
            && VerifySpec(users', f.userId, f.role, f.password)
            && o.route == (if f.enableFaceId then "/face-id-setup" else "/"))
  {
    if f.gender.Some? {
      AddSpecFacts(users, NewUserOf(f), f.password);
    }
  }

  /** Sign-up keeps ids unique per role. */
  lemma SignUpKeepsUnique(users: seq<User>, f: Form)
    requires Unique(users)
    ensures Unique(SignUpSpec(users, f).0)
  {
    if f.gender.Some? {
      AddKeepsUnique(users, NewUserOf(f), f.password);
    }
  }

  /** `handleSignUp(e)` against the store object. */
  method HandleSignUp(db: UserDB, f: Form) returns (outcome: Outcome)
    modifies db
    ensures (db.users, outcome) == SignUpSpec(old(db.users), f)
  {
    if !PasswordRegexTest(f.password) {
      return InvalidPassword;
    }
    if f.password != f.confirmPassword {
      return PasswordMismatch;
    }
    if f.gender.None? {
      return GenderMissing;
    }
    var userExists := db.FindUser(f.userId, f.role);
    if userExists.Some? {
      return AccountExists;
    }
    var result := db.AddUser(NewUserOf(f), f.password);
    if result == AlreadyExists {
      return SignUpFailed;
    }
    outcome := Created(if f.enableFaceId then "/face-id-setup" else "/");
  }
}
