/** The client-side user store (lib/user-db.ts): a list of users that is
    seeded with two default accounts when empty, searched
    case-insensitively by id (and, for log-in, by e-mail), appended to by
    sign-up, and used to check passwords. */
module UserDb {
  import opened Strings

  datatype Role = Applicant | Admin
  datatype Gender = Male | Female

  /** `User`; `passwordHash` holds the password as typed. */
  datatype User = User(
    id: string,
    role: Role,
    fullName: string,
    email: string,
    phone: string,
    passwordHash: string,
    faceIdEnabled: bool,
    gender: Gender)

  /** `Omit<User, 'passwordHash'>`. */
  datatype NewUser = NewUser(
    id: string,
    role: Role,
    fullName: string,
    email: string,
    phone: string,
    faceIdEnabled: bool,
    gender: Gender)

  /** The `{ success, error }` of `addUser`. */
  datatype AddResult = Added | AlreadyExists

  /** `user.id.toLowerCase() === id.toLowerCase() && user.role === role`. */
  predicate MatchesId(u: User, id: string, role: Role)
  {
    Lower(u.id) == Lower(id) && u.role == role
  }

  /** The `findUserByIdOrEmail` test: the id or the e-mail matches
      case-insensitively, and the role matches when one is given. */
  predicate MatchesIdentifier(u: User, identifier: string, role: Option<Role>)
  {
    (Lower(u.id) == Lower(identifier) || Lower(u.email) == Lower(identifier))
    && (role.None? || u.role == role.value)
  }

  /** `findUser` over `users`: the first user matching id and role. */
  function FindIn(users: seq<User>, id: string, role: Role): (r: Option<User>)
    ensures r.None? <==> forall i :: 0 <= i < |users| ==> !MatchesId(users[i], id, role)
    ensures r.Some? ==> exists i :: (0 <= i < |users| && users[i] == r.value && MatchesId(r.value, id, role)
                                     && forall j :: 0 <= j < i ==> !MatchesId(users[j], id, role))
  {
    if users == [] then None
    else if MatchesId(users[0], id, role) then Some(users[0])
    else
      var r := FindIn(users[1..], id, role);
      assert r.Some? ==> exists i :: (1 <= i < |users| && users[i] == r.value && MatchesId(r.value, id, role)
                                      && forall j :: 0 <= j < i ==> !MatchesId(users[j], id, role)) by {
        if r.Some? {
          var i :| 0 <= i < |users[1..]| && users[1..][i] == r.value && MatchesId(r.value, id, role)
            && forall j :: 0 <= j < i ==> !MatchesId(users[1..][j], id, role);
          assert users[i + 1] == r.value;
          forall j | 0 <= j < i + 1 ensures !MatchesId(users[j], id, role) {
            if j > 0 { assert users[j] == users[1..][j - 1]; }
          }
        }
      }
      r
  }

  /** `findUserByIdOrEmail` over `users`: the first user whose id or
      e-mail matches, of the given role if any. */
  function FindByIdOrEmailIn(users: seq<User>, identifier: string, role: Option<Role>): (r: Option<User>)
    ensures r.None? <==> forall i :: 0 <= i < |users| ==> !MatchesIdentifier(users[i], identifier, role)
    ensures r.Some? ==> exists i :: (0 <= i < |users| && users[i] == r.value && MatchesIdentifier(r.value, identifier, role)
                                     && forall j :: 0 <= j < i ==> !MatchesIdentifier(users[j], identifier, role))
  {
    if users == [] then None
    else if MatchesIdentifier(users[0], identifier, role) then Some(users[0])
    else
      var r := FindByIdOrEmailIn(users[1..], identifier, role);
      assert r.Some? ==> exists i :: (1 <= i < |users| && users[i] == r.value && MatchesIdentifier(r.value, identifier, role)
                                      && forall j :: 0 <= j < i ==> !MatchesIdentifier(users[j], identifier, role)) by {
        if r.Some? {
          var i :| 0 <= i < |users[1..]| && users[1..][i] == r.value && MatchesIdentifier(r.value, identifier, role)
            && forall j :: 0 <= j < i ==> !MatchesIdentifier(users[1..][j], identifier, role);
          assert users[i + 1] == r.value;
          forall j | 0 <= j < i + 1 ensures !MatchesIdentifier(users[j], identifier, role) {
            if j > 0 { assert users[j] == users[1..][j - 1]; }
          }
        }
      }
      r
  }

  /** The stored record for a new user and its password. */
  function WithPassword(nu: NewUser, password: string): (u: User)
    ensures u.id == nu.id && u.role == nu.role && u.passwordHash == password
  {
    User(nu.id, nu.role, nu.fullName, nu.email, nu.phone, password, nu.faceIdEnabled, nu.gender)
  }

  /** The store after `addUser(nu, password)`, with its result. */
  function AddSpec(users: seq<User>, nu: NewUser, password: string): (seq<User>, AddResult)
  {
    if FindIn(users, nu.id, nu.role).Some? then (users, AlreadyExists)
    else (users + [WithPassword(nu, password)], Added)
  }

  /** `verifyPassword` over `users`: the user found by id and role has
      exactly that password. */
  predicate VerifySpec(users: seq<User>, id: string, role: Role, candidate: string)
  {
    FindIn(users, id, role).Some? && FindIn(users, id, role).value.passwordHash == candidate
  }

  /** No two users share a lower-cased id and a role. */
  predicate Unique(users: seq<User>)
  {
    forall i, j :: 0 <= i < j < |users| ==> !MatchesId(users[j], users[i].id, users[i].role)
  }

  /** The accounts `initializeDB` writes into an empty store. */
  const DefaultUsers: seq<User> := [
    User("admin@futa.edu.ng", Admin, "Admin User", "admin@futa.edu.ng", "1234567890", "AdminPass123!", false, Male),
    User("12345678AB", Applicant, "John Doe", "john@example.com", "0987654321", "Password123!", false, Male)
  ]

  // ---------------------------------------------------------------------
  // Properties of the store

  /** The default accounts do not clash, and each can log in with its
      seeded password. */
  lemma DefaultUsersFacts()
    ensures Unique(DefaultUsers)
    ensures VerifySpec(DefaultUsers, "admin@futa.edu.ng", Admin, "AdminPass123!")
    ensures VerifySpec(DefaultUsers, "12345678AB", Applicant, "Password123!")
  {
    assert DefaultUsers[1].role != DefaultUsers[0].role;
  }

  /** Look-ups ignore the case of the id: lower-casing the argument first
      changes nothing. */
  lemma FindIgnoresCase(users: seq<User>, id: string, role: Role)
    ensures FindIn(users, Lower(id), role) == FindIn(users, id, role)
  {
    LowerIdempotent(id);
  }

  /** In a store without clashes, the user found is the one user with that
      id and role. */
  lemma {:induction false} FindUnique(users: seq<User>, i: nat, id: string, role: Role)
    requires Unique(users) && i < |users| && MatchesId(users[i], id, role)
    ensures FindIn(users, id, role) == Some(users[i])
  {
    if i > 0 {
      assert !MatchesId(users[i], users[0].id, users[0].role);
      FindUnique(users[1..], i - 1, id, role);
    }
  }

  /** The search by id or e-mail returns the first user that matches. */
  lemma {:induction false} FindByIdOrEmailFirst(users: seq<User>, i: nat, identifier: string, role: Option<Role>)
    requires i < |users| && MatchesIdentifier(users[i], identifier, role)
    requires forall j :: 0 <= j < i ==> !MatchesIdentifier(users[j], identifier, role)
    ensures FindByIdOrEmailIn(users, identifier, role) == Some(users[i])
  {
    if i > 0 {
      assert !MatchesIdentifier(users[0], identifier, role);
      assert users[1..][i - 1] == users[i];
      FindByIdOrEmailFirst(users[1..], i - 1, identifier, role);
    }
  }

  /** A user appended at the end is found when no earlier one matches, and
      appending a user of another role changes no search for this role. */
  lemma {:induction false} FindAppend(users: seq<User>, u: User, id: string, role: Role)
    ensures FindIn(users, id, role).Some? ==> FindIn(users + [u], id, role) == FindIn(users, id, role)
    ensures FindIn(users, id, role).None? ==>
      FindIn(users + [u], id, role) == (if MatchesId(u, id, role) then Some(u) else None)
    ensures u.role != role ==> FindIn(users + [u], id, role) == FindIn(users, id, role)
  {
    if users != [] {
      assert (users + [u])[1..] == users[1..] + [u];
      FindAppend(users[1..], u, id, role);
    }
  }

  /** `addUser` fails, leaving the store as it was, exactly when a user
      with the same id (in any case) and role exists; otherwise it appends
      the one new user, whose password then verifies. */
  lemma AddSpecFacts(users: seq<User>, nu: NewUser, password: string)
    ensures AddSpec(users, nu, password).1 == AlreadyExists <==> FindIn(users, nu.id, nu.role).Some?
    ensures AddSpec(users, nu, password).1 == AlreadyExists ==> AddSpec(users, nu, password).0 == users
    ensures AddSpec(users, nu, password).1 == Added ==>
      && AddSpec(users, nu, password).0 == users + [WithPassword(nu, password)]
      && VerifySpec(AddSpec(users, nu, password).0, nu.id, nu.role, password)
  {
    FindAppend(users, WithPassword(nu, password), nu.id, nu.role);
  }

  /** `addUser` keeps ids unique per role; the same id under the other role
      is allowed. */
  lemma AddKeepsUnique(users: seq<User>, nu: NewUser, password: string)
    requires Unique(users)
    ensures Unique(AddSpec(users, nu, password).0)
  {
    if FindIn(users, nu.id, nu.role).None? {
      var u := WithPassword(nu, password);
      var users' := users + [u];
      forall i, j | 0 <= i < j < |users'| ensures !MatchesId(users'[j], users'[i].id, users'[i].role) {
        if j == |users| {
          assert !MatchesId(users[i], nu.id, nu.role);
          assert users'[i] == users[i];
        } else {
          assert users'[i] == users[i] && users'[j] == users[j];
        }
      }
    }
  }

  /** The same id may be registered once per role. */
  lemma SameIdOtherRole(nu: NewUser, other: NewUser, password: string, password': string)
    requires other.id == nu.id && other.role != nu.role
    ensures var (users, r) := AddSpec([], nu, password);
            r == Added && AddSpec(users, other, password').1 == Added
  {
    var (users, r) := AddSpec([], nu, password);
    assert users == [WithPassword(nu, password)];
    assert !MatchesId(users[0], other.id, other.role);
  }

  /** The store object. */
  class UserDB {
    var users: seq<User>

    /** The store as read from persistent storage at page load. */
    constructor (stored: seq<User>)
      ensures users == stored
    {
      users := stored;
    }

    /** `initializeDB`: an empty store receives the default accounts, a
        non-empty one is left as it is. */
    method Initialize()
      modifies this
      ensures users == if old(users) == [] then DefaultUsers else old(users)
    {
      if |users| == 0 {
        users := DefaultUsers;
      }
    }

    /** `findUser(id, role)`: a front-to-back scan that stops at the first
        match. */
    method FindUser(id: string, role: Role) returns (r: Option<User>)
      ensures r == FindIn(users, id, role)
    {
      var i := 0;
      while i < |users|
        invariant 0 <= i <= |users|
        invariant forall j :: 0 <= j < i ==> !MatchesId(users[j], id, role)
      {
        if MatchesId(users[i], id, role) {
          return Some(users[i]);
        }
        i := i + 1;
      }
      r := None;
    }

    /** `findUserByIdOrEmail(identifier, role?)`: the same scan with the
        id-or-e-mail test. */
    method FindUserByIdOrEmail(identifier: string, role: Option<Role>) returns (r: Option<User>)
      ensures r == FindByIdOrEmailIn(users, identifier, role)
    {
      var i := 0;
      while i < |users|
        invariant 0 <= i <= |users|
        invariant forall j :: 0 <= j < i ==> !MatchesIdentifier(users[j], identifier, role)
      {
        if MatchesIdentifier(users[i], identifier, role) {
          return Some(users[i]);
        }
        i := i + 1;
      }
      r := None;
    }

    /** `addUser(newUser, password)`. */
    method AddUser(nu: NewUser, password: string) returns (result: AddResult)
      modifies this
      ensures (users, result) == AddSpec(old(users), nu, password)
      ensures result == AlreadyExists <==> FindIn(old(users), nu.id, nu.role).Some?
      ensures old(Unique(users)) ==> Unique(users)
    {
      AddSpecFacts(users, nu, password);
      if Unique(users) {
        AddKeepsUnique(users, nu, password);
      }
      var existing := FindIn(users, nu.id, nu.role);
      if existing.Some? {
        return AlreadyExists;
      }
      users := users + [WithPassword(nu, password)];
      result := Added;
    }

    /** `verifyPassword(id, role, candidate)`. */
    method VerifyPassword(id: string, role: Role, candidate: string) returns (ok: bool)
      ensures ok == VerifySpec(users, id, role, candidate)
      ensures ok ==> exists i :: 0 <= i < |users| && MatchesId(users[i], id, role) && users[i].passwordHash == candidate
    {
      var user := FindUser(id, role);
      if user.None? {
        return false;
      }
      ok := user.value.passwordHash == candidate;
    }
  }
}
