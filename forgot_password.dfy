/** The forgot-password page (forgot-password/page.tsx): the reset-link
    request and the Face ID reset both look the user up by id or e-mail in
    every role; the Face ID reset goes on to the camera only for a user who
    enabled Face ID. */
module ForgotPassword {
  import opened Strings
  import opened UserDb

  datatype ResetLinkOutcome = UserNotFound | LinkSent(route: string)

  /** `handleResetLink` on a store. */
  function ResetLinkSpec(users: seq<User>, emailOrId: string): ResetLinkOutcome
  {
    if FindByIdOrEmailIn(users, emailOrId, None).None? then UserNotFound else LinkSent("/")
  }

  /** The outcomes of `handleFaceIdReset`; whether the browser grants the
      camera is a parameter. */
  datatype FaceIdOutcome = FaceIdNotEnabled | CameraDenied | FaceIdVerified(route: string)

  function FaceIdResetSpec(users: seq<User>, emailOrId: string, cameraGranted: bool): FaceIdOutcome
  {
    var user := FindByIdOrEmailIn(users, emailOrId, None);
    if user.None? || !user.value.faceIdEnabled then FaceIdNotEnabled
    else if cameraGranted then FaceIdVerified("/")
    else CameraDenied
  }

  /** The reset link reports User Not Found exactly when no user of any
      role has the identifier as id or e-mail. */
  lemma ResetLinkNotFoundIff(users: seq<User>, emailOrId: string)
    ensures ResetLinkSpec(users, emailOrId) == UserNotFound <==>
      forall i :: 0 <= i < |users| ==> Lower(users[i].id) != Lower(emailOrId) && Lower(users[i].email) != Lower(emailOrId)
  {
  }

  /** Neither path looks at roles: giving every user another role changes
      neither outcome. */
  lemma {:induction false} RolesIgnored(users: seq<User>, users': seq<User>, emailOrId: string, cameraGranted: bool)
    requires |users'| == |users|
    requires forall i :: 0 <= i < |users| ==> users'[i] == users[i].(role := users'[i].role)
    ensures ResetLinkSpec(users', emailOrId) == ResetLinkSpec(users, emailOrId)
    ensures FaceIdResetSpec(users', emailOrId, cameraGranted) == FaceIdResetSpec(users, emailOrId, cameraGranted)
  {
    if users != [] {
      RolesIgnored(users[1..], users'[1..], emailOrId, cameraGranted);
      assert users'[0] == users[0].(role := users'[0].role);
    }
  }

  /** The Face ID reset is refused when nobody matches or the user found
      has not enabled Face ID, and then the camera is never asked: the
      outcome is the same whether it would be granted or not. */
  lemma FaceIdGate(users: seq<User>, emailOrId: string, cameraGranted: bool)
    ensures var user := FindByIdOrEmailIn(users, emailOrId, None);
      && (FaceIdResetSpec(users, emailOrId, cameraGranted) == FaceIdNotEnabled <==>
            user.None? || !user.value.faceIdEnabled)
      && (FaceIdResetSpec(users, emailOrId, cameraGranted) == FaceIdNotEnabled ==>
            FaceIdResetSpec(users, emailOrId, !cameraGranted) == FaceIdNotEnabled)
      && (FaceIdResetSpec(users, emailOrId, cameraGranted).FaceIdVerified? <==>
            cameraGranted && user.Some? && user.value.faceIdEnabled)
  {
  }

  /** The default accounts have not enabled Face ID, so neither can reset
      that way; both can ask for a reset link. */
  lemma DefaultAccountsReset(emailOrId: string, cameraGranted: bool)
    ensures FaceIdResetSpec(DefaultUsers, emailOrId, cameraGranted) == FaceIdNotEnabled
    ensures ResetLinkSpec(DefaultUsers, "ADMIN@futa.edu.ng") == LinkSent("/")
  {
    var user := FindByIdOrEmailIn(DefaultUsers, emailOrId, None);
    if user.Some? {
      assert user.value in DefaultUsers;
    }
    assert Lower("ADMIN@futa.edu.ng") == Lower(DefaultUsers[0].id);
  }

  /** The Face ID button is disabled while a request is in progress or
      when the identifier box is empty. */
  predicate FaceIdButtonEnabled(isProcessing: bool, emailOrId: string)
  {
    !(isProcessing || emailOrId == "")
  }

  /** The reset-link button is disabled while a request is in progress. */
  predicate ResetButtonEnabled(isProcessing: bool)
  {
    !isProcessing
  }

  /** The Face ID button is never enabled with an empty identifier, and
      that identifier could find nobody anyway: in a store where every user
      has an id and an e-mail, the empty identifier gets User Not Found and
      a Face ID refusal, so the camera is never asked for it. */
  lemma FaceIdButtonNeedsIdentifier(users: seq<User>, isProcessing: bool, cameraGranted: bool)
    requires forall i :: 0 <= i < |users| ==> users[i].id != "" && users[i].email != ""
    ensures !FaceIdButtonEnabled(isProcessing, "")
    ensures ResetLinkSpec(users, "") == UserNotFound
    ensures FaceIdResetSpec(users, "", cameraGranted) == FaceIdNotEnabled
  {
    forall i | 0 <= i < |users|
      ensures Lower(users[i].id) != Lower("") && Lower(users[i].email) != Lower("")
    {
      assert |Lower(users[i].id)| == |users[i].id|;
      assert |Lower(users[i].email)| == |users[i].email|;
    }
    ResetLinkNotFoundIff(users, "");
  }

  /** `handleResetLink`; it reads the store and never changes it. */
  method HandleResetLink(db: UserDB, emailOrId: string) returns (outcome: ResetLinkOutcome)
    ensures outcome == ResetLinkSpec(db.users, emailOrId)
  {
    var user := db.FindUserByIdOrEmail(emailOrId, None);
    if user.None? {
      return UserNotFound;
    }
    outcome := LinkSent("/");
  }

  /** `handleFaceIdReset`; it reads the store and never changes it, and
      asks for the camera only after the gate. */
  method HandleFaceIdReset(db: UserDB, emailOrId: string, cameraGranted: bool) returns (outcome: FaceIdOutcome)
    ensures outcome == FaceIdResetSpec(db.users, emailOrId, cameraGranted)
  {
    var user := db.FindUserByIdOrEmail(emailOrId, None);
    if user.None? || !user.value.faceIdEnabled {
      return FaceIdNotEnabled;
    }
    if cameraGranted {
      outcome := FaceIdVerified("/");
    } else {
      outcome := CameraDenied;
    }
  }
}
