/** The profile update of the user controller: the generic field copy that
    skips the fields a client may not change, and the change of the email
    address, which for a verified address waits for the new one to be
    verified. */
module UserController {
  import opened Wrappers
  import JavaText
  import opened AuthController

  /** `CHANGE_FORBIDDEN_FIELDS`. */
  const CHANGE_FORBIDDEN_FIELDS: seq<string> := [
    "userid", "emailVerified", "emailPendingVerification", "hasTemporaryEmail",
    "hasTemporaryPassword", "role", "active", "created", "lastActive"
  ]

  /** A field the generic update writes: not forbidden and not "email",
      which has its own procedure. */
  predicate Copyable(field: string) {
    field !in CHANGE_FORBIDDEN_FIELDS && field != "email"
  }

  /** The profile after the generic update: a copyable field that was set
      takes the input's value, every other field keeps its value. Profiles
      are maps from property names to values. */
  function CopiedFields<V>(profile: map<string, V>, input: map<string, V>, setFields: seq<string>)
    : (r: map<string, V>)
    requires forall f :: f in setFields ==> f in input
    ensures r.Keys == profile.Keys + (set f | f in setFields && Copyable(f))
    ensures forall f :: f in r ==> r[f] == if f in setFields && Copyable(f) then input[f] else profile[f]
  {
    if |setFields| == 0 then profile
    else
      var f := setFields[|setFields| - 1];
      var init := setFields[..|setFields| - 1];
      assert forall g :: g in setFields <==> g in init || g == f;
      var rest := CopiedFields(profile, input, init);
      if Copyable(f) then rest[f := input[f]] else rest
  }

  /** The fields a client may not change, and "email", keep their values. */
  lemma ForbiddenFieldsKept<V>(profile: map<string, V>, input: map<string, V>, setFields: seq<string>, f: string)
    requires forall g :: g in setFields ==> g in input
    requires f in profile && !Copyable(f)
    ensures f in CopiedFields(profile, input, setFields) && CopiedFields(profile, input, setFields)[f] == profile[f]
  {
  }

  /** Writing the same input again changes nothing. */
  lemma CopyIdempotent<V>(profile: map<string, V>, input: map<string, V>, setFields: seq<string>)
    requires forall f :: f in setFields ==> f in input
    ensures CopiedFields(CopiedFields(profile, input, setFields), input, setFields) ==
            CopiedFields(profile, input, setFields)
  {
    var once := CopiedFields(profile, input, setFields);
    var twice := CopiedFields(once, input, setFields);
    assert twice.Keys == once.Keys;
    assert forall f :: f in twice ==> twice[f] == once[f];
  }

  /** The loop over the set fields in `doSetUser`. */
  method CopyFields<V>(profile: map<string, V>, input: map<string, V>, setFields: seq<string>)
    returns (r: map<string, V>)
    requires forall f :: f in setFields ==> f in input
    ensures r == CopiedFields(profile, input, setFields)
  {
    r := profile;
    var n := 0;
    while n < |setFields|
      invariant 0 <= n <= |setFields|
      invariant r == CopiedFields(profile, input, setFields[..n])
    {
      assert setFields[..n + 1][..n] == setFields[..n];
      var field := setFields[n];
      if field in CHANGE_FORBIDDEN_FIELDS || field == "email" {
        n := n + 1;
        continue;
      }
      r := r[field := input[field]];
      n := n + 1;
    }
    assert setFields[..n] == setFields;
  }

  /** `EmailChangedState`. */
  datatype EmailChangedState =
    | NotChanged
    | PendingVerificationChanged
    | TemporaryChanged
    | VerifiedChanged
    | UnverifiedChanged

  /** The email fields of a user with the temporary email flag. */
  datatype EmailProfile = EmailProfile(fields: EmailState, hasTemporaryEmail: bool)

  /** The address the user is heading for: the pending one if any, else the
      current one. */
  function Target(p: EmailProfile): string {
    if p.fields.pending.Some? then p.fields.pending.value else p.fields.email
  }

  /** `setUserEmailGetState`: the new profile and the state. */
  function EmailChange(p: EmailProfile, newEmail: string): (r: (EmailProfile, EmailChangedState))
    ensures Target(r.0) == newEmail
    ensures r.1 == NotChanged <==> newEmail == p.fields.email || p.fields.pending == Some(newEmail)
    ensures r.1 == NotChanged && p.fields.pending.Some? && p.fields.pending != Some(newEmail) ==>
              r.0.fields == p.fields.(pending := None, code := None, codeTime := None) &&
              r.0.hasTemporaryEmail == p.hasTemporaryEmail
    ensures r.1 == NotChanged && (p.fields.pending.None? || p.fields.pending == Some(newEmail)) ==> r.0 == p
    ensures r.0.fields.emailVerified == p.fields.emailVerified
  {
    var f := p.fields;
    if f.pending.Some? then
      if newEmail == f.pending.value then (p, NotChanged)
      else if newEmail == f.email then
        (p.(fields := f.(pending := None, code := None, codeTime := None)), NotChanged)
      else (p.(fields := f.(pending := Some(newEmail))), PendingVerificationChanged)
    else if newEmail == f.email then (p, NotChanged)
    else if p.hasTemporaryEmail then
      (EmailProfile(f.(email := newEmail), false), TemporaryChanged)
    else if f.emailVerified then (p.(fields := f.(pending := Some(newEmail))), VerifiedChanged)
    else (p.(fields := f.(email := newEmail)), UnverifiedChanged)
  }

  /** A verified address is replaced only by verifying the new one: without
      a temporary address the change is held as pending. */
  lemma VerifiedEmailKept(p: EmailProfile, newEmail: string)
    requires p.fields.emailVerified && !p.hasTemporaryEmail
    ensures EmailChange(p, newEmail).0.fields.email == p.fields.email
  {
  }

  /** Asking for the same address again is not a change and changes
      nothing. */
  lemma EmailChangeIdempotent(p: EmailProfile, newEmail: string)
    ensures var once := EmailChange(p, newEmail).0;
            EmailChange(once, newEmail) == (once, NotChanged)
  {
  }

  /** The outcome of `setUserEmail`: the state and the lower-cased new
      address when it changed. */
  datatype EmailResult = EmailResult(state: EmailChangedState, newEmail: Option<string>)

  /** `setUserEmail`: no new address is no change; the address is
      lower-cased; a change to an address in use by any user, as email or
      pending email, is forbidden. `taken` stands for `UserCache.emailExists`.
      The profile changes as the state function says, also when the change
      is then forbidden. */
  function UserEmailSet(p: EmailProfile, newEmail: Option<string>, taken: string -> bool)
    : (r: (EmailProfile, Result<EmailResult, string>))
    ensures newEmail.None? ==> r == (p, Ok(EmailResult(NotChanged, None)))
    ensures newEmail.Some? ==> Target(r.0) == JavaText.ToLower(newEmail.value)
    ensures r.1.Err? <==> newEmail.Some? && taken(JavaText.ToLower(newEmail.value)) &&
                          EmailChange(p, JavaText.ToLower(newEmail.value)).1 != NotChanged
    ensures r.1.Err? ==> r.1.error == "User with email " + JavaText.ToLower(newEmail.value) + " already exists"
    ensures r.1.Ok? && r.1.value.state != NotChanged ==> r.1.value.newEmail == Some(Target(r.0))
  {
    if newEmail.None? then (p, Ok(EmailResult(NotChanged, None)))
    else
      var lower := JavaText.ToLower(newEmail.value);
      var (p', state) := EmailChange(p, lower);
      if state == NotChanged then (p', Ok(EmailResult(NotChanged, None)))
      else if taken(lower) then (p', Err("User with email " + lower + " already exists"))
      else (p', Ok(EmailResult(state, Some(lower))))
  }

  /** The user object whose fields `setUserEmailGetState` assigns. */
  class EmailUser {
    var email: string
    var emailVerified: bool
    var emailPendingVerification: Option<string>
    var verifyEmailRequestCode: Option<string>
    var verifyEmailRequestTime: Option<int>
    var hasTemporaryEmail: bool

    function Profile(): EmailProfile
      reads this
    {
      EmailProfile(EmailState(email, emailVerified, emailPendingVerification, verifyEmailRequestCode,
                              verifyEmailRequestTime), hasTemporaryEmail)
    }

    constructor (p: EmailProfile)
      ensures Profile() == p
    {
      email := p.fields.email;
      emailVerified := p.fields.emailVerified;
      emailPendingVerification := p.fields.pending;
      verifyEmailRequestCode := p.fields.code;
      verifyEmailRequestTime := p.fields.codeTime;
      hasTemporaryEmail := p.hasTemporaryEmail;
    }

    /** `setUserEmailGetState`. */
    method SetUserEmailGetState(newEmail: string) returns (state: EmailChangedState)
      modifies this
      ensures (Profile(), state) == EmailChange(old(Profile()), newEmail)
    {
      if emailPendingVerification.Some? {
        if newEmail == emailPendingVerification.value {
          return NotChanged;
        }
        if newEmail == email {
          emailPendingVerification := None;
          verifyEmailRequestCode := None;
          verifyEmailRequestTime := None;
          return NotChanged;
        }
        emailPendingVerification := Some(newEmail);
        return PendingVerificationChanged;
      } else {
        if newEmail == email {
          return NotChanged;
        }
        if hasTemporaryEmail {
          email := newEmail;
          hasTemporaryEmail := false;
          return TemporaryChanged;
        } else if emailVerified {
          emailPendingVerification := Some(newEmail);
          return VerifiedChanged;
        } else {
          email := newEmail;
          return UnverifiedChanged;
        }
      }
    }

    /** `setUserEmail`. */
    method SetUserEmail(newEmail: Option<string>, taken: string -> bool) returns (r: Result<EmailResult, string>)
      modifies this
      ensures (Profile(), r) == UserEmailSet(old(Profile()), newEmail, taken)
    {
      if newEmail.None? {
        return Ok(EmailResult(NotChanged, None));
      }
      var lower := JavaText.ToLower(newEmail.value);
      var state := SetUserEmailGetState(lower);
      if state == NotChanged {
        return Ok(EmailResult(NotChanged, None));
      }
      if taken(lower) {
        return Err("User with email " + lower + " already exists");
      }
      return Ok(EmailResult(state, Some(lower)));
    }
  }
}
