/** The client's user record: its fields, the copy of one user into
    another, the display name composed from the name fields, and the locale
    read from the locale code. Times are milliseconds and dates days; enum
    values the model does not inspect are kept by name. */
module ClientUser {
  import opened Wrappers
  import JavaText

  /** `Role`. */
  datatype Role = Admin | Professional | Patient

  /** `Gender`: `OtherGender` stands for every value besides MALE and
      FEMALE. */
  datatype Gender = Male | Female | OtherGender

  /** The fields of a user, in the order of their declaration; `None` is
      null. */
  datatype UserFields = UserFields(
    id: Option<string>, userid: Option<string>, email: Option<string>, emailVerified: bool,
    emailPendingVerification: Option<string>, hasTemporaryEmail: bool, hasTemporaryPassword: bool,
    role: Option<Role>, active: bool, created: Option<int>, lastActive: Option<int>,
    gender: Option<Gender>, maritalStatus: Option<string>, title: Option<string>,
    initials: Option<string>, firstName: Option<string>, officialFirstNames: Option<string>,
    prefixes: Option<string>, lastName: Option<string>, officialLastNames: Option<string>,
    fullName: Option<string>, nickName: Option<string>, altEmail: Option<string>,
    birthDate: Option<int>, deceasedDate: Option<int>, idNumber: Option<string>,
    landlinePhone: Option<string>, mobilePhone: Option<string>, street: Option<string>,
    streetNumber: Option<string>, addressExtra: Option<string>, postalCode: Option<string>,
    town: Option<string>, departmentCode: Option<string>, extraInfo: Option<string>,
    localeCode: Option<string>, languageFormality: Option<string>, timeZone: Option<string>,
    status: Option<string>)

  /** A string without the characters `trim` removes at either end. */
  predicate Trimmed(s: string) {
    |s| > 0 && !JavaText.TrimmedChar(s[0]) && !JavaText.TrimmedChar(s[|s| - 1])
  }

  /** A field that is set and not blank, trimmed; otherwise null. */
  function NonBlank(s: Option<string>): (r: Option<string>)
    ensures r.Some? ==> Trimmed(r.value)
    ensures r.None? <==> s.None? || JavaText.Trim(s.value) == []
  {
    if s.Some? && JavaText.Trim(s.value) != [] then Some(JavaText.Trim(s.value)) else None
  }

  /** The first of two optional values that is set. */
  function Either(a: Option<string>, b: Option<string>): Option<string> {
    if a.Some? then a else b
  }

  lemma JoinedTrimmed(a: string, b: string)
    requires Trimmed(a) && Trimmed(b)
    ensures Trimmed(a + " " + b)
  {
    assert (a + " " + b)[0] == a[0];
  }

  /** The last name `toRealName` composes: the last name, else the official
      last names, with the prefixes in front when both exist. */
  function LastNameOf(u: UserFields): (r: Option<string>)
    ensures r.Some? ==> Trimmed(r.value)
    ensures r.None? <==> NonBlank(u.lastName).None? && NonBlank(u.officialLastNames).None?
  {
    var last := Either(NonBlank(u.lastName), NonBlank(u.officialLastNames));
    if last.Some? && NonBlank(u.prefixes).Some? then
      JoinedTrimmed(NonBlank(u.prefixes).value, last.value);
      Some(NonBlank(u.prefixes).value + " " + last.value)
    else last
  }

  /** The first name: the first name, else the official first names. */
  function FirstNameOf(u: UserFields): Option<string> {
    Either(NonBlank(u.firstName), NonBlank(u.officialFirstNames))
  }

  /** `toRealName`: a full name wins; otherwise the first name and last
      name, else the initials and last name, else the last name, else the
      first name. It is null exactly when none of the full name and the
      four first and last name fields is filled in, and never has white
      space at its ends. */
  function RealName(u: UserFields): (r: Option<string>)
    ensures NonBlank(u.fullName).Some? ==> r == NonBlank(u.fullName)
    ensures r.None? <==> NonBlank(u.fullName).None? && NonBlank(u.lastName).None? &&
                         NonBlank(u.officialLastNames).None? && NonBlank(u.firstName).None? &&
                         NonBlank(u.officialFirstNames).None?
    ensures r.Some? ==> Trimmed(r.value)
    ensures NonBlank(u.fullName).None? && LastNameOf(u).None? ==> r == FirstNameOf(u)
  {
    if NonBlank(u.fullName).Some? then NonBlank(u.fullName)
    else
      var lastName := LastNameOf(u);
      var initials := NonBlank(u.initials);
      var firstName := FirstNameOf(u);
      if firstName.Some? && lastName.Some? then
        JoinedTrimmed(firstName.value, lastName.value);
        Some(firstName.value + " " + lastName.value)
      else if initials.Some? && lastName.Some? then
        JoinedTrimmed(initials.value, lastName.value);
        Some(initials.value + " " + lastName.value)
      else if lastName.Some? then lastName
      else firstName
  }

  /** Initials show only with a last name and without a first name: when a
      first name exists they never appear, and without a last name the
      result is the first name. */
  lemma InitialsOnlyWithLastName(u: UserFields)
    requires NonBlank(u.fullName).None?
    ensures FirstNameOf(u).Some? && LastNameOf(u).Some? ==>
              RealName(u) == Some(FirstNameOf(u).value + " " + LastNameOf(u).value)
    ensures FirstNameOf(u).None? && LastNameOf(u).Some? && NonBlank(u.initials).Some? ==>
              RealName(u) == Some(NonBlank(u.initials).value + " " + LastNameOf(u).value)
    ensures LastNameOf(u).None? ==> RealName(u) == FirstNameOf(u)
  {
  }

  /** `Locale`: a language and an optional region. */
  datatype Locale = Locale(language: string, country: Option<string>)

  predicate IsLowerPair(s: string) {
    |s| == 2 && 'a' <= s[0] <= 'z' && 'a' <= s[1] <= 'z'
  }

  predicate IsUpperPair(s: string) {
    |s| == 2 && 'A' <= s[0] <= 'Z' && 'A' <= s[1] <= 'Z'
  }

  function UpperChar(c: char): char {
    if 'a' <= c <= 'z' then (c as int - 'a' as int + 'A' as int) as char else c
  }

  /** A locale the code pattern can express. */
  predicate CodeLocale(l: Locale) {
    IsLowerPair(l.language) && (l.country.None? || IsUpperPair(l.country.value))
  }

  /** `toLocale`: the lower-cased code must be two letters, optionally
      followed by an underscore and two more; the region is upper-cased.
      A null or other code gives the default locale. */
  function LocaleOf(localeCode: Option<string>, defaultLocale: Locale): (r: Locale)
    ensures localeCode.None? ==> r == defaultLocale
    ensures localeCode.Some? && |localeCode.value| != 2 && |localeCode.value| != 5 ==> r == defaultLocale
    ensures r == defaultLocale || CodeLocale(r)
  {
    if localeCode.None? then defaultLocale
    else
      var code := JavaText.ToLower(localeCode.value);
      if IsLowerPair(code) then Locale(code, None)
      else if |code| == 5 && IsLowerPair(code[..2]) && code[2] == '_' && IsLowerPair(code[3..]) then
        Locale(code[..2], Some([UpperChar(code[3]), UpperChar(code[4])]))
      else defaultLocale
  }

  /** The code of a locale: the language and, if any, an underscore and the
      lower-cased region. */
  function CodeOf(l: Locale): string {
    if l.country.None? then l.language else l.language + "_" + JavaText.ToLower(l.country.value)
  }

  /** Reading the code of a locale gives back that locale. */
  lemma LocaleRoundTrip(l: Locale, defaultLocale: Locale)
    requires CodeLocale(l)
    ensures LocaleOf(Some(CodeOf(l)), defaultLocale) == l
  {
    var code := CodeOf(l);
    JavaText.ToLowerIdempotent(code);
    assert JavaText.ToLower(code) == code by {
      assert forall i :: 0 <= i < |code| ==> JavaText.LowerChar(code[i]) == code[i];
    }
    if l.country.Some? {
      var c := l.country.value;
      assert code[..2] == l.language;
      assert [UpperChar(code[3]), UpperChar(code[4])] == c;
    }
  }

  /** The code is read without regard to case. */
  lemma LocaleIgnoresCase(localeCode: string, defaultLocale: Locale)
    ensures LocaleOf(Some(localeCode), defaultLocale) == LocaleOf(Some(JavaText.ToLower(localeCode)), defaultLocale)
  {
    JavaText.ToLowerIdempotent(localeCode);
  }

  /** The user object; its fields are held as one record. */
  class User {
    var fields: UserFields

    /** A new user: not verified, no temporary email or password, active,
        everything else null. */
    constructor ()
      ensures fields.active && !fields.emailVerified && !fields.hasTemporaryEmail && !fields.hasTemporaryPassword
      ensures fields.userid.None? && fields.email.None? && fields.role.None? && fields.lastActive.None?
      ensures RealName(fields).None? && fields.localeCode.None?
    {
      fields := UserFields(None, None, None, false, None, false, false, None, true, None, None,
                           None, None, None, None, None, None, None, None, None, None, None,
                           None, None, None, None, None, None, None, None, None, None, None,
                           None, None, None, None, None, None);
    }

    /** `copyFrom` another user: every field takes the other's value, so
        the two then have the same real name and locale. */
    method CopyFrom(other: User)
      modifies this
      ensures fields == old(other.fields)
      ensures RealName(fields) == old(RealName(other.fields))
    {
      fields := other.fields;
    }
  }
}
