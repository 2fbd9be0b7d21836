/** The sign-up page of the web pages: the check of the email address and
    the order in which the sign-up form reports its first error. */
module Signup {
  import opened Wrappers
  import JavaText
  import JsText

  predicate IsLetterOrDigit(c: char) {
    'A' <= c <= 'Z' || 'a' <= c <= 'z' || '0' <= c <= '9'
  }

  /** The characters allowed in the local part of an address. */
  predicate LocalChar(c: char) {
    IsLetterOrDigit(c) || c in "!#$%&'*+-/=?^_`.{|}~"
  }

  /** The characters the domain label pattern admits. The pattern as
      written, [A-Za-z0-9\\-], also admits the backslash; `backslash` says
      whether it is admitted. */
  predicate LabelChar(c: char, backslash: bool) {
    IsLetterOrDigit(c) || c == '-' || (backslash && c == '\\')
  }

  predicate LabelChars(l: string, backslash: bool) {
    forall k :: 0 <= k < |l| ==> LabelChar(l[k], backslash)
  }

  predicate AllNumeric(s: string) {
    forall k :: 0 <= k < |s| ==> '0' <= s[k] <= '9'
  }

  /** `lastIndexOf`: the position of the last occurrence of `c`. */
  function LastIndexOf(s: string, c: char): (r: Option<nat>)
    ensures r.None? <==> c !in s
    ensures r.Some? ==> r.value < |s| && s[r.value] == c && c !in s[r.value + 1..]
    decreases |s|
  {
    if |s| == 0 then None
    else if s[|s| - 1] == c then Some(|s| - 1)
    else
      var r := LastIndexOf(s[..|s| - 1], c);
      assert s == s[..|s| - 1] + [s[|s| - 1]];
      if r.Some? then
        assert s[r.value + 1..] == s[..|s| - 1][r.value + 1..] + [s[|s| - 1]];
        r
      else r
  }

  /** `split('.')`: the texts between the dots, empty ones included. */
  function SplitDots(s: string): (r: seq<string>)
    ensures |r| >= 1
    ensures forall i :: 0 <= i < |r| ==> '.' !in r[i]
    decreases |s|
  {
    if |s| == 0 then [""]
    else
      var prev := SplitDots(s[..|s| - 1]);
      var c := s[|s| - 1];
      if c == '.' then prev + [""]
      else prev[..|prev| - 1] + [prev[|prev| - 1] + [c]]
  }

  /** One character more for `split('.')`: a dot starts a new label, any
      other character extends the last one. */
  function SplitStep(prev: seq<string>, c: char): seq<string>
    requires |prev| >= 1
  {
    if c == '.' then prev + [""] else prev[..|prev| - 1] + [prev[|prev| - 1] + [c]]
  }

  lemma SplitSnoc(s: string)
    requires |s| > 0
    ensures SplitDots(s) == SplitStep(SplitDots(s[..|s| - 1]), s[|s| - 1])
  {
  }

  /** The labels joined with dots. */
  function JoinDots(labels: seq<string>): string
    requires |labels| >= 1
    decreases |labels|
  {
    if |labels| == 1 then labels[0] else JoinDots(labels[..|labels| - 1]) + "." + labels[|labels| - 1]
  }

  /** Splitting at the dots and joining again gives the text back. */
  lemma {:induction false} SplitJoinDots(s: string)
    ensures JoinDots(SplitDots(s)) == s
    decreases |s|
  {
    if |s| > 0 {
      var init := s[..|s| - 1];
      SplitJoinDots(init);
      SplitSnoc(s);
      JoinStep(SplitDots(init), s[|s| - 1]);
      assert init + [s[|s| - 1]] == s;
    }
  }

  /** Joining after one more character of the split appends that
      character. */
  lemma JoinStep(prev: seq<string>, c: char)
    requires |prev| >= 1
    ensures JoinDots(SplitStep(prev, c)) == JoinDots(prev) + [c]
  {
    var next := SplitStep(prev, c);
    if c == '.' {
      assert next[..|next| - 1] == prev;
    } else if |prev| > 1 {
      var p := prev[..|prev| - 1];
      assert next[..|next| - 1] == p;
      assert JoinDots(prev) == JoinDots(p) + "." + prev[|prev| - 1];
    }
  }

  /** The check of the domain labels, in the order of the loop: each label
      matches the label pattern and neither starts nor ends with '-', and
      the last one is not all digits. */
  function CheckLabels(split: seq<string>, i: nat, backslash: bool): (r: bool)
    requires i <= |split|
    ensures r <==> forall j :: i <= j < |split| ==> LabelOk(split, j, backslash)
    decreases |split| - i
  {
    if i == |split| then true
    else
      var domainLabel := split[i];
      if !(|domainLabel| > 0 && LabelChars(domainLabel, backslash)) ||
         (|domainLabel| > 0 && domainLabel[0] == '-') || (|domainLabel| > 0 && domainLabel[|domainLabel| - 1] == '-') then
        assert !LabelOk(split, i, backslash);
        false
      else if i == |split| - 1 && AllNumeric(domainLabel) then
        assert !LabelOk(split, i, backslash);
        false
      else CheckLabels(split, i + 1, backslash)
  }

  /** Label `j` of a domain is acceptable. */
  predicate LabelOk(split: seq<string>, j: nat, backslash: bool)
    requires j < |split|
  {
    var l := split[j];
    |l| > 0 && LabelChars(l, backslash) && l[0] != '-' && l[|l| - 1] != '-' &&
    (j == |split| - 1 ==> !AllNumeric(l))
  }

  predicate LocalOk(localPart: string) {
    |localPart| > 0 && forall k :: 0 <= k < |localPart| ==> LocalChar(localPart[k])
  }

  /** A domain of at least two acceptable labels. */
  predicate DomainOk(domainPart: string, backslash: bool) {
    var split := SplitDots(domainPart);
    |split| >= 2 && forall j :: 0 <= j < |split| ==> LabelOk(split, j, backslash)
  }

  /** `_isValidEmail`, with the label pattern admitting the backslash or
      not. */
  function IsValidEmailWith(email: string, backslash: bool): (r: bool)
    ensures email == [] || '@' !in email ==> !r
    ensures r ==> var k := LastIndexOf(email, '@').value;
                  LocalOk(email[..k]) && DomainOk(email[k + 1..], backslash)
  {
    if |email| == 0 then false
    else
      var localDomainSep := LastIndexOf(email, '@');
      if localDomainSep.None? then false
      else
        var localPart := email[..localDomainSep.value];
        var domainPart := email[localDomainSep.value + 1..];
        if !LocalOk(localPart) then false
        else
          var split := SplitDots(domainPart);
          if |split| < 2 then false
          else CheckLabels(split, 0, backslash)
  }

  /** `_isValidEmail` as written. */
  function IsValidEmailAsWritten(email: string): bool {
    IsValidEmailWith(email, true)
  }

  /** `_isValidEmail` with the label pattern it evidently means,
      [A-Za-z0-9-]. */
  function IsValidEmail(email: string): bool {
    IsValidEmailWith(email, false)
  }

  /** The characters of a domain made of acceptable labels are label
      characters and dots. */
  lemma {:induction false} DomainChars(s: string, backslash: bool)
    requires forall i :: 0 <= i < |SplitDots(s)| ==> LabelChars(SplitDots(s)[i], backslash)
    ensures forall k :: 0 <= k < |s| ==> s[k] == '.' || LabelChar(s[k], backslash)
    decreases |s|
  {
    if |s| > 0 {
      var init := s[..|s| - 1];
      var prev := SplitDots(init);
      var r := SplitDots(s);
      var c := s[|s| - 1];
      if c == '.' {
        assert forall i :: 0 <= i < |prev| ==> prev[i] == r[i];
      } else {
        assert forall i :: 0 <= i < |prev| - 1 ==> prev[i] == r[i];
        var last := prev[|prev| - 1];
        assert r[|r| - 1] == last + [c];
        assert LabelChars(last, backslash) by {
          forall k | 0 <= k < |last| ensures LabelChar(last[k], backslash) {
            assert last[k] == r[|r| - 1][k];
          }
        }
        assert LabelChar(r[|r| - 1][|last|], backslash);
      }
      DomainChars(init, backslash);
      forall k | 0 <= k < |s| ensures s[k] == '.' || LabelChar(s[k], backslash) {
        if k < |init| {
          assert s[k] == init[k];
        }
      }
    }
  }

  lemma DomainHasNoAt(d: string, backslash: bool)
    requires DomainOk(d, backslash)
    ensures '@' !in d
  {
    var split := SplitDots(d);
    forall i | 0 <= i < |split| ensures LabelChars(split[i], backslash) {
      assert LabelOk(split, i, backslash);
    }
    DomainChars(d, backslash);
  }

  /** The last occurrence is the one with none after it. */
  lemma {:induction false} LastIndexOfUnique(s: string, c: char, k: nat)
    requires k < |s| && s[k] == c && c !in s[k + 1..]
    ensures LastIndexOf(s, c) == Some(k)
    decreases |s|
  {
    if k < |s| - 1 {
      assert s[|s| - 1] == s[k + 1..][|s| - k - 2];
      assert s[..|s| - 1][k + 1..] == s[k + 1..|s| - 1];
      LastIndexOfUnique(s[..|s| - 1], c, k);
    }
  }

  /** An address is valid exactly when it splits at some '@' into an
      acceptable local part and an acceptable domain. */
  lemma ValidEmailSplit(email: string, backslash: bool)
    ensures IsValidEmailWith(email, backslash) <==>
              exists k :: 0 <= k < |email| && email[k] == '@' && LocalOk(email[..k]) && DomainOk(email[k + 1..], backslash)
  {
    if IsValidEmailWith(email, backslash) {
      var k := LastIndexOf(email, '@').value;
      assert email[k] == '@' && LocalOk(email[..k]) && DomainOk(email[k + 1..], backslash);
    }
    if exists k :: 0 <= k < |email| && email[k] == '@' && LocalOk(email[..k]) && DomainOk(email[k + 1..], backslash) {
      var k :| 0 <= k < |email| && email[k] == '@' && LocalOk(email[..k]) && DomainOk(email[k + 1..], backslash);
      DomainHasNoAt(email[k + 1..], backslash);
      LastIndexOfUnique(email, '@', k);
      assert CheckLabels(SplitDots(email[k + 1..]), 0, backslash);
    }
  }

  lemma AtIsNotLocal()
    ensures !LocalChar('@')
  {
    assert forall i :: 0 <= i < |"!#$%&'*+-/=?^_`.{|}~"| ==> "!#$%&'*+-/=?^_`.{|}~"[i] != '@';
  }

  /** A valid address holds exactly one '@'. */
  lemma ValidEmailOneAt(email: string, backslash: bool)
    requires IsValidEmailWith(email, backslash)
    ensures forall j :: 0 <= j < |email| && j != LastIndexOf(email, '@').value ==> email[j] != '@'
  {
    var k := LastIndexOf(email, '@').value;
    forall j | 0 <= j < |email| && j != k
      ensures email[j] != '@'
    {
      if j < k {
        assert email[j] == email[..k][j];
        assert LocalChar(email[..k][j]);
        AtIsNotLocal();
      } else {
        assert email[j] == email[k + 1..][j - k - 1];
      }
    }
  }

  /** A top-level label of digits only is refused. */
  lemma NumericTopLabelRefused(email: string, backslash: bool)
    ensures IsValidEmailWith(email, backslash) ==>
              var d := email[LastIndexOf(email, '@').value + 1..];
              !AllNumeric(SplitDots(d)[|SplitDots(d)| - 1])
  {
    if IsValidEmailWith(email, backslash) {
      var d := email[LastIndexOf(email, '@').value + 1..];
      var split := SplitDots(d);
      assert LabelOk(split, |split| - 1, backslash);
    }
  }

  /** The pattern as written accepts a backslash in a domain label, which
      the intended pattern refuses. */
  lemma BackslashInLabel()
    ensures IsValidEmailAsWritten("a@b\\c.nl")
    ensures !IsValidEmail("a@b\\c.nl")
  {
    ExampleLabels();
    ExampleSplit();
    TwoLabelAddress("a", "b\\c", "nl", true);
    assert "a@b\\c.nl" == "a" + "@" + "b\\c" + "." + "nl";
    assert "a@b\\c.nl"[3] == '\\';
    IntendedRefusesBackslash("a@b\\c.nl");
  }

  /** A local part, an '@' and two acceptable labels joined at a dot make
      a valid address. */
  lemma TwoLabelAddress(localPart: string, l0: string, l1: string, backslash: bool)
    requires LocalOk(localPart) && '.' !in l0 && '.' !in l1
    requires LabelOk([l0, l1], 0, backslash) && LabelOk([l0, l1], 1, backslash)
    ensures IsValidEmailWith(localPart + "@" + l0 + "." + l1, backslash)
  {
    var e := localPart + "@" + l0 + "." + l1;
    var k := |localPart|;
    SplitTwo(l0, l1);
    assert e[..k] == localPart && e[k] == '@' && e[k + 1..] == l0 + "." + l1;
    assert forall j :: 0 <= j < 2 ==> LabelOk([l0, l1], j, backslash);
    assert DomainOk(e[k + 1..], backslash);
    ValidEmailSplit(e, backslash);
  }

  /** The intended pattern never accepts a backslash. */
  lemma IntendedRefusesBackslash(email: string)
    ensures IsValidEmail(email) ==> '\\' !in email
  {
    if IsValidEmail(email) {
      var k := LastIndexOf(email, '@').value;
      var d := email[k + 1..];
      var split := SplitDots(d);
      forall i | 0 <= i < |split| ensures LabelChars(split[i], false) {
        assert LabelOk(split, i, false);
      }
      DomainChars(d, false);
      forall j | 0 <= j < |email|
        ensures email[j] != '\\'
      {
        if j < k {
          assert LocalChar(email[..k][j]);
          BackslashIsNotLocal();
        } else if j > k {
          assert email[j] == d[j - k - 1];
        }
      }
    }
  }

  lemma BackslashIsNotLocal()
    ensures !LocalChar('\\')
  {
    assert forall i :: 0 <= i < |"!#$%&'*+-/=?^_`.{|}~"| ==> "!#$%&'*+-/=?^_`.{|}~"[i] != '\\';
  }

  /** The intended pattern accepts exactly the addresses the pattern as
      written accepts that hold no backslash. */
  lemma IntendedIsWrittenWithoutBackslash(email: string)
    ensures IsValidEmail(email) <==> IsValidEmailAsWritten(email) && '\\' !in email
  {
    IntendedRefusesBackslash(email);
    if '\\' !in email {
      AgreeWithoutBackslash(email);
    }
  }

  lemma ExampleSplit()
    ensures SplitDots("b\\c.nl") == ["b\\c", "nl"]
  {
    var l0 := "b\\c";
    var l1 := "nl";
    assert '.' !in l0 by {
      assert l0[0] != '.' && l0[1] != '.' && l0[2] != '.';
    }
    assert '.' !in l1 by {
      assert l1[0] != '.' && l1[1] != '.';
    }
    SplitTwo(l0, l1);
    assert "b\\c.nl" == l0 + "." + l1;
  }

  /** Two labels without dots joined at a dot split back into the two. */
  lemma SplitTwo(l0: string, l1: string)
    requires '.' !in l0 && '.' !in l1
    ensures SplitDots(l0 + "." + l1) == [l0, l1]
  {
    SplitNoDot(l0);
    SplitNoDot(l1);
    SplitAppend(l0, l1);
  }

  lemma ExampleLabels()
    ensures LabelOk(["b\\c", "nl"], 0, true) && LabelOk(["b\\c", "nl"], 1, true)
    ensures !LabelOk(["b\\c", "nl"], 0, false)
  {
    var l0 := "b\\c";
    var l1 := "nl";
    assert LabelChars(l0, true) by {
      assert LabelChar(l0[0], true) && LabelChar(l0[1], true) && LabelChar(l0[2], true);
    }
    assert !LabelChars(l0, false) by {
      assert !LabelChar(l0[1], false);
    }
    assert LabelChars(l1, true) by {
      assert LabelChar(l1[0], true) && LabelChar(l1[1], true);
    }
    assert !AllNumeric(l1) by {
      assert !('0' <= l1[0] <= '9');
    }
  }

  lemma {:induction false} SplitNoDot(s: string)
    requires '.' !in s
    ensures SplitDots(s) == [s]
    decreases |s|
  {
    if |s| > 0 {
      SplitNoDot(s[..|s| - 1]);
      assert s[..|s| - 1] + [s[|s| - 1]] == s;
    }
  }

  /** Splitting text joined at a dot splits each side. */
  lemma {:induction false} SplitAppend(a: string, b: string)
    ensures SplitDots(a + "." + b) == SplitDots(a) + SplitDots(b)
    decreases |b|
  {
    var s := a + "." + b;
    if |b| == 0 {
      assert s[..|s| - 1] == a;
      assert SplitDots(s) == SplitDots(a) + [""];
      assert SplitDots(b) == [""];
    } else {
      var init := b[..|b| - 1];
      var c := b[|b| - 1];
      SplitAppend(a, init);
      assert s[..|s| - 1] == a + "." + init && s[|s| - 1] == c;
      SplitSnoc(s);
      SplitSnoc(b);
      StepAppend(SplitDots(a), SplitDots(init), c);
    }
  }

  lemma StepAppend(A: seq<string>, Q: seq<string>, c: char)
    requires |Q| >= 1
    ensures SplitStep(A + Q, c) == A + SplitStep(Q, c)
  {
    if c != '.' {
      assert (A + Q)[..|A + Q| - 1] == A + Q[..|Q| - 1];
    }
  }

  /** The two patterns agree on every address without a backslash. */
  lemma AgreeWithoutBackslash(email: string)
    requires '\\' !in email
    ensures IsValidEmailAsWritten(email) == IsValidEmail(email)
  {
    var sep := LastIndexOf(email, '@');
    if |email| > 0 && sep.Some? {
      var d := email[sep.value + 1..];
      var split := SplitDots(d);
      forall j | 0 <= j < |split|
        ensures LabelOk(split, j, true) == LabelOk(split, j, false)
      {
        forall m | 0 <= m < |split[j]|
          ensures LabelChar(split[j][m], true) == LabelChar(split[j][m], false)
        {
          var x := LabelInDomain(d, j, m);
          assert split[j][m] == email[sep.value + 1 + x];
        }
      }
      assert CheckLabels(split, 0, true) == CheckLabels(split, 0, false);
    }
  }

  /** Each character of a label occurs in the text that was split, at
      the position returned. */
  lemma {:induction false} LabelInDomain(s: string, j: nat, m: nat) returns (x: nat)
    requires j < |SplitDots(s)| && m < |SplitDots(s)[j]|
    ensures x < |s| && s[x] == SplitDots(s)[j][m]
    decreases |s|
  {
    var init := s[..|s| - 1];
    var prev := SplitDots(init);
    var r := SplitDots(s);
    var c := s[|s| - 1];
    if c == '.' {
      assert r[j] == prev[j];
      x := LabelInDomain(init, j, m);
    } else if j < |prev| - 1 {
      assert r[j] == prev[j];
      x := LabelInDomain(init, j, m);
    } else if m < |prev[|prev| - 1]| {
      assert r[j][m] == prev[|prev| - 1][m];
      x := LabelInDomain(init, |prev| - 1, m);
    } else {
      x := |s| - 1;
    }
  }

  /** The error a click can report: the key of the error object and its
      message. */
  datatype SignupError = InvalidEmail | PasswordTooShort | NoRepeatPasswordMatch {
    function Field(): string {
      if this == InvalidEmail then "emailError" else "passwordError"
    }
    function Message(): string {
      match this
      case InvalidEmail => "invalid_email_address"
      case PasswordTooShort => "password_too_short"
      case NoRepeatPasswordMatch => "no_repeat_password_match"
    }
  }

  /** What a click on the sign-up button leads to: the error object passed
      back with its one error, or the sign-up request with the address, the
      password and the profile. */
  datatype SignupStep =
    | Rejected(error: SignupError)
    | Submit(email: string, password: string, profile: map<string, string>)
  {
    /** The error object handed to the animator. */
    function Errors(): map<string, string>
      requires Rejected?
    {
      map[error.Field() := error.Message()]
    }
  }

  /** The fields of the form as typed. */
  datatype SignupForm = SignupForm(firstName: string, lastName: string, email: string, password: string, repeatPassword: string)

  const MIN_PASSWORD_LENGTH := 6

  /** `s.length` in JavaScript: the number of UTF-16 code units. */
  function Length(s: string): (n: nat)
    ensures n >= |s|
  {
    |JavaText.Utf16(s)|
  }

  /** The profile: the trimmed names that are not empty. */
  function ProfileOf(firstName: string, lastName: string): (r: map<string, string>)
    ensures "firstName" in r <==> |firstName| != 0
    ensures "lastName" in r <==> |lastName| != 0
    ensures "firstName" in r ==> r["firstName"] == firstName
    ensures "lastName" in r ==> r["lastName"] == lastName
    ensures r.Keys <= {"firstName", "lastName"}
  {
    var profile := map[];
    var profile := if |firstName| != 0 then profile["firstName" := firstName] else profile;
    if |lastName| != 0 then profile["lastName" := lastName] else profile
  }

  /** The first error in the order of the checks: the address, then the
      password length, then the repeated password. */
  function FirstError(validEmail: bool, password: string, repeatPassword: string): (r: Option<SignupError>)
    ensures r == Some(InvalidEmail) <==> !validEmail
    ensures r == Some(PasswordTooShort) <==> validEmail && Length(password) < MIN_PASSWORD_LENGTH
    ensures r == Some(NoRepeatPasswordMatch) <==>
              validEmail && Length(password) >= MIN_PASSWORD_LENGTH && password != repeatPassword
    ensures r.None? <==> validEmail && Length(password) >= MIN_PASSWORD_LENGTH && password == repeatPassword
  {
    if !validEmail then Some(InvalidEmail)
    else if Length(password) < MIN_PASSWORD_LENGTH then Some(PasswordTooShort)
    else if password != repeatPassword then Some(NoRepeatPasswordMatch)
    else None
  }

  /** `_onSignupClick`: only the first error is reported; otherwise the
      trimmed address, the password and the profile are sent. */
  function SignupClick(form: SignupForm): (r: SignupStep)
    ensures var e := FirstError(IsValidEmail(JsText.Trim(form.email)), form.password, form.repeatPassword);
            && (r.Rejected? <==> e.Some?)
            && (r.Rejected? ==> r.error == e.value)
    ensures r.Submit? ==> r.email == JsText.Trim(form.email) && IsValidEmail(r.email) &&
                          r.password == form.password == form.repeatPassword && Length(r.password) >= MIN_PASSWORD_LENGTH
    ensures r.Submit? ==> r.profile == ProfileOf(JsText.Trim(form.firstName), JsText.Trim(form.lastName))
  {
    var profile := ProfileOf(JsText.Trim(form.firstName), JsText.Trim(form.lastName));
    var email := JsText.Trim(form.email);
    var error := FirstError(IsValidEmail(email), form.password, form.repeatPassword);
    if error.Some? then Rejected(error.value) else Submit(email, form.password, profile)
  }

  /** The error object always holds exactly one error. */
  lemma OneErrorShown(form: SignupForm)
    ensures SignupClick(form).Rejected? ==> |SignupClick(form).Errors()| == 1
  {
  }
}
