/** The account protection of the authentication controller: the failed
    login counter and the temporary block, the expiry of email verification
    codes, the cleaning and the limits of multi-factor records, phone number
    masking and the choice of the default multi-factor record. Times are
    milliseconds. Password hashing is outside the model: a login attempt
    comes with the outcome of the password check. */
module AuthController {
  import opened Wrappers
  import JavaText

  const MAX_FAILED_LOGINS: int := 10
  /** `ACCOUNT_BLOCK_DURATION`, 60 seconds. */
  const ACCOUNT_BLOCK_MILLIS: int := 60_000
  /** `EMAIL_CODE_VALID_DURATION`, 24 hours. */
  const EMAIL_CODE_VALID_MILLIS: int := 86_400_000
  const MAX_MFA_ADD_COUNT: int := 10
  /** `MAX_MFA_ADD_MINUTES`, 60 minutes. */
  const MAX_MFA_ADD_MILLIS: int := 3_600_000
  const MAX_MFA_VERIFY_COUNT: int := 10
  /** `MAX_MFA_VERIFY_MINUTES`, 15 minutes. */
  const MAX_MFA_VERIFY_MILLIS: int := 900_000

  // ---------------------------------------------------------------- login

  /** The failed login counter and the block of a user. */
  datatype LoginState = LoginState(failedLogins: int, blockedUntil: Option<int>)

  const INITIAL_LOGIN: LoginState := LoginState(0, None)

  /** The outcome of comparing the password with the stored hash; a match
      with the deprecated hash counts as a match. */
  datatype PasswordCheck = PasswordMatches | PasswordWrong

  /** The `UnauthorizedException` error codes of a login. */
  datatype LoginError = InvalidCredentials | AccountBlocked | AccountInactive

  /** The account is blocked until and including `blockedUntil`. */
  predicate Blocked(st: LoginState, now: int) {
    st.blockedUntil.Some? && now <= st.blockedUntil.value
  }

  /** The counter never exceeds the maximum, and a block is only set at the
      maximum. */
  predicate Consistent(st: LoginState) {
    0 <= st.failedLogins <= MAX_FAILED_LOGINS &&
    (st.blockedUntil.Some? ==> st.failedLogins == MAX_FAILED_LOGINS)
  }

  /** One login attempt of a known user: a blocked account is rejected
      before the password is looked at; a wrong password counts a failure
      (saturating at the maximum, where every failure sets the block to one
      minute from now); a right password resets the counter and the block,
      and then an inactive account is still rejected. */
  function LoginStep(st: LoginState, now: int, check: PasswordCheck, active: bool)
    : (r: (LoginState, Result<(), LoginError>))
    ensures Blocked(st, now) ==> r == (st, Err(AccountBlocked))
    ensures !Blocked(st, now) ==> (r.1.Ok? <==> check.PasswordMatches? && active)
    ensures Consistent(st) ==> Consistent(r.0)
  {
    if Blocked(st, now) then (st, Err(AccountBlocked))
    else if check == PasswordWrong then
      var failed := if st.failedLogins < MAX_FAILED_LOGINS then st.failedLogins + 1 else st.failedLogins;
      var blocked := if failed >= MAX_FAILED_LOGINS then Some(now + ACCOUNT_BLOCK_MILLIS) else st.blockedUntil;
      (LoginState(failed, blocked), Err(InvalidCredentials))
    else
      var reset := if st.failedLogins != 0 then INITIAL_LOGIN else st;
      (reset, if active then Ok(()) else Err(AccountInactive))
  }

  /** A right password while not blocked leaves a consistent counter at its
      initial state. */
  lemma SuccessResets(st: LoginState, now: int, active: bool)
    requires Consistent(st) && !Blocked(st, now)
    ensures LoginStep(st, now, PasswordMatches, active).0 == INITIAL_LOGIN
  {
  }

  /** Failed attempts at the given times, one after the other. */
  function Failures(st: LoginState, times: seq<int>): LoginState
    decreases |times|
  {
    if |times| == 0 then st
    else Failures(LoginStep(st, times[0], PasswordWrong, true).0, times[1..])
  }

  /** From the initial state, fewer than the maximum number of failures
      count up without blocking, and the failure that reaches the maximum
      blocks the account for one minute from its time. */
  lemma {:induction false} FailuresCount(st: LoginState, times: seq<int>)
    requires st.blockedUntil.None? && 0 <= st.failedLogins
    requires st.failedLogins + |times| <= MAX_FAILED_LOGINS
    decreases |times|
    ensures Failures(st, times).failedLogins == st.failedLogins + |times|
    ensures Failures(st, times).blockedUntil ==
              if st.failedLogins + |times| == MAX_FAILED_LOGINS && |times| > 0
              then Some(times[|times| - 1] + ACCOUNT_BLOCK_MILLIS) else None
  {
    if |times| > 0 {
      var next := LoginStep(st, times[0], PasswordWrong, true).0;
      if |times| == 1 {
        assert times[1..] == [];
      } else {
        assert next.blockedUntil.None?;
        FailuresCount(next, times[1..]);
        assert times[1..][|times[1..]| - 1] == times[|times| - 1];
      }
    }
  }

  /** At the maximum every further failure moves the block to one minute
      after it, also while the block is running out. */
  lemma FailureAtMaximumExtendsBlock(st: LoginState, now: int)
    requires Consistent(st) && st.failedLogins == MAX_FAILED_LOGINS && !Blocked(st, now)
    ensures LoginStep(st, now, PasswordWrong, true).0 == LoginState(MAX_FAILED_LOGINS, Some(now + ACCOUNT_BLOCK_MILLIS))
    ensures forall t :: now <= t ==>
              (Blocked(LoginStep(st, now, PasswordWrong, true).0, t) <==> t <= now + ACCOUNT_BLOCK_MILLIS)
  {
  }

  // ------------------------------------------------------- email codes

  /** The email fields of a user. */
  datatype EmailState = EmailState(email: string, emailVerified: bool, pending: Option<string>,
                                   code: Option<string>, codeTime: Option<int>)

  /** A code and its time are set and cleared together. */
  predicate CodeTimed(st: EmailState) {
    st.code.Some? ==> st.codeTime.Some?
  }

  /** The current code is still younger than 24 hours. */
  predicate CodeReusable(st: EmailState, now: int) {
    st.code.Some? && st.codeTime.Some? && now < st.codeTime.value + EMAIL_CODE_VALID_MILLIS
  }

  /** `createEmailVerificationCode`: the current code is reused while it is
      younger than 24 hours, otherwise `newCode` (the random UUID without
      dashes) is the new one. */
  function EmailVerificationCode(st: EmailState, now: int, newCode: string): (r: string)
    ensures CodeReusable(st, now) ==> st.code == Some(r)
    ensures !CodeReusable(st, now) ==> r == newCode
  {
    if st.code.Some? && st.codeTime.Some? && now < st.codeTime.value + EMAIL_CODE_VALID_MILLIS then st.code.value
    else newCode
  }

  /** `sendNewUserMail`: the code is stored with the current time, also when
      it is reused. */
  function CodeSent(st: EmailState, now: int, newCode: string): (r: EmailState)
    ensures CodeTimed(r) && r.codeTime == Some(now)
    ensures r.email == st.email && r.pending == st.pending && r.emailVerified == st.emailVerified
  {
    st.(code := Some(EmailVerificationCode(st, now, newCode)), codeTime := Some(now))
  }

  /** `verifyEmail` for an existing user: without a code, or with another
      or an expired code, the request is invalid, and the stored code is
      cleared; otherwise the email is verified, a pending email replaces the
      current one, and the code is cleared. */
  function VerifyEmailStep(st: EmailState, now: int, code: string): (r: (EmailState, Result<(), string>))
    requires CodeTimed(st)
    ensures r.1.Ok? <==> st.code == Some(code) && now <= st.codeTime.value + EMAIL_CODE_VALID_MILLIS
    ensures r.1.Err? ==> r.1.error == "The confirmation code is invalid or no longer valid"
    ensures r.1.Err? ==> r.0 == st.(code := None, codeTime := if st.code.None? then st.codeTime else None)
    ensures r.1.Ok? ==> r.0.emailVerified && r.0.pending.None? && r.0.code.None? && r.0.codeTime.None?
    ensures r.1.Ok? ==> r.0.email == if st.pending.Some? then st.pending.value else st.email
  {
    var invalid := "The confirmation code is invalid or no longer valid";
    if st.code.None? then (st, Err(invalid))
    else if st.code.value != code || now > st.codeTime.value + EMAIL_CODE_VALID_MILLIS then
      (st.(code := None, codeTime := None), Err(invalid))
    else
      var email := if st.pending.Some? then st.pending.value else st.email;
      (st.(email := email, emailVerified := true, pending := None, code := None, codeTime := None), Ok(()))
  }

  /** A sent code is accepted up to and including 24 hours after it was
      sent, not later, and only once. */
  lemma SentCodeVerifies(st: EmailState, now: int, newCode: string, later: int)
    requires now <= later
    ensures var sent := CodeSent(st, now, newCode);
            var code := sent.code.value;
            var r := VerifyEmailStep(sent, later, code);
            (r.1.Ok? <==> later <= now + EMAIL_CODE_VALID_MILLIS) &&
            VerifyEmailStep(r.0, later, code).1.Err?
  {
  }

  /** Sending again within 24 hours keeps the code and restarts its 24
      hours, so a code stays the same while mails follow each other within
      a day. */
  lemma ResentCodeKept(st: EmailState, now: int, newCode: string, later: int, newerCode: string)
    requires now <= later < now + EMAIL_CODE_VALID_MILLIS
    ensures CodeSent(CodeSent(st, now, newCode), later, newerCode).code == CodeSent(st, now, newCode).code
    ensures CodeSent(CodeSent(st, now, newCode), later, newerCode).codeTime == Some(later)
  {
  }

  // -------------------------------------------------------- MFA records

  datatype MfaStatus = Created | VerifySuccess

  /** `PrivateMfaRecord`: its id, type, creation time, status and the
      times verification codes were requested. */
  datatype MfaRecord = MfaRecord(id: string, mfaType: string, created: int, status: MfaStatus,
                                 verifyTimes: seq<int>)

  /** The times at or after `minTime`, in order. */
  function RecentTimes(times: seq<int>, minTime: int): (r: seq<int>)
    ensures forall t :: t in r <==> t in times && t >= minTime
    ensures |r| <= |times|
  {
    if |times| == 0 then []
    else
      var rest := RecentTimes(times[..|times| - 1], minTime);
      var last := times[|times| - 1];
      assert forall t :: t in times <==> t in times[..|times| - 1] || t == last;
      if last >= minTime then rest + [last] else rest
  }

  lemma {:induction false} RecentTimesIdempotent(times: seq<int>, minTime: int)
    ensures RecentTimes(RecentTimes(times, minTime), minTime) == RecentTimes(times, minTime)
  {
    if |times| > 0 {
      var init := times[..|times| - 1];
      RecentTimesIdempotent(init, minTime);
      var rest := RecentTimes(init, minTime);
      var last := times[|times| - 1];
      if last >= minTime {
        assert (rest + [last])[..|rest + [last]| - 1] == rest;
      }
    }
  }

  /** `cleanMfaRecordVerifyTimes`: the iterator walk removing the times
      before `minTime`; `changed` tells whether one was removed. */
  method CleanMfaRecordVerifyTimes(times: seq<int>, minTime: int) returns (kept: seq<int>, changed: bool)
    ensures kept == RecentTimes(times, minTime)
    ensures changed <==> exists i :: 0 <= i < |times| && times[i] < minTime
  {
    kept := [];
    changed := false;
    var n := 0;
    while n < |times|
      invariant 0 <= n <= |times|
      invariant kept == RecentTimes(times[..n], minTime)
      invariant changed <==> exists i :: 0 <= i < n && times[i] < minTime
    {
      assert times[..n + 1][..n] == times[..n];
      if times[n] < minTime {
        changed := true;
      } else {
        kept := kept + [times[n]];
      }
      n := n + 1;
    }
    assert times[..n] == times;
  }

  /** One record as `cleanMfaRecords` treats it: a verified record keeps
      only its verify times of the last 15 minutes, an unverified record
      created more than 60 minutes ago is removed. */
  function CleanedRecord(x: MfaRecord, now: int): Option<MfaRecord> {
    if x.status == VerifySuccess then Some(x.(verifyTimes := RecentTimes(x.verifyTimes, now - MAX_MFA_VERIFY_MILLIS)))
    else if x.created < now - MAX_MFA_ADD_MILLIS then None
    else Some(x)
  }

  /** `cleanMfaRecords` on the record list. */
  function CleanedMfa(records: seq<MfaRecord>, now: int): (r: seq<MfaRecord>)
    ensures |r| <= |records|
    ensures forall x :: x in r ==> exists y :: y in records && CleanedRecord(y, now) == Some(x)
    ensures forall y :: y in records && CleanedRecord(y, now).Some? ==> CleanedRecord(y, now).value in r
  {
    if |records| == 0 then []
    else
      var init := records[..|records| - 1];
      var rest := CleanedMfa(init, now);
      var last := records[|records| - 1];
      assert forall y :: y in records <==> y in init || y == last;
      match CleanedRecord(last, now)
      case None => rest
      case Some(x) => rest + [x]
  }

  /** After cleaning, verified records have only recent verify times and
      unverified ones were created in the last hour; verified records are
      all kept. */
  lemma CleanedMfaBounds(records: seq<MfaRecord>, now: int)
    ensures forall x :: x in CleanedMfa(records, now) && x.status == VerifySuccess ==>
              forall t :: t in x.verifyTimes ==> t >= now - MAX_MFA_VERIFY_MILLIS
    ensures forall x :: x in CleanedMfa(records, now) && x.status == Created ==>
              x in records && x.created >= now - MAX_MFA_ADD_MILLIS
    ensures forall y :: y in records && y.status == VerifySuccess ==>
              y.(verifyTimes := RecentTimes(y.verifyTimes, now - MAX_MFA_VERIFY_MILLIS)) in CleanedMfa(records, now)
  {
    forall x | x in CleanedMfa(records, now)
      ensures x.status == VerifySuccess ==> forall t :: t in x.verifyTimes ==> t >= now - MAX_MFA_VERIFY_MILLIS
      ensures x.status == Created ==> x in records && x.created >= now - MAX_MFA_ADD_MILLIS
    {
      var y :| y in records && CleanedRecord(y, now) == Some(x);
    }
    forall y | y in records && y.status == VerifySuccess
      ensures y.(verifyTimes := RecentTimes(y.verifyTimes, now - MAX_MFA_VERIFY_MILLIS)) in CleanedMfa(records, now)
    {
      assert CleanedRecord(y, now).Some?;
    }
  }

  lemma CleanedRecordIdempotent(x: MfaRecord, now: int)
    requires CleanedRecord(x, now).Some?
    ensures CleanedRecord(CleanedRecord(x, now).value, now) == CleanedRecord(x, now)
  {
    if x.status == VerifySuccess {
      RecentTimesIdempotent(x.verifyTimes, now - MAX_MFA_VERIFY_MILLIS);
    }
  }

  /** Cleaning twice at the same time is cleaning once. */
  lemma {:induction false} CleanedMfaIdempotent(records: seq<MfaRecord>, now: int)
    ensures CleanedMfa(CleanedMfa(records, now), now) == CleanedMfa(records, now)
  {
    if |records| > 0 {
      var init := records[..|records| - 1];
      CleanedMfaIdempotent(init, now);
      var rest := CleanedMfa(init, now);
      var last := records[|records| - 1];
      match CleanedRecord(last, now)
      case None =>
      case Some(x) =>
        CleanedRecordIdempotent(last, now);
        assert (rest + [x])[..|rest + [x]| - 1] == rest;
    }
  }

  /** `cleanMfaRecords`: the iterator walk over the record list. */
  method CleanMfaRecords(records: seq<MfaRecord>, now: int) returns (r: seq<MfaRecord>)
    ensures r == CleanedMfa(records, now)
  {
    r := [];
    var n := 0;
    while n < |records|
      invariant 0 <= n <= |records|
      invariant r == CleanedMfa(records[..n], now)
    {
      assert records[..n + 1][..n] == records[..n];
      var x := records[n];
      if x.status == VerifySuccess {
        var kept, _ := CleanMfaRecordVerifyTimes(x.verifyTimes, now - MAX_MFA_VERIFY_MILLIS);
        r := r + [x.(verifyTimes := kept)];
      } else if !(x.created < now - MAX_MFA_ADD_MILLIS) {
        r := r + [x];
      }
      n := n + 1;
    }
    assert records[..n] == records;
  }

  /** The number of unverified records. */
  function UnverifiedCount(records: seq<MfaRecord>): nat {
    if |records| == 0 then 0
    else UnverifiedCount(records[..|records| - 1]) + (if records[|records| - 1].status != VerifySuccess then 1 else 0)
  }

  /** The number of unverified records created at or after `minTime`. */
  function RecentUnverifiedCount(records: seq<MfaRecord>, minTime: int): nat {
    if |records| == 0 then 0
    else
      var last := records[|records| - 1];
      RecentUnverifiedCount(records[..|records| - 1], minTime) +
      (if last.status != VerifySuccess && last.created >= minTime then 1 else 0)
  }

  /** After cleaning, the unverified records counted by the add limit are
      those added in the last hour: the limit is 10 in 60 minutes. */
  lemma {:induction false} CleanedUnverifiedCount(records: seq<MfaRecord>, now: int)
    ensures UnverifiedCount(CleanedMfa(records, now)) == RecentUnverifiedCount(records, now - MAX_MFA_ADD_MILLIS)
  {
    if |records| > 0 {
      var init := records[..|records| - 1];
      CleanedUnverifiedCount(init, now);
      var rest := CleanedMfa(init, now);
      match CleanedRecord(records[|records| - 1], now)
      case None =>
      case Some(x) =>
        assert (rest + [x])[..|rest + [x]| - 1] == rest;
    }
  }

  /** `checkMaxMfaAddCount`. */
  function CheckMaxMfaAddCount(records: seq<MfaRecord>): (r: Result<(), string>)
    ensures r.Ok? <==> UnverifiedCount(records) < MAX_MFA_ADD_COUNT
    ensures r.Err? ==> r.error == "Reached maximum number of add MFA attempts (10 in 60 minutes)"
  {
    if UnverifiedCount(records) >= MAX_MFA_ADD_COUNT then
      Err("Reached maximum number of add MFA attempts (10 in 60 minutes)")
    else Ok(())
  }

  /** `checkMaxMfaVerifyCount`. */
  function CheckMaxMfaVerifyCount(record: MfaRecord): (r: Result<(), string>)
    ensures r.Ok? <==> |record.verifyTimes| < MAX_MFA_VERIFY_COUNT
    ensures r.Err? ==> r.error == "Reached maximum number of MFA verification attempts (10 in 15 minutes)"
  {
    if |record.verifyTimes| >= MAX_MFA_VERIFY_COUNT then
      Err("Reached maximum number of MFA verification attempts (10 in 15 minutes)")
    else Ok(())
  }

  /** After cleaning, a verified record can take a verification request
      when fewer than 10 were requested in the last 15 minutes. */
  lemma VerifyLimitWindow(x: MfaRecord, now: int)
    requires x.status == VerifySuccess
    ensures CleanedRecord(x, now).Some?
    ensures CheckMaxMfaVerifyCount(CleanedRecord(x, now).value).Ok? <==>
              |RecentTimes(x.verifyTimes, now - MAX_MFA_VERIFY_MILLIS)| < MAX_MFA_VERIFY_COUNT
  {
  }

  /** `getVerifiedMfaTypeCount`: verified records of the type. The verified
      records are those with status `VERIFY_SUCCESS`. */
  function VerifiedTypeCount(records: seq<MfaRecord>, mfaType: string): (r: nat)
    ensures r <= |records|
  {
    if |records| == 0 then 0
    else
      var last := records[|records| - 1];
      VerifiedTypeCount(records[..|records| - 1], mfaType) +
      (if last.status == VerifySuccess && last.mfaType == mfaType then 1 else 0)
  }

  /** `checkMaxMfaType`: fails only when the count equals the maximum. */
  function CheckMaxMfaType(records: seq<MfaRecord>, mfaType: string, max: int): (r: Result<(), string>)
    ensures r.Err? <==> VerifiedTypeCount(records, mfaType) == max
    ensures r.Err? ==> r.error == "Already reached maximum number (" + JavaText.LongToString(max)
                                  + ") of MFA records with type \"" + mfaType + "\""
  {
    if VerifiedTypeCount(records, mfaType) == max then
      Err("Already reached maximum number (" + JavaText.LongToString(max) + ") of MFA records with type \""
          + mfaType + "\"")
    else Ok(())
  }

  /** The type limit compares for equality: a count already above the
      maximum passes. */
  lemma TypeLimitOnlyAtExactCount(records: seq<MfaRecord>, mfaType: string, max: int)
    requires VerifiedTypeCount(records, mfaType) > max
    ensures CheckMaxMfaType(records, mfaType, max).Ok?
  {
  }

  /** `getPartialPhoneNumber`: short numbers unchanged; otherwise the first
      three and the last two characters stay and the rest becomes '*'. */
  function PartialPhoneNumber(phone: string): (r: string)
    ensures |phone| < 5 ==> r == phone
    ensures |r| == |phone|
    ensures |phone| >= 5 ==> r[..3] == phone[..3] && r[|r| - 2..] == phone[|phone| - 2..]
    ensures |phone| >= 5 ==> forall i :: 3 <= i < |r| - 2 ==> r[i] == '*'
  {
    if |phone| < 5 then phone
    else phone[..3] + Stars(|phone| - 5) + phone[|phone| - 2..]
  }

  /** `"*".repeat(n)`. */
  function Stars(n: nat): (r: string)
    ensures |r| == n && forall i :: 0 <= i < n ==> r[i] == '*'
  {
    if n == 0 then [] else Stars(n - 1) + ['*']
  }

  /** Masking keeps the length and masking a masked number changes nothing
      more. */
  lemma PartialPhoneNumberIdempotent(phone: string)
    ensures PartialPhoneNumber(PartialPhoneNumber(phone)) == PartialPhoneNumber(phone)
  {
    var r := PartialPhoneNumber(phone);
    if |phone| >= 5 {
      var rr := PartialPhoneNumber(r);
      assert forall i :: 0 <= i < |r| ==> rr[i] == r[i] by {
        forall i | 0 <= i < |r|
          ensures rr[i] == r[i]
        {
          if i < 3 {
            assert rr[i] == rr[..3][i] && r[i] == r[..3][i];
          } else if i >= |r| - 2 {
            assert rr[i] == rr[|rr| - 2..][i - (|r| - 2)] && r[i] == r[|r| - 2..][i - (|r| - 2)];
          }
        }
      }
    }
  }

  /** `findMfaRecord`: the first record with the id. */
  function FindMfaRecord(records: seq<MfaRecord>, id: string): (r: Option<nat>)
    ensures r.Some? ==> r.value < |records| && records[r.value].id == id &&
                        forall j :: 0 <= j < r.value ==> records[j].id != id
    ensures r.None? ==> forall j :: 0 <= j < |records| ==> records[j].id != id
  {
    if |records| == 0 then None
    else if records[0].id == id then Some(0)
    else
      var rest := FindMfaRecord(records[1..], id);
      if rest.None? then None else Some(rest.value + 1)
  }

  /** `list.remove(record); list.add(0, record)`. */
  function MovedToFront(records: seq<MfaRecord>, i: nat): (r: seq<MfaRecord>)
    requires i < |records|
    ensures |r| == |records| && r[0] == records[i]
    ensures multiset(r) == multiset(records)
  {
    assert records == records[..i] + [records[i]] + records[i + 1..];
    [records[i]] + records[..i] + records[i + 1..]
  }

  /** Where a record other than the moved one ends up. */
  lemma MovedToFrontAt(records: seq<MfaRecord>, i: nat, j: nat)
    requires i < |records| && j < |records| && j != i
    ensures var r := MovedToFront(records, i);
            if j < i then r[j + 1] == records[j] else r[j] == records[j]
  {
    var r := MovedToFront(records, i);
    if j < i {
      assert r[j + 1] == records[..i][j];
    } else {
      assert r[j] == records[i + 1..][j - i - 1];
    }
  }

  /** After the move the record is the first with its id, and the other
      records keep their relative order: those before it move up by one,
      those after it stay where they were. */
  lemma MovedToFrontMeans(records: seq<MfaRecord>, i: nat)
    requires i < |records|
    ensures FindMfaRecord(MovedToFront(records, i), records[i].id) == Some(0)
    ensures forall j :: 0 <= j < |records| && j != i ==>
              MovedToFront(records, i)[if j < i then j + 1 else j] == records[j]
  {
    forall j | 0 <= j < |records| && j != i
      ensures MovedToFront(records, i)[if j < i then j + 1 else j] == records[j]
    {
      MovedToFrontAt(records, i, j);
    }
  }

  /** `setDefaultMfaRecord` on the cleaned list: the verified record with
      the id moves to the front, an unknown or unverified id is not found. */
  function DefaultMfaSet(records: seq<MfaRecord>, id: string): (r: Result<seq<MfaRecord>, string>)
    ensures r.Err? <==> FindMfaRecord(records, id).None? ||
                         records[FindMfaRecord(records, id).value].status != VerifySuccess
    ensures r.Ok? ==> multiset(r.value) == multiset(records) && r.value[0].id == id &&
                      r.value[0].status == VerifySuccess
    ensures r.Err? ==> r.error == "MFA record not found"
  {
    var found := FindMfaRecord(records, id);
    if found.None? || records[found.value].status != VerifySuccess then Err("MFA record not found")
    else Ok(MovedToFront(records, found.value))
  }

  /** Making the default record the default again changes nothing. */
  lemma SetDefaultIdempotent(records: seq<MfaRecord>, id: string)
    requires DefaultMfaSet(records, id).Ok?
    ensures DefaultMfaSet(DefaultMfaSet(records, id).value, id) == DefaultMfaSet(records, id)
  {
    var r := DefaultMfaSet(records, id).value;
    MovedToFrontMeans(records, FindMfaRecord(records, id).value);
    assert [r[0]] + r[..0] + r[1..] == r;
  }

  // --------------------------------------------------------------- user

  /** The state of a user that the controller changes. */
  class AuthUser {
    var failedLogins: int
    var accountBlockedUntil: Option<int>
    var active: bool
    var mfaList: seq<MfaRecord>
    var email: EmailState

    function Counter(): LoginState
      reads this
    {
      LoginState(failedLogins, accountBlockedUntil)
    }

    constructor (active: bool, email: EmailState)
      ensures Counter() == INITIAL_LOGIN && this.active == active && mfaList == [] && this.email == email
    {
      failedLogins := 0;
      accountBlockedUntil := None;
      this.active := active;
      mfaList := [];
      this.email := email;
    }

    /** The part of `loginByEmail` after the user is found: the records are
        cleaned, then the block and the password are checked. */
    method Login(now: int, check: PasswordCheck) returns (r: Result<(), LoginError>)
      modifies this
      ensures mfaList == CleanedMfa(old(mfaList), now)
      ensures (Counter(), r) == LoginStep(old(Counter()), now, check, active)
      ensures active == old(active) && email == old(email)
    {
      mfaList := CleanMfaRecords(mfaList, now);
      if accountBlockedUntil.Some? && !(now > accountBlockedUntil.value) {
        return Err(AccountBlocked);
      }
      if check == PasswordWrong {
        var failed := failedLogins;
        if failed < MAX_FAILED_LOGINS {
          failed := failed + 1;
          failedLogins := failed;
        }
        if failed >= MAX_FAILED_LOGINS {
          accountBlockedUntil := Some(now + ACCOUNT_BLOCK_MILLIS);
        }
        return Err(InvalidCredentials);
      }
      if failedLogins != 0 {
        failedLogins := 0;
        accountBlockedUntil := None;
      }
      if !active {
        return Err(AccountInactive);
      }
      return Ok(());
    }

    /** `verifyEmail` for this user. */
    method VerifyEmail(now: int, code: string) returns (r: Result<(), string>)
      requires CodeTimed(email)
      modifies this
      ensures (email, r) == VerifyEmailStep(old(email), now, code)
      ensures Counter() == old(Counter()) && mfaList == old(mfaList) && active == old(active)
    {
      var invalid := "The confirmation code is invalid or no longer valid";
      if email.code.None? {
        return Err(invalid);
      }
      if email.code.value != code || now > email.codeTime.value + EMAIL_CODE_VALID_MILLIS {
        email := email.(code := None, codeTime := None);
        return Err(invalid);
      }
      email := email.(emailVerified := true);
      if email.pending.Some? {
        email := email.(email := email.pending.value, pending := None);
      }
      email := email.(code := None, codeTime := None);
      return Ok(());
    }

    /** `setDefaultMfaRecord`. */
    method SetDefaultMfaRecord(now: int, id: string) returns (r: Result<(), string>)
      modifies this
      ensures var d := DefaultMfaSet(CleanedMfa(old(mfaList), now), id);
              r.Ok? == d.Ok? && mfaList == (if d.Ok? then d.value else CleanedMfa(old(mfaList), now))
      ensures Counter() == old(Counter()) && email == old(email) && active == old(active)
    {
      mfaList := CleanMfaRecords(mfaList, now);
      var found := FindMfaRecord(mfaList, id);
      if found.None? || mfaList[found.value].status != VerifySuccess {
        return Err("MFA record not found");
      }
      mfaList := MovedToFront(mfaList, found.value);
      return Ok(());
    }
  }
}
